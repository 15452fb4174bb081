/** Messages survive the wire: writing then reading, and reading then writing. */
module OscMessageLaws {
  import opened Basics
  import opened OscMessage

  // ----- writing

  /** Pushing arguments appends their tags and encodings and touches nothing else. */
  lemma {:induction false} PushedAllAppends(m: Msg, args: seq<Arg>)
    requires forall i :: 0 <= i < |args| ==> GoodArg(args[i])
    ensures var r := PushedAll(m, args);
      && r.storage == m.storage + Encoded(args) && r.typeTags == m.typeTags + Tags(args)
      && r.address == m.address && r.timeTag == m.timeTag && r.err == m.err
    decreases |args|
  {
    hide Padded, Raw, Tag;
    if |args| == 0 {
      assert m.storage + [] == m.storage && m.typeTags + Tags(args) == m.typeTags;
    } else {
      var a, rest := args[0], args[1..];
      PushedAllAppends(Pushed(m, a), rest);
      PushedGood(m, a);
      Regroup(m.storage, Padded(Raw(a)), Encoded(rest));
      assert Tags(args) == [Tag(a)] + Tags(rest);
      Regroup(m.typeTags, [Tag(a)], Tags(rest));
    }
  }

  lemma PushedGood(m: Msg, a: Arg)
    requires GoodArg(a)
    ensures Pushed(m, a).storage == m.storage + Padded(Raw(a))
  {
  }

  /** A well-formed message is packed as its wire form, after its size when inside a bundle. */
  lemma PackedIsWire(address: Bytes, args: seq<Arg>, timeTag: uint64, writeSize: bool)
    requires GoodMessage(address, args)
    ensures var m := PushedAll(Started(address, timeTag), args);
      && m.err.OK_NO_ERROR?
      && Packed(m, writeSize) == (if writeSize then Put32(|Wire(address, args)| % TWO32) else []) + Wire(address, args)
  {
    hide Put32, Encoded, Raw, Padded, CString, Tags, Ceil4, PushedAll;
    PushedAllAppends(Started(address, timeTag), args);
    assert [] + Encoded(args) == Encoded(args) && [] + Tags(args) == Tags(args);
    TagsAreNotNul(args);
  }

  lemma TagsAreNotNul(args: seq<Arg>)
    ensures 0 !in [COMMA] + Tags(args)
  {
  }

  // ----- reading back what was written

  ghost predicate At(raw: Bytes, p: nat, b: Bytes) {
    p + |b| <= |raw| && raw[p..p + |b|] == b
  }

  lemma AtIndex(raw: Bytes, p: nat, b: Bytes, i: nat)
    requires At(raw, p, b) && i < |b|
    ensures raw[p + i] == b[i]
  {
    assert raw[p..p + |b|][i] == b[i];
  }

  /** A padded string is found by memchr, and its padding passes the check. */
  lemma PaddedStringIsFound(raw: Bytes, p: nat, s: Bytes)
    requires Aligned(p) && 0 !in s && At(raw, p, Padded(s + [0]))
    ensures IndexOf(raw, 0, p) == p + |s| < |raw|
    ensures ZeroPadded(raw, p + |s| + 1) && Ceil4(p + |s| + 1) == p + |Padded(s + [0])|
    ensures raw[p..p + |s|] == s
  {
    hide Ceil4, Aligned, ZeroPadded, Padded, At;
    PaddingIsFound(raw, p, s + [0]);
    var b := raw[p..p + |s| + 1];
    assert b[|s|] == raw[p + |s|] == 0;
    forall i | p <= i < p + |s|
      ensures raw[i] != 0 && raw[i] == s[i - p]
    {
      assert raw[i] == b[i - p] == s[i - p];
    }
  }

  lemma Ceil4Shift(p: nat, n: nat)
    requires Aligned(p)
    ensures Ceil4(p + n) == p + Ceil4(n)
  {
  }

  lemma PaddingIsFound(raw: Bytes, p: nat, c: Bytes)
    requires Aligned(p) && At(raw, p, Padded(c))
    ensures ZeroPadded(raw, p + |c|) && Ceil4(p + |c|) == p + Ceil4(|c|) <= |raw|
    ensures raw[p..p + |c|] == c
  {
    hide Ceil4;
    var b := Padded(c);
    Ceil4Shift(p, |c|);
    forall i | p + |c| <= i < p + Ceil4(|c|)
      ensures raw[i] == 0
    {
      AtIndex(raw, p, b, i - p);
    }
    assert raw[p..p + |c|] == raw[p..p + |b|][..|c|] == b[..|c|];
  }

  /** getArgSize measures an encoded argument exactly. */
  lemma EncodedSize(raw: Bytes, a: Arg, p: nat)
    requires Aligned(|raw|) && Aligned(p) && GoodArg(a) && At(raw, p, Padded(Raw(a)))
    ensures ArgSize(raw, Tag(a), p) == Known(|Raw(a)|) && raw[p..p + |Raw(a)|] == Raw(a)
  {
    hide Aligned, Ceil4, ZeroPadded, IndexOf, At, Put32, Padded;
    PaddingIsFound(raw, p, Raw(a));
    match a
    case Bool(_) =>
    case Int32(_) =>
    case Int64(_) =>
    case Float(_) =>
    case Double(_) =>
    case Str(s) =>
      PaddedStringIsFound(raw, p, s);
    case Blob(b) =>
      FirstFour(raw, p, Put32(|b|), b);
      WordRoundTrip(|b|, []);
  }

  lemma FirstFour(raw: Bytes, p: nat, head: Bytes, b: Bytes)
    requires |head| == 4 && p + 4 + |b| <= |raw| && raw[p..p + 4 + |b|] == head + b
    ensures raw[p..p + 4] == head
  {
    assert raw[p..p + 4] == raw[p..p + 4 + |b|][..4];
  }

  function Spans(args: seq<Arg>, p: nat): (r: seq<Span>)
    ensures |r| == |args|
  {
    if |args| == 0 then [] else [Span(p, |Raw(args[0])|)] + Spans(args[1..], p + Ceil4(|Raw(args[0])|))
  }

  lemma {:induction false} ScanEncoded(raw: Bytes, tags: Bytes, args: seq<Arg>, k: nat, p: nat)
    requires Aligned(|raw|) && Aligned(p) && p <= |raw| && k <= |tags| && tags[k..] == Tags(args)
    requires raw[p..] == Encoded(args) && forall i :: 0 <= i < |args| ==> GoodArg(args[i])
    ensures ScanArgs(raw, tags, k, p) == Scan(Spans(args, p), OK_NO_ERROR, |raw|)
    decreases |args|
  {
    hide Aligned, Raw, Padded, ArgSize, Tag, Ceil4, At, Tags, Encoded;
    if |args| == 0 {
      assert Encoded(args) == [] && Tags(args) == [] by { NoArguments(); }
      assert k == |tags| && p == |raw|;
    } else {
      var b := Padded(Raw(args[0]));
      EncodedFront(raw, p, args);
      TagsFront(tags, k, args);
      EncodedSize(raw, args[0], p);
      AlignedSum(p, |b|);
      assert raw[p + |b|..] == Encoded(args[1..]);
      ScanEncoded(raw, tags, args[1..], k + 1, p + |b|);
    }
  }

  lemma NoArguments()
    ensures Encoded([]) == [] && Tags([]) == []
  {
  }

  /** Each span holds the encoding of its argument. */
  lemma {:induction false} SpansHold(raw: Bytes, args: seq<Arg>, p: nat, i: nat)
    requires Aligned(|raw|) && Aligned(p) && p <= |raw| && raw[p..] == Encoded(args) && i < |args|
    requires forall j :: 0 <= j < |args| ==> GoodArg(args[j])
    ensures var s := Spans(args, p)[i]; s.pos + s.size <= |raw| && raw[s.pos..s.pos + s.size] == Raw(args[i])
    decreases |args|
  {
    hide Aligned, Raw, Padded, Ceil4, At, Encoded;
    EncodedFront(raw, p, args);
    EncodedSize(raw, args[0], p);
    if i > 0 {
      var n := |Padded(Raw(args[0]))|;
      AlignedSum(p, n);
      SpansHold(raw, args[1..], p + n, i - 1);
    }
  }

  lemma EncodedFront(raw: Bytes, p: nat, args: seq<Arg>)
    requires p <= |raw| && 0 < |args| && raw[p..] == Encoded(args)
    ensures var b := Padded(Raw(args[0])); At(raw, p, b) && raw[p + |b|..] == Encoded(args[1..])
  {
    hide Raw, Padded;
    var b := Padded(Raw(args[0]));
    assert raw[p..p + |b|] == raw[p..][..|b|] == b;
    assert raw[p + |b|..] == raw[p..][|b|..] == Encoded(args[1..]);
  }

  lemma TagsFront(tags: Bytes, k: nat, args: seq<Arg>)
    requires k <= |tags| && 0 < |args| && tags[k..] == Tags(args)
    ensures k < |tags| && tags[k] == Tag(args[0]) && tags[k + 1..] == Tags(args[1..])
  {
    assert tags[k] == tags[k..][0];
    assert tags[k + 1..] == tags[k..][1..] == Tags(args[1..]);
  }

  lemma NulTerminated(s: Bytes)
    requires 0 !in s
    ensures IndexOf(s + [0], 0, 0) == |s| && (s + [0])[..|s|] == s
  {
    var b := s + [0];
    assert b[|s|] == 0;
    forall j | 0 <= j < |s|
      ensures b[j] == s[j] && b[j] != 0
    {
      assert s[j] in s;
    }
  }

  /** The value popped from a span holding the encoding of an argument is that argument. */
  lemma PopEncoded(m: Msg, i: nat, a: Arg)
    requires i < |m.arguments| && i < |m.typeTags| && m.typeTags[i] == Tag(a) && GoodArg(a)
    requires var s := m.arguments[i]; s.pos + s.size <= |m.storage| && m.storage[s.pos..s.pos + s.size] == Raw(a)
    ensures Pop(m, i) == Some(a)
  {
    match a
    case Bool(_) =>
    case Int32(n) => WordRoundTrip(Unsigned32(n), []);
    case Int64(n) => LongRoundTrip(Unsigned64(n), []);
    case Float(f) => WordRoundTrip(f, []);
    case Double(d) => LongRoundTrip(d, []);
    case Str(s) =>
      NulTerminated(s);
    case Blob(s) =>
      assert (Put32(|s| % TWO32) + s)[4..] == s;
  }

  /** Round trip of one message: parsing the wire form of a well-formed message gives no error and
      the same address, type tags and argument values. */
  lemma ReadBack(address: Bytes, args: seq<Arg>, timeTag: uint64)
    requires GoodMessage(address, args)
    ensures var m := Build(Wire(address, args), timeTag);
      && m.err.OK_NO_ERROR? && m.timeTag == timeTag && m.address == address && m.typeTags == Tags(args)
      && |m.arguments| == |args|
      && forall i :: 0 <= i < |args| ==> Pop(m, i) == Some(args[i])
  {
    hide Aligned, Encoded, Raw, Tag, Pop, Padded, Wire, Build, Tags, Ceil4;
    BuildWire(address, args, timeTag);
    var p := Ceil4(|address| + 1) + Ceil4(|args| + 2);
    WireParts(address, args);
    AlignedSum(Ceil4(|address| + 1), Ceil4(|args| + 2));
    var m := Build(Wire(address, args), timeTag);
    forall i | 0 <= i < |args|
      ensures Pop(m, i) == Some(args[i])
    {
      SpansHold(m.storage, args, p, i);
      PopEncoded(m, i, args[i]);
    }
  }

  lemma BuildWire(address: Bytes, args: seq<Arg>, timeTag: uint64)
    requires GoodMessage(address, args)
    ensures Build(Wire(address, args), timeTag) ==
      Msg(timeTag, address, Tags(args), Spans(args, Ceil4(|address| + 1) + Ceil4(|args| + 2)), Wire(address, args),
        OK_NO_ERROR)
  {
    hide *;
    var n, q, p := ScanWire(address, args);
    BuildOfParts(Wire(address, args), timeTag, address, n, q, Tags(args), p, Spans(args, p));
  }

  /** The argument loop on a wire form. */
  lemma ScanWire(address: Bytes, args: seq<Arg>) returns (tagsBeg: nat, tagsEnd: nat, p: nat)
    requires GoodMessage(address, args)
    ensures p == Ceil4(|address| + 1) + Ceil4(|args| + 2)
    ensures Parts(Wire(address, args), address, tagsBeg, tagsEnd, Tags(args), p)
    ensures ScanArgs(Wire(address, args), Tags(args), 0, p) == Scan(Spans(args, p), OK_NO_ERROR, |Wire(address, args)|)
  {
    hide Aligned, Encoded, Raw, Tag, Padded, Wire, Tags, ZeroPadded, Ceil4, ScanArgs, Spans, IndexOf;
    tagsBeg, tagsEnd, p := WireLayout(address, args);
    assert Tags(args)[0..] == Tags(args);
    ScanEncoded(Wire(address, args), Tags(args), args, 0, p);
  }

  /** The address and the type tags are where buildFromRawData looks for them. */
  ghost predicate Parts(raw: Bytes, address: Bytes, tagsBeg: nat, tagsEnd: nat, tags: Bytes, p: nat) {
    && |address| < |raw| && IndexOf(raw, 0, 0) == |address| && ZeroPadded(raw, |address| + 1)
    && raw[0] == SLASH && raw[..|address|] == address
    && tagsBeg == Ceil4(|address| + 1) && tagsBeg < tagsEnd < |raw| && IndexOf(raw, 0, tagsBeg) == tagsEnd
    && ZeroPadded(raw, tagsEnd + 1) && p == Ceil4(tagsEnd + 1) <= |raw|
    && raw[tagsBeg] == COMMA && raw[tagsBeg + 1..tagsEnd] == tags
    && Aligned(p) && Aligned(|raw|)
  }

  lemma ZeroIsAligned()
    ensures Aligned(0)
  {
  }

  /** Where the reader finds the parts of a wire form. */
  lemma WireLayout(address: Bytes, args: seq<Arg>) returns (tagsBeg: nat, tagsEnd: nat, p: nat)
    requires GoodMessage(address, args)
    ensures p == Ceil4(|address| + 1) + Ceil4(|args| + 2)
    ensures Parts(Wire(address, args), address, tagsBeg, tagsEnd, Tags(args), p)
      && Wire(address, args)[p..] == Encoded(args)
  {
    hide Aligned, Encoded, Raw, Tag, Padded, Wire, Tags, ZeroPadded, IndexOf, Ceil4, At;
    var raw, n, m := Wire(address, args), Ceil4(|address| + 1), Ceil4(|args| + 2);
    WireParts(address, args);
    ZeroIsAligned();
    PaddedStringIsFound(raw, 0, address);
    TagsAreNotNul(args);
    PaddedStringIsFound(raw, n, [COMMA] + Tags(args));
    Pieces(raw, address, n, Tags(args));
    AlignedSum(n, m);
    tagsBeg, tagsEnd, p := n, n + 1 + |args|, n + m;
  }

  lemma BuildOfParts(raw: Bytes, timeTag: uint64, address: Bytes, tagsBeg: nat, tagsEnd: nat, tags: Bytes, p: nat,
      spans: seq<Span>)
    requires Parts(raw, address, tagsBeg, tagsEnd, tags, p)
      && ScanArgs(raw, tags, 0, p) == Scan(spans, OK_NO_ERROR, |raw|)
    ensures Build(raw, timeTag) == Msg(timeTag, address, tags, spans, raw, OK_NO_ERROR)
  {
    hide IndexOf, ZeroPadded, ScanArgs, Ceil4, Aligned;
  }

  lemma Pieces(raw: Bytes, address: Bytes, n: nat, tags: Bytes)
    requires 0 < |address| <= |raw| && raw[0..|address|] == address && n + 1 + |tags| <= |raw|
      && raw[n..n + 1 + |tags|] == [COMMA] + tags
    ensures raw[0] == address[0] && raw[..|address|] == address
    ensures raw[n] == COMMA && raw[n + 1..n + 1 + |tags|] == tags
  {
    assert raw[0] == raw[0..|address|][0];
    assert raw[n] == raw[n..n + 1 + |tags|][0];
    assert raw[n + 1..n + 1 + |tags|] == raw[n..n + 1 + |tags|][1..];
  }

  lemma WireParts(address: Bytes, args: seq<Arg>)
    ensures var raw, a, t := Wire(address, args), Padded(address + [0]), Padded([COMMA] + Tags(args) + [0]);
      At(raw, 0, a) && At(raw, |a|, t) && |a| + |t| <= |raw| && raw[|a| + |t|..] == Encoded(args)
  {
  }

  // ----- writing back what was read

  lemma CeilInside(raw: Bytes, p: nat)
    requires Aligned(|raw|) && p <= |raw|
    ensures Ceil4(p) <= |raw| && Aligned(Ceil4(p))
  {
  }

  /** A checked block is its content padded. */
  lemma CheckedIsPadded(raw: Bytes, p: nat, n: nat)
    requires Aligned(p) && Aligned(|raw|) && p + n <= |raw| && ZeroPadded(raw, p + n)
    ensures p + Ceil4(n) <= |raw| && raw[p..p + Ceil4(n)] == Padded(raw[p..p + n])
  {
    Ceil4Shift(p, n);
    var b := raw[p..p + Ceil4(n)];
    assert b[..n] == raw[p..p + n];
    assert forall i :: n <= i < Ceil4(n) ==> b[i] == 0;
  }

  /** An accepted argument is the encoding of its value; only a wrapped blob has none. */
  lemma AcceptedIsRaw(raw: Bytes, tag: byte, p: nat, n: nat)
    requires Aligned(p) && Aligned(|raw|) && p <= |raw| && ArgSize(raw, tag, p) == Known(n)
    ensures p + n <= |raw| && ZeroPadded(raw, p + n)
    ensures var v := ReadValue(tag, raw[p..p + n]);
      && (v.None? <==> tag == TAG_BLOB && n < 4)
      && (v.Some? ==> Raw(v.arg) == raw[p..p + n] && Tag(v.arg) == tag)
  {
    hide ZeroPadded, Put32, Get32, Get64, Put64, Ceil4, Aligned, IndexOf;
    var b := raw[p..p + n];
    if tag == TAG_STRING {
      StringBytes(raw, p, n);
    } else if tag == TAG_BLOB {
      if n >= 4 { BlobBytes(raw, p, n); }
    } else if n == 4 {
      WordRoundTrip(0, b);
    } else if n == 8 {
      LongRoundTrip(0, b);
    }
  }

  lemma StringBytes(raw: Bytes, p: nat, n: nat)
    requires 0 < n && p + n <= |raw| && IndexOf(raw, 0, p) == p + n - 1
    ensures var b := raw[p..p + n]; IndexOf(b, 0, 0) == n - 1 && b == b[..n - 1] + [0]
  {
    var b := raw[p..p + n];
    assert forall i :: 0 <= i < n ==> b[i] == raw[p + i];
  }

  lemma BlobBytes(raw: Bytes, p: nat, n: nat)
    requires 4 <= n && p + n <= |raw| && n == (4 + Get32(raw[p..p + 4])) % TWO32
    ensures var b := raw[p..p + n]; Put32(|b[4..]| % TWO32) + b[4..] == b
  {
    hide Put32, Get32;
    var b := raw[p..p + n];
    assert raw[p..p + 4] == b[..4];
    WordRoundTrip(0, b[..4]);
    assert Get32(b[..4]) == n - 4;
    assert b == b[..4] + b[4..];
  }

  /** The values of the arguments scanned so far have the scanned bytes as their encoding. */
  lemma {:induction false} ScannedIsEncoded(raw: Bytes, tags: Bytes, k: nat, p: nat, values: seq<Arg>)
    requires Aligned(p) && Aligned(|raw|) && p <= |raw| && k <= |tags|
    requires var scan := ScanArgs(raw, tags, k, p);
      scan.err.OK_NO_ERROR? && scan.end == |raw| && ValuesMatch(raw, tags, k, scan.spans, values)
    ensures raw[p..] == Encoded(values) && tags[k..] == Tags(values)
    decreases |tags| - k
  {
    hide Aligned, ArgSize, ReadValue, Raw, Tag, ZeroPadded, Padded, Ceil4, Encoded, Tags, ScanArgs, ValuesMatch;
    if k == |tags| {
      ScanStep(raw, tags, k, p);
      NoMatches(raw, tags, k, values);
      NoArguments();
    } else {
      ScanStep(raw, tags, k, p);
      var n := ArgSize(raw, tags[k], p).n;
      AcceptedIsRaw(raw, tags[k], p, n);
      CheckedIsPadded(raw, p, n);
      AlignedSum(p, Ceil4(n));
      FirstMatches(raw, tags, k, Span(p, n), ScanArgs(raw, tags, k + 1, p + Ceil4(n)).spans, values);
      ScannedIsEncoded(raw, tags, k + 1, p + Ceil4(n), values[1..]);
      Assemble(raw, tags, k, p, Ceil4(n), values);
    }
  }

  /** The scanned spans hold the values, argument by argument. */
  ghost predicate ValuesMatch(raw: Bytes, tags: Bytes, k: nat, spans: seq<Span>, values: seq<Arg>) {
    && |values| == |spans| && k + |values| <= |tags|
    && forall i :: 0 <= i < |values| ==>
      && spans[i].pos + spans[i].size <= |raw|
      && ReadValue(tags[k + i], SpanBytes(raw, spans[i])) == Some(values[i])
  }

  lemma NoMatches(raw: Bytes, tags: Bytes, k: nat, values: seq<Arg>)
    requires ValuesMatch(raw, tags, k, [], values)
    ensures values == []
  {
  }

  lemma FirstMatches(raw: Bytes, tags: Bytes, k: nat, first: Span, rest: seq<Span>, values: seq<Arg>)
    requires ValuesMatch(raw, tags, k, [first] + rest, values)
    ensures 0 < |values| && first.pos + first.size <= |raw|
      && ReadValue(tags[k], SpanBytes(raw, first)) == Some(values[0])
    ensures ValuesMatch(raw, tags, k + 1, rest, values[1..])
  {
    hide ReadValue, SpanBytes;
    var spans := [first] + rest;
    assert ReadValue(tags[k + 0], SpanBytes(raw, spans[0])) == Some(values[0]);
    forall i | 0 <= i < |rest|
      ensures rest[i].pos + rest[i].size <= |raw|
        && ReadValue(tags[k + 1 + i], SpanBytes(raw, rest[i])) == Some(values[1..][i])
    {
      assert ReadValue(tags[k + (i + 1)], SpanBytes(raw, spans[i + 1])) == Some(values[i + 1]);
    }
  }

  lemma Assemble(raw: Bytes, tags: Bytes, k: nat, p: nat, n: nat, values: seq<Arg>)
    requires 0 < |values| && p + n <= |raw| && k < |tags|
    requires raw[p..p + n] == Padded(Raw(values[0])) && raw[p + n..] == Encoded(values[1..])
    requires tags[k] == Tag(values[0]) && tags[k + 1..] == Tags(values[1..])
    ensures raw[p..] == Encoded(values) && tags[k..] == Tags(values)
  {
    hide *;
    SplitFrom(raw, p, n);
    SplitFrom(tags, k, 1);
    FirstArgument(values);
  }

  lemma SplitFrom(s: Bytes, p: nat, n: nat)
    requires p + n <= |s|
    ensures s[p..] == s[p..p + n] + s[p + n..]
    ensures n == 1 ==> s[p..p + n] == [s[p]]
  {
  }

  lemma FirstArgument(values: seq<Arg>)
    requires 0 < |values|
    ensures Tags(values) == [Tag(values[0])] + Tags(values[1..])
    ensures Encoded(values) == Padded(Raw(values[0])) + Encoded(values[1..])
  {
    hide Padded, Raw, Tag;
  }

  function Values(m: Msg): (r: seq<Arg>)
    requires |m.arguments| == |m.typeTags|
    requires forall k :: 0 <= k < |m.arguments| ==> m.arguments[k].pos + m.arguments[k].size <= |m.storage|
    requires forall k :: 0 <= k < |m.arguments| ==> Pop(m, k).Some?
    ensures |r| == |m.arguments| && forall k :: 0 <= k < |r| ==> Pop(m, k) == Some(r[k])
  {
    seq(|m.arguments|, k requires 0 <= k < |m.arguments| => Pop(m, k).arg)
  }

  /** The other round trip: because padding is checked, every accepted block whose blobs did not
      wrap is exactly the wire form of what was read from it. */
  lemma WriteBack(raw: Bytes, timeTag: uint64)
    requires Aligned(|raw|) && 0 < |raw|
    requires var m := Build(raw, timeTag); m.err.OK_NO_ERROR? && forall k :: 0 <= k < |m.arguments| ==> Pop(m, k).Some?
    ensures var m := Build(raw, timeTag); raw == Wire(m.address, Values(m))
  {
    hide Padded, Encoded, Tags, ScanArgs, ReadValue, Build, Wire, Ceil4, Aligned, ZeroPadded, IndexOf;
    var m := Build(raw, timeTag);
    var tagsBeg, tagsEnd, p := BuildIsParts(raw, timeTag);
    HeaderIsPadded(raw, m.address, tagsBeg, tagsEnd, m.typeTags, p);
    assert forall i :: 0 <= i < |Values(m)| ==> Pop(m, i) == Some(Values(m)[i]);
    ValuesAreScanned(raw, m.typeTags, p, m.arguments, Values(m));
    WireOf(raw, m.address, Values(m), tagsBeg, p);
  }

  lemma BuildIsParts(raw: Bytes, timeTag: uint64) returns (tagsBeg: nat, tagsEnd: nat, p: nat)
    requires Aligned(|raw|) && 0 < |raw| && Build(raw, timeTag).err.OK_NO_ERROR?
    ensures var m := Build(raw, timeTag);
      && Parts(raw, m.address, tagsBeg, tagsEnd, m.typeTags, p)
      && ScanArgs(raw, m.typeTags, 0, p) == Scan(m.arguments, OK_NO_ERROR, |raw|)
  {
    hide IndexOf, ZeroPadded, ScanArgs, Ceil4;
    tagsBeg := Ceil4(IndexOf(raw, 0, 0) + 1);
    tagsEnd := IndexOf(raw, 0, tagsBeg);
    p := Ceil4(tagsEnd + 1);
  }

  lemma HeaderIsPadded(raw: Bytes, address: Bytes, tagsBeg: nat, tagsEnd: nat, tags: Bytes, p: nat)
    requires Parts(raw, address, tagsBeg, tagsEnd, tags, p)
    ensures tagsBeg <= p && raw[..tagsBeg] == Padded(address + [0]) && raw[tagsBeg..p] == Padded([COMMA] + tags + [0])
  {
    hide ZeroPadded, Padded, Ceil4, Aligned;
    CheckedIsPadded(raw, 0, |address| + 1);
    CheckedIsPadded(raw, tagsBeg, tagsEnd + 1 - tagsBeg);
    Ceil4Shift(tagsBeg, tagsEnd + 1 - tagsBeg);
    assert raw[0..|address| + 1] == address + [0];
    assert raw[tagsBeg..tagsEnd + 1] == [COMMA] + tags + [0];
  }

  lemma ValuesAreScanned(raw: Bytes, tags: Bytes, p: nat, spans: seq<Span>, values: seq<Arg>)
    requires Aligned(p) && Aligned(|raw|) && p <= |raw| && ScanArgs(raw, tags, 0, p) == Scan(spans, OK_NO_ERROR, |raw|)
    requires |values| == |spans| && forall i :: 0 <= i < |values| ==>
      ReadValue(tags[i], SpanBytes(raw, spans[i])) == Some(values[i])
    ensures raw[p..] == Encoded(values) && tags == Tags(values)
  {
    hide Aligned, ReadValue, Encoded, Tags, ScanArgs;
    assert ValuesMatch(raw, tags, 0, spans, values);
    ScannedIsEncoded(raw, tags, 0, p, values);
    assert tags[0..] == tags;
  }

  lemma WireOf(raw: Bytes, address: Bytes, values: seq<Arg>, tagsBeg: nat, p: nat)
    requires tagsBeg <= p <= |raw| && raw[..tagsBeg] == Padded(address + [0])
      && raw[tagsBeg..p] == Padded([COMMA] + Tags(values) + [0])
    requires raw[p..] == Encoded(values)
    ensures raw == Wire(address, values)
  {
    hide Padded, Encoded, Tags;
    assert raw == raw[..tagsBeg] + raw[tagsBeg..p] + raw[p..];
  }

  /** The only accepted arguments without a value are blobs whose length field is at least 2^32 - 4. */
  lemma OnlyWrappedBlobsHaveNoValue(raw: Bytes, tag: byte, p: nat)
    requires Aligned(p) && Aligned(|raw|) && p <= |raw| && ArgSize(raw, tag, p).Known?
    ensures p + ArgSize(raw, tag, p).n <= |raw|
    ensures ReadValue(tag, raw[p..p + ArgSize(raw, tag, p).n]).None? <==>
      tag == TAG_BLOB && Get32(raw[p..p + 4]) >= TWO32 - 4
  {
    hide ReadValue, Get32, ZeroPadded;
    AcceptedIsRaw(raw, tag, p, ArgSize(raw, tag, p).n);
  }

  /** Two accepted blocks with equal address and values are the same bytes. */
  lemma AcceptedIsInjective(raw1: Bytes, raw2: Bytes, timeTag: uint64)
    requires Aligned(|raw1|) && 0 < |raw1| && Aligned(|raw2|) && 0 < |raw2|
    requires var m := Build(raw1, timeTag); m.err.OK_NO_ERROR? && forall k :: 0 <= k < |m.arguments| ==> Pop(m, k).Some?
    requires var m := Build(raw2, timeTag); m.err.OK_NO_ERROR? && forall k :: 0 <= k < |m.arguments| ==> Pop(m, k).Some?
    requires Build(raw1, timeTag).address == Build(raw2, timeTag).address
      && Values(Build(raw1, timeTag)) == Values(Build(raw2, timeTag))
    ensures raw1 == raw2
  {
    hide Build, Pop, Wire;
    WriteBack(raw1, timeTag);
    WriteBack(raw2, timeTag);
  }

  // ----- all accepted blocks, wrapped blobs included

  predicate InBlock(raw: Bytes, spans: seq<Span>) {
    forall k :: 0 <= k < |spans| ==> spans[k].pos + spans[k].size <= |raw|
  }

  /** The bytes recorded for each argument. */
  function Contents(raw: Bytes, spans: seq<Span>): (r: seq<Bytes>)
    requires InBlock(raw, spans)
    ensures |r| == |spans|
  {
    seq(|spans|, k requires 0 <= k < |spans| => SpanBytes(raw, spans[k]))
  }

  function Blocks(contents: seq<Bytes>): Bytes {
    if |contents| == 0 then [] else Padded(contents[0]) + Blocks(contents[1..])
  }

  /** The scanned part of a block is its recorded arguments, padded, without gaps or overlaps. */
  lemma {:induction false} ScannedIsBlocks(raw: Bytes, tags: Bytes, k: nat, p: nat)
    requires Aligned(p) && Aligned(|raw|) && p <= |raw| && k <= |tags|
    ensures var scan := ScanArgs(raw, tags, k, p);
      InBlock(raw, scan.spans) && raw[p..scan.end] == Blocks(Contents(raw, scan.spans))
    decreases |tags| - k
  {
    hide Aligned, ArgSize, ZeroPadded, Padded, Ceil4, ScanArgs, Blocks;
    ScanStep(raw, tags, k, p);
    NoBlocks();
    if k < |tags| && ArgSize(raw, tags[k], p).Known? {
      var n := ArgSize(raw, tags[k], p).n;
      AcceptedIsRaw(raw, tags[k], p, n);
      CheckedIsPadded(raw, p, n);
      AlignedSum(p, Ceil4(n));
      ScannedIsBlocks(raw, tags, k + 1, p + Ceil4(n));
      FirstBlock(raw, Span(p, n), ScanArgs(raw, tags, k + 1, p + Ceil4(n)).spans);
      var end := ScanArgs(raw, tags, k, p).end;
      assert raw[p..end] == raw[p..p + Ceil4(n)] + raw[p + Ceil4(n)..end];
    }
  }

  lemma NoBlocks()
    ensures Blocks([]) == []
  {
  }

  lemma FirstBlock(raw: Bytes, first: Span, rest: seq<Span>)
    requires first.pos + first.size <= |raw| && InBlock(raw, rest)
    ensures InBlock(raw, [first] + rest)
    ensures Blocks(Contents(raw, [first] + rest)) == Padded(SpanBytes(raw, first)) + Blocks(Contents(raw, rest))
  {
    hide Padded, SpanBytes;
    assert Contents(raw, [first] + rest) == [SpanBytes(raw, first)] + Contents(raw, rest);
  }

  /** Every accepted block consists of its address, its type tags and the recorded bytes of its
      arguments, each padded, and of nothing else. */
  lemma AcceptedIsItsParts(raw: Bytes, timeTag: uint64)
    requires Aligned(|raw|) && 0 < |raw| && Build(raw, timeTag).err.OK_NO_ERROR?
    ensures var m := Build(raw, timeTag);
      && InBlock(raw, m.arguments)
      && raw == Padded(m.address + [0]) + Padded([COMMA] + m.typeTags + [0]) + Blocks(Contents(raw, m.arguments))
  {
    hide Padded, ScanArgs, Build, Ceil4, Aligned, ZeroPadded, IndexOf, Blocks, Contents;
    var m := Build(raw, timeTag);
    var tagsBeg, tagsEnd, p := BuildIsParts(raw, timeTag);
    HeaderIsPadded(raw, m.address, tagsBeg, tagsEnd, m.typeTags, p);
    ScannedIsBlocks(raw, m.typeTags, 0, p);
    assert raw == raw[..tagsBeg] + raw[tagsBeg..p] + raw[p..];
  }

  /** Two accepted blocks with equal address, type tags and argument bytes are the same bytes; this
      needs no values, so it holds for wrapped blobs too. */
  lemma BytesDecide(raw1: Bytes, raw2: Bytes, timeTag: uint64)
    requires Aligned(|raw1|) && 0 < |raw1| && Build(raw1, timeTag).err.OK_NO_ERROR?
    requires Aligned(|raw2|) && 0 < |raw2| && Build(raw2, timeTag).err.OK_NO_ERROR?
    ensures var m1, m2 := Build(raw1, timeTag), Build(raw2, timeTag);
      && InBlock(raw1, m1.arguments) && InBlock(raw2, m2.arguments)
      && (raw1 == raw2 <==>
        && m1.address == m2.address && m1.typeTags == m2.typeTags
        && Contents(raw1, m1.arguments) == Contents(raw2, m2.arguments))
  {
    hide Build, Padded, Blocks, Contents, Aligned;
    AcceptedIsItsParts(raw1, timeTag);
    AcceptedIsItsParts(raw2, timeTag);
  }
}
