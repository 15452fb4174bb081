/** oscpkt.hh: what PacketWriter reports, and PacketReader accepts, when more or less than one whole
    element is written at the top. */
module OscSequences {
  import opened Basics
  import opened OscMessage
  import opened OscMessageLaws
  import opened OscPacket
  import opened OscPacketLaws

  const EMPTY := Writing([], [], OK_NO_ERROR)

  // ----- when the writer reports an error

  /** A call the writer objects to: closing or adding without an open bundle, or a broken message. */
  predicate Refused(w: Writing, c: Call) {
    match c
    case Start(_) => false
    case End => |w.bundles| == 0
    case Add(m) => (|w.storage| != 0 && |w.bundles| == 0) || !m.err.OK_NO_ERROR?
  }

  ghost predicate SomeRefused(w: Writing, calls: seq<Call>)
    requires Nested(w)
    decreases |calls|
  {
    0 < |calls| && (Refused(w, calls[0]) || SomeRefused(Step(w, calls[0]), calls[1..]))
  }

  /** For any calls whatever: there is an error exactly when one of them was refused. A bundle that is
      still open is not one. */
  lemma {:induction false} ErrorIsRefusal(w: Writing, calls: seq<Call>)
    requires Nested(w) && w.err.OK_NO_ERROR?
    ensures Run(w, calls).err.OK_NO_ERROR? <==> !SomeRefused(w, calls)
    decreases |calls|
  {
    if 0 < |calls| {
      if Refused(w, calls[0]) {
        ErrorStays(Step(w, calls[0]), calls[1..]);
      } else {
        ErrorIsRefusal(Step(w, calls[0]), calls[1..]);
      }
    }
  }

  lemma {:induction false} ErrorStays(w: Writing, calls: seq<Call>)
    requires Nested(w) && !w.err.OK_NO_ERROR?
    ensures Run(w, calls).err == w.err
    decreases |calls|
  {
    if 0 < |calls| { ErrorStays(Step(w, calls[0]), calls[1..]); }
  }

  /** A bundle that is never closed: no error is reported, and the reader accepts the bytes exactly when
      the bundle holds something. */
  lemma UnclosedBundle(timeTag: uint64, elements: Elements)
    requires GoodAll(elements) && |EncodeAll(elements)| < TWO32
    ensures var w := Run(EMPTY, [Start(timeTag)] + CallsAll(elements));
      && w.err.OK_NO_ERROR? && w.bundles == [0] && Aligned(|w.storage|)
      && (Parse(w.storage, IMMEDIATE).err.OK_NO_ERROR? <==> elements.Cons?)
  {
    hide Parse, ParseElements, Put64, Encode, EncodeAll;
    var start := Opened(EMPTY, timeTag);
    RunOne(EMPTY, Start(timeTag));
    RunConcat(EMPTY, [Start(timeTag)], CallsAll(elements));
    WritesAll(start, elements);
    EncodeAllIsAligned(elements);
    OpenedAtStart(timeTag, EncodeAll(elements));
    if elements.Cons? {
      ReadsAll(elements, timeTag);
    } else {
      NoElements();
    }
  }

  lemma NoElements()
    ensures EncodeAll(Nil) == []
  {
  }

  /** How the reader sees the marker and time tag of a top-level bundle and what follows. */
  lemma OpenedAtStart(timeTag: uint64, rest: Bytes)
    requires Aligned(|rest|)
    ensures var s := Opened(EMPTY, timeTag).storage + rest;
      && s == BUNDLE_MARKER + Put64(timeTag) + rest && Aligned(|s|) && Aligned(|rest|)
      && (rest == [] ==> Parse(s, IMMEDIATE) == Parsed([], INVALID_BUNDLE))
      && (4 <= |rest| ==> Parse(s, IMMEDIATE) == ParseElements(rest, timeTag))
  {
    hide ParseElements, Put64, Get64;
    var s := BUNDLE_MARKER + Put64(timeTag) + rest;
    assert [] + BUNDLE_MARKER == BUNDLE_MARKER;
    AlignedSum(16, |rest|);
    LongRoundTrip(timeTag, []);
    assert s[0] == HASH && s[..8] == BUNDLE_MARKER && s[16..] == rest && s[8..16] == Put64(timeTag);
  }

  // ----- several elements one after the other

  predicate HasLeaf(es: Elements) {
    es.Cons? && (es.head.Leaf? || HasLeaf(es.tail))
  }

  /** What elements after the first one add to the packet: the bundles, without sizes. */
  function LaterBytes(es: Elements): Bytes {
    match es
    case Nil => []
    case Cons(head, tail) => (if head.Leaf? then [] else Encode(head)) + LaterBytes(tail)
  }

  lemma {:induction false} LaterIsAligned(es: Elements)
    ensures Aligned(|LaterBytes(es)|)
    decreases es
  {
    hide Encode;
    if es.Cons? {
      LaterIsAligned(es.tail);
      EncodeIsAligned(es.head);
      AlignedSum(|Encode(es.head)|, |LaterBytes(es.tail)|);
    } else {
      ZeroIsAligned();
    }
  }

  /** A bundle at the top is appended as it is. */
  lemma WritesTopBundle(w: Writing, timeTag: uint64, elements: Elements)
    requires w.bundles == [] && GoodAll(elements)
    ensures Run(w, Calls(Bundle(timeTag, elements))) == Wrote(w, Encode(Bundle(timeTag, elements)))
  {
    hide EncodeAll, Encode, Ended, Opened;
    RunBundle(w, timeTag, elements);
    EndsTop(w, timeTag, elements);
  }

  /** endBundle on the outermost bundle patches nothing. */
  lemma EndsTop(w: Writing, timeTag: uint64, elements: Elements)
    requires w.bundles == [] && Nested(Wrote(Opened(w, timeTag), EncodeAll(elements)))
    ensures Ended(Wrote(Opened(w, timeTag), EncodeAll(elements))) == Wrote(w, Encode(Bundle(timeTag, elements)))
  {
    hide EncodeAll, Put32, Put64, Encode, Patched;
    EncodeAllIsAligned(elements);
    FillerIsLast(timeTag, elements);
    var inner := Wrote(Opened(w, timeTag), EncodeAll(elements));
    var filler := if elements.Nil? then Put32(0) else [];
    NoElements();
    NothingAdded(inner.storage);
    TopParts(w.storage, BUNDLE_MARKER, Put64(timeTag), EncodeAll(elements), filler);
  }

  lemma TopParts(s: Bytes, a: Bytes, b: Bytes, c: Bytes, d: Bytes)
    ensures s + a + b + c + d == s + (a + b + (c + d))
  {
  }

  /** A message at the top is refused when something was written before it. */
  lemma RefusesTopMessage(w: Writing, address: Bytes, args: seq<Arg>, ownTag: uint64)
    requires w.bundles == [] && w.storage != [] && GoodMessage(address, args)
    ensures Run(w, Calls(Leaf(address, args, ownTag))) ==
      w.(err := Failed(w.err, BUNDLE_REQUIRED_FOR_MULTI_MESSAGES))
  {
    hide Packed;
    var m := PushedAll(Started(address, ownTag), args);
    PushedAllAppends(Started(address, ownTag), args);
    RunOne(w, Add(m));
  }

  lemma {:induction false} WritesLater(w: Writing, es: Elements)
    requires w.bundles == [] && w.storage != [] && GoodAll(es)
    ensures Run(w, CallsAll(es)) == Writing([], w.storage + LaterBytes(es),
      if HasLeaf(es) then Failed(w.err, BUNDLE_REQUIRED_FOR_MULTI_MESSAGES) else w.err)
    decreases es
  {
    hide Encode, Calls;
    match es
    case Nil =>
      NothingAdded(w.storage);
    case Cons(head, tail) =>
      RunConcat(w, Calls(head), CallsAll(tail));
      if head.Leaf? {
        RefusesTopMessage(w, head.address, head.args, head.ownTag);
        WritesLater(w.(err := Failed(w.err, BUNDLE_REQUIRED_FOR_MULTI_MESSAGES)), tail);
        NothingBefore(LaterBytes(tail));
      } else {
        WritesTopBundle(w, head.timeTag, head.elements);
        WritesLater(Wrote(w, Encode(head)), tail);
        Regroup(w.storage, Encode(head), LaterBytes(tail));
      }
  }

  lemma NothingBefore(s: Bytes)
    ensures [] + s == s
  {
  }

  // ----- what the reader makes of bytes after the first element

  /** An accepted message block is not accepted with anything behind it. */
  lemma TrailingIsRefused(raw: Bytes, x: Bytes, timeTag: uint64)
    requires Aligned(|raw|) && 0 < |raw| && Aligned(|x|) && 0 < |x| && Build(raw, timeTag).err.OK_NO_ERROR?
    ensures Aligned(|raw + x|) && !Build(raw + x, timeTag).err.OK_NO_ERROR?
  {
    hide IndexOf, ZeroPadded, ScanArgs, Ceil4, Aligned;
    AlignedSum(|raw|, |x|);
    var s := raw + x;
    var addressEnd := IndexOf(raw, 0, 0);
    IndexInFront(raw, x, 0);
    PaddingInFront(raw, x, addressEnd + 1);
    assert s[0] == raw[0] && s[..addressEnd] == raw[..addressEnd];
    var tagsBeg := Ceil4(addressEnd + 1);
    CeilInside(raw, addressEnd + 1);
    var tagsEnd := IndexOf(raw, 0, tagsBeg);
    IndexInFront(raw, x, tagsBeg);
    PaddingInFront(raw, x, tagsEnd + 1);
    CeilInside(raw, tagsEnd + 1);
    assert s[tagsBeg] == raw[tagsBeg] && s[tagsBeg + 1..tagsEnd] == raw[tagsBeg + 1..tagsEnd];
    ScanInFront(raw, x, raw[tagsBeg + 1..tagsEnd], 0, Ceil4(tagsEnd + 1));
  }

  lemma IndexInFront(raw: Bytes, x: Bytes, from: nat)
    requires from <= |raw| && IndexOf(raw, 0, from) < |raw|
    ensures IndexOf(raw + x, 0, from) == IndexOf(raw, 0, from)
  {
    var p := IndexOf(raw, 0, from);
    assert (raw + x)[p] == 0;
    assert forall i :: from <= i < p ==> (raw + x)[i] == raw[i];
  }

  lemma PaddingInFront(raw: Bytes, x: Bytes, p: nat)
    requires Aligned(|raw|) && p <= |raw|
    ensures ZeroPadded(raw + x, p) <==> ZeroPadded(raw, p)
  {
    CeilInside(raw, p);
    assert forall i :: p <= i < Ceil4(p) ==> (raw + x)[i] == raw[i];
  }

  lemma SizeInFront(raw: Bytes, x: Bytes, tag: byte, p: nat)
    requires Aligned(|raw|) && Aligned(|x|) && Aligned(p) && p <= |raw| && ArgSize(raw, tag, p).Known?
    ensures Aligned(|raw + x|) && ArgSize(raw + x, tag, p) == ArgSize(raw, tag, p)
  {
    hide IndexOf, ZeroPadded, Get32;
    AlignedSum(|raw|, |x|);
    var n := ArgSize(raw, tag, p).n;
    PaddingInFront(raw, x, p + n);
    if tag == TAG_STRING {
      IndexInFront(raw, x, p);
    } else if tag == TAG_BLOB {
      assert (raw + x)[p..p + 4] == raw[p..p + 4];
    }
  }

  lemma {:induction false} ScanInFront(raw: Bytes, x: Bytes, tags: Bytes, k: nat, p: nat)
    requires Aligned(|raw|) && Aligned(|x|) && Aligned(|raw + x|) && Aligned(p) && p <= |raw| && k <= |tags|
    requires ScanArgs(raw, tags, k, p).err.OK_NO_ERROR?
    ensures ScanArgs(raw + x, tags, k, p) == ScanArgs(raw, tags, k, p)
    decreases |tags| - k
  {
    hide ArgSize, ScanArgs, Ceil4, Aligned;
    ScanStep(raw, tags, k, p);
    ScanStep(raw + x, tags, k, p);
    if k < |tags| {
      SizeInFront(raw, x, tags[k], p);
      ScanInFront(raw, x, tags, k + 1, p + Ceil4(ArgSize(raw, tags[k], p).n));
    }
  }

  /** Another bundle where a size should be: its marker is no multiple of four. */
  ghost predicate StartsBundle(x: Bytes) {
    Aligned(|x|) && 8 <= |x| && x[..8] == BUNDLE_MARKER
  }

  lemma MarkerIsNoSize(x: Bytes, timeTag: uint64)
    requires StartsBundle(x)
    ensures ParseElements(x, timeTag) == Parsed([], INVALID_BUNDLE)
  {
    assert x[..4] == x[..8][..4] == [35, 98, 117, 110];
  }

  lemma {:induction false} ElementsThenBundle(es: Elements, x: Bytes, timeTag: uint64)
    requires GoodAll(es) && |EncodeAll(es)| < TWO32 && StartsBundle(x)
    ensures Aligned(|EncodeAll(es) + x|) && ParseElements(EncodeAll(es) + x, timeTag).err == INVALID_BUNDLE
    decreases es
  {
    hide Parse, ParseElements, Encode, Put32, Get32;
    EncodeAllIsAligned(es);
    AlignedSum(|EncodeAll(es)|, |x|);
    if es.Nil? {
      NothingBefore(x);
      MarkerIsNoSize(x, timeTag);
    } else {
      var s, b, rest := EncodeAll(es) + x, Encode(es.head), EncodeAll(es.tail) + x;
      EncodeIsAligned(es.head);
      EncodeAllIsAligned(es.tail);
      Regroup(Sized(b), EncodeAll(es.tail), x);
      SizedParts(b, rest);
      ReadsElement(es.head, timeTag);
      ElementsStep(s, timeTag);
      ElementsThenBundle(es.tail, x, timeTag);
    }
  }

  lemma FillerThenBundle(x: Bytes, timeTag: uint64)
    requires StartsBundle(x)
    ensures Aligned(|Put32(0) + x|) && ParseElements(Put32(0) + x, timeTag).err == INVALID_BUNDLE
  {
    hide ParseElements, Put32, Get32;
    AlignedSum(4, |x|);
    var s := Put32(0) + x;
    WordRoundTrip(0, []);
    assert s[..4] == Put32(0) && s[4..4] == [] && s[4..] == x;
    ElementsStep(s, timeTag);
    MarkerIsNoSize(x, timeTag);
  }

  /** After a message at the top nothing may follow, after a bundle no other bundle. */
  lemma MoreIsRefused(first: Element, x: Bytes)
    requires Good(first) && |Encode(first)| < TWO32 && StartsBundle(x)
    ensures Aligned(|Encode(first) + x|) && !Parse(Encode(first) + x, IMMEDIATE).err.OK_NO_ERROR?
  {
    hide Build, ParseElements, Put32, Put64, Get64, EncodeAll, Wire, Aligned;
    EncodeIsAligned(first);
    AlignedSum(|Encode(first)|, |x|);
    var s := Encode(first) + x;
    match first
    case Leaf(address, args, _) =>
      WireStartsWithSlash(address, args);
      ReadBack(address, args, IMMEDIATE);
      TrailingIsRefused(Encode(first), x, IMMEDIATE);
    case Bundle(timeTag, elements) =>
      BundleParts(timeTag, elements);
      LongRoundTrip(timeTag, []);
      BundleThenMore(timeTag, elements, x);
      if elements.Nil? {
        FillerThenBundle(x, timeTag);
      } else {
        ElementsThenBundle(elements, x, timeTag);
      }
  }

  lemma BundleThenMore(timeTag: uint64, elements: Elements, x: Bytes)
    ensures var e, inner := Encode(Bundle(timeTag, elements)), if elements.Nil? then Put32(0) else EncodeAll(elements);
      var s := e + x;
      && 20 <= |s| && s[0] == HASH && s[..8] == BUNDLE_MARKER && s[8..16] == Put64(timeTag) && s[16..] == inner + x
      && |inner| + 16 == |e|
  {
    hide Encode, Put64, Put32, EncodeAll;
    BundleParts(timeTag, elements);
    var e := Encode(Bundle(timeTag, elements));
    var s := e + x;
    assert s[..8] == e[..8] && s[8..16] == e[8..16] && s[16..] == e[16..] + x;
  }

  lemma {:induction false} LaterStartsBundle(es: Elements)
    requires es.Cons? && !HasLeaf(es)
    ensures StartsBundle(LaterBytes(es))
  {
    hide Encode, EncodeAll, Put64, Put32;
    LaterIsAligned(es);
    BundleParts(es.head.timeTag, es.head.elements);
    var b := Encode(es.head);
    assert (b + LaterBytes(es.tail))[..8] == b[..8];
  }

  /** Main result. Elements written one after the other: the writer reports an error if and only if
      some element after the first is a message; and the packet is accepted by both sides if and only if
      there is just one element. A second bundle goes unnoticed by the writer alone. */
  lemma SeveralElements(first: Element, rest: Elements)
    requires Good(first) && GoodAll(rest) && |Encode(first)| + |LaterBytes(rest)| < TWO32
    ensures var w := Run(EMPTY, CallsAll(Cons(first, rest)));
      && w.bundles == [] && w.storage == Encode(first) + LaterBytes(rest) && Aligned(|w.storage|)
      && (w.err.OK_NO_ERROR? <==> !HasLeaf(rest))
      && (w.err.OK_NO_ERROR? && Parse(w.storage, IMMEDIATE).err.OK_NO_ERROR? <==> rest.Nil?)
  {
    hide Parse, Encode, Calls, LaterBytes, Aligned, Run, HasLeaf;
    WritesSeveral(first, rest);
    ReadsSeveral(first, rest);
    NothingLater();
  }

  lemma WritesSeveral(first: Element, rest: Elements)
    requires Good(first) && GoodAll(rest)
    ensures Run(EMPTY, CallsAll(Cons(first, rest))) == Writing([], Encode(first) + LaterBytes(rest),
      if HasLeaf(rest) then BUNDLE_REQUIRED_FOR_MULTI_MESSAGES else OK_NO_ERROR)
  {
    hide Encode, Calls, LaterBytes, Run, HasLeaf;
    RunConcat(EMPTY, Calls(first), CallsAll(rest));
    WritesPacket(first);
    EncodeIsAligned(first);
    WritesLater(Writing([], Encode(first), OK_NO_ERROR), rest);
  }

  lemma ReadsSeveral(first: Element, rest: Elements)
    requires Good(first) && GoodAll(rest) && |Encode(first)| + |LaterBytes(rest)| < TWO32
    ensures Aligned(|Encode(first) + LaterBytes(rest)|)
    ensures !HasLeaf(rest) ==> (Parse(Encode(first) + LaterBytes(rest), IMMEDIATE).err.OK_NO_ERROR? <==> rest.Nil?)
  {
    hide Parse, Encode, LaterBytes, Aligned, Deliveries, DeliversAll;
    EncodeIsAligned(first);
    LaterIsAligned(rest);
    AlignedSum(|Encode(first)|, |LaterBytes(rest)|);
    if rest.Nil? {
      NothingLater();
      NothingAdded(Encode(first));
      ReadsElement(first, IMMEDIATE);
    } else if !HasLeaf(rest) {
      LaterStartsBundle(rest);
      MoreIsRefused(first, LaterBytes(rest));
    }
  }

  lemma NothingLater()
    ensures LaterBytes(Nil) == [] && !HasLeaf(Nil)
  {
  }
}
