/** oscpkt.hh: OSC messages, from their arguments to bytes and back. */
module OscMessage {
  import opened Basics

  // ----- bytes

  type Bytes = seq<byte>

  const TWO32 := 0x1_0000_0000
  const TWO64 := 0x1_0000_0000_0000_0000

  type uint32 = x: int | 0 <= x < TWO32
  type uint64 = x: int | 0 <= x < TWO64
  type int32 = x: int | -0x8000_0000 <= x < 0x8000_0000
  type int64 = x: int | -0x8000_0000_0000_0000 <= x < 0x8000_0000_0000_0000

  predicate Aligned(n: nat) {
    n % 4 == 0
  }

  function Ceil4(n: nat): (r: nat)
    ensures Aligned(r) && n <= r < n + 4
  {
    (n + 3) / 4 * 4
  }

  /** pod2bytes of a uint32_t: most significant byte first, whatever the host order. */
  function Put32(n: uint32): (r: Bytes)
    ensures |r| == 4
  {
    [n / 0x100_0000, n / 0x1_0000 % 0x100, n / 0x100 % 0x100, n % 0x100]
  }

  function Get32(b: Bytes): uint32
    requires |b| == 4
  {
    var b0: int, b1: int, b2: int, b3: int := b[0], b[1], b[2], b[3];
    b0 * 0x100_0000 + b1 * 0x1_0000 + b2 * 0x100 + b3
  }

  function Put64(n: uint64): (r: Bytes)
    ensures |r| == 8
  {
    Put32(n / TWO32) + Put32(n % TWO32)
  }

  function Get64(b: Bytes): uint64
    requires |b| == 8
  {
    Get32(b[..4]) * TWO32 + Get32(b[4..])
  }

  /** Two's complement reinterpretation of signed words. */
  function Unsigned32(i: int32): uint32 { if i < 0 then i + TWO32 else i }
  function Signed32(n: uint32): int32 { if n >= 0x8000_0000 then n - TWO32 else n }
  function Unsigned64(i: int64): uint64 { if i < 0 then i + TWO64 else i }
  function Signed64(n: uint64): int64 { if n >= 0x8000_0000_0000_0000 then n - TWO64 else n }

  lemma WordRoundTrip(n: uint32, b: Bytes)
    ensures Get32(Put32(n)) == n
    ensures |b| == 4 ==> Put32(Get32(b)) == b
  {
    Digits(n);
    if |b| == 4 { DigitsOf(b[0], b[1], b[2], b[3]); }
  }

  lemma Digits(n: nat)
    ensures n / 0x100_0000 * 0x100_0000 + n / 0x1_0000 % 0x100 * 0x1_0000 + n / 0x100 % 0x100 * 0x100 + n % 0x100 == n
  {
    assert n / 0x1_0000 == n / 0x100 / 0x100 && n / 0x100_0000 == n / 0x1_0000 / 0x100;
  }

  lemma DigitsOf(b0: byte, b1: byte, b2: byte, b3: byte)
    ensures var n := b0 as int * 0x100_0000 + b1 as int * 0x1_0000 + b2 as int * 0x100 + b3;
      n / 0x100_0000 == b0 && n / 0x1_0000 % 0x100 == b1 && n / 0x100 % 0x100 == b2 && n % 0x100 == b3
  {
    var n := b0 as int * 0x100_0000 + b1 as int * 0x1_0000 + b2 as int * 0x100 + b3;
    assert n / 0x1_0000 == b0 as int * 0x100 + b1;
    assert n / 0x100 == b0 as int * 0x1_0000 + b1 as int * 0x100 + b2;
  }

  lemma LongRoundTrip(n: uint64, b: Bytes)
    ensures Get64(Put64(n)) == n
    ensures |b| == 8 ==> Put64(Get64(b)) == b
  {
    hide Put32, Get32;
    WordRoundTrip(n / TWO32, if |b| == 8 then b[..4] else b);
    WordRoundTrip(n % TWO32, if |b| == 8 then b[4..] else b);
    assert Put64(n)[..4] == Put32(n / TWO32) && Put64(n)[4..] == Put32(n % TWO32);
    if |b| == 8 { assert b == b[..4] + b[4..]; }
  }

  function Zeros(n: nat): (r: Bytes)
    ensures |r| == n && forall i :: 0 <= i < n ==> r[i] == 0
  {
    seq(n, _ => 0)
  }

  /** A block as Storage.getBytes lays it out: padded with zeros to a multiple of four. */
  function Padded(b: Bytes): (r: Bytes)
    ensures |r| == Ceil4(|b|) && r[..|b|] == b
    ensures forall i :: |b| <= i < |r| ==> r[i] == 0
  {
    b + Zeros(Ceil4(|b|) - |b|)
  }

  /** isZeroPaddingCorrect: zeros up to the next multiple of four. */
  predicate ZeroPadded(s: Bytes, p: nat) {
    forall i :: p <= i < Ceil4(p) && i < |s| ==> s[i] == 0
  }

  // ----- arguments

  datatype ErrorCode =
    | OK_NO_ERROR
    | MALFORMED_ADDRESS_PATTERN | MALFORMED_TYPE_TAGS | MALFORMED_ARGUMENTS | UNHANDLED_TYPE_TAGS
    | TYPE_MISMATCH | NOT_ENOUGH_ARG | PATTERN_MISMATCH
    | INVALID_BUNDLE | INVALID_PACKET_SIZE | BUNDLE_REQUIRED_FOR_MULTI_MESSAGES

  const TAG_TRUE: byte := 84
  const TAG_FALSE: byte := 70
  const TAG_INT32: byte := 105
  const TAG_INT64: byte := 104
  const TAG_FLOAT: byte := 102
  const TAG_DOUBLE: byte := 100
  const TAG_STRING: byte := 115
  const TAG_BLOB: byte := 98
  const SLASH: byte := 47
  const COMMA: byte := 44

  /** An argument value; floats are their IEEE bit patterns. */
  datatype Arg =
    | Bool(b: bool)
    | Int32(i: int32)
    | Int64(h: int64)
    | Float(f: uint32)
    | Double(d: uint64)
    | Str(s: Bytes)
    | Blob(blob: Bytes)

  function Tag(a: Arg): byte {
    match a
    case Bool(b) => if b then TAG_TRUE else TAG_FALSE
    case Int32(_) => TAG_INT32
    case Int64(_) => TAG_INT64
    case Float(_) => TAG_FLOAT
    case Double(_) => TAG_DOUBLE
    case Str(_) => TAG_STRING
    case Blob(_) => TAG_BLOB
  }

  function Tags(args: seq<Arg>): (r: Bytes)
    ensures |r| == |args| && forall i :: 0 <= i < |args| ==> r[i] == Tag(args[i])
  {
    seq(|args|, i requires 0 <= i < |args| => Tag(args[i]))
  }

  /** The unpadded bytes of an argument. Strings carry their NUL, blobs their length. */
  function Raw(a: Arg): Bytes {
    match a
    case Bool(_) => []
    case Int32(i) => Put32(Unsigned32(i))
    case Int64(h) => Put64(Unsigned64(h))
    case Float(f) => Put32(f)
    case Double(d) => Put64(d)
    case Str(s) => s + [0]
    case Blob(b) => Put32(|b| % TWO32) + b
  }

  function Encoded(args: seq<Arg>): (r: Bytes)
    ensures Aligned(|r|)
  {
    if |args| == 0 then []
    else
      var first, rest := Padded(Raw(args[0])), Encoded(args[1..]);
      AlignedSum(|first|, |rest|);
      first + rest
  }

  /** Strings end at their first NUL, and blob lengths are below the limit pushBlob asserts. */
  predicate GoodArg(a: Arg) {
    && (a.Str? ==> 0 !in a.s)
    && (a.Blob? ==> |a.blob| < 0x7FFF_FFFF)
  }

  // ----- messages

  datatype Span = Span(pos: nat, size: nat)

  /** The state of a Message object. */
  datatype Msg = Msg(timeTag: uint64, address: Bytes, typeTags: Bytes, arguments: seq<Span>, storage: Bytes,
      err: ErrorCode)

  const IMMEDIATE: uint64 := 1

  /** The wire form of a message. */
  function Wire(address: Bytes, args: seq<Arg>): (r: Bytes)
    ensures Aligned(|r|) && 0 < |r|
  {
    var a, t, e := Padded(address + [0]), Padded([COMMA] + Tags(args) + [0]), Encoded(args);
    AlignedSum(|a|, |t|);
    AlignedSum(|a| + |t|, |e|);
    a + t + e
  }

  lemma AlignedSum(m: nat, n: nat)
    requires Aligned(m) && Aligned(n)
    ensures Aligned(m + n)
  {
  }

  predicate GoodMessage(address: Bytes, args: seq<Arg>) {
    && 0 < |address| && address[0] == SLASH && 0 !in address
    && forall i :: 0 <= i < |args| ==> GoodArg(args[i])
  }

  // ----- reading a message

  datatype Size = Known(n: nat) | Bad(error: ErrorCode)

  lemma CeilFits(p: nat, n: nat, length: nat)
    requires Aligned(p) && Aligned(length)
    ensures p + n <= length ==> p + Ceil4(n) <= length
  {
  }

  /** getArgSize. The blob size 4 + length is computed in 32 bits. */
  function ArgSize(raw: Bytes, tag: byte, p: nat): (r: Size)
    requires Aligned(|raw|) && Aligned(p) && p <= |raw|
    ensures r.Known? ==> p + Ceil4(r.n) <= |raw|
  {
    var size :=
      if tag == TAG_TRUE || tag == TAG_FALSE then Known(0)
      else if tag == TAG_INT32 || tag == TAG_FLOAT then Known(4)
      else if tag == TAG_INT64 || tag == TAG_DOUBLE then Known(8)
      else if tag == TAG_STRING then
        var q := IndexOf(raw, 0, p);
        if q == |raw| then Bad(MALFORMED_ARGUMENTS) else Known(q - p + 1)
      else if tag == TAG_BLOB then
        if p == |raw| then Bad(MALFORMED_ARGUMENTS) else Known((4 + Get32(raw[p..p + 4])) % TWO32)
      else Bad(UNHANDLED_TYPE_TAGS);
    CeilFits(p, if size.Known? then size.n else 0, |raw|);
    if size.Bad? then size
    else if p + size.n > |raw| || !ZeroPadded(raw, p + size.n) then Bad(MALFORMED_ARGUMENTS)
    else size
  }

  datatype Scan = Scan(spans: seq<Span>, err: ErrorCode, end: nat)

  /** The argument loop of buildFromRawData from argument `iarg` at position p. */
  function ScanArgs(raw: Bytes, tags: Bytes, iarg: nat, p: nat): (r: Scan)
    requires Aligned(|raw|) && Aligned(p) && p <= |raw| && iarg <= |tags|
    ensures p <= r.end <= |raw| && Aligned(r.end)
    ensures r.err.OK_NO_ERROR? ==> |r.spans| == |tags| - iarg
    ensures forall k :: 0 <= k < |r.spans| ==> p <= r.spans[k].pos && r.spans[k].pos + r.spans[k].size <= |raw|
    decreases |tags| - iarg
  {
    if iarg == |tags| then Scan([], OK_NO_ERROR, p)
    else
      match ArgSize(raw, tags[iarg], p)
      case Bad(e) => Scan([], e, p)
      case Known(n) =>
        var rest := ScanArgs(raw, tags, iarg + 1, p + Ceil4(n));
        Scan([Span(p, n)] + rest.spans, rest.err, rest.end)
  }

  /** buildFromRawData on a block of the packet. */
  function Build(raw: Bytes, timeTag: uint64): (m: Msg)
    requires Aligned(|raw|) && 0 < |raw|
    ensures m.storage == raw && m.timeTag == timeTag
    ensures forall k :: 0 <= k < |m.arguments| ==> m.arguments[k].pos + m.arguments[k].size <= |raw|
    ensures m.err.OK_NO_ERROR? ==> |m.arguments| == |m.typeTags|
  {
    var addressEnd := IndexOf(raw, 0, 0);
    if addressEnd == |raw| || !ZeroPadded(raw, addressEnd + 1) || raw[0] != SLASH then
      Msg(timeTag, [], [], [], raw, MALFORMED_ADDRESS_PATTERN)
    else
      var tagsBeg := Ceil4(addressEnd + 1);
      var tagsEnd := IndexOf(raw, 0, tagsBeg);
      if tagsEnd == |raw| || !ZeroPadded(raw, tagsEnd + 1) || raw[tagsBeg] != COMMA then
        Msg(timeTag, raw[..addressEnd], [], [], raw, MALFORMED_TYPE_TAGS)
      else
        var scan := ScanArgs(raw, raw[tagsBeg + 1..tagsEnd], 0, Ceil4(tagsEnd + 1));
        Msg(timeTag, raw[..addressEnd], raw[tagsBeg + 1..tagsEnd], scan.spans, raw,
          if !scan.err.OK_NO_ERROR? then scan.err
          else if scan.end != |raw| then MALFORMED_ARGUMENTS
          else OK_NO_ERROR)
  }

  datatype Value = Some(arg: Arg) | None

  /** What the pop method for a tag makes of the bytes of its argument. A blob whose length
      wrapped is shorter than its length field and has no value. */
  function ReadValue(tag: byte, b: Bytes): Value {
    if tag == TAG_TRUE then Some(Bool(true))
    else if tag == TAG_FALSE then Some(Bool(false))
    else if tag == TAG_INT32 && |b| == 4 then Some(Int32(Signed32(Get32(b))))
    else if tag == TAG_FLOAT && |b| == 4 then Some(Float(Get32(b)))
    else if tag == TAG_INT64 && |b| == 8 then Some(Int64(Signed64(Get64(b))))
    else if tag == TAG_DOUBLE && |b| == 8 then Some(Double(Get64(b)))
    else if tag == TAG_STRING && 0 < |b| then Some(Str(b[..IndexOf(b, 0, 0)]))
    else if tag == TAG_BLOB && 4 <= |b| then Some(Blob(b[4..]))
    else None
  }

  function SpanBytes(raw: Bytes, s: Span): Bytes
    requires s.pos + s.size <= |raw|
  {
    raw[s.pos..s.pos + s.size]
  }

  /** The value popped for argument i. */
  function Pop(m: Msg, i: nat): Value
    requires i < |m.arguments| && i < |m.typeTags|
    requires m.arguments[i].pos + m.arguments[i].size <= |m.storage|
  {
    ReadValue(m.typeTags[i], SpanBytes(m.storage, m.arguments[i]))
  }

  // ----- building a message

  /** A C string copied into a block of |s| + 1 bytes: whatever follows its first NUL is zero. */
  function CString(s: Bytes): (r: Bytes)
    ensures |r| == Ceil4(|s| + 1)
    ensures 0 !in s ==> r == Padded(s + [0])
  {
    var n := IndexOf(s, 0, 0);
    s[..n] + Zeros(Ceil4(|s| + 1) - n)
  }

  function Started(address: Bytes, timeTag: uint64): Msg {
    Msg(timeTag, address, [], [], [],
      if |address| == 0 || address[0] != SLASH then MALFORMED_ADDRESS_PATTERN else OK_NO_ERROR)
  }

  /** The state after pushing an argument; a bool records its position twice. */
  function Pushed(m: Msg, a: Arg): Msg {
    var n := |m.storage|;
    m.(typeTags := m.typeTags + [Tag(a)],
       arguments := m.arguments + [Span(n, if a.Bool? then n else |Raw(a)|)],
       storage := m.storage + if a.Str? then CString(a.s) else Padded(Raw(a)))
  }

  function PushedAll(m: Msg, args: seq<Arg>): Msg
    decreases |args|
  {
    if |args| == 0 then m else PushedAll(Pushed(m, args[0]), args[1..])
  }

  /** What packMessage appends to s. */
  function Packed(m: Msg, writeSize: bool): Bytes {
    if !m.err.OK_NO_ERROR? then []
    else
      var size := Ceil4(|m.address| + 1) + Ceil4(|m.typeTags| + 2) + Ceil4(|m.storage|);
      (if writeSize then Put32(size % TWO32) else [])
      + (CString(m.address) + CString([COMMA] + m.typeTags) + Padded(m.storage))
  }

  class Message {
    var timeTag: uint64
    var address: Bytes
    var typeTags: Bytes
    var arguments: seq<Span>
    var storage: Bytes
    var err: ErrorCode

    function Value(): Msg
      reads this
    {
      Msg(timeTag, address, typeTags, arguments, storage, err)
    }

    constructor ()
      ensures Value() == Msg(IMMEDIATE, [], [], [], [], OK_NO_ERROR)
    {
      timeTag, address, typeTags, arguments, storage, err := IMMEDIATE, [], [], [], [], OK_NO_ERROR;
    }

    method Clear()
      modifies this
      ensures Value() == Msg(IMMEDIATE, [], [], [], [], OK_NO_ERROR)
    {
      address, typeTags, storage, arguments := [], [], [], [];
      err, timeTag := OK_NO_ERROR, IMMEDIATE;
    }

    /** OSCPKT_SET_ERR: the first error sticks. */
    method SetErr(code: ErrorCode)
      modifies this`err
      ensures err == if old(err).OK_NO_ERROR? then code else old(err)
    {
      if err.OK_NO_ERROR? { err := code; }
    }

    method Init(addr: Bytes, tt: uint64)
      modifies this
      ensures Value() == Started(addr, tt)
    {
      Clear();
      address, timeTag := addr, tt;
      if |address| == 0 || address[0] != SLASH { SetErr(MALFORMED_ADDRESS_PATTERN); }
    }

    method PushBool(b: bool)
      modifies this
      ensures Value() == Pushed(old(Value()), Bool(b))
    {
      typeTags := typeTags + [if b then TAG_TRUE else TAG_FALSE];
      arguments := arguments + [Span(|storage|, |storage|)];
      assert Padded([]) == [];
    }

    method PushInt32(i: int32)
      modifies this
      ensures Value() == Pushed(old(Value()), Int32(i))
    {
      PushPod(TAG_INT32, Put32(Unsigned32(i)));
    }

    method PushInt64(h: int64)
      modifies this
      ensures Value() == Pushed(old(Value()), Int64(h))
    {
      PushPod(TAG_INT64, Put64(Unsigned64(h)));
    }

    method PushFloat(f: uint32)
      modifies this
      ensures Value() == Pushed(old(Value()), Float(f))
    {
      PushPod(TAG_FLOAT, Put32(f));
    }

    method PushDouble(d: uint64)
      modifies this
      ensures Value() == Pushed(old(Value()), Double(d))
    {
      PushPod(TAG_DOUBLE, Put64(d));
    }

    method PushPod(tag: byte, pod: Bytes)
      modifies this
      ensures Value() == old(Value()).(typeTags := old(typeTags) + [tag],
        arguments := old(arguments) + [Span(|old(storage)|, |pod|)], storage := old(storage) + Padded(pod))
    {
      typeTags := typeTags + [tag];
      arguments := arguments + [Span(|storage|, |pod|)];
      storage := storage + Padded(pod);
    }

    method PushStr(s: Bytes)
      requires |s| < 0x7FFF_FFFF
      modifies this
      ensures Value() == Pushed(old(Value()), Str(s))
    {
      typeTags := typeTags + [TAG_STRING];
      arguments := arguments + [Span(|storage|, |s| + 1)];
      storage := storage + CString(s);
    }

    method PushBlob(b: Bytes)
      requires |b| < 0x7FFF_FFFF
      modifies this
      ensures Value() == Pushed(old(Value()), Blob(b))
    {
      hide Padded, Put32, CString, Raw;
      PaddedBlob(b);
      typeTags := typeTags + [TAG_BLOB];
      arguments := arguments + [Span(|storage|, |b| + 4)];
      storage := storage + Padded(Put32(|b|));
      if |b| > 0 { storage := storage + Padded(b); }
      Regroup(old(storage), Padded(Put32(|b|)), if |b| > 0 then Padded(b) else []);
    }

    method PackMessage(s: Bytes, writeSize: bool) returns (r: Bytes)
      ensures r == s + Packed(Value(), writeSize)
    {
      hide Padded, Put32, CString, Ceil4;
      r := s;
      if !err.OK_NO_ERROR? { return; }
      var addressLength, typeLength := |address| + 1, |typeTags| + 2;
      var head: Bytes := [];
      if writeSize {
        head := Put32((Ceil4(addressLength) + Ceil4(typeLength) + Ceil4(|storage|)) % TWO32);
        r := r + head;
      }
      r := r + CString(address);
      r := r + CString([COMMA] + typeTags);
      NothingPadded();
      if |storage| > 0 { r := r + Padded(storage); }
      FiveParts(s, head, CString(address), CString([COMMA] + typeTags), Padded(storage));
    }

    /** Parses a block of the packet into this message. */
    method BuildFromRawData(raw: Bytes, tt: uint64)
      requires Aligned(|raw|) && 0 < |raw|
      modifies this
      ensures Value() == Build(raw, tt)
    {
      hide IndexOf, ZeroPadded, ScanArgs, Ceil4;
      Clear();
      timeTag := tt;
      storage := raw;
      var addressEnd := IndexOf(storage, 0, 0);
      if addressEnd == |storage| || !ZeroPadded(storage, addressEnd + 1) || storage[0] != SLASH {
        SetErr(MALFORMED_ADDRESS_PATTERN);
        return;
      }
      address := storage[..addressEnd];
      var tagsBeg := Ceil4(addressEnd + 1);
      var tagsEnd := IndexOf(storage, 0, tagsBeg);
      if tagsEnd == |storage| || !ZeroPadded(storage, tagsEnd + 1) || storage[tagsBeg] != COMMA {
        SetErr(MALFORMED_TYPE_TAGS);
        return;
      }
      typeTags := storage[tagsBeg + 1..tagsEnd];
      ParseArguments(Ceil4(tagsEnd + 1));
    }

    /** The argument loop. */
    method ParseArguments(start: nat)
      requires Aligned(|storage|) && Aligned(start) && start <= |storage| && arguments == [] && err.OK_NO_ERROR?
      modifies this`arguments, this`err
      ensures var scan := ScanArgs(storage, typeTags, 0, start);
        && arguments == scan.spans
        && err == if scan.err.OK_NO_ERROR? && scan.end != |storage| then MALFORMED_ARGUMENTS else scan.err
    {
      hide ArgSize, ScanArgs, Ceil4, Aligned;
      var arg, iarg := start, 0;
      ghost var scan := ScanArgs(storage, typeTags, 0, start);
      NoSpans(scan.spans);
      while err.OK_NO_ERROR? && iarg < |typeTags|
        invariant 0 <= iarg <= |typeTags| && 0 <= arg <= |storage| && Aligned(arg)
        invariant err.OK_NO_ERROR? ==>
          var rest := ScanArgs(storage, typeTags, iarg, arg); scan == Scan(arguments + rest.spans, rest.err, rest.end)
        invariant !err.OK_NO_ERROR? ==> scan.spans == arguments && scan.err == err
        decreases |typeTags| - iarg, err.OK_NO_ERROR?
      {
        ScanStep(storage, typeTags, iarg, arg);
        match ArgSize(storage, typeTags[iarg], arg)
        case Bad(e) =>
          NoSpans(arguments);
          SetErr(e);
        case Known(n) =>
          RegroupSpans(arguments, [Span(arg, n)], ScanArgs(storage, typeTags, iarg + 1, arg + Ceil4(n)).spans);
          arguments := arguments + [Span(arg, n)];
          arg := arg + Ceil4(n);
          iarg := iarg + 1;
      }
      ScanStep(storage, typeTags, iarg, arg);
      NoSpans(arguments);
      if iarg < |typeTags| || arg != |storage| {
        SetErr(MALFORMED_ARGUMENTS);
      }
    }
  }

  lemma ScanStep(raw: Bytes, tags: Bytes, iarg: nat, p: nat)
    requires Aligned(|raw|) && Aligned(p) && p <= |raw| && iarg <= |tags|
    ensures iarg == |tags| ==> ScanArgs(raw, tags, iarg, p) == Scan([], OK_NO_ERROR, p)
    ensures iarg < |tags| && ArgSize(raw, tags[iarg], p).Bad? ==>
      var e := ArgSize(raw, tags[iarg], p).error;
      !e.OK_NO_ERROR? && ScanArgs(raw, tags, iarg, p) == Scan([], e, p)
    ensures iarg < |tags| && ArgSize(raw, tags[iarg], p).Known? ==>
      var n := ArgSize(raw, tags[iarg], p).n;
      && Aligned(p + Ceil4(n)) && p + Ceil4(n) <= |raw|
      && var rest := ScanArgs(raw, tags, iarg + 1, p + Ceil4(n));
        ScanArgs(raw, tags, iarg, p) == Scan([Span(p, n)] + rest.spans, rest.err, rest.end)
  {
    hide Get32, ZeroPadded, IndexOf;
  }

  lemma NoSpans(s: seq<Span>)
    ensures [] + s == s == s + []
  {
  }

  lemma RegroupSpans(a: seq<Span>, b: seq<Span>, c: seq<Span>)
    ensures (a + b) + c == a + (b + c)
  {
  }

  lemma PaddedBlob(b: Bytes)
    requires |b| < 0x7FFF_FFFF
    ensures |Raw(Blob(b))| == |b| + 4
    ensures Padded(Raw(Blob(b))) == Padded(Put32(|b|)) + (if |b| > 0 then Padded(b) else [])
  {
    hide Put32;
    var head := Put32(|b|);
    assert Ceil4(4) == 4 && Padded(head) == head;
    assert Ceil4(4 + |b|) == 4 + Ceil4(|b|);
    if |b| == 0 { NothingPadded(); }
    assert head + b + Zeros(Ceil4(|b|) - |b|) == head + Padded(b);
  }

  lemma Regroup(a: Bytes, b: Bytes, c: Bytes)
    ensures (a + b) + c == a + (b + c)
  {
  }

  lemma FiveParts(s: Bytes, head: Bytes, a: Bytes, b: Bytes, c: Bytes)
    ensures s + head + a + b + c == s + (head + (a + b + c))
    ensures c == [] ==> s + head + a + b == s + (head + (a + b + c))
  {
  }

  lemma NothingPadded()
    ensures Padded([]) == []
  {
  }
}
