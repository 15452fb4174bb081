/** What a well-nested run of PacketWriter writes, PacketReader reads back. */
module OscPacketLaws {
  import opened Basics
  import opened OscMessage
  import opened OscMessageLaws
  import opened OscPacket

  /** A message with the time tag it was built with (which is not written), or a bundle. */
  datatype Element =
    | Leaf(address: Bytes, args: seq<Arg>, ownTag: uint64)
    | Bundle(timeTag: uint64, elements: Elements)

  datatype Elements = Nil | Cons(head: Element, tail: Elements)

  ghost predicate Good(e: Element) {
    match e
    case Leaf(address, args, _) => GoodMessage(address, args)
    case Bundle(_, elements) => GoodAll(elements)
  }

  ghost predicate GoodAll(es: Elements) {
    es.Cons? ==> Good(es.head) && GoodAll(es.tail)
  }

  /** The packet bytes of an element; an empty bundle holds one zero size. */
  function Encode(e: Element): Bytes {
    match e
    case Leaf(address, args, _) => Wire(address, args)
    case Bundle(timeTag, elements) =>
      BUNDLE_MARKER + Put64(timeTag) + (if elements.Nil? then Put32(0) else EncodeAll(elements))
  }

  function EncodeAll(es: Elements): Bytes {
    match es
    case Nil => []
    case Cons(head, tail) => Sized(Encode(head)) + EncodeAll(tail)
  }

  function Sized(b: Bytes): Bytes {
    Put32(|b| % TWO32) + b
  }

  lemma {:induction false} EncodeIsAligned(e: Element)
    ensures Aligned(|Encode(e)|) && 0 < |Encode(e)|
    decreases e
  {
    if e.Bundle? {
      EncodeAllIsAligned(e.elements);
      AlignedSum(20, 0);
      AlignedSum(16, |EncodeAll(e.elements)|);
    }
  }

  lemma {:induction false} EncodeAllIsAligned(es: Elements)
    ensures Aligned(|EncodeAll(es)|) && (es.Cons? ==> 4 < |EncodeAll(es)|)
    decreases es
  {
    hide Put32;
    if es.Cons? {
      EncodeIsAligned(es.head);
      EncodeAllIsAligned(es.tail);
      AlignedSum(4, |Encode(es.head)|);
      AlignedSum(4 + |Encode(es.head)|, |EncodeAll(es.tail)|);
    } else {
      ZeroIsAligned();
    }
  }

  // ----- writing

  datatype Call = Start(timeTag: uint64) | End | Add(m: Msg)

  /** The calls that write an element. */
  function Calls(e: Element): seq<Call> {
    match e
    case Leaf(address, args, ownTag) => [Add(PushedAll(Started(address, ownTag), args))]
    case Bundle(timeTag, elements) => [Start(timeTag)] + CallsAll(elements) + [End]
  }

  function CallsAll(es: Elements): seq<Call> {
    match es
    case Nil => []
    case Cons(head, tail) => Calls(head) + CallsAll(tail)
  }

  ghost function Step(w: Writing, c: Call): (r: Writing)
    requires Nested(w)
    ensures Nested(r)
  {
    match c
    case Start(timeTag) => Opened(w, timeTag)
    case End => Ended(w)
    case Add(m) => Added(w, m)
  }

  ghost function Run(w: Writing, calls: seq<Call>): (r: Writing)
    requires Nested(w)
    ensures Nested(r)
    decreases |calls|
  {
    if |calls| == 0 then w else Run(Step(w, calls[0]), calls[1..])
  }

  lemma {:induction false} RunConcat(w: Writing, a: seq<Call>, b: seq<Call>)
    requires Nested(w)
    ensures Run(w, a + b) == Run(Run(w, a), b)
    decreases |a|
  {
    if |a| == 0 {
      assert a + b == b;
    } else {
      assert (a + b)[1..] == a[1..] + b;
      RunConcat(Step(w, a[0]), a[1..], b);
    }
  }

  lemma RunOne(w: Writing, c: Call)
    requires Nested(w)
    ensures Run(w, [c]) == Step(w, c)
  {
    assert [c][1..] == [];
  }

  function Wrote(w: Writing, b: Bytes): Writing {
    w.(storage := w.storage + b)
  }

  /** Inside an open bundle, an element appends its size and its bytes and leaves the rest of the
      writer as it was: back-patching touches only the element's own size. */
  lemma {:induction false} WritesSized(w: Writing, e: Element)
    requires Nested(w) && 0 < |w.bundles| && Good(e)
    ensures Run(w, Calls(e)) == Wrote(w, Sized(Encode(e)))
    decreases e
  {
    match e
    case Leaf(address, args, ownTag) =>
      var m := PushedAll(Started(address, ownTag), args);
      RunOne(w, Add(m));
      PackedIsWire(address, args, ownTag, true);
    case Bundle(timeTag, elements) =>
      RunBundle(w, timeTag, elements);
      EndsSized(w, timeTag, elements);
  }

  /** endBundle on a finished inner bundle: an empty one gets its zero size, and the hole left
      before the bundle receives the number of bytes after it. */
  lemma EndsSized(w: Writing, timeTag: uint64, elements: Elements)
    requires Nested(w) && 0 < |w.bundles| && Nested(Wrote(Opened(w, timeTag), EncodeAll(elements)))
    ensures Ended(Wrote(Opened(w, timeTag), EncodeAll(elements))) == Wrote(w, Sized(Encode(Bundle(timeTag, elements))))
  {
    hide Patched, EncodeAll, Put32, Put64;
    var inner := Wrote(Opened(w, timeTag), EncodeAll(elements));
    var filler, full := if elements.Nil? then Put32(0) else [], Encode(Bundle(timeTag, elements));
    EncodeAllIsAligned(elements);
    FillerIsLast(timeTag, elements);
    assert inner.storage + filler == (w.storage + Zeros(4)) + full;
    assert |inner.storage + filler| - (|w.storage| + 4) == |full|;
    PatchAfter(w.storage, Zeros(4), full, Put32(|full| % TWO32));
    assert (w.bundles + [|w.storage| + 4])[..|w.bundles|] == w.bundles;
    if !elements.Nil? { NothingAdded(inner.storage); }
  }

  lemma NothingAdded(s: Bytes)
    ensures s + [] == s
  {
  }

  lemma FillerIsLast(timeTag: uint64, elements: Elements)
    ensures Encode(Bundle(timeTag, elements)) ==
      BUNDLE_MARKER + Put64(timeTag) + (EncodeAll(elements) + if elements.Nil? then Put32(0) else [])
  {
    hide Put32, Put64;
    NothingAdded(EncodeAll(elements));
    if elements.Nil? { assert EncodeAll(elements) == []; assert [] + Put32(0) == Put32(0); }
  }

  /** The calls of a bundle: start, the elements one after the other, end. */
  lemma {:induction false} RunBundle(w: Writing, timeTag: uint64, elements: Elements)
    requires Nested(w) && GoodAll(elements)
    ensures var inner := Wrote(Opened(w, timeTag), EncodeAll(elements));
      Nested(inner) && Run(w, Calls(Bundle(timeTag, elements))) == Ended(inner)
    decreases elements, 1
  {
    var start := Opened(w, timeTag);
    RunOne(w, Start(timeTag));
    RunConcat(w, [Start(timeTag)], CallsAll(elements));
    RunConcat(w, [Start(timeTag)] + CallsAll(elements), [End]);
    WritesAll(start, elements);
    RunOne(Wrote(start, EncodeAll(elements)), End);
  }

  lemma {:induction false} WritesAll(w: Writing, es: Elements)
    requires Nested(w) && 0 < |w.bundles| && GoodAll(es)
    ensures Nested(Wrote(w, EncodeAll(es))) && Run(w, CallsAll(es)) == Wrote(w, EncodeAll(es))
    decreases es, 0
  {
    match es
    case Nil =>
      assert w.storage + [] == w.storage;
    case Cons(head, tail) =>
      WritesSized(w, head);
      RunConcat(w, Calls(head), CallsAll(tail));
      WritesAll(Wrote(w, Sized(Encode(head))), tail);
      Regroup(w.storage, Sized(Encode(head)), EncodeAll(tail));
  }

  lemma PatchAfter(s: Bytes, hole: Bytes, tail: Bytes, b: Bytes)
    requires |hole| == |b|
    ensures Patched((s + hole) + tail, |s|, b) == s + (b + tail)
  {
  }

  /** A whole packet: the bytes are exactly the encoding, no bundle is left open, no error. */
  lemma WritesPacket(e: Element)
    requires Good(e)
    ensures Run(Writing([], [], OK_NO_ERROR), Calls(e)) == Writing([], Encode(e), OK_NO_ERROR)
  {
    var w := Writing([], [], OK_NO_ERROR);
    match e
    case Leaf(address, args, ownTag) =>
      RunOne(w, Add(PushedAll(Started(address, ownTag), args)));
      PackedIsWire(address, args, ownTag, false);
    case Bundle(timeTag, elements) =>
      RunBundle(w, timeTag, elements);
      EncodeAllIsAligned(elements);
      assert [] + BUNDLE_MARKER == BUNDLE_MARKER;
  }

  // ----- reading

  /** The messages a reader must deliver, each with the time tag of its innermost bundle. */
  datatype Delivery = Delivery(timeTag: uint64, address: Bytes, args: seq<Arg>)

  function Deliveries(e: Element, timeTag: uint64): seq<Delivery> {
    match e
    case Leaf(address, args, _) => [Delivery(timeTag, address, args)]
    case Bundle(inner, elements) => DeliveriesAll(elements, inner)
  }

  function DeliveriesAll(es: Elements, timeTag: uint64): seq<Delivery> {
    match es
    case Nil => []
    case Cons(head, tail) => Deliveries(head, timeTag) + DeliveriesAll(tail, timeTag)
  }

  ghost predicate Delivers(m: Msg, d: Delivery) {
    && m.err.OK_NO_ERROR? && m.timeTag == d.timeTag && m.address == d.address && m.typeTags == Tags(d.args)
    && |m.arguments| == |d.args|
    && forall i :: 0 <= i < |d.args| ==>
      m.arguments[i].pos + m.arguments[i].size <= |m.storage| && Pop(m, i) == Some(d.args[i])
  }

  ghost predicate DeliversAll(ms: seq<Msg>, ds: seq<Delivery>) {
    |ms| == |ds| && forall i :: 0 <= i < |ds| ==> Delivers(ms[i], ds[i])
  }

  lemma {:induction false} ReadsElement(e: Element, timeTag: uint64)
    requires Good(e) && |Encode(e)| < TWO32 && Aligned(|Encode(e)|)
    ensures var r := Parse(Encode(e), timeTag); r.err.OK_NO_ERROR? && DeliversAll(r.messages, Deliveries(e, timeTag))
    decreases e
  {
    match e
    case Leaf(address, args, _) =>
      ReadBack(address, args, timeTag);
      WireStartsWithSlash(address, args);
    case Bundle(inner, elements) =>
      var s := Encode(e);
      BundleParts(inner, elements);
      LongRoundTrip(inner, []);
      if elements.Nil? {
        ReadsEmptyBundle(inner);
      } else {
        EncodeAllIsAligned(elements);
        ReadsAll(elements, inner);
      }
  }

  lemma BundleParts(timeTag: uint64, elements: Elements)
    ensures var s := Encode(Bundle(timeTag, elements));
      && 20 <= |s| && s[0] == HASH && s[..8] == BUNDLE_MARKER && s[8..16] == Put64(timeTag)
      && s[16..] == if elements.Nil? then Put32(0) else EncodeAll(elements)
  {
    EncodeAllIsAligned(elements);
  }

  lemma ReadsEmptyBundle(timeTag: uint64)
    ensures Aligned(|Put32(0)|) && ParseElements(Put32(0), timeTag) == Parsed([], OK_NO_ERROR)
  {
    WordRoundTrip(0, []);
    assert Put32(0)[..4] == Put32(0);
  }

  lemma {:induction false} ReadsAll(es: Elements, timeTag: uint64)
    requires es.Cons? && GoodAll(es) && |EncodeAll(es)| < TWO32 && Aligned(|EncodeAll(es)|)
    ensures var r := ParseElements(EncodeAll(es), timeTag);
      r.err.OK_NO_ERROR? && DeliversAll(r.messages, DeliveriesAll(es, timeTag))
    decreases es
  {
    hide Parse, ParseElements, Encode, Put32, Get32, Delivers;
    var s, b, rest := EncodeAll(es), Encode(es.head), EncodeAll(es.tail);
    EncodeIsAligned(es.head);
    EncodeAllIsAligned(es.tail);
    SizedParts(b, rest);
    ReadsElement(es.head, timeTag);
    ElementsStep(s, timeTag);
    if es.tail.Nil? {
      assert DeliveriesAll(es, timeTag) == Deliveries(es.head, timeTag) + [];
    } else {
      ReadsAll(es.tail, timeTag);
    }
  }

  lemma SizedParts(b: Bytes, rest: Bytes)
    requires |b| < TWO32
    ensures var s := Sized(b) + rest;
      4 + |b| <= |s| && Get32(s[..4]) == |b| && s[4..4 + |b|] == b && s[4 + |b|..] == rest
  {
    WordRoundTrip(|b|, []);
    var s := Sized(b) + rest;
    assert s[..4] == Put32(|b|);
  }

  lemma WireStartsWithSlash(address: Bytes, args: seq<Arg>)
    requires GoodMessage(address, args)
    ensures Wire(address, args)[0] == SLASH
  {
    hide IndexOf, ZeroPadded, Ceil4, Aligned, Wire, Tags, Encoded;
    var tagsBeg, tagsEnd, p := WireLayout(address, args);
  }

  /** Main result. For every well-nested tree with one top-level element whose packet fits in 32
      bits: the writer reports no error, and the reader accepts its bytes and delivers the same
      messages in order, each with its address, type tags, argument values and the time tag of
      its innermost bundle (immediate at the top). */
  lemma PacketRoundTrip(e: Element)
    requires Good(e) && |Encode(e)| < TWO32
    ensures var w := Run(Writing([], [], OK_NO_ERROR), Calls(e));
      && w.err.OK_NO_ERROR? && w.bundles == [] && Aligned(|w.storage|)
      && var r := Parse(w.storage, IMMEDIATE);
        r.err.OK_NO_ERROR? && DeliversAll(r.messages, Deliveries(e, IMMEDIATE))
  {
    WritesPacket(e);
    EncodeIsAligned(e);
    ReadsElement(e, IMMEDIATE);
  }
}
