/** oscpkt.hh: the bytes themselves. What is written is the format of the Open Sound Control 1.0
    Specification, sections "Atomic Data Types", "OSC Messages" and "OSC Bundles". */
module OscBytes {
  import opened Basics
  import opened OscMessage
  import opened OscMessageLaws
  import opened OscPacketLaws

  // ----- the order of the bytes of a number

  /** Lexicographic order. */
  predicate Before(a: Bytes, b: Bytes)
    requires |a| == |b|
    decreases |a|
  {
    0 < |a| && (a[0] < b[0] || (a[0] == b[0] && Before(a[1..], b[1..])))
  }

  lemma {:induction false} BeforeConcat(a: Bytes, c: Bytes, b: Bytes, d: Bytes)
    requires |a| == |b| && |c| == |d|
    ensures Before(a + c, b + d) <==> Before(a, b) || (a == b && Before(c, d))
    decreases |a|
  {
    if |a| == 0 {
      assert a + c == c && b + d == d;
    } else {
      assert (a + c)[1..] == a[1..] + c && (b + d)[1..] == b[1..] + d;
      BeforeConcat(a[1..], c, b[1..], d);
      assert a == [a[0]] + a[1..] && b == [b[0]] + b[1..];
    }
  }

  /** One number is below another exactly when its bytes come first: with the round trip this leaves
      the most significant byte first as the only possible order. */
  lemma WordOrder(m: uint32, n: uint32)
    ensures m < n <==> Before(Put32(m), Put32(n))
  {
    hide Put32, Get32;
    WordRoundTrip(m, []);
    WordRoundTrip(n, []);
    BytesOrder(Put32(m), Put32(n));
  }

  lemma BytesOrder(a: Bytes, b: Bytes)
    requires |a| == 4 && |b| == 4
    ensures Before(a, b) <==> Get32(a) < Get32(b)
  {
    assert Before(a[3..], b[3..]) <==> a[3] < b[3];
    assert Before(a[2..], b[2..]) <==> a[2] < b[2] || (a[2] == b[2] && a[3] < b[3]) by {
      assert a[2..][1..] == a[3..] && b[2..][1..] == b[3..];
    }
    assert Before(a[1..], b[1..]) <==> a[1] < b[1] || (a[1] == b[1] && Before(a[2..], b[2..])) by {
      assert a[1..][1..] == a[2..] && b[1..][1..] == b[2..];
    }
  }

  lemma LongOrder(m: uint64, n: uint64)
    ensures m < n <==> Before(Put64(m), Put64(n))
  {
    hide Put32;
    WordOrder(m / TWO32, n / TWO32);
    WordOrder(n / TWO32, m / TWO32);
    WordOrder(m % TWO32, n % TWO32);
    BeforeConcat(Put32(m / TWO32), Put32(m % TWO32), Put32(n / TWO32), Put32(n % TWO32));
    WordRoundTrip(m / TWO32, []);
    WordRoundTrip(n / TWO32, []);
  }

  /** Signed numbers travel in two's complement. */
  lemma SignedIsCongruent(i: int32, h: int64)
    ensures Unsigned32(i) == i % TWO32 && Signed32(Unsigned32(i)) == i
    ensures Unsigned64(h) == h % TWO64 && Signed64(Unsigned64(h)) == h
  {
  }

  // ----- whole messages and bundles, byte by byte

  /** The address /a. */
  const ADDRESS: Bytes := [47, 97]

  lemma EncodedCons(a: Arg, rest: seq<Arg>)
    ensures Encoded([a] + rest) == Padded(Raw(a)) + Encoded(rest)
  {
    assert ([a] + rest)[1..] == rest;
  }

  lemma NoArgs()
    ensures Encoded([]) == []
  {
  }

  lemma PaddedIs(b: Bytes, k: nat)
    requires k < 4 && Aligned(|b| + k)
    ensures Padded(b) == b + Zeros(k)
  {
  }

  lemma AddressBytes()
    ensures Padded(ADDRESS + [0]) == [47, 97, 0, 0]
  {
    PaddedIs(ADDRESS + [0], 1);
    assert Zeros(1) == [0];
  }

  lemma ThreeBlocks()
    ensures Padded(Raw(Int32(1))) == [0, 0, 0, 1] && Padded(Raw(Float(0x3F80_0000))) == [63, 128, 0, 0]
    ensures Padded(Raw(Str([104, 105]))) == [104, 105, 0, 0]
  {
    PaddedIs(Raw(Str([104, 105])), 1);
  }

  lemma ThreeTags()
    ensures Padded([COMMA] + Tags([Int32(1), Float(0x3F80_0000), Str([104, 105])]) + [0]) ==
      [44, 105, 102, 115, 0, 0, 0, 0]
  {
    hide Padded;
    var tags: Bytes := [44, 105, 102, 115, 0];
    assert [COMMA] + Tags([Int32(1), Float(0x3F80_0000), Str([104, 105])]) + [0] == tags;
    PaddedIs(tags, 3);
    assert tags + Zeros(3) == [44, 105, 102, 115, 0, 0, 0, 0];
  }

  lemma ThreeArguments()
    ensures Encoded([Int32(1), Float(0x3F80_0000), Str([104, 105])]) ==
      [0, 0, 0, 1] + ([63, 128, 0, 0] + [104, 105, 0, 0])
  {
    hide Padded, Encoded, Raw;
    var i, f, t := Int32(1), Float(0x3F80_0000), Str([104, 105]);
    ThreeBlocks();
    assert [i, f, t] == [i] + ([f] + ([t] + []));
    EncodedCons(i, [f] + ([t] + []));
    EncodedCons(f, [t] + []);
    EncodedCons(t, []);
    NoArgs();
    assert Padded(Raw(t)) + [] == [104, 105, 0, 0];
  }

  /** /a with the integer 1, the float 1.0 and the string "hi", inside a bundle: size, address, type
      tags, arguments. */
  lemma PackedBytes()
    ensures Packed(PushedAll(Started(ADDRESS, 1), [Int32(1), Float(0x3F80_0000), Str([104, 105])]), true) ==
      [0, 0, 0, 24] + ([47, 97, 0, 0] + [44, 105, 102, 115, 0, 0, 0, 0]
        + ([0, 0, 0, 1] + ([63, 128, 0, 0] + [104, 105, 0, 0])))
  {
    hide PushedAll, Packed, Padded, Encoded, Tags, Put32;
    var args := [Int32(1), Float(0x3F80_0000), Str([104, 105])];
    PackedIsWire(ADDRESS, args, 1, true);
    AddressBytes();
    ThreeTags();
    ThreeArguments();
    SizeBytes();
  }

  lemma SizeBytes()
    ensures Put32(24) == [0, 0, 0, 24] && Put32(12) == [0, 0, 0, 12] && Put32(1) == [0, 0, 0, 1]
  {
  }

  /** The other kinds of argument: -2 and the double 1.0 in 64 bits, a blob of one byte, true and false. */
  lemma OtherBytes()
    ensures Raw(Int64(-2)) == [255, 255, 255, 255] + [255, 255, 255, 254]
    ensures Raw(Double(0x3FF0_0000_0000_0000)) == [63, 240, 0, 0] + [0, 0, 0, 0]
  {
  }

  lemma BlobBytes()
    ensures Padded(Raw(Blob([7]))) == [0, 0, 0, 1] + [7, 0, 0, 0]
  {
    hide Padded, Zeros;
    PaddedIs(Raw(Blob([7])), 3);
    assert Zeros(3) == [0, 0, 0];
  }

  lemma OtherTags()
    ensures Tags([Bool(true), Bool(false), Int64(-2), Double(0x3FF0_0000_0000_0000), Blob([7])]) ==
      [84, 70, 104, 100, 98]
    ensures Raw(Bool(true)) == [] == Raw(Bool(false))
  {
  }

  lemma OneArgument()
    ensures Wire(ADDRESS, [Int32(1)]) == [47, 97, 0, 0] + [44, 105, 0, 0] + [0, 0, 0, 1]
  {
    hide Padded, Zeros, Encoded;
    var i := Int32(1);
    assert [i] == [i] + [];
    EncodedCons(i, []);
    NoArgs();
    AddressBytes();
    PaddedIs(Raw(i), 0);
    PaddedIs([COMMA] + Tags([i]) + [0], 1);
    assert Zeros(0) == [] && Zeros(1) == [0];
    assert [COMMA] + Tags([i]) + [0] == [44, 105, 0];
  }

  /** A bundle to be delivered at once that holds /a with the integer 1: "#bundle", time tag, size,
      message. */
  lemma BundleBytes()
    ensures Encode(Bundle(IMMEDIATE, Cons(Leaf(ADDRESS, [Int32(1)], IMMEDIATE), Nil))) ==
      [35, 98, 117, 110, 100, 108, 101, 0] + [0, 0, 0, 0, 0, 0, 0, 1]
        + ([0, 0, 0, 12] + ([47, 97, 0, 0] + [44, 105, 0, 0] + [0, 0, 0, 1]))
  {
    hide Wire;
    OneArgument();
    assert Put64(IMMEDIATE) == [0, 0, 0, 0] + [0, 0, 0, 1];
    var wire := Wire(ADDRESS, [Int32(1)]);
    assert EncodeAll(Cons(Leaf(ADDRESS, [Int32(1)], IMMEDIATE), Nil)) == Sized(wire) + [];
  }

  // ----- what the errors of the header mean

  /** A padded string that begins with the given character stands at p. */
  ghost predicate StringAt(raw: Bytes, p: nat, mark: byte, s: Bytes) {
    0 < |s| && s[0] == mark && 0 !in s && At(raw, p, Padded(s + [0]))
  }

  lemma StringIsThere(raw: Bytes, p: nat, mark: byte, s: Bytes)
    requires Aligned(|raw|) && Aligned(p) && p <= |raw| && StringAt(raw, p, mark, s)
    ensures var q := IndexOf(raw, 0, p);
      && q < |raw| && ZeroPadded(raw, q + 1) && raw[p] == mark && p + |Padded(s + [0])| == Ceil4(q + 1)
  {
    hide IndexOf, ZeroPadded, Padded, Aligned, Ceil4, At;
    PaddedStringIsFound(raw, p, s);
    assert raw[p..p + |s|][0] == raw[p];
  }

  lemma StringIsFound(raw: Bytes, p: nat, mark: byte)
    requires Aligned(|raw|) && Aligned(p) && p <= |raw| && mark != 0
    requires var q := IndexOf(raw, 0, p); q < |raw| && ZeroPadded(raw, q + 1) && raw[p] == mark
    ensures StringAt(raw, p, mark, raw[p..IndexOf(raw, 0, p)])
  {
    hide IndexOf, ZeroPadded, Padded, Aligned, Ceil4;
    var q := IndexOf(raw, 0, p);
    CheckedIsPadded(raw, p, q + 1 - p);
    assert raw[p..p + (q + 1 - p)] == raw[p..q] + [0];
    assert forall i :: 0 <= i < q - p ==> raw[p..q][i] == raw[p + i] != 0;
  }

  lemma {:induction false} ScanErrors(raw: Bytes, tags: Bytes, k: nat, p: nat)
    requires Aligned(|raw|) && Aligned(p) && p <= |raw| && k <= |tags|
    ensures ScanArgs(raw, tags, k, p).err in {OK_NO_ERROR, MALFORMED_ARGUMENTS, UNHANDLED_TYPE_TAGS}
    decreases |tags| - k
  {
    hide IndexOf, ZeroPadded, Get32;
    if k < |tags| {
      var size := ArgSize(raw, tags[k], p);
      if size.Known? { ScanErrors(raw, tags, k + 1, p + Ceil4(size.n)); }
    }
  }

  /** The address is to blame exactly when the block does not begin with a padded string that begins
      with '/'. */
  lemma AddressError(raw: Bytes, timeTag: uint64)
    requires Aligned(|raw|) && 0 < |raw|
    ensures Build(raw, timeTag).err == MALFORMED_ADDRESS_PATTERN <==> !exists a :: StringAt(raw, 0, SLASH, a)
  {
    hide IndexOf, ZeroPadded, ScanArgs, Ceil4, Aligned, StringAt, Padded;
    ZeroIsAligned();
    var q := IndexOf(raw, 0, 0);
    if q < |raw| && ZeroPadded(raw, q + 1) && raw[0] == SLASH {
      StringIsFound(raw, 0, SLASH);
      CeilInside(raw, q + 1);
      ScannedIsNoHeader(raw, q);
    }
    forall a | StringAt(raw, 0, SLASH, a) ensures q < |raw| && ZeroPadded(raw, q + 1) && raw[0] == SLASH {
      StringIsThere(raw, 0, SLASH, a);
    }
  }

  lemma ScannedIsNoHeader(raw: Bytes, q: nat)
    requires Aligned(|raw|) && q < |raw|
    ensures var p := Ceil4(q + 1);
      p <= |raw| && Aligned(p)
      && var r := IndexOf(raw, 0, p);
        r < |raw| ==>
          && Ceil4(r + 1) <= |raw| && Aligned(Ceil4(r + 1))
          && (p < r ==>
            ScanArgs(raw, raw[p + 1..r], 0, Ceil4(r + 1)).err
              in {OK_NO_ERROR, MALFORMED_ARGUMENTS, UNHANDLED_TYPE_TAGS})
  {
    hide IndexOf, ScanArgs, Ceil4, Aligned;
    CeilInside(raw, q + 1);
    var p := Ceil4(q + 1);
    var r := IndexOf(raw, 0, p);
    if r < |raw| {
      CeilInside(raw, r + 1);
      if p < r { ScanErrors(raw, raw[p + 1..r], 0, Ceil4(r + 1)); }
    }
  }

  /** Behind an address the type tags are to blame exactly when no padded string that begins with ','
      follows it. */
  lemma TagsError(raw: Bytes, timeTag: uint64, a: Bytes)
    requires Aligned(|raw|) && 0 < |raw| && StringAt(raw, 0, SLASH, a)
    ensures Build(raw, timeTag).err == MALFORMED_TYPE_TAGS <==> !exists t :: StringAt(raw, |Padded(a + [0])|, COMMA, t)
  {
    hide IndexOf, ZeroPadded, ScanArgs, Ceil4, Aligned, StringAt, Padded;
    ZeroIsAligned();
    StringIsThere(raw, 0, SLASH, a);
    var q := IndexOf(raw, 0, 0);
    CeilInside(raw, q + 1);
    ScannedIsNoHeader(raw, q);
    var p := Ceil4(q + 1);
    var r := IndexOf(raw, 0, p);
    if r < |raw| && ZeroPadded(raw, r + 1) && raw[p] == COMMA { StringIsFound(raw, p, COMMA); }
    forall t | StringAt(raw, p, COMMA, t) ensures r < |raw| && ZeroPadded(raw, r + 1) && raw[p] == COMMA {
      StringIsThere(raw, p, COMMA, t);
    }
  }
}
