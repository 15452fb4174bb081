/** tinyalsaAudio.cpp: one PCM sample as a number, as bytes and as a float, with floats as exact
    reals and C's int as 32 bits that wrap around. */
module PcmSamples {
  import opened Basics
  import opened Rings

  /** Bytes per sample. */
  type width = w: int | 1 <= w <= 4 witness 1

  /** 256 to the power w. */
  function Span(w: nat): (r: nat)
    requires w <= 4
    ensures r > 0
  {
    if w == 0 then 1
    else if w == 1 then 0x100
    else if w == 2 then 0x1_0000
    else if w == 3 then 0x100_0000
    else 0x1_0000_0000
  }

  function MaxVal(w: width): (r: int)
    ensures 0 < r
  {
    Span(w) / 2 - 1
  }

  function MinVal(w: width): int { -(MaxVal(w) + 1) }

  predicate InRange(v: int, w: width) { MinVal(w) <= v <= MaxVal(w) }

  /** The same 32 bits read as unsigned. */
  function Unsigned(x: int): nat { x % 0x1_0000_0000 }

  // ----- bits

  /** Bitwise or. */
  function Or(a: nat, b: nat): nat
    decreases a + b
  {
    if a == 0 && b == 0 then 0
    else 2 * Or(a / 2, b / 2) + if a % 2 == 1 || b % 2 == 1 then 1 else 0
  }

  /** Setting bits above all those of `low` adds them. */
  lemma {:induction false} OrAdds(low: nat, high: nat, k: nat)
    requires low < Pow2(k)
    ensures Or(low, high * Pow2(k)) == low + high * Pow2(k)
    decreases k, high
  {
    if k == 0 {
      OrZero(high);
      assert high * Pow2(0) == high;
    } else {
      assert high * Pow2(k) == 2 * (high * Pow2(k - 1));
      OrAdds(low / 2, high, k - 1);
    }
  }

  lemma {:induction false} OrZero(b: nat)
    ensures Or(0, b) == b
  {
    if b > 0 { OrZero(b / 2); }
  }

  lemma SpanIsPow2(w: nat)
    requires w <= 4
    ensures Span(w) == Pow2(8 * w)
  {
    assert Pow2(8) == 0x100 by { assert Pow2(4) == 16; }
    assert Pow2(16) == 0x1_0000 by { assert Pow2(12) == 0x1000; }
    assert Pow2(24) == 0x100_0000 by { assert Pow2(20) == 0x10_0000; }
    assert Pow2(32) == 0x1_0000_0000 by { assert Pow2(28) == 0x1000_0000; }
  }

  // ----- numbers and bytes

  /** The low w bytes of v, least significant first; v may be negative. */
  function Digits(v: int, w: nat): (r: seq<byte>)
    ensures |r| == w
    decreases w
  {
    if w == 0 then [] else [v % 256] + Digits(v / 256, w - 1)
  }

  /** The number with these bytes, least significant first. */
  function Number(bytes: seq<byte>): nat {
    if |bytes| == 0 then 0 else bytes[0] + 256 * Number(bytes[1..])
  }

  /** Two's complement. */
  function Signed(n: nat, w: width): int {
    if n > MaxVal(w) then n - Span(w) else n
  }

  /** Byte i is what a shift by 8 * i and a mask leave. */
  lemma {:induction false} DigitAt(v: int, w: nat, i: nat)
    requires i < w <= 4
    ensures Digits(v, w)[i] == v / Span(i) % 256
    decreases w
  {
    if i > 0 {
      DigitAt(v / 256, w - 1, i - 1);
      assert v / 256 / Span(i - 1) == v / Span(i) by {
        if i == 1 { } else if i == 2 { } else { }
      }
    }
  }

  lemma {:induction false} NumberOfDigits(v: int, w: nat)
    requires w <= 4
    ensures Number(Digits(v, w)) == v % Span(w)
    decreases w
  {
    if w > 0 {
      NumberOfDigits(v / 256, w - 1);
      assert Digits(v, w)[1..] == Digits(v / 256, w - 1);
      ModSplit(v, w);
    }
  }

  lemma ModSplit(v: int, w: nat)
    requires 1 <= w <= 4
    ensures v % 256 + 256 * (v / 256 % Span(w - 1)) == v % Span(w)
  {
    if w == 1 { } else if w == 2 { } else if w == 3 { } else { }
  }

  lemma {:induction false} DigitsOfNumber(bytes: seq<byte>, negative: bool)
    requires |bytes| <= 4
    ensures Number(bytes) < Span(|bytes|)
    ensures Digits(Number(bytes) - if negative then Span(|bytes|) else 0, |bytes|) == bytes
  {
    if |bytes| > 0 {
      var tail := bytes[1..];
      DigitsOfNumber(tail, negative);
      assert Span(|bytes|) == 256 * Span(|tail|);
      Uncons(bytes[0], Number(tail) - if negative then Span(|tail|) else 0);
    }
  }

  lemma Uncons(b: byte, v: int)
    ensures (b + 256 * v) % 256 == b && (b + 256 * v) / 256 == v
  {
  }

  lemma {:induction false} NumberSnoc(bytes: seq<byte>, b: byte)
    requires |bytes| < 4
    ensures Number(bytes + [b]) == Number(bytes) + b * Span(|bytes|)
  {
    if |bytes| > 0 {
      assert (bytes + [b])[1..] == bytes[1..] + [b];
      NumberSnoc(bytes[1..], b);
      assert Span(|bytes|) == 256 * Span(|bytes| - 1);
    }
  }

  /** Bytes as they lie in memory. */
  function Ordered(bytes: seq<byte>, big: bool): (r: seq<byte>)
    ensures |r| == |bytes|
    ensures forall i :: 0 <= i < |bytes| ==> r[Place(|bytes|, big, i)] == bytes[i]
  {
    if big then seq(|bytes|, i requires 0 <= i < |bytes| => bytes[|bytes| - 1 - i]) else bytes
  }

  /** Where byte i of a sample of w bytes lies. */
  function Place(w: nat, big: bool, i: nat): (r: nat)
    requires i < w
    ensures r < w
  {
    if big then w - 1 - i else i
  }

  lemma DigitIn(bytes: seq<byte>, big: bool, i: nat)
    requires i < |bytes|
    ensures Ordered(bytes, big)[i] == bytes[if big then |bytes| - 1 - i else i]
  {
  }

  lemma OrderedTwice(bytes: seq<byte>, big: bool)
    ensures Ordered(Ordered(bytes, big), big) == bytes
  {
    hide Ordered, Place;
    var once := Ordered(bytes, big);
    forall i | 0 <= i < |bytes| ensures Ordered(once, big)[i] == bytes[i] {
      DigitIn(once, big, i);
      DigitIn(bytes, big, if big then |bytes| - 1 - i else i);
    }
  }

  function Encode(v: int, w: width, big: bool): (r: seq<byte>)
    ensures |r| == w
  {
    Ordered(Digits(v, w), big)
  }

  function Decode(bytes: seq<byte>, big: bool): int
    requires 1 <= |bytes| <= 4
  {
    Signed(Number(Ordered(bytes, big)), |bytes|)
  }

  lemma SignedInRange(n: nat, w: width)
    ensures n < Span(w) ==> InRange(Signed(n, w), w)
  {
    if w == 1 { } else if w == 2 { } else if w == 3 { } else { }
  }

  /** Digit i to the base 256 is byte i, counted from the first byte of a little-endian sample and from the
      last of a big-endian one. */
  lemma BytesOfSample(v: int, w: width, big: bool, i: nat)
    requires i < w
    ensures Encode(v, w, big)[if big then w - 1 - i else i] == v / Pow2(8 * i) % 256
  {
    DigitAt(v, w, i);
    SpanIsPow2(i);
  }

  lemma EncodeDecode(bytes: seq<byte>, big: bool)
    requires 1 <= |bytes| <= 4
    ensures InRange(Decode(bytes, big), |bytes|)
    ensures Encode(Decode(bytes, big), |bytes|, big) == bytes
  {
    hide Span, Ordered, Digits, Number, MaxVal;
    SignedInRange(Number(Ordered(bytes, big)), |bytes|);
    var digits := Ordered(bytes, big);
    DigitsOfNumber(digits, false);
    DigitsOfNumber(digits, true);
    OrderedTwice(bytes, big);
  }

  lemma DecodeEncode(v: int, w: width, big: bool)
    requires InRange(v, w)
    ensures Decode(Encode(v, w, big), big) == v
  {
    hide Span, Ordered;
    NumberOfDigits(v, w);
    OrderedTwice(Digits(v, w), big);
    TwosComplement(v, w);
  }

  lemma TwosComplement(v: int, w: width)
    requires InRange(v, w)
    ensures Signed(v % Span(w), w) == v
  {
    if w == 1 { } else if w == 2 { } else if w == 3 { } else { }
  }

  // ----- numbers and floats

  /** C's conversion to an integer drops the fraction. */
  function Trunc(x: real): int {
    if x >= 0.0 then x.Floor else -((-x).Floor)
  }

  function Clamp(x: real, low: real, high: real): real {
    if x > high then high else if x < low then low else x
  }

  function Saturate(v: int, low: int, high: int): int {
    if v > high then high else if v < low then low else v
  }

  /** The integer sample for a float that is already scaled. */
  function Convert(scaled: real, w: width): (r: int)
    ensures InRange(r, w)
  {
    if scaled > MaxVal(w) as real then MaxVal(w)
    else if scaled < MinVal(w) as real then MinVal(w)
    else Trunc(scaled)
  }

  /** A float at full integer scale. */
  function Scale(x: real, w: width): real { MaxVal(w) as real * x }

  /** The integer sample for a float. */
  function Quantize(x: real, w: width): (r: int)
    ensures InRange(r, w)
  {
    Convert(Scale(x, w), w)
  }

  /** The distance between two samples as floats. */
  function Step(w: width): real { 1.0 / MaxVal(w) as real }

  /** Back from integer scale. */
  function Unscale(t: real, w: width): real { t * Step(w) }

  /** The float for an integer sample. */
  function Normalize(v: int, w: width): real { Unscale(v as real, w) }

  lemma TruncIsNearest(x: real)
    ensures var t := Trunc(x) as real;
      -1.0 < t - x < 1.0 && (0.0 <= x ==> 0.0 <= t <= x) && (x <= 0.0 ==> x <= t <= 0.0)
  {
  }

  lemma TruncIsMonotone(x: real, y: real)
    requires x <= y
    ensures Trunc(x) <= Trunc(y)
  {
  }

  lemma TruncOfInt(v: int)
    ensures Trunc(v as real) == v
  {
  }

  lemma ScaleIsMonotone(x: real, y: real, w: width)
    ensures x < y <==> Scale(x, w) < Scale(y, w)
    ensures Scale(y - x, w) == Scale(y, w) - Scale(x, w)
  {
    hide MaxVal;
    var m := MaxVal(w) as real;
    assert m * (y - x) == m * y - m * x;
    if x < y { assert m * (y - x) > 0.0; } else { assert m * (y - x) <= 0.0; }
  }

  lemma ScaleUnscale(t: real, w: width)
    ensures Scale(Unscale(t, w), w) == t
  {
    hide MaxVal;
    var m, r := MaxVal(w) as real, Step(w);
    assert m * r == 1.0;
    assert m * (t * r) == t * (m * r);
  }

  lemma QuantizeNormalize(v: int, w: width)
    requires InRange(v, w)
    ensures Quantize(Normalize(v, w), w) == v
  {
    hide Scale, Unscale, Trunc, MaxVal;
    ScaleUnscale(v as real, w);
    TruncOfInt(v);
  }

  lemma ConvertIsNearest(s: real, w: width)
    ensures var t, m := Convert(s, w) as real, MaxVal(w) as real;
      && (-m <= s <= m ==> -1.0 < t - s < 1.0)
      && (s >= m ==> t == m) && (s <= -m - 1.0 ==> t == -m - 1.0)
      && (0.0 <= s ==> 0.0 <= t <= s) && (s <= 0.0 ==> s <= t <= 0.0)
  {
    hide Trunc, Span, MaxVal;
    TruncIsNearest(s);
    TruncOfInt(MaxVal(w));
    TruncOfInt(MinVal(w));
  }

  lemma ConvertIsMonotone(s: real, t: real, w: width)
    requires s <= t
    ensures Convert(s, w) <= Convert(t, w)
  {
    hide Trunc, Span, MaxVal;
    TruncIsMonotone(s, t);
  }

  /** Rounding at integer scale, seen at float scale. */
  lemma Restored(x: real, v: int, w: width)
    ensures var y, t, s := Normalize(v, w), v as real, Scale(x, w);
      && (-1.0 < t - s < 1.0 <==> -Step(w) < y - x < Step(w))
      && (x < y <==> s < t) && (y < x <==> t < s)
      && (y < 0.0 <==> t < 0.0) && (0.0 < y <==> 0.0 < t)
  {
    var y := Normalize(v, w);
    assert Unscale(1.0, w) == Step(w) && Unscale(-1.0, w) == -Step(w) && Unscale(0.0, w) == 0.0;
    hide Scale, Step, Unscale;
    ScaleUnscale(v as real, w);
    ScaleUnscale(1.0, w);
    ScaleUnscale(-1.0, w);
    ScaleUnscale(0.0, w);
    ScaleIsMonotone(x, y, w);
    ScaleIsMonotone(y, x, w);
    ScaleIsMonotone(y, 0.0, w);
    ScaleIsMonotone(0.0, y, w);
    ScaleIsMonotone(y - x, Step(w), w);
    ScaleIsMonotone(-Step(w), y - x, w);
  }

  lemma FullScale(x: real, w: width)
    ensures Normalize(MaxVal(w), w) == 1.0 && Normalize(MinVal(w), w) == -1.0 - Step(w)
    ensures var s, m := Scale(x, w), MaxVal(w) as real;
      && (x < 1.0 <==> s < m) && (x < -1.0 <==> s < -m) && (x <= -1.0 - Step(w) <==> s <= -m - 1.0)
      && (x < 0.0 <==> s < 0.0) && (0.0 < x <==> 0.0 < s)
  {
    hide Scale, Step, Unscale, MinVal, MaxVal;
    Limits(w);
    ScaleIsMonotone(x, 1.0, w);
    ScaleIsMonotone(x, -1.0, w);
    ScaleIsMonotone(-1.0 - Step(w), x, w);
    ScaleIsMonotone(x, 0.0, w);
    ScaleIsMonotone(0.0, x, w);
  }

  lemma Limits(w: width)
    ensures var m := MaxVal(w) as real;
      && Scale(1.0, w) == m && Scale(-1.0, w) == -m && Scale(0.0, w) == 0.0 && Scale(-1.0 - Step(w), w) == -m - 1.0
      && Unscale(m, w) == 1.0 && Unscale(MinVal(w) as real, w) == -1.0 - Step(w)
  {
    hide MaxVal;
    var m := MaxVal(w) as real;
    assert m * Step(w) == 1.0;
    assert MinVal(w) as real == -m - 1.0;
    assert (-m - 1.0) * Step(w) == -(m * Step(w)) - Step(w);
    assert m * (-1.0 - Step(w)) == -m - m * Step(w);
  }

  /** Playback followed by capture: within one step below full scale, saturated above it, never
      louder and never on the other side of zero. */
  lemma NormalizeQuantize(x: real, w: width)
    ensures var y := Normalize(Quantize(x, w), w);
      && (-1.0 <= x <= 1.0 ==> -Step(w) < y - x < Step(w))
      && (x >= 1.0 ==> y == 1.0)
      && (x <= -1.0 - Step(w) ==> y == -1.0 - Step(w))
      && (0.0 <= x ==> 0.0 <= y <= x) && (x <= 0.0 ==> x <= y <= 0.0)
  {
    hide MaxVal, Convert, Scale, Step, Unscale;
    var v := Quantize(x, w);
    ConvertIsNearest(Scale(x, w), w);
    Restored(x, v, w);
    FullScale(x, w);
  }

  lemma QuantizeIsMonotone(x: real, y: real, w: width)
    requires x <= y
    ensures Quantize(x, w) <= Quantize(y, w)
  {
    hide MaxVal, Convert, Scale;
    ScaleIsMonotone(y, x, w);
    ConvertIsMonotone(Scale(x, w), Scale(y, w), w);
  }

  /** Clamping the float and dropping the fraction, the order of the generic vector code. */
  lemma ClampThenTruncate(scaled: real, w: width)
    ensures Trunc(Clamp(scaled, MinVal(w) as real, MaxVal(w) as real)) == Convert(scaled, w)
  {
    hide Span, MaxVal, Trunc;
    TruncOfInt(MaxVal(w));
    TruncOfInt(MinVal(w));
  }

  /** Dropping the fraction into 32 bits and narrowing with saturation, the 16-bit vector code. */
  lemma TruncateThenSaturate(scaled: real)
    ensures Saturate(Saturate(Trunc(scaled), -0x8000_0000, 0x7fff_ffff), -0x8000, 0x7fff) == Convert(scaled, 2)
  {
  }

  /** The mask that completes negative samples: bits 8 * w to 31. */
  function CaptureMask(w: width): nat { Span(4) - Span(w) }

  /** The sign extension of the capture code is two's complement. */
  lemma SignExtension(n: nat, w: width)
    requires n < Span(w)
    ensures var res := Wrap32(n);
      (if Unsigned(res) > MaxVal(w) then Wrap32(Or(Unsigned(res), CaptureMask(w))) else res) == Signed(n, w)
  {
    hide Or, Pow2;
    OrMask(n, w);
    if w == 1 { } else if w == 2 { } else if w == 3 { } else { }
  }

  lemma OrMask(n: nat, w: width)
    requires n < Span(w)
    ensures Or(n, CaptureMask(w)) == n + CaptureMask(w)
  {
    hide Or, Pow2;
    SpanIsPow2(w);
    var high := Span(4 - w) - 1;
    assert high * Span(w) == CaptureMask(w) by { if w == 1 { } else if w == 2 { } else if w == 3 { } else { } }
    OrAdds(n, high, 8 * w);
  }

  // ----- whole buffers

  /** The bytes of a buffer of floats. */
  function RawOf(xs: seq<real>, w: width, big: bool): seq<byte> {
    if |xs| == 0 then [] else Encode(Quantize(xs[0], w), w, big) + RawOf(xs[1..], w, big)
  }

  /** The floats of a buffer of bytes. */
  function FloatsOf(raw: seq<byte>, w: width, big: bool): seq<real> {
    if |raw| < w then [] else [Normalize(Decode(raw[..w], big), w)] + FloatsOf(raw[w..], w, big)
  }

  /** Main result on captured buffers: playing them back restores every byte. */
  lemma {:induction false} RawFloatRaw(raw: seq<byte>, n: nat, w: width, big: bool)
    requires |raw| == n * w
    ensures |FloatsOf(raw, w, big)| == n
    ensures RawOf(FloatsOf(raw, w, big), w, big) == raw
    decreases n
  {
    hide Encode, Decode, Normalize, Quantize;
    if n > 0 {
      assert |raw| == (n - 1) * w + w;
      EncodeDecode(raw[..w], big);
      QuantizeNormalize(Decode(raw[..w], big), w);
      RawFloatRaw(raw[w..], n - 1, w, big);
      assert FloatsOf(raw, w, big)[1..] == FloatsOf(raw[w..], w, big);
      assert raw == raw[..w] + raw[w..];
    }
  }

  /** Main result on rendered buffers: capturing them gives each sample back, rounded. */
  lemma {:induction false} FloatRawFloat(xs: seq<real>, w: width, big: bool)
    ensures var ys := FloatsOf(RawOf(xs, w, big), w, big);
      |ys| == |xs| && forall k :: 0 <= k < |xs| ==> ys[k] == Normalize(Quantize(xs[k], w), w)
  {
    hide Encode, Decode, Normalize, Quantize;
    if |xs| > 0 {
      var first, rest := Encode(Quantize(xs[0], w), w, big), RawOf(xs[1..], w, big);
      assert (first + rest)[..w] == first && (first + rest)[w..] == rest;
      DecodeEncode(Quantize(xs[0], w), w, big);
      FloatRawFloat(xs[1..], w, big);
    }
  }

  /** Sample k of a buffer lies in bytes k * w to k * w + w. */
  lemma {:induction false} RawAt(xs: seq<real>, w: width, big: bool, k: nat)
    requires k < |xs|
    ensures k * w + w <= |RawOf(xs, w, big)| == |xs| * w
    ensures RawOf(xs, w, big)[k * w..k * w + w] == Encode(Quantize(xs[k], w), w, big)
    decreases |xs|
  {
    hide Encode, Quantize;
    var first, rest := Encode(Quantize(xs[0], w), w, big), RawOf(xs[1..], w, big);
    assert |xs| * w == w + (|xs| - 1) * w;
    RawSize(xs[1..], w, big);
    assert (first + rest)[..w] == first;
    if 0 < k {
      RawAt(xs[1..], w, big, k - 1);
      assert k * w == w + (k - 1) * w;
      Behind(first, rest, (k - 1) * w, (k - 1) * w + w);
    }
  }

  lemma Behind(a: seq<byte>, b: seq<byte>, from: nat, to: nat)
    requires from <= to <= |b|
    ensures (a + b)[|a| + from..|a| + to] == b[from..to]
  {
  }

  lemma {:induction false} RawSize(xs: seq<real>, w: width, big: bool)
    ensures |RawOf(xs, w, big)| == |xs| * w
  {
    hide Encode, Quantize;
    if 0 < |xs| {
      RawSize(xs[1..], w, big);
      assert |xs| * w == w + (|xs| - 1) * w;
    }
  }

  lemma {:induction false} RawSnoc(xs: seq<real>, x: real, w: width, big: bool)
    ensures RawOf(xs + [x], w, big) == RawOf(xs, w, big) + Encode(Quantize(x, w), w, big)
  {
    hide Encode, Quantize;
    if |xs| > 0 {
      assert (xs + [x])[1..] == xs[1..] + [x];
      RawSnoc(xs[1..], x, w, big);
    }
  }

  lemma {:induction false} FloatsSnoc(raw: seq<byte>, n: nat, bytes: seq<byte>, w: width, big: bool)
    requires |raw| == n * w && |bytes| == w
    ensures FloatsOf(raw + bytes, w, big) == FloatsOf(raw, w, big) + [Normalize(Decode(bytes, big), w)]
    decreases n
  {
    hide Decode, Normalize;
    if n == 0 {
      assert raw + bytes == bytes && bytes[..w] == bytes;
    } else {
      assert |raw| == (n - 1) * w + w;
      assert (raw + bytes)[..w] == raw[..w] && (raw + bytes)[w..] == raw[w..] + bytes;
      FloatsSnoc(raw[w..], n - 1, bytes, w, big);
    }
  }
}
