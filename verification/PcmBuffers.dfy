/** tinyalsaAudio.cpp: whole periods between the raw buffer and the float buffer, sample by sample
    and in blocks of vector lanes. */
module PcmBuffers {
  import opened Basics
  import opened PcmSamples
  import opened Rings

  datatype PcmFormat =
    | S16_LE | S32_LE | S8 | S24_LE | S24_3LE | S16_BE | S24_BE | S24_3BE | S32_BE

  /** pcm_format_to_bits, which knows four formats. */
  function FormatToBits(f: PcmFormat): nat {
    match f
    case S32_LE | S24_LE => 32
    case S24_3LE => 24
    case _ => 16
  }

  predicate IsPacked(f: PcmFormat) { f.S24_3LE? || f.S24_3BE? }

  /** Bytes used and bytes occupied by a sample. */
  function UsedBytes(f: PcmFormat, bits: nat): nat { if IsPacked(f) then 3 else bits / 8 }

  function PhysicalBytes(bits: nat): nat { bits / 8 }

  /** The two sizes agree for every format of the table but one. */
  lemma SizesAgree(f: PcmFormat)
    ensures UsedBytes(f, FormatToBits(f)) == PhysicalBytes(FormatToBits(f)) <==> f != S24_3BE
  {
  }

  /** Rounding up to whole vectors, as adding and masking does. */
  function RoundUp(n: nat, lanes: nat): (r: nat)
    requires lanes == 4 || lanes == 8
    ensures n <= r < n + lanes && r % 4 == 0 && (lanes == 8 ==> r % 8 == 0)
  {
    var m := n + lanes - 1;
    if lanes == 8 then m - m % 8 else m - m % 4
  }

  /** The number of samples of a vector build. */
  function Rounded(f: PcmFormat, n: nat): (r: nat)
    ensures n <= r && r % 4 == 0 && (f.S16_LE? || f.S16_BE? ==> r % 8 == 0)
  {
    if f.S16_LE? || f.S16_BE? then RoundUp(n, 8) else RoundUp(n, 4)
  }

  /** How many samples the chosen vector loop takes at once. */
  function LanesOf(used: nat): nat { if used == 2 then 8 else 4 }

  /** Every period fills whole blocks, except in the formats that the size table takes for 16 bits
      although the rounding does not. */
  lemma BlocksFit(f: PcmFormat)
    ensures (forall n: nat :: Rounded(f, n) % LanesOf(UsedBytes(f, FormatToBits(f))) == 0) <==>
      !(f.S8? || f.S24_BE? || f.S32_BE?)
  {
    assert Rounded(f, 4) == if f.S16_LE? || f.S16_BE? then 8 else 4;
  }

  lemma EncodeAt(v: int, w: width, big: bool, i: nat)
    requires i < w
    ensures Encode(v, w, big)[Place(w, big, i)] == v / Span(i) % 256
  {
    DigitAt(v, w, i);
  }

  /** Where sample n begins. */
  function Offset(n: nat, w: nat): nat { n * w }

  lemma Room(n: nat, size: nat, w: nat)
    requires n < size
    ensures Offset(n, w) + w == Offset(n + 1, w) <= Offset(size, w)
  {
    assert (n + 1) * w + (size - n - 1) * w == size * w;
  }

  /** Sample n of raw, counted from position p. */
  predicate Holds(raw: seq<byte>, p: nat, bytes: seq<byte>) {
    p + |bytes| <= |raw| && raw[p..p + |bytes|] == bytes
  }

  lemma WrittenOne(raw: seq<byte>, p: nat, xs: seq<real>, n: nat, w: width, big: bool)
    requires p <= |raw| && n < |xs| && raw[..p] == RawOf(xs[..n], w, big)
    requires Holds(raw, p, Encode(Quantize(xs[n], w), w, big))
    ensures raw[..p + w] == RawOf(xs[..n + 1], w, big)
  {
    hide RawOf, Encode, Quantize;
    NothingYet(w, big);
    Room(0, 1, w);
    Written(raw, p, xs[..n], [xs[n]], w, big);
    assert xs[..n] + [xs[n]] == xs[..n + 1];
  }

  /** More samples behind those already written. */
  lemma {:induction false} Written(raw: seq<byte>, p: nat, xs: seq<real>, ys: seq<real>, w: width, big: bool)
    requires p <= |raw| && raw[..p] == RawOf(xs, w, big)
    requires forall k :: 0 <= k < |ys| ==> Holds(raw, p + Offset(k, w), Encode(Quantize(ys[k], w), w, big))
    ensures p + Offset(|ys|, w) <= |raw| && raw[..p + Offset(|ys|, w)] == RawOf(xs + ys, w, big)
  {
    hide RawOf, Encode, Quantize, Offset;
    NothingYet(w, big);
    if |ys| == 0 {
      assert xs + ys == xs;
    } else {
      var n := |ys| - 1;
      Written(raw, p, xs, ys[..n], w, big);
      Room(n, |ys|, w);
      var q := p + Offset(n, w);
      RawSnoc(xs + ys[..n], ys[n], w, big);
      assert xs + ys[..n] + [ys[n]] == xs + ys;
      assert Holds(raw, q, Encode(Quantize(ys[n], w), w, big));
      assert raw[..q + w] == raw[..q] + raw[q..q + w];
    }
  }

  /** One more sample behind those already read. */
  lemma Read(before: seq<real>, after: seq<real>, raw: seq<byte>, n: nat, p: nat, w: width, big: bool)
    requires p == Offset(n, w) && p + w <= |raw| && n < |before| == |after| && before[..n] == FloatsOf(raw[..p], w, big)
    requires after == before[n := Normalize(Decode(raw[p..p + w], big), w)]
    ensures after[..n + 1] == FloatsOf(raw[..p + w], w, big)
  {
    hide FloatsOf, Decode, Normalize;
    FloatsAtOffset(raw, n, p, w, big);
  }

  /** The sample at p is x. */
  predicate Sounds(raw: seq<byte>, p: nat, x: real, w: width, big: bool) {
    p + w <= |raw| && x == Normalize(Decode(raw[p..p + w], big), w)
  }

  /** More samples behind those already read. */
  lemma {:induction false} ReadLanes(raw: seq<byte>, n: nat, p: nat, xs: seq<real>, ys: seq<real>, w: width, big: bool)
    requires p == Offset(n, w) && p <= |raw| && xs == FloatsOf(raw[..p], w, big)
    requires forall k :: 0 <= k < |ys| ==> Sounds(raw, p + Offset(k, w), ys[k], w, big)
    ensures p + Offset(|ys|, w) == Offset(n + |ys|, w) <= |raw|
    ensures xs + ys == FloatsOf(raw[..p + Offset(|ys|, w)], w, big)
  {
    hide FloatsOf, Decode, Normalize, Offset;
    NothingYet(w, big);
    if |ys| == 0 {
      assert xs + ys == xs;
    } else {
      var k := |ys| - 1;
      ReadLanes(raw, n, p, xs, ys[..k], w, big);
      Room(k, |ys|, w);
      Room(n + k, n + |ys|, w);
      var q := p + Offset(k, w);
      assert Sounds(raw, q, ys[k], w, big);
      FloatsAtOffset(raw, n + k, q, w, big);
      assert xs + ys == xs + ys[..k] + [ys[k]];
    }
  }

  lemma FloatsAtOffset(raw: seq<byte>, n: nat, p: nat, w: width, big: bool)
    requires p == Offset(n, w) && p + w <= |raw|
    ensures FloatsOf(raw[..p + w], w, big) == FloatsOf(raw[..p], w, big) + [Normalize(Decode(raw[p..p + w], big), w)]
  {
    hide FloatsOf, Decode, Normalize;
    FloatsSnoc(raw[..p], n, raw[p..p + w], w, big);
    assert raw[..p + w] == raw[..p] + raw[p..p + w];
  }

  /** The byte swap of a 16-bit value. */
  function Swap16(v: int): int { Decode(Encode(v, 2, false), true) }

  lemma StoreSwapped(v: int, cpuBig: bool)
    ensures Encode(Swap16(v), 2, cpuBig) == Encode(v, 2, !cpuBig)
  {
    var little := Encode(v, 2, false);
    EncodeDecode(little, true);
    assert Encode(Swap16(v), 2, true) == little;
    OrderedTwice(Digits(v, 2), true);
    OrderedTwice(Digits(Swap16(v), 2), true);
  }

  lemma LoadSwapped(bytes: seq<byte>, cpuBig: bool)
    requires |bytes| == 2
    ensures Swap16(Decode(bytes, cpuBig)) == Decode(bytes, !cpuBig)
  {
    EncodeDecode(bytes, cpuBig);
    var v := Decode(bytes, cpuBig);
    assert Ordered(Encode(v, 2, false), true) == Encode(v, 2, true);
    if cpuBig {
      assert Encode(v, 2, true) == bytes;
      assert Ordered(Ordered(bytes, true), true) == bytes;
      assert Encode(v, 2, false) == Ordered(bytes, true);
    }
  }

  class AudioStruct {
    const bps: nat
    const physBps: nat
    const formatBits: nat
    const maxVal: nat
    const minVal: int
    const factorReciprocal: real
    const numOfSamples: nat
    const rawBuffer: array<byte>
    const audioBuffer: array<real>
    const captureMask: nat

    /** The conversions work on samples that fill their slots and on buffers of equal length. */
    predicate Valid() {
      && 1 <= bps <= 4 && bps == physBps && formatBits == 8 * bps
      && maxVal == MaxVal(bps) && minVal == MinVal(bps) && factorReciprocal == Step(bps)
      && captureMask == CaptureMask(bps)
      && audioBuffer.Length == numOfSamples && rawBuffer.Length == Offset(numOfSamples, bps)
    }

    /** initLowLevelAudioStruct. */
    constructor (format: PcmFormat, bits: nat, channels: nat, periodSize: nat, neon: bool)
      requires bits == 8 || bits == 16 || bits == 24 || bits == 32
      ensures fresh(rawBuffer) && fresh(audioBuffer)
      ensures bps == UsedBytes(format, bits) && physBps == PhysicalBytes(bits)
      ensures numOfSamples >= channels * periodSize
      ensures neon ==> numOfSamples % 4 == 0 && (format.S16_LE? || format.S16_BE? ==> numOfSamples % 8 == 0)
      ensures Valid() <==> bps == physBps && (neon || 0 < channels || periodSize == 0)
      ensures audioBuffer.Length == numOfSamples && forall k :: 0 <= k < numOfSamples ==> audioBuffer[k] == 0.0
    {
      hide Span, Pow2, MaxVal, MinVal, CaptureMask, Step, Offset;
      var voices := if channels <= 0 then 1 else channels;
      var occupied := bits / 8;
      var used := if !format.S24_3LE? && !format.S24_3BE? then occupied else 3;
      bps, physBps, formatBits := used, occupied, used * 8;
      FullScaleIs(used);
      var top: int := Pow2(used * 8 - 1) - 1;
      maxVal, minVal := top, -(top + 1);
      factorReciprocal := 1.0 / top as real;
      var samples, frameBytes := Sizes(format, voices, channels, periodSize, occupied, neon);
      numOfSamples := samples;
      rawBuffer := new byte[frameBytes];
      audioBuffer := new real[samples](_ => 0.0);
      var mask := MaskAbove(used);
      captureMask := mask;
    }

    // ----- the two entry points, in a scalar and in a vector build

    /** fromFloatToRaw for integer formats: whichever path is taken, the same bytes. */
    method FromFloatToRaw(big: bool, cpuBig: bool, neon: bool)
      requires Valid() && (neon ==> numOfSamples % LanesOf(bps) == 0)
      modifies rawBuffer
      ensures rawBuffer[..] == RawOf(audioBuffer[..], bps, big)
    {
      hide RawOf, Span, MaxVal, MinVal, Step, CaptureMask, Offset;
      if bps == 2 {
        if neon { FromFloatToRaw16Lanes(big, cpuBig); } else { FromFloatToRaw16(big, cpuBig); }
      } else {
        if neon { FromFloatToRawIntLanes(big); } else { FromFloatToRawInt(big); }
      }
    }

    /** fromRawToFloat for integer formats: whichever path is taken, the same floats. */
    method FromRawToFloat(big: bool, cpuBig: bool, neon: bool)
      requires Valid() && (neon ==> numOfSamples % LanesOf(bps) == 0)
      modifies audioBuffer
      ensures audioBuffer[..] == FloatsOf(rawBuffer[..], bps, big)
    {
      hide FloatsOf, Span, MaxVal, MinVal, Step, CaptureMask, Offset;
      if bps == 2 {
        if neon { FromRawToFloat16Lanes(big, cpuBig); } else { FromRawToFloat16(big, cpuBig); }
      } else {
        if neon { FromRawToFloatIntLanes(big); } else { FromRawToFloatInt(big); }
      }
    }

    // ----- one sample

    /** byteSplit_littleEndian and byteSplit_bigEndian at position p. */
    method ByteSplit(p: nat, value: int, big: bool)
      requires Valid() && p + bps <= rawBuffer.Length
      modifies rawBuffer
      ensures rawBuffer[..p] == old(rawBuffer[..p])
      ensures rawBuffer[p..p + bps] == Encode(value, bps, big)
      ensures rawBuffer[p + bps..] == old(rawBuffer[p + bps..])
    {
      hide Encode, Span, MaxVal;
      for i := 0 to bps
        invariant forall x :: 0 <= x < rawBuffer.Length && (x < p || p + bps <= x) ==> rawBuffer[x] == old(rawBuffer[x])
        invariant forall j :: 0 <= j < i ==>
          rawBuffer[p + Place(bps, big, j)] == Encode(value, bps, big)[Place(bps, big, j)]
      {
        EncodeAt(value, bps, big, i);
        rawBuffer[p + if big then physBps - 1 - i else i] := value / Span(i) % 256;
      }
      forall x | 0 <= x < bps ensures rawBuffer[p + x] == Encode(value, bps, big)[x] {
        var j := Place(bps, big, x);
        assert x == Place(bps, big, j);
      }
    }

    /** byteCombine_littleEndian and byteCombine_bigEndian at position p. */
    method ByteCombine(p: nat, big: bool) returns (value: int)
      requires Valid() && p + bps <= rawBuffer.Length
      ensures value == Wrap32(Number(Ordered(rawBuffer[p..p + bps], big)))
    {
      hide Span, MaxVal, Ordered, Number, Wrap32, Place;
      ghost var raw := rawBuffer[..];
      value := 0;
      CombinedNone(raw, p, bps, big);
      for i := 0 to bps
        invariant CombinedOne(raw, p, value, bps, big, i)
      {
        PlaceIs(bps, big, i);
        CombinedNext(raw, p, value, bps, big, i);
        value := Wrap32(value + Wrap32(rawBuffer[p + if big then physBps - 1 - i else i] * Span(i)));
      }
      ghost var digits := Ordered(raw[p..p + bps], big);
      assert digits[..bps] == digits && raw[p..p + bps] == rawBuffer[p..p + bps];
    }

    /** The scaling and saturation before byteSplit. */
    method ToSample(x: real) returns (res: int)
      requires Valid()
      ensures res == Quantize(x, bps)
    {
      hide MaxVal, MinVal, Scale, Trunc, Step, CaptureMask, Offset;
      ScaleIs(maxVal, x, bps);
      var scaled := maxVal as real * x;
      assert scaled == Scale(x, bps);
      if scaled > maxVal as real {
        res := maxVal;
      } else if scaled < minVal as real {
        res := minVal;
      } else {
        res := Trunc(scaled);
      }
    }

    /** The sign extension and scaling after byteCombine. */
    method ToFloat(combined: int, ghost bytes: seq<byte>, big: bool) returns (x: real)
      requires Valid() && |bytes| == bps && combined == Wrap32(Number(Ordered(bytes, big)))
      ensures x == Normalize(Decode(bytes, big), bps)
    {
      hide Span, Ordered, Number, MaxVal, MinVal, CaptureMask, Or, Wrap32, Unsigned, Step, Signed, Digits;
      DigitsOfNumber(Ordered(bytes, big), false);
      SignExtension(Number(Ordered(bytes, big)), bps);
      var res := combined;
      if Unsigned(res) > maxVal {
        res := Wrap32(Or(Unsigned(res), captureMask));
      }
      x := res as real * factorReciprocal;
    }

    // ----- whole periods, one sample after the other

    /** fromFloatToRaw_int_littleEndian and _bigEndian. */
    method FromFloatToRawInt(big: bool)
      requires Valid()
      modifies rawBuffer
      ensures rawBuffer[..] == RawOf(audioBuffer[..], bps, big)
    {
      hide RawOf, Encode, Span, MaxVal, MinVal, Step, CaptureMask, Quantize, Offset;
      var sampleBytes := 0;
      NothingYet(bps, big);
      assert rawBuffer[..0] == [] && audioBuffer[..0] == [];
      for n := 0 to numOfSamples
        invariant sampleBytes == Offset(n, bps) <= rawBuffer.Length
        invariant rawBuffer[..sampleBytes] == RawOf(audioBuffer[..n], bps, big)
      {
        Room(n, numOfSamples, bps);
        var res := ToSample(audioBuffer[n]);
        ghost var before := rawBuffer[..];
        ByteSplit(sampleBytes, res, big);
        assert rawBuffer[..][..sampleBytes] == before[..sampleBytes];
        WrittenOne(rawBuffer[..], sampleBytes, audioBuffer[..], n, bps, big);
        sampleBytes := sampleBytes + bps;
      }
      assert audioBuffer[..numOfSamples] == audioBuffer[..];
    }

    /** fromRawToFloat_int_littleEndian and _bigEndian. */
    method FromRawToFloatInt(big: bool)
      requires Valid()
      modifies audioBuffer
      ensures audioBuffer[..] == FloatsOf(rawBuffer[..], bps, big)
    {
      hide FloatsOf, Decode, Normalize, Number, Ordered, Wrap32, Offset, Span, MaxVal, MinVal, Step, CaptureMask;
      var sampleBytes := 0;
      NothingYet(bps, big);
      ghost var raw := rawBuffer[..];
      assert raw[..0] == [] && audioBuffer[..0] == [];
      for n := 0 to numOfSamples
        invariant sampleBytes == Offset(n, bps) <= rawBuffer.Length
        invariant audioBuffer[..n] == FloatsOf(raw[..sampleBytes], bps, big)
      {
        Room(n, numOfSamples, bps);
        var res := ByteCombine(sampleBytes, big);
        assert rawBuffer[sampleBytes..sampleBytes + bps] == raw[sampleBytes..sampleBytes + bps];
        ghost var before := audioBuffer[..];
        audioBuffer[n] := ToFloat(res, raw[sampleBytes..sampleBytes + bps], big);
        Read(before, audioBuffer[..], raw, n, sampleBytes, bps, big);
        sampleBytes := sampleBytes + bps;
      }
      assert audioBuffer[..numOfSamples] == audioBuffer[..] && raw[..sampleBytes] == raw;
    }

    // ----- 16 bits, one sample after the other

    /** The CPU's own 16-bit store. */
    method Store16(p: nat, value: int, cpuBig: bool)
      requires Valid() && bps == 2 && p + 2 <= rawBuffer.Length
      modifies rawBuffer
      ensures rawBuffer[..p] == old(rawBuffer[..p])
      ensures rawBuffer[p..p + 2] == Encode(value, 2, cpuBig)
      ensures rawBuffer[p + 2..] == old(rawBuffer[p + 2..])
    {
      ByteSplit(p, value, cpuBig);
    }

    /** The 16-bit branch of fromFloatToRaw. */
    method FromFloatToRaw16(big: bool, cpuBig: bool)
      requires Valid() && bps == 2
      modifies rawBuffer
      ensures rawBuffer[..] == RawOf(audioBuffer[..], 2, big)
    {
      hide RawOf, Encode, MinVal, Step, CaptureMask, Convert, Offset, Swap16, Scale, Trunc, Span;
      var dst := 0;
      NothingYet(2, big);
      assert rawBuffer[..0] == [] && audioBuffer[..0] == [];
      for n := 0 to numOfSamples
        invariant dst == Offset(n, 2) <= rawBuffer.Length
        invariant rawBuffer[..dst] == RawOf(audioBuffer[..n], 2, big)
      {
        Room(n, numOfSamples, 2);
        ScaleIs(maxVal, audioBuffer[n], 2);
        var scaled := maxVal as real * audioBuffer[n];
        if scaled > 32767.0 {
          scaled := 32767.0;
        } else if scaled < -32768.0 {
          scaled := -32768.0;
        }
        var val := Trunc(scaled);
        ClampThenTruncate16(Scale(audioBuffer[n], 2));
        StoreSwapped(val, cpuBig);
        if big != cpuBig {
          val := Swap16(val);
        }
        ghost var before := rawBuffer[..];
        Store16(dst, val, cpuBig);
        assert rawBuffer[..][..dst] == before[..dst];
        WrittenOne(rawBuffer[..], dst, audioBuffer[..], n, 2, big);
        dst := dst + 2;
      }
      assert audioBuffer[..numOfSamples] == audioBuffer[..];
    }

    /** The CPU's own 16-bit load. */
    function Load16(p: nat, cpuBig: bool): int
      requires p + 2 <= rawBuffer.Length
      reads rawBuffer
    {
      Decode(rawBuffer[p..p + 2], cpuBig)
    }

    /** The 16-bit branch of fromRawToFloat. */
    method FromRawToFloat16(big: bool, cpuBig: bool)
      requires Valid() && bps == 2
      modifies audioBuffer
      ensures audioBuffer[..] == FloatsOf(rawBuffer[..], 2, big)
    {
      hide FloatsOf, Decode, Offset, Span, MaxVal, MinVal, Step, CaptureMask, Swap16, Normalize;
      var src := 0;
      NothingYet(2, big);
      ghost var raw := rawBuffer[..];
      assert raw[..0] == [] && audioBuffer[..0] == [];
      for n := 0 to numOfSamples
        invariant src == Offset(n, 2) <= rawBuffer.Length
        invariant audioBuffer[..n] == FloatsOf(raw[..src], 2, big)
      {
        Room(n, numOfSamples, 2);
        var val := Load16(src, cpuBig);
        assert rawBuffer[src..src + 2] == raw[src..src + 2];
        LoadSwapped(raw[src..src + 2], cpuBig);
        if big != cpuBig {
          val := Swap16(val);
        }
        ghost var before := audioBuffer[..];
        assert val == Decode(raw[src..src + 2], big);
        NormalizeIs(val, 2);
        assert val as real * factorReciprocal == Normalize(val, 2);
        audioBuffer[n] := val as real * factorReciprocal;
        Read(before, audioBuffer[..], raw, n, src, 2, big);
        src := src + 2;
      }
      assert audioBuffer[..numOfSamples] == audioBuffer[..] && raw[..src] == raw;
    }

    // ----- vector lanes

    /** Byte i of four lanes, a sample apart. */
    method StoreByteOfLanes(first: nat, values: seq<int>, i: nat)
      requires Valid() && |values| == 4 && i < bps && first + 3 * bps < rawBuffer.Length
      modifies rawBuffer
      ensures rawBuffer[..] ==
        old(rawBuffer[..])[first := values[0] / Span(i) % 256][first + 1 * bps := values[1] / Span(i) % 256]
        [first + 2 * bps := values[2] / Span(i) % 256][first + 3 * bps := values[3] / Span(i) % 256]
    {
      hide Span, MaxVal, MinVal, Step, CaptureMask, Offset;
      rawBuffer[first] := values[0] / Span(i) % 256;
      rawBuffer[first + 1 * bps] := values[1] / Span(i) % 256;
      rawBuffer[first + 2 * bps] := values[2] / Span(i) % 256;
      rawBuffer[first + 3 * bps] := values[3] / Span(i) % 256;
    }

    /** byteSplit_littleEndian_neon and byteSplit_bigEndian_neon: byte i of all lanes at once. */
    method ByteSplitLanes(p: nat, values: seq<int>, big: bool)
      requires Valid() && |values| == 4 && p + 4 * bps <= rawBuffer.Length
      modifies rawBuffer
      ensures rawBuffer[..p] == old(rawBuffer[..p])
      ensures forall k :: 0 <= k < 4 ==> Holds(rawBuffer[..], p + Offset(k, bps), Encode(values[k], bps, big))
    {
      hide Encode, Span, MaxVal, MinVal, Step, CaptureMask, Place, SplitSoFar, LanesSoFar, Holds, Offset;
      ghost var start := rawBuffer[..];
      LanesBegin(start, p, values, bps, big);
      for i := 0 to bps
        invariant |rawBuffer[..]| == |start| && rawBuffer[..][..p] == start[..p]
        invariant LanesSoFar(rawBuffer[..], p, values, bps, big, i)
      {
        ghost var before := rawBuffer[..];
        PlaceIs(bps, big, i);
        var first := p + if big then physBps - 1 - i else i;
        StoreByteOfLanes(first, values, i);
        LanesStep(before, rawBuffer[..], p, values, bps, big, i);
      }
      LanesEnd(rawBuffer[..], p, values, bps, big);
      assert rawBuffer[..][..p] == rawBuffer[..p] && start[..p] == old(rawBuffer[..p]);
    }

    /** byteCombine_littleEndian_neon and byteCombine_bigEndian_neon. */
    method ByteCombineLanes(p: nat, big: bool) returns (values: seq<int>)
      requires Valid() && p + 4 * bps <= rawBuffer.Length
      ensures |values| == 4 && Combined(rawBuffer[..], p, values, bps, big, bps)
    {
      hide Combined, CaptureMask, Span, MaxVal, MinVal, Step, Place, Offset;
      ghost var raw := rawBuffer[..];
      values := [0, 0, 0, 0];
      CombinedBegin(raw, p, bps, big);
      var count := if big then bps else physBps;
      for i := 0 to count
        invariant |values| == 4 && Combined(raw, p, values, bps, big, i)
      {
        PlaceIs(bps, big, i);
        var first := p + if big then physBps - 1 - i else i;
        ghost var before := values;
        values := [
          Wrap32(values[0] + Wrap32(rawBuffer[first] * Span(i))),
          Wrap32(values[1] + Wrap32(rawBuffer[first + 1 * bps] * Span(i))),
          Wrap32(values[2] + Wrap32(rawBuffer[first + 2 * bps] * Span(i))),
          Wrap32(values[3] + Wrap32(rawBuffer[first + 3 * bps] * Span(i)))];
        CombinedStep(raw, p, before, values, bps, big, i);
      }
    }

    // ----- whole periods, lanes at once

    /** fromFloatToRaw_int_littleEndian_neon and _bigEndian_neon. */
    method FromFloatToRawIntLanes(big: bool)
      requires Valid() && numOfSamples % 4 == 0
      modifies rawBuffer
      ensures rawBuffer[..] == RawOf(audioBuffer[..], bps, big)
    {
      hide RawOf, Encode, Span, MaxVal, MinVal, Step, CaptureMask, Quantize, Offset, Scale, Trunc, Clamp, Holds;
      var n, sampleBytes := 0, 0;
      NothingYet(bps, big);
      assert rawBuffer[..0] == [] && audioBuffer[..0] == [];
      while n < numOfSamples
        invariant n <= numOfSamples && n % 4 == 0
        invariant sampleBytes == Offset(n, bps) <= rawBuffer.Length
        invariant rawBuffer[..sampleBytes] == RawOf(audioBuffer[..n], bps, big)
      {
        OffsetAdd(n, 4, numOfSamples, bps);
        var inputVec := audioBuffer[n..n + 4];
        var resultVec := Each(inputVec, x => Scale(x, bps));
        resultVec := Each(resultVec, x => Clamp(x, minVal as real, maxVal as real));
        var intValues := Each(resultVec, x => Trunc(x));
        forall k | 0 <= k < 4 ensures intValues[k] == Quantize(inputVec[k], bps) {
          QuantizeByClamp(inputVec[k], bps);
        }
        ghost var before := rawBuffer[..];
        ByteSplitLanes(sampleBytes, intValues, big);
        assert rawBuffer[..][..sampleBytes] == before[..sampleBytes];
        Written(rawBuffer[..], sampleBytes, audioBuffer[..n], inputVec, bps, big);
        assert audioBuffer[..n + 4] == audioBuffer[..n] + inputVec;
        n := n + 4;
        sampleBytes := sampleBytes + 4 * physBps;
      }
      assert audioBuffer[..numOfSamples] == audioBuffer[..];
    }

    /** fromRawToFloat_int_littleEndian_neon and _bigEndian_neon. */
    method FromRawToFloatIntLanes(big: bool)
      requires Valid() && numOfSamples % 4 == 0
      modifies audioBuffer
      ensures audioBuffer[..] == FloatsOf(rawBuffer[..], bps, big)
    {
      hide FloatsOf, Decode, Normalize, Offset, Span, MaxVal, MinVal, Step, CaptureMask, Combined;
      var n, sampleBytes := 0, 0;
      NothingYet(bps, big);
      ghost var raw := rawBuffer[..];
      assert raw[..0] == [] && audioBuffer[..0] == [];
      while n < numOfSamples
        invariant n <= numOfSamples && n % 4 == 0
        invariant sampleBytes == Offset(n, bps) <= rawBuffer.Length
        invariant audioBuffer[..n] == FloatsOf(raw[..sampleBytes], bps, big)
      {
        OffsetAdd(n, 4, numOfSamples, bps);
        var res := ByteCombineLanes(sampleBytes, big);
        var result := ToFloatLanes(raw, sampleBytes, res, big);
        ghost var before := audioBuffer[..n];
        assert before == FloatsOf(raw[..sampleBytes], bps, big);
        StoreFloats(n, result);
        ReadLanes(raw, n, sampleBytes, before, result, bps, big);
        n := n + 4;
        sampleBytes := sampleBytes + 4 * physBps;
      }
      assert audioBuffer[..numOfSamples] == audioBuffer[..] && raw[..sampleBytes] == raw;
    }

    method ToFloatLanes(ghost raw: seq<byte>, ghost p: nat, res: seq<int>, big: bool) returns (result: seq<real>)
      requires Valid() && |res| == 4 && Combined(raw, p, res, bps, big, bps)
      ensures |result| == 4
      ensures forall k :: 0 <= k < 4 ==> Sounds(raw, p + Offset(k, bps), result[k], bps, big)
    {
      hide Decode, Normalize, Offset, Span, MaxVal, MinVal, Step, CaptureMask, Combined, Number, Ordered, Wrap32;
      CombinedAll(raw, p, res, bps, big);
      result := [];
      for k := 0 to 4
        invariant |result| == k
        invariant forall j :: 0 <= j < k ==> Sounds(raw, p + Offset(j, bps), result[j], bps, big)
      {
        ghost var q := p + Offset(k, bps);
        assert CombinedOne(raw, q, res[k], bps, big, bps);
        var x := ToFloatLane(res[k], raw[q..q + bps], big);
        result := result + [x];
      }
    }

    /** Vector stores. */
    method StoreFloats(n: nat, lanes: seq<real>)
      requires n + |lanes| <= audioBuffer.Length
      modifies audioBuffer
      ensures audioBuffer[..n + |lanes|] == old(audioBuffer[..n]) + lanes
      ensures audioBuffer[n + |lanes|..] == old(audioBuffer[n + |lanes|..])
    {
      for k := 0 to |lanes|
        invariant audioBuffer[..n + k] == old(audioBuffer[..n]) + lanes[..k]
        invariant audioBuffer[n + k..] == old(audioBuffer[n + k..])
      {
        audioBuffer[n + k] := lanes[k];
      }
    }

    /** The masked sign extension of a vector lane. */
    method ToFloatLane(combined: int, ghost bytes: seq<byte>, big: bool) returns (x: real)
      requires Valid() && |bytes| == bps && combined == Wrap32(Number(Ordered(bytes, big)[..bps]))
      ensures x == Normalize(Decode(bytes, big), bps)
    {
      hide Span, Ordered, Number, MaxVal, MinVal, CaptureMask, Or, Step, Decode, Unsigned, Wrap32, Normalize;
      SignExtendedLane(bytes, bps, big);
      var masked := if Unsigned(combined) > maxVal then captureMask else 0;
      var masked_result := Wrap32(Or(Unsigned(combined), masked));
      NormalizeIs(masked_result, bps);
      x := masked_result as real * factorReciprocal;
    }

    /** Eight 16-bit samples stored in a row. */
    method StoreLanes(n: nat, dst: nat, combined: seq<int>, big: bool, cpuBig: bool)
      requires Valid() && bps == 2 && |combined| == 8 && n + 8 <= numOfSamples
        && dst == Offset(n, 2) <= rawBuffer.Length
      requires rawBuffer[..dst] == RawOf(audioBuffer[..n], 2, big)
      requires forall k :: 0 <= k < 8 ==>
        Encode(combined[k], 2, cpuBig) == Encode(Quantize(audioBuffer[n + k], 2), 2, big)
      modifies rawBuffer
      ensures dst + 16 == Offset(n + 8, 2) <= rawBuffer.Length
      ensures rawBuffer[..dst + 16] == RawOf(audioBuffer[..n + 8], 2, big)
    {
      hide RawOf, Encode, MaxVal, MinVal, Step, CaptureMask, Quantize, Offset, Span;
      ghost var xs := audioBuffer[..];
      assert audioBuffer[..n] == xs[..n];
      for k := 0 to 8
        invariant dst + 2 * k == Offset(n + k, 2) <= rawBuffer.Length
        invariant rawBuffer[..dst + 2 * k] == RawOf(xs[..n + k], 2, big)
      {
        Room(n + k, numOfSamples, 2);
        ghost var before := rawBuffer[..];
        Store16(dst + 2 * k, combined[k], cpuBig);
        assert rawBuffer[..][..dst + 2 * k] == before[..dst + 2 * k];
        WrittenOne(rawBuffer[..], dst + 2 * k, xs, n + k, 2, big);
      }
      assert audioBuffer[..n + 8] == xs[..n + 8];
    }

    /** The 16-bit branch of the vector fromFloatToRaw. */
    method FromFloatToRaw16Lanes(big: bool, cpuBig: bool)
      requires Valid() && bps == 2 && numOfSamples % 8 == 0
      modifies rawBuffer
      ensures rawBuffer[..] == RawOf(audioBuffer[..], 2, big)
    {
      hide RawOf, Encode, MaxVal, MinVal, Step, CaptureMask, Quantize, Offset, Swap16, Scale, Trunc, Span, Saturate;
      var n, dst := 0, 0;
      NothingYet(2, big);
      assert rawBuffer[..0] == [] && audioBuffer[..0] == [];
      while n < numOfSamples
        invariant n <= numOfSamples && n % 8 == 0
        invariant dst == Offset(n, 2) <= rawBuffer.Length
        invariant rawBuffer[..dst] == RawOf(audioBuffer[..n], 2, big)
      {
        ghost var xs := audioBuffer[..];
        var vec := Each(audioBuffer[n..n + 8], x => Scale(x, 2));
        var wide := Each(vec, x => Saturate(Trunc(x), -0x8000_0000, 0x7fff_ffff));
        var combined := Each(wide, v => Saturate(v, -0x8000, 0x7fff));
        if big != cpuBig {
          combined := Each(combined, v => Swap16(v));
        }
        forall k | 0 <= k < 8
          ensures Encode(combined[k], 2, cpuBig) == Encode(Quantize(audioBuffer[n + k], 2), 2, big) {
          QuantizeBySaturating(xs[n + k]);
          StoreSwapped(Quantize(xs[n + k], 2), cpuBig);
        }
        StoreLanes(n, dst, combined, big, cpuBig);
        n := n + 8;
        dst := dst + 16;
      }
      assert audioBuffer[..numOfSamples] == audioBuffer[..];
    }

    /** Eight 16-bit samples at once. */
    method LoadLanes(src: nat, big: bool, cpuBig: bool) returns (floats: seq<real>)
      requires Valid() && bps == 2 && src + 16 <= rawBuffer.Length
      ensures |floats| == 8
      ensures forall k :: 0 <= k < 8 ==> Sounds(rawBuffer[..], src + Offset(k, 2), floats[k], 2, big)
    {
      hide Decode, Normalize, Offset, Span, MaxVal, MinVal, Step, CaptureMask, Swap16, Unscale;
      var vec := seq(8,
        k requires 0 <= k < 8 && src + 2 * k + 2 <= rawBuffer.Length reads rawBuffer => Load16(src + 2 * k, cpuBig));
      if big != cpuBig {
        vec := Each(vec, v => Swap16(v));
      }
      floats := Each(vec, v => Unscale(v as real, 2));
      ghost var raw := rawBuffer[..];
      forall k | 0 <= k < 8 ensures Sounds(raw, src + Offset(k, 2), floats[k], 2, big) {
        OffsetIs(k);
        var q := src + 2 * k;
        assert rawBuffer[q..q + 2] == raw[q..q + 2];
        LoadSwapped(raw[q..q + 2], cpuBig);
        assert vec[k] == Decode(raw[q..q + 2], big);
        assert floats[k] == Normalize(vec[k], 2) by { NormalizeIsUnscale(vec[k], 2); }
      }
    }

    /** The 16-bit branch of the vector fromRawToFloat. */
    method FromRawToFloat16Lanes(big: bool, cpuBig: bool)
      requires Valid() && bps == 2 && numOfSamples % 8 == 0
      modifies audioBuffer
      ensures audioBuffer[..] == FloatsOf(rawBuffer[..], 2, big)
    {
      hide FloatsOf, Decode, Normalize, Offset, Span, MaxVal, MinVal, Step, CaptureMask, Swap16;
      var n, src := 0, 0;
      NothingYet(2, big);
      ghost var raw := rawBuffer[..];
      assert raw[..0] == [] && audioBuffer[..0] == [];
      while n < numOfSamples
        invariant n <= numOfSamples && n % 8 == 0
        invariant src == Offset(n, 2) <= rawBuffer.Length
        invariant audioBuffer[..n] == FloatsOf(raw[..src], 2, big)
      {
        OffsetAdd(n, 8, numOfSamples, 2);
        var floats := LoadLanes(src, big, cpuBig);
        ghost var before := audioBuffer[..n];
        assert before == FloatsOf(raw[..src], 2, big);
        StoreFloats(n, floats);
        ReadLanes(raw, n, src, before, floats, 2, big);
        n := n + 8;
        src := src + 16;
      }
      assert audioBuffer[..numOfSamples] == audioBuffer[..] && raw[..src] == raw;
    }
  }

  lemma NormalizeIsUnscale(v: int, w: width)
    ensures Normalize(v, w) == Unscale(v as real, w)
  {
  }

  lemma OffsetIs(k: nat)
    ensures Offset(k, 2) == 2 * k
  {
  }

  /** A vector operation. */
  function Each<A, B>(v: seq<A>, f: A -> B): (r: seq<B>)
    ensures |r| == |v| && forall k :: 0 <= k < |v| ==> r[k] == f(v[k])
  {
    seq(|v|, k requires 0 <= k < |v| => f(v[k]))
  }

  lemma OffsetAdd(n: nat, k: nat, size: nat, w: nat)
    requires n + k <= size
    ensures Offset(n, w) + k * w == Offset(n, w) + Offset(k, w) == Offset(n + k, w) <= Offset(size, w)
  {
    assert (n + k) * w + (size - n - k) * w == size * w;
  }

  lemma SignExtendedLane(bytes: seq<byte>, w: width, big: bool)
    requires |bytes| == w
    ensures var res := Wrap32(Number(Ordered(bytes, big)[..w]));
      Wrap32(Or(Unsigned(res), if Unsigned(res) > MaxVal(w) then CaptureMask(w) else 0)) == Decode(bytes, big)
  {
    hide Span, Ordered, Number, MaxVal, CaptureMask, Or, Signed, Digits;
    assert Ordered(bytes, big)[..w] == Ordered(bytes, big);
    DigitsOfNumber(Ordered(bytes, big), false);
    SignExtension(Number(Ordered(bytes, big)), w);
    OrNothing(Unsigned(Wrap32(Number(Ordered(bytes, big)))));
  }

  lemma OrNothing(x: nat)
    ensures Or(x, 0) == x
  {
    if x > 0 { OrNothing(x / 2); }
  }

  lemma QuantizeByClamp(x: real, w: width)
    ensures Trunc(Clamp(Scale(x, w), MinVal(w) as real, MaxVal(w) as real)) == Quantize(x, w)
  {
    ClampThenTruncate(Scale(x, w), w);
  }

  lemma QuantizeBySaturating(x: real)
    ensures Saturate(Saturate(Trunc(Scale(x, 2)), -0x8000_0000, 0x7fff_ffff), -0x8000, 0x7fff) == Quantize(x, 2)
  {
    TruncateThenSaturate(Scale(x, 2));
  }

  lemma CombinedAll(raw: seq<byte>, p: nat, values: seq<int>, w: width, big: bool)
    requires Combined(raw, p, values, w, big, w)
    ensures forall k :: 0 <= k < 4 ==> CombinedOne(raw, p + Offset(k, w), values[k], w, big, w)
  {
    hide CombinedOne;
    assert Offset(0, w) == 0 && Offset(1, w) == w && Offset(2, w) == 2 * w && Offset(3, w) == 3 * w;
  }

  // ----- four lanes

  predicate LanesSoFar(raw: seq<byte>, p: nat, values: seq<int>, w: width, big: bool, i: nat)
    requires |values| == 4 && i <= w
  {
    && SplitSoFar(raw, p, values[0], w, big, i) && SplitSoFar(raw, p + w, values[1], w, big, i)
    && SplitSoFar(raw, p + 2 * w, values[2], w, big, i) && SplitSoFar(raw, p + 3 * w, values[3], w, big, i)
  }

  lemma LanesBegin(raw: seq<byte>, p: nat, values: seq<int>, w: width, big: bool)
    requires |values| == 4 && p + 4 * w <= |raw|
    ensures LanesSoFar(raw, p, values, w, big, 0)
  {
  }

  lemma LanesStep(before: seq<byte>, after: seq<byte>, p: nat, values: seq<int>, w: width, big: bool, i: nat)
    requires |values| == 4 && i < w && LanesSoFar(before, p, values, w, big, i) && p + 4 * w <= |before|
    requires var first := p + Place(w, big, i);
      after == before[first := values[0] / Span(i) % 256][first + 1 * w := values[1] / Span(i) % 256]
        [first + 2 * w := values[2] / Span(i) % 256][first + 3 * w := values[3] / Span(i) % 256]
    ensures LanesSoFar(after, p, values, w, big, i + 1) && after[..p] == before[..p]
  {
    hide Encode, Span, Place, SplitSoFar;
    var first := p + Place(w, big, i);
    SplitOne(before, after, p, values[0], w, big, i);
    SplitOne(before, after, p + w, values[1], w, big, i);
    SplitOne(before, after, p + 2 * w, values[2], w, big, i);
    SplitOne(before, after, p + 3 * w, values[3], w, big, i);
  }

  lemma LanesEnd(raw: seq<byte>, p: nat, values: seq<int>, w: width, big: bool)
    requires |values| == 4 && LanesSoFar(raw, p, values, w, big, w)
    ensures forall k :: 0 <= k < 4 ==> Holds(raw, p + Offset(k, w), Encode(values[k], w, big))
  {
    hide Encode, SplitSoFar, Holds;
    SplitAll(raw, p, values[0], w, big);
    SplitAll(raw, p + w, values[1], w, big);
    SplitAll(raw, p + 2 * w, values[2], w, big);
    SplitAll(raw, p + 3 * w, values[3], w, big);
    assert Offset(0, w) == 0 && Offset(1, w) == w && Offset(2, w) == 2 * w && Offset(3, w) == 3 * w;
  }

  /** The sum of the first i bytes of the sample at p. */
  predicate CombinedOne(raw: seq<byte>, p: nat, value: int, w: width, big: bool, i: nat)
    requires i <= w
  {
    p + w <= |raw| && value == Wrap32(Number(Ordered(raw[p..p + w], big)[..i]))
  }

  predicate Combined(raw: seq<byte>, p: nat, values: seq<int>, w: width, big: bool, i: nat)
    requires i <= w
  {
    && |values| == 4
    && CombinedOne(raw, p, values[0], w, big, i) && CombinedOne(raw, p + w, values[1], w, big, i)
    && CombinedOne(raw, p + 2 * w, values[2], w, big, i) && CombinedOne(raw, p + 3 * w, values[3], w, big, i)
  }

  lemma CombinedBegin(raw: seq<byte>, p: nat, w: width, big: bool)
    requires p + 4 * w <= |raw|
    ensures Combined(raw, p, [0, 0, 0, 0], w, big, 0)
  {
  }

  lemma CombinedNext(raw: seq<byte>, p: nat, value: int, w: width, big: bool, i: nat)
    requires i < w && CombinedOne(raw, p, value, w, big, i)
    ensures CombinedOne(raw, p, Wrap32(value + Wrap32(raw[p + Place(w, big, i)] * Span(i))), w, big, i + 1)
  {
    hide Span, Number, Wrap32, Ordered;
    var digits := Ordered(raw[p..p + w], big);
    var b := raw[p + Place(w, big, i)];
    DigitIn(raw[p..p + w], big, i);
    assert digits[..i + 1] == digits[..i] + [b];
    NumberSnoc(digits[..i], b);
    WrapAdd(Number(digits[..i]), b * Span(i));
  }

  lemma CombinedStep(raw: seq<byte>, p: nat, before: seq<int>, after: seq<int>, w: width, big: bool, i: nat)
    requires i < w && Combined(raw, p, before, w, big, i) && |after| == 4
    requires var first := p + Place(w, big, i);
      && after[0] == Wrap32(before[0] + Wrap32(raw[first] * Span(i)))
      && after[1] == Wrap32(before[1] + Wrap32(raw[first + 1 * w] * Span(i)))
      && after[2] == Wrap32(before[2] + Wrap32(raw[first + 2 * w] * Span(i)))
      && after[3] == Wrap32(before[3] + Wrap32(raw[first + 3 * w] * Span(i)))
    ensures Combined(raw, p, after, w, big, i + 1)
  {
    hide Span, Wrap32, CombinedOne, Place;
    CombinedNext(raw, p, before[0], w, big, i);
    CombinedNext(raw, p + w, before[1], w, big, i);
    CombinedNext(raw, p + 2 * w, before[2], w, big, i);
    CombinedNext(raw, p + 3 * w, before[3], w, big, i);
  }

  /** The first i bytes of a sample are in place. */
  predicate SplitSoFar(raw: seq<byte>, p: nat, value: int, w: width, big: bool, i: nat)
    requires i <= w
  {
    p + w <= |raw| && forall j :: 0 <= j < i ==> raw[p + Place(w, big, j)] == Encode(value, w, big)[Place(w, big, j)]
  }

  lemma PlaceIs(w: width, big: bool, i: nat)
    requires i < w
    ensures Place(w, big, i) == if big then w - 1 - i else i
  {
  }

  lemma SplitOne(before: seq<byte>, after: seq<byte>, p: nat, value: int, w: width, big: bool, i: nat)
    requires i < w && SplitSoFar(before, p, value, w, big, i) && |after| == |before|
    requires forall x :: p <= x < p + w && x != p + Place(w, big, i) ==> after[x] == before[x]
    requires after[p + Place(w, big, i)] == value / Span(i) % 256
    ensures SplitSoFar(after, p, value, w, big, i + 1)
  {
    hide Encode, Span;
    EncodeAt(value, w, big, i);
  }

  lemma SplitAll(raw: seq<byte>, p: nat, value: int, w: width, big: bool)
    requires SplitSoFar(raw, p, value, w, big, w)
    ensures Holds(raw, p, Encode(value, w, big))
  {
    hide Encode;
    forall x | 0 <= x < w ensures raw[p + x] == Encode(value, w, big)[x] {
      var j := Place(w, big, x);
      assert x == Place(w, big, j);
    }
  }

  /** The constants of the 16-bit branch are the limits of the format. */
  lemma ClampThenTruncate16(scaled: real)
    ensures Trunc(Clamp(scaled, -32768.0, 32767.0)) == Convert(scaled, 2)
  {
    hide Trunc;
    ClampThenTruncate(scaled, 2);
  }

  lemma NothingYet(w: width, big: bool)
    ensures RawOf([], w, big) == [] && FloatsOf([], w, big) == [] && Offset(0, w) == 0
  {
  }

  lemma ScaleIs(m: int, x: real, w: width)
    requires m == MaxVal(w)
    ensures m as real * x == Scale(x, w)
  {
  }

  lemma NormalizeIs(v: int, w: width)
    ensures v as real * Step(w) == Normalize(v, w)
  {
  }

  lemma WrapAdd(a: int, b: int)
    ensures Wrap32(Wrap32(a) + Wrap32(b)) == Wrap32(a + b)
  {
  }

  lemma CombinedNone(raw: seq<byte>, p: nat, w: width, big: bool)
    requires p + w <= |raw|
    ensures CombinedOne(raw, p, 0, w, big, 0)
  {
  }

  lemma FullScaleIs(w: width)
    ensures var top := Pow2(w * 8 - 1) - 1;
      top == MaxVal(w) && -(top + 1) == MinVal(w) && 0 < top && 1.0 / top as real == Step(w)
  {
    SpanIsPow2(w);
    assert Pow2(8 * w) == 2 * Pow2(8 * w - 1);
  }

  /** The numbers of samples and of raw bytes. */
  method Sizes(format: PcmFormat, voices: nat, channels: nat, periodSize: nat, occupied: width, neon: bool)
      returns (samples: nat, frameBytes: nat)
    requires voices == if channels <= 0 then 1 else channels
    ensures samples >= channels * periodSize
    ensures neon ==> samples % 4 == 0 && (format.S16_LE? || format.S16_BE? ==> samples % 8 == 0)
    ensures frameBytes == Offset(samples, occupied) <==> neon || 0 < channels || periodSize == 0
  {
    samples := voices * periodSize;
    frameBytes := channels * periodSize * occupied;
    if neon {
      samples := Rounded(format, samples);
      frameBytes := samples * occupied;
    }
  }

  /** The bits beyond those of the format. */
  method MaskAbove(w: width) returns (mask: nat)
    ensures mask == CaptureMask(w)
  {
    hide Or, Pow2;
    SpanIsPow2(w);
    SpanIsPow2(4);
    mask := 0;
    for i := w * 8 to 32
      invariant mask == Pow2(i) - Pow2(w * 8)
    {
      OrAdds(mask, 1, i);
      Pow2Next(i);
      mask := Or(mask, Pow2(i));
    }
  }

  lemma Pow2Next(i: nat)
    ensures Pow2(i + 1) == 2 * Pow2(i)
  {
  }
}
