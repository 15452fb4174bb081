/** oscpkt.hh: packets of nested bundles, written with back-patched sizes and read back. */
module OscPacket {
  import opened Basics
  import opened OscMessage

  const HASH: byte := 35
  /** "#bundle" and its NUL. */
  const BUNDLE_MARKER: Bytes := [35, 98, 117, 110, 100, 108, 101, 0]

  // ----- the reader

  datatype Parsed = Parsed(messages: seq<Msg>, err: ErrorCode)

  /** PacketReader.parse on the bytes of one element. */
  function Parse(s: Bytes, timeTag: uint64): Parsed
    requires Aligned(|s|)
    decreases |s|, 1
  {
    if |s| == 0 then Parsed([], OK_NO_ERROR)
    else if s[0] == HASH then
      if |s| >= 20 && s[..8] == BUNDLE_MARKER then
        AlignedRest(|s|, 16);
        ParseElements(s[16..], Get64(s[8..16]))
      else Parsed([], INVALID_BUNDLE)
    else
      var m := Build(s, timeTag);
      Parsed([m], m.err)
  }

  /** The sized elements of a bundle. */
  function ParseElements(s: Bytes, timeTag: uint64): Parsed
    requires Aligned(|s|) && 0 < |s|
    decreases |s|, 0
  {
    var size: int := Get32(s[..4]);
    if !Aligned(size) || 4 + size > |s| then Parsed([], INVALID_BUNDLE)
    else
      AlignedRest(|s|, 4);
      AlignedRest(|s| - 4, size);
      var first := Parse(s[4..4 + size], timeTag);
      if !first.err.OK_NO_ERROR? || 4 + size == |s| then first
      else After(first.messages, ParseElements(s[4 + size..], timeTag))
  }

  /** Messages already found, then those of the rest. */
  function After(found: seq<Msg>, rest: Parsed): Parsed {
    Parsed(found + rest.messages, rest.err)
  }

  lemma AlignedRest(n: nat, m: nat)
    requires Aligned(n) && Aligned(m) && m <= n
    ensures Aligned(n - m)
  {
  }

  class PacketReader {
    var messages: seq<Msg>
    var err: ErrorCode

    constructor ()
      ensures messages == [] && err == OK_NO_ERROR
    {
      messages, err := [], OK_NO_ERROR;
    }

    method SetErr(code: ErrorCode)
      modifies this`err
      ensures err == if old(err).OK_NO_ERROR? then code else old(err)
    {
      if err.OK_NO_ERROR? { err := code; }
    }

    /** Any bytes: a packet whose size is a multiple of four is parsed, any other is refused. */
    method Init(packet: Bytes)
      modifies this
      ensures Aligned(|packet|) ==> Parsed(messages, err) == Parse(packet, IMMEDIATE)
      ensures !Aligned(|packet|) ==> messages == [] && err == INVALID_PACKET_SIZE
    {
      err, messages := OK_NO_ERROR, [];
      if |packet| % 4 == 0 {
        assert packet[0..|packet|] == packet;
        ParseRange(packet, 0, |packet|, IMMEDIATE);
      } else {
        SetErr(INVALID_PACKET_SIZE);
      }
    }

    /** parse(beg, end): pointers into the packet are positions. */
    method ParseRange(packet: Bytes, beg: nat, end: nat, timeTag: uint64)
      requires beg <= end <= |packet| && Aligned(end - beg) && err.OK_NO_ERROR?
      modifies this
      ensures Parsed(messages, err) == After(old(messages), Parse(packet[beg..end], timeTag))
      decreases end - beg, 1
    {
      hide Build, ParseElements, Get64, Aligned;
      ghost var s := packet[beg..end];
      if beg == end {
        return;
      }
      assert packet[beg] == s[0];
      if packet[beg] == HASH {
        if end - beg >= 20 && packet[beg..beg + 8] == BUNDLE_MARKER {
          BundleHead(packet, beg, end);
          ParseBundle(packet, beg + 16, end, Get64(packet[beg + 8..beg + 16]));
        } else {
          assert end - beg >= 20 ==> packet[beg..beg + 8] == s[..8];
          SetErr(INVALID_BUNDLE);
        }
      } else {
        var m := new Message();
        m.BuildFromRawData(packet[beg..end], timeTag);
        messages := messages + [m.Value()];
        if !m.err.OK_NO_ERROR? { SetErr(m.err); }
      }
    }

    /** The do-while loop over the elements of a bundle. */
    method ParseBundle(packet: Bytes, beg: nat, end: nat, timeTag: uint64)
      requires beg < end <= |packet| && Aligned(end - beg) && err.OK_NO_ERROR?
      modifies this
      ensures Parsed(messages, err) == After(old(messages), ParseElements(packet[beg..end], timeTag))
      decreases end - beg, 0
    {
      hide Parse, ParseElements, Get32;
      var pos := beg;
      while true
        invariant beg <= pos < end && Aligned(end - pos) && err.OK_NO_ERROR?
        invariant After(old(messages), ParseElements(packet[beg..end], timeTag))
          == After(messages, ParseElements(packet[pos..end], timeTag))
        decreases end - pos
      {
        ghost var s, before := packet[pos..end], messages;
        ElementsStep(s, timeTag);
        assert s[..4] == packet[pos..pos + 4];
        var size: int := Get32(packet[pos..pos + 4]);
        pos := pos + 4;
        if size % 4 != 0 || pos + size > end {
          SetErr(INVALID_BUNDLE);
        } else {
          SubSlice(packet, pos - 4, end, 4, 4 + size);
          SubSlice(packet, pos - 4, end, 4 + size, |s|);
          ParseRange(packet, pos, pos + size, timeTag);
          pos := pos + size;
        }
        if !err.OK_NO_ERROR? || pos == end { return; }
        AfterAgain(before, Parse(s[4..4 + size], timeTag).messages, ParseElements(packet[pos..end], timeTag));
      }
    }
  }

  lemma ElementsStep(s: Bytes, timeTag: uint64)
    requires Aligned(|s|) && 0 < |s|
    ensures 4 <= |s|
    ensures var size: int := Get32(s[..4]);
      && (!Aligned(size) || 4 + size > |s| ==> ParseElements(s, timeTag) == Parsed([], INVALID_BUNDLE))
      && (Aligned(size) && 4 + size <= |s| ==>
            && Aligned(|s| - 4 - size)
            && var first := Parse(s[4..4 + size], timeTag);
              ParseElements(s, timeTag) ==
                if !first.err.OK_NO_ERROR? || 4 + size == |s| then first
                else After(first.messages, ParseElements(s[4 + size..], timeTag)))
  {
  }

  lemma AfterAgain(a: seq<Msg>, b: seq<Msg>, rest: Parsed)
    ensures After(a, After(b, rest)) == After(a + b, rest)
  {
    assert a + (b + rest.messages) == (a + b) + rest.messages;
  }

  lemma BundleHead(packet: Bytes, beg: nat, end: nat)
    requires beg + 20 <= end <= |packet| && Aligned(end - beg)
    ensures var s := packet[beg..end];
      && s[..8] == packet[beg..beg + 8] && s[8..16] == packet[beg + 8..beg + 16] && s[16..] == packet[beg + 16..end]
      && Aligned(end - (beg + 16))
  {
    SubSlice(packet, beg, end, 0, 8);
    SubSlice(packet, beg, end, 8, 16);
    SubSlice(packet, beg, end, 16, end - beg);
  }

  lemma SubSlice(s: Bytes, beg: nat, end: nat, a: nat, b: nat)
    requires beg <= end <= |s| && a <= b <= end - beg
    ensures s[beg..end][a..b] == s[beg + a..beg + b]
  {
    var t := s[beg..end][a..b];
    assert |t| == b - a;
    assert forall i :: 0 <= i < b - a ==> t[i] == s[beg + a + i];
  }

  // ----- the writer

  datatype Writing = Writing(bundles: seq<nat>, storage: Bytes, err: ErrorCode)

  /** Positions of open bundles: room for the marker and time tag after each, and for a size
      before each but the first. */
  ghost predicate Nested(w: Writing) {
    forall i :: 0 <= i < |w.bundles| ==> w.bundles[i] + 16 <= |w.storage| && (0 < i ==> 4 <= w.bundles[i])
  }

  function Failed(err: ErrorCode, code: ErrorCode): ErrorCode {
    if err.OK_NO_ERROR? then code else err
  }

  function Patched(s: Bytes, p: nat, b: Bytes): (r: Bytes)
    requires p + |b| <= |s|
    ensures |r| == |s|
  {
    s[..p] + b + s[p + |b|..]
  }

  function Opened(w: Writing, timeTag: uint64): Writing {
    var s := if |w.bundles| > 0 then w.storage + Zeros(4) else w.storage;
    Writing(w.bundles + [|s|], s + BUNDLE_MARKER + Put64(timeTag), w.err)
  }

  function Ended(w: Writing): Writing
    requires Nested(w)
  {
    if |w.bundles| == 0 then w.(err := Failed(w.err, INVALID_BUNDLE))
    else
      var n := |w.bundles| - 1;
      var last := w.bundles[n];
      assert last + 16 <= |w.storage| && (0 < n ==> 4 <= last);
      var s := if |w.storage| - last == 16 then w.storage + Put32(0) else w.storage;
      Writing(w.bundles[..n], if n > 0 then Patched(s, last - 4, Put32((|s| - last) % TWO32)) else s, w.err)
  }

  function Added(w: Writing, m: Msg): Writing {
    var refused := |w.storage| != 0 && |w.bundles| == 0;
    var err := if refused then Failed(w.err, BUNDLE_REQUIRED_FOR_MULTI_MESSAGES) else w.err;
    Writing(w.bundles,
      if refused then w.storage else w.storage + Packed(m, |w.bundles| > 0),
      if m.err.OK_NO_ERROR? then err else Failed(err, m.err))
  }

  class PacketWriter {
    var bundles: seq<nat>
    var storage: Bytes
    var err: ErrorCode

    function State(): Writing
      reads this
    {
      Writing(bundles, storage, err)
    }

    constructor ()
      ensures State() == Writing([], [], OK_NO_ERROR)
    {
      bundles, storage, err := [], [], OK_NO_ERROR;
    }

    method SetErr(code: ErrorCode)
      modifies this`err
      ensures err == Failed(old(err), code)
    {
      if err.OK_NO_ERROR? { err := code; }
    }

    method StartBundle(timeTag: uint64)
      requires Nested(State())
      modifies this
      ensures State() == Opened(old(State()), timeTag) && Nested(State())
    {
      if |bundles| > 0 { storage := storage + Zeros(4); }
      var p := |storage|;
      storage := storage + BUNDLE_MARKER;
      bundles := bundles + [p];
      storage := storage + Put64(timeTag);
    }

    method EndBundle()
      requires Nested(State())
      modifies this
      ensures State() == Ended(old(State())) && Nested(State())
    {
      hide Patched, Put32;
      if |bundles| > 0 {
        var n := |bundles| - 1;
        var last := bundles[n];
        if |storage| - last == 16 { storage := storage + Put32(0); }
        if n > 0 { storage := Patched(storage, last - 4, Put32((|storage| - last) % TWO32)); }
        bundles := bundles[..n];
      } else {
        SetErr(INVALID_BUNDLE);
      }
    }

    method AddMessage(m: Message)
      requires Nested(State())
      modifies this
      ensures State() == Added(old(State()), m.Value()) && Nested(State())
    {
      if |storage| != 0 && |bundles| == 0 {
        SetErr(BUNDLE_REQUIRED_FOR_MULTI_MESSAGES);
      } else {
        storage := m.PackMessage(storage, |bundles| > 0);
      }
      if !m.err.OK_NO_ERROR? { SetErr(m.err); }
    }

    method PacketData() returns (packet: Bytes)
      ensures packet == if err.OK_NO_ERROR? then storage else []
    {
      packet := if err.OK_NO_ERROR? then storage else [];
    }
  }
}
