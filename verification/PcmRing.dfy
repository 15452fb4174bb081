/** tinyalsa's pcm.c: the memory-mapped ring between the program and the sound card, in frames. */
module PcmRing {
  import opened Basics
  import opened Rings

  const INT_MAX := 0x7fff_ffff

  // ----- slots

  /** Whole laps do not move the slot. */
  lemma LapsKeepSlot(laps: nat, factor: nat, k: nat, p: nat)
    requires 0 < k
    ensures Slot(laps * (k * factor) + p, k) == Slot(p, k)
  {
    var q := laps * factor + p / k;
    assert laps * (k * factor) == laps * factor * k;
    assert q * k == laps * factor * k + p / k * k;
    SlotUnique(q, p % k, k);
  }

  /** Up to the end of the ring, slots follow each other, and then begin again. */
  lemma SlotsFollow(n: nat, j: nat, k: nat)
    requires 0 < k && Slot(n, k) + j <= k
    ensures Slot(n + j, k) == if Slot(n, k) + j < k then Slot(n, k) + j else 0
  {
    if n % k + j < k {
      SlotUnique(n / k, n % k + j, k);
    } else {
      assert n + j == (n / k + 1) * k + 0;
      SlotUnique(n / k + 1, 0, k);
    }
  }

  /** The next frames do not lie on one that is still waiting. */
  lemma NotOverwritten(i: nat, n: nat, length: nat, k: nat)
    requires 0 < k && i < n && n + length <= i + k && Slot(n, k) + length <= k
    ensures Slot(i, k) < Slot(n, k) || Slot(n, k) + length <= Slot(i, k)
  {
    hide Slot;
    if Slot(n, k) <= Slot(i, k) < Slot(n, k) + length {
      var j := Slot(i, k) - Slot(n, k);
      SlotsFollow(n, j, k);
      SlotsDiffer(i, n + j, k);
    }
  }

  // ----- the pointers

  /** pcm_mmap_playback_avail and pcm_mmap_capture_avail. */
  function PlaybackAvail(hw: nat, appl: nat, size: nat, boundary: nat): int {
    var avail := Wrap32(hw + size - appl);
    if avail < 0 then avail + boundary else if avail > boundary then avail - boundary else avail
  }

  function CaptureAvail(hw: nat, appl: nat, boundary: nat): int {
    var avail := Wrap32(hw - appl);
    if avail < 0 then avail + boundary else avail
  }

  /** Frames counted from the start, for a pointer that has gone round `laps` times. */
  function Frames(laps: nat, ptr: nat, boundary: nat): nat { laps * boundary + ptr }

  /** What the pointers may be. */
  predicate Pointers(hw: nat, appl: nat, size: nat, boundary: nat) {
    && 0 < size < boundary && boundary + size <= INT_MAX && hw < boundary && appl <= boundary
  }

  /** Less than a lap apart, the pointers tell the distance up to one boundary. */
  lemma Distance(hl: nat, hw: nat, al: nat, appl: nat, size: nat, boundary: nat)
    requires Pointers(hw, appl, size, boundary)
    requires Frames(al, appl, boundary) <= Frames(hl, hw, boundary) + size
      && Frames(hl, hw, boundary) <= Frames(al, appl, boundary) + size
    ensures var d: int := Frames(al, appl, boundary) - Frames(hl, hw, boundary);
      d == appl - hw || d == appl - hw + boundary || d == appl - hw - boundary
  {
    var d: int := Frames(al, appl, boundary) - Frames(hl, hw, boundary);
    assert (al - hl) * boundary == al * boundary - hl * boundary;
    SmallMultiple(al - hl, boundary);
  }

  /** The playback space is right exactly when the ring is not full with the program's pointer
      already past the boundary and the card's not; it then reads as a whole boundary. */
  lemma PlaybackAvailIsRoom(hl: nat, hw: nat, al: nat, appl: nat, size: nat, boundary: nat)
    requires Pointers(hw, appl, size, boundary)
    requires Frames(hl, hw, boundary) <= Frames(al, appl, boundary) <= Frames(hl, hw, boundary) + size
    ensures var room := Frames(hl, hw, boundary) + size - Frames(al, appl, boundary);
      var r := PlaybackAvail(hw, appl, size, boundary);
      && (r == room <==> hw + size != appl + boundary)
      && (r != room ==> room == 0 && r == boundary)
  {
    hide Frames;
    Distance(hl, hw, al, appl, size, boundary);
  }

  lemma CaptureAvailIsReady(hl: nat, hw: nat, al: nat, appl: nat, size: nat, boundary: nat)
    requires Pointers(hw, appl, size, boundary)
    requires Frames(al, appl, boundary) <= Frames(hl, hw, boundary) <= Frames(al, appl, boundary) + size
    ensures CaptureAvail(hw, appl, boundary) == Frames(hl, hw, boundary) - Frames(al, appl, boundary)
  {
    hide Frames;
    Distance(hl, hw, al, appl, size, boundary);
  }

  /** A full ring does get there: the card has played one lap less than the program has written. */
  lemma FullRingCanReadAsEmpty(size: nat, boundary: nat)
    requires 2 <= size < boundary && boundary + size <= INT_MAX
    ensures var hw, appl := boundary + 1 - size, 1;
      && Frames(1, appl, boundary) - Frames(0, hw, boundary) == size
      && PlaybackAvail(hw, appl, size, boundary) == boundary
  {
    assert Frames(1, 1, boundary) == boundary + 1 && Frames(0, boundary + 1 - size, boundary) == boundary + 1 - size;
  }

  /** The boundary pcm_open computes: the ring times the largest power of two that fits. */
  method Boundary(size: nat) returns (boundary: nat, ghost exponent: nat)
    requires 0 < size <= INT_MAX
    ensures boundary == size * Pow2(exponent)
    ensures 2 * boundary > INT_MAX - size
    ensures boundary + size <= INT_MAX <==> 2 * size <= INT_MAX
    ensures size < boundary <==> 3 * size <= INT_MAX
  {
    boundary, exponent := size, 0;
    while boundary * 2 <= INT_MAX - size
      invariant boundary == size * Pow2(exponent)
      invariant size <= boundary && (boundary > size ==> boundary + size <= INT_MAX && 2 * size <= boundary)
      decreases INT_MAX - boundary
    {
      assert size * Pow2(exponent + 1) == 2 * (size * Pow2(exponent));
      boundary, exponent := boundary * 2, exponent + 1;
    }
  }

  // ----- the frames in the ring

  /** The ring holds frames `from` to `to` of the stream. */
  predicate Holds<T(==)>(ring: seq<T>, stream: seq<T>, from: nat, to: nat) {
    && 0 < |ring| && from <= to <= |stream|
    && forall i :: from <= i < to ==> ring[Slot(i, |ring|)] == stream[i]
  }

  /** Copying over a contiguous free piece appends to the stream. */
  lemma Appended<T>(ring: seq<T>, after: seq<T>, stream: seq<T>, piece: seq<T>, from: nat)
    requires Holds(ring, stream, from, |stream|) && |stream| + |piece| <= from + |ring|
    requires var at := Slot(|stream|, |ring|);
      at + |piece| <= |ring| && after == ring[..at] + piece + ring[at + |piece|..]
    ensures Holds(after, stream + piece, from, |stream| + |piece|)
  {
    hide Slot;
    var k, n := |ring|, |stream|;
    forall i | from <= i < n + |piece| ensures after[Slot(i, k)] == (stream + piece)[i] {
      if i < n {
        NotOverwritten(i, n, |piece|, k);
      } else {
        SlotsFollow(n, i - n, k);
      }
    }
  }

  /** A contiguous piece of the ring is a piece of the stream. */
  lemma PieceOfStream<T>(ring: seq<T>, stream: seq<T>, from: nat, to: nat, n: nat)
    requires Holds(ring, stream, from, to) && from + n <= to && Slot(from, |ring|) + n <= |ring|
    ensures ring[Slot(from, |ring|)..Slot(from, |ring|) + n] == stream[from..from + n]
  {
    hide Slot;
    var at := Slot(from, |ring|);
    forall x | at <= x < at + n ensures ring[x] == stream[from + (x - at)] {
      SlotsFollow(from, x - at, |ring|);
    }
  }

  /** What has been played is not needed any more. */
  lemma Shrunk<T>(ring: seq<T>, stream: seq<T>, from: nat, later: nat)
    requires Holds(ring, stream, from, |stream|) && from <= later <= |stream|
    ensures Holds(ring, stream, later, |stream|)
  {
  }

  class Pcm<T(==)> {
    const mmap_buffer: array<T>
    const boundary: nat
    ghost const exponent: nat
    /** PCM_IN. */
    const capture: bool
    var hw_ptr: nat
    var appl_ptr: nat
    /** How often each pointer has wrapped; no code of the program looks at this. */
    var hwLaps: nat
    var applLaps: nat
    /** Every frame so far: written by the program, or recorded by the card. */
    ghost var stream: seq<T>

    function HwFrames(): nat
      reads this
    {
      Frames(hwLaps, hw_ptr, boundary)
    }

    function ApplFrames(): nat
      reads this
    {
      Frames(applLaps, appl_ptr, boundary)
    }

    /** Frames the program may transfer. */
    function Room(): int
      reads this
    {
      if capture then HwFrames() - ApplFrames() else HwFrames() + mmap_buffer.Length - ApplFrames()
    }

    ghost predicate Valid()
      reads this, mmap_buffer
    {
      && Pointers(hw_ptr, appl_ptr, mmap_buffer.Length, boundary)
      && boundary == mmap_buffer.Length * Pow2(exponent)
      && 0 <= Room() <= mmap_buffer.Length
      && |stream| == (if capture then HwFrames() else ApplFrames())
      && (if capture then Holds(mmap_buffer[..], stream, ApplFrames(), HwFrames())
        else Holds(mmap_buffer[..], stream, HwFrames(), ApplFrames()))
    }

    constructor (mmap_buffer: array<T>, capture: bool)
      requires 0 < mmap_buffer.Length && 3 * mmap_buffer.Length <= INT_MAX
      ensures this.mmap_buffer == mmap_buffer && this.capture == capture
      ensures Valid() && stream == [] && ApplFrames() == 0
    {
      var b, e := Boundary(mmap_buffer.Length);
      this.mmap_buffer, this.capture, boundary, exponent := mmap_buffer, capture, b, e;
      hw_ptr, appl_ptr, hwLaps, applLaps, stream := 0, 0, 0, 0, [];
    }

    /** pcm_sync_ptr, as far as the program can see: the card has gone on by as much as it likes. */
    method Sync()
      requires Valid()
      modifies this`hw_ptr, this`hwLaps, this`stream, mmap_buffer
      ensures Valid() && HwFrames() >= old(HwFrames()) && Room() >= old(Room())
      ensures if capture then old(stream) <= stream
        else stream == old(stream) && mmap_buffer[..] == old(mmap_buffer[..])
    {
      hide Frames, Pow2, Holds, Slot;
      if capture {
        var first: seq<T> :| |first| <= mmap_buffer.Length - Room()
          && Slot(HwFrames(), mmap_buffer.Length) + |first| <= mmap_buffer.Length;
        Record(first);
        var second: seq<T> :| |second| <= mmap_buffer.Length - Room()
          && Slot(HwFrames(), mmap_buffer.Length) + |second| <= mmap_buffer.Length;
        Record(second);
      } else {
        var played: nat :| played <= mmap_buffer.Length - Room();
        CardForward(played);
        Shrunk(mmap_buffer[..], stream, old(HwFrames()), HwFrames());
      }
    }

    /** The card records a contiguous piece. */
    method Record(piece: seq<T>)
      requires Valid() && capture && |piece| <= mmap_buffer.Length - Room()
      requires Slot(HwFrames(), mmap_buffer.Length) + |piece| <= mmap_buffer.Length
      modifies this`hw_ptr, this`hwLaps, this`stream, mmap_buffer
      ensures Valid() && HwFrames() == old(HwFrames()) + |piece| && stream == old(stream) + piece
    {
      hide Frames, Pow2, Holds, Slot;
      ghost var before := mmap_buffer[..];
      Store(Slot(HwFrames(), mmap_buffer.Length), piece);
      CardForward(|piece|);
      Appended(before, mmap_buffer[..], stream, piece, ApplFrames());
      stream := stream + piece;
    }

    /** The kernel's own pointer never stands at the boundary. */
    method CardForward(frames: nat)
      requires Pointers(hw_ptr, appl_ptr, mmap_buffer.Length, boundary) && frames <= mmap_buffer.Length
      modifies this`hw_ptr, this`hwLaps
      ensures Pointers(hw_ptr, appl_ptr, mmap_buffer.Length, boundary) && HwFrames() == old(HwFrames()) + frames
    {
      hw_ptr := hw_ptr + frames;
      if hw_ptr >= boundary {
        hw_ptr, hwLaps := hw_ptr - boundary, hwLaps + 1;
      }
    }

    /** memcpy into the ring. */
    method Store(at: nat, piece: seq<T>)
      requires at + |piece| <= mmap_buffer.Length
      modifies mmap_buffer
      ensures mmap_buffer[..] == old(mmap_buffer[..at]) + piece + old(mmap_buffer[at + |piece|..])
    {
      forall j | 0 <= j < |piece| {
        mmap_buffer[at + j] := piece[j];
      }
    }

    /** pcm_mmap_avail. */
    method Avail() returns (avail: int)
      requires Valid()
      modifies this`hw_ptr, this`hwLaps, this`stream, mmap_buffer
      ensures Valid() && HwFrames() >= old(HwFrames()) && Room() >= old(Room())
      ensures if capture then old(stream) <= stream
        else stream == old(stream) && mmap_buffer[..] == old(mmap_buffer[..])
      ensures avail == Room() <==> capture || hw_ptr + mmap_buffer.Length != appl_ptr + boundary
      ensures avail != Room() ==> Room() == 0 && avail == boundary
    {
      hide Frames, Pow2, Holds, Slot, PlaybackAvail, CaptureAvail;
      Sync();
      if capture {
        CaptureAvailIsReady(hwLaps, hw_ptr, applLaps, appl_ptr, mmap_buffer.Length, boundary);
        avail := CaptureAvail(hw_ptr, appl_ptr, boundary);
      } else {
        PlaybackAvailIsRoom(hwLaps, hw_ptr, applLaps, appl_ptr, mmap_buffer.Length, boundary);
        avail := PlaybackAvail(hw_ptr, appl_ptr, mmap_buffer.Length, boundary);
      }
    }

    /** pcm_mmap_begin: the next slot and how many of `wanted` frames lie behind it in one piece. */
    method Begin(wanted: nat) returns (offset: nat, frames: nat)
      requires Valid()
      modifies this`hw_ptr, this`hwLaps, this`stream, mmap_buffer
      ensures Valid() && HwFrames() >= old(HwFrames()) && Room() >= old(Room())
      ensures if capture then old(stream) <= stream
        else stream == old(stream) && mmap_buffer[..] == old(mmap_buffer[..])
      ensures offset == Slot(ApplFrames(), mmap_buffer.Length) && offset + frames <= mmap_buffer.Length
        && frames <= wanted
      ensures 0 < Room() ==>
        frames <= Room() && (frames == wanted || frames == Room() || offset + frames == mmap_buffer.Length)
    {
      hide Frames, Pow2, Holds, Slot;
      var size := mmap_buffer.Length;
      offset := appl_ptr % size;
      SlotOfPointer(applLaps, appl_ptr, size, exponent, boundary);
      var avail := Avail();
      if avail > size {
        avail := size;
      }
      var continuous := size - offset;
      frames := wanted;
      if frames > avail {
        frames := avail;
      }
      if frames > continuous {
        frames := continuous;
      }
    }

    /** pcm_areas_copy. */
    method AreasCopy(pcm_offset: nat, buf: array<T>, src_offset: nat, frames: nat)
      requires buf != mmap_buffer && pcm_offset + frames <= mmap_buffer.Length && src_offset + frames <= buf.Length
      modifies mmap_buffer, buf
      ensures capture ==> mmap_buffer[..] == old(mmap_buffer[..])
      ensures capture ==>
        buf[..] == old(buf[..src_offset]) + mmap_buffer[pcm_offset..pcm_offset + frames]
          + old(buf[src_offset + frames..])
      ensures !capture ==> buf[..] == old(buf[..])
      ensures !capture ==>
        mmap_buffer[..]
          == old(mmap_buffer[..pcm_offset]) + buf[src_offset..src_offset + frames]
            + old(mmap_buffer[pcm_offset + frames..])
    {
      if capture {
        forall j | 0 <= j < frames {
          buf[src_offset + j] := mmap_buffer[pcm_offset + j];
        }
      } else {
        forall j | 0 <= j < frames {
          mmap_buffer[pcm_offset + j] := buf[src_offset + j];
        }
      }
    }

    /** pcm_mmap_appl_forward. */
    method ApplForward(frames: nat)
      requires Pointers(hw_ptr, appl_ptr, mmap_buffer.Length, boundary) && frames <= mmap_buffer.Length
      modifies this`appl_ptr, this`applLaps
      ensures Pointers(hw_ptr, appl_ptr, mmap_buffer.Length, boundary) && ApplFrames() == old(ApplFrames()) + frames
    {
      appl_ptr := appl_ptr + frames;
      if appl_ptr > boundary {
        appl_ptr, applLaps := appl_ptr - boundary, applLaps + 1;
      }
    }

    /** One turn of pcm_mmap_transfer_areas: begin, copy, commit. */
    method TransferPiece(buf: array<T>, at: nat, left: nat) returns (frames: nat)
      requires Valid() && buf != mmap_buffer && at + left <= buf.Length && 0 < left <= Room()
      modifies this`hw_ptr, this`hwLaps, this`appl_ptr, this`applLaps, this`stream, mmap_buffer, buf
      ensures Valid() && 0 < frames <= left && Room() >= old(Room()) - frames
      ensures ApplFrames() == old(ApplFrames()) + frames && HwFrames() >= old(HwFrames())
      ensures frames < left ==>
        old(Slot(ApplFrames(), mmap_buffer.Length)) != 0 && Slot(ApplFrames(), mmap_buffer.Length) == 0
      ensures buf[..at] == old(buf[..at]) && buf[at + frames..] == old(buf[at + frames..])
      ensures capture ==> old(stream) <= stream && buf[at..at + frames] == stream[old(ApplFrames())..ApplFrames()]
      ensures !capture ==> stream == old(stream) + buf[at..at + frames] && buf[..] == old(buf[..])
    {
      hide Frames, Pow2, Holds, Slot;
      var offset, got := Begin(left);
      frames := got;
      SlotsFollow(ApplFrames(), frames, mmap_buffer.Length);
      CopyAndCommit(buf, at, offset, frames);
    }

    /** pcm_areas_copy and pcm_mmap_commit. */
    method CopyAndCommit(buf: array<T>, at: nat, offset: nat, frames: nat)
      requires Valid() && buf != mmap_buffer && at + frames <= buf.Length && frames <= Room()
      requires offset == Slot(ApplFrames(), mmap_buffer.Length) && offset + frames <= mmap_buffer.Length
      modifies this`appl_ptr, this`applLaps, this`stream, mmap_buffer, buf
      ensures Valid() && ApplFrames() == old(ApplFrames()) + frames && HwFrames() == old(HwFrames())
      ensures buf[..at] == old(buf[..at]) && buf[at + frames..] == old(buf[at + frames..])
      ensures capture ==> stream == old(stream) && buf[at..at + frames] == stream[old(ApplFrames())..ApplFrames()]
      ensures !capture ==> stream == old(stream) + buf[at..at + frames] && buf[..] == old(buf[..])
    {
      hide Frames, Pow2, Holds, Slot;
      if capture { TakePiece(buf, at, offset, frames); } else { PutPiece(buf, at, offset, frames); }
    }

    method PutPiece(buf: array<T>, at: nat, offset: nat, frames: nat)
      requires Valid() && buf != mmap_buffer && at + frames <= buf.Length && frames <= Room() && !capture
      requires offset == Slot(ApplFrames(), mmap_buffer.Length) && offset + frames <= mmap_buffer.Length
      modifies this`appl_ptr, this`applLaps, this`stream, mmap_buffer, buf
      ensures Valid() && ApplFrames() == old(ApplFrames()) + frames && HwFrames() == old(HwFrames())
      ensures stream == old(stream) + buf[at..at + frames] && buf[..] == old(buf[..])
    {
      hide Frames, Pow2, Holds, Slot;
      ghost var ring := mmap_buffer[..];
      AreasCopy(offset, buf, at, frames);
      ApplForward(frames);
      ghost var piece := buf[at..at + frames];
      Appended(ring, mmap_buffer[..], stream, piece, HwFrames());
      stream := stream + piece;
    }

    method TakePiece(buf: array<T>, at: nat, offset: nat, frames: nat)
      requires Valid() && buf != mmap_buffer && at + frames <= buf.Length && frames <= Room() && capture
      requires offset == Slot(ApplFrames(), mmap_buffer.Length) && offset + frames <= mmap_buffer.Length
      modifies this`appl_ptr, this`applLaps, mmap_buffer, buf
      ensures Valid() && ApplFrames() == old(ApplFrames()) + frames && HwFrames() == old(HwFrames())
      ensures buf[..at] == old(buf[..at]) && buf[at + frames..] == old(buf[at + frames..])
      ensures buf[at..at + frames] == stream[old(ApplFrames())..ApplFrames()]
    {
      hide Frames, Pow2, Holds, Slot;
      ghost var ring, first := mmap_buffer[..], ApplFrames();
      AreasCopy(offset, buf, at, frames);
      ApplForward(frames);
      PieceOfStream(ring, stream, first, HwFrames(), frames);
      Shrunk(ring, stream, first, ApplFrames());
      assert ring[offset..offset + frames] == mmap_buffer[offset..offset + frames];
    }

    lemma StreamIsLongEnough()
      requires Valid()
      ensures 0 < mmap_buffer.Length && ApplFrames() <= |stream|
    {
    }

    /** pcm_mmap_transfer_areas: every frame once, in order, in at most two contiguous pieces. */
    method TransferAreas(buf: array<T>, start: nat, size: nat) returns (count: nat, ghost pieces: nat)
      requires Valid() && buf != mmap_buffer && start + size <= buf.Length && size <= Room()
      modifies this`hw_ptr, this`hwLaps, this`appl_ptr, this`applLaps, this`stream, mmap_buffer, buf
      ensures Valid() && count == size && pieces <= 2
      ensures ApplFrames() == old(ApplFrames()) + size && HwFrames() >= old(HwFrames())
      ensures buf[..start] == old(buf[..start]) && buf[start + size..] == old(buf[start + size..])
      ensures capture ==> old(stream) <= stream && buf[start..start + size] == stream[old(ApplFrames())..ApplFrames()]
      ensures !capture ==> stream == old(stream) + buf[start..start + size] && buf[..] == old(buf[..])
    {
      hide Frames, Pow2, Holds, Slot, Pointers, Received, Played, Valid;
      var left := size;
      count, pieces := 0, 0;
      ghost var first, target, before := ApplFrames(), buf[..], stream;
      StreamIsLongEnough();
      ReceivedNone(target, start, stream, first);
      PlayedNone(target, start, stream);
      while left > 0
        invariant Valid() && 0 < mmap_buffer.Length && count <= size && left == size - count && left <= Room()
        invariant ApplFrames() == first + count && HwFrames() >= old(HwFrames())
        invariant pieces <= 2
          && (0 < left ==> pieces == 0 || (pieces == 1 && Slot(ApplFrames(), mmap_buffer.Length) == 0))
        invariant capture ==> before <= stream && Received(target, buf[..], start, count, stream, first)
        invariant !capture ==> Played(target, buf[..], start, count, before, stream)
      {
        ghost var got, had := buf[..], stream;
        var frames := TransferPiece(buf, start + count, left);
        StreamIsLongEnough();
        if capture {
          ReceivedMore(target, got, buf[..], start, count, frames, had, stream, first);
        } else {
          PlayedMore(target, got, buf[..], start, count, frames, before, had, stream);
        }
        count, left, pieces := count + frames, left - frames, pieces + 1;
      }
      if capture {
        ReceivedAll(target, buf[..], start, size, stream, first);
      } else {
        PlayedAll(target, buf[..], start, size, before, stream);
      }
    }
  }

  /** Frames of the program's buffer have joined the stream, and the buffer is as it was. */
  predicate Played<T(==)>(target: seq<T>, buf: seq<T>, start: nat, count: nat, before: seq<T>, stream: seq<T>) {
    buf == target && start + count <= |target| && stream == before + target[start..start + count]
  }

  lemma PlayedNone<T>(target: seq<T>, start: nat, stream: seq<T>)
    requires start <= |target|
    ensures Played(target, target, start, 0, stream, stream)
  {
  }

  lemma PlayedMore<T>(target: seq<T>, got: seq<T>, buf: seq<T>, start: nat, count: nat, frames: nat, before: seq<T>,
      had: seq<T>, stream: seq<T>)
    requires Played(target, got, start, count, before, had) && buf == got
    requires start + count + frames <= |buf| && stream == had + buf[start + count..start + count + frames]
    ensures Played(target, buf, start, count + frames, before, stream)
  {
    assert target[start..start + count + frames]
      == target[start..start + count] + target[start + count..start + count + frames];
  }

  lemma PlayedAll<T>(target: seq<T>, buf: seq<T>, start: nat, count: nat, before: seq<T>, stream: seq<T>)
    requires Played(target, buf, start, count, before, stream)
    ensures buf == target && start + count <= |target| && stream == before + target[start..start + count]
  {
  }

  lemma ReceivedNone<T>(target: seq<T>, start: nat, stream: seq<T>, first: nat)
    requires start <= |target| && first <= |stream|
    ensures Received(target, target, start, 0, stream, first)
  {
  }

  lemma ReceivedAll<T>(before: seq<T>, after: seq<T>, start: nat, count: nat, stream: seq<T>, first: nat)
    requires Received(before, after, start, count, stream, first)
    ensures |after| == |before| && start + count <= |after| && first + count <= |stream|
    ensures after[..start] == before[..start] && after[start + count..] == before[start + count..]
    ensures after[start..start + count] == stream[first..first + count]
  {
  }

  /** Frames of the stream have arrived in the program's buffer, and nothing else has changed there. */
  predicate Received<T(==)>(before: seq<T>, after: seq<T>, start: nat, count: nat, stream: seq<T>, first: nat) {
    && |after| == |before| && start + count <= |after| && first + count <= |stream|
    && after[..start] == before[..start] && after[start + count..] == before[start + count..]
    && after[start..start + count] == stream[first..first + count]
  }

  lemma ReceivedMore<T>(target: seq<T>, got: seq<T>, after: seq<T>, start: nat, count: nat, frames: nat, had: seq<T>,
      stream: seq<T>, first: nat)
    requires Received(target, got, start, count, had, first) && had <= stream
    requires |after| == |got| && start + count + frames <= |got| && first + count + frames <= |stream|
    requires after[..start + count] == got[..start + count]
      && after[start + count + frames..] == got[start + count + frames..]
    requires after[start + count..start + count + frames] == stream[first + count..first + count + frames]
    ensures Received(target, after, start, count + frames, stream, first)
  {
    assert after[..start] == after[..start + count][..start] == got[..start];
    assert after[start..start + count] == after[..start + count][start..] == got[start..start + count];
    assert after[start + count + frames..] == got[start + count..][frames..] == target[start + count + frames..];
    assert after[start..start + count + frames]
      == after[start..start + count] + after[start + count..start + count + frames];
    assert stream[first..first + count + frames]
      == stream[first..first + count] + stream[first + count..first + count + frames];
  }

  lemma SlotOfPointer(laps: nat, ptr: nat, size: nat, exponent: nat, boundary: nat)
    requires 0 < size && boundary == size * Pow2(exponent)
    ensures Slot(Frames(laps, ptr, boundary), size) == ptr % size
  {
    LapsKeepSlot(laps, Pow2(exponent), size, ptr);
  }
}
