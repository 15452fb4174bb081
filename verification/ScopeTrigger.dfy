/** Scope.cpp: the oscilloscope's trigger machine in the time domain over a ring of samples. */
module ScopeTrigger {
  import opened Rings

  datatype TriggerMode = Normal | Auto | Custom

  datatype TriggerSlope = Positive | Negative | Both

  /** FRAMES_STORED. */
  const STORED := 4

  /** The three flags and their counters, as one value. */
  datatype Machine =
    | Primed(auto: nat)
    | Collecting(left: int)
    | Waiting(left: int)

  datatype Settings = Settings(mode: TriggerMode, frameWidth: nat, xOffset: int, holdOff: nat)

  /** What one sample of the signal does to the machine. */
  datatype Outcome = Outcome(machine: Machine, begins: bool, emits: bool, rearms: bool)

  /** The frame's second half, C's conversion dropping the fraction. */
  function CollectCount(frameWidth: nat, xOffset: int): (r: int)
    ensures 2 * xOffset <= frameWidth ==> 2 * r <= frameWidth - 2 * xOffset <= 2 * r + 1
    ensures 2 * xOffset > frameWidth ==> 2 * r - 1 <= frameWidth - 2 * xOffset <= 2 * r
  {
    var twice := frameWidth - 2 * xOffset;
    if twice >= 0 then twice / 2 else -(-twice / 2)
  }

  function HoldCount(frameWidth: nat, holdOff: nat): (r: nat)
    ensures 2 * r <= frameWidth + 2 * holdOff <= 2 * r + 1
  {
    frameWidth / 2 + holdOff
  }

  function Next(m: Machine, hit: bool, settings: Settings): Outcome {
    match m
    case Primed(auto) =>
      if hit || (settings.mode.Auto? && auto > settings.frameWidth + settings.holdOff) then
        Outcome(Collecting(CollectCount(settings.frameWidth, settings.xOffset)), true, false, false)
      else Outcome(Primed(if settings.mode.Auto? then auto + 1 else auto), false, false, false)
    case Collecting(left) =>
      if left - 1 > 0 then Outcome(Collecting(left - 1), false, false, false)
      else Outcome(Waiting(HoldCount(settings.frameWidth, settings.holdOff)), false, true, false)
    case Waiting(left) =>
      if left - 1 > 0 then Outcome(Waiting(left - 1), false, false, false) else Outcome(Primed(0), false, false, true)
  }

  /** The machine after the signal `hits`, one entry a sample. */
  function After(m: Machine, hits: seq<bool>, settings: Settings): Machine
    decreases |hits|
  {
    if |hits| == 0 then m
    else After(Next(m, hits[0], settings).machine, hits[1..], settings)
  }

  function AtLeastOne(n: int): nat { if n < 1 then 1 else n }

  /** From a trigger to its frame and from the frame to the next chance of a trigger the signal does
      not matter, and both delays are exact. */
  lemma {:induction false} DelaysAreExact(m: Machine, hits: seq<bool>, settings: Settings)
    requires m.Collecting? || m.Waiting?
    ensures m.Waiting? && |hits| < AtLeastOne(m.left) ==>
      After(m, hits, settings) == Waiting(m.left - |hits|)
    ensures m.Waiting? && |hits| == AtLeastOne(m.left) ==> After(m, hits, settings) == Primed(0)
    ensures m.Collecting? && |hits| < AtLeastOne(m.left) ==>
      After(m, hits, settings) == Collecting(m.left - |hits|)
    ensures m.Collecting? && |hits| == AtLeastOne(m.left) ==>
      After(m, hits, settings) == Waiting(HoldCount(settings.frameWidth, settings.holdOff))
    decreases |hits|
  {
    if 0 < |hits| {
      var n := Next(m, hits[0], settings).machine;
      if |hits| == 1 {
        assert hits[1..] == [];
      } else if m.left > 1 {
        DelaysAreExact(n, hits[1..], settings);
      }
    }
  }

  lemma {:induction false} AfterConcat(m: Machine, a: seq<bool>, b: seq<bool>, settings: Settings)
    ensures After(m, a + b, settings) == After(After(m, a, settings), b, settings)
    decreases |a|
  {
    if |a| == 0 {
      assert a + b == b;
    } else {
      assert (a + b)[1..] == a[1..] + b;
      AfterConcat(Next(m, a[0], settings).machine, a[1..], b, settings);
    }
  }

  function Silence(n: nat): (hits: seq<bool>)
    ensures |hits| == n && forall k :: 0 <= k < n ==> !hits[k]
  {
    seq(n, _ => false)
  }

  /** Without a hit only the automatic mode triggers: with the sample after a frame, the hold-off and one
      more. */
  lemma {:induction false} SilentMachine(n: nat, settings: Settings)
    ensures !settings.mode.Auto? ==> After(Primed(0), Silence(n), settings) == Primed(0)
    ensures settings.mode.Auto? && n <= settings.frameWidth + settings.holdOff + 1 ==>
      After(Primed(0), Silence(n), settings) == Primed(n)
    ensures settings.mode.Auto? && n == settings.frameWidth + settings.holdOff + 2 ==>
      After(Primed(0), Silence(n), settings).Collecting?
    decreases n
  {
    if 0 < n {
      SilentMachine(n - 1, settings);
      assert Silence(n) == Silence(n - 1) + [false];
      AfterConcat(Primed(0), Silence(n - 1), [false], settings);
      AfterOne(After(Primed(0), Silence(n - 1), settings), false, settings);
    }
  }

  /** A hit starts a frame at once, in every mode. */
  lemma HitTriggers(auto: nat, hits: seq<bool>, settings: Settings)
    requires 0 < |hits| && hits[0]
    ensures After(Primed(auto), hits[..1], settings) ==
      Collecting(CollectCount(settings.frameWidth, settings.xOffset))
  {
    assert hits[..1] == [true];
    AfterOne(Primed(auto), true, settings);
  }

  /** The dead time after a trigger: collecting, then half a frame and the hold-off. */
  lemma DeadTime(auto: nat, hits: seq<bool>, settings: Settings)
    requires 0 < |hits| && Next(Primed(auto), hits[0], settings).begins
    requires |hits| == 1 + AtLeastOne(CollectCount(settings.frameWidth, settings.xOffset))
      + AtLeastOne(HoldCount(settings.frameWidth, settings.holdOff))
    ensures After(Primed(auto), hits, settings) == Primed(0)
    ensures forall k :: 0 < k < |hits| ==> !After(Primed(auto), hits[..k], settings).Primed?
  {
    hide CollectCount, HoldCount;
    var c := AtLeastOne(CollectCount(settings.frameWidth, settings.xOffset));
    var start := Collecting(CollectCount(settings.frameWidth, settings.xOffset));
    forall k | 0 < k <= |hits|
      ensures After(Primed(auto), hits[..k], settings).Primed? <==> k == |hits|
      ensures k == |hits| ==> After(Primed(auto), hits[..k], settings) == Primed(0)
    {
      assert hits[..k][1..] == hits[1..k];
      if k - 1 <= c {
        DelaysAreExact(start, hits[1..k], settings);
      } else {
        assert hits[1..k] == hits[1..c + 1] + hits[c + 1..k];
        AfterConcat(start, hits[1..c + 1], hits[c + 1..k], settings);
        DelaysAreExact(start, hits[1..c + 1], settings);
        DelaysAreExact(Waiting(HoldCount(settings.frameWidth, settings.holdOff)), hits[c + 1..k], settings);
      }
    }
    assert hits[..|hits|] == hits;
  }

  /** C's division. */
  function TruncatedRatio(n: int, d: nat): (r: int)
    requires 0 < d
    ensures 0 <= n ==> 0 <= r <= n
    ensures n < 0 ==> r <= 0
  {
    QuotientIsNoLarger(if n >= 0 then n else -n, d);
    if n >= 0 then n / d else -(-n / d)
  }

  /** The fraction is dropped, towards zero. */
  lemma RatioIsTruncated(n: int, d: nat)
    requires 0 < d
    ensures var r := TruncatedRatio(n, d);
      if 0 <= n then r * d <= n < r * d + d else r * d - d < n <= r * d
  {
    var m: nat := if 0 <= n then n else -n;
    assert m == m / d * d + m % d;
    if n < 0 { assert -(m / d) * d == -(m / d * d); }
  }

  lemma QuotientIsNoLarger(n: nat, d: nat)
    requires 0 < d
    ensures 0 <= n / d <= n
  {
    NoLarger(n, d, n / d, n % d);
  }

  lemma NoLarger(n: nat, d: nat, q: int, r: nat)
    requires n == q * d + r && r < d
    ensures 0 <= q <= n
  {
    if q > 0 { assert q * (d - 1) >= 0; }
  }

  /** The machine, the sample of its last trigger, whether a requested trigger is still pending, and
      where the frames sent so far begin. */
  datatype Trace = Trace(machine: Machine, trigger: nat, pending: bool, firsts: seq<int>)

  /** What the samples from number `at` on do, given which of them meet the trigger condition. */
  function TraceOf(start: Trace, at: nat, hits: seq<bool>, settings: Settings): Trace
    decreases |hits|
  {
    if |hits| == 0 then start
    else
      var n := |hits| - 1;
      TraceNext(TraceOf(start, at, hits[..n], settings), at + n, hits[n], settings)
  }

  function TraceNext(t: Trace, at: nat, hit: bool, settings: Settings): Trace {
    var o := Next(t.machine, hit, settings);
    var now := if o.begins then at else t.trigger;
    var first := now - settings.xOffset - settings.frameWidth / 2;
    Trace(o.machine, now, t.pending && !o.rearms, t.firsts + if o.emits then [first] else [])
  }

  lemma {:induction false} TraceFollowsMachine(start: Trace, at: nat, hits: seq<bool>, settings: Settings)
    ensures TraceOf(start, at, hits, settings).machine
      == After(start.machine, hits, settings)
    decreases |hits|
  {
    if 0 < |hits| {
      var n := |hits| - 1;
      TraceFollowsMachine(start, at, hits[..n], settings);
      AfterConcat(start.machine, hits[..n], [hits[n]], settings);
      AfterOne(After(start.machine, hits[..n], settings), hits[n], settings);
      assert hits == hits[..n] + [hits[n]];
    }
  }

  lemma TraceOneMore(start: Trace, at: nat, hits: seq<bool>, hit: bool, settings: Settings)
    ensures TraceOf(start, at, hits + [hit], settings)
      == TraceNext(TraceOf(start, at, hits, settings), at + |hits|, hit, settings)
    ensures forall k :: 0 <= k <= |hits| ==> (hits + [hit])[..k] == hits[..k]
  {
    assert (hits + [hit])[..|hits|] == hits;
  }

  lemma TraceStart(start: Trace, at: nat, settings: Settings)
    ensures TraceOf(start, at, [], settings) == start
  {
  }

  /** A threshold crossing between two samples. */
  predicate Crosses(prev: real, cur: real, dir: TriggerSlope, level: real) {
    var negativeEdge := prev >= level && cur < level;
    var positiveEdge := prev < level && cur >= level;
    match dir
    case Positive => positiveEdge
    case Negative => negativeEdge
    case Both => positiveEdge || negativeEdge
  }

  /** The rows are the logged samples from `first` on, as far as the ring has still room for them. */
  predicate Shows(history: seq<seq<real>>, channels: nat, frameWidth: nat, channelWidth: nat, first: int,
      rows: seq<seq<real>>) {
    && |rows| == channels && (forall c :: 0 <= c < channels ==> |rows[c]| == frameWidth)
    && first + frameWidth <= |history| && (forall i :: 0 <= i < |history| ==> |history[i]| == channels)
    && forall c, k ::
      0 <= c < channels && 0 <= k < frameWidth && 0 <= first + k && |history| <= first + k + channelWidth ==>
      rows[c][k] == history[first + k][c]
  }

  class Scope {
    const numChannels: nat
    const frameWidth: nat
    const channelWidth: nat
    const triggerMode: TriggerMode
    const triggerChannel: nat
    const triggerDir: TriggerSlope
    const triggerLevel: real
    const xOffset: int
    const xOffsetSamples: int
    const holdOffSamples: nat
    const buffer: array2<real>
    const outBuffer: array2<real>
    var writePointer: int
    var readPointer: int
    var triggerPointer: int
    var customTriggerPointer: int
    var triggerPrimed: bool
    var triggerCollecting: bool
    var triggerWaiting: bool
    var triggerCount: int
    var autoTriggerCount: nat
    var customTriggered: bool
    /** Every sample logged so far, one value a channel. */
    ghost var history: seq<seq<real>>
    /** How many of them the trigger thread has looked at. */
    ghost var read: nat
    /** The sample at which the machine last triggered. */
    ghost var trigger: nat
    /** How many samples had been logged when a custom trigger was last requested. */
    ghost var requested: nat

    predicate Shape() {
      && 0 < frameWidth && channelWidth == frameWidth * STORED && triggerChannel < numChannels
      && buffer != outBuffer
      && buffer.Length0 == numChannels && buffer.Length1 == channelWidth
      && outBuffer.Length0 == numChannels && outBuffer.Length1 == frameWidth
      && xOffset <= channelWidth && xOffsetSamples <= channelWidth
    }

    /** The last lap of the history is in the ring, and zeros where nothing was logged yet. */
    ghost predicate RingHolds()
      requires Shape()
      reads this`history, buffer
    {
      && (forall i :: 0 <= i < |history| ==> |history[i]| == numChannels)
      && (forall c, i :: 0 <= c < numChannels && 0 <= i < |history| <= i + channelWidth ==>
        buffer[c, Slot(i, channelWidth)] == history[i][c])
      && (forall c, i :: 0 <= c < numChannels && |history| <= i < channelWidth ==> buffer[c, i] == 0.0)
    }

    /** Exactly one flag is up, and while collecting the counter tells how long ago the trigger was. */
    ghost predicate MachineValid()
      requires Shape()
      reads this
    {
      && (if triggerPrimed then !triggerCollecting && !triggerWaiting else triggerCollecting != triggerWaiting)
      && (triggerCollecting ==>
        && trigger < read && triggerPointer == Slot(trigger - xOffsetSamples, channelWidth)
        && triggerCount == CollectCount(frameWidth, xOffsetSamples) - (read - trigger - 1)
        && (read - trigger - 1 == 0 || 0 < triggerCount))
      && (triggerWaiting ==> triggerCount <= HoldCount(frameWidth, holdOffSamples))
    }

    ghost predicate Valid()
      reads this, buffer
    {
      && Shape() && read <= |history| < read + channelWidth
      && readPointer == Slot(read, channelWidth) && writePointer == Slot(|history|, channelWidth)
      && RingHolds() && MachineValid()
      && (autoTriggerCount == 0 || (triggerPrimed && triggerMode.Auto?))
      && (customTriggered ==> requested <= |history| && customTriggerPointer == Slot(requested - xOffset, channelWidth))
    }

    function Chosen(): Settings {
      Settings(triggerMode, frameWidth, xOffsetSamples, holdOffSamples)
    }

    function MachineOf(): Machine
      reads this
    {
      if triggerPrimed then Primed(autoTriggerCount)
      else if triggerCollecting then Collecting(triggerCount)
      else Waiting(triggerCount)
    }

    /** Settings as setPlotMode leaves them, started. */
    constructor (numChannels: nat, frameWidth: nat, mode: TriggerMode, channel: nat, dir: TriggerSlope, level: real,
        xOffset: int, upSampling: nat, holdOff: nat)
      requires 0 < frameWidth && channel < numChannels && xOffset <= frameWidth * STORED && 0 < upSampling
      ensures Valid() && fresh(buffer) && fresh(outBuffer) && history == [] && read == 0 && MachineOf() == Primed(0)
    {
      hide Slot, CollectCount, HoldCount, TruncatedRatio;
      SlotOfZero(frameWidth * STORED);
      this.numChannels, this.frameWidth, channelWidth := numChannels, frameWidth, frameWidth * STORED;
      triggerMode, triggerChannel, triggerDir, triggerLevel := mode, channel, dir, level;
      this.xOffset, xOffsetSamples, holdOffSamples := xOffset, TruncatedRatio(xOffset, upSampling), holdOff;
      buffer := new real[numChannels, frameWidth * STORED]((_, _) => 0.0);
      outBuffer := new real[numChannels, frameWidth]((_, _) => 0.0);
      writePointer, readPointer, triggerPointer, customTriggerPointer := 0, 0, 0, 0;
      triggerPrimed, triggerCollecting, triggerWaiting := true, false, false;
      triggerCount, autoTriggerCount, customTriggered := 0, 0, false;
      history, read, trigger, requested := [], 0, 0, 0;
    }

    /** `log` and `postlog`, once `prelog` lets a sample through. */
    method Log(values: seq<real>)
      requires Valid() && |values| == numChannels && |history| + 1 < read + channelWidth
      modifies this`writePointer, this`history, buffer
      ensures Valid() && history == old(history) + [values]
    {
      hide Slot, CollectCount, HoldCount;
      forall c | 0 <= c < numChannels {
        buffer[c, writePointer] := values[c];
      }
      SlotNext(|history|, channelWidth);
      SlotOfSmall(|history|, channelWidth);
      writePointer := (writePointer + 1) % channelWidth;
      history := history + [values];
      forall i: int | 0 <= i < |history| - 1 && |history| <= i + channelWidth
        ensures Slot(i, channelWidth) != old(writePointer) {
        SlotsDiffer(i, |history| - 1, channelWidth);
      }
    }

    /** `trigger`, called by the program in custom mode. */
    method Request() returns (done: bool)
      requires Valid()
      modifies this`customTriggerPointer, this`customTriggered, this`requested
      ensures Valid() && MachineOf() == old(MachineOf())
      ensures done <==> triggerMode.Custom? && !old(customTriggered) && triggerPrimed
      ensures done ==> customTriggered && requested == |history|
      ensures !done ==> customTriggered == old(customTriggered) && requested == old(requested)
    {
      hide CollectCount, HoldCount, Slot;
      if triggerMode.Custom? && !customTriggered && triggerPrimed {
        SlotMoves(|history|, -xOffset, channelWidth);
        SlotIsRemainder(writePointer - xOffset + channelWidth, channelWidth);
        customTriggerPointer := (writePointer - xOffset + channelWidth) % channelWidth;
        customTriggered := true;
        requested := |history|;
        return true;
      }
      return false;
    }

    lemma Behind()
      requires Valid()
      ensures readPointer != writePointer <==> read < |history|
    {
      hide Slot;
      if read < |history| {
        SlotsDiffer(read, |history|, channelWidth);
      }
    }

    /** `triggered`. */
    method Triggered() returns (hit: bool)
      requires Valid() && readPointer != writePointer
      ensures hit == Hit()
      ensures !triggerMode.Custom? ==>
        && read < |history| && (forall i :: 0 <= i < |history| ==> triggerChannel < |history[i]|)
        && var before := if read == 0 then 0.0 else history[read - 1][triggerChannel];
          var now := history[read][triggerChannel];
          hit <==> match triggerDir
            case Positive => before < triggerLevel <= now
            case Negative => now < triggerLevel <= before
            case Both => (before < triggerLevel) != (now < triggerLevel)
    {
      hide CollectCount, HoldCount, Slot;
      Behind();
      HitIsCrossing();
      if triggerMode.Custom? {
        hit := customTriggered && readPointer == customTriggerPointer;
      } else {
        SlotMoves(read, -1, channelWidth);
        SlotMoves(readPointer, -1, channelWidth);
        SlotIsRemainder(readPointer - 1 + channelWidth, channelWidth);
        var prev := buffer[triggerChannel, (readPointer - 1 + channelWidth) % channelWidth];
        var cur := buffer[triggerChannel, readPointer];
        hit := Crosses(prev, cur, triggerDir, triggerLevel);
      }
    }

    /** A logged signal, silent before it began, crosses the threshold with sample i. */
    ghost predicate CrossesAt(history: seq<seq<real>>, i: nat) {
      && i < |history| && (forall j :: 0 <= j <= i ==> triggerChannel < |history[j]|)
      && Crosses(if i == 0 then 0.0 else history[i - 1][triggerChannel], history[i][triggerChannel], triggerDir,
        triggerLevel)
    }

    /** Which samples are edges, in values of the signal: below the level before and not below it now,
        the other way round, or either. */
    ghost predicate HitsAreEdges(history: seq<seq<real>>, at: nat, hits: seq<bool>) {
      && at + |hits| <= |history| && (forall i :: 0 <= i < |history| ==> triggerChannel < |history[i]|)
      && forall k :: 0 <= k < |hits| ==>
        var i := at + k;
        var before, now := if i == 0 then 0.0 else history[i - 1][triggerChannel], history[i][triggerChannel];
        hits[k] <==> match triggerDir
          case Positive => before < triggerLevel <= now
          case Negative => now < triggerLevel <= before
          case Both => (before < triggerLevel) != (now < triggerLevel)
    }

    /** A signal that never falls has no falling edge and at most one rising one. */
    lemma RisingSignal(history: seq<seq<real>>, at: nat, hits: seq<bool>)
      requires HitsAreEdges(history, at, hits) && (at == 0 && 0 < |history| ==> 0.0 <= history[0][triggerChannel])
      requires forall i, j :: 0 <= i < j < |history| ==> history[i][triggerChannel] <= history[j][triggerChannel]
      ensures triggerDir.Negative? ==> forall k :: 0 <= k < |hits| ==> !hits[k]
      ensures forall k, l :: 0 <= k < l < |hits| ==> !hits[k] || !hits[l]
    {
      forall k, l | 0 <= k < l < |hits| ensures !hits[k] || !hits[l] {
        assert history[at + k][triggerChannel] <= history[at + l - 1][triggerChannel];
      }
    }

    lemma RightHitsAreEdges(start: Trace, at: nat, hits: seq<bool>)
      requires Valid() && HitsAreRight(history, requested, start, at, hits) && at + |hits| <= |history|
      ensures !triggerMode.Custom? ==> HitsAreEdges(history, at, hits)
    {
      hide Slot, MachineValid;
    }

    lemma HitIsCrossing()
      requires Valid() && readPointer != writePointer
      ensures !triggerMode.Custom? ==> (Hit() <==> CrossesAt(history, read))
    {
      hide CollectCount, HoldCount, Slot;
      Behind();
      SlotMoves(read, -1, channelWidth);
      SlotMoves(readPointer, -1, channelWidth);
      SlotOfSmall(read, channelWidth);
      SlotOfSmall(channelWidth - 1, channelWidth);
    }

    /** Less than a lap from the sample asked for, only that sample has its slot. */
    lemma RequestNamesItsSample(requested: nat, i: nat)
      requires 0 < channelWidth && i < requested - xOffset + channelWidth && requested - xOffset < i + channelWidth
      ensures Slot(i, channelWidth) == Slot(requested - xOffset, channelWidth) <==> i == requested - xOffset
    {
      hide Slot;
      if i < requested - xOffset {
        SlotsDiffer(i, requested - xOffset, channelWidth);
      } else if requested - xOffset < i {
        SlotsDiffer(requested - xOffset, i, channelWidth);
      }
    }

    lemma HitIsRequest()
      requires Valid() && readPointer != writePointer
      ensures triggerMode.Custom? ==>
        (Hit() <==> customTriggered && Slot(read, channelWidth) == Slot(requested - xOffset, channelWidth))
    {
      hide Slot;
    }

    /** The trigger condition on the ring. */
    ghost predicate Hit()
      requires Shape() && 0 <= readPointer < channelWidth
      reads this, buffer
    {
      if triggerMode.Custom? then customTriggered && readPointer == customTriggerPointer
      else Crosses(buffer[triggerChannel, Slot(readPointer - 1, channelWidth)], buffer[triggerChannel, readPointer],
        triggerDir, triggerLevel)
    }

    /** Whether row c of outBuffer is the frame that begins at sample `first`, taken from the ring. */
    ghost predicate FrameBegins(first: int)
      requires Shape()
      reads buffer, outBuffer
    {
      forall c, k :: 0 <= c < numChannels && 0 <= k < frameWidth ==>
        outBuffer[c, k] == buffer[c, Slot(first + k, channelWidth)]
    }

    /** Copies the frame around triggerPointer, in one piece or in two. */
    method CopyFrame(ghost at: int)
      requires Shape() && triggerPointer == Slot(at, channelWidth)
      modifies outBuffer
      ensures FrameBegins(at - frameWidth / 2)
    {
      hide Slot;
      var k := channelWidth;
      ghost var first := at - frameWidth / 2;
      SlotMoves(at, -(frameWidth / 2), k);
      SlotIsRemainder(triggerPointer - frameWidth / 2 + k, k);
      var startptr := (triggerPointer - frameWidth / 2 + k) % k;
      assert startptr == Slot(first, k);
      SlotMoves(first, frameWidth, k);
      SlotIsRemainder(startptr + frameWidth, k);
      var endptr := (startptr + frameWidth) % k;
      if endptr > startptr {
        forall c, i | 0 <= c < numChannels && 0 <= i < frameWidth {
          outBuffer[c, i] := buffer[c, startptr + i];
        }
      } else {
        forall c, i | 0 <= c < numChannels && 0 <= i < frameWidth - endptr {
          outBuffer[c, i] := buffer[c, startptr + i];
        }
        forall c, i | 0 <= c < numChannels && 0 <= i < endptr {
          outBuffer[c, frameWidth - endptr + i] := buffer[c, i];
        }
      }
      forall c, i | 0 <= c < numChannels && 0 <= i < frameWidth
        ensures outBuffer[c, i] == buffer[c, Slot(first + i, k)] {
        SlotMoves(first, i, k);
        if endptr <= startptr && frameWidth - endptr <= i {
          var j := i - (frameWidth - endptr);
          assert outBuffer[c, frameWidth - endptr + j] == buffer[c, j];
        }
      }
    }

    /** One turn of the loop of triggerTimeDomain. */
    method Look() returns (emitted: bool)
      requires Valid() && readPointer != writePointer
      modifies this`readPointer, this`triggerPointer, this`triggerPrimed, this`triggerCollecting, this`triggerWaiting,
        this`triggerCount, this`autoTriggerCount, this`customTriggered, this`read, this`trigger, outBuffer
      ensures Valid() && read == old(read) + 1
      ensures var o := Next(old(MachineOf()), old(Hit()), Chosen());
        && MachineOf() == o.machine && emitted == o.emits && trigger == (if o.begins then old(read) else old(trigger))
        && customTriggered == (old(customTriggered) && !o.rearms)
      ensures var first := trigger - xOffsetSamples - frameWidth / 2;
        emitted ==> FrameBegins(first) && first + frameWidth - 1 <= old(read)
      ensures !emitted ==>
        forall c, k :: 0 <= c < numChannels && 0 <= k < frameWidth ==> outBuffer[c, k] == old(outBuffer[c, k])
    {
      hide Slot, FrameBegins, RingHolds, CollectCount, HoldCount, Hit, Crosses, CrossesAt;
      Behind();
      emitted := false;
      if triggerPrimed {
        Listen();
      } else if triggerCollecting {
        emitted := Collect();
      } else if triggerWaiting {
        Wait();
      }
      SlotNext(read, channelWidth);
      readPointer := (readPointer + 1) % channelWidth;
      read := read + 1;
    }

    /** The branch for a machine that waits for a trigger. */
    method Listen()
      requires Valid() && readPointer != writePointer && triggerPrimed
      modifies this`triggerPointer, this`triggerPrimed, this`triggerCollecting, this`triggerCount,
        this`autoTriggerCount, this`trigger
      ensures var o := Next(Primed(old(autoTriggerCount)), old(Hit()), Chosen());
        MachineOf() == o.machine && o.begins == triggerCollecting && trigger == if o.begins then read else old(trigger)
      ensures triggerPrimed != triggerCollecting && (triggerPrimed ==> triggerMode.Auto? || autoTriggerCount == 0)
      ensures triggerCollecting ==>
        && triggerPointer == Slot(read - xOffsetSamples, channelWidth) && autoTriggerCount == 0
        && triggerCount == CollectCount(frameWidth, xOffsetSamples)
    {
      hide Slot, RingHolds, CollectCount, HoldCount, Hit, Crosses, CrossesAt;
      var hit := Triggered();
      if hit {
        Begin();
      } else if triggerMode.Auto? {
        autoTriggerCount := autoTriggerCount + 1;
        if autoTriggerCount - 1 > frameWidth + holdOffSamples {
          Begin();
        }
      }
    }

    /** The branch for a frame that is being collected. */
    method Collect() returns (emitted: bool)
      requires Shape() && MachineValid() && triggerCollecting && autoTriggerCount == 0
      modifies this`triggerCollecting, this`triggerWaiting, this`triggerCount, outBuffer
      ensures var o := Next(Collecting(old(triggerCount)), false, Chosen());
        MachineOf() == o.machine && emitted == o.emits
      ensures triggerCollecting == !emitted && triggerWaiting == emitted
      ensures triggerCollecting ==> triggerCount == old(triggerCount) - 1 && 0 < triggerCount
      ensures triggerWaiting ==> triggerCount <= HoldCount(frameWidth, holdOffSamples)
      ensures var first := trigger - xOffsetSamples - frameWidth / 2;
        emitted ==> FrameBegins(first) && first + frameWidth - 1 <= read
      ensures !emitted ==>
        forall c, k :: 0 <= c < numChannels && 0 <= k < frameWidth ==> outBuffer[c, k] == old(outBuffer[c, k])
    {
      hide Slot, FrameBegins;
      triggerCount := triggerCount - 1;
      emitted := false;
      if triggerCount > 0 {
      } else {
        triggerCollecting, triggerWaiting := false, true;
        triggerCount := HoldCount(frameWidth, holdOffSamples);
        CopyFrame(trigger - xOffsetSamples);
        emitted := true;
      }
    }

    /** The branch for the pause after a frame. */
    method Wait()
      requires Shape() && MachineValid() && triggerWaiting && autoTriggerCount == 0
      modifies this`triggerWaiting, this`triggerPrimed, this`triggerCount, this`customTriggered
      ensures MachineOf() == Next(Waiting(old(triggerCount)), false, Chosen()).machine
      ensures customTriggered == (old(customTriggered) && triggerWaiting)
      ensures triggerWaiting != triggerPrimed
        && (triggerWaiting ==> triggerCount <= HoldCount(frameWidth, holdOffSamples))
    {
      hide Slot, CollectCount, HoldCount;
      triggerCount := triggerCount - 1;
      if triggerCount > 0 {
        // the source lowers a count above this one, which happens only when settings change
        assert triggerCount <= HoldCount(frameWidth, holdOffSamples);
      } else {
        triggerWaiting, triggerPrimed, customTriggered := false, true, false;
      }
    }

    /** What is sent: the rows of outBuffer. */
    function Rows(): (r: seq<seq<real>>)
      requires Shape()
      reads outBuffer
      ensures |r| == numChannels
      ensures forall c, k :: 0 <= c < numChannels && 0 <= k < frameWidth ==>
        |r[c]| == frameWidth && r[c][k] == outBuffer[c, k]
    {
      seq(numChannels, c requires 0 <= c < numChannels reads outBuffer =>
        seq(frameWidth, k requires 0 <= k < frameWidth reads outBuffer => outBuffer[c, k]))
    }

    lemma FrameShowsHistory(first: int)
      requires Shape() && RingHolds() && FrameBegins(first) && first + frameWidth <= |history|
      ensures Shows(history, numChannels, frameWidth, channelWidth, first, Rows())
    {
      hide Slot;
    }

    /** What the program logs while the trigger thread is between two samples; it never overtakes the
        reader. */
    method Meanwhile(coming: seq<seq<real>>) returns (left: seq<seq<real>>)
      requires Valid() && forall v <- coming :: |v| == numChannels
      modifies this`writePointer, this`history, buffer
      ensures Valid() && |left| <= |coming| && left == coming[|coming| - |left|..]
      ensures history == old(history) + coming[..|coming| - |left|]
    {
      hide Slot, CollectCount, HoldCount, RingHolds, MachineValid;
      left := coming;
      var more: bool :| more || !more;
      while more && |left| > 0 && (writePointer + 1) % channelWidth != readPointer
        invariant Valid() && |left| <= |coming| && left == coming[|coming| - |left|..]
        invariant history == old(history) + coming[..|coming| - |left|]
        decreases |left|
      {
        NoOvertaking();
        assert left[0] in coming;
        Log(left[0]);
        left := left[1..];
        more :| more || !more;
      }
    }

    lemma NoOvertaking()
      requires Valid() && (writePointer + 1) % channelWidth != readPointer
      ensures |history| + 1 < read + channelWidth
    {
      hide Slot;
      SlotNext(|history|, channelWidth);
      if |history| + 1 == read + channelWidth {
        SlotMoves(read, channelWidth, channelWidth);
        SlotMoves(read, 0, channelWidth);
      }
    }

    /** The state of the trace when nothing has been sent yet. */
    ghost function Tracing(): Trace
      reads this
    {
      Trace(MachineOf(), trigger, customTriggered, [])
    }

    /** triggerTimeDomain, while the program goes on logging some of the samples `coming`: every sample
        is looked at once; which of them meet the trigger condition decides the machine and where the
        frames sent begin. Frame i was copied when the samples seen[i] had been logged. */
    method TriggerTimeDomain(coming: seq<seq<real>>)
      returns (frames: seq<seq<seq<real>>>, ghost hits: seq<bool>, ghost seen: seq<seq<seq<real>>>)
      requires Valid() && forall v <- coming :: |v| == numChannels
      modifies this`readPointer, this`triggerPointer, this`triggerPrimed, this`triggerCollecting, this`triggerWaiting,
        this`triggerCount, this`autoTriggerCount, this`customTriggered, this`read, this`trigger, outBuffer,
        this`writePointer, this`history, buffer
      ensures Valid() && readPointer == writePointer && read == |history| && |hits| == read - old(read)
      ensures old(history) <= history <= old(history) + coming
      ensures HitsAreRight(history, requested, old(Tracing()), old(read), hits)
      ensures !triggerMode.Custom? ==> HitsAreEdges(history, old(read), hits)
      ensures var t := TraceOf(old(Tracing()), old(read), hits, Chosen());
        && MachineOf() == t.machine && trigger == t.trigger && customTriggered == t.pending
        && FramesAreRight(history, t, frames, seen)
    {
      hide Slot, Next, CollectCount, HoldCount, TraceOf, RingHolds, MachineValid, HitsAreRight, FramesAreRight,
        HitsAreEdges;
      hits, frames, seen := [], [], [];
      ghost var start, at := Tracing(), read;
      var left := coming;
      TraceStart(start, at, Chosen());
      NothingSeen(start, at);
      Behind();
      while readPointer != writePointer
        invariant Valid() && |hits| == read - at && (readPointer != writePointer <==> read < |history|)
        invariant |left| <= |coming| && left == coming[|coming| - |left|..]
        invariant history == old(history) + coming[..|coming| - |left|]
        invariant HitsAreRight(history, requested, start, at, hits)
        invariant SoFar(start, at, hits, frames, seen)
        decreases |history| + |left| - read
      {
        ghost var before := left;
        left := MeanwhileRecorded(left, start, at, hits, frames, seen);
        Behind();
        frames, hits, seen := LookAgain(start, at, frames, hits, seen);
        Behind();
      }
      RightHitsAreEdges(start, at, hits);
    }

    /** Logging changes nothing about the samples already looked at. */
    method MeanwhileRecorded(coming: seq<seq<real>>, ghost start: Trace, ghost at: nat, ghost hits: seq<bool>,
        ghost frames: seq<seq<seq<real>>>, ghost seen: seq<seq<seq<real>>>)
      returns (left: seq<seq<real>>)
      requires Valid() && (forall v <- coming :: |v| == numChannels) && at + |hits| <= |history|
      requires HitsAreRight(history, requested, start, at, hits) && SoFar(start, at, hits, frames, seen)
      modifies this`writePointer, this`history, buffer
      ensures Valid() && |left| <= |coming| && left == coming[|coming| - |left|..]
      ensures history == old(history) + coming[..|coming| - |left|]
      ensures HitsAreRight(history, requested, start, at, hits) && SoFar(start, at, hits, frames, seen)
    {
      hide Slot, Next, TraceOf, RingHolds, MachineValid, HitsAreRight, FramesAreRight;
      left := Meanwhile(coming);
      HitsExtend(old(history), history, requested, start, at, hits);
      FramesExtend(old(history), history, TraceSoFar(start, at, hits), frames, seen);
    }

    /** One turn, recorded. */
    method LookAgain(ghost start: Trace, ghost at: nat, framesIn: seq<seq<seq<real>>>, ghost hitsIn: seq<bool>,
        ghost seenIn: seq<seq<seq<real>>>)
      returns (frames: seq<seq<seq<real>>>, ghost hits: seq<bool>, ghost seen: seq<seq<seq<real>>>)
      requires Valid() && readPointer != writePointer && |hitsIn| == read - at
      requires HitsAreRight(history, requested, start, at, hitsIn) && SoFar(start, at, hitsIn, framesIn, seenIn)
      modifies this`readPointer, this`triggerPointer, this`triggerPrimed, this`triggerCollecting, this`triggerWaiting,
        this`triggerCount, this`autoTriggerCount, this`customTriggered, this`read, this`trigger, outBuffer
      ensures Valid() && read == old(read) + 1 && |hits| == read - at
      ensures HitsAreRight(history, requested, start, at, hits) && SoFar(start, at, hits, frames, seen)
    {
      hide Slot, FrameBegins, Shows, Next, CollectCount, HoldCount, TraceOf, RingHolds, MachineValid, HitsAreRight,
        FramesAreRight, CrossesAt, Hit;
      ghost var hit := Hit();
      HitIsCrossing();
      HitIsRequest();
      HitsMore(history, requested, start, at, hitsIn, hit);
      TraceOneMore(start, at, hitsIn, hit, Chosen());
      var emitted := Look();
      hits, frames, seen := hitsIn + [hit], framesIn, seenIn;
      FramesMore(history, TraceSoFar(start, at, hitsIn), frames, seen, trigger - xOffsetSamples - frameWidth / 2,
        Rows());
      if emitted {
        FrameShowsHistory(trigger - xOffsetSamples - frameWidth / 2);
        frames, seen := frames + [Rows()], seen + [history];
      }
    }

    ghost function TraceSoFar(start: Trace, at: nat, hits: seq<bool>): Trace {
      TraceOf(start, at, hits, Chosen())
    }

    /** The fields and the frames sent are those of the trace. */
    ghost predicate SoFar(start: Trace, at: nat, hits: seq<bool>, frames: seq<seq<seq<real>>>,
        seen: seq<seq<seq<real>>>)
      reads this
    {
      var t := TraceSoFar(start, at, hits);
      && MachineOf() == t.machine && trigger == t.trigger && customTriggered == t.pending
      && FramesAreRight(history, t, frames, seen)
    }

    /** The trigger conditions are those of the logged signal, or in custom mode of the pending request. */
    ghost predicate HitsAreRight(history: seq<seq<real>>, requested: nat, start: Trace, at: nat, hits: seq<bool>) {
      && (!triggerMode.Custom? ==>
        forall k :: 0 <= k < |hits| ==> (hits[k] <==> CrossesAt(history, at + k)))
      && (triggerMode.Custom? ==>
        forall k :: 0 <= k < |hits| ==> (hits[k] <==> Requested(requested, start, at, hits[..k])))
    }

    /** A request is pending after these samples, and the next one lies where it asked for. */
    ghost predicate Requested(requested: nat, start: Trace, at: nat, hits: seq<bool>) {
      && TraceSoFar(start, at, hits).pending && 0 < channelWidth
      && Slot(at + |hits|, channelWidth) == Slot(requested - xOffset, channelWidth)
    }

    /** Frame i shows what had been logged when it was copied. */
    ghost predicate FramesAreRight(history: seq<seq<real>>, t: Trace, frames: seq<seq<seq<real>>>,
        seen: seq<seq<seq<real>>>) {
      && |frames| == |t.firsts| == |seen|
      && forall i :: 0 <= i < |frames| ==>
        seen[i] <= history && Shows(seen[i], numChannels, frameWidth, channelWidth, t.firsts[i], frames[i])
    }

    lemma NothingSeen(start: Trace, at: nat)
      ensures HitsAreRight(history, requested, start, at, [])
      ensures start.firsts == [] ==> FramesAreRight(history, start, [], [])
    {
    }

    lemma HitsExtend(logged: seq<seq<real>>, now: seq<seq<real>>, requested: nat, start: Trace, at: nat,
        hits: seq<bool>)
      requires HitsAreRight(logged, requested, start, at, hits) && logged <= now && at + |hits| <= |logged|
      ensures HitsAreRight(now, requested, start, at, hits)
    {
      hide Crosses, Requested;
      forall i | 0 <= i < at + |hits| ensures CrossesAt(now, i) <==> CrossesAt(logged, i) {
        assert now[..|logged|] == logged;
      }
    }

    lemma FramesExtend(logged: seq<seq<real>>, now: seq<seq<real>>, t: Trace, frames: seq<seq<seq<real>>>,
        seen: seq<seq<seq<real>>>)
      requires FramesAreRight(logged, t, frames, seen) && logged <= now
      ensures FramesAreRight(now, t, frames, seen)
    {
      hide Shows;
    }

    lemma HitsMore(history: seq<seq<real>>, requested: nat, start: Trace, at: nat, hits: seq<bool>, hit: bool)
      requires HitsAreRight(history, requested, start, at, hits)
      requires !triggerMode.Custom? ==> (hit <==> CrossesAt(history, at + |hits|))
      requires triggerMode.Custom? ==> (hit <==> Requested(requested, start, at, hits))
      ensures HitsAreRight(history, requested, start, at, hits + [hit])
    {
      hide CrossesAt, Requested;
      var more := hits + [hit];
      assert forall k :: 0 <= k <= |hits| ==> more[..k] == hits[..k];
      assert hits[..|hits|] == hits;
    }

    lemma FramesMore(history: seq<seq<real>>, t: Trace, frames: seq<seq<seq<real>>>, seen: seq<seq<seq<real>>>,
        first: int, rows: seq<seq<real>>)
      requires FramesAreRight(history, t, frames, seen)
      ensures forall u: Trace :: u.firsts == t.firsts ==> FramesAreRight(history, u, frames, seen)
      ensures Shows(history, numChannels, frameWidth, channelWidth, first, rows) ==>
        forall u: Trace :: u.firsts == t.firsts + [first] ==>
          FramesAreRight(history, u, frames + [rows], seen + [history])
    {
      hide Shows;
    }

    /** A trigger at the current sample. */
    method Begin()
      requires Shape() && readPointer == Slot(read, channelWidth)
      modifies this`triggerPointer, this`triggerPrimed, this`triggerCollecting, this`triggerCount,
        this`autoTriggerCount, this`trigger
      ensures !triggerPrimed && triggerCollecting && trigger == read
        && triggerPointer == Slot(read - xOffsetSamples, channelWidth)
      ensures triggerCount == CollectCount(frameWidth, xOffsetSamples) && autoTriggerCount == 0
    {
      hide Slot, CollectCount;
      triggerPrimed, triggerCollecting := false, true;
      SlotMoves(read, -xOffsetSamples, channelWidth);
      SlotIsRemainder(readPointer - xOffsetSamples + channelWidth, channelWidth);
      triggerPointer := (readPointer - xOffsetSamples + channelWidth) % channelWidth;
      triggerCount := CollectCount(frameWidth, xOffsetSamples);
      autoTriggerCount := 0;
      trigger := read;
    }
  }

  lemma AfterOne(m: Machine, hit: bool, settings: Settings)
    ensures After(m, [hit], settings) == Next(m, hit, settings).machine
  {
    assert [hit][1..] == [];
  }
}
