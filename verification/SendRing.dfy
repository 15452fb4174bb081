/** WSServer.cpp: the ring between the thread that sends and the client thread that delivers, one
    atomic step at a time. */
module SendRing {
  import opened Basics
  import opened Rings

  /** output_queue_size and WSOutDataMax. */
  const SIZE := 100

  const MAX_DATA := 230400

  datatype Output = Output(address: string, data: seq<byte>)

  /** What `send` puts in a slot: data that is too long is cut. */
  function Packed(address: string, data: seq<byte>): (out: Output)
    ensures out.address == address && out.data <= data
    ensures if |data| <= 230400 then out.data == data else |out.data| == 230400
  {
    Output(address, if |data| > MAX_DATA then data[..MAX_DATA] else data)
  }

  /** The sending thread: between calls, with the next index computed, with the slot filled. */
  datatype Producer = Resting | Computed(slot: nat, out: Output) | Filled(slot: nat, out: Output)

  /** The client thread: between passes, in a pass up to `target`, about to load the slot at readPtr. */
  datatype Consumer = Waiting | Draining(target: int) | Advanced(target: int)

  /** The shared fields and both threads; `sent` and `delivered` record what they did. */
  datatype State = State(
    slots: seq<Output>, writePtr: int, readPtr: int,
    producer: Producer, consumer: Consumer,
    sent: seq<Output>, delivered: seq<Output>)

  predicate Init(s: State) {
    && |s.slots| == SIZE && s.writePtr == -1 && s.readPtr == -1
    && s.producer == Resting && s.consumer == Waiting && s.sent == [] && s.delivered == []
  }

  datatype Step =
    | Compute(address: string, data: seq<byte>) | Store | Publish
    | Look | Advance | Take | Leave

  predicate Next(s: State, t: State, step: Step)
    requires |s.slots| == SIZE
  {
    match step
    case Compute(address, data) =>
      s.producer.Resting? && t == s.(producer := Computed((s.writePtr + 1) % SIZE, Packed(address, data)))
    case Store =>
      s.producer.Computed? && s.producer.slot < SIZE
      && t == s.(
        slots := s.slots[s.producer.slot := s.producer.out],
        producer := Filled(s.producer.slot, s.producer.out))
    case Publish =>
      s.producer.Filled? && t == s.(writePtr := s.producer.slot, producer := Resting, sent := s.sent + [s.producer.out])
    case Look =>
      s.consumer.Waiting? && t == s.(consumer := Draining(s.writePtr))
    case Advance =>
      s.consumer.Draining? && s.readPtr != s.consumer.target
      && t == s.(readPtr := (s.readPtr + 1) % SIZE, consumer := Advanced(s.consumer.target))
    case Take =>
      s.consumer.Advanced? && 0 <= s.readPtr < SIZE
      && t == s.(delivered := s.delivered + [s.slots[s.readPtr]], consumer := Draining(s.consumer.target))
    case Leave =>
      s.consumer.Draining? && s.readPtr == s.consumer.target && t == s.(consumer := Waiting)
  }

  /** Fewer items than slots are waiting. */
  predicate Bounded(s: State) {
    |s.sent| - |s.delivered| < SIZE
  }

  /** A run of both threads in any interleaving. */
  predicate Run(states: seq<State>, steps: seq<Step>) {
    && |states| == |steps| + 1 && Init(states[0])
    && (forall i :: 0 <= i < |states| ==> |states[i].slots| == SIZE)
    && (forall i :: 0 <= i < |steps| ==> Next(states[i], states[i + 1], steps[i]))
  }

  // ----- the invariant

  /** The index after n items. */
  function Ptr(n: nat): int {
    if n == 0 then -1 else (n - 1) % SIZE
  }

  predicate ProducerInv(s: State)
    requires |s.slots| == SIZE
  {
    match s.producer
    case Resting => true
    case Computed(slot, out) => slot == |s.sent| % SIZE
    case Filled(slot, out) => slot == |s.sent| % SIZE && s.slots[slot] == out
  }

  /** A pass goes up to an item that was sent when it began. */
  ghost predicate ConsumerInv(s: State) {
    match s.consumer
    case Waiting => s.readPtr == Ptr(|s.delivered|)
    case Draining(target) =>
      && s.readPtr == Ptr(|s.delivered|)
      && exists t: nat :: |s.delivered| <= t <= |s.sent| && target == Ptr(t)
    case Advanced(target) =>
      && s.readPtr == Ptr(|s.delivered| + 1)
      && exists t: nat :: |s.delivered| < t <= |s.sent| && target == Ptr(t)
  }

  ghost predicate Inv(s: State) {
    && |s.slots| == SIZE
    && |s.delivered| <= |s.sent| && s.delivered == s.sent[..|s.delivered|]
    && s.writePtr == Ptr(|s.sent|)
    && (forall i :: |s.delivered| <= i < |s.sent| ==> s.slots[i % SIZE] == s.sent[i])
    && ProducerInv(s) && ConsumerInv(s)
  }

  lemma PtrNext(n: nat)
    ensures Ptr(n + 1) == (Ptr(n) + 1) % SIZE == n % SIZE
  {
  }

  /** Equal indices mean equal counts, less than a lap apart. */
  lemma PtrInjective(m: nat, n: nat)
    requires m <= n < m + SIZE && Ptr(m) == Ptr(n)
    ensures m == n
  {
  }

  lemma PtrIsCyclic(m: nat, n: nat)
    requires 0 < m
    ensures Ptr(m) == Ptr(m + n) <==> n % SIZE == 0
  {
    var q, b, c := (m - 1) / SIZE + n / SIZE, (m - 1) % SIZE, n % SIZE;
    assert m - 1 + n == SIZE * q + (b + c);
    if b + c < SIZE { LastDigit(q, b + c); } else { LastDigit(q + 1, b + c - SIZE); }
  }

  lemma LastDigit(q: nat, r: nat)
    requires r < SIZE
    ensures (SIZE * q + r) % SIZE == r
  {
  }

  lemma StoreKeepsInv(s: State, t: State)
    requires Inv(s) && Bounded(s) && Next(s, t, Store)
    ensures Inv(t)
  {
    forall i | |t.delivered| <= i < |t.sent| ensures t.slots[i % SIZE] == t.sent[i] {
      SlotsDiffer(i, |s.sent|, SIZE);
    }
  }

  lemma PublishKeepsInv(s: State, t: State)
    requires Inv(s) && Next(s, t, Publish)
    ensures Inv(t)
  {
    PtrNext(|s.sent|);
    assert t.sent[..|t.delivered|] == s.sent[..|t.delivered|];
    assert t.slots[|s.sent| % SIZE] == t.sent[|s.sent|];
  }

  lemma TakeKeepsInv(s: State, t: State)
    requires Inv(s) && Next(s, t, Take)
    ensures Inv(t)
  {
    PtrNext(|s.delivered|);
    assert s.slots[|s.delivered| % SIZE] == s.sent[|s.delivered|];
    assert t.delivered == t.sent[..|t.delivered|];
  }

  lemma StepKeepsInv(s: State, t: State, step: Step)
    requires Inv(s) && Bounded(s) && Next(s, t, step)
    ensures Inv(t)
  {
    match step
    case Compute(_, _) => PtrNext(|s.sent|);
    case Store => StoreKeepsInv(s, t);
    case Publish => PublishKeepsInv(s, t);
    case Look => assert Ptr(|s.sent|) == s.writePtr;
    case Advance => AdvanceKeepsInv(s, t);
    case Take => TakeKeepsInv(s, t);
    case Leave =>
  }

  lemma AdvanceKeepsInv(s: State, t: State)
    requires Inv(s) && Next(s, t, Advance)
    ensures Inv(t)
  {
    PtrNext(|s.delivered|);
  }

  /** Every state of a bounded run satisfies the invariant. */
  lemma {:induction false} RunKeepsInv(states: seq<State>, steps: seq<Step>, i: nat)
    requires Run(states, steps) && i < |states|
    requires forall j :: 0 <= j < i ==> Bounded(states[j])
    ensures Inv(states[i])
    decreases i
  {
    if i > 0 {
      RunKeepsInv(states, steps, i - 1);
      assert Next(states[i - 1], states[i - 1 + 1], steps[i - 1]);
      StepKeepsInv(states[i - 1], states[i], steps[i - 1]);
    }
  }

  /** Main result. While fewer items wait than there are slots, what the client has delivered is a
      prefix of what was sent, each item once and whole, and it is everything exactly when the
      indices meet between two loads. */
  lemma DeliveredIsPrefixOfSent(states: seq<State>, steps: seq<Step>)
    requires Run(states, steps) && forall j :: 0 <= j < |states| ==> Bounded(states[j])
    ensures var s := states[|states| - 1];
      && s.delivered <= s.sent
      && (!s.consumer.Advanced? ==> (s.readPtr == s.writePtr <==> s.delivered == s.sent))
  {
    var s := states[|states| - 1];
    RunKeepsInv(states, steps, |states| - 1);
    if !s.consumer.Advanced? && s.readPtr == s.writePtr {
      PtrInjective(|s.delivered|, |s.sent|);
      assert s.sent[..|s.sent|] == s.sent;
    }
  }

  /** What is left of a pass. */
  ghost predicate PassEndsAt(s: State, t: nat) {
    && (s.consumer.Draining? || s.consumer.Advanced?) && s.consumer.target == Ptr(t)
    && |s.delivered| + (if s.consumer.Advanced? then 1 else 0) <= t <= |s.sent|
  }

  /** A pass begins with everything sent so far as its goal; every step of either thread keeps the
      goal, the client can always go on, each of its steps but the last brings it nearer, and the last
      one is taken exactly when the goal is reached. */
  lemma PassMakesProgress(s: State, t: State, step: Step, goal: nat)
    requires Inv(s) && Bounded(s) && Next(s, t, step)
    requires PassEndsAt(s, goal)
    ensures step.Leave? ==> |s.delivered| == goal && t.delivered == s.sent[..goal]
    ensures !step.Leave? ==> PassEndsAt(t, goal)
    ensures step.Take? ==> |t.delivered| == |s.delivered| + 1 <= goal && t.delivered == s.sent[..|t.delivered|]
    ensures !step.Take? ==> t.delivered == s.delivered
    ensures s.consumer.Draining? ==> (s.readPtr == s.consumer.target <==> |s.delivered| == goal)
    ensures s.consumer.Advanced? ==> 0 <= s.readPtr < SIZE
  {
    if s.consumer.Draining? && s.readPtr == s.consumer.target {
      PtrInjective(|s.delivered|, goal);
    }
    StepKeepsInv(s, t, step);
  }

  predicate IsClientStep(step: Step) {
    step.Look? || step.Advance? || step.Take? || step.Leave?
  }

  /** Whatever the sending thread is doing, the client can take a step: it is never stuck. */
  lemma ClientCanGoOn(s: State)
    requires Inv(s)
    ensures exists step, t :: IsClientStep(step) && Next(s, t, step)
  {
    match s.consumer
    case Waiting =>
      assert IsClientStep(Look) && Next(s, s.(consumer := Draining(s.writePtr)), Look);
    case Draining(target) =>
      if s.readPtr == target {
        assert IsClientStep(Leave) && Next(s, s.(consumer := Waiting), Leave);
      } else {
        assert IsClientStep(Advance)
          && Next(s, s.(readPtr := (s.readPtr + 1) % SIZE, consumer := Advanced(target)), Advance);
      }
    case Advanced(target) =>
      PtrNext(|s.delivered|);
      assert IsClientStep(Take)
        && Next(s, s.(delivered := s.delivered + [s.slots[s.readPtr]], consumer := Draining(target)), Take);
  }

  lemma PassBegins(s: State, t: State)
    requires Inv(s) && Next(s, t, Look)
    ensures PassEndsAt(t, |s.sent|)
  {
  }

  /** During a pass of a bounded run the goal stays what it was when the pass began. */
  lemma {:induction false} GoalStays(states: seq<State>, steps: seq<Step>, i: nat, k: nat)
    requires Run(states, steps) && forall j :: 0 <= j < |states| ==> Bounded(states[j])
    requires i < k <= |steps| && steps[i].Look? && forall j :: i < j < k ==> !steps[j].Leave?
    ensures PassEndsAt(states[k], |states[i].sent|) && states[i].sent <= states[k].sent
    decreases k
  {
    var n := k - 1;
    RunKeepsInv(states, steps, n);
    assert Next(states[n], states[n + 1], steps[n]);
    if n == i {
      PassBegins(states[i], states[k]);
    } else {
      GoalStays(states, steps, i, n);
      PassMakesProgress(states[n], states[k], steps[n], |states[i].sent|);
    }
  }

  /** In a bounded run every pass that ends has delivered exactly what had been sent when it began,
      whatever was sent in the meantime. */
  lemma PassDeliversItsGoal(states: seq<State>, steps: seq<Step>, i: nat, k: nat)
    requires Run(states, steps) && forall j :: 0 <= j < |states| ==> Bounded(states[j])
    requires i < k < |steps| && steps[i].Look? && steps[k].Leave? && forall j :: i < j < k ==> !steps[j].Leave?
    ensures states[k + 1].delivered == states[i].sent
  {
    GoalStays(states, steps, i, k);
    RunKeepsInv(states, steps, k);
    assert Next(states[k], states[k + 1], steps[k]);
    PassMakesProgress(states[k], states[k + 1], steps[k], |states[i].sent|);
    assert states[k].sent[..|states[i].sent|] == states[i].sent;
  }

  // ----- the bound is needed

  /** Steps of the two threads, one after the other, lead from s to t. */
  ghost predicate Reaches(s: State, steps: seq<Step>, t: State)
    decreases |steps|
  {
    if |steps| == 0 then s == t
    else |s.slots| == SIZE && exists m :: Next(s, m, steps[0]) && Reaches(m, steps[1..], t)
  }

  lemma {:induction false} ReachesOnwards(s: State, a: seq<Step>, m: State, b: seq<Step>, t: State)
    requires Reaches(s, a, m) && Reaches(m, b, t)
    ensures Reaches(s, a + b, t)
    decreases |a|
  {
    if |a| == 0 {
      assert a + b == b;
    } else {
      var n :| Next(s, n, a[0]) && Reaches(n, a[1..], m);
      ReachesOnwards(n, a[1..], m, b, t);
      assert (a + b)[1..] == a[1..] + b;
    }
  }

  lemma ReachesInOne(s: State, step: Step, t: State)
    requires |s.slots| == SIZE && Next(s, t, step)
    ensures Reaches(s, [step], t)
  {
    assert [step][1..] == [] && Reaches(t, [], t);
  }

  /** One call of `send` with the client thread standing still. */
  function Sent(s: State, address: string, data: seq<byte>): (t: State)
    requires |s.slots| == SIZE
    ensures |t.slots| == SIZE
  {
    var slot, out := (s.writePtr + 1) % SIZE, Packed(address, data);
    s.(slots := s.slots[slot := out], writePtr := slot, sent := s.sent + [out])
  }

  lemma SentTakesThreeSteps(s: State, address: string, data: seq<byte>)
    requires |s.slots| == SIZE && s.producer.Resting?
    ensures var slot, out := (s.writePtr + 1) % SIZE, Packed(address, data);
      var a := s.(producer := Computed(slot, out));
      var b := a.(slots := a.slots[slot := out], producer := Filled(slot, out));
      Next(s, a, Compute(address, data)) && Next(a, b, Store) && Next(b, Sent(s, address, data), Publish)
  {
  }

  type Call = (string, seq<byte>)

  /** What a sequence of calls puts in the ring. */
  function Outputs(calls: seq<Call>): (r: seq<Output>)
    ensures |r| == |calls|
  {
    seq(|calls|, i requires 0 <= i < |calls| => Packed(calls[i].0, calls[i].1))
  }

  function SentAll(s: State, calls: seq<Call>): (t: State)
    requires |s.slots| == SIZE
    ensures |t.slots| == SIZE
  {
    if |calls| == 0 then s
    else
      var n := |calls| - 1;
      Sent(SentAll(s, calls[..n]), calls[n].0, calls[n].1)
  }

  /** The slots hold the last items sent, as far as there is room for them. */
  predicate HoldsLast(s: State, from: nat) {
    |s.slots| == SIZE && forall i :: from <= i < |s.sent| <= i + SIZE ==> s.slots[i % SIZE] == s.sent[i]
  }

  lemma {:induction false} SentAllInOrder(s: State, calls: seq<Call>)
    requires |s.slots| == SIZE && s.writePtr == Ptr(|s.sent|)
    ensures var t := SentAll(s, calls);
      && t.writePtr == Ptr(|t.sent|) && t.sent == s.sent + Outputs(calls) && HoldsLast(t, |s.sent|)
      && t.readPtr == s.readPtr && t.delivered == s.delivered && t.consumer == s.consumer && t.producer == s.producer
    decreases |calls|
  {
    hide Packed, Ptr;
    if 0 < |calls| {
      var n := |calls| - 1;
      SentAllInOrder(s, calls[..n]);
      var before, t := SentAll(s, calls[..n]), SentAll(s, calls);
      PtrNext(|before.sent|);
      assert Outputs(calls) == Outputs(calls[..n]) + [Packed(calls[n].0, calls[n].1)];
      forall i | |s.sent| <= i < |t.sent| <= i + SIZE ensures t.slots[i % SIZE] == t.sent[i] {
        if i < |before.sent| { SlotsDiffer(i, |before.sent|, SIZE); }
      }
    }
  }

  /** The steps of the sending thread: three a call. */
  function SenderSteps(calls: seq<Call>): (r: seq<Step>)
    ensures |r| == 3 * |calls|
  {
    if |calls| == 0 then []
    else
      var n := |calls| - 1;
      SenderSteps(calls[..n]) + [Compute(calls[n].0, calls[n].1), Store, Publish]
  }

  lemma {:induction false} SentAllIsReached(s: State, calls: seq<Call>)
    requires |s.slots| == SIZE && s.producer.Resting?
    ensures Reaches(s, SenderSteps(calls), SentAll(s, calls)) && SentAll(s, calls).producer.Resting?
    decreases |calls|
  {
    hide Reaches;
    if |calls| == 0 {
      ReachesNothing(s);
    } else {
      var n := |calls| - 1;
      SentAllIsReached(s, calls[..n]);
      SentIsReached(SentAll(s, calls[..n]), calls[n].0, calls[n].1);
      ReachesOnwards(s, SenderSteps(calls[..n]), SentAll(s, calls[..n]),
        [Compute(calls[n].0, calls[n].1), Store, Publish], SentAll(s, calls));
    }
  }

  lemma ReachesNothing(s: State)
    ensures Reaches(s, [], s)
  {
  }

  lemma SentIsReached(s: State, address: string, data: seq<byte>)
    requires |s.slots| == SIZE && s.producer.Resting?
    ensures Reaches(s, [Compute(address, data), Store, Publish], Sent(s, address, data))
    ensures Sent(s, address, data).producer.Resting?
  {
    hide Reaches;
    SentTakesThreeSteps(s, address, data);
    var slot, out := (s.writePtr + 1) % SIZE, Packed(address, data);
    var a := s.(producer := Computed(slot, out));
    var b := a.(slots := a.slots[slot := out], producer := Filled(slot, out));
    var t := Sent(s, address, data);
    ReachesInOne(s, Compute(address, data), a);
    ReachesInOne(a, Store, b);
    ReachesInOne(b, Publish, t);
    ReachesOnwards(a, [Store], b, [Publish], t);
    ReachesOnwards(s, [Compute(address, data)], a, [Store] + [Publish], t);
    assert [Compute(address, data)] + ([Store] + [Publish]) == [Compute(address, data), Store, Publish];
  }

  /** How many slots lie between the read index and where a pass ends. */
  function Ahead(readPtr: int, target: int): nat {
    if readPtr == target then 0
    else if readPtr < target then target - readPtr
    else if target < 0 then 0
    else (target - readPtr) % SIZE
  }

  predicate Indices(readPtr: int, target: int) {
    -1 <= readPtr < SIZE && -1 <= target < SIZE && (target == -1 ==> readPtr == -1)
  }

  /** What an undisturbed pass up to `target` loads from the slots. */
  function Handed(slots: seq<Output>, readPtr: int, target: int): seq<Output>
    requires |slots| == SIZE && Indices(readPtr, target)
    decreases Ahead(readPtr, target)
  {
    if readPtr == target then []
    else
      var next := (readPtr + 1) % SIZE;
      [slots[next]] + Handed(slots, next, target)
  }

  /** Each item of a pass takes two steps of the client. */
  lemma HandedTakesTwoSteps(s: State, target: int)
    requires |s.slots| == SIZE && Indices(s.readPtr, target) && s.consumer == Draining(target)
    ensures s.readPtr == target ==> Next(s, s.(consumer := Waiting), Leave)
    ensures s.readPtr != target ==>
      var next := (s.readPtr + 1) % SIZE;
      var a := s.(readPtr := next, consumer := Advanced(target));
      var b := s.(readPtr := next, delivered := s.delivered + [s.slots[next]]);
      && Next(s, a, Advance) && Next(a, b, Take) && Indices(next, target)
      && s.delivered + Handed(s.slots, s.readPtr, target) == b.delivered + Handed(b.slots, b.readPtr, target)
  {
  }

  /** The steps of the client that load k items. */
  function LoadSteps(k: nat): (r: seq<Step>)
    ensures |r| == 2 * k
  {
    if k == 0 then [] else [Advance, Take] + LoadSteps(k - 1)
  }

  /** The client's own steps hand over exactly these items and end at the target. */
  lemma {:induction false} HandedIsReached(s: State, target: int)
    requires |s.slots| == SIZE && Indices(s.readPtr, target) && s.consumer == Draining(target)
    ensures var handed := Handed(s.slots, s.readPtr, target);
      Reaches(s, LoadSteps(|handed|), s.(readPtr := target, delivered := s.delivered + handed))
    decreases Ahead(s.readPtr, target)
  {
    hide Reaches, Ahead;
    HandedStep(s.slots, s.readPtr, target);
    if s.readPtr == target {
      ReachesNothing(s);
      assert s.delivered + [] == s.delivered;
    } else {
      HandedTakesTwoSteps(s, target);
      var next := (s.readPtr + 1) % SIZE;
      var a := s.(readPtr := next, consumer := Advanced(target));
      var b := s.(readPtr := next, delivered := s.delivered + [s.slots[next]]);
      AheadFalls(s.readPtr, target);
      HandedIsReached(b, target);
      ReachesInOne(s, Advance, a);
      ReachesInOne(a, Take, b);
      ReachesOnwards(s, [Advance], a, [Take], b);
      var rest := Handed(b.slots, next, target);
      var t := s.(readPtr := target, delivered := s.delivered + Handed(s.slots, s.readPtr, target));
      assert b.delivered + rest == t.delivered;
      ReachesOnwards(s, [Advance] + [Take], b, LoadSteps(|rest|), t);
      assert [Advance] + [Take] + LoadSteps(|rest|) == LoadSteps(|rest| + 1);
    }
  }

  lemma AheadFalls(readPtr: int, target: int)
    requires Indices(readPtr, target) && readPtr != target
    ensures var next := (readPtr + 1) % SIZE;
      Indices(next, target) && Ahead(next, target) < Ahead(readPtr, target)
  {
  }

  /** A pass that begins less than a lap behind hands over the stream from there on. */
  lemma {:induction false} HandedIsStream(slots: seq<Output>, stream: seq<Output>, m: nat, n: nat)
    requires |slots| == SIZE && m <= n <= |stream| && n - m < SIZE + (if m == 0 then 1 else 0)
    requires forall i :: m <= i < n ==> slots[i % SIZE] == stream[i]
    ensures Indices(Ptr(m), Ptr(n)) && Handed(slots, Ptr(m), Ptr(n)) == stream[m..n]
    decreases n - m
  {
    hide Ahead;
    if m < n {
      PtrNext(m);
      if 0 < m && Ptr(m) == Ptr(n) { PtrInjective(m, n); }
      HandedIsStream(slots, stream, m + 1, n);
      assert stream[m..n] == [stream[m]] + stream[m + 1..n];
    }
  }

  /** How many of n items sent to a client that had caught up with `sent` items are handed over. */
  function Surviving(sent: nat, n: nat): (k: nat)
    ensures k <= n && k <= SIZE && (k == n <==> n < SIZE + (if sent == 0 then 1 else 0))
  {
    if sent == 0 && 0 < n then (n - 1) % SIZE + 1 else n % SIZE
  }

  /** What the next pass hands over after any calls to a client that had caught up. */
  lemma LastSlotsAreHanded(s: State, calls: seq<Call>)
    requires Inv(s) && s.producer.Resting? && s.consumer.Waiting? && s.delivered == s.sent
    ensures var t, k := SentAll(s, calls), Surviving(|s.sent|, |calls|);
      && t.sent == s.sent + Outputs(calls) && t.delivered == s.delivered && t.consumer == s.consumer
      && Indices(t.readPtr, t.writePtr)
      && Handed(t.slots, t.readPtr, t.writePtr) == Outputs(calls)[|calls| - k..]
  {
    hide Handed, SentAll, Ptr, Outputs, Surviving, Inv;
    CaughtUp(s);
    SentAllInOrder(s, calls);
    var t, n, k := SentAll(s, calls), |calls|, Surviving(|s.sent|, |calls|);
    SamePlace(|s.sent|, n);
    var m := |t.sent| - k;
    if |s.sent| == 0 && 0 < n {
      HandedFromStart(t.slots, t.sent, m);
    } else {
      HandedIsStream(t.slots, t.sent, m, |t.sent|);
    }
    assert t.sent[m..] == Outputs(calls)[n - k..];
  }

  /** Without the bound. From a state in which the client has caught up, the atomic steps of any calls
      and then of one pass of the client deliver exactly the last items, as many as are left after
      taking out whole laps. So the pass delivers all of them if and only if there are fewer than
      slots; only at the very start all slots may be used. */
  lemma OnlyTheLastArrive(s: State, calls: seq<Call>) returns (end: State)
    requires Inv(s) && s.producer.Resting? && s.consumer.Waiting? && s.delivered == s.sent
    ensures var k := Surviving(|s.sent|, |calls|);
      && Reaches(s, SenderSteps(calls) + [Look] + LoadSteps(k) + [Leave], end)
      && end.sent == s.sent + Outputs(calls)
      && end.delivered == s.delivered + Outputs(calls)[|calls| - k..]
      && end.producer.Resting? && end.consumer.Waiting? && end.readPtr == end.writePtr
    ensures end.delivered == end.sent <==> |calls| < if s.sent == [] then 101 else 100
  {
    hide Handed, SentAll, Outputs, Surviving, Inv, Reaches, SenderSteps, LoadSteps;
    LastSlotsAreHanded(s, calls);
    CaughtUp(s);
    var t, k := SentAll(s, calls), Surviving(|s.sent|, |calls|);
    SentAllIsReached(s, calls);
    var u := t.(consumer := Draining(t.writePtr));
    ReachesInOne(t, Look, u);
    HandedIsReached(u, t.writePtr);
    var handed := Handed(t.slots, t.readPtr, t.writePtr);
    var v := u.(readPtr := t.writePtr, delivered := t.delivered + handed);
    end := v.(consumer := Waiting);
    ReachesInOne(v, Leave, end);
    ReachesOnwards(s, SenderSteps(calls), t, [Look], u);
    ReachesOnwards(s, SenderSteps(calls) + [Look], u, LoadSteps(k), v);
    ReachesOnwards(s, SenderSteps(calls) + [Look] + LoadSteps(k), v, [Leave], end);
    assert s.sent + handed == s.sent + Outputs(calls) ==> |handed| == |calls|;
  }

  /** What is reached from the end of a run is the end of a run. */
  lemma {:induction false} ReachedByRun(states: seq<State>, steps: seq<Step>, more: seq<Step>, t: State)
      returns (all: seq<State>)
    requires Run(states, steps) && Reaches(states[|steps|], more, t)
    ensures Run(all, steps + more) && states <= all && all[|all| - 1] == t
    decreases |more|
  {
    if |more| == 0 {
      all := states;
      assert steps + [] == steps;
    } else {
      var m :| Next(states[|steps|], m, more[0]) && Reaches(m, more[1..], t);
      var longer, stepsMore := states + [m], steps + [more[0]];
      forall i | 0 <= i < |stepsMore| ensures Next(longer[i], longer[i + 1], stepsMore[i]) {
        if i < |steps| { assert Next(states[i], states[i + 1], steps[i]); }
      }
      all := ReachedByRun(longer, stepsMore, more[1..], t);
      assert stepsMore + more[1..] == steps + more;
    }
  }

  lemma CaughtUp(s: State)
    requires Inv(s) && s.consumer.Waiting? && s.delivered == s.sent
    ensures |s.slots| == SIZE && s.writePtr == Ptr(|s.sent|) == s.readPtr
  {
  }

  /** Before anything was delivered the first slot comes next, as it does after a whole lap. */
  lemma HandedFromStart(slots: seq<Output>, stream: seq<Output>, m: nat)
    requires |slots| == SIZE && m % SIZE == 0 && m < |stream| <= m + SIZE
    requires forall i :: m <= i < |stream| ==> slots[i % SIZE] == stream[i]
    ensures Indices(Ptr(0), Ptr(|stream|)) && Handed(slots, Ptr(0), Ptr(|stream|)) == stream[m..]
  {
    HandedIsStream(slots, stream, m + 1, |stream|);
    PtrNext(m);
    assert stream[m..] == [stream[m]] + stream[m + 1..];
  }

  /** Whole laps leave the read index where it is. */
  lemma SamePlace(sent: nat, n: nat)
    ensures 0 < sent ==> Ptr(sent) == Ptr(sent + n - Surviving(sent, n)) && Surviving(sent, n) < SIZE
    ensures sent == 0 && 0 < n ==> (n - Surviving(sent, n)) % SIZE == 0 && 0 < Surviving(sent, n)
  {
    if 0 < sent {
      PtrIsCyclic(sent, n - Surviving(sent, n));
    }
  }

  /** In particular whole laps of items are not seen at all: the pass leaves at once. */
  lemma WholeLapsAreInvisible(s: State, calls: seq<Call>)
    requires Inv(s) && s.producer.Resting? && s.consumer.Waiting? && s.delivered == s.sent && 0 < |s.sent|
    ensures var t := SentAll(s, calls);
      var u := t.(consumer := Draining(t.writePtr));
      && Next(t, u, Look) && |t.sent| - |t.delivered| == |calls|
      && (Next(u, u.(consumer := Waiting), Leave) <==> |calls| % SIZE == 0)
  {
    hide Ptr, SentAll;
    SentAllInOrder(s, calls);
    PtrIsCyclic(|s.sent|, |calls|);
  }

  // ----- the two threads' code, each running alone

  class WsServer {
    const outputs: array<Output>
    var outputs_writePtr: int
    var outputs_readPtr: int
    ghost var sent: seq<Output>
    ghost var delivered: seq<Output>

    constructor ()
      ensures fresh(outputs) && Init(Abstract())
    {
      outputs := new Output[SIZE](_ => Output("", []));
      outputs_writePtr, outputs_readPtr := -1, -1;
      sent, delivered := [], [];
    }

    /** The state seen between calls of `send` and passes of the client. */
    ghost function Abstract(): State
      reads this, outputs
    {
      State(outputs[..], outputs_writePtr, outputs_readPtr, Resting, Waiting, sent, delivered)
    }

    method Send(address: string, data: seq<byte>)
      requires outputs.Length == SIZE
      modifies this`outputs_writePtr, this`sent, outputs
      ensures Abstract() == Sent(old(Abstract()), address, data)
    {
      var size := |data|;
      if size > MAX_DATA {
        size := MAX_DATA;
      }
      var out := Output(address, data[..size]);
      assert out == Packed(address, data);
      var writePtr := (outputs_writePtr + 1) % SIZE;
      outputs[writePtr] := out;
      outputs_writePtr := writePtr;
      sent := sent + [out];
    }

    /** One pass of client_func, undisturbed: it loads the slots up to the write index, which is
        everything that is waiting, in order, as long as fewer items wait than there are slots. */
    method ClientPass() returns (taken: seq<Output>)
      requires outputs.Length == SIZE && Indices(outputs_readPtr, outputs_writePtr)
      modifies this`outputs_readPtr, this`delivered
      ensures taken == Handed(outputs[..], old(outputs_readPtr), outputs_writePtr)
      ensures delivered == old(delivered) + taken && outputs_readPtr == outputs_writePtr
      ensures old(Inv(Abstract()) && Bounded(Abstract())) ==>
        taken == sent[|old(delivered)|..] && delivered == sent && Inv(Abstract())
    {
      hide Inv, Ahead, Handed;
      ghost var before, slots := Abstract(), outputs[..];
      var writePtr := outputs_writePtr;
      HandedStep(slots, writePtr, writePtr);
      taken := [];
      while outputs_readPtr != writePtr
        invariant Indices(outputs_readPtr, writePtr) && delivered == old(delivered) + taken
        invariant taken + Handed(slots, outputs_readPtr, writePtr) == Handed(slots, old(outputs_readPtr), writePtr)
        decreases Ahead(outputs_readPtr, writePtr)
      {
        AheadFalls(outputs_readPtr, writePtr);
        HandedStep(slots, outputs_readPtr, writePtr);
        outputs_readPtr := (outputs_readPtr + 1) % SIZE;
        var output := outputs[outputs_readPtr];
        taken := taken + [output];
        delivered := delivered + [output];
      }
      if Inv(before) && Bounded(before) {
        PassDelivers(before);
      }
    }
  }

  lemma HandedStep(slots: seq<Output>, readPtr: int, target: int)
    requires |slots| == SIZE && Indices(readPtr, target)
    ensures readPtr == target ==> Handed(slots, readPtr, target) == []
    ensures readPtr != target ==>
      var next := (readPtr + 1) % SIZE;
      Indices(next, target) && Handed(slots, readPtr, target) == [slots[next]] + Handed(slots, next, target)
  {
  }

  /** A whole pass in a bounded state. */
  lemma PassDelivers(s: State)
    requires Inv(s) && Bounded(s) && s.consumer.Waiting?
    ensures Indices(s.readPtr, s.writePtr)
    ensures var handed := Handed(s.slots, s.readPtr, s.writePtr);
      && handed == s.sent[|s.delivered|..] && s.delivered + handed == s.sent
      && Inv(s.(readPtr := s.writePtr, delivered := s.delivered + handed))
  {
    hide Handed, Ptr;
    HandedIsStream(s.slots, s.sent, |s.delivered|, |s.sent|);
    assert s.sent == s.sent[..|s.delivered|] + s.sent[|s.delivered|..];
    assert s.sent == s.sent[..|s.sent|];
  }
}
