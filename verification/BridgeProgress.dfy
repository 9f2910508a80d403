/** Progress of the bridge, in every run: who can step when, a measure every step of the blocked thread
    lowers, and what becomes of round trips whose bridge has stopped for good. */
module BridgeProgress {
  import opened Text
  import opened Protocol
  import opened SharedBridge
  import opened BridgeSafety
  import opened BridgeDelivery

  // --- wake-ups ------------------------------------------------------------

  /** The shim sleeps on STATE only while STATE keeps it waiting, or a notify is on its way. */
  ghost predicate ShimWakeOk(s: State) {
    s.shim.Blocked? ==> s.mem.state == IDLE || s.bridge.BNotify? || s.bridge.Dead?
  }

  /** The bridge sleeps on STATE only while STATE keeps it waiting, or a notify is on its way. */
  ghost predicate BridgeWakeOk(s: State) {
    s.bridge.BBlocked? ==> s.mem.state != IDLE || s.shim.Notify?
  }

  /** Both threads sleep, and only the clock can wake them. */
  predicate Asleep(s: State) {
    s.shim.Blocked? && s.now < s.shim.until && s.bridge.BBlocked? && s.now < s.bridge.until
  }

  /** Some thread, or the bridge's event loop, has a step to take without waiting for the clock. */
  predicate SomeoneCanStep(c: Config, s: State) {
    Apply(c, s, ShimStep).Some? || Apply(c, s, BridgeStep).Some? || Apply(c, s, Take).Some? || Apply(c, s, Settle(0)).Some?
  }

  lemma ShimEffect(c: Config, s: State, s': State)
    requires ShimApply(c, s) == Some(s')
    ensures s'.shim.Blocked? ==> s.shim.Wait? && s'.mem.state == IDLE
    ensures s'.mem.state == s.mem.state || (s'.mem.state == IDLE && (s.shim.Arm? || s.shim.Release?))
    ensures s.shim.Release? ==> s'.shim.Notify?
    ensures s'.bridge.BBlocked? ==> s.bridge.BBlocked? && !s.shim.Notify?
  {
    hide Concat, HasMore, HasMeta, ErrorText, Min;
    match s.shim
    case Act(_, _, _) =>
    case Copy(_, _, _, _) =>
    case Release(_, _, _) =>
    case Notify(_, _, _) =>
    case Assemble =>
    case Wait(_) =>
    case Arm =>
    case Post =>
    case Check =>
    case _ =>
  }

  lemma BridgeWakes(c: Config, s: State, s': State)
    requires |s.mem.data| == c.cap && BridgeOk(c, s) && BridgeApply(c, s) == Some(s')
    ensures ShimWakeOk(s) ==> ShimWakeOk(s')
    ensures BridgeWakeOk(s) ==> BridgeWakeOk(s')
  {
    hide BodyOf;
  }

  lemma StepWakes(c: Config, s: State, a: Action, s': State)
    requires Inv(c, s) && Apply(c, s, a) == Some(s')
    ensures ShimWakeOk(s) ==> ShimWakeOk(s')
    ensures BridgeWakeOk(s) && !(a.ShimStep? && s.shim.Arm?) ==> BridgeWakeOk(s')
  {
    hide ShimApply, BridgeApply, ReadyOk, QueueOk, ShimOk;
    match a
    case ShimStep => ShimEffect(c, s, s');
    case BridgeStep => BridgeWakes(c, s, s');
    case _ =>
  }

  lemma {:induction false} RunWakes(c: Config, s: State, acts: seq<Action>, s': State)
    requires Inv(c, s) && ShimWakeOk(s) && Run(c, s, acts) == Some(s')
    ensures Inv(c, s') && ShimWakeOk(s')
    decreases |acts|
  {
    hide Inv, Apply, ShimWakeOk;
    if |acts| == 0 {
    } else {
      var s1 := Apply(c, s, acts[0]).value;
      StepKeeps(c, s, acts[0], s1);
      StepWakes(c, s, acts[0], s1);
      RunWakes(c, s1, acts[1..], s');
    }
  }

  // --- what is left --------------------------------------------------------

  /** The frames requests in a list will be answered with. */
  function Count(c: Config, queue: seq<nat>): nat
    requires c.cap >= 1
  {
    if |queue| == 0 then 0 else |Frames(c, queue[0])| + Count(c, queue[1..])
  }

  lemma {:induction false} CountWithout(c: Config, queue: seq<nat>, i: nat)
    requires c.cap >= 1 && i < |queue|
    ensures Count(c, queue) == |Frames(c, queue[i])| + Count(c, queue[..i] + queue[i + 1..])
  {
    hide Frames;
    if i > 0 {
      CountWithout(c, queue[1..], i - 1);
      var rest := queue[..i] + queue[i + 1..];
      assert rest[0] == queue[0] && rest[1..] == queue[1..][..i - 1] + queue[1..][i..];
    } else {
      assert queue[..0] + queue[1..] == queue[1..];
    }
  }

  /** Every frame still to come, of whatever request: in the slot, half-way, or for one still queued. */
  function Left(c: Config, s: State): nat
    requires c.cap >= 1
  {
    if s.bridge.Dead? then |Slot(s.mem)| else |Owing(c, s)| + Count(c, Queued(s))
  }

  /** No deadlock, exactly: in every reachable unfinished round trip whose bridge lives and has anything
      to say, somebody can step unless both threads are asleep on STATE. */
  lemma NoDeadlock(c: Config, clock: nat, acts: seq<Action>, s: State)
    requires Lawful(c) && Run(c, Init(c, clock), acts) == Some(s)
    requires InTrip(s.shim) && !s.bridge.Dead? && Left(c, s) > 0
    ensures SomeoneCanStep(c, s) <==> !Asleep(s)
  {
    InvInit(c, clock);
    RunWakes(c, Init(c, clock), acts, s);
    hide Inv, ShimWakeOk, Left;
    if s.shim.Blocked? { IdleCanTake(c, s); }
    ShimStepsAwake(c, s);
    BridgeStepsAwake(c, s);
  }

  lemma ShimStepsAwake(c: Config, s: State)
    requires Inv(c, s) && InTrip(s.shim)
    ensures ShimApply(c, s).None? <==> s.shim.Blocked? && s.now < s.shim.until
  {
    hide Slot, BridgeOk, QueueOk, ReadyOk;
  }

  lemma BridgeStepsAwake(c: Config, s: State)
    requires !s.bridge.Dead?
    ensures BridgeApply(c, s).None? <==> s.bridge.Idle? || (s.bridge.BBlocked? && s.now < s.bridge.until)
  {
    hide BodyOf;
  }

  lemma IdleCanTake(c: Config, s: State)
    requires Inv(c, s) && ShimWakeOk(s) && s.shim.Blocked? && !s.bridge.Dead? && Left(c, s) > 0
    ensures s.bridge.Idle? ==> |s.inbox| > 0 || |s.awaiting| > 0
  {
    hide Pending, Frames, BridgeOk, ShimOk, QueueOk, ReadyOk;
    if s.bridge.Idle? {
      IdleOwesNothing(c);
      assert Slot(s.mem) == [];
      assert Queued(s) != [];
    }
  }

  lemma IdleOwesNothing(c: Config)
    requires c.cap >= 1
    ensures Pending(c, Idle) == []
  {}

  /** ... and that happens only in a round trip armed while the bridge was asleep: the store of IDLE that
      arms it notifies nobody. */
  lemma NeverAsleep(c: Config, clock: nat, before: seq<Action>, s0: State, s1: State, acts: seq<Action>, s: State)
    requires Lawful(c) && Run(c, Init(c, clock), before) == Some(s0)
    requires s0.shim.Arm? && !s0.bridge.BBlocked? && ShimApply(c, s0) == Some(s1)
    requires Run(c, s1, acts) == Some(s) && s.log == s0.log
    ensures !Asleep(s)
  {
    InvInit(c, clock);
    RunWakes(c, Init(c, clock), before, s0);
    assert Apply(c, s0, ShimStep) == Some(s1);
    StepKeeps(c, s0, ShimStep, s1);
    StepWakes(c, s0, ShimStep, s1);
    TripStaysAwake(c, s1, acts, s);
  }

  lemma {:induction false} TripStaysAwake(c: Config, s: State, acts: seq<Action>, s': State)
    requires Inv(c, s) && ShimWakeOk(s) && BridgeWakeOk(s) && (InTrip(s.shim) || s.shim.Post?)
    requires Run(c, s, acts) == Some(s') && s'.log == s.log
    ensures !Asleep(s')
    decreases |acts|
  {
    if |acts| == 0 {
    } else {
      hide Inv, Apply, ShimWakeOk, BridgeWakeOk, InTrip, Asleep;
      var s1 := Apply(c, s, acts[0]).value;
      StepKeeps(c, s, acts[0], s1);
      StepWakes(c, s, acts[0], s1);
      StepGrowsLog(c, s, acts[0], s1);
      LogOnlyGrows(c, s1, acts[1..], s');
      TripGoesOn(c, s, acts[0], s1);
      TripStaysAwake(c, s1, acts[1..], s');
    }
  }

  lemma TripGoesOn(c: Config, s: State, a: Action, s': State)
    requires (InTrip(s.shim) || s.shim.Post?) && Apply(c, s, a) == Some(s') && |s'.log| <= |s.log|
    ensures !s.shim.Arm? && (InTrip(s'.shim) || s'.shim.Post?)
  {
    hide ShimApply, BridgeApply;
    match a
    case ShimStep => ShimStaysOrEnds(c, s, s');
    case BridgeStep => BridgeEffect(c, s, s');
    case _ =>
  }

  lemma ShimStaysOrEnds(c: Config, s: State, s': State)
    requires (InTrip(s.shim) || s.shim.Post?) && ShimApply(c, s) == Some(s')
    ensures (InTrip(s'.shim) && s'.log == s.log) || (s'.shim.Outside? && |s'.log| == |s.log| + 1)
  {
    hide Concat, HasMore, HasMeta, ErrorText, Min;
    match s.shim
    case Act(_, _, _) =>
    case Assemble =>
    case Check =>
    case _ =>
  }

  // --- the measure ---------------------------------------------------------

  function Less(a: nat, b: nat): nat { if a < b then b - a else 0 }

  /** Notifies on STATE the bridge will still send. */
  function Notifies(c: Config, s: State): nat
    requires c.cap >= 1
  {
    if s.bridge.Dead? then 0
    else |Pending(c, s.bridge)| + Count(c, Queued(s)) + if s.bridge.BNotify? then 1 else 0
  }

  /** Within one turn of the loop: steps left before the thread waits or acts, and time left. */
  function Turn(c: Config, s: State): int {
    var left, a, full := 4 * Less(s.now, s.deadline), c.cap + 20, s.mem.state != IDLE;
    match s.shim
    case SetDeadline => 4 * (c.budget + GRACE_MS) + a + 6
    case Poll => left + a + if full then 2 else 5
    case Check => left + a + 4
    case Wait(seen) => 4 * Less(seen, s.deadline) + a + 3
    case Blocked(until) => 4 * Less(until, s.deadline) + a + 6
    case LoadState => left + a + 1
    case LoadFlags(_) => left + a
    case LoadLen(_, _) => left + a - 1
    case Copy(_, _, _, payload) => left + a - 2 - |payload|
    case Release(_, _, _) => left + 10
    case Notify(_, _, _) => left + a + 8
    case Act(_, _, _) => left + a + 7
    case Assemble => left + 1
    case _ => 0
  }

  /** Frames left, notifies left, and the turn: what the blocked thread still has before it. A notify
      can cut one capped wait short, which is worth up to four times 1000. */
  function Measure(c: Config, s: State): int
    requires Lawful(c)
  {
    Left(c, s) * (c.cap + 20) + Notifies(c, s) * 4001 + Turn(c, s)
  }

  lemma MeasureIsNat(c: Config, s: State)
    requires Inv(c, s) && InTrip(s.shim)
    ensures Measure(c, s) >= 0
  {
    hide Left, Notifies, Turn, BridgeOk, ReadyOk, QueueOk;
    ProductIsNat(Left(c, s), c.cap + 20);
    TurnIsNat(c, s);
  }

  lemma ProductIsNat(a: nat, b: nat)
    ensures a * b >= 0
  {}

  lemma TurnIsNat(c: Config, s: State)
    requires |s.mem.data| == c.cap && ShimOk(c, s)
    ensures Turn(c, s) >= 0
  {
    hide Slot;
  }

  /** The release of a chunk is what the first term pays for. */
  lemma ReleaseLowers(c: Config, s: State, s': State)
    requires Inv(c, s) && s.shim.Release? && ShimApply(c, s) == Some(s')
    ensures Measure(c, s') < Measure(c, s)
  {
    hide Pending, Count, BridgeOk, ReadyOk, QueueOk;
    var n, w := Left(c, s), c.cap + 20;
    QueueSame(s, s');
    assert |Slot(s.mem)| == 1 && Slot(s'.mem) == [];
    assert Left(c, s') == n - 1;
    assert (n - 1) * w == n * w - w;
    assert Notifies(c, s') == Notifies(c, s);
    assert Turn(c, s') == Turn(c, s) + w - 2;
  }

  lemma TurnLowers(c: Config, s: State, s': State)
    requires |s.mem.data| == c.cap && ShimOk(c, s) && InTrip(s.shim) && !s.shim.Release?
    requires ShimApply(c, s) == Some(s') && InTrip(s'.shim)
    ensures Turn(c, s') < Turn(c, s)
  {
    hide Slot;
    if s.shim.Wait? || s.shim.Blocked? || s.shim.Check? || s.shim.Poll? || s.shim.SetDeadline? {
      WaitLowers(c, s, s');
    } else {
      ReadLowers(c, s, s');
    }
  }

  lemma WaitLowers(c: Config, s: State, s': State)
    requires |s.mem.data| == c.cap && ShimOk(c, s) && ShimApply(c, s) == Some(s') && InTrip(s'.shim)
    requires s.shim.Wait? || s.shim.Blocked? || s.shim.Check? || s.shim.Poll? || s.shim.SetDeadline?
    ensures Turn(c, s') < Turn(c, s)
  {
    hide Slot;
  }

  lemma ReadLowers(c: Config, s: State, s': State)
    requires |s.mem.data| == c.cap && ShimOk(c, s) && ShimApply(c, s) == Some(s') && InTrip(s'.shim) && InTrip(s.shim)
    requires !s.shim.Wait? && !s.shim.Blocked? && !s.shim.Check? && !s.shim.Poll? && !s.shim.SetDeadline? && !s.shim.Release?
    ensures Turn(c, s') < Turn(c, s)
  {
    hide Concat, HasMore, HasMeta, ErrorText, Slot;
  }

  lemma ShimLeaves(c: Config, s: State, s': State)
    requires InTrip(s.shim) && !s.shim.Release? && ShimApply(c, s) == Some(s') && InTrip(s'.shim)
    ensures s'.mem == s.mem && s'.awaiting == s.awaiting && s'.inbox == s.inbox
    ensures s'.bridge == s.bridge || (s.bridge.BBlocked? && s'.bridge == BPoll(s.bridge.w))
  {}

  lemma LeavesAll(c: Config, s: State, s': State)
    requires c.cap >= 1 && s'.mem == s.mem && s'.awaiting == s.awaiting && s'.inbox == s.inbox
    requires s'.bridge == s.bridge || (s.bridge.BBlocked? && s'.bridge == BPoll(s.bridge.w))
    ensures Left(c, s') == Left(c, s) && Notifies(c, s') == Notifies(c, s)
  {
    hide WriteFrames, Slot, Count;
    QueueSame(s, s');
  }

  /** Every step of the blocked thread lowers the measure or ends the round trip. */
  lemma ShimLowers(c: Config, s: State, s': State)
    requires Inv(c, s) && InTrip(s.shim) && ShimApply(c, s) == Some(s')
    ensures (InTrip(s'.shim) && Measure(c, s') < Measure(c, s) && s'.log == s.log) ||
            (s'.shim.Outside? && |s'.log| == |s.log| + 1)
  {
    hide ShimApply, Left, Notifies, Turn, BridgeOk, ReadyOk, QueueOk, ShimOk;
    ShimStaysOrEnds(c, s, s');
    if s.shim.Release? {
      ReleaseLowers(c, s, s');
    } else if InTrip(s'.shim) {
      TurnLowers(c, s, s');
      ShimLeaves(c, s, s');
      LeavesAll(c, s, s');
    }
  }

  /** A bridge step leaves no more than before, and a notify less. */
  lemma BridgeOwesLess(c: Config, s: State, s': State)
    requires Inv(c, s) && BridgeApply(c, s) == Some(s')
    ensures Left(c, s') == Left(c, s)
    ensures Notifies(c, s') == Notifies(c, s) - (if s.bridge.BNotify? then 1 else 0)
  {
    hide Pending, Count, Slot, ShimOk, ReadyOk, QueueOk, BodyOf;
    BridgeEffect(c, s, s');
    QueueSame(s, s');
    BridgeOwesTheSame(c, s, s');
    match s.bridge
    case BNext(_) =>
      NextEffect(c, s, s');
      NextOwesTheSame(c, s, s');
    case BCopy(_, _) => CopyOwesTheSame(c, s, s');
    case BPublish(_) => PublishFills(c, s, s');
    case _ => WaitOwesTheSame(c, s, s');
  }

  lemma PublishFills(c: Config, s: State, s': State)
    requires Inv(c, s) && s.bridge.BPublish? && BridgeApply(c, s) == Some(s')
    ensures |Pending(c, s'.bridge)| + 1 == |Pending(c, s.bridge)| && s'.bridge.BNotify?
  {
    hide ThenFrames;
  }

  lemma BridgeNotRaises(c: Config, s: State, s': State)
    requires Inv(c, s) && InTrip(s.shim) && BridgeApply(c, s) == Some(s')
    ensures InTrip(s'.shim) && Measure(c, s') <= Measure(c, s) && s'.log == s.log
  {
    hide Left, Notifies, ReadyOk, QueueOk, Slot, BridgeApply, BridgeOk;
    BridgeOwesLess(c, s, s');
    BridgeEffect(c, s, s');
    assert (s'.bridge.Dead? <==> s.bridge.Dead?);
    NotifyPays(c, s, s');
  }

  lemma NotifyPays(c: Config, s: State, s': State)
    requires BridgeApply(c, s) == Some(s') && InTrip(s.shim) && |s.mem.data| == c.cap && ShimOk(c, s) && BridgeOk(c, s)
    ensures Turn(c, s') <= Turn(c, s) + if s.bridge.BNotify? then 4001 else 0
  {
    hide BridgeApply, Slot;
    BridgeEffect(c, s, s');
    if s.bridge.BPublish? { assert s.mem.state == IDLE; }
  }

  lemma SettleOwesTheSame(c: Config, s: State, i: nat, s': State)
    requires Inv(c, s) && Apply(c, s, Settle(i)) == Some(s')
    ensures Left(c, s') == Left(c, s) && Notifies(c, s') == Notifies(c, s)
    ensures s' == s.(awaiting := s'.awaiting, bridge := s'.bridge)
  {
    hide Frames, Slot, Count, WriteFrames, ShimOk, BridgeOk, ReadyOk, QueueOk;
    assert Queued(s') == Queued(s)[..i] + Queued(s)[i + 1..];
    assert Queued(s)[i] == s.awaiting[i];
    CountWithout(c, Queued(s), i);
    OpeningOwes(c, s.awaiting[i]);
  }

  lemma OutsideLeaves(c: Config, s: State, a: Action, s': State)
    requires c.cap >= 1 && (a.Take? || a.Tick? || a.Crash?) && Apply(c, s, a) == Some(s')
    ensures Left(c, s') <= Left(c, s) && Notifies(c, s') <= Notifies(c, s)
  {
    hide Pending, Slot, Count;
    assert Queued(s') == Queued(s);
  }

  lemma OutsideNotRaises(c: Config, s: State, a: Action, s': State)
    requires Inv(c, s) && InTrip(s.shim) && (a.Take? || a.Tick? || a.Crash? || a.LoadError? || a.Settle?)
    requires Apply(c, s, a) == Some(s')
    ensures InTrip(s'.shim) && Measure(c, s') <= Measure(c, s) && s'.log == s.log
  {
    hide Left, Notifies, Slot, ReadyOk, QueueOk, ShimOk, BridgeOk;
    if a.Settle? { SettleOwesTheSame(c, s, a.i, s'); } else { OutsideLeaves(c, s, a, s'); }
    ProductGrows(Left(c, s'), Left(c, s), c.cap + 20);
  }

  lemma ProductGrows(a: nat, b: nat, k: nat)
    requires a <= b
    ensures a * k <= b * k
  {}

  /** No step of anyone else raises it: not the bridge, not the clock, not a crash. */
  lemma OthersNotRaise(c: Config, s: State, a: Action, s': State)
    requires Inv(c, s) && InTrip(s.shim) && !a.ShimStep? && Apply(c, s, a) == Some(s')
    ensures InTrip(s'.shim) && Measure(c, s') <= Measure(c, s) && s'.log == s.log
  {
    hide Inv, Measure, InTrip, BridgeApply;
    if a.BridgeStep? { BridgeNotRaises(c, s, s'); } else { OutsideNotRaises(c, s, a, s'); }
  }

  function ShimSteps(acts: seq<Action>): nat {
    if |acts| == 0 then 0 else (if acts[0].ShimStep? then 1 else 0) + ShimSteps(acts[1..])
  }

  /** Bounded waiting: in any round trip, also one behind an abandoned one, and however the other
      thread, the clock and a crash interleave, the blocked thread takes at most `Measure` steps
      before the round trip has ended. */
  lemma {:induction false} RoundTripIsBounded(c: Config, s: State, acts: seq<Action>, s': State)
    requires Inv(c, s) && InTrip(s.shim) && Run(c, s, acts) == Some(s')
    requires s'.log == s.log
    ensures ShimSteps(acts) <= Measure(c, s)
    decreases |acts|
  {
    hide Inv, Measure, ShimApply, BridgeApply, InTrip;
    InvIsLawful(c, s);
    MeasureIsNat(c, s);
    if |acts| == 0 {
    } else {
      var s1 := Apply(c, s, acts[0]).value;
      StepKeeps(c, s, acts[0], s1);
      LogOnlyGrows(c, s1, acts[1..], s');
      if acts[0].ShimStep? { ShimLowers(c, s, s1); } else { OthersNotRaise(c, s, acts[0], s1); }
      RoundTripIsBounded(c, s1, acts[1..], s');
    }
  }

  /** The blocked thread is never stuck: at most one capped wait later it can step. */
  lemma ShimCanStep(c: Config, s: State) returns (ms: nat)
    requires Inv(c, s) && InTrip(s.shim)
    ensures ms <= WAIT_MS && Apply(c, s.(now := s.now + ms), ShimStep).Some?
  {
    hide Slot, ReadyOk, QueueOk, BridgeOk;
    ms := if s.shim.Blocked? then Less(s.now, s.shim.until) else 0;
  }

  // --- a bridge that stops for good ---------------------------------------

  /** Acting on this chunk ends the round trip. */
  predicate Ends(c: Config, f: Frame) {
    f.state == ERROR || if HasMeta(f.flags) then c.parse(f.bytes).None? else !HasMore(f.flags)
  }

  /** The bridge is gone, and the round trip under way, if there is one, has no chunk before it that
      could end it: neither in the slot nor in hand. */
  ghost predicate Doomed(c: Config, s: State) {
    s.bridge.Dead? &&
    (InTrip(s.shim) || s.shim.Post? ==>
       && !s.shim.Assemble?
       && (forall i | 0 <= i < |Slot(s.mem)| :: !Ends(c, Slot(s.mem)[i]))
       && (InHand(s.shim) ==> !Ends(c, Frame(s.shim.payload, s.shim.fl, s.shim.st))))
  }

  /** For a round trip posted to a bridge that owed nothing, that is to say exactly: its last chunk was
      never published. */
  lemma DoomedMeansCutShort(c: Config, s: State)
    requires Lawful(c) && TripOk(c, s) && InTrip(s.shim) && s.bridge.Dead?
    ensures var f := Frames(c, Current(s)); Doomed(c, s) <==> f == [] || s.got + |Slot(s.mem)| < |f|
  {
    hide Frames, Taken, Pending, Slot;
    var t, f := s.trip - 1, Frames(c, s.trip - 1);
    assert |Slot(s.mem)| <= 1 by { SlotIsOne(s.mem); }
    forall i | 0 <= i < |f| ensures Ends(c, f[i]) <==> i == |f| - 1 {
      LastEnds(c, t, i);
    }
    if |Slot(s.mem)| == 1 { assert Slot(s.mem)[0] == f[s.got..][0]; }
  }

  lemma SlotIsOne(m: Memory)
    ensures |Slot(m)| <= 1
  {}

  lemma LastEnds(c: Config, t: nat, i: nat)
    requires Lawful(c) && i < |Frames(c, t)|
    ensures Ends(c, Frames(c, t)[i]) <==> i == |Frames(c, t)| - 1
  {
    ShapeOf(c, t, i);
    if Fits(c, t) { AnswerShape(c, t); }
  }

  lemma DoomedShim(c: Config, s: State, s': State)
    requires Inv(c, s) && Doomed(c, s) && ShimApply(c, s) == Some(s')
    ensures Doomed(c, s') && (s'.log == s.log || s'.log == s.log + [Threw(NoAnswer)])
  {
    match s.shim
    case Release(_, _, _) => DoomedRelease(c, s, s');
    case Act(_, _, _) => DoomedAct(c, s, s');
    case _ => DoomedWaits(c, s, s');
  }

  lemma DoomedRelease(c: Config, s: State, s': State)
    requires Inv(c, s) && Doomed(c, s) && s.shim.Release? && ShimApply(c, s) == Some(s')
    ensures Doomed(c, s') && s'.log == s.log
  {
    hide ReadyOk, QueueOk, BridgeOk, Ends;
    assert Slot(s.mem) == [Frame(s.shim.payload, s.shim.fl, s.shim.st)];
    assert !Ends(c, Slot(s.mem)[0]);
  }

  lemma DoomedAct(c: Config, s: State, s': State)
    requires Doomed(c, s) && s.shim.Act? && ShimApply(c, s) == Some(s')
    ensures Doomed(c, s') && s'.log == s.log
  {
    hide HasMeta, HasMore, Concat, ErrorText, Slot;
    assert !Ends(c, Frame(s.shim.payload, s.shim.fl, s.shim.st));
  }

  lemma DoomedWaits(c: Config, s: State, s': State)
    requires Doomed(c, s) && !s.shim.Release? && !s.shim.Act? && ShimApply(c, s) == Some(s')
    ensures Doomed(c, s') && (s'.log == s.log || s'.log == s.log + [Threw(NoAnswer)])
  {
    hide Ends, Concat, Min;
    match s.shim
    case Arm => assert Slot(s'.mem) == [];
    case Check =>
    case _ =>
  }

  lemma DoomedStep(c: Config, s: State, a: Action, s': State)
    requires Inv(c, s) && Doomed(c, s) && Apply(c, s, a) == Some(s')
    ensures Doomed(c, s') && (s'.log == s.log || s'.log == s.log + [Threw(NoAnswer)])
  {
    hide Inv, ShimApply, Ends;
    if a.ShimStep? { DoomedShim(c, s, s'); }
  }

  lemma {:induction false} DoomedRun(c: Config, s: State, acts: seq<Action>, s': State)
    requires Inv(c, s) && Doomed(c, s) && Run(c, s, acts) == Some(s')
    ensures Doomed(c, s') && s.log <= s'.log
    ensures forall j | |s.log| <= j < |s'.log| :: s'.log[j] == Threw(NoAnswer)
    decreases |acts|
  {
    hide Inv, Doomed, Apply;
    if |acts| == 0 {
    } else {
      var s1 := Apply(c, s, acts[0]).value;
      StepKeeps(c, s, acts[0], s1);
      DoomedStep(c, s, acts[0], s1);
      DoomedRun(c, s1, acts[1..], s');
    }
  }

  /** If the bridge stops before the chunk that would end the round trip is out, the round trip never
      returns: not a short body, not an empty one. It and every later one ends at its deadline. */
  lemma DeadBridgeNeverAnswers(c: Config, clock: nat, before: seq<Action>, s: State, acts: seq<Action>, s': State)
    requires Lawful(c) && Run(c, Init(c, clock), before) == Some(s) && Doomed(c, s) && Run(c, s, acts) == Some(s')
    ensures forall j | |s.log| <= j < |s'.log| :: s'.log[j] == Threw(NoAnswer)
  {
    Reachable(c, clock, before, s);
    DoomedRun(c, s, acts, s');
  }

  /** Once the bridge is dead, every round trip begun after that, whatever went before, ends at its
      deadline. */
  lemma AfterDeathOnlyDeadlines(c: Config, clock: nat, before: seq<Action>, s: State, acts: seq<Action>, s': State)
    requires Lawful(c) && Run(c, Init(c, clock), before) == Some(s) && s.bridge.Dead? && Run(c, s, acts) == Some(s')
    ensures forall j | |s.log| < j < |s'.log| :: s'.log[j] == Threw(NoAnswer)
    ensures !InTrip(s.shim) && !s.shim.Post? && |s.log| < |s'.log| ==> s'.log[|s.log|] == Threw(NoAnswer)
    decreases |acts|
  {
    hide Inv, Apply, Run;
    Reachable(c, clock, before, s);
    if !InTrip(s.shim) && !s.shim.Post? {
      DoomedRun(c, s, acts, s');
    } else {
      FirstEndsThenDoomed(c, s, acts, s');
    }
  }

  lemma {:induction false} FirstEndsThenDoomed(c: Config, s: State, acts: seq<Action>, s': State)
    requires Inv(c, s) && s.bridge.Dead? && (InTrip(s.shim) || s.shim.Post?) && Run(c, s, acts) == Some(s')
    ensures forall j | |s.log| < j < |s'.log| :: s'.log[j] == Threw(NoAnswer)
    decreases |acts|
  {
    hide Inv, ShimApply, InTrip;
    if |acts| == 0 {
    } else {
      var s1 := Apply(c, s, acts[0]).value;
      StepKeeps(c, s, acts[0], s1);
      DeadStays(c, s, acts[0], s1);
      if s1.shim.Outside? {
        OutsideIsDoomed(c, s1);
        DoomedRun(c, s1, acts[1..], s');
      } else {
        FirstEndsThenDoomed(c, s1, acts[1..], s');
      }
    }
  }

  lemma OutsideIsDoomed(c: Config, s: State)
    requires s.bridge.Dead? && s.shim.Outside?
    ensures Doomed(c, s)
  {}

  lemma DeadStays(c: Config, s: State, a: Action, s': State)
    requires s.bridge.Dead? && (InTrip(s.shim) || s.shim.Post?) && Apply(c, s, a) == Some(s')
    ensures s'.bridge.Dead?
    ensures (InTrip(s'.shim) && s'.log == s.log) || (s'.shim.Post? && s'.log == s.log) ||
            (s'.shim.Outside? && |s'.log| == |s.log| + 1)
  {
    hide ShimApply;
    match a
    case ShimStep =>
      ShimStaysOrEnds(c, s, s');
      DeadIgnoresNotify(c, s, s');
    case _ =>
  }

  lemma DeadIgnoresNotify(c: Config, s: State, s': State)
    requires s.bridge.Dead? && ShimApply(c, s) == Some(s')
    ensures s'.bridge.Dead?
  {}

  /** ... and end it does: within `Measure` steps of the blocked thread. */
  lemma DeadBridgeEndsInError(c: Config, clock: nat, before: seq<Action>, s: State, acts: seq<Action>, s': State)
    requires Lawful(c) && Run(c, Init(c, clock), before) == Some(s) && Doomed(c, s) && Run(c, s, acts) == Some(s')
    requires InTrip(s.shim) && ShimSteps(acts) > Measure(c, s)
    ensures |s'.log| > |s.log| && s'.log[|s.log|] == Threw(NoAnswer)
  {
    hide Inv, Measure;
    Reachable(c, clock, before, s);
    DoomedRun(c, s, acts, s');
    if s'.log == s.log { RoundTripIsBounded(c, s, acts, s'); }
  }
}
