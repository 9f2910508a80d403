/** The wait for the bridge before a request: it lets a started bridge through at once, refuses one
    that failed, gives a silent one thirty seconds and no less, and sleeps meanwhile. */
module BridgeReady {
  import opened Text
  import opened Protocol
  import opened SharedBridge
  import opened BridgeSafety

  predicate InWait(p: ShimPc) {
    p.ReadyLoad? || p.ReadyCheck? || p.ReadyWait? || p.ReadyBlocked? || p.ReadyFinal?
  }

  /** Every state `acts` passes through from `s` on, but for the last, is one of that wait. */
  predicate Stays(c: Config, s: State, acts: seq<Action>)
    decreases |acts|
  {
    |acts| > 0 ==>
      InWait(s.shim) &&
      match Apply(c, s, acts[0])
      case None => false
      case Some(s') => Stays(c, s', acts[1..])
  }

  /** The wait gives up at `limit`. */
  predicate Until(p: ShimPc, limit: nat) {
    InWait(p) && !p.ReadyFinal? ==> p.limit == limit
  }

  lemma StepWaits(c: Config, s: State, a: Action, s': State, limit: nat)
    requires Inv(c, s) && InWait(s.shim) && Until(s.shim, limit) && Apply(c, s, a) == Some(s')
    ensures s'.trip == s.trip && s'.log == s.log && Until(s'.shim, limit)
    ensures InWait(s'.shim) || (s'.shim.Arm? && s'.mem.ready == READY_OK) ||
            (s'.shim.Outside? && (s'.mem.ready == READY_FAILED || s'.now > limit))
  {}

  lemma {:induction false} WaitRun(c: Config, s: State, acts: seq<Action>, s': State, limit: nat)
    requires Inv(c, s) && InWait(s.shim) && Until(s.shim, limit)
    requires Stays(c, s, acts) && Run(c, s, acts) == Some(s')
    ensures s'.trip == s.trip && s'.log == s.log
    ensures InWait(s'.shim) || (s'.shim.Arm? && s'.mem.ready == READY_OK) ||
            (s'.shim.Outside? && (s'.mem.ready == READY_FAILED || s'.now > limit))
    decreases |acts|
  {
    hide Inv, Apply;
    if |acts| > 0 {
      var s1 := Apply(c, s, acts[0]).value;
      StepKeeps(c, s, acts[0], s1);
      StepWaits(c, s, acts[0], s1, limit);
      if InWait(s1.shim) {
        WaitRun(c, s1, acts[1..], s', limit);
      } else {
        assert |acts| == 1;
      }
    }
  }

  /** A wait begun at `s0` posts nothing and ends in one of two ways: the request goes on, and READY
      is READY_OK; or it is refused, and either READY is READY_FAILED or more than thirty seconds
      have gone by since it began. */
  lemma NeverGivesUpEarly(c: Config, clock: nat, before: seq<Action>, s0: State, s1: State, acts: seq<Action>, s: State)
    requires Lawful(c) && Run(c, Init(c, clock), before) == Some(s0) && s0.shim.Outside? && !s0.bridgeError
    requires Apply(c, s0, ShimStep) == Some(s1) && Stays(c, s1, acts) && Run(c, s1, acts) == Some(s)
    ensures s.trip == s0.trip && s.log == s0.log
    ensures InWait(s.shim) || s.shim.Arm? || s.shim.Outside?
    ensures s.shim.Arm? ==> s.mem.ready == READY_OK
    ensures s.shim.Outside? ==> s.mem.ready == READY_FAILED || s.now > s0.now + 30000
  {
    Reachable(c, clock, before, s0);
    StepKeeps(c, s0, ShimStep, s1);
    WaitRun(c, s1, acts, s, s0.now + 30000);
  }

  // --- how long it can take ------------------------------------------------

  function Steps(n: nat): (r: seq<Action>)
    ensures |r| == n && forall i | 0 <= i < n :: r[i] == ShimStep
  {
    seq(n, _ => ShimStep)
  }

  lemma FirstStep(c: Config, s: State, n: nat)
    requires n > 0
    ensures Run(c, s, Steps(n)) ==
              match Apply(c, s, ShimStep) case None => None case Some(s') => Run(c, s', Steps(n - 1))
  {
    assert Steps(n)[1..] == Steps(n - 1);
  }

  /** Asleep, it wakes within a second. */
  predicate ShortNap(p: ShimPc, now: nat) {
    p.ReadyBlocked? ==> p.until <= now + 1000
  }

  lemma ShimNaps(c: Config, s: State, s': State)
    requires ShimApply(c, s) == Some(s')
    ensures ShortNap(s'.shim, s'.now)
  {}

  lemma BridgeLetsNap(c: Config, s: State, s': State)
    requires BridgeApply(c, s) == Some(s') && ShortNap(s.shim, s.now)
    ensures ShortNap(s'.shim, s'.now)
  {}

  lemma NapStep(c: Config, s: State, a: Action, s': State)
    requires Apply(c, s, a) == Some(s') && ShortNap(s.shim, s.now)
    ensures ShortNap(s'.shim, s'.now)
  {
    if a.ShimStep? { ShimNaps(c, s, s'); }
    if a.BridgeStep? { BridgeLetsNap(c, s, s'); }
    hide ShimApply, BridgeApply;
  }

  /** It never sleeps for more than a second. */
  lemma {:induction false} NapsASecond(c: Config, s: State, acts: seq<Action>, s': State)
    requires Run(c, s, acts) == Some(s') && ShortNap(s.shim, s.now)
    ensures ShortNap(s'.shim, s'.now)
    decreases |acts|
  {
    hide Apply;
    if |acts| > 0 {
      var s1 := Apply(c, s, acts[0]).value;
      NapStep(c, s, acts[0], s1);
      NapsASecond(c, s1, acts[1..], s');
    }
  }

  /** Once READY is set, at most six steps of the waiting thread, and no time at all unless it is
      asleep, either post its request or refuse it. */
  lemma ReadyIsSeen(c: Config, clock: nat, before: seq<Action>, s: State) returns (n: nat, s': State)
    requires Lawful(c) && Run(c, Init(c, clock), before) == Some(s) && InWait(s.shim)
    requires s.mem.ready != NOT_READY && !(s.shim.ReadyCheck? && s.now > s.shim.limit)
    ensures n <= 6
    ensures Run(c, if s.shim.ReadyBlocked? then s.(now := s.now + 1000) else s, Steps(n)) == Some(s')
    ensures s.mem.ready == READY_OK ==> s'.trip == s.trip + 1 && s'.inbox == s.inbox + [s.trip]
    ensures s.mem.ready == READY_FAILED ==> s'.shim.Outside? && s'.trip == s.trip && s'.inbox == s.inbox
    ensures s.mem.ready == READY_OK || s.mem.ready == READY_FAILED
  {
    Reachable(c, clock, before, s);
    NapsASecond(c, Init(c, clock), before, s);
    s' := if s.shim.ReadyBlocked? then s.(now := s.now + 1000) else s;
    n := Away(s.shim) + if s.mem.ready == READY_OK then 2 else 0;
    GoesThrough(c, s', n);
    s' := Run(c, s', Steps(n)).value;
  }

  /** How many steps of the thread bring it past the wait once READY is set. */
  function Away(p: ShimPc): nat {
    match p
    case ReadyFinal => 1
    case ReadyLoad(_) => 2
    case ReadyWait(_) => 3
    case ReadyBlocked(_, _) => 3
    case ReadyCheck(_) => 4
    case _ => 0
  }

  lemma {:induction false} GoesThrough(c: Config, s: State, n: nat)
    requires InWait(s.shim) && (s.mem.ready == READY_OK || s.mem.ready == READY_FAILED)
    requires s.shim.ReadyCheck? ==> s.now <= s.shim.limit
    requires s.shim.ReadyBlocked? ==> s.shim.until <= s.now
    requires n == Away(s.shim) + if s.mem.ready == READY_OK then 2 else 0
    ensures Run(c, s, Steps(n)) ==
              Some(if s.mem.ready == READY_FAILED then s.(shim := Outside)
                   else s.(mem := s.mem.(state := IDLE), inbox := s.inbox + [s.trip], trip := s.trip + 1,
                           meta := None, chunks := [], got := 0, shim := SetDeadline))
    decreases Away(s.shim)
  {
    hide Run, BridgeApply;
    FirstStep(c, s, n);
    var s1 := Apply(c, s, ShimStep).value;
    if s.shim.ReadyFinal? {
      if s.mem.ready == READY_OK {
        FirstStep(c, s1, 2);
        var s2 := Apply(c, s1, ShimStep).value;
        FirstStep(c, s2, 1);
        RunsNothing(c, Apply(c, s2, ShimStep).value);
      } else {
        RunsNothing(c, s1);
      }
    } else {
      GoesThrough(c, s1, n - 1);
    }
  }

  lemma RunsNothing(c: Config, s: State)
    ensures Run(c, s, Steps(0)) == Some(s)
  {}

  /** A silent bridge is given up: once its thirty seconds are over, four steps of the thread and one
      second of sleep end the call, with nothing posted. */
  lemma SilenceIsGivenUp(c: Config, clock: nat, before: seq<Action>, s: State) returns (acts: seq<Action>, s': State)
    requires Lawful(c) && Run(c, Init(c, clock), before) == Some(s)
    requires InWait(s.shim) && !s.shim.ReadyFinal? && s.mem.ready == NOT_READY && s.now > s.shim.limit
    ensures |acts| <= 5 && forall a | a in acts :: a == ShimStep || a == Tick(1000)
    ensures Run(c, s, acts) == Some(s')
    ensures s'.shim.Outside? && s'.trip == s.trip && s'.inbox == s.inbox && s'.log == s.log
  {
    Reachable(c, clock, before, s);
    NapsASecond(c, Init(c, clock), before, s);
    acts, s' := GivesUp(c, s);
  }

  lemma {:induction false} GivesUp(c: Config, s: State) returns (acts: seq<Action>, s': State)
    requires InWait(s.shim) && !s.shim.ReadyFinal? && s.mem.ready == NOT_READY && s.now > s.shim.limit
    requires s.shim.ReadyBlocked? ==> s.shim.until <= s.now + 1000
    ensures |acts| <=
              match s.shim case ReadyCheck(_) => 1 case ReadyLoad(_) => 2 case ReadyBlocked(_, _) => 4 case _ => 5
    ensures forall a | a in acts :: a == ShimStep || a == Tick(1000)
    ensures Run(c, s, acts) == Some(s')
    ensures s'.shim.Outside? && s'.trip == s.trip && s'.inbox == s.inbox && s'.log == s.log
    decreases match s.shim case ReadyCheck(_) => 0 case ReadyLoad(_) => 1 case ReadyBlocked(_, _) => 2 case _ => 3
  {
    hide BridgeApply;
    if s.shim.ReadyBlocked? {
      var s1 := Apply(c, s, Tick(1000)).value;
      var s2 := Apply(c, s1, ShimStep).value;
      var rest;
      rest, s' := GivesUp(c, s2);
      acts := [Tick(1000), ShimStep] + rest;
      assert acts[1..] == [ShimStep] + rest && acts[1..][1..] == rest;
    } else {
      var s1 := Apply(c, s, ShimStep).value;
      if s.shim.ReadyCheck? {
        acts, s' := [ShimStep], s1;
        assert acts[1..] == [];
      } else {
        var rest;
        rest, s' := GivesUp(c, s1);
        acts := [ShimStep] + rest;
        assert acts[1..] == rest;
      }
    }
  }

  /** While the bridge is silent and its time is not over, the thread sleeps: without a tick of the
      clock it cannot take five steps. */
  lemma DoesNotSpin(c: Config, clock: nat, before: seq<Action>, s: State)
    requires Lawful(c) && Run(c, Init(c, clock), before) == Some(s)
    requires InWait(s.shim) && !s.shim.ReadyFinal? && s.mem.ready == NOT_READY && s.now <= s.shim.limit
    ensures Run(c, s, Steps(5)) == None
  {
    Reachable(c, clock, before, s);
    FallsAsleep(c, s, 5);
  }

  lemma {:induction false} FallsAsleep(c: Config, s: State, n: nat)
    requires InWait(s.shim) && !s.shim.ReadyFinal? && s.mem.ready == NOT_READY && s.now <= s.shim.limit
    requires n == 5 ||
             n == match s.shim case ReadyLoad(_) => 4 case ReadyCheck(_) => 3 case ReadyWait(_) => 2 case _ => 1
    requires n == 1 ==> s.shim.ReadyBlocked? && s.shim.until > s.now
    ensures Run(c, s, Steps(n)) == None
    decreases n
  {
    hide Run, BridgeApply;
    FirstStep(c, s, n);
    if Apply(c, s, ShimStep).Some? {
      var s1 := Apply(c, s, ShimStep).value;
      if n == 5 && !s.shim.ReadyBlocked? {
        var m := match s1.shim case ReadyCheck(_) => 3 case ReadyWait(_) => 2 case _ => 1;
        FallsAsleep(c, s1, m);
        FewerSteps(c, s1, m, 4);
      } else {
        FallsAsleep(c, s1, n - 1);
      }
    }
  }

  lemma {:induction false} FewerSteps(c: Config, s: State, m: nat, n: nat)
    requires m <= n && Run(c, s, Steps(m)) == None
    ensures Run(c, s, Steps(n)) == None
    decreases n
  {
    hide Apply;
    if m > 0 {
      FirstStep(c, s, m);
      FirstStep(c, s, n);
      if Apply(c, s, ShimStep).Some? { FewerSteps(c, Apply(c, s, ShimStep).value, m - 1, n - 1); }
    }
  }
}
