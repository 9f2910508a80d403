/** What can happen behind an abandoned round trip: the shim re-arms the slot whatever the bridge is
    still doing, and an answer carries no mark of the request it is for. The runs are built step by
    step, for every answer. */
module BridgeStale {
  import opened Text
  import opened Protocol
  import opened SharedBridge
  import opened BridgeSafety
  import opened BridgeDelivery
  import opened BridgeProgress

  // --- building runs -------------------------------------------------------

  lemma {:induction false} RunSnoc(c: Config, s: State, acts: seq<Action>, m: State, a: Action, e: State)
    requires Run(c, s, acts) == Some(m) && Apply(c, m, a) == Some(e)
    ensures Run(c, s, acts + [a]) == Some(e)
    decreases |acts|
  {
    if |acts| == 0 {
      assert ([a])[1..] == [];
      assert acts + [a] == [a];
    } else {
      assert (acts + [a])[1..] == acts[1..] + [a];
      RunSnoc(c, Apply(c, s, acts[0]).value, acts[1..], m, a, e);
    }
  }

  /** A run reaching `s`, one action longer. */
  lemma Extend(c: Config, start: State, acts: seq<Action>, s: State, a: Action)
    returns (acts': seq<Action>, s': State)
    requires Run(c, start, acts) == Some(s) && Apply(c, s, a).Some?
    ensures Run(c, start, acts') == Some(s') && Apply(c, s, a) == Some(s')
  {
    acts', s' := acts + [a], Apply(c, s, a).value;
    RunSnoc(c, start, acts, s, a, s');
  }

  /** ... keeping the invariant. */
  lemma Go(c: Config, start: State, acts: seq<Action>, s: State, a: Action)
    returns (acts': seq<Action>, s': State)
    requires Run(c, start, acts) == Some(s) && Inv(c, s) && Apply(c, s, a).Some?
    ensures Run(c, start, acts') == Some(s') && Inv(c, s') && Apply(c, s, a) == Some(s')
  {
    hide Run, Inv, Apply;
    acts', s' := Extend(c, start, acts, s, a);
    StepKeeps(c, s, a, s');
  }

  lemma PassReady(c: Config, start: State, acts: seq<Action>, s: State) returns (acts': seq<Action>, s': State)
    requires Run(c, start, acts) == Some(s) && s.shim.Outside? && !s.bridgeError && s.mem.ready == READY_OK
    ensures Run(c, start, acts') == Some(s') && s' == s.(shim := Arm)
  {
    hide Run, BridgeApply;
    acts', s' := Extend(c, start, acts, s, ShimStep);
    acts', s' := Extend(c, start, acts', s', ShimStep);
    acts', s' := Extend(c, start, acts', s', ShimStep);
  }

  /** The shim posts its next request and sets its deadline. */
  lemma Ask(c: Config, start: State, acts: seq<Action>, s: State) returns (acts': seq<Action>, s': State)
    requires Run(c, start, acts) == Some(s)
    requires s.shim.Outside? && !s.bridgeError && s.mem.ready == READY_OK && s.mem.state == IDLE
    ensures Run(c, start, acts') == Some(s')
    ensures s' == s.(inbox := s.inbox + [s.trip], trip := s.trip + 1, meta := None, chunks := [], got := 0,
                     deadline := s.now + c.budget + GRACE_MS, shim := Poll)
  {
    hide Run, BridgeApply;
    acts', s' := PassReady(c, start, acts, s);
    acts', s' := Extend(c, start, acts', s', ShimStep);
    acts', s' := Extend(c, start, acts', s', ShimStep);
    acts', s' := Extend(c, start, acts', s', ShimStep);
  }

  // --- the bridge on its own -----------------------------------------------

  /** A bound on the steps of the bridge before it publishes or is back in its event loop. */
  function Rank(c: Config, b: BridgePc): nat {
    var k := c.cap + 20;
    match b
    case Starting => 2
    case ReadyNotify => 1
    case Idle => 0
    case BPoll(w) => c.cap + 10 + Excess(c, w)
    case BWait(w, _) => c.cap + 11 + Excess(c, w)
    case BBlocked(w, _) => c.cap + 12 + Excess(c, w)
    case BCopy(w, i) => Excess(c, w) + if |w.bytes| <= c.cap then 4 + Less(i, |w.bytes|) else 4
    case BStoreLen(_) => 3
    case BStoreFlags(_) => 2
    case BPublish(_) => 1
    case BNotify(_) => 5 * k
    case BNext(Body(_)) => 4 * k
    case BNext(Loop(_, _)) => 3 * k
    case BNext(Stop) => 1
    case Dead => 0
  }

  function Excess(c: Config, w: Write): nat {
    if |w.bytes| <= c.cap then 0 else if w.state == CHUNK then 4 * (c.cap + 20) else 2 * (c.cap + 20)
  }

  /** The bridge has just published, or is closer to it. */
  predicate RunsOn(c: Config, s: State, s': State) {
    if s'.mem.state == IDLE then Rank(c, s'.bridge) < Rank(c, s.bridge) else s'.bridge.BNotify?
  }

  lemma BridgeRankFalls(c: Config, s: State, s': State)
    requires Inv(c, s) && s.mem.state == IDLE && BridgeApply(c, s) == Some(s')
    ensures RunsOn(c, s, s')
  {
    hide Slot, ReadyOk, QueueOk, ShimOk, BodyOf, BridgeApply, Rank, BridgeOk;
    if s.bridge.BNext? {
      NextEffect(c, s, s');
      NextRankFalls(c, s, s');
    } else if s.bridge.BPoll? || s.bridge.BWait? || s.bridge.BBlocked? || s.bridge.BNotify? {
      WaitRankFalls(c, s, s');
    } else {
      WriteRankFalls(c, s, s');
    }
  }

  lemma WaitRankFalls(c: Config, s: State, s': State)
    requires s.mem.state == IDLE && BridgeApply(c, s) == Some(s') && |s.mem.data| == c.cap && BridgeOk(c, s)
    requires s.bridge.BPoll? || s.bridge.BWait? || s.bridge.BBlocked? || s.bridge.BNotify?
    ensures s'.mem.state == IDLE && Rank(c, s'.bridge) < Rank(c, s.bridge)
  {}

  lemma WriteRankFalls(c: Config, s: State, s': State)
    requires s.mem.state == IDLE && BridgeApply(c, s) == Some(s') && |s.mem.data| == c.cap && BridgeOk(c, s)
    requires !s.bridge.BPoll? && !s.bridge.BWait? && !s.bridge.BBlocked? && !s.bridge.BNotify? && !s.bridge.BNext?
    ensures RunsOn(c, s, s')
  {}

  lemma NextRankFalls(c: Config, s: State, s': State)
    requires c.cap >= 1 && s.bridge.BNext? && BridgeApply(c, s) == Some(s')
    ensures Rank(c, s'.bridge) < Rank(c, s.bridge)
  {}

  /** What the bridge alone can change. */
  ghost predicate BridgeOnly(s: State, s': State) {
    s' == s.(mem := s'.mem, bridge := s'.bridge, now := s'.now, published := s'.published) && s'.mem.ready == s.mem.ready
  }

  lemma BridgeStepOnly(c: Config, s: State, s': State)
    requires Inv(c, s) && !s.bridge.Starting? && !s.shim.Blocked? && !s.shim.ReadyBlocked? && BridgeApply(c, s) == Some(s')
    ensures BridgeOnly(s, s') && !s'.bridge.Starting? && !s'.bridge.Dead?
  {
    hide Slot, ReadyOk, QueueOk, ShimOk, BodyOf, BridgeOk;
    match s.bridge
    case BNext(_) => NextEffect(c, s, s');
    case _ =>
  }

  /** Wake a sleeping bridge, should it be the clock it waits for, and let it step. */
  lemma BridgeStepsOnce(c: Config, start: State, acts: seq<Action>, s: State) returns (acts': seq<Action>, s': State)
    requires Run(c, start, acts) == Some(s) && Inv(c, s)
    requires !s.bridge.Dead? && !s.bridge.Idle? && !s.bridge.Starting? && !s.shim.Blocked? && !s.shim.ReadyBlocked?
    ensures Run(c, start, acts') == Some(s') && Inv(c, s') && BridgeOnly(s, s')
    ensures Owing(c, s') == Owing(c, s) && !s'.bridge.Starting? && !s'.bridge.Dead?
    ensures s.mem.state == IDLE ==> RunsOn(c, s, s')
  {
    hide Run, BridgeApply, Inv, Rank, Owing;
    var ms := if s.bridge.BBlocked? then Less(s.now, s.bridge.until) else 0;
    var s0 := s.(now := s.now + ms);
    acts', s' := Go(c, start, acts, s, Tick(ms));
    BridgeStepsAwake(c, s0);
    SameOwing(c, s, s0);
    acts', s' := Go(c, start, acts', s0, BridgeStep);
    BridgeOwesTheSame(c, s0, s');
    BridgeStepOnly(c, s0, s');
    if s.mem.state == IDLE { BridgeRankFalls(c, s0, s'); }
  }

  lemma SameOwing(c: Config, s: State, s': State)
    requires Inv(c, s) && s'.mem == s.mem && s'.bridge == s.bridge
    ensures Owing(c, s') == Owing(c, s)
  {}

  /** Left alone with an empty slot, the bridge publishes its next frame, or is back in its event loop. */
  lemma {:induction false} BridgeRuns(c: Config, start: State, acts: seq<Action>, s: State)
    returns (acts': seq<Action>, s': State)
    requires Run(c, start, acts) == Some(s) && Inv(c, s) && s.mem.state == IDLE
    requires !s.bridge.Dead? && !s.bridge.Starting? && !s.shim.Blocked? && !s.shim.ReadyBlocked?
    ensures Run(c, start, acts') == Some(s') && Inv(c, s') && BridgeOnly(s, s')
    ensures Owing(c, s') == Owing(c, s) && !s'.bridge.Starting? && !s'.bridge.Dead?
    ensures if s'.mem.state != IDLE then s'.bridge.BNotify? else s'.bridge.Idle?
    decreases Rank(c, s.bridge)
  {
    hide Run, Inv, Rank, Owing;
    if s.bridge.Idle? {
      acts', s' := acts, s;
    } else {
      acts', s' := BridgeStepsOnce(c, start, acts, s);
      if s'.mem.state == IDLE {
        var s1 := s';
        acts', s' := BridgeRuns(c, start, acts', s1);
      }
    }
  }

  // --- the shim on its own -------------------------------------------------

  lemma {:induction false} ShimSlices(c: Config, start: State, acts: seq<Action>, s: State)
    returns (acts': seq<Action>, s': State)
    requires Run(c, start, acts) == Some(s) && Inv(c, s) && s.shim.Copy?
    ensures Run(c, start, acts') == Some(s') && Inv(c, s')
    ensures s' == s.(shim := s'.shim) && s'.shim.Release? && s'.shim.st == s.shim.st && s'.shim.fl == s.shim.fl
    decreases s.mem.len - |s.shim.payload|
  {
    hide Run, Slot, BridgeOk, QueueOk, ReadyOk;
    acts', s' := Go(c, start, acts, s, ShimStep);
    if |s.shim.payload| < s.mem.len {
      var s1 := s';
      acts', s' := ShimSlices(c, start, acts', s1);
    }
  }

  lemma ShimLoads(c: Config, start: State, acts: seq<Action>, s: State) returns (acts': seq<Action>, s': State)
    requires Run(c, start, acts) == Some(s) && Inv(c, s) && s.shim.Poll? && s.mem.state != IDLE
    ensures Run(c, start, acts') == Some(s') && Inv(c, s')
    ensures s' == s.(shim := Copy(s.mem.state, s.mem.flags, s.mem.len, ""))
  {
    hide Run, Inv, BridgeApply;
    acts', s' := Go(c, start, acts, s, ShimStep);
    acts', s' := Go(c, start, acts', s', ShimStep);
    acts', s' := Go(c, start, acts', s', ShimStep);
    acts', s' := Go(c, start, acts', s', ShimStep);
  }

  lemma ReleaseHolds(c: Config, s: State)
    requires Inv(c, s) && s.shim.Release?
    ensures Slot(s.mem) == [Frame(s.shim.payload, s.shim.fl, s.shim.st)]
  {}

  /** Finding a chunk in the slot, the shim takes it. */
  lemma ShimTakes(c: Config, start: State, acts: seq<Action>, s: State) returns (acts': seq<Action>, s': State)
    requires Run(c, start, acts) == Some(s) && Inv(c, s) && s.shim.Poll? && s.mem.state != IDLE
    ensures Run(c, start, acts') == Some(s') && Inv(c, s')
    ensures s'.shim.Act? && Slot(s.mem) == [Frame(s'.shim.payload, s'.shim.fl, s'.shim.st)]
    ensures s'.bridge == (if s.bridge.BBlocked? then BPoll(s.bridge.w) else s.bridge)
    ensures s' == s.(shim := s'.shim, mem := s.mem.(state := IDLE), bridge := s'.bridge, got := s.got + 1)
  {
    hide Run, Inv, BridgeApply, Slot;
    acts', s' := ShimLoads(c, start, acts, s);
    acts', s' := ShimSlices(c, start, acts', s');
    ReleaseHolds(c, s');
    acts', s' := Go(c, start, acts', s', ShimStep);
    acts', s' := Go(c, start, acts', s', ShimStep);
  }

  // --- both of them --------------------------------------------------------

  /** Whatever the bridge owes, to whomever: the polling shim can be made to take it next. */
  lemma NextIsTaken(c: Config, start: State, acts: seq<Action>, s: State) returns (acts': seq<Action>, s': State)
    requires Run(c, start, acts) == Some(s) && Inv(c, s) && s.shim.Poll? && Owing(c, s) != []
    requires !s.bridge.Starting?
    ensures Run(c, start, acts') == Some(s') && Inv(c, s')
    ensures s'.shim.Act? && Frame(s'.shim.payload, s'.shim.fl, s'.shim.st) == Owing(c, s)[0]
    ensures s'.mem.state == IDLE && Owing(c, s') == Owing(c, s)[1..]
    ensures s' == s.(shim := s'.shim, mem := s'.mem, bridge := s'.bridge, now := s'.now, published := s'.published,
                     got := s.got + 1) && s'.mem.ready == s.mem.ready
    ensures s'.bridge.Dead? == s.bridge.Dead? && s'.bridge.Starting? == s.bridge.Starting?
  {
    hide Run, Inv, BridgeApply;
    InvIsLawful(c, s);
    var s1 := s;
    acts' := acts;
    if s.mem.state == IDLE {
      DeadOwesSlot(c, s);
      acts', s1 := BridgeRuns(c, start, acts, s);
      if s1.mem.state == IDLE { IdleOwesNothing(c); }
    }
    acts', s' := ShimTakes(c, start, acts', s1);
    TakenFromOwing(c, s1, s');
  }

  lemma DeadOwesSlot(c: Config, s: State)
    requires c.cap >= 1 && Owing(c, s) != [] && s.mem.state == IDLE
    ensures !s.bridge.Dead?
  {}

  lemma TakenFromOwing(c: Config, s: State, s': State)
    requires c.cap >= 1 && |Slot(s.mem)| == 1 && s'.mem == s.mem.(state := IDLE)
    requires s'.bridge == (if s.bridge.BBlocked? then BPoll(s.bridge.w) else s.bridge)
    ensures Owing(c, s)[0] == Slot(s.mem)[0] && Owing(c, s') == Owing(c, s)[1..]
  {
    hide WriteFrames, ThenFrames;
    assert Slot(s'.mem) == [];
    assert Pending(c, s'.bridge) == Pending(c, s.bridge);
  }

  /** Acting on a frame of request `t`, the `k`-th. */
  lemma ActOnFrame(c: Config, s: State, t: nat, k: nat, s': State)
    requires Lawful(c) && s.shim.Act? && k < |Frames(c, t)| && ShimApply(c, s) == Some(s')
    requires Frame(s.shim.payload, s.shim.fl, s.shim.st) == Frames(c, t)[k] && Taken(c, t, k, s.meta, s.chunks)
    ensures if k + 1 < |Frames(c, t)| then s' == s.(shim := Poll, meta := s'.meta, chunks := s'.chunks) &&
                                           Taken(c, t, k + 1, s'.meta, s'.chunks)
            else if Fits(c, t) then s' == s.(shim := Assemble, chunks := s'.chunks) &&
                                    Taken(c, t, k + 1, s'.meta, s'.chunks)
            else s' == s.(shim := Outside, log := s.log + [Expected(c, t).value])
  {
    hide Frames, Concat;
    ShapeOf(c, t, k);
    if Fits(c, t) {
      AnswerShape(c, t);
      if k == 0 {
        FirstTaken(c, t);
      } else {
        TakenGrows(c, t, k, s.meta, s.chunks);
      }
    }
  }

  lemma FirstTaken(c: Config, t: nat)
    requires Lawful(c) && Fits(c, t)
    ensures |Frames(c, t)| >= 2 && Taken(c, t, 1, Some(c.outcome(t).head), [])
    ensures c.parse(Frames(c, t)[0].bytes) == Some(c.outcome(t).head)
  {
    AnswerShape(c, t);
    assert Payloads(Frames(c, t)[1..1]) == [];
  }

  lemma AssembleAll(c: Config, s: State, t: nat, s': State)
    requires Lawful(c) && Fits(c, t) && s.shim.Assemble? && ShimApply(c, s) == Some(s')
    requires Taken(c, t, |Frames(c, t)|, s.meta, s.chunks) && |Frames(c, t)| >= 1
    ensures s' == s.(shim := Outside, log := s.log + [Expected(c, t).value])
  {
    hide Frames;
    AnswerShape(c, t);
    assert Frames(c, t)[1..|Frames(c, t)|] == Frames(c, t)[1..];
  }

  /** The shim takes the rest of request `t`'s frames for the answer it is waiting for. */
  lemma {:induction false} RestIsTaken(c: Config, start: State, acts: seq<Action>, s: State, t: nat, k: nat)
    returns (acts': seq<Action>, s': State)
    requires Run(c, start, acts) == Some(s) && Inv(c, s) && s.shim.Poll? && k < |Frames(c, t)|
    requires !s.bridge.Starting?
    requires Owing(c, s) == Frames(c, t)[k..] && Taken(c, t, k, s.meta, s.chunks)
    ensures Run(c, start, acts') == Some(s') && Inv(c, s')
    ensures s'.log == s.log + [Expected(c, t).value] && s'.shim.Outside? && s'.trip == s.trip
    decreases |Frames(c, t)| - k
  {
    hide Run, Inv, BridgeApply, ShimApply, Owing, Frames, Taken, Expected;
    InvIsLawful(c, s);
    var s1, s2;
    acts', s1 := NextIsTaken(c, start, acts, s);
    assert Frames(c, t)[k..][1..] == Frames(c, t)[k + 1..];
    ActApplies(c, s1);
    acts', s2 := Go(c, start, acts', s1, ShimStep);
    ActOnFrame(c, s1, t, k, s2);
    SameOwing(c, s1, s2);
    if k + 1 < |Frames(c, t)| {
      acts', s' := RestIsTaken(c, start, acts', s2, t, k + 1);
    } else if Fits(c, t) {
      AssembleApplies(c, s2);
      acts', s' := Go(c, start, acts', s2, ShimStep);
      AssembleAll(c, s2, t, s');
    } else {
      s' := s2;
    }
  }

  lemma ActApplies(c: Config, s: State)
    requires s.shim.Act?
    ensures ShimApply(c, s).Some?
  {}

  lemma AssembleApplies(c: Config, s: State)
    requires s.shim.Assemble?
    ensures ShimApply(c, s).Some?
  {}

  // --- what goes wrong -----------------------------------------------------

  lemma RunNothing(c: Config, s: State)
    ensures Run(c, s, []) == Some(s)
  {}

  /** The bridge starts, and the shim posts request 0. */
  lemma AskFirst(c: Config) returns (acts: seq<Action>, s: State)
    requires Lawful(c) && c.starts
    ensures Run(c, Init(c, 0), acts) == Some(s) && Inv(c, s)
    ensures s.shim.Poll? && !s.bridgeError && s.mem.ready == READY_OK && s.mem.state == IDLE && s.bridge.Idle?
    ensures s.awaiting == [0] && s.inbox == [] && s.trip == 1 && s.log == [] && s.got == 0
    ensures s.meta == None && s.chunks == [] && s.now == 0 && s.deadline == c.budget + GRACE_MS
  {
    hide Run;
    var start := Init(c, 0);
    RunNothing(c, start);
    acts, s := Extend(c, start, [], start, BridgeStep);
    acts, s := Extend(c, start, acts, s, BridgeStep);
    acts, s := Ask(c, start, acts, s);
    acts, s := Extend(c, start, acts, s, Take);
    Reachable(c, 0, acts, s);
  }

  /** Delivery does happen: in some run request 0 is answered with what it is owed. */
  lemma SomeRunDelivers(c: Config) returns (acts: seq<Action>, s: State)
    requires Lawful(c) && c.starts && Frames(c, 0) != []
    ensures Run(c, Init(c, 0), acts) == Some(s)
    ensures s.log == [Expected(c, 0).value]
  {
    hide Run, Frames, Inv;
    acts, s := AskFirst(c);
    acts, s := SettleAndTake(c, Init(c, 0), acts, s, 0);
  }

  /** The transport of request `t` settles, and the polling shim takes its whole answer for its own. */
  lemma SettleAndTake(c: Config, start: State, acts: seq<Action>, s: State, t: nat)
    returns (acts': seq<Action>, s': State)
    requires Run(c, start, acts) == Some(s) && Inv(c, s)
    requires s.shim.Poll? && s.mem.state == IDLE && s.bridge.Idle? && |s.awaiting| > 0 && s.awaiting[0] == t
    requires s.meta == None && s.chunks == [] && Frames(c, t) != []
    ensures Run(c, start, acts') == Some(s') && Inv(c, s')
    ensures s'.log == s.log + [Expected(c, t).value] && s'.trip == s.trip
  {
    hide Run, Frames, Expected, Inv, WriteFrames;
    InvIsLawful(c, s);
    var s1;
    acts', s1 := Go(c, start, acts, s, Settle(0));
    OpeningOwes(c, t);
    assert Owing(c, s1) == Frames(c, t);
    assert Frames(c, t)[0..] == Frames(c, t);
    acts', s' := RestIsTaken(c, start, acts', s1, t, 0);
  }

  lemma AbandonFirst(c: Config) returns (acts: seq<Action>, s: State)
    requires Lawful(c) && c.starts
    ensures Run(c, Init(c, 0), acts) == Some(s)
    ensures s.shim.Outside? && !s.bridgeError && s.mem.ready == READY_OK && s.mem.state == IDLE
    ensures s.log == [Threw(NoAnswer)] && s.trip == 1 && |s.mem.data| == c.cap
    ensures s.bridge.Idle? && s.awaiting == [0] && s.inbox == []
  {
    hide Run, Inv;
    var start := Init(c, 0);
    acts, s := AskFirst(c);
    Reachable(c, 0, acts, s);
    DataIsWhole(c, s);
    acts, s := Extend(c, start, acts, s, Tick(c.budget + GRACE_MS));
    acts, s := Extend(c, start, acts, s, ShimStep);
    acts, s := Extend(c, start, acts, s, ShimStep);
  }

  lemma DataIsWhole(c: Config, s: State)
    requires Inv(c, s)
    ensures |s.mem.data| == c.cap
  {}

  /** A run in which request 0 is abandoned at its deadline, and its late answer, whatever it is, is
      handed to request 1 as its own: head, body and all. */
  lemma StaleAnswer(c: Config) returns (acts: seq<Action>, s: State)
    requires Lawful(c) && c.starts && Frames(c, 0) != []
    ensures Run(c, Init(c, 0), acts) == Some(s)
    ensures s.log == [Threw(NoAnswer), Expected(c, 0).value]
    ensures Fits(c, 0) ==> s.log[1] == Returned(c.outcome(0).head, c.outcome(0).body)
    ensures AsOwed(c, 1, s.log[1]) ==> Expected(c, 1) == Expected(c, 0)
  {
    hide Run, Frames, Inv;
    var start := Init(c, 0);
    acts, s := AbandonFirst(c);
    acts, s := Ask(c, start, acts, s);
    Reachable(c, 0, acts, s);
    acts, s := SettleAndTake(c, start, acts, s, 0);
  }

  // --- exactly when --------------------------------------------------------

  lemma {:induction false} TakeAll(c: Config, start: State, acts: seq<Action>, s: State)
    returns (acts': seq<Action>, s': State)
    requires Run(c, start, acts) == Some(s) && Inv(c, s) && s.bridge.Idle?
    ensures Run(c, start, acts') == Some(s') && Inv(c, s')
    ensures s' == s.(awaiting := Queued(s), inbox := [])
    decreases |s.inbox|
  {
    hide Run, Inv;
    if |s.inbox| == 0 {
      assert Queued(s) == s.awaiting;
      acts', s' := acts, s;
    } else {
      acts', s' := Go(c, start, acts, s, Take);
      assert Queued(s') == Queued(s);
      var s1 := s';
      acts', s' := TakeAll(c, start, acts', s1);
    }
  }

  /** Back in its event loop with the slot empty, the bridge can be made to begin with any request. */
  lemma BeginWith(c: Config, start: State, acts: seq<Action>, s: State, q: nat) returns (acts': seq<Action>, s': State)
    requires Run(c, start, acts) == Some(s) && Inv(c, s) && s.bridge.Idle? && s.mem.state == IDLE && q in Queued(s)
    ensures Run(c, start, acts') == Some(s') && Inv(c, s')
    ensures s' == s.(awaiting := s'.awaiting, inbox := [], bridge := s'.bridge)
    ensures Owing(c, s') == Frames(c, q) && s'.bridge.BPoll?
  {
    hide Run, Inv, WriteFrames, Frames;
    InvIsLawful(c, s);
    var s1;
    acts', s1 := TakeAll(c, start, acts, s);
    var i: nat :| i < |s1.awaiting| && s1.awaiting[i] == q;
    acts', s' := Go(c, start, acts', s1, Settle(i));
    OpeningOwes(c, q);
  }

  /** The chunk is one somebody else is owed: one the bridge was half-way through, or the first of a
      request still queued. */
  ghost predicate Foreign(c: Config, s: State, f: Frame)
    requires c.cap >= 1
  {
    (Owing(c, s) != [] && f == Owing(c, s)[0]) ||
    (exists q | q in Queued(s) :: Frames(c, q) != [] && f == Frames(c, q)[0])
  }

  /** The condition of `Delivery` is exact: post a request to a bridge that still owes a frame, and there
      is a run in which the first chunk it is handed is that frame. */
  lemma OwedIsTaken(c: Config, clock: nat, before: seq<Action>, s: State) returns (acts: seq<Action>, s': State)
    requires Lawful(c) && Run(c, Init(c, clock), before) == Some(s) && s.shim.Post? && !OwesNothing(c, s)
    ensures Run(c, Init(c, clock), acts) == Some(s') && s'.trip == s.trip + 1 && s'.log == s.log && s'.got == 1
    ensures s'.shim.Act? && Foreign(c, s, Frame(s'.shim.payload, s'.shim.fl, s'.shim.st))
  {
    hide Run, Inv, Owing, OwesNothing, BridgeApply, Queued;
    var start := Init(c, clock);
    Reachable(c, clock, before, s);
    var s1;
    acts, s1 := Go(c, start, before, s, ShimStep);
    acts, s1 := Go(c, start, acts, s1, ShimStep);
    assert s1.mem == s.mem && s1.bridge == s.bridge && s1.shim.Poll? && s1.got == 0;
    SameOwing(c, s, s1);
    PostedIsReady(c, s);
    if Owing(c, s) == [] {
      var q := SomeoneWaits(c, s);
      assert s1.mem.state == IDLE by { NothingInSlot(c, s1); }
      acts, s1 := BridgeRuns(c, start, acts, s1);
      if s1.mem.state != IDLE { NothingInSlot(c, s1); }
      QueueStays(s, s1, q);
      acts, s1 := BeginWith(c, start, acts, s1, q);
    }
    acts, s' := NextIsTaken(c, start, acts, s1);
  }

  lemma PostedIsReady(c: Config, s: State)
    requires Inv(c, s) && s.shim.Post?
    ensures !s.bridge.Starting?
  {}

  lemma NothingInSlot(c: Config, s: State)
    requires c.cap >= 1 && Owing(c, s) == []
    ensures s.mem.state == IDLE
  {}

  lemma SomeoneWaits(c: Config, s: State) returns (q: nat)
    requires c.cap >= 1 && !OwesNothing(c, s) && Owing(c, s) == []
    ensures !s.bridge.Dead? && q in Queued(s) && Frames(c, q) != []
  {
    hide Pending, Frames, Queued;
    NothingInSlot(c, s);
    assert Slot(s.mem) + Pending(c, s.bridge) == [];
    q :| q in Queued(s) && Frames(c, q) != [];
  }

  lemma QueueStays(s: State, s': State, q: nat)
    requires s'.awaiting == s.awaiting && s'.inbox == s.inbox + [s.trip] && q in Queued(s)
    ensures q in Queued(s')
  {
    assert Queued(s') == Queued(s) + [s.trip];
  }

  // --- both asleep ---------------------------------------------------------

  /** Re-arming the slot under a sleeping bridge puts both threads to sleep: no notify is sent. */
  lemma ArmedAsleep(c: Config, start: State, acts: seq<Action>, s: State) returns (acts': seq<Action>, s': State)
    requires Run(c, start, acts) == Some(s) && s.shim.Arm? && s.bridge.BBlocked? && s.now < s.bridge.until
    ensures Run(c, start, acts') == Some(s') && Asleep(s') && s'.log == s.log && s'.trip == s.trip + 1
  {
    hide Run, BridgeApply;
    acts', s' := Extend(c, start, acts, s, ShimStep);
    acts', s' := Extend(c, start, acts', s', ShimStep);
    acts', s' := Extend(c, start, acts', s', ShimStep);
    acts', s' := Extend(c, start, acts', s', ShimStep);
    acts', s' := Extend(c, start, acts', s', ShimStep);
    acts', s' := Extend(c, start, acts', s', ShimStep);
  }

  /** With a frame in the slot and another to come, the bridge goes to sleep. */
  lemma {:induction false} BridgeFallsAsleep(c: Config, start: State, acts: seq<Action>, s: State)
    returns (acts': seq<Action>, s': State)
    requires Run(c, start, acts) == Some(s) && Inv(c, s) && s.mem.state != IDLE && Pending(c, s.bridge) != []
    requires s.shim.Outside? && !s.bridge.BBlocked? && (s.bridge.BWait? ==> s.bridge.seen == s.mem.state)
    ensures Run(c, start, acts') == Some(s') && s' == s.(bridge := s'.bridge)
    ensures s'.bridge.BBlocked? && s'.now < s'.bridge.until
    decreases match s.bridge case BNotify(_) => 5 case BNext(Body(_)) => 4 case BNext(Loop(_, _)) => 3 case BPoll(_) => 2 case _ => 1
  {
    hide Run, Inv, Slot;
    NotWriting(c, s);
    BridgeStepsAwake(c, s);
    var s1;
    acts', s1 := Go(c, start, acts, s, BridgeStep);
    if s1.bridge.BBlocked? {
      s' := s1;
    } else {
      StillToCome(c, s, s1);
      acts', s' := BridgeFallsAsleep(c, start, acts', s1);
    }
  }

  lemma NotWriting(c: Config, s: State)
    requires Inv(c, s) && s.mem.state != IDLE && Pending(c, s.bridge) != [] && !s.bridge.BBlocked?
    ensures s.bridge.BNotify? || s.bridge.BNext? || s.bridge.BPoll? || s.bridge.BWait?
  {}

  lemma StillToCome(c: Config, s: State, s': State)
    requires Inv(c, s) && BridgeApply(c, s) == Some(s') && !s.bridge.BPublish? && Pending(c, s.bridge) != []
    requires s.mem.state != IDLE
    ensures Pending(c, s'.bridge) != []
  {
    hide Pending;
    match s.bridge
    case BNext(_) => NextOwesTheSame(c, s, s');
    case BCopy(_, _) => CopyOwesTheSame(c, s, s');
    case _ => WaitOwesTheSame(c, s, s');
  }

  /** A reachable state in which both threads sleep with an answer half delivered and nobody to wake
      them but the clock: request 0 was abandoned between its first frame and its second. */
  lemma AsleepCanHappen(c: Config) returns (acts: seq<Action>, s: State)
    requires Lawful(c) && c.starts && Fits(c, 0)
    ensures Run(c, Init(c, 0), acts) == Some(s)
    ensures Asleep(s) && InTrip(s.shim) && s.log == [Threw(NoAnswer)] && !SomeoneCanStep(c, s)
  {
    hide Run, Inv, Frames, Pending, Owing, BridgeApply;
    var start := Init(c, 0);
    acts, s := AbandonFirst(c);
    Reachable(c, 0, acts, s);
    assert Queued(s) == [0];
    acts, s := BeginWith(c, start, acts, s, 0);
    TwoFrames(c, s);
    acts, s := BridgeRuns(c, start, acts, s);
    if s.mem.state == IDLE { IdleOwesNothing(c); NothingOwed(c, s); }
    OneInSlot(c, s);
    acts, s := BridgeFallsAsleep(c, start, acts, s);
    acts, s := PassReady(c, start, acts, s);
    acts, s := ArmedAsleep(c, start, acts, s);
    AsleepIsStuck(c, s);
  }

  lemma TwoFrames(c: Config, s: State)
    requires Lawful(c) && Fits(c, 0) && Owing(c, s) == Frames(c, 0)
    ensures |Owing(c, s)| >= 2
  {
    AnswerShape(c, 0);
  }

  lemma NothingOwed(c: Config, s: State)
    requires c.cap >= 1 && s.mem.state == IDLE && s.bridge.Idle?
    ensures Owing(c, s) == []
  {}

  lemma OneInSlot(c: Config, s: State)
    requires c.cap >= 1 && |Owing(c, s)| >= 2
    ensures Pending(c, s.bridge) != []
  {
    SlotIsOne(s.mem);
  }

  lemma AsleepIsStuck(c: Config, s: State)
    requires Asleep(s)
    ensures InTrip(s.shim) && !SomeoneCanStep(c, s)
  {}
}
