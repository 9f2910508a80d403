/** Delivery: in every interleaving, from any moment at which the bridge owes nothing, a round trip
    that returns, returns what the bridge was sending. */
module BridgeDelivery {
  import opened Text
  import opened Protocol
  import opened SharedBridge
  import opened BridgeSafety

  /** An answer that does not fit is one ERROR chunk, or nothing. */
  lemma ErrorShape(c: Config, t: nat)
    requires Lawful(c) && !Fits(c, t)
    ensures var f := Frames(c, t);
      && |f| <= 1
      && (|f| == 1 ==> f[0].state == ERROR && |f[0].bytes| <= c.cap)
  {}

  lemma ShapeOf(c: Config, t: nat, i: nat)
    requires Lawful(c) && i < |Frames(c, t)|
    ensures var f := Frames(c, t);
      && |f[i].bytes| <= c.cap
      && (f[i].state == CHUNK || f[i].state == ERROR)
      && (f[i].state == ERROR <==> !Fits(c, t))
      && (!Fits(c, t) ==> |f| == 1)
      && (Fits(c, t) ==> |f| >= 2 && (HasMeta(f[i].flags) <==> i == 0))
      && (Fits(c, t) && i > 0 ==> (HasMore(f[i].flags) <==> i < |f| - 1))
  {
    if Fits(c, t) {
      AnswerShape(c, t);
      var n := |c.outcome(t).body|;
      if n > 0 {
        DataFramesCarryBody(c.outcome(t).body, 0, c.cap);
      }
    } else {
      ErrorShape(c, t);
    }
  }

  // --- what stands still -----------------------------------------------------

  /** The frames in the slot and those the bridge is half-way through. */
  function Owing(c: Config, s: State): seq<Frame>
    requires c.cap >= 1
  {
    Slot(s.mem) + Pending(c, s.bridge)
  }

  /** The shim stands where it stood, as far as the chunks are concerned. */
  predicate SameStance(p: ShimPc, p': ShimPc) {
    || p' == p
    || (InTrip(p) == InTrip(p') && !InHand(p) && !InHand(p') && !p.Assemble? && !p'.Assemble?)
    || (p.Notify? && p' == Act(p.st, p.fl, p.payload))
  }

  /** A step that moves no chunk keeps what is good. */
  lemma GoodStays(c: Config, s: State, s': State)
    requires Lawful(c) && Good(c, s)
    requires s'.trip == s.trip && s'.got == s.got && s'.meta == s.meta && s'.chunks == s.chunks
    requires Owing(c, s') == Owing(c, s) && Queued(s') == Queued(s)
    requires !s.bridge.Dead? && !s'.bridge.Dead? && SameStance(s.shim, s'.shim)
    ensures Good(c, s')
  {
    hide Frames, Taken, Pending, Queued, Waiting;
    if !InTrip(s.shim) {
      assert Slot(s.mem) == [];
      assert Slot(s'.mem) + Pending(c, s'.bridge) == [];
    } else {
      WaitingSame(c, s, s', s.trip - 1);
    }
  }

  lemma WaitingSame(c: Config, s: State, s': State, t: nat)
    requires c.cap >= 1 && Queued(s') == Queued(s)
    ensures Waiting(c, s', t) == Waiting(c, s, t)
  {}

  /** ... and so does one of a shim whose bridge is dead. */
  lemma GoodStaysDead(c: Config, s: State, s': State)
    requires Lawful(c) && Good(c, s)
    requires s'.trip == s.trip && s'.got == s.got && s'.meta == s.meta && s'.chunks == s.chunks
    requires Slot(s'.mem) == Slot(s.mem) && s.bridge.Dead? && s'.bridge.Dead? && SameStance(s.shim, s'.shim)
    ensures Good(c, s')
  {
    hide Frames, Taken, Pending, Queued, Waiting;
  }

  // --- steps of the bridge -------------------------------------------------

  lemma NextOwesTheSame(c: Config, s: State, s': State)
    requires c.cap >= 1 && s.bridge.BNext? && BridgeApply(c, s) == Some(s')
    ensures Pending(c, s'.bridge) == Pending(c, s.bridge)
  {}

  lemma CopyOwesTheSame(c: Config, s: State, s': State)
    requires Lawful(c) && |s.mem.data| == c.cap && s.bridge.BCopy? && BridgeApply(c, s) == Some(s')
    ensures Pending(c, s'.bridge) == Pending(c, s.bridge)
  {}

  lemma PublishOwesTheSame(c: Config, s: State, s': State)
    requires Inv(c, s) && s.bridge.BPublish? && BridgeApply(c, s) == Some(s')
    ensures Owing(c, s') == Owing(c, s)
  {
    hide ThenFrames;
    var w := s.bridge.w;
    assert Slot(s'.mem) == [Frame(w.bytes, w.flags, w.state)];
    assert Slot(s'.mem) + ThenFrames(c, w.next) == WriteFrames(c, w);
  }

  lemma WaitOwesTheSame(c: Config, s: State, s': State)
    requires Inv(c, s) && BridgeApply(c, s) == Some(s')
    requires !s.bridge.BNext? && !s.bridge.BCopy? && !s.bridge.BPublish?
    ensures Pending(c, s'.bridge) == Pending(c, s.bridge) && Slot(s'.mem) == Slot(s.mem)
  {
    hide WriteFrames, ThenFrames, QueueOk, Queued, ReadyOk, ShimOk;
  }

  /** Whatever the bridge does, what it owes and what is in the slot stay the same, put together. */
  lemma BridgeOwesTheSame(c: Config, s: State, s': State)
    requires Inv(c, s) && BridgeApply(c, s) == Some(s')
    ensures Owing(c, s') == Owing(c, s)
  {
    hide Pending, BodyOf, ShimOk, ReadyOk, QueueOk;
    match s.bridge
    case BNext(_) =>
      NextEffect(c, s, s');
      NextOwesTheSame(c, s, s');
    case BCopy(_, _) =>
      CopyOwesTheSame(c, s, s');
      assert Slot(s'.mem) == Slot(s.mem);
    case BPublish(_) => PublishOwesTheSame(c, s, s');
    case _ => WaitOwesTheSame(c, s, s');
  }

  /** What a bridge step leaves alone. */
  lemma BridgeEffect(c: Config, s: State, s': State)
    requires BridgeApply(c, s) == Some(s')
    ensures s'.trip == s.trip && s'.got == s.got && s'.log == s.log && s'.meta == s.meta && s'.chunks == s.chunks
    ensures s'.awaiting == s.awaiting && s'.inbox == s.inbox
    ensures s'.now == s.now && s'.deadline == s.deadline && !s.bridge.Dead? && !s'.bridge.Dead?
    ensures s'.mem.state == s.mem.state || s.bridge.BPublish?
    ensures s'.shim == s.shim || (s.bridge.BNotify? && s.shim.Blocked? && s'.shim.Poll?) ||
            (s.shim.ReadyBlocked? && s'.shim.ReadyLoad?)
  {
    hide BodyOf, Min;
    match s.bridge
    case BCopy(_, _) =>
    case BNext(_) =>
    case BPublish(_) =>
    case BNotify(_) =>
    case ReadyNotify =>
    case _ =>
  }

  lemma BridgeStaysGood(c: Config, s: State, s': State)
    requires Inv(c, s) && Good(c, s) && BridgeApply(c, s) == Some(s')
    ensures Good(c, s') && s'.log == s.log
  {
    hide Good, Owing, BridgeApply, Inv;
    InvIsLawful(c, s);
    BridgeEffect(c, s, s');
    BridgeOwesTheSame(c, s, s');
    QueueSame(s, s');
    GoodStays(c, s, s');
  }

  lemma InvIsLawful(c: Config, s: State)
    requires Inv(c, s)
    ensures Lawful(c)
  {}

  // --- steps of the shim ---------------------------------------------------

  /** The steps of a shim that moves no chunk. */
  predicate Idles(p: ShimPc) {
    !p.Post? && !p.Check? && !p.Release? && !p.Act? && !p.Assemble?
  }

  lemma IdleEffect(c: Config, s: State, s': State)
    requires Idles(s.shim) && ShimApply(c, s) == Some(s')
    ensures s'.trip == s.trip && s'.got == s.got && s'.meta == s.meta && s'.chunks == s.chunks && s'.log == s.log
    ensures s'.awaiting == s.awaiting && s'.inbox == s.inbox && SameStance(s.shim, s'.shim)
    ensures s'.mem == s.mem || (s.shim.Arm? && s'.mem == s.mem.(state := IDLE))
    ensures s'.bridge == s.bridge || (s.bridge.BBlocked? && s'.bridge == BPoll(s.bridge.w))
  {}

  lemma IdleStaysGood(c: Config, s: State, s': State)
    requires Inv(c, s) && Good(c, s) && Idles(s.shim) && ShimApply(c, s) == Some(s')
    ensures Good(c, s') && s'.log == s.log
  {
    hide ShimApply, TripOk, WriteFrames, QueueOk, Queued;
    IdleEffect(c, s, s');
    QueueSame(s, s');
    if s.bridge.Dead? { GoodStaysDead(c, s, s'); } else { GoodStays(c, s, s'); }
  }

  lemma PostStaysGood(c: Config, s: State, s': State)
    requires Inv(c, s) && Good(c, s) && s.shim.Post? && ShimApply(c, s) == Some(s')
    ensures Good(c, s') && s'.log == s.log
  {
    hide Frames, Pending;
    var t, f := s'.trip - 1, Frames(c, s'.trip - 1);
    assert f[0..] == f;
    assert Queued(s') == Queued(s) + [t];
  }

  lemma ReleaseStaysGood(c: Config, s: State, s': State)
    requires Inv(c, s) && Good(c, s) && s.shim.Release? && ShimApply(c, s) == Some(s')
    ensures Good(c, s') && s'.log == s.log
  {
    hide Frames, Taken, Pending, Queued, QueueOk, Waiting;
    var t, f := s.trip - 1, Frames(c, s.trip - 1);
    QueueSame(s, s');
    WaitingSame(c, s, s', t);
    assert Slot(s.mem) == [Frame(s.shim.payload, s.shim.fl, s.shim.st)];
    assert f[s.got..][0] == Slot(s.mem)[0];
    assert f[s.got..][1..] == f[s.got + 1..];
    if !s.bridge.Dead? {
      assert f[s.got + 1..] == Pending(c, s.bridge) + Waiting(c, s, t);
    }
  }

  /** The last frame taken, nothing is owed. */
  lemma AllTaken(c: Config, s: State)
    requires Lawful(c) && TripOk(c, s) && s.got == |Frames(c, s.trip - 1)|
    ensures OwesNothing(c, s)
  {
    hide Frames, Taken, Pending;
    var t, f := s.trip - 1, Frames(c, s.trip - 1);
    assert f[s.got..] == [];
    if !s.bridge.Dead? {
      assert Slot(s.mem) == [] && Pending(c, s.bridge) == [] && Waiting(c, s, t) == [];
    }
  }

  lemma ActErrorEndsWell(c: Config, s: State, s': State)
    requires Inv(c, s) && TripOk(c, s) && s.shim.Act? && s.shim.st == ERROR && ShimApply(c, s) == Some(s')
    ensures OwesNothing(c, s') && !InTrip(s'.shim)
    ensures s'.log == s.log + [s'.log[|s.log|]] && Expected(c, |s.log|) == Some(s'.log[|s.log|])
  {
    hide Frames, Taken, Pending, BridgeOk, ShimOk, QueueOk, ReadyOk;
    ShapeOf(c, s.trip - 1, s.got - 1);
    AllTaken(c, s);
  }

  lemma ActMetaStaysGood(c: Config, s: State, s': State)
    requires Inv(c, s) && TripOk(c, s) && s.shim.Act? && s.shim.st != ERROR && HasMeta(s.shim.fl)
    requires ShimApply(c, s) == Some(s')
    ensures TripOk(c, s') && InTrip(s'.shim) && s'.log == s.log
  {
    hide Pending, BridgeOk, ShimOk, QueueOk, ReadyOk, Queued;
    var t, f := s.trip - 1, Frames(c, s.trip - 1);
    QueueSame(s, s');
    WaitingSame(c, s, s', t);
    ShapeOf(c, t, s.got - 1);
    assert f[0].bytes == c.stringify(c.outcome(t).head);
    assert Payloads(f[1..1]) == [];
  }

  /** Taking one more data chunk. */
  lemma TakenGrows(c: Config, t: nat, k: nat, meta: Option<Head>, chunks: seq<string>)
    requires Lawful(c) && Taken(c, t, k, meta, chunks) && 1 <= k < |Frames(c, t)|
    ensures Taken(c, t, k + 1, meta, chunks + [Frames(c, t)[k].bytes])
  {
    var f := Frames(c, t);
    assert Payloads(f[1..k + 1]) == Payloads(f[1..k]) + [f[k].bytes];
  }

  lemma ActDataStaysGood(c: Config, s: State, s': State)
    requires Inv(c, s) && TripOk(c, s) && s.shim.Act? && s.shim.st != ERROR && !HasMeta(s.shim.fl)
    requires ShimApply(c, s) == Some(s')
    ensures TripOk(c, s') && InTrip(s'.shim) && s'.log == s.log
  {
    hide Pending, BridgeOk, ShimOk, QueueOk, ReadyOk, Queued, Frames, Taken;
    QueueSame(s, s');
    WaitingSame(c, s, s', s.trip - 1);
    ShapeOf(c, s.trip - 1, s.got - 1);
    FirstIsMeta(c, s);
    TakenGrows(c, s.trip - 1, s.got - 1, s.meta, s.chunks);
  }

  lemma FirstIsMeta(c: Config, s: State)
    requires Lawful(c) && TripOk(c, s) && s.shim.Act? && s.shim.st != ERROR && !HasMeta(s.shim.fl)
    ensures s.got >= 2
  {
    hide Pending, Frames, Taken;
    ShapeOf(c, s.trip - 1, s.got - 1);
  }

  lemma AssembleEndsWell(c: Config, s: State, s': State)
    requires Inv(c, s) && TripOk(c, s) && s.shim.Assemble? && ShimApply(c, s) == Some(s')
    ensures OwesNothing(c, s') && !InTrip(s'.shim)
    ensures s'.log == s.log + [s'.log[|s.log|]] && Expected(c, |s.log|) == Some(s'.log[|s.log|])
  {
    hide Pending, Payloads, Frames, BridgeOk, ShimOk, QueueOk, ReadyOk;
    var t, f := s.trip - 1, Frames(c, s.trip - 1);
    AnswerShape(c, t);
    assert f[1..s.got] == f[1..];
    AllTaken(c, s);
  }

  lemma CheckEnds(c: Config, s: State, s': State)
    requires Inv(c, s) && TripOk(c, s) && s.shim.Check? && ShimApply(c, s) == Some(s')
    ensures if s.now >= s.deadline then !InTrip(s'.shim) && s'.log == s.log + [Threw(NoAnswer)] else s'.log == s.log && Good(c, s')
    ensures s.now >= s.deadline && Frames(c, |s.log|) == [] ==> OwesNothing(c, s')
  {
    hide Pending, Frames, Taken, BridgeOk, ShimOk, QueueOk, ReadyOk, Queued;
    QueueSame(s, s');
    WaitingSame(c, s, s', s.trip - 1);
    if Frames(c, s.trip - 1) == [] { AllTaken(c, s); }
  }

  /** What a step makes of the log, and whether all is still good. */
  ghost predicate StepsWell(c: Config, s: State, s': State)
    requires c.cap >= 1
  {
    || (s'.log == s.log && Good(c, s'))
    || (|s'.log| == |s.log| + 1 && s.log <= s'.log &&
        if s'.log[|s.log|] == Threw(NoAnswer) then Frames(c, |s.log|) == [] ==> Good(c, s')
        else Expected(c, |s.log|) == Some(s'.log[|s.log|]) && Good(c, s'))
  }

  lemma ShimStepsWell(c: Config, s: State, s': State)
    requires Inv(c, s) && Good(c, s) && ShimApply(c, s) == Some(s')
    ensures StepsWell(c, s, s')
  {
    hide Inv, ShimApply, TripOk, OwesNothing, Frames, Expected;
    InvIsLawful(c, s);
    if Idles(s.shim) {
      IdleStaysGood(c, s, s');
    } else {
      match s.shim
      case Post => PostStaysGood(c, s, s');
      case Check => CheckEnds(c, s, s');
      case Release(_, _, _) => ReleaseStaysGood(c, s, s');
      case Assemble => AssembleEndsWell(c, s, s');
      case Act(st, fl, _) =>
        if st == ERROR {
          ActErrorEndsWell(c, s, s');
        } else if HasMeta(fl) {
          ActMetaStaysGood(c, s, s');
        } else {
          ActDataStaysGood(c, s, s');
        }
    }
  }

  // --- everything else -----------------------------------------------------

  lemma TakeStaysGood(c: Config, s: State, s': State)
    requires Inv(c, s) && Good(c, s) && Apply(c, s, Take) == Some(s')
    ensures Good(c, s') && s'.log == s.log
  {
    hide TripOk, OwesNothing;
    assert Queued(s') == Queued(s);
    GoodStays(c, s, s');
  }

  lemma SettleStaysGood(c: Config, s: State, i: nat, s': State)
    requires Inv(c, s) && Good(c, s) && Apply(c, s, Settle(i)) == Some(s')
    ensures Good(c, s') && s'.log == s.log
  {
    hide Taken, BridgeOk, ShimOk, ReadyOk, Frames;
    var q := s.awaiting[i];
    assert Queued(s)[i] == q;
    Removed(Queued(s), i);
    assert Queued(s') == Queued(s)[..i] + Queued(s)[i + 1..];
    OpeningOwes(c, q);
  }

  lemma OpeningOwes(c: Config, q: nat)
    requires c.cap >= 1
    ensures WriteFrames(c, Opening(c, q)) == Frames(c, q)
  {}

  /** A list without one of its distinct entries. */
  lemma Removed(queue: seq<nat>, i: nat)
    requires i < |queue| && forall j, k | 0 <= j < k < |queue| :: queue[j] != queue[k]
    ensures forall q :: q in queue[..i] + queue[i + 1..] <==> q in queue && q != queue[i]
  {
    var rest := queue[..i] + queue[i + 1..];
    forall q | q in queue && q != queue[i] ensures q in rest {
      var j :| 0 <= j < |queue| && queue[j] == q;
      assert if j < i then rest[j] == q else rest[j - 1] == q;
    }
  }

  lemma OutsideStaysGood(c: Config, s: State, a: Action, s': State)
    requires Inv(c, s) && Good(c, s) && (a.Tick? || a.Crash? || a.LoadError?) && Apply(c, s, a) == Some(s')
    ensures Good(c, s') && s'.log == s.log
  {
    hide Taken, BridgeOk, ShimOk, ReadyOk, Frames, Pending, Queued, QueueOk, Waiting;
    QueueSame(s, s');
    WaitingSame(c, s, s', if s.trip > 0 then s.trip - 1 else 0);
    assert Slot(s'.mem) == Slot(s.mem);
  }

  /** One step of any kind. */
  lemma StepIsWell(c: Config, s: State, a: Action, s': State)
    requires Inv(c, s) && Good(c, s) && Apply(c, s, a) == Some(s')
    ensures StepsWell(c, s, s')
  {
    hide Inv, Good, ShimApply, BridgeApply, Frames, Expected;
    InvIsLawful(c, s);
    match a
    case ShimStep => ShimStepsWell(c, s, s');
    case BridgeStep => BridgeStaysGood(c, s, s');
    case Take => TakeStaysGood(c, s, s');
    case Settle(i) => SettleStaysGood(c, s, i, s');
    case _ => OutsideStaysGood(c, s, a, s');
  }

  // --- over runs -----------------------------------------------------------

  lemma ShimGrowsLog(c: Config, s: State, s': State)
    requires ShimApply(c, s) == Some(s')
    ensures s.log <= s'.log && |s'.log| <= |s.log| + 1
  {
    hide Concat, HasMore, HasMeta, ErrorText, Min;
    match s.shim
    case Act(_, _, _) =>
    case Assemble =>
    case Check =>
    case _ => assert s'.log == s.log;
  }

  lemma StepGrowsLog(c: Config, s: State, a: Action, s': State)
    requires Apply(c, s, a) == Some(s')
    ensures s.log <= s'.log && |s'.log| <= |s.log| + 1 && (!a.ShimStep? ==> s'.log == s.log)
  {
    hide ShimApply, BridgeApply;
    if a.BridgeStep? { BridgeEffect(c, s, s'); }
    if a.ShimStep? { ShimGrowsLog(c, s, s'); }
  }

  lemma {:induction false} LogOnlyGrows(c: Config, s: State, acts: seq<Action>, s': State)
    requires Run(c, s, acts) == Some(s')
    ensures s.log <= s'.log
    decreases |acts|
  {
    hide ShimApply, BridgeApply;
    if |acts| == 0 {
    } else {
      var s1 := Apply(c, s, acts[0]).value;
      StepGrowsLog(c, s, acts[0], s1);
      LogOnlyGrows(c, s1, acts[1..], s');
    }
  }

  /** Among the round trips `from` to `to` one was abandoned whose answer is still to come. */
  ghost predicate Spoiled(c: Config, log: seq<Result>, from: nat, to: nat)
    requires c.cap >= 1 && to <= |log|
  {
    exists j: nat | from <= j < to :: log[j] == Threw(NoAnswer) && Frames(c, j) != []
  }

  ghost predicate AsOwed(c: Config, i: nat, r: Result)
    requires c.cap >= 1
  {
    r == Threw(NoAnswer) || Expected(c, i) == Some(r)
  }

  lemma {:induction false} RunIsWell(c: Config, s: State, acts: seq<Action>, s': State, n: nat)
    requires Inv(c, s) && n <= |s.log| && Run(c, s, acts) == Some(s')
    requires !Spoiled(c, s.log, n, |s.log|) ==> Good(c, s)
    ensures s.log <= s'.log
    ensures !Spoiled(c, s'.log, n, |s'.log|) ==> Good(c, s')
    ensures forall i: nat | |s.log| <= i < |s'.log| && !Spoiled(c, s'.log, n, i) :: AsOwed(c, i, s'.log[i])
    decreases |acts|
  {
    hide Inv, Good, Apply, Frames, Expected;
    InvIsLawful(c, s);
    if |acts| == 0 {
    } else {
      var s1 := Apply(c, s, acts[0]).value;
      StepKeeps(c, s, acts[0], s1);
      StepGrowsLog(c, s, acts[0], s1);
      if !Spoiled(c, s.log, n, |s.log|) { StepIsWell(c, s, acts[0], s1); }
      RunIsWell(c, s1, acts[1..], s', n);
      assert |s1.log| > |s.log| ==> s'.log[|s.log|] == s1.log[|s.log|];
    }
  }

  // --- the theorems --------------------------------------------------------

  /** `s` is reached from `quiet`, itself a reachable state outside any round trip in which the bridge
      owes nothing: the start of every session is one, and so is every end of a round trip that was
      not abandoned with its answer still to come. */
  ghost predicate AfterQuiet(c: Config, clock: nat, before: seq<Action>, quiet: State, acts: seq<Action>, s: State) {
    && Lawful(c)
    && Run(c, Init(c, clock), before) == Some(quiet)
    && !InTrip(quiet.shim) && OwesNothing(c, quiet)
    && Run(c, quiet, acts) == Some(s)
  }

  lemma QuietIsGood(c: Config, clock: nat, before: seq<Action>, quiet: State, acts: seq<Action>, s: State)
    requires AfterQuiet(c, clock, before, quiet, acts, s)
    ensures Inv(c, s) && |quiet.log| <= |s.log|
    ensures !Spoiled(c, s.log, |quiet.log|, |s.log|) ==> Good(c, s)
    ensures forall i: nat | |quiet.log| <= i < |s.log| && !Spoiled(c, s.log, |quiet.log|, i) :: AsOwed(c, i, s.log[i])
  {
    hide Inv, Apply, OwesNothing, Frames;
    Reachable(c, clock, before, quiet);
    RunKeeps(c, quiet, acts, s);
    RunIsWell(c, quiet, acts, s, |quiet.log|);
  }

  lemma StartIsQuiet(c: Config, clock: nat)
    requires Lawful(c)
    ensures OwesNothing(c, Init(c, clock)) && !InTrip(Init(c, clock).shim)
  {}

  /** Delivery. From any moment at which the bridge owes nothing, whatever the interleaving, body length
      and buffer size: a round trip that returns, returns the head and the body of its own answer; it
      throws what the bridge said exactly when that is what the bridge was left to say; and otherwise
      it ends at its deadline. It holds up to the first round trip abandoned with its answer still to
      come. */
  lemma Delivery(c: Config, clock: nat, before: seq<Action>, quiet: State, acts: seq<Action>, s: State, i: nat)
    requires AfterQuiet(c, clock, before, quiet, acts, s)
    requires |quiet.log| <= i < |s.log| && !Spoiled(c, s.log, |quiet.log|, i)
    ensures match s.log[i]
            case Returned(head, body) => c.outcome(i) == Answer(head, body)
            case Threw(why) =>
              why == NoAnswer || (!Fits(c, i) && |Frames(c, i)| == 1 && why == BridgeSaid(ErrorText(Frames(c, i)[0].bytes)))
  {
    QuietIsGood(c, clock, before, quiet, acts, s);
    if !Fits(c, i) { ErrorShape(c, i); }
    assert AsOwed(c, i, s.log[i]);
  }

  /** So from the start of a session, up to the first round trip so abandoned, each one delivers. */
  lemma DeliveryFromTheStart(c: Config, clock: nat, acts: seq<Action>, s: State, i: nat)
    requires Lawful(c) && Run(c, Init(c, clock), acts) == Some(s)
    requires i < |s.log| && !Spoiled(c, s.log, 0, i)
    ensures match s.log[i]
            case Returned(head, body) => c.outcome(i) == Answer(head, body)
            case Threw(why) =>
              why == NoAnswer || (!Fits(c, i) && |Frames(c, i)| == 1 && why == BridgeSaid(ErrorText(Frames(c, i)[0].bytes)))
  {
    StartIsQuiet(c, clock);
    Delivery(c, clock, [], Init(c, clock), acts, s, i);
  }

  /** Quiet again. Outside a round trip, with none abandoned while its answer was to come, the bridge
      owes nothing: a deadline that passed over a bridge with nothing to say spoils nothing. */
  lemma QuietAgain(c: Config, clock: nat, before: seq<Action>, quiet: State, acts: seq<Action>, s: State)
    requires AfterQuiet(c, clock, before, quiet, acts, s)
    requires !InTrip(s.shim) && !Spoiled(c, s.log, |quiet.log|, |s.log|)
    ensures OwesNothing(c, s)
  {
    QuietIsGood(c, clock, before, quiet, acts, s);
  }

  /** At the moment a round trip puts its body together, exactly 1 + max(1, ceil(n / k)) chunks have
      changed hands, and the last chunk alone lacked MORE. */
  lemma HandOffs(c: Config, clock: nat, before: seq<Action>, quiet: State, acts: seq<Action>, s: State)
    requires AfterQuiet(c, clock, before, quiet, acts, s)
    requires s.shim.Assemble? && !Spoiled(c, s.log, |quiet.log|, |s.log|)
    ensures Fits(c, Current(s))
    ensures s.got == |Frames(c, Current(s))| == 1 + ChunkCount(|c.outcome(Current(s)).body|, c.cap)
    ensures forall j | 1 <= j < s.got :: HasMore(Frames(c, Current(s))[j].flags) <==> j < s.got - 1
  {
    QuietIsGood(c, clock, before, quiet, acts, s);
    AnswerShape(c, s.trip - 1);
  }
}
