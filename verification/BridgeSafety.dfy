/** The memory discipline of the bridge is kept by every step of both threads, in every run: also in
    those where a round trip was abandoned and its answer is still under way. */
module BridgeSafety {
  import opened Text
  import opened Protocol
  import opened SharedBridge

  lemma InvInit(c: Config, clock: nat)
    requires Lawful(c)
    ensures Inv(c, Init(c, clock))
  {}

  // --- steps of the shim ---------------------------------------------------

  lemma QueueSame(s: State, s': State)
    requires s'.awaiting == s.awaiting && s'.inbox == s.inbox
    ensures Queued(s') == Queued(s)
  {}

  lemma OutsideKeeps(c: Config, s: State, s': State)
    requires Inv(c, s) && ShimApply(c, s) == Some(s') && !InTrip(s.shim) && !s.shim.Post?
    ensures Inv(c, s')
  {
    hide Slot, Queued, QueueOk;
    QueueSame(s, s');
  }

  lemma PostKeeps(c: Config, s: State, s': State)
    requires Inv(c, s) && ShimApply(c, s) == Some(s') && s.shim.Post?
    ensures Inv(c, s')
  {
    hide Slot;
    assert Queued(s') == Queued(s) + [s.trip];
  }

  lemma WaitingKeeps(c: Config, s: State, s': State)
    requires Inv(c, s) && ShimApply(c, s) == Some(s')
    requires s.shim.SetDeadline? || s.shim.Poll? || s.shim.Check? || s.shim.Wait? || s.shim.Blocked?
    ensures Inv(c, s')
  {
    hide Slot, Queued, QueueOk;
    QueueSame(s, s');
  }

  lemma LoadKeeps(c: Config, s: State, s': State)
    requires Inv(c, s) && ShimApply(c, s) == Some(s')
    requires s.shim.LoadState? || s.shim.LoadFlags? || s.shim.LoadLen?
    ensures Inv(c, s')
  {
    hide Slot, Queued, QueueOk;
    QueueSame(s, s');
  }

  lemma SliceKeeps(c: Config, s: State, s': State)
    requires Inv(c, s) && ShimApply(c, s) == Some(s') && s.shim.Copy?
    ensures Inv(c, s')
  {
    hide Slot, Queued, QueueOk;
    QueueSame(s, s');
  }

  lemma ReleaseKeeps(c: Config, s: State, s': State)
    requires Inv(c, s) && ShimApply(c, s) == Some(s') && (s.shim.Release? || s.shim.Notify?)
    ensures Inv(c, s')
  {
    hide Slot, Queued, QueueOk;
    QueueSame(s, s');
  }

  lemma ActKeeps(c: Config, s: State, s': State)
    requires Inv(c, s) && ShimApply(c, s) == Some(s') && (s.shim.Act? || s.shim.Assemble?)
    ensures Inv(c, s')
  {
    hide Slot, Concat, ErrorText, Queued, QueueOk;
    QueueSame(s, s');
  }

  lemma ShimKeeps(c: Config, s: State, s': State)
    requires Inv(c, s) && ShimApply(c, s) == Some(s')
    ensures Inv(c, s')
  {
    hide Inv, ShimApply;
    if s.shim.Post? {
      PostKeeps(c, s, s');
    } else if !InTrip(s.shim) {
      OutsideKeeps(c, s, s');
    } else {
      match s.shim
      case LoadState => LoadKeeps(c, s, s');
      case LoadFlags(_) => LoadKeeps(c, s, s');
      case LoadLen(_, _) => LoadKeeps(c, s, s');
      case Copy(_, _, _, _) => SliceKeeps(c, s, s');
      case Release(_, _, _) => ReleaseKeeps(c, s, s');
      case Notify(_, _, _) => ReleaseKeeps(c, s, s');
      case Act(_, _, _) => ActKeeps(c, s, s');
      case Assemble => ActKeeps(c, s, s');
      case _ => WaitingKeeps(c, s, s');
    }
  }

  // --- steps of the bridge -------------------------------------------------

  lemma CopyByteKeeps(c: Config, s: State, s': State)
    requires Inv(c, s) && s.bridge.BCopy? && s.bridge.i < |s.bridge.w.bytes| <= c.cap
    requires BridgeApply(c, s) == Some(s')
    ensures Inv(c, s')
  {
    hide Slot, Queued, QueueOk;
    QueueSame(s, s');
    var w, i := s.bridge.w, s.bridge.i;
    assert w.bytes[..i + 1] == w.bytes[..i] + [w.bytes[i]];
    assert s'.mem.data[..i + 1] == s.mem.data[..i] + [w.bytes[i]];
  }

  lemma CopyEndKeeps(c: Config, s: State, s': State)
    requires Inv(c, s) && s.bridge.BCopy? && (s.bridge.i >= |s.bridge.w.bytes| || |s.bridge.w.bytes| > c.cap)
    requires BridgeApply(c, s) == Some(s')
    ensures Inv(c, s')
  {
    hide Slot, Queued, QueueOk;
    QueueSame(s, s');
    assert s.bridge.w.bytes[..|s.bridge.w.bytes|] == s.bridge.w.bytes;
  }

  lemma PublishKeeps(c: Config, s: State, s': State)
    requires Inv(c, s) && s.bridge.BPublish? && BridgeApply(c, s) == Some(s')
    ensures Inv(c, s')
  {
    hide Queued, QueueOk;
    QueueSame(s, s');
    var w := s.bridge.w;
    assert Slot(s'.mem) == [Frame(w.bytes, w.flags, w.state)];
  }

  lemma StoreKeeps(c: Config, s: State, s': State)
    requires Inv(c, s) && BridgeApply(c, s) == Some(s')
    requires s.bridge.BStoreLen? || s.bridge.BStoreFlags?
    ensures Inv(c, s')
  {
    hide Slot, Queued, QueueOk;
    QueueSame(s, s');
  }

  lemma StartKeeps(c: Config, s: State, s': State)
    requires Inv(c, s) && BridgeApply(c, s) == Some(s') && (s.bridge.Starting? || s.bridge.ReadyNotify?)
    ensures Inv(c, s')
  {
    hide Queued, QueueOk;
    QueueSame(s, s');
  }

  lemma WaitKeeps(c: Config, s: State, s': State)
    requires Inv(c, s) && BridgeApply(c, s) == Some(s')
    requires s.bridge.BPoll? || s.bridge.BWait? || s.bridge.BBlocked? || s.bridge.BNotify?
    ensures Inv(c, s')
  {
    hide Slot, Queued, QueueOk;
    QueueSame(s, s');
  }

  lemma NextEffect(c: Config, s: State, s': State)
    requires s.bridge.BNext? && BridgeApply(c, s) == Some(s')
    ensures s' == s.(bridge := s'.bridge)
    ensures s'.bridge.BNext? || s'.bridge.Idle? || (s'.bridge.BPoll? && s'.bridge.w.state == CHUNK)
  {
    hide BodyOf;
  }

  lemma NextKeeps(c: Config, s: State, s': State)
    requires Inv(c, s) && s.bridge.BNext? && BridgeApply(c, s) == Some(s')
    ensures Inv(c, s')
  {
    hide Slot, BridgeApply, Queued, QueueOk;
    NextEffect(c, s, s');
    QueueSame(s, s');
  }

  lemma BridgeKeeps(c: Config, s: State, s': State)
    requires Inv(c, s) && BridgeApply(c, s) == Some(s')
    ensures Inv(c, s')
  {
    hide Inv, Slot, BodyOf;
    match s.bridge
    case BCopy(w, i) => if i < |w.bytes| <= c.cap { CopyByteKeeps(c, s, s'); } else { CopyEndKeeps(c, s, s'); }
    case BPublish(_) => PublishKeeps(c, s, s');
    case BStoreLen(_) => StoreKeeps(c, s, s');
    case BStoreFlags(_) => StoreKeeps(c, s, s');
    case BNext(_) => NextKeeps(c, s, s');
    case Starting => StartKeeps(c, s, s');
    case ReadyNotify => StartKeeps(c, s, s');
    case Idle =>
    case Dead =>
    case _ => WaitKeeps(c, s, s');
  }

  // --- everything else -----------------------------------------------------

  lemma TakeKeeps(c: Config, s: State, s': State)
    requires Inv(c, s) && Apply(c, s, Take) == Some(s')
    ensures Inv(c, s')
  {
    hide Slot, QueueOk;
    assert Queued(s') == Queued(s);
  }

  lemma SettleKeeps(c: Config, s: State, i: nat, s': State)
    requires Inv(c, s) && Apply(c, s, Settle(i)) == Some(s')
    ensures Inv(c, s')
  {
    hide Slot;
    assert Queued(s') == Queued(s)[..i] + Queued(s)[i + 1..];
  }

  lemma EnvironmentKeeps(c: Config, s: State, a: Action, s': State)
    requires Inv(c, s) && (a.Tick? || a.Crash? || a.LoadError?) && Apply(c, s, a) == Some(s')
    ensures Inv(c, s')
  {
    hide Queued, QueueOk;
    QueueSame(s, s');
  }

  /** One step of any kind. */
  lemma StepKeeps(c: Config, s: State, a: Action, s': State)
    requires Inv(c, s) && Apply(c, s, a) == Some(s')
    ensures Inv(c, s')
  {
    hide Inv, ShimApply, BridgeApply;
    match a
    case ShimStep => ShimKeeps(c, s, s');
    case BridgeStep => BridgeKeeps(c, s, s');
    case Take => TakeKeeps(c, s, s');
    case Settle(i) => SettleKeeps(c, s, i, s');
    case _ => EnvironmentKeeps(c, s, a, s');
  }

  lemma {:induction false} RunKeeps(c: Config, s: State, acts: seq<Action>, s': State)
    requires Inv(c, s) && Run(c, s, acts) == Some(s')
    ensures Inv(c, s')
    decreases |acts|
  {
    hide Inv, ShimApply, BridgeApply;
    if |acts| == 0 {
    } else {
      var s1 := Apply(c, s, acts[0]).value;
      StepKeeps(c, s, acts[0], s1);
      RunKeeps(c, s1, acts[1..], s');
    }
  }

  lemma Reachable(c: Config, clock: nat, acts: seq<Action>, s: State)
    requires Lawful(c) && Run(c, Init(c, clock), acts) == Some(s)
    ensures Inv(c, s)
  {
    InvInit(c, clock);
    RunKeeps(c, Init(c, clock), acts, s);
  }

  // --- the theorems --------------------------------------------------------

  /** In every run: while the bridge is writing, the shim is not reading, and the chunk it releases is
      the whole of what the bridge last published. A half-written word is never seen. */
  lemma NeverHalfWritten(c: Config, clock: nat, acts: seq<Action>, s: State)
    requires Lawful(c) && Run(c, Init(c, clock), acts) == Some(s)
    ensures !(Reading(s.shim) && Writing(s.bridge))
    ensures s.shim.Release? ==>
              |s.published| > 0 && Frame(s.shim.payload, s.shim.fl, s.shim.st) == s.published[|s.published| - 1]
  {
    Reachable(c, clock, acts, s);
    if s.shim.Release? {
      assert Slot(s.mem) == [Frame(s.shim.payload, s.shim.fl, s.shim.st)];
    }
  }

  /** A request is posted only to a bridge that reported READY_OK. */
  lemma NoRequestBeforeReady(c: Config, clock: nat, acts: seq<Action>, s: State)
    requires Lawful(c) && Run(c, Init(c, clock), acts) == Some(s)
    ensures s.shim.Post? ==> s.mem.ready == READY_OK && c.starts && !s.bridgeError
    ensures !c.starts ==> s.trip == 0 && s.inbox == [] && s.awaiting == [] && s.log == []
  {
    Reachable(c, clock, acts, s);
  }
}
