/** The blocking bridge as two threads over one shared buffer.

    Every atomic load, store and notify is one step, and so is every byte `data.set` or `data.slice`
    moves; the two threads' steps interleave in any order (sequential consistency). `Apply` is the
    step relation, and a run is any list of actions it accepts. */
module SharedBridge {
  import opened Text
  import opened Protocol

  datatype Memory = Memory(ready: nat, state: nat, len: nat, flags: nat, data: string)

  /** Where the DuckDB thread stands in `waitForBridge` and `roundTrip`. */
  datatype ShimPc =
    | Outside
    | ReadyLoad(limit: nat)
    | ReadyCheck(limit: nat)
    | ReadyWait(limit: nat)
    | ReadyBlocked(limit: nat, until: nat)
    | ReadyFinal
    | Arm
    | Post
    | SetDeadline
    | Poll
    | Check
    | Wait(seen: nat)        // `seen` is the clock `remaining` was computed from
    | Blocked(until: nat)
    | LoadState
    | LoadFlags(st: nat)
    | LoadLen(st: nat, fl: nat)
    | Copy(st: nat, fl: nat, ln: nat, payload: string)
    | Release(st: nat, fl: nat, payload: string)
    | Notify(st: nat, fl: nat, payload: string)
    | Act(st: nat, fl: nat, payload: string)
    | Assemble

  /** What the message handler does after one `writeChunk`. */
  datatype Then =
    | Body(t: nat)           // META is out: test for an empty body
    | Loop(t: nat, at: nat)  // the head of the chunk loop
    | Stop

  /** One activation of `writeChunk`. */
  datatype Write = Write(bytes: string, flags: nat, state: nat, next: Then)

  datatype BridgePc =
    | Starting
    | ReadyNotify
    | Idle                   // in the event loop
    | BPoll(w: Write)
    | BWait(w: Write, seen: nat)
    | BBlocked(w: Write, until: nat)
    | BCopy(w: Write, i: nat)
    | BStoreLen(w: Write)
    | BStoreFlags(w: Write)
    | BPublish(w: Write)
    | BNotify(w: Write)
    | BNext(k: Then)
    | Dead

  /** `inbox` is the port towards the bridge, `awaiting` the requests whose transport is out.
      `trip` counts the requests posted, `got` the chunks released in the current round trip, and
      `log[i]` is how round trip `i` ended. `published` is every frame the bridge has published. */
  datatype State = State(
    mem: Memory,
    shim: ShimPc,
    bridge: BridgePc,
    inbox: seq<nat>,
    awaiting: seq<nat>,
    now: nat,
    bridgeError: bool,
    trip: nat,
    deadline: nat,
    meta: Option<Head>,
    chunks: seq<string>,
    got: nat,
    log: seq<Result>,
    published: seq<Frame>)

  function Init(c: Config, clock: nat): State {
    State(Memory(NOT_READY, IDLE, 0, 0, seq(c.cap, _ => '\0')), Outside, Starting, [], [], clock, false,
          0, 0, None, [], 0, [], [])
  }

  datatype Action =
    | ShimStep
    | BridgeStep
    | Take                   // the event loop takes the next message
    | Settle(i: nat)         // the transport of the i-th request being awaited settles
    | Tick(ms: nat)
    | Crash                  // the bridge stops for good
    | LoadError              // the worker's `error` event, seen while the shim is in its event loop

  function Finish(s: State, r: Result): State {
    s.(shim := Outside, log := s.log + [r])
  }

  function ShimApply(c: Config, s: State): Option<State> {
    match s.shim
    case Outside => Some(if s.bridgeError then s else s.(shim := ReadyLoad(s.now + START_MS)))
    case ReadyLoad(limit) => Some(s.(shim := if s.mem.ready == NOT_READY then ReadyCheck(limit) else ReadyFinal))
    case ReadyCheck(limit) => Some(s.(shim := if s.now > limit then Outside else ReadyWait(limit)))
    case ReadyWait(limit) =>
      Some(s.(shim := if s.mem.ready != NOT_READY then ReadyLoad(limit) else ReadyBlocked(limit, s.now + WAIT_MS)))
    case ReadyBlocked(limit, until) => if s.now >= until then Some(s.(shim := ReadyLoad(limit))) else None
    case ReadyFinal => Some(s.(shim := if s.mem.ready == READY_FAILED then Outside else Arm))
    case Arm => Some(s.(mem := s.mem.(state := IDLE), shim := Post))
    case Post =>
      Some(s.(inbox := s.inbox + [s.trip], trip := s.trip + 1, meta := None, chunks := [], got := 0, shim := SetDeadline))
    case SetDeadline => Some(s.(deadline := s.now + c.budget + GRACE_MS, shim := Poll))
    case Poll => Some(s.(shim := if s.mem.state == IDLE then Check else LoadState))
    case Check =>
      Some(if s.now >= s.deadline then Finish(s, Threw(NoAnswer)) else s.(shim := Wait(s.now)))
    case Wait(seen) =>
      if seen > s.deadline then None
      else Some(s.(shim := if s.mem.state != IDLE then Poll else Blocked(s.now + Min(s.deadline - seen, WAIT_MS))))
    case Blocked(until) => if s.now >= until then Some(s.(shim := Poll)) else None
    case LoadState => Some(s.(shim := LoadFlags(s.mem.state)))
    case LoadFlags(st) => Some(s.(shim := LoadLen(st, s.mem.flags)))
    case LoadLen(st, fl) => Some(s.(shim := Copy(st, fl, s.mem.len, "")))
    case Copy(st, fl, ln, payload) =>
      Some(s.(shim := if |payload| < Min(ln, |s.mem.data|) then Copy(st, fl, ln, payload + [s.mem.data[|payload|]])
                      else Release(st, fl, payload)))
    case Release(st, fl, payload) =>
      Some(s.(mem := s.mem.(state := IDLE), got := s.got + 1, shim := Notify(st, fl, payload)))
    case Notify(st, fl, payload) =>
      Some(s.(bridge := if s.bridge.BBlocked? then BPoll(s.bridge.w) else s.bridge, shim := Act(st, fl, payload)))
    case Act(st, fl, payload) =>
      Some(
        if st == ERROR then Finish(s, Threw(BridgeSaid(ErrorText(payload))))
        else if HasMeta(fl) then
          match c.parse(payload)
          case None => Finish(s, Threw(BadMeta))
          case Some(head) => s.(meta := Some(head), shim := Poll)
        else s.(chunks := s.chunks + [payload], shim := if HasMore(fl) then Poll else Assemble))
    case Assemble =>
      Some(match s.meta
           case None => Finish(s, Threw(NoMeta))
           case Some(head) => Finish(s, Returned(head, Concat(s.chunks))))
  }

  function BodyOf(c: Config, t: nat): string {
    if c.outcome(t).Answer? then c.outcome(t).body else ""
  }

  function BridgeApply(c: Config, s: State): Option<State> {
    match s.bridge
    case Starting =>
      Some(s.(mem := s.mem.(ready := if c.starts then READY_OK else READY_FAILED), bridge := ReadyNotify))
    case ReadyNotify =>
      Some(s.(shim := if s.shim.ReadyBlocked? then ReadyLoad(s.shim.limit) else s.shim, bridge := Idle))
    case Idle => None
    case BPoll(w) => Some(s.(bridge := if s.mem.state != IDLE then BWait(w, s.mem.state) else BCopy(w, 0)))
    case BWait(w, seen) =>
      Some(s.(bridge := if s.mem.state != seen then BPoll(w) else BBlocked(w, s.now + WAIT_MS)))
    case BBlocked(w, until) => if s.now >= until then Some(s.(bridge := BPoll(w))) else None
    case BCopy(w, i) =>
      if |w.bytes| > |s.mem.data| then
        Some(s.(bridge := if w.state == CHUNK then BPoll(Write(RANGE_ERROR, 0, ERROR, Stop)) else Idle))
      else if i < |w.bytes| then
        Some(s.(mem := s.mem.(data := s.mem.data[i := w.bytes[i]]), bridge := BCopy(w, i + 1)))
      else Some(s.(bridge := BStoreLen(w)))
    case BStoreLen(w) => Some(s.(mem := s.mem.(len := |w.bytes|), bridge := BStoreFlags(w)))
    case BStoreFlags(w) => Some(s.(mem := s.mem.(flags := w.flags), bridge := BPublish(w)))
    case BPublish(w) =>
      Some(s.(mem := s.mem.(state := w.state), bridge := BNotify(w),
              published := s.published + [Frame(w.bytes, w.flags, w.state)]))
    case BNotify(w) =>
      Some(s.(shim := if s.shim.Blocked? then Poll else s.shim, bridge := BNext(w.next)))
    case BNext(k) => (
      match k
      case Body(t) =>
        Some(s.(bridge := if |BodyOf(c, t)| == 0 then BPoll(Write("", 0, CHUNK, Stop)) else BNext(Loop(t, 0))))
      case Loop(t, at) =>
        var body := BodyOf(c, t);
        if at < |body| then
          var end := Min(at + c.cap, |body|);
          Some(s.(bridge := BPoll(Write(body[at..end], if end < |body| then MORE else 0, CHUNK, Loop(t, at + c.cap)))))
        else Some(s.(bridge := Idle))
      case Stop => Some(s.(bridge := Idle)))
    case Dead => None
  }

  function Opening(c: Config, t: nat): Write {
    match c.outcome(t)
    case Answer(head, _) => Write(c.stringify(head), META, CHUNK, Body(t))
    case Failure(message) => Write(message, 0, ERROR, Stop)
  }

  /** The state after `a`, or None when `a` cannot be taken in `s`. */
  function Apply(c: Config, s: State, a: Action): Option<State> {
    match a
    case ShimStep => ShimApply(c, s)
    case BridgeStep => BridgeApply(c, s)
    case Take =>
      if s.bridge.Idle? && |s.inbox| > 0 then
        Some(s.(awaiting := s.awaiting + [s.inbox[0]], inbox := s.inbox[1..]))
      else None
    case Settle(i) =>
      if s.bridge.Idle? && i < |s.awaiting| then
        Some(s.(awaiting := s.awaiting[..i] + s.awaiting[i + 1..], bridge := BPoll(Opening(c, s.awaiting[i]))))
      else None
    case Tick(ms) => Some(s.(now := s.now + ms))
    case Crash => if s.bridge.Dead? then None else Some(s.(bridge := Dead))
    case LoadError =>
      if s.shim.Outside? then Some(s.(bridgeError := true, mem := s.mem.(ready := READY_FAILED))) else None
  }

  /** `acts` can be taken one after the other from `s`, and end in the result. */
  function Run(c: Config, s: State, acts: seq<Action>): Option<State>
    decreases |acts|
  {
    if |acts| == 0 then Some(s)
    else
      match Apply(c, s, acts[0])
      case None => None
      case Some(s') => Run(c, s', acts[1..])
  }

  // --- the invariant -------------------------------------------------------

  /** The chunk in the shared slot, if STATE says there is one. */
  function Slot(m: Memory): seq<Frame> {
    if m.state == IDLE then [] else [Frame(m.data[..Min(m.len, |m.data|)], m.flags, m.state)]
  }

  function ThenFrames(c: Config, k: Then): seq<Frame>
    requires c.cap >= 1
  {
    match k
    case Body(t) => BodyFrames(BodyOf(c, t), c.cap)
    case Loop(t, at) => DataFrames(BodyOf(c, t), at, c.cap)
    case Stop => []
  }

  function WriteFrames(c: Config, w: Write): seq<Frame>
    requires c.cap >= 1
  {
    if |w.bytes| <= c.cap then [Frame(w.bytes, w.flags, w.state)] + ThenFrames(c, w.next)
    else if w.state == CHUNK then ErrorFrames(c, RANGE_ERROR)
    else []
  }

  /** The chunks the bridge still has to publish, read off where it stands. */
  function Pending(c: Config, b: BridgePc): seq<Frame>
    requires c.cap >= 1
  {
    match b
    case Starting => []
    case ReadyNotify => []
    case Idle => []
    case BPoll(w) => WriteFrames(c, w)
    case BWait(w, _) => WriteFrames(c, w)
    case BBlocked(w, _) => WriteFrames(c, w)
    case BCopy(w, _) => WriteFrames(c, w)
    case BStoreLen(w) => WriteFrames(c, w)
    case BStoreFlags(w) => WriteFrames(c, w)
    case BPublish(w) => WriteFrames(c, w)
    case BNotify(w) => ThenFrames(c, w.next)
    case BNext(k) => ThenFrames(c, k)
    case Dead => []
  }

  function Queued(s: State): seq<nat> {
    s.awaiting + s.inbox
  }

  /** The request of the round trip under way. */
  function Current(s: State): nat {
    if s.trip == 0 then 0 else s.trip - 1
  }

  predicate InTrip(p: ShimPc) {
    !p.Outside? && !p.ReadyLoad? && !p.ReadyCheck? && !p.ReadyWait? && !p.ReadyBlocked? && !p.ReadyFinal? &&
    !p.Arm? && !p.Post?
  }

  /** The shim holds a chunk it has released but not yet acted on. */
  predicate InHand(p: ShimPc) {
    p.Notify? || p.Act?
  }

  predicate Reading(p: ShimPc) {
    p.LoadState? || p.LoadFlags? || p.LoadLen? || p.Copy? || p.Release?
  }

  predicate Writing(b: BridgePc) {
    b.BCopy? || b.BStoreLen? || b.BStoreFlags? || b.BPublish?
  }

  predicate HasWrite(b: BridgePc) {
    b.BPoll? || b.BWait? || b.BBlocked? || Writing(b) || b.BNotify?
  }

  /** STATE is IDLE while the bridge writes, and what it has written so far is in the buffer: the
      half-written words a reader must never see. */
  ghost predicate BridgeOk(c: Config, s: State)
    requires |s.mem.data| == c.cap
  {
    var m, b := s.mem, s.bridge;
    && (HasWrite(b) ==> b.w.state == CHUNK || b.w.state == ERROR)
    && (Writing(b) ==> m.state == IDLE)
    && (b.BCopy? ==> b.i <= |b.w.bytes| && (|b.w.bytes| <= c.cap ==> m.data[..b.i] == b.w.bytes[..b.i]))
    && (b.BStoreLen? || b.BStoreFlags? || b.BPublish? ==>
          |b.w.bytes| <= c.cap && m.data[..|b.w.bytes|] == b.w.bytes)
    && (b.BStoreFlags? || b.BPublish? ==> m.len == |b.w.bytes|)
    && (b.BPublish? ==> m.flags == b.w.flags)
    && (b.BWait? ==> b.seen != IDLE)
  }

  /** What the slot holds is what the bridge last published, and what the shim has loaded so far is
      what the slot holds. */
  ghost predicate ShimOk(c: Config, s: State)
    requires |s.mem.data| == c.cap
  {
    var m, p := s.mem, s.shim;
    && (Reading(p) ==> m.state != IDLE)
    && (p.LoadFlags? || p.LoadLen? || p.Copy? || p.Release? ==> p.st == m.state)
    && (p.LoadLen? || p.Copy? || p.Release? ==> p.fl == m.flags)
    && (m.state != IDLE ==> m.len <= c.cap && |s.published| > 0 && Slot(m) == [s.published[|s.published| - 1]])
    && (p.Copy? ==> p.ln == m.len && |p.payload| <= m.len && p.payload == m.data[..|p.payload|])
    && (p.Release? ==> p.payload == m.data[..m.len])
    && (p.Wait? ==> p.seen < s.deadline && p.seen <= s.now)
    && (p.Blocked? ==> p.until <= s.now + WAIT_MS)
  }

  /** Requests are numbered as they are posted, and each is in one place. */
  ghost predicate QueueOk(queue: seq<nat>, trip: nat) {
    && (forall i | 0 <= i < |queue| :: queue[i] < trip)
    && (forall i, j | 0 <= i < j < |queue| :: queue[i] != queue[j])
  }

  /** What the shim has made of the first `k` chunks of request `t`. */
  ghost predicate Taken(c: Config, t: nat, k: nat, meta: Option<Head>, chunks: seq<string>)
    requires c.cap >= 1
  {
    && (k == 0 ==> meta == None && chunks == [])
    && (k >= 1 ==>
          && Fits(c, t)
          && k <= |Frames(c, t)|
          && meta == Some(c.outcome(t).head)
          && chunks == Payloads(Frames(c, t)[1..k]))
  }

  /** The frames request `t` still has to come with, if nobody has begun to answer it. */
  function Waiting(c: Config, s: State, t: nat): seq<Frame>
    requires c.cap >= 1
  {
    if t in Queued(s) then Frames(c, t) else []
  }

  /** Inside a round trip nothing is lost, repeated or reordered: what was released, what is in the
      slot and what the bridge still owes make up the answer. */
  ghost predicate TripOk(c: Config, s: State)
    requires c.cap >= 1
  {
    s.trip >= 1 &&
    var t := s.trip - 1;
    var f := Frames(c, t);
    && s.got <= |f|
    && (s.bridge.Dead? ==> Slot(s.mem) <= f[s.got..])
    && (!s.bridge.Dead? ==>
          && (forall q | q in Queued(s) && q != t :: Frames(c, q) == [])
          && f[s.got..] == Slot(s.mem) + Pending(c, s.bridge) + Waiting(c, s, t))
    && (InHand(s.shim) ==> s.got >= 1 && Frame(s.shim.payload, s.shim.fl, s.shim.st) == f[s.got - 1])
    && Taken(c, t, if InHand(s.shim) then s.got - 1 else s.got, s.meta, s.chunks)
    && (s.shim.Assemble? ==> s.got == |f| >= 1)
    && (!s.shim.Assemble? && !InHand(s.shim) ==> f == [] || s.got < |f|)
  }

  /** The slot is empty and no frame is to come: none half-way, none for a request still queued. */
  ghost predicate OwesNothing(c: Config, s: State)
    requires c.cap >= 1
  {
    && s.mem.state == IDLE
    && (!s.bridge.Dead? ==> Pending(c, s.bridge) == [] && forall q | q in Queued(s) :: Frames(c, q) == [])
  }

  /** The READY handshake: past the wait the bridge has started, and started well. */
  ghost predicate ReadyOk(c: Config, s: State) {
    var ready, p := s.mem.ready, s.shim;
    && (ready == NOT_READY || ready == READY_OK || ready == READY_FAILED)
    && (s.bridgeError ==> p.Outside?)
    && (!s.bridgeError && s.bridge.Starting? ==> ready == NOT_READY)
    && (!s.bridgeError && ready == READY_OK ==> c.starts)
    && (p.ReadyFinal? ==> ready != NOT_READY)
    && (p.Arm? || p.Post? || InTrip(p) ==> ready == READY_OK)
    && (|s.inbox| + |s.awaiting| > 0 || s.trip > 0 ==> c.starts)
  }

  /** What holds in every reachable state, whatever was abandoned before. */
  ghost predicate Inv(c: Config, s: State) {
    && Lawful(c)
    && |s.mem.data| == c.cap
    && |s.log| == (if InTrip(s.shim) then s.trip - 1 else s.trip)
    && BridgeOk(c, s)
    && ShimOk(c, s)
    && QueueOk(Queued(s), s.trip)
    && ReadyOk(c, s)
  }

  /** What holds as long as no request is posted to a bridge that still owes frames. */
  ghost predicate Good(c: Config, s: State)
    requires c.cap >= 1
  {
    if InTrip(s.shim) then TripOk(c, s) else OwesNothing(c, s)
  }
}
