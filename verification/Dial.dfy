/** Dialling: many requests over one shared connection cache, with the redial-once policy.

    Each lock-protected cache operation is one step, and so is each outcome of connect, open, write
    and read; `reused` and `get_or_connect` are separate steps, so two requests really can race. */
module Dial {
  import opened Text

  type PeerId = nat
  type Conn = nat

  /** Connections cached by peer. */
  class ConnCache {
    var inner: map<PeerId, Conn>

    constructor ()
      ensures inner == map[]
    {
      inner := map[];
    }

    method Get(id: PeerId) returns (r: Option<Conn>)
      ensures r == Lookup(inner, id)
    {
      r := if id in inner then Some(inner[id]) else None;
    }

    method Put(id: PeerId, conn: Conn)
      modifies this
      ensures inner == old(inner)[id := conn]
    {
      inner := inner[id := conn];
    }

    method Invalidate(id: PeerId)
      modifies this
      ensures inner == old(inner) - {id}
      ensures Lookup(inner, id) == None && forall other | other != id :: Lookup(inner, other) == Lookup(old(inner), other)
    {
      inner := inner - {id};
    }

    method CloseAll() returns (closed: set<Conn>)
      modifies this
      ensures inner == map[] && closed == old(inner).Values
    {
      closed := inner.Values;
      inner := map[];
    }
  }

  function Lookup(cache: map<PeerId, Conn>, id: PeerId): Option<Conn> {
    if id in cache then Some(cache[id]) else None
  }

  /** How one attempt failed. */
  datatype Failure = BeforeSend | AfterSend

  datatype Ending = Response | Failed(why: Failure) | NotConnected

  /** Where one call of `request_async` stands; `second` is false on the first attempt. */
  datatype Pc =
    | Start
    | Get(second: bool)
    | Connect(second: bool)
    | Put(second: bool, conn: Conn)
    | Open(second: bool, conn: Conn)
    | Write(second: bool, conn: Conn)
    | Read(second: bool, conn: Conn)
    | Judge(second: bool, conn: Conn, why: Failure)
    | Invalidate(retry: bool, conn: Conn, why: Failure)
    | Done(ending: Ending)

  /** `attempts` counts the streams tried, `written` the connections the whole request was written
      to, `failedOn` the connection of the last failed attempt, `blamed` the connections whose failure
      this request answered with an invalidation. */
  datatype Request = Request(
    id: PeerId, pc: Pc, reused: bool, attempts: nat, written: seq<Conn>, failedOn: Option<Conn>, blamed: set<Conn>)

  /** `owner` says which peer each connection ever dialled leads to; its size numbers the next. */
  datatype State = State(cache: map<PeerId, Conn>, owner: seq<PeerId>, reqs: seq<Request>)

  function NewRequest(id: PeerId): Request {
    Request(id, Start, false, 0, [], None, {})
  }

  function Init(ids: seq<PeerId>): State {
    State(map[], [], seq(|ids|, i requires 0 <= i < |ids| => NewRequest(ids[i])))
  }

  /** One step of request `i`, with the outcome the network chose, or the whole cache closed. */
  datatype Action = Step(i: nat, ok: bool) | CloseAll

  predicate MayRetry(why: Failure, reused: bool) {
    reused && why == BeforeSend
  }

  function Fail(r: Request, second: bool, conn: Conn, why: Failure): Request {
    r.(pc := Judge(second, conn, why), failedOn := Some(conn))
  }

  function StepRequest(s: State, r: Request, ok: bool): Option<(map<PeerId, Conn>, seq<PeerId>, Request)> {
    match r.pc
    case Start => Some((s.cache, s.owner, r.(reused := r.id in s.cache, pc := Get(false))))
    case Get(second) =>
      Some((s.cache, s.owner, r.(pc := if r.id in s.cache then Open(second, s.cache[r.id]) else Connect(second))))
    case Connect(second) =>
      if ok then Some((s.cache, s.owner + [r.id], r.(pc := Put(second, |s.owner|))))
      else Some((s.cache, s.owner, r.(pc := Done(NotConnected))))
    case Put(second, conn) => Some((s.cache[r.id := conn], s.owner, r.(pc := Open(second, conn))))
    case Open(second, conn) =>
      var r' := r.(attempts := r.attempts + 1);
      Some((s.cache, s.owner, if ok then r'.(pc := Write(second, conn)) else Fail(r', second, conn, BeforeSend)))
    case Write(second, conn) =>
      Some((s.cache, s.owner,
            if ok then r.(written := r.written + [conn], pc := Read(second, conn)) else Fail(r, second, conn, BeforeSend)))
    case Read(second, conn) =>
      Some((s.cache, s.owner, if ok then r.(pc := Done(Response)) else Fail(r, second, conn, AfterSend)))
    case Judge(second, conn, why) =>
      Some((s.cache, s.owner,
            r.(pc := if second then Done(Failed(why)) else Invalidate(MayRetry(why, r.reused), conn, why))))
    case Invalidate(retry, conn, why) =>
      Some((s.cache - {r.id}, s.owner,
            r.(blamed := r.blamed + {conn}, pc := if retry then Get(true) else Done(Failed(why)))))
    case Done(_) => None
  }

  function Apply(s: State, a: Action): Option<State> {
    match a
    case CloseAll => Some(s.(cache := map[]))
    case Step(i, ok) =>
      if i >= |s.reqs| then None
      else
        match StepRequest(s, s.reqs[i], ok)
        case None => None
        case Some((cache, owner, r)) => Some(State(cache, owner, s.reqs[i := r]))
  }

  function Run(s: State, acts: seq<Action>): Option<State>
    decreases |acts|
  {
    if |acts| == 0 then Some(s)
    else
      match Apply(s, acts[0])
      case None => None
      case Some(s') => Run(s', acts[1..])
  }

  // --- the class and the machine ---------------------------------------------

  /** One action carried out on the cache object: what the object holds and what the machine's cache
      holds stay the same thing. */
  method Perform(cache: ConnCache, s: State, a: Action) returns (s': State)
    requires cache.inner == s.cache && Apply(s, a).Some?
    modifies cache
    ensures s' == Apply(s, a).value && cache.inner == s'.cache
  {
    match a
    case CloseAll =>
      var closed := cache.CloseAll();
      s' := s.(cache := map[]);
    case Step(i, ok) =>
      var r := s.reqs[i];
      var r', owner := r, s.owner;
      match r.pc {
        case Start =>
          var cached := cache.Get(r.id);
          r' := r.(reused := cached.Some?, pc := Get(false));
        case Get(second) =>
          var cached := cache.Get(r.id);
          r' := r.(pc := if cached.Some? then Open(second, cached.value) else Connect(second));
        case Put(second, conn) =>
          cache.Put(r.id, conn);
          r' := r.(pc := Open(second, conn));
        case Invalidate(retry, conn, why) =>
          cache.Invalidate(r.id);
          r' := r.(blamed := r.blamed + {conn}, pc := if retry then Get(true) else Done(Failed(why)));
        case _ =>
          var (_, owner', moved) := StepRequest(s, r, ok).value;
          r', owner := moved, owner';
      }
      s' := State(cache.inner, owner, s.reqs[i := r']);
  }

  // --- at most once --------------------------------------------------------

  function Second(pc: Pc): bool {
    match pc
    case Start => false
    case Get(second) => second
    case Connect(second) => second
    case Put(second, _) => second
    case Open(second, _) => second
    case Write(second, _) => second
    case Read(second, _) => second
    case Judge(second, _, _) => second
    case Invalidate(_, _, _) => false
    case Done(_) => false
  }

  /** The attempt under way has opened, or tried to open, its stream. */
  predicate Tried(pc: Pc) {
    pc.Write? || pc.Read? || pc.Judge? || pc.Invalidate?
  }

  /** What a request may have done by the time it stands where it stands. */
  ghost predicate RequestOk(r: Request) {
    && r.attempts <= 2 && |r.written| <= 1
    && (!r.pc.Done? ==> r.attempts == (if Second(r.pc) then 1 else 0) + (if Tried(r.pc) then 1 else 0))
    && (r.pc.Start? || r.pc.Get? || r.pc.Connect? || r.pc.Put? || r.pc.Open? || r.pc.Write? ==> r.written == [])
    && (r.pc.Read? ==> r.written == [r.pc.conn])
    && (r.pc.Judge? || r.pc.Invalidate? ==> r.written == (if r.pc.why == AfterSend then [r.pc.conn] else []))
    && (r.pc.Invalidate? && r.pc.retry ==> r.pc.why == BeforeSend && r.reused)
    && (Second(r.pc) ==> r.reused && |r.blamed| == 1)
    && (r.pc.Start? || (!Second(r.pc) && !r.pc.Done?) ==> r.blamed == {})
    && (r.pc.Done? ==>
          match r.pc.ending
          case Response => |r.written| == 1
          case Failed(AfterSend) => |r.written| == 1
          case Failed(BeforeSend) => r.written == []
          case NotConnected => r.written == [])
    && (r.attempts == 2 ==> r.reused)
  }

  lemma StepKeepsRequest(s: State, r: Request, ok: bool)
    requires RequestOk(r) && StepRequest(s, r, ok).Some?
    ensures RequestOk(StepRequest(s, r, ok).value.2)
  {
    if r.pc.Judge? || r.pc.Invalidate? || r.pc.Read? {
      EndKeepsRequest(s, r, ok);
    }
  }

  lemma EndKeepsRequest(s: State, r: Request, ok: bool)
    requires RequestOk(r) && StepRequest(s, r, ok).Some? && (r.pc.Judge? || r.pc.Invalidate? || r.pc.Read?)
    ensures RequestOk(StepRequest(s, r, ok).value.2)
  {}

  lemma {:induction false} RunKeepsRequests(s: State, acts: seq<Action>, s': State)
    requires (forall r | r in s.reqs :: RequestOk(r)) && Run(s, acts) == Some(s')
    ensures |s'.reqs| == |s.reqs| && forall r | r in s'.reqs :: RequestOk(r)
    decreases |acts|
  {
    if |acts| == 0 {
    } else {
      var s1 := Apply(s, acts[0]).value;
      match acts[0]
      case CloseAll => RunKeepsRequests(s1, acts[1..], s');
      case Step(i, ok) =>
        StepKeepsRequest(s, s.reqs[i], ok);
        RunKeepsRequests(s1, acts[1..], s');
    }
  }

  /** At most once. With any number of requests racing on one cache, and whatever the network does:
      each request is written in full at most once and tried at most twice, a second try implies the
      first wrote nothing whole, and the way a request ends says exactly whether it was written. */
  lemma AtMostOnce(ids: seq<PeerId>, acts: seq<Action>, s: State, i: nat)
    requires Run(Init(ids), acts) == Some(s) && i < |s.reqs|
    ensures |s.reqs[i].written| <= 1 && s.reqs[i].attempts <= 2
    ensures s.reqs[i].attempts == 2 ==> s.reqs[i].reused
    ensures s.reqs[i].pc.Done? ==>
              (|s.reqs[i].written| == 1 <==> s.reqs[i].pc.ending in {Response, Failed(AfterSend)})
  {
    RunKeepsRequests(Init(ids), acts, s);
    assert s.reqs[i] in s.reqs;
  }

  // --- a blamed connection is never handed out again ------------------------

  ghost predicate Blamed(s: State, c: Conn) {
    exists r | r in s.reqs :: c in r.blamed
  }

  function HeldConn(pc: Pc): Option<Conn> {
    match pc
    case Open(_, conn) => Some(conn)
    case Write(_, conn) => Some(conn)
    case Read(_, conn) => Some(conn)
    case Judge(_, conn, _) => Some(conn)
    case Invalidate(_, conn, _) => Some(conn)
    case _ => None
  }

  /** Every connection is filed under its own peer; one still to be filed is known to its dialler
      alone; and a blamed one is in no one's hands but those that already had it. */
  ghost predicate CacheOk(s: State) {
    && (forall id | id in s.cache :: s.cache[id] < |s.owner| && s.owner[s.cache[id]] == id && !Blamed(s, s.cache[id]))
    && (forall c: Conn | Blamed(s, c) :: c < |s.owner|)
    && (forall i | 0 <= i < |s.reqs| && s.reqs[i].pc.Put? ::
          && s.reqs[i].pc.conn < |s.owner| && s.owner[s.reqs[i].pc.conn] == s.reqs[i].id
          && !Blamed(s, s.reqs[i].pc.conn)
          && Lookup(s.cache, s.reqs[i].id) != Some(s.reqs[i].pc.conn))
    && (forall i | 0 <= i < |s.reqs| && HeldConn(s.reqs[i].pc).Some? ::
          HeldConn(s.reqs[i].pc).value < |s.owner| && s.owner[HeldConn(s.reqs[i].pc).value] == s.reqs[i].id)
    && (forall i, j | 0 <= i < |s.reqs| && 0 <= j < |s.reqs| && i != j && s.reqs[i].pc.Put? ::
          && (s.reqs[j].pc.Put? ==> s.reqs[j].pc.conn != s.reqs[i].pc.conn)
          && HeldConn(s.reqs[j].pc) != Some(s.reqs[i].pc.conn))
  }

  lemma InitCache(ids: seq<PeerId>)
    ensures CacheOk(Init(ids))
  {}

  lemma {:induction false} MemberAfter(rs: seq<Request>, i: nat, r': Request, r: Request)
    requires i < |rs| && r in rs[i := r']
    ensures r == r' || exists j | 0 <= j < |rs| && j != i :: rs[j] == r
  {
    var j :| 0 <= j < |rs[i := r']| && rs[i := r'][j] == r;
    if j != i { assert rs[j] == r; }
  }

  /** A step blames nobody new but the connection it invalidates for. */
  lemma BlameGrows(s: State, i: nat, ok: bool, s': State, c: Conn)
    requires Apply(s, Step(i, ok)) == Some(s')
    ensures Blamed(s', c) <==> Blamed(s, c) || (s.reqs[i].pc.Invalidate? && s.reqs[i].pc.conn == c)
  {
    var r, r' := s.reqs[i], s'.reqs[i];
    assert r in s.reqs && r' in s'.reqs;
    if Blamed(s, c) {
      var q :| q in s.reqs && c in q.blamed;
      var j :| 0 <= j < |s.reqs| && s.reqs[j] == q;
      assert s'.reqs[j] in s'.reqs && c in s'.reqs[j].blamed;
    }
    if Blamed(s', c) {
      var q :| q in s'.reqs && c in q.blamed;
      MemberAfter(s.reqs, i, r', q);
    }
  }

  lemma GetKeeps(s: State, i: nat, ok: bool, s': State)
    requires CacheOk(s) && Apply(s, Step(i, ok)) == Some(s')
    requires s.reqs[i].pc.Get? || s.reqs[i].pc.Start?
    ensures CacheOk(s')
  {
    hide Blamed;
    forall c: Conn ensures Blamed(s', c) <==> Blamed(s, c) {
      BlameGrows(s, i, ok, s', c);
    }
  }

  lemma ConnectKeeps(s: State, i: nat, ok: bool, s': State)
    requires CacheOk(s) && Apply(s, Step(i, ok)) == Some(s')
    requires s.reqs[i].pc.Connect?
    ensures CacheOk(s')
  {
    hide Blamed;
    forall c: Conn ensures Blamed(s', c) <==> Blamed(s, c) {
      BlameGrows(s, i, ok, s', c);
    }
  }

  lemma PutKeeps(s: State, i: nat, ok: bool, s': State)
    requires CacheOk(s) && Apply(s, Step(i, ok)) == Some(s')
    requires s.reqs[i].pc.Put?
    ensures CacheOk(s')
  {
    hide Blamed;
    forall c: Conn ensures Blamed(s', c) <==> Blamed(s, c) {
      BlameGrows(s, i, ok, s', c);
    }
  }

  lemma InvalidateKeeps(s: State, i: nat, ok: bool, s': State)
    requires CacheOk(s) && Apply(s, Step(i, ok)) == Some(s')
    requires s.reqs[i].pc.Invalidate?
    ensures CacheOk(s')
  {
    hide Blamed;
    forall c: Conn ensures Blamed(s', c) <==> Blamed(s, c) || c == s.reqs[i].pc.conn {
      BlameGrows(s, i, ok, s', c);
    }
  }

  lemma ExchangeKeeps(s: State, i: nat, ok: bool, s': State)
    requires CacheOk(s) && Apply(s, Step(i, ok)) == Some(s')
    requires s.reqs[i].pc.Open? || s.reqs[i].pc.Write? || s.reqs[i].pc.Read? || s.reqs[i].pc.Judge?
    ensures CacheOk(s')
  {
    hide Blamed;
    forall c: Conn ensures Blamed(s', c) <==> Blamed(s, c) {
      BlameGrows(s, i, ok, s', c);
    }
  }

  lemma StepKeepsCache(s: State, i: nat, ok: bool, s': State)
    requires CacheOk(s) && Apply(s, Step(i, ok)) == Some(s')
    ensures CacheOk(s')
  {
    match s.reqs[i].pc
    case Start => GetKeeps(s, i, ok, s');
    case Get(_) => GetKeeps(s, i, ok, s');
    case Connect(_) => ConnectKeeps(s, i, ok, s');
    case Put(_, _) => PutKeeps(s, i, ok, s');
    case Invalidate(_, _, _) => InvalidateKeeps(s, i, ok, s');
    case _ => ExchangeKeeps(s, i, ok, s');
  }

  lemma CloseKeepsCache(s: State, s': State)
    requires CacheOk(s) && Apply(s, CloseAll) == Some(s')
    ensures CacheOk(s')
  {
    assert forall c :: Blamed(s', c) == Blamed(s, c);
  }

  lemma {:induction false} RunKeepsCache(s: State, acts: seq<Action>, s': State)
    requires CacheOk(s) && Run(s, acts) == Some(s')
    ensures CacheOk(s')
    decreases |acts|
  {
    if |acts| == 0 {
    } else {
      var s1 := Apply(s, acts[0]).value;
      match acts[0]
      case CloseAll =>
        CloseKeepsCache(s, s1);
        RunKeepsCache(s1, acts[1..], s');
      case Step(i, ok) =>
        StepKeepsCache(s, i, ok, s1);
        RunKeepsCache(s1, acts[1..], s');
    }
  }

  /** In any interleaving, a connection some request failed on and invalidated the cache for is never
      handed out by the cache again, to anyone. (`blamed` sets only grow, so "again" is "ever".) */
  lemma BlamedNeverHandedOut(ids: seq<PeerId>, acts: seq<Action>, s: State, i: nat, ok: bool, s': State)
    requires Run(Init(ids), acts) == Some(s) && Apply(s, Step(i, ok)) == Some(s')
    requires s.reqs[i].pc.Get? && s'.reqs[i].pc.Open?
    ensures forall r | r in s.reqs :: s'.reqs[i].pc.conn !in r.blamed
  {
    InitCache(ids);
    RunKeepsCache(Init(ids), acts, s);
    assert !Blamed(s, s'.reqs[i].pc.conn);
  }

  // --- which failures invalidate --------------------------------------------

  /** Whether a request has answered for the connection it last failed on. */
  ghost predicate AnswersFor(r: Request) {
    && (!r.pc.Done? && !r.pc.Judge? && !r.pc.Invalidate? && !Second(r.pc) ==> r.failedOn == None)
    && (r.pc.Judge? || r.pc.Invalidate? ==> r.failedOn == Some(r.pc.conn))
    && (Second(r.pc) ==>
          && (r.pc.Put? ==> r.pc.conn !in r.blamed)
          && (HeldConn(r.pc).Some? ==> HeldConn(r.pc).value !in r.blamed))
    && (r.pc.Done? && r.pc.ending.Failed? ==>
          r.failedOn.Some? && r.attempts >= 1 && (r.failedOn.value in r.blamed <==> r.attempts == 1))
  }

  /** Neither the cache nor a fresh dial gives a request a connection it has blamed. */
  ghost predicate Clean(s: State, r: Request) {
    (r.id in s.cache ==> s.cache[r.id] !in r.blamed) && |s.owner| !in r.blamed
  }

  lemma HandedOutIsClean(s: State, r: Request)
    requires CacheOk(s) && r in s.reqs
    ensures Clean(s, r)
  {
    assert forall c: Conn | c in r.blamed :: Blamed(s, c);
  }

  lemma StepAnswers(s: State, r: Request, ok: bool)
    requires Clean(s, r) && RequestOk(r) && AnswersFor(r) && StepRequest(s, r, ok).Some?
    ensures AnswersFor(StepRequest(s, r, ok).value.2)
  {
    if r.pc.Judge? || r.pc.Invalidate? {
      FailureAnswers(s, r, ok);
    }
  }

  lemma FailureAnswers(s: State, r: Request, ok: bool)
    requires RequestOk(r) && AnswersFor(r) && (r.pc.Judge? || r.pc.Invalidate?)
    ensures AnswersFor(StepRequest(s, r, ok).value.2)
  {}

  lemma {:induction false} RunAnswers(s: State, acts: seq<Action>, s': State)
    requires CacheOk(s) && (forall i | 0 <= i < |s.reqs| :: RequestOk(s.reqs[i]) && AnswersFor(s.reqs[i]))
    requires Run(s, acts) == Some(s')
    ensures forall i | 0 <= i < |s'.reqs| :: RequestOk(s'.reqs[i]) && AnswersFor(s'.reqs[i])
    decreases |acts|
  {
    hide CacheOk, RequestOk, AnswersFor, StepRequest;
    if |acts| == 0 {
    } else {
      var s1 := Apply(s, acts[0]).value;
      if acts[0].CloseAll? {
        CloseKeepsCache(s, s1);
      } else {
        var i, ok := acts[0].i, acts[0].ok;
        StepKeepsCache(s, i, ok, s1);
        StepKeepsRequest(s, s.reqs[i], ok);
        HandedOutIsClean(s, s.reqs[i]);
        StepAnswers(s, s.reqs[i], ok);
      }
      RunAnswers(s1, acts[1..], s');
    }
  }

  /** Exactly when a failure invalidates. In any interleaving, a request that ended in failure has had
      the connection it last failed on taken out of the cache if and only if it was its first attempt;
      and so it was whenever the cache had nothing for the peer when the request began. */
  lemma FirstFailuresInvalidate(ids: seq<PeerId>, acts: seq<Action>, s: State, i: nat)
    requires Run(Init(ids), acts) == Some(s) && i < |s.reqs| && s.reqs[i].pc.Done? && s.reqs[i].pc.ending.Failed?
    ensures var r := s.reqs[i];
      && r.failedOn.Some? && (r.failedOn.value in r.blamed <==> r.attempts == 1)
      && (!r.reused ==> r.attempts == 1)
  {
    InitCache(ids);
    RunAnswers(Init(ids), acts, s);
  }

  lemma {:induction false} DoneStays(s: State, acts: seq<Action>, s': State, i: nat)
    requires Run(s, acts) == Some(s') && i < |s.reqs| && s.reqs[i].pc.Done?
    ensures i < |s'.reqs| && s'.reqs[i] == s.reqs[i]
    decreases |acts|
  {
    if |acts| == 0 {
    } else {
      DoneStays(Apply(s, acts[0]).value, acts[1..], s', i);
    }
  }

  lemma {:induction false} RunJoins(s: State, a: seq<Action>, m: State, b: seq<Action>, e: State)
    requires Run(s, a) == Some(m) && Run(m, b) == Some(e)
    ensures Run(s, a + b) == Some(e)
    decreases |a|
  {
    if |a| == 0 {
      assert a + b == b;
    } else {
      assert (a + b)[1..] == a[1..] + b;
      RunJoins(Apply(s, a[0]).value, a[1..], m, b, e);
    }
  }

  /** The connection a request failed on at its first attempt is never handed out by the cache again,
      to anyone, at any later time. */
  lemma FailedOnceNeverHandedOut(
    ids: seq<PeerId>, acts: seq<Action>, s: State, i: nat, more: seq<Action>, t: State, j: nat, ok: bool, t': State)
    requires Run(Init(ids), acts) == Some(s) && i < |s.reqs| && s.reqs[i].pc.Done? && s.reqs[i].pc.ending.Failed?
    requires s.reqs[i].attempts == 1 || !s.reqs[i].reused
    requires Run(s, more) == Some(t) && Apply(t, Step(j, ok)) == Some(t') && t.reqs[j].pc.Get? && t'.reqs[j].pc.Open?
    ensures s.reqs[i].failedOn.Some? && t'.reqs[j].pc.conn != s.reqs[i].failedOn.value
  {
    hide Run, Apply;
    FirstFailuresInvalidate(ids, acts, s, i);
    DoneStays(s, more, t, i);
    RunJoins(Init(ids), acts, s, more, t);
    BlamedNeverHandedOut(ids, acts + more, t, j, ok, t');
    assert t.reqs[i] in t.reqs;
  }

  /** On its second attempt, with a connection in hand, or past it. */
  predicate Redialled(r: Request) {
    (Second(r.pc) && HeldConn(r.pc).Some?) || r.pc.Done?
  }

  lemma RedialStep(s: State, i: nat, ok: bool, s': State)
    requires Apply(s, Step(i, ok)) == Some(s') && Redialled(s.reqs[i])
    ensures s'.cache == s.cache && s'.reqs[i].blamed == s.reqs[i].blamed && Redialled(s'.reqs[i])
  {}

  /** No step of request `i` in this run changes the cache. */
  predicate LeavesCache(s: State, acts: seq<Action>, i: nat)
    decreases |acts|
  {
    if |acts| == 0 || Apply(s, acts[0]).None? then true
    else
      var s1 := Apply(s, acts[0]).value;
      (acts[0].Step? && acts[0].i == i ==> s1.cache == s.cache) && LeavesCache(s1, acts[1..], i)
  }

  /** From the moment a redial has its connection, through any interleaving: the request blames nobody
      more, and none of its own steps changes the cache, however the attempt ends. */
  lemma {:induction false} SecondFailureLeavesTheCache(s: State, acts: seq<Action>, s': State, i: nat)
    requires Run(s, acts) == Some(s') && i < |s.reqs| && Redialled(s.reqs[i])
    ensures i < |s'.reqs| && Redialled(s'.reqs[i]) && s'.reqs[i].blamed == s.reqs[i].blamed
    ensures LeavesCache(s, acts, i)
    decreases |acts|
  {
    hide StepRequest, Redialled;
    if |acts| == 0 {
    } else {
      var s1 := Apply(s, acts[0]).value;
      if acts[0].Step? && acts[0].i == i { RedialStep(s, i, acts[0].ok, s1); }
      assert i < |s1.reqs| && ((acts[0].Step? && acts[0].i == i) || s1.reqs[i] == s.reqs[i]);
      SecondFailureLeavesTheCache(s1, acts[1..], s', i);
    }
  }

  // --- every call ends -----------------------------------------------------

  /** Steps a request still has before it, at most. */
  function Rank(r: Request): nat {
    match r.pc
    case Start => 16
    case Get(second) => if second then 7 else 15
    case Connect(second) => if second then 6 else 14
    case Put(second, _) => if second then 5 else 13
    case Open(second, _) => if second then 4 else 12
    case Write(second, _) => if second then 3 else 11
    case Read(second, _) => if second then 2 else 10
    case Judge(second, _, _) => if second then 1 else 9
    case Invalidate(_, _, _) => 8
    case Done(_) => 0
  }

  function StepsOf(acts: seq<Action>, i: nat): nat {
    if |acts| == 0 then 0
    else (if acts[0].Step? && acts[0].i == i then 1 else 0) + StepsOf(acts[1..], i)
  }

  lemma StepLowersRank(s: State, r: Request, ok: bool)
    requires StepRequest(s, r, ok).Some?
    ensures Rank(StepRequest(s, r, ok).value.2) < Rank(r)
  {}

  /** One redial and no more: no interleaving gives a request more than sixteen steps. */
  lemma {:induction false} EveryCallEnds(s: State, acts: seq<Action>, s': State, i: nat)
    requires Run(s, acts) == Some(s') && i < |s.reqs|
    ensures |s'.reqs| == |s.reqs| && StepsOf(acts, i) + Rank(s'.reqs[i]) <= Rank(s.reqs[i]) <= 16
    decreases |acts|
  {
    if |acts| == 0 {
    } else {
      var s1 := Apply(s, acts[0]).value;
      if acts[0].Step? && acts[0].i == i { StepLowersRank(s, s.reqs[i], acts[0].ok); }
      assert |s1.reqs| == |s.reqs|;
      EveryCallEnds(s1, acts[1..], s', i);
    }
  }

  // --- endings -------------------------------------------------------------

  /** The steps of request `i` in a run: where it stood, and what the network chose. */
  function Trace(s: State, acts: seq<Action>, i: nat): seq<(Pc, bool)>
    decreases |acts|
  {
    if |acts| == 0 || Apply(s, acts[0]).None? then []
    else
      (if acts[0].Step? && acts[0].i == i && i < |s.reqs| then [(s.reqs[i].pc, acts[0].ok)] else []) +
      Trace(Apply(s, acts[0]).value, acts[1..], i)
  }

  /** The last step of a trace that had to do with the network, `before` being the last one before it. */
  function LastOnNetwork(before: Option<(Pc, bool)>, trace: seq<(Pc, bool)>): Option<(Pc, bool)>
    decreases |trace|
  {
    if |trace| == 0 then before
    else
      var pc := trace[0].0;
      LastOnNetwork(if pc.Connect? || pc.Open? || pc.Write? || pc.Read? then Some(trace[0]) else before, trace[1..])
  }

  /** A request stands where the last thing the network did to it says. */
  predicate Follows(r: Request, last: Option<(Pc, bool)>) {
    match r.pc
    case Judge(_, _, why) => FailedSo(last, why)
    case Invalidate(_, _, why) => FailedSo(last, why)
    case Done(ending) => (
      match ending
      case Response => last.Some? && last.value.0.Read? && last.value.1
      case Failed(why) => FailedSo(last, why)
      case NotConnected => last.Some? && last.value.0.Connect? && !last.value.1)
    case _ => true
  }

  predicate FailedSo(last: Option<(Pc, bool)>, why: Failure) {
    last.Some? && !last.value.1 &&
    if why == AfterSend then last.value.0.Read? else last.value.0.Open? || last.value.0.Write?
  }

  lemma StepFollows(s: State, r: Request, ok: bool, last: Option<(Pc, bool)>)
    requires Follows(r, last) && StepRequest(s, r, ok).Some?
    ensures Follows(StepRequest(s, r, ok).value.2, LastOnNetwork(last, [(r.pc, ok)]))
  {
    assert [(r.pc, ok)][1..] == [];
  }

  lemma {:induction false} LastJoins(before: Option<(Pc, bool)>, a: seq<(Pc, bool)>, b: seq<(Pc, bool)>)
    ensures LastOnNetwork(before, a + b) == LastOnNetwork(LastOnNetwork(before, a), b)
    decreases |a|
  {
    if |a| == 0 {
      assert a + b == b;
    } else {
      assert (a + b)[1..] == a[1..] + b;
      LastJoins(if a[0].0.Connect? || a[0].0.Open? || a[0].0.Write? || a[0].0.Read? then Some(a[0]) else before, a[1..], b);
    }
  }

  lemma {:induction false} RunFollows(s: State, acts: seq<Action>, s': State, i: nat, last: Option<(Pc, bool)>)
    requires Run(s, acts) == Some(s') && i < |s.reqs| && Follows(s.reqs[i], last)
    ensures i < |s'.reqs| && Follows(s'.reqs[i], LastOnNetwork(last, Trace(s, acts, i)))
    decreases |acts|
  {
    hide StepRequest, Follows, LastOnNetwork;
    if |acts| == 0 {
      LastOfNone(last);
    } else {
      var s1 := Apply(s, acts[0]).value;
      var own := if acts[0].Step? && acts[0].i == i then [(s.reqs[i].pc, acts[0].ok)] else [];
      if acts[0].Step? && acts[0].i == i { StepFollows(s, s.reqs[i], acts[0].ok, last); } else { LastOfNone(last); }
      RunFollows(s1, acts[1..], s', i, LastOnNetwork(last, own));
      LastJoins(last, own, Trace(s1, acts[1..], i));
      assert Trace(s, acts, i) == own + Trace(s1, acts[1..], i);
    }
  }

  lemma LastOfNone(last: Option<(Pc, bool)>)
    ensures LastOnNetwork(last, []) == last
  {}

  /** How a call ends is what the network last did to it: a response exactly after a read that went well,
      a failure after sending exactly after a read that did not, one before sending exactly after an open
      or a write that did not, and no connection exactly after a connect that did not. */
  lemma EndsAsTheNetworkSaid(ids: seq<PeerId>, acts: seq<Action>, s: State, i: nat)
    requires Run(Init(ids), acts) == Some(s) && i < |s.reqs| && s.reqs[i].pc.Done?
    ensures var last := LastOnNetwork(None, Trace(Init(ids), acts, i));
      var ending := s.reqs[i].pc.ending;
      && last.Some?
      && (ending == Response <==> last.value.0.Read? && last.value.1)
      && (ending == Failed(AfterSend) <==> last.value.0.Read? && !last.value.1)
      && (ending == Failed(BeforeSend) <==> (last.value.0.Open? || last.value.0.Write?) && !last.value.1)
      && (ending == NotConnected <==> last.value.0.Connect? && !last.value.1)
  {
    RunCounts(Init(ids), acts, s);
    RunFollows(Init(ids), acts, s, i, None);
  }

  lemma {:induction false} RunCounts(s: State, acts: seq<Action>, s': State)
    requires Run(s, acts) == Some(s')
    ensures |s'.reqs| == |s.reqs|
    decreases |acts|
  {
    hide StepRequest;
    if |acts| == 0 {
    } else {
      RunCounts(Apply(s, acts[0]).value, acts[1..], s');
    }
  }

  /** On the way to an answer, with nothing gone wrong. */
  predicate OnTheWay(r: Request) {
    && !Second(r.pc) && !r.pc.Judge? && !r.pc.Invalidate? && r.blamed == {} && r.failedOn == None
    && (r.pc.Start? || r.pc.Get? || r.pc.Connect? || r.pc.Put? || r.pc.Open? ==> r.attempts == 0 && r.written == [])
    && (r.pc.Write? ==> r.attempts == 1 && r.written == [])
    && (r.pc.Read? ==> r.attempts == 1 && |r.written| == 1)
    && (r.pc.Done? ==> r.pc.ending == Response && r.attempts == 1 && |r.written| == 1)
  }

  function StepsLeft(pc: Pc): nat {
    match pc
    case Start => 7
    case Get(_) => 6
    case Connect(_) => 5
    case Put(_, _) => 4
    case Open(_, _) => 3
    case Write(_, _) => 2
    case Read(_, _) => 1
    case _ => 0
  }

  lemma StepOnTheWay(s: State, r: Request)
    requires OnTheWay(r) && StepRequest(s, r, true).Some?
    ensures var r' := StepRequest(s, r, true).value.2; OnTheWay(r') && StepsLeft(r'.pc) < StepsLeft(r.pc)
  {}

  lemma {:induction false} RunOnTheWay(s: State, acts: seq<Action>, s': State, i: nat)
    requires Run(s, acts) == Some(s') && i < |s.reqs| && OnTheWay(s.reqs[i])
    requires forall k | 0 <= k < |acts| && acts[k].Step? && acts[k].i == i :: acts[k].ok
    ensures i < |s'.reqs| && OnTheWay(s'.reqs[i])
    ensures StepsOf(acts, i) + StepsLeft(s'.reqs[i].pc) <= StepsLeft(s.reqs[i].pc)
    decreases |acts|
  {
    hide StepRequest, OnTheWay, StepsLeft;
    if |acts| == 0 {
    } else {
      var s1 := Apply(s, acts[0]).value;
      if acts[0].Step? && acts[0].i == i { StepOnTheWay(s, s.reqs[i]); }
      RunOnTheWay(s1, acts[1..], s', i);
    }
  }

  /** A call none of whose own steps fails is answered, within seven of them, whatever the others meet:
      written once, tried once, having blamed nobody. */
  lemma NothingFailsNothingIsLost(ids: seq<PeerId>, acts: seq<Action>, s: State, i: nat)
    requires Run(Init(ids), acts) == Some(s) && i < |s.reqs|
    requires forall k | 0 <= k < |acts| && acts[k].Step? && acts[k].i == i :: acts[k].ok
    ensures StepsOf(acts, i) >= 7 ==> s.reqs[i].pc.Done?
    ensures s.reqs[i].pc.Done? ==>
              s.reqs[i].pc.ending == Response && |s.reqs[i].written| == 1 && s.reqs[i].attempts == 1
    ensures s.reqs[i].blamed == {} && s.reqs[i].failedOn == None
  {
    RunCounts(Init(ids), acts, s);
    RunOnTheWay(Init(ids), acts, s, i);
  }

  // --- redialling ----------------------------------------------------------

  /** A request redials exactly if it may: it began with a connection in the cache, and failed before
      sending. */
  predicate Redials(r: Request) {
    && (r.pc.Invalidate? ==> (r.pc.retry <==> r.reused && r.pc.why == BeforeSend))
    && (r.pc.Done? && r.pc.ending == Failed(BeforeSend) && r.reused ==> r.attempts == 2)
  }

  lemma StepRedials(s: State, r: Request, ok: bool)
    requires RequestOk(r) && Redials(r) && StepRequest(s, r, ok).Some?
    ensures Redials(StepRequest(s, r, ok).value.2)
  {}

  lemma {:induction false} RunRedials(s: State, acts: seq<Action>, s': State, i: nat)
    requires Run(s, acts) == Some(s') && i < |s.reqs| && RequestOk(s.reqs[i]) && Redials(s.reqs[i])
    ensures i < |s'.reqs| && RequestOk(s'.reqs[i]) && Redials(s'.reqs[i])
    decreases |acts|
  {
    hide StepRequest, RequestOk, Redials;
    if |acts| == 0 {
    } else {
      if acts[0].Step? && acts[0].i == i {
        StepKeepsRequest(s, s.reqs[i], acts[0].ok);
        StepRedials(s, s.reqs[i], acts[0].ok);
      }
      RunRedials(Apply(s, acts[0]).value, acts[1..], s', i);
    }
  }

  /** Whether a call may redial is settled by its first look at the cache, and by that alone. */
  lemma ReusedSaysCached(s: State, a: Action, s': State, i: nat)
    requires Apply(s, a) == Some(s') && i < |s.reqs|
    ensures i < |s'.reqs|
    ensures s'.reqs[i].reused ==
            if a.Step? && a.i == i && s.reqs[i].pc.Start? then s.reqs[i].id in s.cache else s.reqs[i].reused
  {}

  /** The one redial is never left out: a call that ended in a failure before sending, and began with a
      connection in the cache, has been tried twice. */
  lemma RedialsWheneverItMay(ids: seq<PeerId>, acts: seq<Action>, s: State, i: nat)
    requires Run(Init(ids), acts) == Some(s) && i < |s.reqs|
    requires s.reqs[i].pc == Done(Failed(BeforeSend)) && s.reqs[i].reused
    ensures s.reqs[i].attempts == 2
  {
    RunCounts(Init(ids), acts, s);
    RunRedials(Init(ids), acts, s, i);
  }

  // --- to the right peer ---------------------------------------------------

  ghost predicate WrittenRight(s: State, i: nat)
    requires i < |s.reqs|
  {
    forall k | 0 <= k < |s.reqs[i].written| ::
      s.reqs[i].written[k] < |s.owner| && s.owner[s.reqs[i].written[k]] == s.reqs[i].id
  }

  lemma StepWritesRight(s: State, a: Action, s': State, i: nat)
    requires CacheOk(s) && Apply(s, a) == Some(s') && i < |s.reqs| && WrittenRight(s, i)
    ensures i < |s'.reqs| && WrittenRight(s', i) && s'.reqs[i].id == s.reqs[i].id
  {
    hide Blamed;
    assert s.owner <= s'.owner;
  }

  lemma {:induction false} RunWritesRight(s: State, acts: seq<Action>, s': State, i: nat)
    requires CacheOk(s) && Run(s, acts) == Some(s') && i < |s.reqs| && WrittenRight(s, i)
    ensures i < |s'.reqs| && WrittenRight(s', i) && s'.reqs[i].id == s.reqs[i].id
    decreases |acts|
  {
    hide CacheOk, WrittenRight, Apply;
    if |acts| == 0 {
    } else {
      var s1 := Apply(s, acts[0]).value;
      StepWritesRight(s, acts[0], s1, i);
      if acts[0].CloseAll? { CloseKeepsCache(s, s1); } else { StepKeepsCache(s, acts[0].i, acts[0].ok, s1); }
      RunWritesRight(s1, acts[1..], s', i);
    }
  }

  /** However many requests share the cache: what is written, is written to a connection that leads to the
      peer the call was for. */
  lemma WrittenToItsPeer(ids: seq<PeerId>, acts: seq<Action>, s: State, i: nat, k: nat)
    requires Run(Init(ids), acts) == Some(s) && i < |ids| && i < |s.reqs| && k < |s.reqs[i].written|
    ensures s.reqs[i].id == ids[i]
    ensures s.reqs[i].written[k] < |s.owner| && s.owner[s.reqs[i].written[k]] == ids[i]
  {
    InitCache(ids);
    RunWritesRight(Init(ids), acts, s, i);
  }

  // --- what the policy does not do -----------------------------------------

  lemma {:induction false} RunSnoc(s: State, acts: seq<Action>, m: State, a: Action, e: State)
    requires Run(s, acts) == Some(m) && Apply(m, a) == Some(e)
    ensures Run(s, acts + [a]) == Some(e)
    decreases |acts|
  {
    if |acts| == 0 {
      assert ([a])[1..] == [];
      assert acts + [a] == [a];
    } else {
      assert (acts + [a])[1..] == acts[1..] + [a];
      RunSnoc(Apply(s, acts[0]).value, acts[1..], m, a, e);
    }
  }

  lemma Extend(start: State, acts: seq<Action>, s: State, i: nat, ok: bool) returns (acts': seq<Action>, s': State)
    requires Run(start, acts) == Some(s) && Apply(s, Step(i, ok)).Some?
    ensures Run(start, acts') == Some(s') && Apply(s, Step(i, ok)) == Some(s')
  {
    acts', s' := acts + [Step(i, ok)], Apply(s, Step(i, ok)).value;
    RunSnoc(start, acts, s, Step(i, ok), s');
  }

  /** Request 0 is answered, on a connection it leaves in the cache. */
  lemma FirstConnects(p: PeerId) returns (acts: seq<Action>, s: State)
    ensures Run(Init([p, p]), acts) == Some(s)
    ensures s.cache == map[p := 0] && s.owner == [p] && |s.reqs| == 2 && s.reqs[1] == NewRequest(p)
  {
    var start := Init([p, p]);
    acts, s := Extend(start, [], start, 0, true);
    acts, s := Extend(start, acts, s, 0, true);
    acts, s := Extend(start, acts, s, 0, true);
    acts, s := Extend(start, acts, s, 0, true);
  }

  /** Request 1 fails before sending on the connection request 0 left in the cache. */
  lemma FirstFailure(p: PeerId) returns (acts: seq<Action>, s: State)
    ensures Run(Init([p, p]), acts) == Some(s)
    ensures s.cache == map[p := 0] && s.owner == [p] && |s.reqs| == 2
    ensures s.reqs[1] == Request(p, Judge(false, 0, BeforeSend), true, 1, [], Some(0), {})
  {
    var start := Init([p, p]);
    acts, s := FirstConnects(p);
    acts, s := Extend(start, acts, s, 1, true);
    acts, s := Extend(start, acts, s, 1, true);
    acts, s := Extend(start, acts, s, 1, false);
  }

  /** Only a first-attempt failure invalidates. A request whose redial fails too leaves the
      connection it has just failed on in the cache, for the next request to be handed. */
  lemma SecondFailureStaysCached(p: PeerId) returns (acts: seq<Action>, s: State)
    ensures Run(Init([p, p]), acts) == Some(s)
    ensures |s.reqs| == 2 && s.reqs[1].pc == Done(Failed(BeforeSend)) && s.reqs[1].attempts == 2 && s.reqs[1].blamed == {0}
    ensures s.cache == map[p := 1]
  {
    var start := Init([p, p]);
    acts, s := FirstFailure(p);
    acts, s := Extend(start, acts, s, 1, true);
    acts, s := Extend(start, acts, s, 1, true);
    assert s.cache == map[];
    acts, s := Extend(start, acts, s, 1, true);
    acts, s := Extend(start, acts, s, 1, true);
    acts, s := Extend(start, acts, s, 1, true);
    acts, s := Extend(start, acts, s, 1, false);
    acts, s := Extend(start, acts, s, 1, true);
  }
}
