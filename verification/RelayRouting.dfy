/** Which relay a request is dialled through: the page, the DuckDB worker and the bridge, joined by two
    FIFO ports.

    The page posts `peer` frames and statements on the first port. The worker forwards the frames on the
    second and makes the requests of the statement it is handling. The bridge takes its messages one at a
    time, its init handler suspended half-way while others run. */
module RelayRouting {
  import opened Text
  import opened Protocol
  import Peers

  /** What the page posts towards the DuckDB worker. */
  datatype Post = Frame(endpointId: string, relay: string) | Statement

  /** What is posted towards the bridge; `cause` is the position of the statement that made the request. */
  datatype Message = InitFrame(relay: string) | PeerFrame(endpointId: string, relay: string) | Request(host: string, cause: nat)

  datatype WorkerPc = Listening | Handling(k: nat) | Passed(k: nat, host: string)

  datatype InitPc = Unseen | Awaiting | Bound(ok: bool) | Done(ok: bool)

  datatype Dialled = Dialled(peer: string, relay: Option<string>, cause: nat, client: bool)

  /** `posted` is everything the page has posted, `handled` how much of it the worker has taken, and
      `asked` every request the worker has posted. */
  datatype State = State(
    posted: seq<Post>, handled: nat, toWorker: seq<Post>, worker: WorkerPc,
    toBridge: seq<Message>, init: InitPc, ready: nat, bridgeError: bool, client: bool,
    relays: map<string, Option<string>>, defaultRelay: Option<string>, dials: seq<Dialled>, asked: seq<Message>)

  /** `relay` is the default one, from the worker's URL. */
  function Init(relay: string): State {
    State([], 0, [], Listening, [InitFrame(relay)], Unseen, NOT_READY, false, false, map[], None, [], [])
  }

  datatype Action =
    | Page(post: Post)
    | WorkerTakes
    | Gate(host: string)     // the wait for the bridge ends well
    | PostRequest
    | StatementEnds
    | BridgeTakes
    | InitSettles(ok: bool)
    | StoreReady
    | LoadError

  /** `relay || null`. */
  function OrNull(relay: string): Option<string> {
    if relay == "" then None else Some(relay)
  }

  /** `first ?? second`. */
  function OrElse(first: Option<string>, second: Option<string>): Option<string> {
    if first.Some? then first else second
  }

  function Get(relays: map<string, Option<string>>, peer: string): Option<string> {
    if peer in relays then relays[peer] else None
  }

  function Register(relays: map<string, Option<string>>, m: Message): map<string, Option<string>> {
    if m.PeerFrame? && m.endpointId != "" then relays[m.endpointId := OrNull(m.relay)] else relays
  }

  /** The synchronous part of the handling of one message. */
  function Handle(s: State, m: Message): State {
    match m
    case InitFrame(relay) => s.(defaultRelay := OrNull(relay), init := Awaiting)
    case PeerFrame(_, _) => s.(relays := Register(s.relays, m))
    case Request(host, cause) =>
      var peer := Peers.ParseAddress(host);
      if peer.None? || peer.value == "" then s
      else s.(dials := s.dials + [Dialled(peer.value, OrElse(Get(s.relays, peer.value), s.defaultRelay), cause, s.client)])
  }

  function Apply(s: State, a: Action): Option<State> {
    match a
    case Page(post) => Some(s.(posted := s.posted + [post], toWorker := s.toWorker + [post]))
    case WorkerTakes =>
      if !s.worker.Listening? || |s.toWorker| == 0 then None
      else
        var s1 := s.(toWorker := s.toWorker[1..], handled := s.handled + 1);
        Some(match s.toWorker[0]
             case Frame(id, relay) => s1.(toBridge := s.toBridge + [PeerFrame(id, relay)])
             case Statement => s1.(worker := Handling(s.handled)))
    case Gate(host) =>
      if s.worker.Handling? && !s.bridgeError && s.ready == READY_OK then Some(s.(worker := Passed(s.worker.k, host)))
      else None
    case PostRequest =>
      if s.worker.Passed? then
        var m := Request(s.worker.host, s.worker.k);
        Some(s.(toBridge := s.toBridge + [m], asked := s.asked + [m], worker := Handling(s.worker.k)))
      else None
    case StatementEnds => if s.worker.Handling? then Some(s.(worker := Listening)) else None
    case BridgeTakes =>
      if |s.toBridge| == 0 || s.init.Bound? then None
      else Some(Handle(s.(toBridge := s.toBridge[1..]), s.toBridge[0]))
    case InitSettles(ok) => if s.init.Awaiting? then Some(s.(init := Bound(ok), client := ok)) else None
    case StoreReady =>
      if s.init.Bound? then Some(s.(init := Done(s.init.ok), ready := if s.init.ok then READY_OK else READY_FAILED))
      else None
    case LoadError =>
      if s.worker.Listening? then Some(s.(bridgeError := true, ready := READY_FAILED)) else None
  }

  function Run(s: State, acts: seq<Action>): Option<State>
    decreases |acts|
  {
    if |acts| == 0 then Some(s)
    else
      match Apply(s, acts[0])
      case None => None
      case Some(s') => Run(s', acts[1..])
  }

  /** The relay of the last frame posted for a peer, if there is one. */
  function LastPosted(posts: seq<Post>, peer: string): Option<string> {
    if |posts| == 0 then None
    else
      var last := posts[|posts| - 1];
      if last.Frame? && last.endpointId == peer then Some(last.relay) else LastPosted(posts[..|posts| - 1], peer)
  }

  /** What a frame's relay, if there is a frame, means to whoever dials. */
  function Known(relay: Option<string>): Option<string> {
    if relay.Some? then OrNull(relay.value) else None
  }

  // --- the invariant -------------------------------------------------------

  /** What the bridge will have for a peer once it has taken these messages. */
  function Ahead(relays: map<string, Option<string>>, ms: seq<Message>, peer: string): Option<string> {
    if |ms| == 0 then Get(relays, peer)
    else
      var last := ms[|ms| - 1];
      if last.PeerFrame? && last.endpointId == peer then OrNull(last.relay) else Ahead(relays, ms[..|ms| - 1], peer)
  }

  lemma {:induction false} AheadTakes(relays: map<string, Option<string>>, ms: seq<Message>, peer: string)
    requires |ms| > 0 && peer != ""
    ensures Ahead(Register(relays, ms[0]), ms[1..], peer) == Ahead(relays, ms, peer)
  {
    if |ms| > 1 {
      AheadTakes(relays, ms[..|ms| - 1], peer);
      assert ms[1..][..|ms| - 2] == ms[..|ms| - 1][1..];
    } else {
      assert ms[..0] == [];
    }
  }

  /** With `ms` still ahead of it, the bridge's map says what the page had said with these posts. */
  ghost predicate Agrees(relays: map<string, Option<string>>, ms: seq<Message>, posts: seq<Post>) {
    forall peer | peer != "" :: Ahead(relays, ms, peer) == Known(LastPosted(posts, peer))
  }

  lemma AgreesTakes(relays: map<string, Option<string>>, ms: seq<Message>, posts: seq<Post>)
    requires |ms| > 0 && Agrees(relays, ms, posts)
    ensures Agrees(Register(relays, ms[0]), ms[1..], posts)
  {
    forall peer | peer != "" ensures Ahead(Register(relays, ms[0]), ms[1..], peer) == Ahead(relays, ms, peer) {
      AheadTakes(relays, ms, peer);
    }
  }

  lemma AgreesForwards(relays: map<string, Option<string>>, ms: seq<Message>, m: Message, posts: seq<Post>, post: Post)
    requires Agrees(relays, ms, posts)
    requires if post.Frame? then m == PeerFrame(post.endpointId, post.relay) else !m.PeerFrame?
    ensures post.Statement? ==> Agrees(relays, ms, posts + [post])
    ensures Agrees(relays, ms + [m], posts + [post])
  {
    assert (ms + [m])[..|ms|] == ms;
    assert (posts + [post])[..|posts|] == posts;
  }

  predicate Made(s: State, k: nat) {
    k < s.handled <= |s.posted| && s.posted[k].Statement?
  }

  /** What a dial must have used. */
  predicate Right(relay: string, s: State, d: Dialled) {
    Made(s, d.cause) && d.client &&
    d.relay == OrElse(Known(LastPosted(s.posted[..d.cause], d.peer)), OrNull(relay))
  }

  /** The request at `i` in the bridge's port will find the map its statement was owed. */
  ghost predicate RequestOk(s: State, i: nat)
    requires i < |s.toBridge| && s.toBridge[i].Request?
  {
    Made(s, s.toBridge[i].cause) && Agrees(s.relays, s.toBridge[..i], s.posted[..s.toBridge[i].cause])
  }

  ghost predicate PortsOk(s: State) {
    && s.handled <= |s.posted| && s.toWorker == s.posted[s.handled..]
    && (!s.worker.Listening? ==> s.worker.k + 1 == s.handled && s.posted[s.worker.k].Statement?)
    && Agrees(s.relays, s.toBridge, s.posted[..s.handled])
    && (!s.worker.Listening? ==> Agrees(s.relays, s.toBridge, s.posted[..s.worker.k]))
    && forall i: nat | i < |s.toBridge| && s.toBridge[i].Request? :: RequestOk(s, i)
  }

  ghost predicate StartOk(relay: string, s: State) {
    && (forall i | 0 <= i < |s.toBridge| && s.toBridge[i].InitFrame? ::
          i == 0 && s.init.Unseen? && s.toBridge[i].relay == relay)
    && (s.init.Unseen? ==> |s.toBridge| > 0 && s.toBridge[0].InitFrame?)
    && (!s.init.Unseen? ==> s.defaultRelay == OrNull(relay))
    && (s.init.Bound? || s.init.Done? ==> s.client == s.init.ok)
    && (s.ready == READY_OK ==> s.init == Done(true))
    && (s.worker.Passed? ==> s.ready == READY_OK && !s.bridgeError)
    && (forall i | 0 <= i < |s.toBridge| && s.toBridge[i].Request? :: s.init == Done(true))
  }

  ghost predicate DialsOk(relay: string, s: State) {
    forall i | 0 <= i < |s.dials| :: Right(relay, s, s.dials[i])
  }

  ghost predicate Inv(relay: string, s: State) {
    PortsOk(s) && StartOk(relay, s) && DialsOk(relay, s)
  }

  /** What is settled stays settled as the page goes on and the worker moves on. */
  lemma DialsStay(relay: string, s: State, s': State)
    requires DialsOk(relay, s) && s'.dials == s.dials
    requires s.posted <= s'.posted && s.handled <= s'.handled <= |s'.posted|
    ensures DialsOk(relay, s')
  {
    forall i | 0 <= i < |s'.dials| ensures Right(relay, s', s'.dials[i]) {
      assert Right(relay, s, s.dials[i]);
      assert s'.posted[..s.dials[i].cause] == s.posted[..s.dials[i].cause];
    }
  }

  lemma RequestsStay(s: State, s': State)
    requires forall i: nat | i < |s.toBridge| && s.toBridge[i].Request? :: RequestOk(s, i)
    requires s'.relays == s.relays && s.toBridge <= s'.toBridge
    requires s.posted <= s'.posted && s.handled <= s'.handled <= |s'.posted|
    ensures forall i: nat | i < |s.toBridge| && s.toBridge[i].Request? :: RequestOk(s', i)
  {
    forall i: nat | i < |s.toBridge| && s.toBridge[i].Request? ensures RequestOk(s', i) {
      assert RequestOk(s, i);
      assert s'.toBridge[..i] == s.toBridge[..i];
      assert s'.posted[..s.toBridge[i].cause] == s.posted[..s.toBridge[i].cause];
    }
  }

  lemma PageKeeps(relay: string, s: State, post: Post)
    requires Inv(relay, s)
    ensures Inv(relay, Apply(s, Page(post)).value)
  {
    hide Agrees, Ahead, LastPosted, Peers.ParseAddress;
    var s' := Apply(s, Page(post)).value;
    RequestsStay(s, s');
    DialsStay(relay, s, s');
    assert s'.posted[..s.handled] == s.posted[..s.handled];
    if !s.worker.Listening? { assert s'.posted[..s.worker.k] == s.posted[..s.worker.k]; }
  }

  lemma WorkerTakesKeeps(relay: string, s: State)
    requires Inv(relay, s) && Apply(s, WorkerTakes).Some?
    ensures Inv(relay, Apply(s, WorkerTakes).value)
  {
    hide Agrees, Ahead, LastPosted, Peers.ParseAddress;
    var s' := Apply(s, WorkerTakes).value;
    var post := s.posted[s.handled];
    RequestsStay(s, s');
    DialsStay(relay, s, s');
    assert s.toWorker[0] == post;
    assert s.posted[..s'.handled] == s.posted[..s.handled] + [post];
    var m := if post.Frame? then PeerFrame(post.endpointId, post.relay) else Request("", 0);
    AgreesForwards(s.relays, s.toBridge, m, s.posted[..s.handled], post);
  }

  lemma PostRequestKeeps(relay: string, s: State)
    requires Inv(relay, s) && s.worker.Passed?
    ensures Inv(relay, Apply(s, PostRequest).value)
  {
    hide Agrees, Ahead, LastPosted, Peers.ParseAddress;
    var s' := Apply(s, PostRequest).value;
    var k, m := s.worker.k, Request(s.worker.host, s.worker.k);
    RequestsStay(s, s');
    DialsStay(relay, s, s');
    assert s'.toBridge[..|s.toBridge|] == s.toBridge;
    assert RequestOk(s', |s.toBridge|);
    assert s.posted[..s.handled] == s.posted[..k] + [s.posted[k]];
    AgreesForwards(s.relays, s.toBridge, m, s.posted[..k], Statement);
    AgreesRequest(s.relays, s.toBridge, m, s.posted[..k]);
  }

  lemma AgreesRequest(relays: map<string, Option<string>>, ms: seq<Message>, m: Message, posts: seq<Post>)
    requires Agrees(relays, ms, posts) && !m.PeerFrame?
    ensures Agrees(relays, ms + [m], posts)
  {
    assert (ms + [m])[..|ms|] == ms;
  }

  lemma BridgeTakesPorts(relay: string, s: State)
    requires Inv(relay, s) && Apply(s, BridgeTakes).Some?
    ensures PortsOk(Apply(s, BridgeTakes).value)
  {
    hide Agrees, Ahead, LastPosted, Peers.ParseAddress;
    var s' := Apply(s, BridgeTakes).value;
    assert s'.relays == Register(s.relays, s.toBridge[0]);
    AgreesTakes(s.relays, s.toBridge, s.posted[..s.handled]);
    if !s.worker.Listening? { AgreesTakes(s.relays, s.toBridge, s.posted[..s.worker.k]); }
    forall i: nat | i < |s'.toBridge| && s'.toBridge[i].Request? ensures RequestOk(s', i) {
      var ms := s.toBridge[..i + 1];
      assert RequestOk(s, i + 1);
      assert ms[1..] == s'.toBridge[..i];
      AgreesTakes(s.relays, ms, s.posted[..s'.toBridge[i].cause]);
    }
  }

  lemma DialIsRight(relay: string, s: State, peer: string)
    requires Inv(relay, s) && |s.toBridge| > 0 && s.toBridge[0].Request? && peer != ""
    ensures Right(relay, s, Dialled(peer, OrElse(Get(s.relays, peer), s.defaultRelay), s.toBridge[0].cause, s.client))
  {
    assert RequestOk(s, 0);
    assert s.toBridge[..0] == [];
    assert Ahead(s.relays, [], peer) == Get(s.relays, peer);
  }

  lemma BridgeTakesKeeps(relay: string, s: State)
    requires Inv(relay, s) && Apply(s, BridgeTakes).Some?
    ensures Inv(relay, Apply(s, BridgeTakes).value)
  {
    hide Agrees, Ahead, LastPosted, Peers.ParseAddress;
    BridgeTakesPorts(relay, s);
    var s' := Apply(s, BridgeTakes).value;
    DialsStay(relay, s, s'.(dials := s.dials));
    if s'.dials != s.dials {
      var d := s'.dials[|s.dials|];
      DialIsRight(relay, s, d.peer);
      assert Right(relay, s', d);
    }
  }

  lemma StepKeeps(relay: string, s: State, a: Action)
    requires Inv(relay, s) && Apply(s, a).Some?
    ensures Inv(relay, Apply(s, a).value)
  {
    match a
    case Page(post) => PageKeeps(relay, s, post);
    case WorkerTakes => WorkerTakesKeeps(relay, s);
    case PostRequest => PostRequestKeeps(relay, s);
    case BridgeTakes => BridgeTakesKeeps(relay, s);
    case _ => OthersKeep(relay, s, a);
  }

  lemma OthersKeep(relay: string, s: State, a: Action)
    requires Inv(relay, s) && Apply(s, a).Some?
    requires a.Gate? || a.StatementEnds? || a.InitSettles? || a.StoreReady? || a.LoadError?
    ensures Inv(relay, Apply(s, a).value)
  {
    hide Agrees, Ahead, LastPosted, Peers.ParseAddress;
    var s' := Apply(s, a).value;
    RequestsStay(s, s');
    DialsStay(relay, s, s');
  }

  lemma {:induction false} RunKeeps(relay: string, s: State, acts: seq<Action>)
    requires Inv(relay, s) && Run(s, acts).Some?
    ensures Inv(relay, Run(s, acts).value)
    decreases |acts|
  {
    if |acts| == 0 {
    } else {
      StepKeeps(relay, s, acts[0]);
      RunKeeps(relay, Apply(s, acts[0]).value, acts[1..]);
    }
  }

  lemma InitHolds(relay: string)
    ensures Inv(relay, Init(relay))
  {
    assert Init(relay).toBridge[..0] == [];
  }

  // --- every request, once -------------------------------------------------

  /** Who the requests among some messages ask for, and on which statement's behalf. */
  function Wanted(ms: seq<Message>): seq<(string, nat)> {
    if |ms| == 0 then []
    else
      var last := ms[|ms| - 1];
      Wanted(ms[..|ms| - 1]) +
      if !last.Request? then []
      else
        match Peers.ParseAddress(last.host)
        case None => []
        case Some(peer) => if peer == "" then [] else [(peer, last.cause)]
  }

  lemma {:induction false} WantedJoins(a: seq<Message>, b: seq<Message>)
    ensures Wanted(a + b) == Wanted(a) + Wanted(b)
  {
    hide Peers.ParseAddress;
    if |b| == 0 {
      assert a + b == a;
    } else {
      assert (a + b)[..|a + b| - 1] == a + b[..|b| - 1];
      WantedJoins(a, b[..|b| - 1]);
    }
  }

  function Peered(dials: seq<Dialled>): seq<(string, nat)> {
    seq(|dials|, i requires 0 <= i < |dials| => (dials[i].peer, dials[i].cause))
  }

  /** Dials made and requests still in the port are, in order, the requests posted. */
  ghost predicate Accounted(s: State) {
    Peered(s.dials) + Wanted(s.toBridge) == Wanted(s.asked)
  }

  lemma DialAccounts(s: State)
    requires Accounted(s) && Apply(s, BridgeTakes).Some?
    ensures Accounted(Apply(s, BridgeTakes).value)
  {
    hide Peers.ParseAddress, Wanted, Handle, Peered;
    var s', m := Apply(s, BridgeTakes).value, s.toBridge[0];
    OneWanted(s, m);
    assert s.toBridge == [m] + s.toBridge[1..];
    WantedJoins([m], s.toBridge[1..]);
    var done, next, rest := Peered(s.dials), Wanted([m]), Wanted(s.toBridge[1..]);
    assert done + (next + rest) == (done + next) + rest;
  }

  /** Handling one message dials what it wants. */
  lemma OneWanted(s: State, m: Message)
    requires |s.toBridge| > 0
    ensures var s' := Handle(s.(toBridge := s.toBridge[1..]), m);
      Peered(s'.dials) == Peered(s.dials) + Wanted([m]) && s'.toBridge == s.toBridge[1..] && s'.asked == s.asked
  {
    hide Peers.ParseAddress;
    assert [m][..0] == [] && Wanted([]) == [];
    var s' := Handle(s.(toBridge := s.toBridge[1..]), m);
    if s'.dials == s.dials {
      assert Wanted([m]) == [];
    } else {
      var d := s'.dials[|s.dials|];
      assert Wanted([m]) == [(d.peer, d.cause)];
    }
  }

  lemma StepAccounts(s: State, a: Action)
    requires Accounted(s) && Apply(s, a).Some?
    ensures Accounted(Apply(s, a).value)
  {
    hide Peers.ParseAddress, Handle, Wanted, Peered;
    var s' := Apply(s, a).value;
    if a.BridgeTakes? {
      DialAccounts(s);
    } else if a.WorkerTakes? && s.toWorker[0].Frame? {
      FrameWantsNothing(s.toWorker[0]);
      WantedJoins(s.toBridge, s'.toBridge[|s.toBridge|..]);
    } else if a.PostRequest? {
      var m := s'.toBridge[|s.toBridge|..];
      assert s'.asked == s.asked + m && s'.toBridge == s.toBridge + m;
      WantedJoins(s.toBridge, m);
      WantedJoins(s.asked, m);
    }
  }

  lemma FrameWantsNothing(post: Post)
    requires post.Frame?
    ensures Wanted([PeerFrame(post.endpointId, post.relay)]) == []
  {
    assert Wanted([PeerFrame(post.endpointId, post.relay)][..0]) == [];
  }

  lemma {:induction false} RunAccounts(s: State, acts: seq<Action>)
    requires Accounted(s) && Run(s, acts).Some?
    ensures Accounted(Run(s, acts).value)
    decreases |acts|
  {
    if |acts| == 0 {
    } else {
      StepAccounts(s, acts[0]);
      RunAccounts(Apply(s, acts[0]).value, acts[1..]);
    }
  }

  // --- the results ---------------------------------------------------------

  /** The dials are, in order, the requests posted so far that name a peer, less those still in the
      port: none is dialled twice, skipped, or sent to another peer. */
  lemma EveryRequestIsDialledOnce(relay: string, acts: seq<Action>, s: State)
    requires Run(Init(relay), acts) == Some(s)
    ensures Peered(s.dials) + Wanted(s.toBridge) == Wanted(s.asked)
  {
    assert Init(relay).toBridge[..0] == [];
    RunAccounts(Init(relay), acts);
  }

  /** In every interleaving of the page, the worker, the bridge and its suspended init, each dial goes
      through the relay the page last posted for that peer before the statement that made it, or else
      the default one; and there is a client to dial with. */
  lemma EveryDialUsesItsRelay(relay: string, acts: seq<Action>, s: State, i: nat)
    requires Run(Init(relay), acts) == Some(s) && i < |s.dials|
    ensures var d := s.dials[i];
      && d.cause < |s.posted| && s.posted[d.cause].Statement? && d.client
      && d.relay == OrElse(Known(LastPosted(s.posted[..d.cause], d.peer)), OrNull(relay))
  {
    InitHolds(relay);
    RunKeeps(relay, Init(relay), acts);
    assert Right(relay, s, s.dials[i]);
  }

  /** A request is only posted once the bridge has its endpoint and READY says so. */
  lemma NothingPostedBeforeReady(relay: string, acts: seq<Action>, s: State)
    requires Run(Init(relay), acts) == Some(s) && Apply(s, PostRequest).Some?
    ensures s.ready == READY_OK && s.init == Done(true) && s.client && !s.bridgeError
  {
    InitHolds(relay);
    RunKeeps(relay, Init(relay), acts);
  }

  /** Once the bridge's worker has reported an error, nothing is posted any more, whatever READY says. */
  lemma {:induction false} NothingPostedAfterAnError(s: State, acts: seq<Action>, s': State)
    requires s.bridgeError && !s.worker.Passed? && Run(s, acts) == Some(s')
    ensures s'.bridgeError && !s'.worker.Passed? && s'.asked == s.asked
    decreases |acts|
  {
    hide Peers.ParseAddress;
    if |acts| == 0 {
    } else {
      NothingPostedAfterAnError(Apply(s, acts[0]).value, acts[1..], s');
    }
  }

  lemma ErrorStopsPosting(s: State, s1: State, acts: seq<Action>, s': State)
    requires Apply(s, LoadError) == Some(s1) && Run(s1, acts) == Some(s')
    ensures s'.asked == s.asked
  {
    NothingPostedAfterAnError(s1, acts, s');
  }

  /** One action more. */
  lemma {:induction false} RunOneMore(s: State, acts: seq<Action>, m: State, a: Action, e: State)
    requires Run(s, acts) == Some(m) && Apply(m, a) == Some(e)
    ensures Run(s, acts + [a]) == Some(e)
    decreases |acts|
  {
    hide Apply;
    if |acts| == 0 {
      assert acts + [a] == [a] && [a][1..] == [];
    } else {
      assert (acts + [a])[1..] == acts[1..] + [a];
      RunOneMore(Apply(s, acts[0]).value, acts[1..], m, a, e);
    }
  }

  lemma Extend(relay: string, acts: seq<Action>, s: State, a: Action) returns (acts': seq<Action>, s': State)
    requires Run(Init(relay), acts) == Some(s) && Apply(s, a).Some?
    ensures Run(Init(relay), acts') == Some(s') && Apply(s, a) == Some(s')
  {
    acts', s' := acts + [a], Apply(s, a).value;
    RunOneMore(Init(relay), acts, s, a, s');
  }

  lemma Started(relay: string) returns (acts: seq<Action>, s: State)
    ensures Run(Init(relay), acts) == Some(s)
    ensures s == Init(relay).(toBridge := [], init := Done(true), ready := READY_OK, client := true, defaultRelay := OrNull(relay))
  {
    hide Run;
    NoRun(Init(relay));
    acts, s := Extend(relay, [], Init(relay), BridgeTakes);
    acts, s := Extend(relay, acts, s, InitSettles(true));
    acts, s := Extend(relay, acts, s, StoreReady);
  }

  lemma NoRun(s: State)
    ensures Run(s, []) == Some(s)
  {}

  /** One statement handled, with one request in it, which the bridge dials. */
  lemma OneStatement(relay: string, acts: seq<Action>, s: State, host: string) returns (acts': seq<Action>, s': State)
    requires Run(Init(relay), acts) == Some(s) && s.worker.Listening? && s.toWorker == [] && s.toBridge == []
    requires s.ready == READY_OK && s.init == Done(true) && !s.bridgeError && s.handled == |s.posted|
    requires Peers.ParseAddress(host).Some? && Peers.ParseAddress(host).value != ""
    ensures Run(Init(relay), acts') == Some(s')
    ensures var peer := Peers.ParseAddress(host).value;
      s' == s.(posted := s.posted + [Statement], handled := s.handled + 1, asked := s.asked + [Request(host, s.handled)],
               dials := s.dials + [Dialled(peer, OrElse(Get(s.relays, peer), s.defaultRelay), s.handled, s.client)])
  {
    hide Run, Peers.ParseAddress;
    acts', s' := Extend(relay, acts, s, Page(Statement));
    acts', s' := Extend(relay, acts', s', WorkerTakes);
    acts', s' := Extend(relay, acts', s', Gate(host));
    acts', s' := Extend(relay, acts', s', PostRequest);
    acts', s' := Extend(relay, acts', s', StatementEnds);
    acts', s' := Extend(relay, acts', s', BridgeTakes);
  }

  /** It does come to dials: a run in which two peers are registered and one statement is made to each, one
      after the other, each dialled once, through its own relay. */
  lemma TwoRemotes(relay: string, host1: string, host2: string, relay1: string, relay2: string)
    returns (acts: seq<Action>, s: State)
    requires Peers.ParseAddress(host1).Some? && Peers.ParseAddress(host1).value != ""
    requires Peers.ParseAddress(host2).Some? && Peers.ParseAddress(host2).value != ""
    requires Peers.ParseAddress(host1) != Peers.ParseAddress(host2) && relay1 != "" && relay2 != ""
    ensures Run(Init(relay), acts) == Some(s)
    ensures s.dials == [Dialled(Peers.ParseAddress(host1).value, Some(relay1), 2, true),
                        Dialled(Peers.ParseAddress(host2).value, Some(relay2), 3, true)]
  {
    hide Run, Peers.ParseAddress;
    acts, s := Started(relay);
    acts, s := OneFrame(relay, acts, s, Peers.ParseAddress(host1).value, relay1);
    acts, s := OneFrame(relay, acts, s, Peers.ParseAddress(host2).value, relay2);
    acts, s := OneStatement(relay, acts, s, host1);
    acts, s := OneStatement(relay, acts, s, host2);
  }

  lemma OneFrame(relay: string, acts: seq<Action>, s: State, peer: string, of: string)
    returns (acts': seq<Action>, s': State)
    requires Run(Init(relay), acts) == Some(s) && s.worker.Listening? && s.toWorker == [] && s.toBridge == []
    requires !s.init.Bound? && peer != "" && s.handled == |s.posted|
    ensures Run(Init(relay), acts') == Some(s')
    ensures s' == s.(posted := s.posted + [Post.Frame(peer, of)], handled := s.handled + 1, relays := s.relays[peer := OrNull(of)])
  {
    hide Run;
    acts', s' := Extend(relay, acts, s, Page(Post.Frame(peer, of)));
    acts', s' := Extend(relay, acts', s', WorkerTakes);
    acts', s' := Extend(relay, acts', s', BridgeTakes);
  }

  /** The last frame for a peer decides, whatever was posted for others in between. */
  lemma {:induction false} LastFrameDecides(posts: seq<Post>, j: nat, peer: string)
    requires j < |posts| && posts[j].Frame? && posts[j].endpointId == peer
    requires forall i | j < i < |posts| :: !(posts[i].Frame? && posts[i].endpointId == peer)
    ensures LastPosted(posts, peer) == Some(posts[j].relay)
  {
    if j + 1 == |posts| {
    } else {
      LastFrameDecides(posts[..|posts| - 1], j, peer);
    }
  }

  /** The frames among some posts. */
  function FramesOf(posts: seq<Post>): seq<Post> {
    if |posts| == 0 then []
    else FramesOf(posts[..|posts| - 1]) + if posts[|posts| - 1].Frame? then [posts[|posts| - 1]] else []
  }

  /** Statements in between tell the bridge nothing. */
  lemma {:induction false} OnlyFramesTell(posts: seq<Post>, peer: string)
    ensures LastPosted(FramesOf(posts), peer) == LastPosted(posts, peer)
  {
    if |posts| == 0 {
    } else {
      var front := posts[..|posts| - 1];
      OnlyFramesTell(front, peer);
      if posts[|posts| - 1].Frame? {
        assert FramesOf(posts)[..|FramesOf(front)|] == FramesOf(front);
      } else {
        assert FramesOf(posts) == FramesOf(front);
      }
    }
  }

  /** So a peer attached with a relay of its own is dialled through that one, by every statement until
      the page posts another, though other peers' frames arrive in between. */
  lemma AttachedPeerKeepsItsRelay(relay: string, acts: seq<Action>, s: State, i: nat, j: nat)
    requires Run(Init(relay), acts) == Some(s) && i < |s.dials|
    requires var d := s.dials[i];
      && j < d.cause < |s.posted| && s.posted[j].Frame? && s.posted[j].endpointId == d.peer && s.posted[j].relay != ""
      && forall n | j < n < d.cause :: !(s.posted[n].Frame? && s.posted[n].endpointId == d.peer)
    ensures s.dials[i].relay == Some(s.posted[j].relay)
  {
    EveryDialUsesItsRelay(relay, acts, s, i);
    LastFrameDecides(s.posted[..s.dials[i].cause], j, s.dials[i].peer);
  }

  lemma {:induction false} NothingPosted(posts: seq<Post>, peer: string)
    requires forall i | 0 <= i < |posts| :: !(posts[i].Frame? && posts[i].endpointId == peer)
    ensures LastPosted(posts, peer) == None
  {
    if |posts| == 0 {
    } else {
      NothingPosted(posts[..|posts| - 1], peer);
    }
  }

  /** And one for which the page had posted nothing before the statement, is dialled through the default
      relay, or through none if there is no default. */
  lemma UnregisteredPeerUsesTheDefault(relay: string, acts: seq<Action>, s: State, i: nat)
    requires Run(Init(relay), acts) == Some(s) && i < |s.dials|
    requires forall n: nat | n < s.dials[i].cause && n < |s.posted| ::
      !(s.posted[n].Frame? && s.posted[n].endpointId == s.dials[i].peer)
    ensures s.dials[i].relay == if relay == "" then None else Some(relay)
  {
    EveryDialUsesItsRelay(relay, acts, s, i);
    NothingPosted(s.posted[..s.dials[i].cause], s.dials[i].peer);
  }

  /** The same for one whose last frame named no relay. */
  lemma RelaylessPeerUsesTheDefault(relay: string, acts: seq<Action>, s: State, i: nat, j: nat)
    requires Run(Init(relay), acts) == Some(s) && i < |s.dials|
    requires var d := s.dials[i];
      && j < d.cause < |s.posted| && s.posted[j].Frame? && s.posted[j].endpointId == d.peer && s.posted[j].relay == ""
      && forall n | j < n < d.cause :: !(s.posted[n].Frame? && s.posted[n].endpointId == d.peer)
    ensures s.dials[i].relay == if relay == "" then None else Some(relay)
  {
    EveryDialUsesItsRelay(relay, acts, s, i);
    LastFrameDecides(s.posted[..s.dials[i].cause], j, s.dials[i].peer);
  }
}
