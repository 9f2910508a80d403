/** The list of connections a browser session keeps, against the database that holds them. */
module Session {
  import opened Text
  import opened Numbers
  import RelayRouting

  datatype Kind = Local | Remote

  datatype Record = Record(name: string, kind: Kind, endpointId: Option<string>, relayUrl: string, secretName: string)

  /** What a parsed ticket gives. */
  datatype Peer = Peer(endpointId: string, relayUrl: string, token: string)

  function SecretName(peer: Peer): string {
    "qh_" + peer.endpointId
  }

  /** The session's list; the catalogs and secrets the database holds; and the `peer` frames posted. */
  datatype State = State(
    connections: seq<Record>, catalogs: set<string>, secrets: set<string>, posted: seq<RelayRouting.Post>)

  /** Whether each statement the database is sent goes through, where it could. */
  datatype Luck = Luck(create: bool, attach: bool, detach: bool, drop: bool, list: bool)

  // --- fresh names ---------------------------------------------------------

  function Numbered(base: string, n: nat): string {
    base + Decimal(n)
  }

  lemma NumberedIsInjective(base: string, m: nat, n: nat)
    requires Numbered(base, m) == Numbered(base, n)
    ensures m == n
  {
    assert Numbered(base, m)[|base|..] == Decimal(m);
    assert Numbered(base, n)[|base|..] == Decimal(n);
    ValuePrint(m, 10, false);
    ValuePrint(n, 10, false);
  }

  /** The least suffix from `n` on that is free. */
  function LeastSuffix(base: string, taken: set<string>, n: nat): (r: nat)
    ensures r >= n
    decreases |taken|
  {
    if Numbered(base, n) !in taken then n else LeastSuffix(base, taken - {Numbered(base, n)}, n + 1)
  }

  lemma {:induction false} SuffixIsLeast(base: string, taken: set<string>, n: nat)
    ensures Numbered(base, LeastSuffix(base, taken, n)) !in taken
    ensures forall k | n <= k < LeastSuffix(base, taken, n) :: Numbered(base, k) in taken
    decreases |taken|
  {
    if Numbered(base, n) !in taken {
    } else {
      var rest := taken - {Numbered(base, n)};
      SuffixIsLeast(base, rest, n + 1);
      var r := LeastSuffix(base, rest, n + 1);
      if Numbered(base, r) == Numbered(base, n) { NumberedIsInjective(base, r, n); }
    }
  }

  function Names(connections: seq<Record>): set<string> {
    set c | c in connections :: c.name
  }

  function UniqueName(base: string, taken: set<string>): string {
    if base !in taken then base else Numbered(base, LeastSuffix(base, taken, 2))
  }

  /** The name handed out is free, and among the candidates the first. */
  lemma UniqueNameIsFree(base: string, taken: set<string>)
    ensures UniqueName(base, taken) !in taken
    ensures base in taken ==> exists n: nat :: n >= 2 && UniqueName(base, taken) == Numbered(base, n) &&
                                               forall k: nat | 2 <= k < n :: Numbered(base, k) in taken
  {
    SuffixIsLeast(base, taken, 2);
  }

  // --- the operations ------------------------------------------------------

  predicate Gone(c: Record, live: set<string>) {
    c.kind.Remote? && c.name !in live
  }

  function Kept(connections: seq<Record>, live: set<string>): seq<Record> {
    if |connections| == 0 then []
    else (if Gone(connections[0], live) then [] else [connections[0]]) + Kept(connections[1..], live)
  }

  function Dropped(connections: seq<Record>, live: set<string>): seq<Record> {
    if |connections| == 0 then []
    else (if Gone(connections[0], live) then [connections[0]] else []) + Dropped(connections[1..], live)
  }

  function RecordFor(s: State, peer: Peer, base: string): Record {
    Record(UniqueName(base, Names(s.connections)), Remote, Some(peer.endpointId), peer.relayUrl, SecretName(peer))
  }

  predicate Listed(s: State, endpointId: string) {
    exists c | c in s.connections :: c.endpointId == Some(endpointId)
  }

  function DropSecret(s: State, name: string, ok: bool): State {
    if ok then s.(secrets := s.secrets - {name}) else s
  }

  /** `attach`: refused for a peer already listed; otherwise the relay is posted first, and whatever
      then fails takes the secret back out and leaves the list alone. */
  function AfterAttach(s: State, peer: Peer, base: string, luck: Luck): State {
    if Listed(s, peer.endpointId) then s
    else
      var record := RecordFor(s, peer, base);
      var s1 := s.(posted := s.posted + [RelayRouting.Frame(peer.endpointId, peer.relayUrl)]);
      if peer.token != "" && !(luck.create && record.secretName !in s.secrets) then
        DropSecret(s1, record.secretName, luck.drop)
      else
        var s2 := if peer.token != "" then s1.(secrets := s1.secrets + {record.secretName}) else s1;
        if !(luck.attach && record.name !in s.catalogs) then DropSecret(s2, record.secretName, luck.drop)
        else s2.(catalogs := s2.catalogs + {record.name}, connections := s2.connections + [record])
  }

  function AfterReconcile(s: State, luck: Luck): State {
    if luck.list then s.(connections := Kept(s.connections, s.catalogs)) else s
  }

  function AfterDetach(s: State, record: Record, luck: Luck): State {
    var s1 := if luck.detach then s.(catalogs := s.catalogs - {record.name}) else s;
    AfterReconcile(DropSecret(s1, record.secretName, luck.drop), luck)
  }

  /** What a run of the session is made of; `TypedDetach` and `TypedAttach` are what
      somebody types by hand, of whatever database. */
  datatype Op =
    | Attach(peer: Peer, base: string, luck: Luck)
    | Detach(record: Record, luck: Luck)
    | TypedDetach(name: string)
    | TypedAttach(name: string)
    | Reconcile(luck: Luck)

  function After(s: State, op: Op): State {
    match op
    case Attach(peer, base, luck) => AfterAttach(s, peer, base, luck)
    case Detach(record, luck) => AfterDetach(s, record, luck)
    case TypedDetach(name) => s.(catalogs := s.catalogs - {name})
    case TypedAttach(name) => s.(catalogs := s.catalogs + {name})
    case Reconcile(luck) => AfterReconcile(s, luck)
  }

  function AfterAll(s: State, ops: seq<Op>): State
    decreases |ops|
  {
    if |ops| == 0 then s else AfterAll(After(s, ops[0]), ops[1..])
  }

  function Init(localName: string): State {
    State([Record(localName, Local, None, "", "")], {localName}, {}, [])
  }

  /** The local entry is first and alone in being local; names and endpoint ids are pairwise distinct. */
  ghost predicate Valid(connections: seq<Record>) {
    && |connections| > 0 && connections[0].kind == Local && connections[0].endpointId == None
    && (forall i | 1 <= i < |connections| :: connections[i].kind == Remote && connections[i].endpointId.Some?)
    && (forall i, j | 0 <= i < j < |connections| ::
          connections[i].name != connections[j].name && connections[i].endpointId != connections[j].endpointId)
  }

  /** A kept list is part of the list it came from, in its order. */
  lemma {:induction false} KeptIsInside(connections: seq<Record>, live: set<string>)
    ensures forall c :: c in Kept(connections, live) <==> c in connections && !Gone(c, live)
    ensures forall c :: c in Dropped(connections, live) <==> c in connections && Gone(c, live)
  {
    if |connections| == 0 {
    } else {
      hide Gone;
      KeptIsInside(connections[1..], live);
      assert connections == [connections[0]] + connections[1..];
    }
  }

  lemma KeptTells(connections: seq<Record>, live: set<string>)
    ensures forall c :: c in Kept(connections, live) <==> c in connections && (c.kind == Remote ==> c.name in live)
  {
    KeptIsInside(connections, live);
  }

  lemma {:induction false} KeptAndDropped(connections: seq<Record>, live: set<string>)
    ensures multiset(connections) == multiset(Kept(connections, live)) + multiset(Dropped(connections, live))
  {
    if |connections| == 0 {
    } else {
      hide Gone;
      var first, rest := [connections[0]], connections[1..];
      KeptAndDropped(rest, live);
      assert connections == first + rest;
      if Gone(connections[0], live) {
        assert Dropped(connections, live) == first + Dropped(rest, live);
        assert Kept(connections, live) == Kept(rest, live);
      } else {
        assert Kept(connections, live) == first + Kept(rest, live);
        assert Dropped(connections, live) == Dropped(rest, live);
      }
    }
  }

  ghost predicate Distinct(connections: seq<Record>) {
    forall i, j | 0 <= i < j < |connections| ::
      connections[i].name != connections[j].name && connections[i].endpointId != connections[j].endpointId
  }

  lemma {:induction false} KeptStaysDistinct(connections: seq<Record>, live: set<string>)
    requires Distinct(connections)
    ensures Distinct(Kept(connections, live))
  {
    if |connections| == 0 {
    } else {
      var c, rest := connections[0], Kept(connections[1..], live);
      KeptStaysDistinct(connections[1..], live);
      KeptIsInside(connections[1..], live);
      forall j | 0 <= j < |rest| ensures c.name != rest[j].name && c.endpointId != rest[j].endpointId {
        assert rest[j] in connections[1..];
      }
    }
  }

  lemma KeptStaysValid(connections: seq<Record>, live: set<string>)
    requires Valid(connections)
    ensures Valid(Kept(connections, live))
  {
    var kept, rest := Kept(connections, live), Kept(connections[1..], live);
    assert kept == [connections[0]] + rest;
    KeptStaysDistinct(connections, live);
    KeptIsInside(connections[1..], live);
    forall i | 1 <= i < |kept| ensures kept[i].kind == Remote && kept[i].endpointId.Some? {
      assert kept[i] == rest[i - 1] && rest[i - 1] in connections[1..];
    }
  }

  lemma AttachStaysValid(s: State, peer: Peer, base: string, luck: Luck)
    requires Valid(s.connections)
    ensures Valid(AfterAttach(s, peer, base, luck).connections)
  {
    var names := Names(s.connections);
    UniqueNameIsFree(base, names);
    forall i | 0 <= i < |s.connections| ensures s.connections[i].name in names {
      assert s.connections[i] in s.connections;
    }
  }

  lemma StepStaysValid(s: State, op: Op)
    requires Valid(s.connections)
    ensures Valid(After(s, op).connections)
  {
    match op
    case Attach(peer, base, luck) => AttachStaysValid(s, peer, base, luck);
    case Detach(record, luck) => KeptStaysValid(s.connections, if luck.detach then s.catalogs - {record.name} else s.catalogs);
    case TypedDetach(_) =>
    case TypedAttach(_) =>
    case Reconcile(_) => KeptStaysValid(s.connections, s.catalogs);
  }

  /** Over every sequence of operations, with any luck: the local entry stays first, names and endpoint
      ids stay pairwise distinct. */
  lemma {:induction false} EveryRunStaysValid(s: State, ops: seq<Op>)
    requires Valid(s.connections)
    ensures Valid(AfterAll(s, ops).connections)
    decreases |ops|
  {
    if |ops| == 0 {
    } else {
      StepStaysValid(s, ops[0]);
      EveryRunStaysValid(After(s, ops[0]), ops[1..]);
    }
  }

  lemma EverySessionIsValid(localName: string, ops: seq<Op>)
    ensures Valid(AfterAll(Init(localName), ops).connections)
  {
    EveryRunStaysValid(Init(localName), ops);
  }

  /** After a reconcile that could ask, every remote listed is attached; nothing else is lost. */
  lemma ReconcileTellsTheTruth(s: State, luck: Luck)
    requires luck.list
    ensures var s' := AfterReconcile(s, luck);
      && (forall c | c in s'.connections && c.kind.Remote? :: c.name in s'.catalogs)
      && (forall c | c in s.connections && (c.kind.Local? || c.name in s.catalogs) :: c in s'.connections)
      && multiset(s'.connections) + multiset(Dropped(s.connections, s.catalogs)) == multiset(s.connections)
  {
    KeptIsInside(s.connections, s.catalogs);
    KeptAndDropped(s.connections, s.catalogs);
  }

  // --- what the bridge has been told ---------------------------------------

  /** The bridge has been told the relay each listed remote shows, and nothing else since. */
  ghost predicate Registered(s: State) {
    forall c | c in s.connections && c.endpointId.Some? :: RelayRouting.LastPosted(s.posted, c.endpointId.value) == Some(c.relayUrl)
  }

  lemma AttachRegisters(s: State, peer: Peer, base: string, luck: Luck)
    requires Registered(s)
    ensures Registered(AfterAttach(s, peer, base, luck))
  {
    var s' := AfterAttach(s, peer, base, luck);
    if !Listed(s, peer.endpointId) {
      assert s'.posted[..|s.posted|] == s.posted;
      forall c | c in s'.connections && c.endpointId.Some?
        ensures RelayRouting.LastPosted(s'.posted, c.endpointId.value) == Some(c.relayUrl)
      {
        if c in s.connections { assert c.endpointId != Some(peer.endpointId); }
      }
    }
  }

  lemma StepRegisters(s: State, op: Op)
    requires Registered(s)
    ensures Registered(After(s, op))
  {
    match op
    case Attach(peer, base, luck) => AttachRegisters(s, peer, base, luck);
    case Detach(record, luck) => KeptIsInside(s.connections, if luck.detach then s.catalogs - {record.name} else s.catalogs);
    case TypedDetach(_) =>
    case TypedAttach(_) =>
    case Reconcile(_) => KeptIsInside(s.connections, s.catalogs);
  }

  lemma {:induction false} RunRegisters(s: State, ops: seq<Op>)
    requires Registered(s)
    ensures Registered(AfterAll(s, ops))
    decreases |ops|
  {
    if |ops| == 0 {
    } else {
      StepRegisters(s, ops[0]);
      RunRegisters(After(s, ops[0]), ops[1..]);
    }
  }

  /** Over every sequence of operations: the relay a listed remote shows is the one last posted for it,
      so the one its statements are dialled through. */
  lemma EveryRemoteIsRegistered(localName: string, ops: seq<Op>)
    ensures var s := AfterAll(Init(localName), ops);
      forall c | c in s.connections && c.endpointId.Some? :: RelayRouting.LastPosted(s.posted, c.endpointId.value) == Some(c.relayUrl)
  {
    RunRegisters(Init(localName), ops);
  }

  /** From the session to the dial: whatever the page, the worker and the bridge do in between, a
      request that a statement of this session makes to a listed remote is dialled through the relay
      the session's record shows for it, or the default one if it shows none. */
  lemma DialledAsListed(
    localName: string, ops: seq<Op>, c: Record, relay: string, acts: seq<RelayRouting.Action>, t: RelayRouting.State, i: nat)
    requires c in AfterAll(Init(localName), ops).connections
    requires RelayRouting.Run(RelayRouting.Init(relay), acts) == Some(t) && i < |t.dials|
    requires c.endpointId == Some(t.dials[i].peer) && t.dials[i].cause < |t.posted|
    requires RelayRouting.FramesOf(t.posted[..t.dials[i].cause]) == AfterAll(Init(localName), ops).posted
    ensures t.dials[i].relay == RelayRouting.OrElse(RelayRouting.OrNull(c.relayUrl), RelayRouting.OrNull(relay))
  {
    EveryRemoteIsRegistered(localName, ops);
    RelayRouting.EveryDialUsesItsRelay(relay, acts, t, i);
    RelayRouting.OnlyFramesTell(t.posted[..t.dials[i].cause], t.dials[i].peer);
  }

  // --- from the ticket to the dial -----------------------------------------

  /** What an attach tells, told from the ticket. For every peer not listed, whether it works or not, its id
      and relay are posted, and nothing else; if it works, the list grows by one record, which shows id and
      relay and names the secret after the id; and with a token, that secret is held. */
  lemma AttachTellsTheTicket(s: State, peer: Peer, base: string, luck: Luck)
    requires forall c | c in s.connections :: c.endpointId != Some(peer.endpointId)
    ensures var s' := AfterAttach(s, peer, base, luck);
      && s'.posted == s.posted + [RelayRouting.Frame(peer.endpointId, peer.relayUrl)]
      && (s'.connections == s.connections || |s'.connections| == |s.connections| + 1)
      && (s'.connections != s.connections ==>
            var record := s'.connections[|s.connections|];
            && s'.connections == s.connections + [record]
            && record.endpointId == Some(peer.endpointId) && record.relayUrl == peer.relayUrl
            && record.secretName == "qh_" + peer.endpointId && record.kind == Remote
            && record.name in s'.catalogs && record.name !in s.catalogs
            && (peer.token != "" ==> "qh_" + peer.endpointId in s'.secrets))
  {
    assert !Listed(s, peer.endpointId);
  }

  /** For a peer that is listed, nothing at all happens. */
  lemma ListedIsRefused(s: State, peer: Peer, base: string, luck: Luck, c: Record)
    requires c in s.connections && c.endpointId == Some(peer.endpointId)
    ensures AfterAttach(s, peer, base, luck) == s
  {}

  lemma OthersPostNothingFor(s: State, op: Op, id: string)
    requires op.Attach? && op.peer.endpointId == id ==> Listed(s, id)
    ensures RelayRouting.LastPosted(After(s, op).posted, id) == RelayRouting.LastPosted(s.posted, id)
  {
    if op.Attach? && !Listed(s, op.peer.endpointId) {
      var s' := After(s, op);
      assert s'.posted[..|s.posted|] == s.posted;
    }
  }

  lemma {:induction false} RestPostsNothingFor(s: State, ops: seq<Op>, j: nat, id: string)
    requires j <= |ops|
    requires forall k: nat | j <= k < |ops| && ops[k].Attach? && ops[k].peer.endpointId == id ::
      Listed(Before(s, ops, k), id)
    ensures RelayRouting.LastPosted(AfterAll(s, ops).posted, id) == RelayRouting.LastPosted(Before(s, ops, j).posted, id)
    decreases |ops| - j
  {
    hide After, AfterAll, Listed;
    if j == |ops| {
      assert ops[..j] == ops;
    } else {
      OneMore(s, ops, j);
      OthersPostNothingFor(Before(s, ops, j), ops[j], id);
      RestPostsNothingFor(s, ops, j + 1, id);
    }
  }

  lemma OneMore(s: State, ops: seq<Op>, j: nat)
    requires j < |ops|
    ensures Before(s, ops, j + 1) == After(Before(s, ops, j), ops[j])
  {
    hide After;
    assert ops[..j + 1] == ops[..j] + [ops[j]];
    AfterAllSnoc(s, ops[..j], ops[j]);
  }

  /** From the ticket to the dial, over all sessions. The `j`-th operation attaches a peer that is not
      listed, and no later attach of that peer is let through: then a request that any later statement of
      the session makes to it is dialled through the relay of its ticket; or, if the ticket names none,
      through the default one; or, if there is none, through none. */
  lemma DialledByTheTicket(
    localName: string, ops: seq<Op>, j: nat, relay: string, acts: seq<RelayRouting.Action>, t: RelayRouting.State, i: nat)
    requires j < |ops| && ops[j].Attach? && !Listed(Before(Init(localName), ops, j), ops[j].peer.endpointId)
    requires forall k: nat | j < k < |ops| && ops[k].Attach? && ops[k].peer.endpointId == ops[j].peer.endpointId ::
      Listed(Before(Init(localName), ops, k), ops[j].peer.endpointId)
    requires RelayRouting.Run(RelayRouting.Init(relay), acts) == Some(t) && i < |t.dials|
    requires t.dials[i].peer == ops[j].peer.endpointId && t.dials[i].cause < |t.posted|
    requires RelayRouting.FramesOf(t.posted[..t.dials[i].cause]) == AfterAll(Init(localName), ops).posted
    ensures t.dials[i].relay ==
            if ops[j].peer.relayUrl != "" then Some(ops[j].peer.relayUrl) else if relay != "" then Some(relay) else None
  {
    var s0, peer := Init(localName), ops[j].peer;
    hide Listed, RelayRouting.Run, RelayRouting.FramesOf;
    TicketIsPosted(Before(s0, ops, j), ops[j]);
    OneMore(s0, ops, j);
    RestPostsNothingFor(s0, ops, j + 1, peer.endpointId);
    RelayRouting.OnlyFramesTell(t.posted[..t.dials[i].cause], peer.endpointId);
    RelayRouting.EveryDialUsesItsRelay(relay, acts, t, i);
  }

  lemma TicketIsPosted(s: State, op: Op)
    requires op.Attach? && !Listed(s, op.peer.endpointId)
    ensures RelayRouting.LastPosted(After(s, op).posted, op.peer.endpointId) == Some(op.peer.relayUrl)
  {
    var s' := After(s, op);
    assert s'.posted == s.posted + [RelayRouting.Frame(op.peer.endpointId, op.peer.relayUrl)];
  }

  // --- which secrets are held ----------------------------------------------

  /** Whether an attach goes through. */
  predicate Attaches(s: State, peer: Peer, base: string, luck: Luck) {
    && !Listed(s, peer.endpointId)
    && (peer.token == "" || (luck.create && SecretName(peer) !in s.secrets))
    && luck.attach && UniqueName(base, Names(s.connections)) !in s.catalogs
  }

  /** An attach adds its record exactly then, and otherwise leaves list and catalogs alone. */
  lemma AttachesExactly(s: State, peer: Peer, base: string, luck: Luck)
    ensures var s' := AfterAttach(s, peer, base, luck);
      if Attaches(s, peer, base, luck) then s'.connections == s.connections + [RecordFor(s, peer, base)]
      else s'.connections == s.connections && s'.catalogs == s.catalogs
  {}

  /** The operation drops the secret, if it is there. */
  predicate Drops(s: State, op: Op, name: string) {
    match op
    case Attach(peer, base, luck) =>
      SecretName(peer) == name && !Listed(s, peer.endpointId) && !Attaches(s, peer, base, luck) && luck.drop
    case Detach(record, luck) => record.secretName == name && luck.drop
    case TypedDetach(_) => false
    case TypedAttach(_) => false
    case Reconcile(_) => false
  }

  /** The operation creates the secret, and leaves it there. */
  predicate Creates(s: State, op: Op, name: string) {
    && op.Attach? && SecretName(op.peer) == name && !Listed(s, op.peer.endpointId)
    && op.peer.token != "" && op.luck.create && name !in s.secrets
    && !Drops(s, op, name)
  }

  lemma StepSecrets(s: State, op: Op, name: string)
    ensures name in After(s, op).secrets <==> Creates(s, op, name) || (name in s.secrets && !Drops(s, op, name))
  {
    hide Kept, UniqueName, Listed, Names;
  }

  lemma {:induction false} AfterAllSnoc(s: State, ops: seq<Op>, op: Op)
    ensures AfterAll(s, ops + [op]) == After(AfterAll(s, ops), op)
    decreases |ops|
  {
    hide After;
    if |ops| == 0 {
      assert ops + [op] == [op] && [op][1..] == [];
    } else {
      assert (ops + [op])[1..] == ops[1..] + [op];
      AfterAllSnoc(After(s, ops[0]), ops[1..], op);
    }
  }

  /** The state before the `j`-th operation. */
  function Before(s: State, ops: seq<Op>, j: nat): State
    requires j <= |ops|
  {
    AfterAll(s, ops[..j])
  }

  /** The `j`-th operation created the secret, and none has dropped it since. */
  ghost predicate HeldFrom(s: State, ops: seq<Op>, name: string, j: nat) {
    && j < |ops| && Creates(Before(s, ops, j), ops[j], name)
    && forall k: nat | j < k < |ops| :: !Drops(Before(s, ops, k), ops[k], name)
  }

  ghost predicate Held(s: State, ops: seq<Op>, name: string) {
    exists j: nat :: HeldFrom(s, ops, name, j)
  }

  lemma {:induction false} SecretsAreAccounted(s: State, ops: seq<Op>, name: string)
    requires name !in s.secrets
    ensures name in AfterAll(s, ops).secrets <==> Held(s, ops, name)
    decreases |ops|
  {
    hide After, Creates, Drops, AfterAll;
    if |ops| == 0 {
      AfterNone(s, ops);
    } else {
      var n := |ops| - 1;
      var front, last := ops[..n], ops[n];
      assert ops == front + [last];
      SecretsAreAccounted(s, front, name);
      AfterAllSnoc(s, front, last);
      StepSecrets(AfterAll(s, front), last, name);
      forall j: nat | j <= n ensures Before(s, ops, j) == Before(s, front, j) {
        assert ops[..j] == front[..j];
      }
      assert Before(s, ops, n) == AfterAll(s, front) by { assert front[..n] == front; }
      HeldLonger(s, front, last, name);
    }
  }

  lemma AfterNone(s: State, ops: seq<Op>)
    requires |ops| == 0
    ensures AfterAll(s, ops) == s
  {}

  lemma HeldFromLonger(s: State, front: seq<Op>, last: Op, name: string, j: nat)
    requires forall j: nat | j <= |front| :: Before(s, front + [last], j) == Before(s, front, j)
    requires Before(s, front, |front|) == AfterAll(s, front)
    ensures HeldFrom(s, front + [last], name, j) <==>
            if j == |front| then Creates(AfterAll(s, front), last, name)
            else HeldFrom(s, front, name, j) && !Drops(AfterAll(s, front), last, name)
  {
    hide Before, AfterAll, Creates, Drops;
    var ops, n := front + [last], |front|;
    assert forall k: nat | k < n :: ops[k] == front[k];
    assert ops[n] == last;
  }

  lemma HeldLonger(s: State, front: seq<Op>, last: Op, name: string)
    requires forall j: nat | j <= |front| :: Before(s, front + [last], j) == Before(s, front, j)
    ensures Held(s, front + [last], name) <==>
            Creates(AfterAll(s, front), last, name) || (Held(s, front, name) && !Drops(AfterAll(s, front), last, name))
  {
    hide AfterAll, Creates, Drops, HeldFrom;
    assert front[..|front|] == front;
    forall j: nat {
      HeldFromLonger(s, front, last, name, j);
    }
    NothingHeldPastEnd(s, front, name);
    if Creates(AfterAll(s, front), last, name) { assert HeldFrom(s, front + [last], name, |front|); }
    if Held(s, front, name) && !Drops(AfterAll(s, front), last, name) {
      var j: nat :| HeldFrom(s, front, name, j);
      assert HeldFrom(s, front + [last], name, j);
    }
  }

  lemma NothingHeldPastEnd(s: State, ops: seq<Op>, name: string)
    ensures forall j: nat :: HeldFrom(s, ops, name, j) ==> j < |ops|
  {}

  /** Exactly when an attach that meets no bad luck succeeds, after any session: the peer is not listed,
      it has no token or its secret was dropped since it was last created, and the fresh name is free. */
  lemma WhenAttachWorks(localName: string, ops: seq<Op>, peer: Peer, base: string)
    ensures var s := AfterAll(Init(localName), ops);
      AfterAttach(s, peer, base, LUCKY).connections == s.connections + [RecordFor(s, peer, base)] <==>
      && !Listed(s, peer.endpointId)
      && (peer.token == "" || !Held(Init(localName), ops, SecretName(peer)))
      && UniqueName(base, Names(s.connections)) !in s.catalogs
  {
    var s := AfterAll(Init(localName), ops);
    SecretsAreAccounted(Init(localName), ops, SecretName(peer));
    AttachesExactly(s, peer, base, LUCKY);
    assert |s.connections + [RecordFor(s, peer, base)]| != |s.connections|;
  }

  /** The last condition is a real one: a database attached by hand can hold the name, which the
      session, looking at its own list only, takes for free. */
  lemma NameCanBeTaken(localName: string, peer: Peer)
    requires localName != "remote"
    ensures var s := AfterAll(Init(localName), [TypedAttach("remote")]);
      AfterAttach(s, peer, "remote", LUCKY).connections == s.connections
  {
    var s0 := Init(localName);
    AfterAllSnoc(s0, [], TypedAttach("remote"));
    assert [] + [TypedAttach("remote")] == [TypedAttach("remote")];
    var s := AfterAll(s0, [TypedAttach("remote")]);
    assert Names(s.connections) == {localName};
    AttachesExactly(s, peer, "remote", LUCKY);
  }

  // --- when the database does not answer -----------------------------------

  /** A database attached by hand takes nobody off the list. */
  lemma HandAttachUnlistsNobody(s: State, name: string, luck: Luck)
    requires forall c | c in s.connections && c.kind == Remote :: c.name in s.catalogs
    ensures var s' := AfterReconcile(After(s, TypedAttach(name)), luck); s'.connections == s.connections && name in s'.catalogs
  {
    AllKept(s.connections, s.catalogs + {name});
  }

  /** A DETACH typed by hand takes off, at the next reconcile, that catalog's remote alone. */
  lemma HandDetachUnlistsOne(s: State, name: string, c: Record)
    requires forall c | c in s.connections && c.kind == Remote :: c.name in s.catalogs
    ensures var s' := AfterReconcile(After(s, TypedDetach(name)), LUCKY);
      c in s'.connections <==> c in s.connections && !(c.kind == Remote && c.name == name)
  {
    KeptTells(s.connections, s.catalogs - {name});
  }

  /** A reconcile that could not ask claims nothing: list, catalogs and secrets stay. */
  lemma NoAnswerNoChange(s: State, luck: Luck)
    requires !luck.list
    ensures AfterReconcile(s, luck) == s
  {}

  /** A failed DETACH leaves the peer listed, and its name with it; a failed DROP leaves the secret. */
  lemma FailedDetachKeepsTheList(s: State, record: Record, luck: Luck)
    requires forall c | c in s.connections && c.kind == Remote :: c.name in s.catalogs
    ensures !luck.detach ==> AfterDetach(s, record, luck).connections == s.connections
    ensures !luck.detach ==> AfterDetach(s, record, luck).catalogs == s.catalogs
    ensures luck.detach ==> record.name !in AfterDetach(s, record, luck).catalogs
    ensures record.secretName in AfterDetach(s, record, luck).secrets <==> !luck.drop && record.secretName in s.secrets
  {
    if !luck.detach && luck.list { AllKept(s.connections, s.catalogs); }
  }

  lemma {:induction false} AllKept(connections: seq<Record>, live: set<string>)
    requires forall c | c in connections && c.kind == Remote :: c.name in live
    ensures Kept(connections, live) == connections
  {
    if |connections| == 0 {
    } else {
      assert connections[0] in connections && forall c | c in connections[1..] :: c in connections;
      AllKept(connections[1..], live);
      assert connections == [connections[0]] + connections[1..];
    }
  }

  // --- coming back ---------------------------------------------------------

  const LUCKY := Luck(true, true, true, true, true)

  /** A failed attach, its leftovers dropped, does not stand in the way of a retry: it gives the same
      record under the same name. */
  lemma RetryWorks(s: State, peer: Peer, base: string, luck: Luck)
    requires !Listed(s, peer.endpointId) && luck.drop
    requires UniqueName(base, Names(s.connections)) !in s.catalogs
    ensures var s1 := AfterAttach(s, peer, base, luck);
      s1.connections == s.connections ==>
        s1.catalogs == s.catalogs &&
        AfterAttach(s1, peer, base, LUCKY).connections == s.connections + [RecordFor(s, peer, base)]
  {
    var s1 := AfterAttach(s, peer, base, luck);
    var name := UniqueName(base, Names(s.connections));
    if s1.connections == s.connections { assert SecretName(peer) !in s1.secrets; }
  }

  /** Every listed remote's secret is named after its peer. */
  ghost predicate SecretsNamed(connections: seq<Record>) {
    forall c | c in connections && c.endpointId.Some? :: c.secretName == "qh_" + c.endpointId.value
  }

  lemma StepNamesSecrets(s: State, op: Op)
    requires SecretsNamed(s.connections)
    ensures SecretsNamed(After(s, op).connections)
  {
    match op
    case Attach(peer, base, luck) => AttachesExactly(s, peer, base, luck);
    case Detach(record, luck) => KeptIsInside(s.connections, if luck.detach then s.catalogs - {record.name} else s.catalogs);
    case TypedDetach(_) =>
    case TypedAttach(_) =>
    case Reconcile(_) => KeptIsInside(s.connections, s.catalogs);
  }

  lemma {:induction false} RunNamesSecrets(s: State, ops: seq<Op>)
    requires SecretsNamed(s.connections)
    ensures SecretsNamed(AfterAll(s, ops).connections)
    decreases |ops|
  {
    hide SecretsNamed, After;
    if |ops| == 0 {
    } else {
      StepNamesSecrets(s, ops[0]);
      RunNamesSecrets(After(s, ops[0]), ops[1..]);
    }
  }

  /** After any session, a listed peer taken off with `detach` can be attached again at once, its secret
      gone with it, exactly if the fresh name is no catalog. */
  lemma DetachThenAttachWorks(localName: string, ops: seq<Op>, record: Record, peer: Peer, base: string)
    requires record in AfterAll(Init(localName), ops).connections && record.endpointId == Some(peer.endpointId)
    ensures var s1 := AfterDetach(AfterAll(Init(localName), ops), record, LUCKY);
      AfterAttach(s1, peer, base, LUCKY).connections == s1.connections + [RecordFor(s1, peer, base)] <==>
      UniqueName(base, Names(s1.connections)) !in s1.catalogs
  {
    var s := AfterAll(Init(localName), ops);
    EverySessionIsValid(localName, ops);
    RunNamesSecrets(Init(localName), ops);
    DetachFrees(s, record, peer);
    var s1 := AfterDetach(s, record, LUCKY);
    AttachesExactly(s1, peer, base, LUCKY);
    assert |s1.connections + [RecordFor(s1, peer, base)]| != |s1.connections|;
  }

  lemma DetachFrees(s: State, record: Record, peer: Peer)
    requires Valid(s.connections) && record in s.connections
    requires record.endpointId == Some(peer.endpointId) && record.secretName == SecretName(peer)
    ensures var s1 := AfterDetach(s, record, LUCKY);
      !Listed(s1, peer.endpointId) && SecretName(peer) !in s1.secrets
  {
    GoneIsUnlisted(s, record, peer, s.catalogs - {record.name});
  }

  /** A peer that left by a hand-typed DETACH cannot: reconcile drops the record but not the secret, so
      the next attach collides with it, and only the one after that succeeds. */
  lemma TypedDetachThenAttachFailsOnce(localName: string, peer: Peer, base: string)
    requires peer.token != "" && base != localName
    ensures var s1 := AfterAttach(Init(localName), peer, base, LUCKY);
      var s2 := AfterReconcile(s1.(catalogs := s1.catalogs - {base}), LUCKY);
      var s3 := AfterAttach(s2, peer, base, LUCKY);
      var s4 := AfterAttach(s3, peer, base, LUCKY);
      |s1.connections| == 2 && s2.connections == s3.connections == Init(localName).connections &&
      s4.connections == s1.connections
  {
    var s0 := Init(localName);
    assert Names(s0.connections) == {localName};
    var s1 := AfterAttach(s0, peer, base, LUCKY);
    var record := RecordFor(s0, peer, base);
    assert record.name == base && base !in s0.catalogs;
    assert s1.connections == s0.connections + [record];
    assert s1.catalogs - {base} == {localName};
    var s2 := AfterReconcile(s1.(catalogs := s1.catalogs - {base}), LUCKY);
    assert s1.connections[1..] == [record];
    assert s1.connections[1..][1..] == [];
    assert Gone(record, {localName}) && !Gone(s0.connections[0], {localName});
    assert Kept([record], {localName}) == [];
    assert s2.connections == s0.connections;
    assert SecretName(peer) in s2.secrets;
    var s3 := AfterAttach(s2, peer, base, LUCKY);
    assert s3.connections == s0.connections && SecretName(peer) !in s3.secrets;
  }

  /** A remote that left by a hand-typed DETACH, in whatever session: reconcile takes it off the list,
      and it can be attached again at once exactly if it has no token or its secret had been dropped;
      otherwise the attempt itself drops the secret, and the next one succeeds. */
  lemma LeftByHand(s: State, record: Record, peer: Peer, base: string)
    requires Valid(s.connections) && record in s.connections && record.endpointId == Some(peer.endpointId)
    requires var s1 := AfterReconcile(s.(catalogs := s.catalogs - {record.name}), LUCKY);
      UniqueName(base, Names(s1.connections)) !in s1.catalogs
    ensures var s1 := AfterReconcile(s.(catalogs := s.catalogs - {record.name}), LUCKY);
      var s2 := AfterAttach(s1, peer, base, LUCKY);
      var s3 := AfterAttach(s2, peer, base, LUCKY);
      var back := s1.connections + [RecordFor(s1, peer, base)];
      && !Listed(s1, peer.endpointId)
      && (s2.connections == back <==> peer.token == "" || SecretName(peer) !in s.secrets)
      && (s2.connections != back ==> s2.connections == s1.connections && s3.connections == back)
  {
    var live := s.catalogs - {record.name};
    var s1 := AfterReconcile(s.(catalogs := live), LUCKY);
    GoneIsUnlisted(s, record, peer, live);
    assert s1.connections == Kept(s.connections, live) && s1.secrets == s.secrets;
    AttachesExactly(s1, peer, base, LUCKY);
    if !Attaches(s1, peer, base, LUCKY) {
      var s2 := AfterAttach(s1, peer, base, LUCKY);
      assert SecretName(peer) !in s2.secrets && s2.connections == s1.connections && s2.catalogs == s1.catalogs;
      AttachesExactly(s2, peer, base, LUCKY);
    }
  }

  lemma GoneIsUnlisted(s: State, record: Record, peer: Peer, live: set<string>)
    requires Valid(s.connections) && record in s.connections && record.endpointId == Some(peer.endpointId)
    requires record.name !in live
    ensures forall c | c in Kept(s.connections, live) :: c.endpointId != Some(peer.endpointId)
  {
    KeptIsInside(s.connections, live);
    var k :| 0 <= k < |s.connections| && s.connections[k] == record;
    assert record.kind.Remote? && Gone(record, live);
    forall c | c in Kept(s.connections, live) ensures c.endpointId != Some(peer.endpointId) {
      assert c != record;
      var i :| 0 <= i < |s.connections| && s.connections[i] == c;
    }
  }

  // --- the class -----------------------------------------------------------

  class QuackholeSession {
    var connections: seq<Record>
    var catalogs: set<string>
    var secrets: set<string>
    var posted: seq<RelayRouting.Post>

    ghost function View(): State
      reads this
    {
      State(connections, catalogs, secrets, posted)
    }

    constructor (localName: string)
      ensures View() == Init(localName)
    {
      connections := [Record(localName, Local, None, "", "")];
      catalogs, secrets, posted := {localName}, {}, [];
    }

    /** The unbounded search for a free suffix: it ends because every candidate passed over is one
        name fewer that is taken. */
    method FreshName(base: string) returns (name: string)
      ensures name == UniqueName(base, Names(connections))
    {
      var taken := Names(connections);
      if base !in taken { return base; }
      var n := 2;
      ghost var left := taken;
      while Numbered(base, n) in taken
        invariant n >= 2 && left <= taken
        invariant forall k: nat :: k >= n ==> (Numbered(base, k) in left <==> Numbered(base, k) in taken)
        invariant LeastSuffix(base, taken, 2) == LeastSuffix(base, left, n)
        decreases |left|
      {
        ghost var m := n;
        left := left - {Numbered(base, n)};
        n := n + 1;
        forall k: nat | k >= n ensures Numbered(base, k) in left <==> Numbered(base, k) in taken {
          if Numbered(base, k) == Numbered(base, m) { NumberedIsInjective(base, k, m); }
        }
      }
      name := Numbered(base, n);
    }

    /** The list is only added to once the ATTACH has gone through. */
    method AttachPeer(peer: Peer, base: string, luck: Luck) returns (attached: Option<Record>)
      modifies this
      ensures View() == AfterAttach(old(View()), peer, base, luck)
      ensures attached.Some? ==> connections == old(connections) + [attached.value]
      ensures attached.Some? ==>
                var record := attached.value;
                && record.endpointId == Some(peer.endpointId) && record.relayUrl == peer.relayUrl
                && record.secretName == "qh_" + peer.endpointId && record.kind == Remote
                && record.name !in old(catalogs) && record.name in catalogs
                && (peer.token != "" ==> "qh_" + peer.endpointId in secrets)
      ensures posted == old(posted) +
                        if exists c | c in old(connections) :: c.endpointId == Some(peer.endpointId) then []
                        else [RelayRouting.Frame(peer.endpointId, peer.relayUrl)]
      ensures attached.None? ==> connections == old(connections) && catalogs == old(catalogs)
    {
      if exists c | c in connections :: c.endpointId == Some(peer.endpointId) { return None; }
      var name := FreshName(base);
      var record := Record(name, Remote, Some(peer.endpointId), peer.relayUrl, SecretName(peer));
      posted := posted + [RelayRouting.Frame(peer.endpointId, peer.relayUrl)];
      var ok := true;
      if peer.token != "" {
        ok := luck.create && record.secretName !in secrets;
        if ok { secrets := secrets + {record.secretName}; }
      }
      if ok {
        ok := luck.attach && record.name !in catalogs;
        if ok { catalogs := catalogs + {record.name}; }
      }
      if !ok {
        if luck.drop { secrets := secrets - {record.secretName}; }
        return None;
      }
      connections := connections + [record];
      attached := Some(record);
    }

    /** Take off what the database no longer holds, one splice at a time. */
    method ReconcileList(luck: Luck) returns (gone: seq<Record>)
      requires Valid(connections)
      modifies `connections
      ensures View() == AfterReconcile(old(View()), luck)
      ensures gone == if luck.list then Dropped(old(connections), catalogs) else []
      ensures !luck.list ==> connections == old(connections) && gone == []
      ensures luck.list ==> forall c ::
                c in connections <==> c in old(connections) && (c.kind == Remote ==> c.name in catalogs)
      ensures Valid(connections)
    {
      hide Kept, Dropped, Without, IndexOf, Gone;
      KeptStaysValid(connections, catalogs);
      KeptTells(connections, catalogs);
      if !luck.list { return []; }
      gone := Dropped(connections, catalogs);
      ghost var all := connections;
      SplicesAreKept(all, catalogs);
      for i := 0 to |gone|
        invariant connections == Without(all, gone[..i])
      {
        SpliceAt(all, catalogs, i);
        var at := IndexOf(connections, gone[i]);
        connections := connections[..at] + connections[at + 1..];
      }
      assert gone[..|gone|] == gone;
    }

    method DetachRecord(record: Record, luck: Luck) returns (gone: seq<Record>)
      requires Valid(connections)
      modifies this
      ensures View() == AfterDetach(old(View()), record, luck) && Valid(connections)
    {
      if luck.detach { catalogs := catalogs - {record.name}; }
      if luck.drop { secrets := secrets - {record.secretName}; }
      gone := ReconcileList(luck);
    }
  }

  /** No splice leaves everything; all of them leave what is kept. */
  lemma SplicesAreKept(all: seq<Record>, live: set<string>)
    ensures Without(all, Dropped(all, live)[..0]) == all
    ensures Without(all, Dropped(all, live)) == Kept(all, live)
  {
    WithoutNone(all);
    WithoutDropped(all, all, live);
  }

  /** The `i`-th splice finds its record, and takes it alone. */
  lemma SpliceAt(all: seq<Record>, live: set<string>, i: nat)
    requires Distinct(all) && i < |Dropped(all, live)|
    ensures var gone := Dropped(all, live); var w := Without(all, gone[..i]);
      && gone[i] in w
      && Splice(w, gone[i]) == Without(all, gone[..i + 1])
  {
    hide Without, Kept, Splice, Gone;
    var gone := Dropped(all, live);
    assert gone[i] in gone;
    KeptIsInside(all, live);
    DroppedIsDistinct(all, live);
    assert gone[..i + 1] == gone[..i] + [gone[i]];
    SpliceIsWithout(all, gone[..i], gone[i]);
  }

  /** `indexOf`, for a record that is in the list. */
  function IndexOf(s: seq<Record>, c: Record): (i: nat)
    requires c in s
    ensures i < |s| && s[i] == c && c !in s[..i]
  {
    if s[0] == c then 0
    else
      assert s == [s[0]] + s[1..];
      1 + IndexOf(s[1..], c)
  }

  function Splice(s: seq<Record>, c: Record): seq<Record>
    requires c in s
  {
    s[..IndexOf(s, c)] + s[IndexOf(s, c) + 1..]
  }

  /** The list with some records taken out. */
  function Without(s: seq<Record>, out: seq<Record>): seq<Record> {
    if |s| == 0 then [] else (if s[0] in out then [] else [s[0]]) + Without(s[1..], out)
  }

  lemma {:induction false} WithoutNone(s: seq<Record>)
    ensures Without(s, []) == s
  {
    if |s| == 0 {
    } else {
      WithoutNone(s[1..]);
      assert s == [s[0]] + s[1..];
    }
  }

  lemma {:induction false} InWithout(s: seq<Record>, out: seq<Record>)
    ensures forall c :: c in Without(s, out) <==> c in s && c !in out
  {
    if |s| == 0 {
    } else {
      InWithout(s[1..], out);
      assert s == [s[0]] + s[1..];
    }
  }

  ghost predicate NoRepeats(s: seq<Record>) {
    forall i, j | 0 <= i < j < |s| :: s[i] != s[j]
  }

  lemma {:induction false} DroppedIsDistinct(s: seq<Record>, live: set<string>)
    requires Distinct(s)
    ensures NoRepeats(Dropped(s, live))
  {
    if |s| == 0 {
    } else {
      var rest := Dropped(s[1..], live);
      DroppedIsDistinct(s[1..], live);
      KeptIsInside(s[1..], live);
      forall j | 0 <= j < |rest| ensures s[0] != rest[j] {
        assert rest[j] in s[1..];
      }
      if Gone(s[0], live) {
        assert NoRepeats([s[0]] + rest);
      } else {
        assert Dropped(s, live) == rest;
      }
    }
  }

  /** One splice takes exactly that record out, when it stands there once. */
  lemma {:induction false} SpliceIsWithout(s: seq<Record>, out: seq<Record>, c: Record)
    requires Distinct(s) && c in s && c !in out
    ensures c in Without(s, out)
    ensures Splice(Without(s, out), c) == Without(s, out + [c])
  {
    hide Splice, IndexOf;
    InWithout(s, out);
    if s[0] == c {
      SpliceFirst(s, out);
    } else {
      SpliceIsWithout(s[1..], out, c);
      SpliceAfter(s[0], Without(s[1..], out), c);
      if s[0] in out {
        assert Without(s, out) == Without(s[1..], out);
        assert Without(s, out + [c]) == Without(s[1..], out + [c]);
      } else {
        assert Without(s, out) == [s[0]] + Without(s[1..], out);
        assert Without(s, out + [c]) == [s[0]] + Without(s[1..], out + [c]);
      }
    }
  }

  lemma SpliceFirst(s: seq<Record>, out: seq<Record>)
    requires Distinct(s) && |s| > 0 && s[0] !in out
    ensures var w := Without(s, out); s[0] in w && Splice(w, s[0]) == Without(s, out + [s[0]])
  {
    WithoutMore(s[1..], out, s[0]);
    assert Without(s, out) == [s[0]] + Without(s[1..], out);
  }

  lemma SpliceAfter(first: Record, w: seq<Record>, c: Record)
    requires c in w && c != first
    ensures Splice([first] + w, c) == [first] + Splice(w, c)
  {
    assert ([first] + w)[1..] == w;
    assert IndexOf([first] + w, c) == IndexOf(w, c) + 1;
  }

  lemma {:induction false} WithoutMore(s: seq<Record>, out: seq<Record>, c: Record)
    requires c !in s
    ensures Without(s, out + [c]) == Without(s, out)
  {
    if |s| == 0 {
    } else {
      assert s == [s[0]] + s[1..];
      WithoutMore(s[1..], out, c);
    }
  }

  /** Taking out all that is dropped is keeping the rest. */
  lemma {:induction false} WithoutDropped(all: seq<Record>, s: seq<Record>, live: set<string>)
    requires forall c | c in s :: c in all
    ensures Without(s, Dropped(all, live)) == Kept(s, live)
  {
    if |s| == 0 {
    } else {
      assert s == [s[0]] + s[1..];
      KeptIsInside(all, live);
      WithoutDropped(all, s[1..], live);
    }
  }
}
