/** One bi-stream bridged to one TCP connection: both copy directions interleaved, until the reply
    has ended or something fails. */
module ServeBridge {
  import opened Text
  import opened Compress
  import Http
  import HttpResponse

  /** One exchange: what the client sends, whether it half-closes after it, what Quack replies, whether
      the reply is compressed, and how much of the request `sniff` had read. */
  datatype Exchange = Exchange(
    codec: Codec, request: string, halfClosed: bool, reply: string, compress: bool, sniffed: nat)

  datatype Phase = Running | Succeeded | Aborted

  /** `taken` and `pulled` count bytes read from the client and from Quack; `reqBuf` and `out` hold
      what is read but not written yet; `finishing` says the reply has been read to its end. */
  datatype State = State(
    taken: nat,
    reqBuf: string,
    toQuack: string,
    drained: bool,
    pushes: seq<string>,
    pulled: nat,
    out: string,
    toClient: string,
    finishing: bool,
    phase: Phase)

  function Init(x: Exchange): State
    requires x.sniffed <= |x.request|
  {
    State(x.sniffed, "", x.request[..x.sniffed], false, [], 0, "", "", false, Running)
  }

  datatype Action =
    | RequestRead(n: nat)
    | RequestWrite(n: nat)
    | RequestEnd            // the client half-closed: this direction is done
    | ReplyRead(n: nat)
    | ReplyWrite(n: nat)
    | ReplyEnd              // Quack closed: flush what is left
    | ReplyDone             // all of it written: FIN
    | Failure               // any read or write fails, in either direction

  /** What reading one more chunk of the reply makes ready to write. */
  function Ready(x: Exchange, pushes: seq<string>, chunk: string): string {
    if !x.compress then chunk
    else
      var now := x.codec.push(pushes + [chunk]);
      if now == "" then "" else (if Emitted(x.codec, pushes) == "" then MAGIC else "") + now
  }

  function Last(x: Exchange, pushes: seq<string>): string {
    if !x.compress then ""
    else
      var tail := x.codec.finish(pushes);
      if tail == "" then "" else (if Emitted(x.codec, pushes) == "" then MAGIC else "") + tail
  }

  /** The plain copies may read on with bytes unwritten; the compressing one writes out what a read made
      ready before it reads again. The request direction is stepped only while `drained` is false; the
      select stops on success or on the first failure. */
  function Apply(x: Exchange, s: State, a: Action): Option<State> {
    if !s.phase.Running? then None
    else
      match a
      case RequestRead(n) =>
        if !s.drained && 1 <= n && s.taken + n <= |x.request| then
          Some(s.(reqBuf := s.reqBuf + x.request[s.taken..s.taken + n], taken := s.taken + n))
        else None
      case RequestWrite(n) =>
        if !s.drained && 1 <= n <= |s.reqBuf| then
          Some(s.(toQuack := s.toQuack + s.reqBuf[..n], reqBuf := s.reqBuf[n..]))
        else None
      case RequestEnd =>
        if !s.drained && s.reqBuf == "" && s.taken == |x.request| && x.halfClosed then Some(s.(drained := true)) else None
      case ReplyRead(n) =>
        if !s.finishing && (x.compress ==> s.out == "") && 1 <= n && s.pulled + n <= |x.reply| then
          var chunk := x.reply[s.pulled..s.pulled + n];
          Some(s.(out := s.out + Ready(x, s.pushes, chunk), pushes := s.pushes + [chunk], pulled := s.pulled + n))
        else None
      case ReplyWrite(n) =>
        if 1 <= n <= |s.out| then Some(s.(toClient := s.toClient + s.out[..n], out := s.out[n..])) else None
      case ReplyEnd =>
        if !s.finishing && (x.compress ==> s.out == "") && s.pulled == |x.reply| then
          Some(s.(finishing := true, out := s.out + Last(x, s.pushes)))
        else None
      case ReplyDone => if s.finishing && s.out == "" then Some(s.(phase := Succeeded)) else None
      case Failure => Some(s.(phase := Aborted))
  }

  function Run(x: Exchange, s: State, acts: seq<Action>): Option<State>
    decreases |acts|
  {
    if |acts| == 0 then Some(s)
    else
      match Apply(x, s, acts[0])
      case None => None
      case Some(s') => Run(x, s', acts[1..])
  }

  /** What has been made ready for the client so far. */
  function Produced(x: Exchange, s: State): string {
    if !x.compress then Concat(s.pushes)
    else if s.finishing then MAGIC + Stream(x.codec, s.pushes)
    else Emitted(x.codec, s.pushes)
  }

  ghost predicate Inv(x: Exchange, s: State) {
    && s.taken <= |x.request| && s.pulled <= |x.reply|
    && s.toQuack + s.reqBuf == x.request[..s.taken]
    && Concat(s.pushes) == x.reply[..s.pulled]
    && s.toClient + s.out == Produced(x, s)
    && (s.finishing ==> s.pulled == |x.reply|)
    && (s.phase.Succeeded? ==> s.finishing && s.out == "")
    && (s.drained ==> x.halfClosed && s.toQuack == x.request)
  }

  lemma ReadyExtends(x: Exchange, pushes: seq<string>, chunk: string)
    requires x.compress
    ensures Emitted(x.codec, pushes + [chunk]) == Emitted(x.codec, pushes) + Ready(x, pushes, chunk)
  {
    hide Concat;
    assert (pushes + [chunk])[..|pushes|] == pushes;
    assert Released(x.codec, pushes + [chunk]) == Released(x.codec, pushes) + x.codec.push(pushes + [chunk]);
  }

  lemma LastExtends(x: Exchange, pushes: seq<string>)
    requires x.compress && Lawful(x.codec)
    ensures MAGIC + Stream(x.codec, pushes) == Emitted(x.codec, pushes) + Last(x, pushes)
  {
    assert |x.codec.finish(pushes)| >= 1;
  }

  lemma RequestKeeps(x: Exchange, s: State, a: Action, s': State)
    requires Inv(x, s) && Apply(x, s, a) == Some(s') && (a.RequestRead? || a.RequestWrite? || a.RequestEnd?)
    ensures Inv(x, s')
  {
    if a.RequestRead? {
      var more := x.request[s.taken..s.taken + a.n];
      assert x.request[..s.taken] + more == x.request[..s'.taken];
      assert s.toQuack + (s.reqBuf + more) == (s.toQuack + s.reqBuf) + more;
    } else if a.RequestWrite? {
      assert s.reqBuf == s.reqBuf[..a.n] + s.reqBuf[a.n..];
    } else {
      assert x.request[..|x.request|] == x.request;
    }
  }

  lemma ReplyReadKeeps(x: Exchange, s: State, n: nat, s': State)
    requires Inv(x, s) && Apply(x, s, ReplyRead(n)) == Some(s')
    ensures Inv(x, s')
  {
    hide Ready, Produced;
    var chunk := x.reply[s.pulled..s.pulled + n];
    ConcatSnoc(s.pushes, chunk);
    assert x.reply[..s.pulled] + chunk == x.reply[..s'.pulled];
    ReadyIsProduced(x, s, chunk, s');
    assert s.toClient + s'.out == (s.toClient + s.out) + Ready(x, s.pushes, chunk);
  }

  lemma ReadyIsProduced(x: Exchange, s: State, chunk: string, s': State)
    requires s'.pushes == s.pushes + [chunk] && !s.finishing && !s'.finishing
    ensures Produced(x, s') == Produced(x, s) + Ready(x, s.pushes, chunk)
  {
    hide Emitted;
    if x.compress { ReadyExtends(x, s.pushes, chunk); } else { ConcatSnoc(s.pushes, chunk); }
  }

  lemma ReplyWriteKeeps(x: Exchange, s: State, n: nat, s': State)
    requires Inv(x, s) && Apply(x, s, ReplyWrite(n)) == Some(s')
    ensures Inv(x, s')
  {
    hide Produced;
    assert s.out == s.out[..n] + s.out[n..];
    assert s'.toClient + s'.out == s.toClient + s.out;
    ProducedStays(x, s, s');
  }

  lemma ProducedStays(x: Exchange, s: State, s': State)
    requires s'.pushes == s.pushes && s'.finishing == s.finishing
    ensures Produced(x, s') == Produced(x, s)
  {}

  lemma ReplyEndKeeps(x: Exchange, s: State, s': State)
    requires Inv(x, s) && Lawful(x.codec) && Apply(x, s, ReplyEnd) == Some(s')
    ensures Inv(x, s')
  {
    hide Lawful, Emitted, Stream, Last;
    if x.compress { LastExtends(x, s.pushes); } else { NothingLast(x, s.pushes); }
    assert s.toClient + s'.out == (s.toClient + s.out) + Last(x, s.pushes);
  }

  lemma NothingLast(x: Exchange, pushes: seq<string>)
    requires !x.compress
    ensures Last(x, pushes) == ""
  {}

  lemma EndKeeps(x: Exchange, s: State, a: Action, s': State)
    requires Inv(x, s) && (a.ReplyDone? || a.Failure?) && Apply(x, s, a) == Some(s')
    ensures Inv(x, s')
  {
    hide Produced;
    ProducedStays(x, s, s');
  }

  lemma StepKeeps(x: Exchange, s: State, a: Action, s': State)
    requires Inv(x, s) && Lawful(x.codec) && Apply(x, s, a) == Some(s')
    ensures Inv(x, s')
  {
    hide Inv, Apply, Lawful;
    match a
    case ReplyRead(n) => ReplyReadKeeps(x, s, n, s');
    case ReplyWrite(n) => ReplyWriteKeeps(x, s, n, s');
    case ReplyEnd => ReplyEndKeeps(x, s, s');
    case ReplyDone => EndKeeps(x, s, a, s');
    case Failure => EndKeeps(x, s, a, s');
    case _ => RequestKeeps(x, s, a, s');
  }

  lemma {:induction false} RunKeeps(x: Exchange, s: State, acts: seq<Action>, s': State)
    requires Inv(x, s) && Lawful(x.codec) && Run(x, s, acts) == Some(s')
    ensures Inv(x, s')
    decreases |acts|
  {
    if |acts| == 0 {
    } else {
      hide Inv, Apply, Lawful;
      var s1 := Apply(x, s, acts[0]).value;
      StepKeeps(x, s, acts[0], s1);
      RunKeeps(x, s1, acts[1..], s');
    }
  }

  /** In every interleaving: what Quack has received is the beginning of the request; what the client
      has been sent is the beginning of the reply, or of an envelope of a beginning of the reply. */
  lemma BytesInOrder(x: Exchange, acts: seq<Action>, s: State)
    requires Lawful(x.codec) && x.sniffed <= |x.request| && Run(x, Init(x), acts) == Some(s)
    ensures s.toQuack <= x.request
    ensures Concat(s.pushes) <= x.reply
    ensures s.toClient <= (if x.compress then MAGIC + Stream(x.codec, s.pushes) else Concat(s.pushes))
  {
    RunKeeps(x, Init(x), acts, s);
    assert s.toQuack <= s.toQuack + s.reqBuf;
    assert s.toClient <= s.toClient + s.out;
    EmittedIsPrefix(x.codec, s.pushes);
  }

  /** When the bridge succeeds, the whole reply was sent before FIN: the client decodes exactly what
      Quack said, however the reply was cut into reads, and a plain reply that does not start with the
      magic, as no HTTP reply does, is not mistaken for an envelope. */
  lemma SuccessSendsEverything(x: Exchange, acts: seq<Action>, s: State, max: nat)
    requires Lawful(x.codec) && x.sniffed <= |x.request| && Run(x, Init(x), acts) == Some(s) && s.phase.Succeeded?
    requires !x.compress ==> !StartsWith(x.reply, MAGIC)
    ensures DecodeWithin(x.codec, s.toClient, max) ==
            if x.compress && |x.reply| > max then TooLarge else Plain(x.reply)
  {
    RunKeeps(x, Init(x), acts, s);
    assert x.reply[..|x.reply|] == x.reply;
    assert s.toClient + "" == s.toClient;
    if x.compress { EnvelopeDecodes(x.codec, s.pushes, max); }
  }

  /** Until the last byte is out, a compressed exchange gives the client nothing it could take for a
      reply: stop it anywhere and the client sees an error. */
  lemma StoppedExchangeIsAnError(x: Exchange, acts: seq<Action>, s: State, max: nat, usize: nat)
    requires Lawful(x.codec) && x.sniffed <= |x.request| && Run(x, Init(x), acts) == Some(s)
    requires x.compress && (!s.finishing || s.out != "")
    ensures match DecodeWithin(x.codec, s.toClient, max)
            case Plain(bytes) => Http.Parse(bytes, true, usize) == Http.Err(Http.NoHeadEnd)
            case _ => true
  {
    RunKeeps(x, Init(x), acts, s);
    var whole := MAGIC + Stream(x.codec, s.pushes);
    EmittedIsPrefix(x.codec, s.pushes);
    assert |x.codec.finish(s.pushes)| >= 1;
    assert s.toClient == whole[..|s.toClient|] && |s.toClient| < |whole|;
    CutEnvelopeIsNoReply(x.codec, s.pushes, |s.toClient|, max);
  }

  /** ... and a plain exchange, stopped anywhere, gives an error unless the framed body is complete: the
      client's decoding hands it on as it is. */
  lemma StoppedPlainExchange(x: Exchange, acts: seq<Action>, s: State, max: nat, usize: nat)
    requires Lawful(x.codec) && x.sniffed <= |x.request| && Run(x, Init(x), acts) == Some(s) && !x.compress
    requires Http.Parse(x.reply, true, usize).Ok? && !HttpResponse.FramingIn(x.reply, usize).ToTheEnd?
    ensures Http.Parse(s.toClient, true, usize).Err? || Http.Parse(s.toClient, true, usize) == Http.Parse(x.reply, true, usize)
    ensures !StartsWith(x.reply, MAGIC) ==> DecodeWithin(x.codec, s.toClient, max) == Plain(s.toClient)
  {
    BytesInOrder(x, acts, s);
    assert s.toClient == x.reply[..|s.toClient|];
    assert StartsWith(s.toClient, MAGIC) ==> s.toClient[..|MAGIC|] == x.reply[..|MAGIC|];
    HttpResponse.TruncationIsAnError(x.reply, |s.toClient|, usize);
  }

  /** The finished request copy is never stepped again. */
  lemma {:induction false} DrainedStays(x: Exchange, s: State, acts: seq<Action>, s': State)
    requires s.drained && Run(x, s, acts) == Some(s')
    ensures s'.drained && s'.taken == s.taken && s'.toQuack == s.toQuack && s'.reqBuf == s.reqBuf
    ensures forall a | a in acts :: !a.RequestRead? && !a.RequestWrite? && !a.RequestEnd?
    decreases |acts|
  {
    if |acts| == 0 {
    } else {
      DrainedStays(x, Apply(x, s, acts[0]).value, acts[1..], s');
    }
  }

  /** A request does get through: from wherever a running exchange stands, at most three steps of the
      request direction bring Quack the whole of it, however much of it was sniffed, and end that
      direction if the client has ended its half. */
  lemma RequestGetsThrough(x: Exchange, acts: seq<Action>, s: State) returns (more: seq<Action>, s': State)
    requires Lawful(x.codec) && x.sniffed <= |x.request| && Run(x, Init(x), acts) == Some(s) && s.phase.Running?
    ensures Run(x, s, more) == Some(s') && s'.toQuack == x.request && s'.phase.Running?
    ensures s'.drained == x.halfClosed
    ensures |more| <= 3 && forall a | a in more :: a.RequestRead? || a.RequestWrite? || a.RequestEnd?
  {
    RunKeeps(x, Init(x), acts, s);
    hide Produced, Apply;
    more, s' := RestOfRequest(x, s);
  }

  function RequestSteps(x: Exchange, s: State): nat {
    if s.drained then 0
    else (if s.taken < |x.request| then 3 else if s.reqBuf != "" then 2 else if x.halfClosed then 1 else 0)
  }

  lemma {:induction false} RestOfRequest(x: Exchange, s: State) returns (more: seq<Action>, s': State)
    requires s.phase.Running? && s.taken <= |x.request| && s.toQuack + s.reqBuf == x.request[..s.taken]
    requires s.drained ==> x.halfClosed && s.toQuack == x.request
    ensures Run(x, s, more) == Some(s') && s'.toQuack == x.request && s'.phase.Running?
    ensures s'.drained == x.halfClosed
    ensures |more| <= RequestSteps(x, s) && forall a | a in more :: a.RequestRead? || a.RequestWrite? || a.RequestEnd?
    decreases RequestSteps(x, s)
  {
    hide Ready, Last;
    if RequestSteps(x, s) == 0 {
      more, s' := [], s;
    } else {
      var a := if s.taken < |x.request| then RequestRead(|x.request| - s.taken)
               else if s.reqBuf != "" then RequestWrite(|s.reqBuf|) else RequestEnd;
      var s1 := Apply(x, s, a).value;
      if a.RequestRead? { assert x.request[..s.taken] + x.request[s.taken..] == x.request; }
      var rest;
      rest, s' := RestOfRequest(x, s1);
      more := [a] + rest;
      assert more[1..] == rest;
    }
  }

  /** Once the request copy has finished, Quack has the whole request, and nothing steps that copy
      again, however the exchange goes on. */
  lemma DrainedIsDone(x: Exchange, acts: seq<Action>, s: State, more: seq<Action>, s': State)
    requires Lawful(x.codec) && x.sniffed <= |x.request| && Run(x, Init(x), acts) == Some(s) && s.drained
    requires Run(x, s, more) == Some(s')
    ensures x.halfClosed && s.toQuack == x.request
    ensures s'.drained && s'.toQuack == x.request
    ensures forall a | a in more :: !a.RequestRead? && !a.RequestWrite? && !a.RequestEnd?
  {
    RunKeeps(x, Init(x), acts, s);
    DrainedStays(x, s, more, s');
  }

  predicate IsReply(a: Action) {
    a.ReplyRead? || a.ReplyWrite? || a.ReplyEnd? || a.ReplyDone?
  }

  /** The exchange ends when the reply ends. From wherever it stands, with Quack's reply there to be read,
      it can come to its good end without another step of the request direction: a client that never
      half-closes keeps nothing open. */
  lemma ReplyFinishesAlone(x: Exchange, s: State) returns (acts: seq<Action>, s': State)
    requires s.phase.Running? && s.pulled <= |x.reply|
    ensures Run(x, s, acts) == Some(s') && s'.phase.Succeeded?
    ensures forall a | a in acts :: IsReply(a)
    decreases if s.finishing then 0 else 1 + |x.reply| - s.pulled, |s.out|
  {
    var a := NextOfReply(x, s);
    var s1 := Apply(x, s, a).value;
    if a.ReplyDone? {
      acts, s' := [a], s1;
      assert acts[1..] == [];
    } else {
      var rest;
      rest, s' := ReplyFinishesAlone(x, s1);
      acts := [a] + rest;
      assert acts[1..] == rest;
    }
  }

  function NextOfReply(x: Exchange, s: State): (a: Action)
    requires s.phase.Running? && s.pulled <= |x.reply|
    ensures IsReply(a) && Apply(x, s, a).Some?
  {
    if s.out != "" then ReplyWrite(|s.out|)
    else if s.finishing then ReplyDone
    else if s.pulled < |x.reply| then ReplyRead(|x.reply| - s.pulled)
    else ReplyEnd
  }
}
