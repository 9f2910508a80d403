/** The constants both halves of the browser bridge share, and the frames one answer is cut into. */
module Protocol {
  import opened Text

  // STATE: who may write the slot next. IDLE hands it to the bridge, the other two to the shim.
  const IDLE := 0
  const CHUNK := 1
  const ERROR := 2

  // READY
  const NOT_READY := 0
  const READY_OK := 1
  const READY_FAILED := 2

  // FLAGS, bitwise
  const MORE := 1
  const META := 2

  const GRACE_MS := 5000
  /** The cap on one `Atomics.wait`. */
  const WAIT_MS := 1000
  /** How long `waitForBridge` is prepared to wait. */
  const START_MS := 30000

  predicate HasMore(flags: nat) { flags % 2 == 1 }

  predicate HasMeta(flags: nat) { flags / 2 % 2 == 1 }

  function Min(a: nat, b: nat): nat { if a < b then a else b }

  /** Status and headers of an answer: what the META chunk carries as JSON. */
  datatype Head = Head(status: int, headers: seq<(string, string)>)

  /** What the transport makes of one request. */
  datatype Outcome = Answer(head: Head, body: string) | Failure(message: string)

  /** One deployment: the size of the shared buffer, the request budget, whether the transport
      starts, what it makes of each request, and the JSON coding of a head. */
  datatype Config = Config(
    cap: nat,
    budget: nat,
    starts: bool,
    outcome: nat -> Outcome,
    stringify: Head -> string,
    parse: string -> Option<Head>)

  /** The buffer has room for a byte, and `JSON.parse` undoes `JSON.stringify`. */
  ghost predicate Lawful(c: Config) {
    c.cap >= 1 && forall h: Head :: c.parse(c.stringify(h)) == Some(h)
  }

  /** What one `writeChunk` publishes: bytes, FLAGS and STATE. */
  datatype Frame = Frame(bytes: string, flags: nat, state: nat)

  /** The message of the RangeError `data.set` throws for a payload larger than the buffer. */
  const RANGE_ERROR := "offset is out of bounds"

  /** `fail`: an error that does not fit throws out of the handler, and nothing is published. */
  function ErrorFrames(c: Config, message: string): seq<Frame> {
    if |message| <= c.cap then [Frame(message, 0, ERROR)] else []
  }

  function DataFrames(body: string, at: nat, cap: nat): seq<Frame>
    requires cap >= 1
    decreases |body| - at
  {
    if at >= |body| then []
    else
      var end := Min(at + cap, |body|);
      [Frame(body[at..end], if end < |body| then MORE else 0, CHUNK)] + DataFrames(body, at + cap, cap)
  }

  function BodyFrames(body: string, cap: nat): seq<Frame>
    requires cap >= 1
  {
    if |body| == 0 then [Frame("", 0, CHUNK)] else DataFrames(body, 0, cap)
  }

  predicate Fits(c: Config, t: nat) {
    c.outcome(t).Answer? && |c.stringify(c.outcome(t).head)| <= c.cap
  }

  /** Every frame request `t` is answered with, in order. */
  function Frames(c: Config, t: nat): seq<Frame>
    requires c.cap >= 1
  {
    match c.outcome(t)
    case Answer(head, body) =>
      if Fits(c, t) then [Frame(c.stringify(head), META, CHUNK)] + BodyFrames(body, c.cap)
      else ErrorFrames(c, RANGE_ERROR)
    case Failure(message) => ErrorFrames(c, message)
  }

  datatype Why =
    | BridgeSaid(text: string)
    | NoAnswer   // the deadline passed
    | NoMeta
    | BadMeta

  datatype Result = Returned(head: Head, body: string) | Threw(why: Why)

  function ErrorText(payload: string): string {
    if payload == "" then "bridge error" else payload
  }

  /** What the caller of `roundTrip` is owed for request `t`; None when nothing can be published. */
  function Expected(c: Config, t: nat): Option<Result>
    requires c.cap >= 1
  {
    if Fits(c, t) then Some(Returned(c.outcome(t).head, c.outcome(t).body))
    else if Frames(c, t) == [] then None
    else Some(Threw(BridgeSaid(ErrorText(Frames(c, t)[0].bytes))))
  }

  function Payloads(frames: seq<Frame>): (r: seq<string>)
    ensures |r| == |frames|
    ensures forall i | 0 <= i < |r| :: r[i] == frames[i].bytes
  {
    seq(|frames|, i requires 0 <= i < |frames| => frames[i].bytes)
  }

  /** How many data chunks a body of `n` bytes takes over a buffer of `k`: max(1, ceil(n / k)). */
  function ChunkCount(n: nat, k: nat): nat
    requires k >= 1
  {
    if n == 0 then 1 else (n + k - 1) / k
  }

  /** The chunks of a body, put back together, are the body; each fits the buffer; and only the last
      one lacks MORE. */
  lemma {:induction false} DataFramesCarryBody(body: string, at: nat, cap: nat)
    requires cap >= 1 && at < |body|
    ensures var f := DataFrames(body, at, cap);
      && Concat(Payloads(f)) == body[at..]
      && |f| >= 1
      && (forall i | 0 <= i < |f| :: 1 <= |f[i].bytes| <= cap && f[i].state == CHUNK && !HasMeta(f[i].flags))
      && (forall i | 0 <= i < |f| :: HasMore(f[i].flags) <==> i < |f| - 1)
    decreases |body| - at
  {
    var f := DataFrames(body, at, cap);
    var end := Min(at + cap, |body|);
    var rest := DataFrames(body, at + cap, cap);
    assert Payloads(f)[1..] == Payloads(rest);
    assert f[1..] == rest;
    if end < |body| {
      DataFramesCarryBody(body, at + cap, cap);
      assert body[at..] == body[at..end] + body[end..];
      forall i | 0 <= i < |f| ensures HasMore(f[i].flags) <==> i < |f| - 1 {
        if i > 0 { assert f[i] == rest[i - 1]; }
      }
    } else {
      assert rest == [];
      assert body[at..] == body[at..end];
    }
  }

  lemma {:induction false} DataFramesCount(body: string, at: nat, cap: nat)
    requires cap >= 1 && at < |body|
    ensures |DataFrames(body, at, cap)| == ChunkCount(|body| - at, cap)
    decreases |body| - at
  {
    var n := |body| - at;
    if n > cap {
      DataFramesCount(body, at + cap, cap);
      assert (n + cap - 1) / cap == (n - cap + cap - 1) / cap + 1 by { DivStep(n - 1, cap); }
    } else {
      assert DataFrames(body, at + cap, cap) == [];
      DivStep(n - 1, cap);
      assert (n - 1) / cap == 0 by { DivSmall(n - 1, cap); }
    }
  }

  lemma DivStep(a: nat, k: nat)
    requires k >= 1
    ensures (a + k) / k == a / k + 1
  {
    var q, r := a / k, a % k;
    assert a + k == (q + 1) * k + r;
    DivUnique(a + k, k, q + 1, r);
  }

  lemma DivSmall(a: nat, k: nat)
    requires a < k
    ensures a / k == 0
  {}

  lemma DivUnique(a: nat, k: nat, q: nat, r: nat)
    requires k >= 1 && a == q * k + r && r < k
    ensures a / k == q
  {
    var d := q - a / k;
    assert a == (a / k) * k + a % k;
    assert d * k == a % k - r;
    MultipleIsFar(d, k);
  }

  lemma MultipleIsFar(d: int, k: nat)
    ensures d >= 1 ==> d * k >= k
    ensures d <= -1 ==> d * k + k <= 0
  {}

  /** The shape of a fitting answer on the wire: META first and alone, then the body. */
  lemma AnswerShape(c: Config, t: nat)
    requires Lawful(c) && Fits(c, t)
    ensures var f, body := Frames(c, t), c.outcome(t).body;
      && |f| == 1 + ChunkCount(|body|, c.cap)
      && HasMeta(f[0].flags) && f[0].state == CHUNK && c.parse(f[0].bytes) == Some(c.outcome(t).head)
      && (forall i | 1 <= i < |f| :: f[i].state == CHUNK && !HasMeta(f[i].flags))
      && (forall i | 1 <= i < |f| :: HasMore(f[i].flags) <==> i < |f| - 1)
      && (forall i | 0 <= i < |f| :: |f[i].bytes| <= c.cap)
      && Concat(Payloads(f[1..])) == body
  {
    var f, body := Frames(c, t), c.outcome(t).body;
    assert f[1..] == BodyFrames(body, c.cap);
    if |body| == 0 {
      assert Payloads(f[1..]) == [""];
      assert Concat([""]) == "";
    } else {
      DataFramesCarryBody(body, 0, c.cap);
      DataFramesCount(body, 0, c.cap);
      assert body[0..] == body;
    }
    forall i | 1 <= i < |f|
      ensures f[i].state == CHUNK && !HasMeta(f[i].flags) && |f[i].bytes| <= c.cap
      ensures HasMore(f[i].flags) <==> i < |f| - 1
    {
      assert f[i] == BodyFrames(body, c.cap)[i - 1];
    }
  }
}
