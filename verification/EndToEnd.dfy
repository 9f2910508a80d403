/** One request and its reply, across the client's framing, the server's sniffing, the two-way copy,
    the envelope and the client's parser. */
module EndToEnd {
  import opened Text
  import opened Compress
  import opened Http
  import Asking
  import HttpRequest
  import HttpResponse
  import Serve
  import ServeBridge

  /** What the client makes of the bytes it was sent. */
  datatype Seen = Undecodable | Parsed(response: Result<Response>)

  function Reads(codec: Codec, wire: string, expectBody: bool, max: nat, usize: nat): Seen {
    match DecodeWithin(codec, wire, max)
    case Plain(bytes) => Parsed(Parse(bytes, expectBody, usize))
    case _ => Undecodable
  }

  /** The exchange a request gives rise to, once the server has sniffed it in these pieces. */
  ghost function ExchangeOf(codec: Codec, out: string, halfClosed: bool, reply: string, pieces: seq<Serve.Read>)
    : (x: ServeBridge.Exchange)
    requires Serve.Splits(pieces, out)
    ensures x.sniffed <= |x.request|
  {
    Serve.SniffDecision(pieces, out);
    var (got, wants) := Serve.SniffFrom("", pieces).value;
    ServeBridge.Exchange(codec, out, halfClosed, reply, wants, |got|)
  }

  /** A request this client built is answered in an envelope however the network cuts it, as long as its
      method holds no blank line and its head is not over 16384 bytes. */
  lemma SniffedAsBuilt(
    req: Request, out: string, pieces: seq<Serve.Read>, codec: Codec, halfClosed: bool, reply: string)
    requires Serialise(req) == Ok(out) && !Contains(req.verb, CRLFCRLF) && |HeadOf(req)| <= 16384
    requires Serve.Splits(pieces, out)
    ensures ExchangeOf(codec, out, halfClosed, reply, pieces).compress
  {
    hide HeadOf, Serialise, Contains, Compress.HeadEnd, WantsCompression, Serve.SniffFrom, Serve.Splits;
    HttpRequest.HeadEndsWhereItShould(req, out);
    HttpRequest.ServerHearsTheClient(req, out);
    Serve.SniffDecision(pieces, out);
  }

  /** Any client's request is answered in kind: plainly if no header of it asks, in an envelope if one does in
      a head of at most 16384 bytes, however the network cuts it. */
  lemma AnsweredInKind(
    verb: string, target: string, headers: seq<(string, string)>, body: string, pieces: seq<Serve.Read>,
    codec: Codec, halfClosed: bool, reply: string)
    requires Asking.Plain(verb, target, headers) && Serve.Splits(pieces, Asking.Head(verb + " " + target, headers) + body)
    ensures var x := ExchangeOf(codec, Asking.Head(verb + " " + target, headers) + body, halfClosed, reply, pieces);
      && (!Asking.SaysGzip(headers) ==> !x.compress)
      && (Asking.SaysGzip(headers) && |Asking.Head(verb + " " + target, headers)| <= 16384 ==> x.compress)
  {
    hide Asking.Plain, Asking.Head, Asking.SaysGzip, Serve.SniffFrom, Serve.Splits;
    Asking.AnsweredAsAsked(verb, target, headers, body, pieces);
  }

  /** From `build_request` to `parse_response`. For every request the client builds, every way the network
      cuts it, and every interleaving of the bridge that ends well, compressed or not: the client makes
      of the wire exactly what it would make of Quack's own reply. Only an envelope over the cap is
      refused. */
  lemma ReplyComesBack(
    req: Request, out: string, pieces: seq<Serve.Read>, codec: Codec, halfClosed: bool, reply: string,
    acts: seq<ServeBridge.Action>, s: ServeBridge.State, expectBody: bool, max: nat, usize: nat)
    requires Serialise(req) == Ok(out) && Serve.Splits(pieces, out) && Lawful(codec)
    requires var x := ExchangeOf(codec, out, halfClosed, reply, pieces);
      && (x.compress || !StartsWith(reply, MAGIC))
      && ServeBridge.Run(x, ServeBridge.Init(x), acts) == Some(s) && s.phase.Succeeded?
    ensures s.toQuack <= out
    ensures Reads(codec, s.toClient, expectBody, max, usize) ==
            if ExchangeOf(codec, out, halfClosed, reply, pieces).compress && |reply| > max then Undecodable
            else Parsed(Parse(reply, expectBody, usize))
  {
    hide Serialise, Serve.Splits, Lawful, Parse, DecodeWithin, ServeBridge.Run;
    var x := ExchangeOf(codec, out, halfClosed, reply, pieces);
    ServeBridge.BytesInOrder(x, acts, s);
    ServeBridge.SuccessSendsEverything(x, acts, s, max);
  }

  /** And stopped anywhere before that, the client sees an error, or - plain and framed, and stopped behind
      its body - the whole reply; never a shorter one. */
  lemma StoppedIsNeverShort(
    req: Request, out: string, pieces: seq<Serve.Read>, codec: Codec, halfClosed: bool, reply: string,
    acts: seq<ServeBridge.Action>, s: ServeBridge.State, max: nat, usize: nat)
    requires Serialise(req) == Ok(out) && Serve.Splits(pieces, out) && Lawful(codec)
    requires var x := ExchangeOf(codec, out, halfClosed, reply, pieces);
      ServeBridge.Run(x, ServeBridge.Init(x), acts) == Some(s)
    ensures s.toQuack <= out
    ensures ExchangeOf(codec, out, halfClosed, reply, pieces).compress && (!s.finishing || s.out != "") ==>
              Reads(codec, s.toClient, true, max, usize) in {Undecodable, Parsed(Err(NoHeadEnd))}
    ensures !ExchangeOf(codec, out, halfClosed, reply, pieces).compress && !StartsWith(reply, MAGIC) &&
            Parse(reply, true, usize).Ok? && !HttpResponse.FramingIn(reply, usize).ToTheEnd? ==>
              var seen := Reads(codec, s.toClient, true, max, usize);
              seen.Parsed? && (seen.response.Err? || seen.response == Parse(reply, true, usize))
  {
    hide Serialise, Serve.Splits, Lawful, Parse, DecodeWithin, ServeBridge.Run, HttpResponse.FramingIn;
    var x := ExchangeOf(codec, out, halfClosed, reply, pieces);
    ServeBridge.BytesInOrder(x, acts, s);
    if x.compress {
      if !s.finishing || s.out != "" { ServeBridge.StoppedExchangeIsAnError(x, acts, s, max, usize); }
    } else if Parse(reply, true, usize).Ok? && !HttpResponse.FramingIn(reply, usize).ToTheEnd? {
      ServeBridge.StoppedPlainExchange(x, acts, s, max, usize);
    }
  }
}
