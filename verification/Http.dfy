/** HTTP/1.1 framing: the request printer, the response parser and the chunked decoder. */
module Http {
  import opened Text
  import opened Numbers
  import Compress

  datatype Error =
    | Injection(what: string)
    | NoHeadEnd
    | ShortBody(promised: nat, sent: nat)
    | UnterminatedSize
    | BadSize
    | ChunkOverrun
    | NoLastChunk

  datatype Result<+T> = Ok(value: T) | Err(error: Error)

  // --- requests ------------------------------------------------------------

  /** `verb` is the request method. */
  datatype Request = Request(
    verb: string,
    path: string,
    host: string,
    port: string,
    headers: seq<(string, string)>,
    body: Option<string>,
    contentType: string)

  predicate Splittable(s: string) {
    '\r' !in s && '\n' !in s
  }

  predicate IsFraming(name: string) {
    var lower := Lower(name);
    lower == "host" || lower == "content-length" || lower == "connection" || lower == "transfer-encoding" ||
    lower == Lower(Compress.ACCEPT_HEADER)
  }

  function Line(h: (string, string)): string {
    h.0 + ": " + h.1
  }

  /** The caller's headers that are written out, as lines. */
  function KeptLines(headers: seq<(string, string)>): seq<string> {
    if |headers| == 0 then []
    else (if IsFraming(headers[0].0) then [] else [Line(headers[0])]) + KeptLines(headers[1..])
  }

  predicate SaysContentType(headers: seq<(string, string)>) {
    exists h | h in headers :: !IsFraming(h.0) && EqIgnoreCase(h.0, "content-type")
  }

  function EffectiveType(req: Request): string {
    if req.contentType == "" then "application/octet-stream" else req.contentType
  }

  function BodyLines(req: Request): seq<string> {
    match req.body
    case None => []
    case Some(body) =>
      [Line(("Content-Length", Decimal(|body|)))] +
      if SaysContentType(req.headers) then [] else [Line(("Content-Type", EffectiveType(req)))]
  }

  function RequestLine(req: Request): string {
    req.verb + " " + (if req.path == "" then "/" else req.path) + " HTTP/1.1"
  }

  const ACCEPT_LINE := Line((Compress.ACCEPT_HEADER, Compress.ACCEPT_VALUE))
  const CLOSE_LINE := Line(("Connection", "close"))

  /** The lines of the head after the request line. */
  function HeaderLines(req: Request): seq<string> {
    [Line(("Host", req.host + ":" + req.port))] + KeptLines(req.headers) + BodyLines(req) + [ACCEPT_LINE, CLOSE_LINE]
  }

  /** Each line with its CRLF. */
  function Terminated(lines: seq<string>): string {
    if |lines| == 0 then "" else lines[0] + CRLF + Terminated(lines[1..])
  }

  function HeadOf(req: Request): string {
    RequestLine(req) + CRLF + Terminated(HeaderLines(req)) + CRLF
  }

  /** The first caller header with a CR or LF in it. */
  function HeaderError(headers: seq<(string, string)>): Option<Error> {
    if |headers| == 0 then None
    else if !Splittable(headers[0].0) then Some(Injection("header name"))
    else if !Splittable(headers[0].1) then Some(Injection("header value"))
    else HeaderError(headers[1..])
  }

  function Refusal(req: Request): Option<Error> {
    if !Splittable(req.path) then Some(Injection("request path"))
    else if !Splittable(req.host) then Some(Injection("host"))
    else if !Splittable(req.port) then Some(Injection("port"))
    else
      match HeaderError(req.headers)
      case Some(e) => Some(e)
      case None =>
        if req.body.Some? && !SaysContentType(req.headers) && !Splittable(EffectiveType(req)) then
          Some(Injection("content type"))
        else None
  }

  /** What `build_request` puts on the wire. */
  function Serialise(req: Request): Result<string> {
    match Refusal(req)
    case Some(e) => Err(e)
    case None => Ok(HeadOf(req) + if req.body.Some? then req.body.value else "")
  }

  lemma {:induction false} TerminatedAppend(a: seq<string>, b: seq<string>)
    ensures Terminated(a + b) == Terminated(a) + Terminated(b)
  {
    if |a| == 0 {
      assert a + b == b;
    } else {
      assert (a + b)[1..] == a[1..] + b;
      TerminatedAppend(a[1..], b);
    }
  }

  lemma TerminatedSnoc(a: seq<string>, line: string)
    ensures Terminated(a + [line]) == Terminated(a) + line + CRLF
  {
    TerminatedAppend(a, [line]);
    assert Terminated([line]) == line + CRLF;
  }

  lemma {:induction false} KeptSnoc(hs: seq<(string, string)>, h: (string, string))
    ensures KeptLines(hs + [h]) == KeptLines(hs) + if IsFraming(h.0) then [] else [Line(h)]
  {
    if |hs| == 0 {
      assert hs + [h] == [h];
    } else {
      assert (hs + [h])[1..] == hs[1..] + [h];
      KeptSnoc(hs[1..], h);
    }
  }

  /** One more line in the buffer. */
  lemma PushLine(top: string, lines: seq<string>, line: string)
    ensures top + Terminated(lines + [line]) == top + Terminated(lines) + line + CRLF
  {
    TerminatedSnoc(lines, line);
  }

  lemma SaysSnoc(hs: seq<(string, string)>, h: (string, string))
    ensures SaysContentType(hs + [h]) ==
            (SaysContentType(hs) || (!IsFraming(h.0) && EqIgnoreCase(h.0, "content-type")))
  {
    assert h in hs + [h];
    assert forall x :: x in hs + [h] <==> x in hs || x == h;
  }

  /** Write the caller's headers behind the Host line, dropping those that are ours. */
  method PushHeaders(top: string, host: string, headers: seq<(string, string)>)
    returns (e: Option<Error>, head: string, hasContentType: bool)
    ensures e == HeaderError(headers)
    ensures e.None? ==> head == top + Terminated([host] + KeptLines(headers))
    ensures e.None? ==> hasContentType == SaysContentType(headers)
  {
    head := top + host + CRLF;
    hasContentType := false;
    assert Terminated([host]) == host + CRLF;
    for i := 0 to |headers|
      invariant head == top + Terminated([host] + KeptLines(headers[..i]))
      invariant hasContentType == SaysContentType(headers[..i])
      invariant HeaderError(headers) == HeaderError(headers[i..])
    {
      var (name, value) := headers[i];
      if !Splittable(name) { return Some(Injection("header name")), "", false; }
      if !Splittable(value) { return Some(Injection("header value")), "", false; }
      assert headers[i..][1..] == headers[i + 1..];
      assert headers[..i + 1] == headers[..i] + [headers[i]];
      KeptSnoc(headers[..i], headers[i]);
      SaysSnoc(headers[..i], headers[i]);
      if !IsFraming(name) {
        if EqIgnoreCase(name, "content-type") { hasContentType := true; }
        PushLine(top, [host] + KeptLines(headers[..i]), Line((name, value)));
        assert [host] + KeptLines(headers[..i]) + [Line((name, value))] == [host] + KeptLines(headers[..i + 1]);
        head := head + Line((name, value)) + CRLF;
      } else {
        assert KeptLines(headers[..i + 1]) == KeptLines(headers[..i]);
      }
    }
    assert headers[..|headers|] == headers;
    e := None;
  }

  /** Serialise a request, head then body, as the code does it: line by line into one buffer. */
  method BuildRequest(req: Request) returns (r: Result<string>)
    ensures r == Serialise(req)
  {
    hide Splittable, Line, KeptLines, Decimal;
    if !Splittable(req.path) { return Err(Injection("request path")); }
    if !Splittable(req.host) { return Err(Injection("host")); }
    if !Splittable(req.port) { return Err(Injection("port")); }

    ghost var top := RequestLine(req) + CRLF;
    var path := if req.path == "" then "/" else req.path;
    var first := req.verb + " " + path + " HTTP/1.1" + CRLF;
    var host := Line(("Host", req.host + ":" + req.port));
    var e, head, hasContentType := PushHeaders(first, host, req.headers);
    if e.Some? { return Err(e.value); }

    ghost var lines := [host] + KeptLines(req.headers);
    var body := if req.body.Some? then req.body.value else "";
    if req.body.Some? {
      var length := Line(("Content-Length", Decimal(|body|)));
      PushLine(top, lines, length);
      lines := lines + [length];
      head := head + length + CRLF;
      if !hasContentType {
        var effective := EffectiveType(req);
        if !Splittable(effective) { return Err(Injection("content type")); }
        PushLine(top, lines, Line(("Content-Type", effective)));
        lines := lines + [Line(("Content-Type", effective))];
        head := head + Line(("Content-Type", effective)) + CRLF;
      }
    }
    assert lines == [host] + KeptLines(req.headers) + BodyLines(req);
    PushLine(top, lines, ACCEPT_LINE);
    head := head + ACCEPT_LINE + CRLF;
    PushLine(top, lines + [ACCEPT_LINE], CLOSE_LINE);
    assert lines + [ACCEPT_LINE] + [CLOSE_LINE] == HeaderLines(req);
    head := head + CLOSE_LINE + CRLF + CRLF;
    r := Ok(head + body);
  }

  // --- responses -----------------------------------------------------------

  datatype Response = Response(status: nat, reason: string, headers: seq<(string, string)>, body: string)

  const MAX_U16 := 65535

  /** `splitn(3, ' ')` of the status line: the middle piece, and the rest. */
  function StatusOf(line: string): (nat, string) {
    match SplitOnce(line, ' ')
    case None => (0, "")
    case Some((_, rest)) =>
      var (code, reason) :=
        match SplitOnce(rest, ' ')
        case None => (rest, "")
        case Some((code, reason)) => (code, reason);
      (match ParseUnsigned(code, 10, MAX_U16)
       case None => 0
       case Some(v) => v, reason)
  }

  /** A header line as the parser reads it; a line without a colon is passed over. */
  function ReadHeader(line: string): Option<(string, string)> {
    match SplitOnce(line, ':')
    case None => None
    case Some((name, value)) => Some((Trim(name), Trim(value)))
  }

  function ReadHeaders(lines: seq<string>): seq<(string, string)> {
    if |lines| == 0 then []
    else (match ReadHeader(lines[0])
          case None => []
          case Some(h) => [h]) + ReadHeaders(lines[1..])
  }

  /** The first header of that name. */
  function Header(headers: seq<(string, string)>, name: string): Option<string> {
    if |headers| == 0 then None
    else if EqIgnoreCase(headers[0].0, name) then Some(headers[0].1)
    else Header(headers[1..], name)
  }

  /** How the head says the body is framed. `max` is the largest value of the machine's `usize`. */
  datatype Framing = Chunked | Length(len: nat) | ToTheEnd

  function FramingOf(headers: seq<(string, string)>, max: nat): Framing {
    var te := Header(headers, "transfer-encoding");
    if te.Some? && EqIgnoreCase(te.value, "chunked") then Chunked
    else
      match Header(headers, "content-length")
      case None => ToTheEnd
      case Some(v) =>
        match ParseUnsigned(v, 10, max)
        case None => ToTheEnd
        case Some(len) => Length(len)
  }

  /** The size line up to any chunk extension. */
  function SizeText(sizeLine: string): string {
    match SplitOnce(sizeLine, ';')
    case None => Trim(sizeLine)
    case Some((size, _)) => Trim(size)
  }

  /** The size line at the front of `data`: where it ends, and the size it names. */
  function ReadSize(data: string, max: nat): (r: Result<(nat, nat)>)
    ensures r.Ok? ==> r.value.0 + 2 <= |data|
  {
    match Find(data, CRLF)
    case None => Err(UnterminatedSize)
    case Some(end) =>
      match ParseUnsigned(SizeText(data[..end]), 16, max)
      case None => Err(BadSize)
      case Some(size) => Ok((end, size))
  }

  function Drop(s: string, n: nat): string {
    if n <= |s| then s[n..] else ""
  }

  /** What `decode_chunked` makes of the bytes after the head. */
  function Unchunk(data: string, max: nat): Result<string>
    decreases |data|
  {
    if |data| == 0 then Err(NoLastChunk)
    else
      match ReadSize(data, max)
      case Err(e) => Err(e)
      case Ok((end, size)) =>
        var rest := data[end + 2..];
        if size == 0 then Ok("")
        else if size > |rest| then Err(ChunkOverrun)
        else Prepend(rest[..size], Unchunk(Drop(rest, size + 2), max))
  }

  function Prepend(front: string, r: Result<string>): Result<string> {
    match r
    case Ok(s) => Ok(front + s)
    case Err(e) => Err(e)
  }

  /** One turn of the decoder. */
  lemma UnchunkStep(d: string, end: nat, size: nat, max: nat)
    requires |d| > 0 && ReadSize(d, max) == Ok((end, size)) && end + 2 <= |d|
    requires 0 < size <= |d| - end - 2
    ensures Unchunk(d, max) == Prepend(d[end + 2..][..size], Unchunk(Drop(d[end + 2..], size + 2), max))
  {}

  /** The turns that end the decoder. */
  lemma UnchunkStops(d: string, max: nat)
    requires |d| > 0
    ensures ReadSize(d, max).Err? ==> Unchunk(d, max) == Err(ReadSize(d, max).error)
    ensures ReadSize(d, max).Ok? && ReadSize(d, max).value.1 == 0 ==> Unchunk(d, max) == Ok("")
    ensures ReadSize(d, max).Ok? && ReadSize(d, max).value.1 > |d| - ReadSize(d, max).value.0 - 2 ==>
              Unchunk(d, max) == Err(ChunkOverrun)
  {}

  lemma UnchunkNothing(d: string, max: nat)
    requires |d| == 0
    ensures Unchunk(d, max) == Err(NoLastChunk)
  {}

  lemma PrependNothing(data: string, r: Result<string>)
    ensures data[0..] == data && Prepend("", r) == r
  {
    if r.Ok? { assert "" + r.value == r.value; }
  }

  lemma PrependTwice(a: string, b: string, r: Result<string>)
    ensures Prepend(a, Prepend(b, r)) == Prepend(a + b, r)
  {
    if r.Ok? { assert a + (b + r.value) == a + b + r.value; }
  }

  lemma DropSlice(data: string, p: nat, n: nat)
    requires p <= |data|
    ensures Drop(data[p..], n) == data[if p + n <= |data| then p + n else |data|..]
  {
    if p + n <= |data| {
      assert data[p..][n..] == data[p + n..];
    } else {
      assert data[|data|..] == "";
    }
  }

  /** The invariant of the decoder's loop over one chunk: from position `pos` to position `next`. */
  lemma TurnKeeps(data: string, pos: nat, out: string, end: nat, size: nat, next: nat, max: nat, whole: Result<string>)
    requires pos < |data| && whole == Prepend(out, Unchunk(data[pos..], max))
    requires ReadSize(data[pos..], max) == Ok((end, size)) && 0 < size && pos + end + 2 + size <= |data|
    requires next == if pos + end + 2 + size + 2 <= |data| then pos + end + 2 + size + 2 else |data|
    ensures whole == Prepend(out + data[pos + end + 2..pos + end + 2 + size], Unchunk(data[next..], max))
  {
    hide Unchunk, Prepend;
    var d, p := data[pos..], pos + end + 2;
    var chunk, tail := data[p..p + size], data[next..];
    assert d[end + 2..] == data[p..] && data[p..][..size] == chunk;
    DropSlice(data, p, size + 2);
    UnchunkStep(d, end, size, max);
    var more := Unchunk(tail, max);
    assert Unchunk(d, max) == Prepend(chunk, more);
    PrependTwice(out, chunk, more);
  }

  /** The decoder as it runs: one position moved forward through the data. No arithmetic in it leaves
      the machine word, whatever the data says (a slice is never longer than half the word range). */
  method DecodeChunked(data: string, max: nat) returns (r: Result<string>)
    requires 2 * |data| < max
    ensures r == Unchunk(data, max)
  {
    hide Unchunk, ParseUnsigned, SizeText, Find;
    var out := "";
    var pos := 0;
    ghost var whole := Unchunk(data, max);
    PrependNothing(data, whole);
    while pos < |data|
      invariant 0 <= pos <= |data|
      invariant whole == Prepend(out, Unchunk(data[pos..], max))
      decreases |data| - pos
    {
      ghost var start := pos;
      UnchunkStops(data[pos..], max);
      var lineEnd := Find(data[pos..], CRLF);
      if lineEnd.None? { return Err(UnterminatedSize); }
      var size := ParseUnsigned(SizeText(data[pos..][..lineEnd.value]), 16, max);
      if size.None? { return Err(BadSize); }
      assert ReadSize(data[pos..], max) == Ok((lineEnd.value, size.value));
      assert pos + lineEnd.value + 2 <= max;
      pos := pos + (lineEnd.value + 2);
      if size.value == 0 {
        assert out + "" == out;
        return Ok(out);
      }
      if size.value > |data| - pos { return Err(ChunkOverrun); }
      assert pos + size.value + 2 <= max;
      ghost var next := if pos + size.value + 2 <= |data| then pos + size.value + 2 else |data|;
      TurnKeeps(data, start, out, lineEnd.value, size.value, next, max, whole);
      out := out + data[pos..pos + size.value];
      pos := pos + size.value;
      pos := if pos + 2 <= |data| then pos + 2 else |data|;
    }
    UnchunkNothing(data[pos..], max);
    r := Err(NoLastChunk);
  }

  function BodyOf(rest: string, framing: Framing, max: nat): Result<string> {
    match framing
    case Chunked => Unchunk(rest, max)
    case Length(len) => if len > |rest| then Err(ShortBody(len, |rest|)) else Ok(rest[..len])
    case ToTheEnd => Ok(rest)
  }

  function HeadersOf(head: string): seq<(string, string)> {
    ReadHeaders(Split(head, CRLF)[1..])
  }

  /** What `parse_response` makes of a whole stream. */
  function Parse(bytes: string, expectBody: bool, max: nat): Result<Response> {
    match Find(bytes, CRLFCRLF)
    case None => Err(NoHeadEnd)
    case Some(split) =>
      var head := bytes[..split];
      var (status, reason) := StatusOf(Split(head, CRLF)[0]);
      var headers := HeadersOf(head);
      if !expectBody then Ok(Response(status, reason, headers, ""))
      else
        match BodyOf(bytes[split + 4..], FramingOf(headers, max), max)
        case Err(e) => Err(e)
        case Ok(body) => Ok(Response(status, reason, headers, body))
  }

  lemma {:induction false} ReadHeadersSnoc(lines: seq<string>, line: string)
    ensures ReadHeaders(lines + [line]) ==
            ReadHeaders(lines) + (if ReadHeader(line).Some? then [ReadHeader(line).value] else [])
  {
    if |lines| == 0 {
      assert lines + [line] == [line];
    } else {
      assert (lines + [line])[1..] == lines[1..] + [line];
      ReadHeadersSnoc(lines[1..], line);
    }
  }

  method ParseResponse(bytes: string, expectBody: bool, max: nat) returns (r: Result<Response>)
    requires 2 * |bytes| < max
    ensures r == Parse(bytes, expectBody, max)
  {
    var split := Find(bytes, CRLFCRLF);
    if split.None? { return Err(NoHeadEnd); }
    var lines := Split(bytes[..split.value], CRLF);
    var (status, reason) := StatusOf(lines[0]);
    var headers: seq<(string, string)> := [];
    for i := 1 to |lines|
      invariant headers == ReadHeaders(lines[1..i])
    {
      assert lines[1..i + 1] == lines[1..i] + [lines[i]];
      ReadHeadersSnoc(lines[1..i], lines[i]);
      var header := ReadHeader(lines[i]);
      if header.Some? { headers := headers + [header.value]; }
    }
    assert lines[1..|lines|] == lines[1..];
    var rest := bytes[split.value + 4..];
    var body := "";
    if expectBody {
      match FramingOf(headers, max)
      case Chunked =>
        var decoded := DecodeChunked(rest, max);
        if decoded.Err? { return Err(decoded.error); }
        body := decoded.value;
      case Length(len) =>
        if len > |rest| { return Err(ShortBody(len, |rest|)); }
        body := rest[..len];
      case ToTheEnd =>
        body := rest;
    }
    r := Ok(Response(status, reason, headers, body));
  }
}
