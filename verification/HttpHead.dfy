/** What a built request says on the wire, told from the request alone: which requests are accepted, the
    three words of the first line, and every header as a server reads it, in order. */
module HttpHead {
  import opened Text
  import opened Numbers
  import opened Http
  import opened HttpRequest

  // --- which requests are accepted -----------------------------------------

  lemma {:induction false} NoHeaderError(headers: seq<(string, string)>)
    ensures HeaderError(headers) == None <==>
            forall i | 0 <= i < |headers| ::
              '\r' !in headers[i].0 && '\n' !in headers[i].0 && '\r' !in headers[i].1 && '\n' !in headers[i].1
  {
    if |headers| == 0 {
    } else {
      NoHeaderError(headers[1..]);
      assert forall i | 1 <= i < |headers| :: headers[i] == headers[1..][i - 1];
      assert forall i | 0 <= i < |headers[1..]| :: headers[1..][i] == headers[i + 1];
    }
  }

  lemma ContentTypeIsSaid(headers: seq<(string, string)>)
    ensures SaysContentType(headers) <==> exists i :: 0 <= i < |headers| && Lower(headers[i].0) == "content-type"
  {
    LowerIs("content-type", "content-type");
    forall h | h in headers ensures Lower(h.0) == "content-type" ==> !IsFraming(h.0) {
      OwnedNames(h.0);
    }
    hide Lower, IsFraming;
    if i :| 0 <= i < |headers| && Lower(headers[i].0) == "content-type" { assert headers[i] in headers; }
  }

  /** A request is accepted exactly if path, host, port, every header name and value, and the content type
      that will be written, hold no CR and no LF. */
  lemma AcceptedExactly(req: Request)
    ensures Serialise(req).Ok? <==>
            && '\r' !in req.path && '\n' !in req.path
            && '\r' !in req.host && '\n' !in req.host
            && '\r' !in req.port && '\n' !in req.port
            && (forall i | 0 <= i < |req.headers| ::
                  '\r' !in req.headers[i].0 && '\n' !in req.headers[i].0 &&
                  '\r' !in req.headers[i].1 && '\n' !in req.headers[i].1)
            && (req.body.Some? && (forall i | 0 <= i < |req.headers| :: Lower(req.headers[i].0) != "content-type") ==>
                  '\r' !in req.contentType && '\n' !in req.contentType)
  {
    NoHeaderError(req.headers);
    ContentTypeIsSaid(req.headers);
    hide SaysContentType, HeaderError, Lower;
  }

  /** The string holds neither CR nor LF. */
  predicate OneLine(s: string) {
    '\r' !in s && '\n' !in s
  }

  lemma {:induction false} FirstBadHeader(headers: seq<(string, string)>, k: nat)
    requires k < |headers| && !(OneLine(headers[k].0) && OneLine(headers[k].1))
    requires forall i | 0 <= i < k :: OneLine(headers[i].0) && OneLine(headers[i].1)
    ensures HeaderError(headers) ==
              Some(Injection(if !OneLine(headers[k].0) then "header name" else "header value"))
    decreases k
  {
    if k > 0 {
      assert headers[0] == headers[..k][0];
      FirstBadHeader(headers[1..], k - 1);
    }
  }

  /** A refusal names what is wrong: the path before the host, the host before the port, that before the
      headers, the headers in order with the name before the value, and the content type last. */
  lemma RefusalNames(req: Request, k: nat)
    ensures !OneLine(req.path) ==> Serialise(req) == Err(Injection("request path"))
    ensures OneLine(req.path) && !OneLine(req.host) ==> Serialise(req) == Err(Injection("host"))
    ensures OneLine(req.path) && OneLine(req.host) && !OneLine(req.port) ==> Serialise(req) == Err(Injection("port"))
    ensures OneLine(req.path) && OneLine(req.host) && OneLine(req.port) && k < |req.headers| &&
            (forall i | 0 <= i < k :: OneLine(req.headers[i].0) && OneLine(req.headers[i].1)) ==>
              && (!OneLine(req.headers[k].0) ==> Serialise(req) == Err(Injection("header name")))
              && (OneLine(req.headers[k].0) && !OneLine(req.headers[k].1) ==>
                    Serialise(req) == Err(Injection("header value")))
    ensures Serialise(req).Err? && OneLine(req.path) && OneLine(req.host) && OneLine(req.port) &&
            (forall i | 0 <= i < |req.headers| :: OneLine(req.headers[i].0) && OneLine(req.headers[i].1)) ==>
              Serialise(req) == Err(Injection("content type"))
  {
    if k < |req.headers| && (forall i | 0 <= i < k :: OneLine(req.headers[i].0) && OneLine(req.headers[i].1)) &&
       !(OneLine(req.headers[k].0) && OneLine(req.headers[k].1)) {
      FirstBadHeader(req.headers, k);
    }
    NoHeaderError(req.headers);
    hide SaysContentType, HeaderError;
  }

  // --- the first line ------------------------------------------------------

  lemma SpaceJoins(a: string, b: string, c: string)
    requires ' ' !in a && ' ' !in b && ' ' !in c
    ensures Split(a + " " + b + " " + c, " ") == [a, b, c]
  {
    var words := [a, b, c];
    NoCharIsClean(a, ' ');
    NoCharIsClean(b, ' ');
    NoCharIsClean(c, ' ');
    hide Split;
    assert words[1..] == [b, c] && words[1..][1..] == [c];
    assert Join([b, c], " ") == b + " " + Join([c], " ");
    assert Join(words, " ") == a + " " + (b + " " + c);
    assert a + " " + (b + " " + c) == a + " " + b + " " + c;
    SplitJoin(words, " ");
  }

  /** The first line is the method, the path - "/" for an empty one - and the version. */
  lemma FirstLineReads(req: Request, out: string)
    requires Serialise(req) == Ok(out)
    requires ' ' !in req.verb && '\r' !in req.verb && '\n' !in req.verb && ' ' !in req.path
    ensures Split(Split(out, CRLF)[0], " ") == [req.verb, if req.path == "" then "/" else req.path, "HTTP/1.1"]
  {
    hide Split, HeaderLines, Refusal;
    AcceptedIsOneLine(req);
    var path := if req.path == "" then "/" else req.path;
    var tail := Terminated(HeaderLines(req)) + CRLF + if req.body.Some? then req.body.value else "";
    assert RequestLine(req) == req.verb + " " + path + " " + "HTTP/1.1";
    assert out == RequestLine(req) + CRLF + tail;
    SplitLine(RequestLine(req), tail);
    SpaceJoins(req.verb, path, "HTTP/1.1");
  }

  lemma AcceptedIsOneLine(req: Request)
    requires Refusal(req) == None && Splittable(req.verb)
    ensures Splittable(RequestLine(req))
  {}

  // --- the headers ---------------------------------------------------------

  lemma {:induction false} ReadHeadersAppend(a: seq<string>, b: seq<string>)
    ensures ReadHeaders(a + b) == ReadHeaders(a) + ReadHeaders(b)
  {
    hide ReadHeader;
    if |a| == 0 {
      assert a + b == b;
    } else {
      assert (a + b)[1..] == a[1..] + b;
      ReadHeadersAppend(a[1..], b);
    }
  }

  lemma OneReads(name: string, value: string)
    requires NoSpace(name) && ':' !in name
    ensures ReadHeaders([Line((name, value))]) == [(name, Trim(value))]
  {
    hide Trim, Line, ReadHeader, ReadsAs;
    OwnLine(name, value);
    LineReadsBack(name, value);
    TrimLeadingSpace(value);
    assert [Line((name, value))][1..] == [];
  }

  lemma NamesArePlain()
    ensures NoSpace("Host") && ':' !in "Host" && NoSpace("Content-Length") && ':' !in "Content-Length"
    ensures NoSpace("Content-Type") && ':' !in "Content-Type" && NoSpace("Connection") && ':' !in "Connection"
  {}

  lemma OwnValuesAreTrim(n: nat)
    ensures Trim("gzip") == "gzip" && Trim("close") == "close" && Trim(Decimal(n)) == Decimal(n)
  {
    TrimNoSpace("gzip");
    TrimNoSpace("close");
    DigitsArePlain(n);
    TrimNoSpace(Decimal(n));
  }

  lemma BodyLinesRead(req: Request)
    ensures ReadHeaders(BodyLines(req)) ==
            match req.body
            case None => []
            case Some(body) =>
              [("Content-Length", Decimal(|body|))] +
              if exists i :: 0 <= i < |req.headers| && Lower(req.headers[i].0) == "content-type" then []
              else [("Content-Type", Trim(if req.contentType == "" then "application/octet-stream" else req.contentType))]
  {
    ContentTypeIsSaid(req.headers);
    if req.body.Some? {
      hide Trim, Line, ReadHeaders, SaysContentType, Lower;
      NamesArePlain();
      var digits := Decimal(|req.body.value|);
      OwnValuesAreTrim(|req.body.value|);
      OneReads("Content-Length", digits);
      OneReads("Content-Type", EffectiveType(req));
      ReadHeadersAppend([Line(("Content-Length", digits))], [Line(("Content-Type", EffectiveType(req)))]);
      assert [Line(("Content-Length", digits))] + [] == [Line(("Content-Length", digits))];
    } else {
      assert BodyLines(req) == [];
    }
  }

  lemma FixedLinesRead()
    ensures ReadHeaders([ACCEPT_LINE, CLOSE_LINE]) == [("X-Quackhole-Accept-Encoding", "gzip"), ("Connection", "close")]
  {
    hide Trim, Line, ReadHeaders;
    NamesArePlain();
    AcceptNameIsPlain();
    OwnValuesAreTrim(0);
    OneReads(Compress.ACCEPT_HEADER, Compress.ACCEPT_VALUE);
    OneReads("Connection", "close");
    ReadHeadersAppend([ACCEPT_LINE], [CLOSE_LINE]);
    assert [ACCEPT_LINE] + [CLOSE_LINE] == [ACCEPT_LINE, CLOSE_LINE];
  }

  /** Every header a server reads in the head, in order: host and port, the caller's own, what the body
      needs, and the two fixed ones. */
  lemma HeadersAsRead(req: Request, out: string)
    requires Serialise(req) == Ok(out) && '\r' !in req.verb && '\n' !in req.verb
    requires forall i | 0 <= i < |req.headers| :: IsToken(req.headers[i].0)
    ensures ReadHeaders(LinesRead(out)) ==
            [("Host", Trim(req.host + ":" + req.port))] + CallerHeaders(req.headers) +
            (match req.body
             case None => []
             case Some(body) =>
               [("Content-Length", Decimal(|body|))] +
               if exists i :: 0 <= i < |req.headers| && Lower(req.headers[i].0) == "content-type" then []
               else [("Content-Type", Trim(if req.contentType == "" then "application/octet-stream" else req.contentType))]) +
            [("X-Quackhole-Accept-Encoding", "gzip"), ("Connection", "close")]
  {
    hide Trim, Line, ReadHeaders, Lower, BodyLines, KeptLines, CallerHeaders, LinesRead, IsToken, Smuggled, Refusal;
    SplittableHasNoCrlf(req.verb);
    LinesAsRead(req, out);
    CleanMethodSmugglesNothing(req);
    assert [] + HeaderLines(req) == HeaderLines(req);
    NamesArePlain();
    var host := [Line(("Host", req.host + ":" + req.port))];
    OneReads("Host", req.host + ":" + req.port);
    TokenHeadersReadBack(req.headers);
    BodyLinesRead(req);
    FixedLinesRead();
    ReadHeadersAppend(host, KeptLines(req.headers));
    ReadHeadersAppend(host + KeptLines(req.headers), BodyLines(req));
    ReadHeadersAppend(host + KeptLines(req.headers) + BodyLines(req), [ACCEPT_LINE, CLOSE_LINE]);
  }

  // --- looking a header up -------------------------------------------------

  /** The first header of a name decides. */
  lemma {:induction false} HeaderJoin(a: seq<(string, string)>, b: seq<(string, string)>, name: string)
    ensures Header(a + b, name) == if Header(a, name).Some? then Header(a, name) else Header(b, name)
  {
    hide EqIgnoreCase;
    if |a| == 0 {
      assert a + b == b;
    } else {
      assert (a + b)[1..] == a[1..] + b;
      HeaderJoin(a[1..], b, name);
    }
  }

  lemma HeaderOne(h: (string, string), name: string)
    ensures Header([h], name) == if Lower(h.0) == Lower(name) then Some(h.1) else None
  {
    assert Header([h][1..], name) == None;
  }

  lemma {:induction false} CallerSaysNothingOwned(headers: seq<(string, string)>, name: string)
    requires Lower(name) in {"host", "content-length", "connection", "transfer-encoding", "x-quackhole-accept-encoding"}
    ensures Header(CallerHeaders(headers), name) == None
  {
    hide Lower, Trim;
    if |headers| == 0 {
    } else {
      CallerSaysNothingOwned(headers[1..], name);
      var first := CallerHeaders(headers)[..|CallerHeaders(headers)| - |CallerHeaders(headers[1..])|];
      assert CallerHeaders(headers) == first + CallerHeaders(headers[1..]);
      HeaderJoin(first, CallerHeaders(headers[1..]), name);
      if |first| > 0 { HeaderOne(first[0], name); assert first == [first[0]]; }
    }
  }

  /** The first of the caller's headers of a name, its value without the white space around it. */
  lemma {:induction false} CallerSaysFirst(headers: seq<(string, string)>, name: string, k: nat)
    requires Lower(name) !in {"host", "content-length", "connection", "transfer-encoding", "x-quackhole-accept-encoding"}
    requires k <= |headers| && forall j | 0 <= j < k :: Lower(headers[j].0) != Lower(name)
    requires k < |headers| ==> Lower(headers[k].0) == Lower(name)
    ensures Header(CallerHeaders(headers), name) == if k < |headers| then Some(Trim(headers[k].1)) else None
  {
    hide Lower, Trim;
    if |headers| == 0 {
    } else {
      var h, more := headers[0], CallerHeaders(headers[1..]);
      if k == 0 {
        assert CallerHeaders(headers) == [(h.0, Trim(h.1))] + more;
        HeaderJoin([(h.0, Trim(h.1))], more, name);
        HeaderOne((h.0, Trim(h.1)), name);
      } else {
        CallerSaysFirst(headers[1..], name, k - 1);
        var first := CallerHeaders(headers)[..|CallerHeaders(headers)| - |more|];
        assert CallerHeaders(headers) == first + more;
        HeaderJoin(first, more, name);
        if |first| > 0 { HeaderOne(first[0], name); assert first == [first[0]]; }
      }
    }
  }

  lemma LowerNames()
    ensures Lower("host") == "host" && Lower("connection") == "connection" && Lower("content-length") == "content-length"
    ensures Lower("content-type") == "content-type" && Lower("transfer-encoding") == "transfer-encoding"
    ensures Lower("x-quackhole-accept-encoding") == "x-quackhole-accept-encoding"
    ensures Lower("X-Quackhole-Accept-Encoding") == "x-quackhole-accept-encoding"
  {
    LowerIs("host", "host");
    LowerIs("connection", "connection");
    LowerIs("content-length", "content-length");
    LowerIs("content-type", "content-type");
    LowerIs("transfer-encoding", "transfer-encoding");
    LowerIs("x-quackhole-accept-encoding", "x-quackhole-accept-encoding");
    AcceptNameInLowerCase();
  }

  /** What a server finds under each name that matters; `k` is the caller's first content type, or past
      the end if there is none. */
  lemma HeadSays(req: Request, out: string, k: nat)
    requires Serialise(req) == Ok(out) && '\r' !in req.verb && '\n' !in req.verb
    requires forall i | 0 <= i < |req.headers| :: IsToken(req.headers[i].0)
    requires k <= |req.headers| && forall j | 0 <= j < k :: Lower(req.headers[j].0) != "content-type"
    requires k < |req.headers| ==> Lower(req.headers[k].0) == "content-type"
    ensures var read := ReadHeaders(LinesRead(out));
      && Header(read, "host") == Some(Trim(req.host + ":" + req.port))
      && Header(read, "connection") == Some("close")
      && Header(read, "x-quackhole-accept-encoding") == Some("gzip")
      && Header(read, "transfer-encoding") == None
      && Header(read, "content-length") == (if req.body.Some? then Some(Decimal(|req.body.value|)) else None)
      && Header(read, "content-type") ==
         if k < |req.headers| then Some(Trim(req.headers[k].1))
         else if req.body.None? then None
         else Some(Trim(if req.contentType == "" then "application/octet-stream" else req.contentType))
  {
    hide Trim, Lower, CallerHeaders, LinesRead, IsToken, ReadHeaders, Serialise, Decimal;
    HeadersAsRead(req, out);
    var host := [("Host", Trim(req.host + ":" + req.port))];
    var body := ReadHeaders(BodyLines(req));
    var fixed := [("X-Quackhole-Accept-Encoding", "gzip"), ("Connection", "close")];
    BodyLinesRead(req);
    assert ReadHeaders(LinesRead(out)) == host + CallerHeaders(req.headers) + body + fixed;
    OwnNames();
    LowerNames();
    assert (exists i :: 0 <= i < |req.headers| && Lower(req.headers[i].0) == "content-type") <==> k < |req.headers|;
    CallerSaysFirst(req.headers, "content-type", k);
    forall name | name in {"host", "connection", "content-length", "content-type", "transfer-encoding", "x-quackhole-accept-encoding"}
      ensures Header(ReadHeaders(LinesRead(out)), name) ==
              (if name == "host" then Some(Trim(req.host + ":" + req.port))
               else if Header(CallerHeaders(req.headers), name).Some? then Header(CallerHeaders(req.headers), name)
               else if Header(body, name).Some? then Header(body, name)
               else Header(fixed, name))
    {
      HeaderOne(host[0], name);
      HeaderJoin(host, CallerHeaders(req.headers), name);
      HeaderJoin(host + CallerHeaders(req.headers), body, name);
      HeaderJoin(host + CallerHeaders(req.headers) + body, fixed, name);
    }
    CallerOwnsNothing(req.headers);
    FixedSays(fixed);
    BodySays(req, body, k < |req.headers|);
  }

  lemma CallerOwnsNothing(headers: seq<(string, string)>)
    ensures Header(CallerHeaders(headers), "connection") == None && Header(CallerHeaders(headers), "content-length") == None
    ensures Header(CallerHeaders(headers), "transfer-encoding") == None
    ensures Header(CallerHeaders(headers), "x-quackhole-accept-encoding") == None
  {
    hide Lower, Header, CallerHeaders;
    LowerNames();
    CallerSaysNothingOwned(headers, "connection");
    CallerSaysNothingOwned(headers, "content-length");
    CallerSaysNothingOwned(headers, "transfer-encoding");
    CallerSaysNothingOwned(headers, "x-quackhole-accept-encoding");
  }

  lemma FixedSays(fixed: seq<(string, string)>)
    requires fixed == [("X-Quackhole-Accept-Encoding", "gzip"), ("Connection", "close")]
    ensures Header(fixed, "connection") == Some("close") && Header(fixed, "x-quackhole-accept-encoding") == Some("gzip")
    ensures Header(fixed, "transfer-encoding") == None && Header(fixed, "content-length") == None
    ensures Header(fixed, "content-type") == None
  {
    hide Lower, Header;
    OwnNames();
    LowerNames();
    HeaderTwo(fixed[0], fixed[1], "connection");
    HeaderTwo(fixed[0], fixed[1], "x-quackhole-accept-encoding");
    HeaderTwo(fixed[0], fixed[1], "transfer-encoding");
    HeaderTwo(fixed[0], fixed[1], "content-length");
    HeaderTwo(fixed[0], fixed[1], "content-type");
  }

  lemma HeaderTwo(g: (string, string), h: (string, string), name: string)
    ensures Header([g, h], name) ==
            if Lower(g.0) == Lower(name) then Some(g.1) else if Lower(h.0) == Lower(name) then Some(h.1) else None
  {
    hide Lower;
    assert [g, h] == [g] + [h];
    HeaderJoin([g], [h], name);
    HeaderOne(g, name);
    HeaderOne(h, name);
  }

  lemma BodySays(req: Request, body: seq<(string, string)>, said: bool)
    requires body ==
             match req.body
             case None => []
             case Some(bytes) =>
               [("Content-Length", Decimal(|bytes|))] +
               if said then []
               else [("Content-Type", Trim(if req.contentType == "" then "application/octet-stream" else req.contentType))]
    ensures Header(body, "connection") == None && Header(body, "x-quackhole-accept-encoding") == None
    ensures Header(body, "transfer-encoding") == None
    ensures Header(body, "content-length") == (if req.body.Some? then Some(Decimal(|req.body.value|)) else None)
    ensures Header(body, "content-type") ==
            if req.body.None? || said then None
            else Some(Trim(if req.contentType == "" then "application/octet-stream" else req.contentType))
  {
    hide Lower, Decimal, Trim, Header;
    OwnNames();
    LowerNames();
    if |body| == 0 {
      HeaderNothing();
    } else {
      BodyName(body, "connection");
      BodyName(body, "x-quackhole-accept-encoding");
      BodyName(body, "transfer-encoding");
      BodyName(body, "content-length");
      BodyName(body, "content-type");
    }
  }

  lemma BodyName(body: seq<(string, string)>, name: string)
    requires 1 <= |body| <= 2
    ensures Header(body, name) ==
            if Lower(body[0].0) == Lower(name) then Some(body[0].1)
            else if |body| == 2 && Lower(body[1].0) == Lower(name) then Some(body[1].1)
            else None
  {
    if |body| == 1 {
      assert body == [body[0]];
      HeaderOne(body[0], name);
    } else {
      assert body == [body[0], body[1]];
      HeaderTwo(body[0], body[1], name);
    }
  }

  lemma HeaderNothing()
    ensures forall name :: Header([], name) == None
  {}
}
