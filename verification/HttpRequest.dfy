/** What a request on the wire says to whoever reads it: where its head ends, which lines it has,
    which headers it carries, and that it asks for compression. */
module HttpRequest {
  import opened Text
  import opened Numbers
  import opened Http
  import Compress

  // --- splitting at CRLF ---------------------------------------------------

  /** Splitting goes through a CRLF: nothing before it can reach across. */
  lemma {:induction false} SplitAppend(a: string, b: string)
    ensures Split(a + CRLF + b, CRLF) == Split(a, CRLF) + Split(b, CRLF)
    decreases |a|
  {
    var s := a + CRLF + b;
    FindFirst(a, CRLF);
    match Find(a, CRLF)
    case None =>
      assert !Contains(a, CRLF);
      NoCrlfIsClean(a);
      FindAfterClean(a, CRLF, b);
      assert s[|a| + 2..] == b && s[..|a|] == a;
    case Some(k) =>
      forall j: nat | j <= k ensures At(s, j, CRLF) == At(a, j, CRLF) {
        assert s == a + (CRLF + b);
        AtInPrefix(a, CRLF + b, j, CRLF);
      }
      FindIs(s, CRLF, k);
      assert s[k + 2..] == a[k + 2..] + CRLF + b && s[..k] == a[..k];
      SplitAppend(a[k + 2..], b);
  }

  lemma SplitWhole(line: string)
    ensures Split(line, CRLF) == [line] <==> !Contains(line, CRLF)
  {
    FindFirst(line, CRLF);
  }

  lemma SplittableHasNoCrlf(line: string)
    requires Splittable(line)
    ensures !Contains(line, CRLF) && !Contains(line, CRLFCRLF)
  {
    forall i: nat ensures !At(line, i, CRLF) && !At(line, i, CRLFCRLF) {
      if At(line, i, CRLF) { AtChars(line, i, CRLF); }
      if At(line, i, CRLFCRLF) { AtChars(line, i, CRLFCRLF); }
    }
  }

  lemma SplitLine(line: string, s: string)
    requires Splittable(line)
    ensures Split(line + CRLF + s, CRLF) == [line] + Split(s, CRLF)
  {
    SplittableHasNoCrlf(line);
    SplitWhole(line);
    SplitAppend(line, s);
  }

  lemma {:induction false} SplitTerminated(lines: seq<string>, tail: string)
    requires forall l | l in lines :: Splittable(l)
    ensures Split(Terminated(lines) + tail, CRLF) == lines + Split(tail, CRLF)
  {
    hide Split, Splittable;
    if |lines| == 0 {
      assert Terminated(lines) + tail == tail;
    } else {
      var rest := Terminated(lines[1..]) + tail;
      assert Terminated(lines) + tail == lines[0] + CRLF + rest;
      SplitLine(lines[0], rest);
      SplitTerminated(lines[1..], tail);
      assert [lines[0]] + (lines[1..] + Split(tail, CRLF)) == lines + Split(tail, CRLF);
    }
  }

  /** The last line of a block, without its CRLF. */
  lemma {:induction false} TerminatedIsJoin(lines: seq<string>)
    requires |lines| > 0
    ensures Terminated(lines) == Join(lines, CRLF) + CRLF
  {
    if |lines| > 1 {
      TerminatedIsJoin(lines[1..]);
    } else {
      assert Terminated(lines[1..]) == "";
    }
  }

  // --- the lines of a head -------------------------------------------------

  predicate WellFormedLine(line: string) {
    |line| > 0 && Splittable(line)
  }

  lemma {:induction false} KeptAreWellFormed(headers: seq<(string, string)>)
    requires HeaderError(headers) == None
    ensures forall l | l in KeptLines(headers) :: WellFormedLine(l)
  {
    if |headers| == 0 {
    } else {
      KeptAreWellFormed(headers[1..]);
    }
  }

  lemma DecimalIsSplittable(n: nat)
    ensures Splittable(Decimal(n))
  {}

  lemma LinesAreWellFormed(req: Request)
    requires Refusal(req) == None
    ensures forall l | l in HeaderLines(req) :: WellFormedLine(l)
  {
    KeptAreWellFormed(req.headers);
    BodyLinesAreWellFormed(req);
    var host := Line(("Host", req.host + ":" + req.port));
    assert WellFormedLine(host);
    FixedLinesAreWellFormed();
    hide WellFormedLine;
    forall l | l in HeaderLines(req) ensures WellFormedLine(l) {
      assert l == host || l in KeptLines(req.headers) || l in BodyLines(req) || l == ACCEPT_LINE || l == CLOSE_LINE;
    }
  }

  lemma FixedLinesAreWellFormed()
    ensures WellFormedLine(ACCEPT_LINE) && WellFormedLine(CLOSE_LINE)
  {}

  lemma BodyLinesAreWellFormed(req: Request)
    requires Refusal(req) == None
    ensures forall l | l in BodyLines(req) :: WellFormedLine(l)
  {
    if req.body.Some? {
      var length, media := Decimal(|req.body.value|), EffectiveType(req);
      DecimalIsSplittable(|req.body.value|);
      assert WellFormedLine(Line(("Content-Length", length)));
      if !SaysContentType(req.headers) {
        assert Splittable(media);
        assert WellFormedLine(Line(("Content-Type", media)));
      }
      hide WellFormedLine;
    }
  }

  // --- where the head ends -------------------------------------------------

  /** In a block of non-empty lines the first empty line is the one after the last. */
  lemma {:induction false} BlankLineAfter(lines: seq<string>, tail: string)
    requires |lines| > 0 && forall l | l in lines :: WellFormedLine(l)
    ensures FirstAt(Terminated(lines) + CRLF + tail, CRLFCRLF, |Terminated(lines)| - 2)
  {
    var line, rest := lines[0], Terminated(lines[1..]) + CRLF + tail;
    var s := Terminated(lines) + CRLF + tail;
    assert s == line + CRLF + rest;
    assert line in lines;
    SplittableHasNoCrlf(line);
    if |lines| > 1 {
      BlankLineAfter(lines[1..], tail);
      assert lines[1] in lines && rest[0] == lines[1][0];
    }
    BlankLineBehind(line, rest, |lines| == 1, if |lines| == 1 then 0 else |Terminated(lines[1..])| - 2);
  }

  /** One line in front of a block: no empty line begins in it. */
  lemma BlankLineBehind(line: string, rest: string, last: bool, k: nat)
    requires !Contains(line, CRLFCRLF) && forall j | 0 <= j < |line| && |line| - 3 <= j :: line[j] != '\r'
    requires last ==> StartsWith(rest, CRLF)
    requires !last ==> |rest| > 0 && rest[0] != '\r' && FirstAt(rest, CRLFCRLF, k)
    ensures FirstAt(line + CRLF + rest, CRLFCRLF, if last then |line| else |line| + 2 + k)
  {
    var s, front := line + CRLF + rest, line + CRLF;
    forall j: nat | j < |line| ensures !At(s, j, CRLFCRLF) {
      if j + 4 <= |line| {
        assert s == line + (CRLF + rest);
        AtInPrefix(line, CRLF + rest, j, CRLFCRLF);
      } else if At(s, j, CRLFCRLF) {
        AtChars(s, j, CRLFCRLF);
      }
    }
    if last {
      assert s == line + CRLF + CRLF + rest[2..];
      assert s[|line|..|line| + 4] == CRLF + CRLF;
    } else {
      forall j: nat | |line| <= j < |line| + 2 + k ensures !At(s, j, CRLFCRLF) {
        if j == |line| {
          if At(s, j, CRLFCRLF) { AtChars(s, j, CRLFCRLF); }
        } else if j == |line| + 1 {
          if At(s, j, CRLFCRLF) { AtChars(s, j, CRLFCRLF); }
        } else {
          AtInSuffix(front, rest, j, CRLFCRLF);
        }
      }
      AtInSuffix(front, rest, |line| + 2 + k, CRLFCRLF);
    }
  }

  /** The request line holds what the method holds of CRLFs, and nothing after the method adds any. */
  lemma RequestLineContains(req: Request, needle: string)
    requires Refusal(req) == None && (needle == CRLF || needle == CRLFCRLF)
    ensures Contains(RequestLine(req), needle) <==> Contains(req.verb, needle)
  {
    var line, verb := RequestLine(req), req.verb;
    var tail := " " + (if req.path == "" then "/" else req.path) + " HTTP/1.1";
    assert line == verb + tail;
    assert Splittable(tail);
    assert forall k | |verb| <= k < |line| :: line[k] == tail[k - |verb|] && line[k] in tail;
    forall i: nat ensures At(line, i, needle) <==> At(verb, i, needle) {
      if i + |needle| <= |verb| {
        AtInPrefix(verb, tail, i, needle);
      } else if At(line, i, needle) {
        AtChars(line, i, needle);
      }
    }
    if Contains(verb, needle) {
      var i: nat :| i <= |verb| && At(verb, i, needle);
      assert At(line, i, needle);
    }
    if Contains(line, needle) {
      var i: nat :| i <= |line| && At(line, i, needle);
      assert At(verb, i, needle);
    }
  }

  lemma RequestLineEnd(req: Request)
    ensures var line := RequestLine(req); |line| >= 3 && forall j | |line| - 3 <= j < |line| :: line[j] != '\r'
  {
    var front, end := req.verb + " " + (if req.path == "" then "/" else req.path) + " HTTP/", "1.1";
    assert RequestLine(req) == front + end;
  }

  /** The first blank line of the output is the head's own end, exactly when the method has no blank
      line in it: the one part of a request the code does not check. */
  lemma HeadEndsWhereItShould(req: Request, out: string)
    requires Serialise(req) == Ok(out)
    ensures Compress.HeadEnd(out) == Some(|HeadOf(req)|) <==> !Contains(req.verb, CRLFCRLF)
  {
    RequestLineContains(req, CRLFCRLF);
    var line := RequestLine(req);
    var rest := Terminated(HeaderLines(req)) + CRLF + if req.body.Some? then req.body.value else "";
    assert out == line + CRLF + rest;
    if Contains(line, CRLFCRLF) {
      EarlyBlankLine(line, rest);
    } else {
      CleanHeadEnds(req, if req.body.Some? then req.body.value else "");
    }
  }

  lemma EarlyBlankLine(line: string, rest: string)
    requires Contains(line, CRLFCRLF)
    ensures Find(line + CRLF + rest, CRLFCRLF).Some? && Find(line + CRLF + rest, CRLFCRLF).value + 4 <= |line|
  {
    var out := line + CRLF + rest;
    var i: nat :| i <= |line| && At(line, i, CRLFCRLF);
    assert out == line + (CRLF + rest);
    AtInPrefix(line, CRLF + rest, i, CRLFCRLF);
    FindFirst(out, CRLFCRLF);
  }

  lemma CleanHeadEnds(req: Request, body: string)
    requires Refusal(req) == None && !Contains(RequestLine(req), CRLFCRLF)
    ensures var line, block := RequestLine(req), Terminated(HeaderLines(req));
      Find(line + CRLF + (block + CRLF + body), CRLFCRLF) == Some(|line| + |block|)
  {
    RequestLineEnd(req);
    LinesAreWellFormed(req);
    hide RequestLine, HeaderLines;
    var line, lines := RequestLine(req), HeaderLines(req);
    var rest := Terminated(lines) + CRLF + body;
    BlankLineAfter(lines, body);
    assert lines[0] in lines && rest[0] == lines[0][0];
    BlankLineBehind(line, rest, false, |Terminated(lines)| - 2);
    FindIs(line + CRLF + rest, CRLFCRLF, |line| + |Terminated(lines)|);
  }

  lemma WholeHeadSplitsBack(req: Request)
    requires Refusal(req) == None
    ensures Split(HeadOf(req), CRLF) == Split(RequestLine(req), CRLF) + HeaderLines(req) + ["", ""]
  {
    hide RequestLine, HeaderLines, Split;
    var line, lines := RequestLine(req), HeaderLines(req);
    LinesAreWellFormed(req);
    assert HeadOf(req) == line + CRLF + (Terminated(lines) + CRLF);
    SplitAppend(line, Terminated(lines) + CRLF);
    SplitTerminated(lines, CRLF);
    SplitAppend("", "");
    assert "" + CRLF + "" == CRLF;
    SplittableHasNoCrlf("");
    SplitWhole("");
    assert Split(line, CRLF) + (lines + ["", ""]) == Split(line, CRLF) + lines + ["", ""];
  }

  lemma LinesSplitBack(req: Request)
    requires Refusal(req) == None
    ensures |HeadOf(req)| >= 4
    ensures Split(HeadOf(req)[..|HeadOf(req)| - 4], CRLF) == Split(RequestLine(req), CRLF) + HeaderLines(req)
  {
    var line, lines := RequestLine(req), HeaderLines(req);
    assert |lines| > 0;
    hide RequestLine, HeaderLines, Split;
    LinesAreWellFormed(req);
    TerminatedIsJoin(lines);
    var head := HeadOf(req);
    assert head[..|head| - 4] == line + CRLF + Join(lines, CRLF);
    SplitAppend(line, Join(lines, CRLF));
    forall l | l in lines ensures Clean(l, CRLF) {
      SplittableHasNoCrlf(l);
      NoCrlfIsClean(l);
    }
    SplitJoin(lines, CRLF);
  }

  /** Splitting the head at CRLF gives back the request line and the header lines, in order, exactly
      when the method has no CRLF in it. */
  lemma HeadSplitsBack(req: Request, out: string)
    requires Serialise(req) == Ok(out)
    ensures Split(HeadOf(req)[..|HeadOf(req)| - 4], CRLF) == [RequestLine(req)] + HeaderLines(req) <==>
            !Contains(req.verb, CRLF)
  {
    hide Split, HeadOf, HeaderLines;
    LinesSplitBack(req);
    RequestLineContains(req, CRLF);
    SplitWhole(RequestLine(req));
    var first, lines := Split(RequestLine(req), CRLF), HeaderLines(req);
    if first + lines == [RequestLine(req)] + lines {
      assert |first| == 1;
      assert (first + lines)[0] == first[0];
    }
  }

  // --- which headers the head carries --------------------------------------

  /** The name a reader makes of a header the caller named `name`. */
  function ReadsAs(name: string): string {
    match SplitOnce(name, ':')
    case None => Trim(name)
    case Some((front, _)) => Trim(front)
  }

  predicate Named(line: string, name: string) {
    ReadHeader(line).Some? && Lower(ReadHeader(line).value.0) == name
  }

  function CountNamed(lines: seq<string>, name: string): nat {
    if |lines| == 0 then 0 else (if Named(lines[0], name) then 1 else 0) + CountNamed(lines[1..], name)
  }

  lemma {:induction false} CountAppend(a: seq<string>, b: seq<string>, name: string)
    ensures CountNamed(a + b, name) == CountNamed(a, name) + CountNamed(b, name)
  {
    if |a| == 0 {
      assert a + b == b;
    } else {
      assert (a + b)[1..] == a[1..] + b;
      CountAppend(a[1..], b, name);
    }
  }

  /** A written header is read back under `ReadsAs` of its name. */
  lemma LineReadsBack(name: string, value: string)
    ensures ReadHeader(Line((name, value))).Some? && ReadHeader(Line((name, value))).value.0 == ReadsAs(name)
    ensures ':' !in name ==> ReadHeader(Line((name, value))).value.1 == Trim(" " + value)
  {
    var line := Line((name, value));
    assert line == name + [':'] + (" " + value);
    FindFirst(name, [':']);
    match Find(name, [':'])
    case None =>
      forall i | 0 <= i < |name| ensures name[i] != ':' {
        assert !At(name, i, [':']) && name[i..i + 1] == [name[i]];
      }
      NoCharIsClean(name, ':');
      FindAfterClean(name, [':'], " " + value);
      assert line[..|name|] == name && line[|name| + 1..] == " " + value;
    case Some(k) =>
      forall j: nat | j <= k ensures At(line, j, [':']) == At(name, j, [':']) {
        assert line == name + ([':'] + (" " + value));
        AtInPrefix(name, [':'] + (" " + value), j, [':']);
      }
      FindIs(line, [':'], k);
      assert line[..k] == name[..k];
      AtChars(name, k, [':']);
      assert ':' in name;
  }

  lemma TrimLeadingSpace(value: string)
    ensures Trim(" " + value) == Trim(value)
  {
    assert (" " + value)[1..] == value;
  }

  const OWNED := {"host", "connection", "content-length", "transfer-encoding", "x-quackhole-accept-encoding"}

  lemma OwnedNames(name: string)
    ensures IsFraming(name) <==> Lower(name) in OWNED
  {
    var accept := Lower(Compress.ACCEPT_HEADER);
    assert accept == "x-quackhole-accept-encoding";
  }

  /** Every caller header that is kept is also read as one that is not ours. */
  predicate KeepsOut(headers: seq<(string, string)>) {
    forall h | h in headers :: !IsFraming(h.0) ==> !IsFraming(ReadsAs(h.0))
  }

  /** How many kept headers read as `name`. */
  lemma {:induction false} CountKept(headers: seq<(string, string)>, name: string)
    ensures CountNamed(KeptLines(headers), name) == 0 <==>
            forall h | h in headers :: !IsFraming(h.0) ==> Lower(ReadsAs(h.0)) != name
  {
    if |headers| == 0 {
    } else {
      var h := headers[0];
      CountKept(headers[1..], name);
      LineReadsBack(h.0, h.1);
      assert h in headers && forall x | x in headers[1..] :: x in headers;
      var first := if IsFraming(h.0) then [] else [Line(h)];
      CountAppend(first, KeptLines(headers[1..]), name);
      assert CountNamed(first, name) == if !IsFraming(h.0) && Lower(ReadsAs(h.0)) == name then 1 else 0;
      assert forall x | x in headers :: x == h || x in headers[1..];
    }
  }

  /** One Host, one Connection, one accept header, a Content-Length exactly when there is a body, and
      no Transfer-Encoding: as a reader of the head counts them. */
  predicate OneOfEach(lines: seq<string>, hasBody: bool) {
    && CountNamed(lines, "host") == 1
    && CountNamed(lines, "connection") == 1
    && CountNamed(lines, "x-quackhole-accept-encoding") == 1
    && CountNamed(lines, "content-length") == (if hasBody then 1 else 0)
    && CountNamed(lines, "transfer-encoding") == 0
  }

  /** The header lines a server finds in the head of what it is sent. */
  function LinesRead(out: string): seq<string> {
    match Compress.HeadEnd(out)
    case None => []
    case Some(end) => Split(out[..end - 4], CRLF)[1..]
  }

  /** The header lines a CRLF in the method makes of what should be the request line. */
  function Smuggled(req: Request): seq<string> {
    Split(RequestLine(req), CRLF)[1..]
  }

  predicate NoneOwned(lines: seq<string>) {
    forall i | 0 <= i < |lines| :: forall name | name in OWNED :: !Named(lines[i], name)
  }

  /** A header of the code's own, as it is read back. */
  lemma OwnLine(name: string, value: string)
    requires NoSpace(name) && ':' !in name
    ensures ReadsAs(name) == name
    ensures forall n :: Named(Line((name, value)), n) <==> Lower(name) == n
  {
    LineReadsBack(name, value);
    FindFirst(name, [':']);
    if Find(name, [':']).Some? { AtChars(name, Find(name, [':']).value, [':']); }
    TrimNoSpace(name);
  }

  lemma OwnNames()
    ensures Lower("Host") == "host" && Lower("Connection") == "connection" && Lower("Content-Length") == "content-length"
    ensures Lower("Content-Type") == "content-type"
    ensures Lower(Compress.ACCEPT_HEADER) == "x-quackhole-accept-encoding"
  {
    LowerIs("Host", "host");
    LowerIs("Connection", "connection");
    LowerIs("Content-Length", "content-length");
    LowerIs("Content-Type", "content-type");
    AcceptNameInLowerCase();
  }

  lemma AcceptNameInLowerCase()
    ensures Lower(Compress.ACCEPT_HEADER) == "x-quackhole-accept-encoding"
  {}

  lemma LowerIs(s: string, t: string)
    requires |s| == |t| && forall i | 0 <= i < |s| :: LowerChar(s[i]) == t[i]
    ensures Lower(s) == t
  {}

  lemma AcceptNameIsPlain()
    ensures NoSpace(Compress.ACCEPT_HEADER) && ':' !in Compress.ACCEPT_HEADER
  {}

  lemma CountOne(line: string, name: string)
    ensures CountNamed([line], name) == if Named(line, name) then 1 else 0
  {}

  /** How often each owned name stands in the head: as the code writes it, plus what the caller's
      kept headers add. */
  lemma CountInHead(req: Request, name: string)
    requires name in OWNED
    ensures CountNamed(HeaderLines(req), name) == CountNamed(KeptLines(req.headers), name) +
            (if name == "transfer-encoding" || (name == "content-length" && req.body.None?) then 0 else 1)
  {
    hide Named, ReadHeader, Line, Lower, KeptLines, BodyLines, ReadsAs, CountNamed;
    var host, kept, body := Line(("Host", req.host + ":" + req.port)), KeptLines(req.headers), BodyLines(req);
    OwnNames();
    OwnLine("Host", req.host + ":" + req.port);
    CountOne(host, name);
    CountInBodyLines(req, name);
    CountInFixedLines(name);
    CountAppend([host], kept, name);
    CountAppend([host] + kept, body, name);
    CountAppend([host] + kept + body, [ACCEPT_LINE, CLOSE_LINE], name);
  }

  lemma CountInBodyLines(req: Request, name: string)
    requires name in OWNED
    ensures CountNamed(BodyLines(req), name) == if name == "content-length" && req.body.Some? then 1 else 0
  {
    hide Named, ReadHeader, Line, Lower, ReadsAs;
    if req.body.Some? {
      OwnNames();
      var length := Line(("Content-Length", Decimal(|req.body.value|)));
      var media := Line(("Content-Type", EffectiveType(req)));
      OwnLine("Content-Length", Decimal(|req.body.value|));
      OwnLine("Content-Type", EffectiveType(req));
      CountOne(length, name);
      CountOne(media, name);
      CountAppend([length], [media], name);
      assert [length] + [] == [length];
    }
  }

  lemma CountInFixedLines(name: string)
    requires name in OWNED
    ensures CountNamed([ACCEPT_LINE, CLOSE_LINE], name) ==
            if name == "x-quackhole-accept-encoding" || name == "connection" then 1 else 0
  {
    hide Named, ReadHeader, Line, ReadsAs, CountNamed, Lower;
    OwnNames();
    AcceptNameIsPlain();
    OwnLine(Compress.ACCEPT_HEADER, Compress.ACCEPT_VALUE);
    OwnLine("Connection", "close");
    CountOne(ACCEPT_LINE, name);
    CountOne(CLOSE_LINE, name);
    CountAppend([ACCEPT_LINE], [CLOSE_LINE], name);
    assert [ACCEPT_LINE] + [CLOSE_LINE] == [ACCEPT_LINE, CLOSE_LINE];
  }

  /** What a server reads: the lines a CRLF in the method brings in, and then the code's own. */
  lemma LinesAsRead(req: Request, out: string)
    requires Serialise(req) == Ok(out) && !Contains(req.verb, CRLFCRLF)
    ensures LinesRead(out) == Smuggled(req) + HeaderLines(req)
  {
    hide HeaderLines, Split, RequestLine, Compress.HeadEnd, Refusal, Contains;
    HeadEndsWhereItShould(req, out);
    LinesSplitBack(req);
    var head := HeadOf(req);
    assert out[..|head| - 4] == head[..|head| - 4];
    var first := Split(RequestLine(req), CRLF);
    assert (first + HeaderLines(req))[1..] == first[1..] + HeaderLines(req);
  }

  /** ... unless the method holds a blank line: then it reads what the method alone says. */
  lemma LinesOfTheMethod(req: Request, out: string)
    requires Serialise(req) == Ok(out) && Contains(req.verb, CRLFCRLF)
    ensures LinesRead(out) == LinesRead(req.verb)
  {
    MethodEndsTheHead(req, out);
    hide Serialise, Split;
    var end := Compress.HeadEnd(out).value;
    assert out[..end - 4] == out[..end][..end - 4];
    assert req.verb[..end - 4] == req.verb[..end][..end - 4];
  }

  lemma {:induction false} CountNone(lines: seq<string>)
    ensures NoneOwned(lines) <==> forall name | name in OWNED :: CountNamed(lines, name) == 0
  {
    hide Named;
    if |lines| == 0 {
    } else {
      CountNone(lines[1..]);
      assert NoneOwned(lines) ==> NoneOwned(lines[1..]);
      assert lines == [lines[0]] + lines[1..];
    }
  }

  /** Framing is the code's alone, in the head as a server reads it, exactly when no caller header that
      is kept reads as one of the framing headers, and the method brings none in with a CRLF. The code
      compares names as given, so a name with a space or a colon in it can slip past; and it does not
      look at the method. */
  lemma FramingIsOurs(req: Request, out: string)
    requires Serialise(req) == Ok(out)
    ensures !Contains(req.verb, CRLFCRLF) ==>
              (OneOfEach(LinesRead(out), req.body.Some?) <==> KeepsOut(req.headers) && NoneOwned(Smuggled(req)))
    ensures Contains(req.verb, CRLFCRLF) ==> LinesRead(out) == LinesRead(req.verb)
  {
    hide CountNamed, HeaderLines, KeptLines, ReadsAs, Lower, IsFraming, LinesRead, Smuggled, NoneOwned, Contains, Serialise;
    if Contains(req.verb, CRLFCRLF) {
      LinesOfTheMethod(req, out);
    } else {
      LinesAsRead(req, out);
      forall name | name in OWNED
        ensures CountNamed(LinesRead(out), name) ==
                CountNamed(Smuggled(req), name) + CountNamed(KeptLines(req.headers), name) +
                (if name == "transfer-encoding" || (name == "content-length" && req.body.None?) then 0 else 1)
        ensures CountNamed(KeptLines(req.headers), name) == 0 <==> NoneReadsAs(req.headers, name)
      {
        CountAppend(Smuggled(req), HeaderLines(req), name);
        CountInHead(req, name);
        CountKept(req.headers, name);
      }
      CountNone(Smuggled(req));
      KeepsOutIsNone(req.headers);
    }
  }

  /** A method free of CR and LF brings nothing in. */
  lemma CleanMethodSmugglesNothing(req: Request)
    requires Refusal(req) == None && !Contains(req.verb, CRLF)
    ensures Smuggled(req) == []
  {
    RequestLineContains(req, CRLF);
    SplitWhole(RequestLine(req));
  }

  ghost predicate NoneReadsAs(headers: seq<(string, string)>, name: string) {
    forall h | h in headers :: !IsFraming(h.0) ==> Lower(ReadsAs(h.0)) != name
  }

  lemma KeepsOutIsNone(headers: seq<(string, string)>)
    ensures KeepsOut(headers) <==>
            NoneReadsAs(headers, "host") && NoneReadsAs(headers, "connection") && NoneReadsAs(headers, "content-length") &&
            NoneReadsAs(headers, "transfer-encoding") && NoneReadsAs(headers, "x-quackhole-accept-encoding")
  {
    forall h | h in headers ensures IsFraming(ReadsAs(h.0)) <==> Lower(ReadsAs(h.0)) in OWNED {
      OwnedNames(ReadsAs(h.0));
    }
    hide Lower, ReadsAs, IsFraming;
  }

  /** A header name as RFC 9110, section 5.6.2, allows it. */
  predicate IsToken(name: string) {
    |name| > 0 && forall c | c in name :: TokenChar(c)
  }

  predicate TokenChar(c: char) {
    '0' <= c <= '9' || 'a' <= c <= 'z' || 'A' <= c <= 'Z' || c in "!#$%&'*+-.^_`|~"
  }

  lemma TokenCharIsPlain(c: char)
    requires TokenChar(c)
    ensures !IsSpace(c) && c != ':'
  {}

  lemma TokenReadsAsItself(name: string)
    requires IsToken(name)
    ensures ReadsAs(name) == name && ':' !in name
  {
    forall c | c in name ensures !IsSpace(c) && c != ':' {
      TokenCharIsPlain(c);
    }
    OwnLine(name, "");
  }

  /** What the caller asked to have sent: names and values of the headers that are not framing. */
  function CallerHeaders(headers: seq<(string, string)>): seq<(string, string)> {
    if |headers| == 0 then []
    else
      (if Lower(headers[0].0) in
         {"host", "content-length", "connection", "transfer-encoding", "x-quackhole-accept-encoding"} then []
       else [(headers[0].0, Trim(headers[0].1))]) + CallerHeaders(headers[1..])
  }

  /** With token names, the caller's own headers are read back in order, whole and unchanged but for
      white space around a value; and framing is the code's alone. */
  lemma {:induction false} TokenHeadersReadBack(headers: seq<(string, string)>)
    requires forall h | h in headers :: IsToken(h.0)
    ensures ReadHeaders(KeptLines(headers)) == CallerHeaders(headers) && KeepsOut(headers)
  {
    hide ReadHeader, ReadHeaders, Line, ReadsAs, IsFraming, Trim, IsToken, Lower, KeepsOut, KeptLines, CallerHeaders;
    TokensKeepOut(headers);
    if |headers| == 0 {
      NothingKept(headers);
    } else {
      assert headers[0] in headers && forall x | x in headers[1..] :: x in headers;
      TokenHeadersReadBack(headers[1..]);
      FirstReadsBack(headers);
    }
  }

  lemma NothingKept(headers: seq<(string, string)>)
    requires |headers| == 0
    ensures ReadHeaders(KeptLines(headers)) == CallerHeaders(headers)
  {}

  lemma FirstReadsBack(headers: seq<(string, string)>)
    requires |headers| > 0 && IsToken(headers[0].0)
    requires ReadHeaders(KeptLines(headers[1..])) == CallerHeaders(headers[1..])
    ensures ReadHeaders(KeptLines(headers)) == CallerHeaders(headers)
  {
    hide ReadHeader, ReadHeaders, Line, ReadsAs, IsFraming, Trim, IsToken, Lower;
    var h, rest := headers[0], headers[1..];
    OwnedNames(h.0);
    if IsFraming(h.0) {
      assert KeptLines(headers) == KeptLines(rest);
      assert CallerHeaders(headers) == CallerHeaders(rest);
    } else {
      TokenLineReads(h, KeptLines(rest));
      assert KeptLines(headers) == [Line(h)] + KeptLines(rest);
      assert CallerHeaders(headers) == [(h.0, Trim(h.1))] + CallerHeaders(rest);
    }
  }

  lemma TokenLineReads(h: (string, string), lines: seq<string>)
    requires IsToken(h.0)
    ensures ReadHeaders([Line(h)] + lines) == [(h.0, Trim(h.1))] + ReadHeaders(lines)
  {
    hide ReadHeader, Line, ReadsAs, Trim, IsToken;
    TokenReadsAsItself(h.0);
    LineReadsBack(h.0, h.1);
    TrimLeadingSpace(h.1);
    assert ([Line(h)] + lines)[1..] == lines;
  }

  lemma TokensKeepOut(headers: seq<(string, string)>)
    requires forall h | h in headers :: IsToken(h.0)
    ensures KeepsOut(headers)
  {
    hide ReadsAs, IsFraming, IsToken;
    forall x | x in headers ensures !IsFraming(x.0) ==> !IsFraming(ReadsAs(x.0)) {
      TokenReadsAsItself(x.0);
    }
  }

  /** The length the head announces is the length of the body. */
  lemma ContentLengthReadsBack(body: string, max: nat)
    requires |body| <= max
    ensures ReadHeader(Line(("Content-Length", Decimal(|body|)))) == Some(("Content-Length", Decimal(|body|)))
    ensures ParseUnsigned(Decimal(|body|), 10, max) == Some(|body|)
  {
    hide Trim, ReadHeader, Line, Value, Print, ReadsAs;
    var digits := Decimal(|body|);
    LineReadsBack("Content-Length", digits);
    LengthNameIsPlain();
    OwnLine("Content-Length", digits);
    TrimLeadingSpace(digits);
    DigitsArePlain(|body|);
    TrimNoSpace(digits);
    DecimalReads(|body|, max);
  }

  lemma DecimalReads(n: nat, max: nat)
    requires n <= max
    ensures ParseUnsigned(Decimal(n), 10, max) == Some(n)
  {
    hide Value, Print;
    DigitsArePlain(n);
    ValuePrint(n, 10, false);
  }

  lemma LengthNameIsPlain()
    ensures NoSpace("Content-Length") && ':' !in "Content-Length"
  {}

  lemma DigitsArePlain(n: nat)
    ensures NoSpace(Decimal(n)) && Decimal(n)[0] != '+'
  {
    var digits := Decimal(n);
    assert forall i | 0 <= i < |digits| :: digits[i] in digits;
  }

  // --- asking for compression ----------------------------------------------

  lemma AcceptLineParts()
    ensures SplitOnce(ACCEPT_LINE, ':') == Some((Compress.ACCEPT_HEADER, " gzip"))
    ensures Trim(Compress.ACCEPT_HEADER) == Compress.ACCEPT_HEADER
  {
    var name, value := Compress.ACCEPT_HEADER, " gzip";
    AcceptNameIsPlain();
    assert ACCEPT_LINE == name + [':'] + value;
    NoCharIsClean(name, ':');
    FindAfterClean(name, [':'], value);
    assert ACCEPT_LINE[..|name|] == name && ACCEPT_LINE[|name| + 1..] == value;
    TrimNoSpace(name);
  }

  lemma AcceptValueParts()
    ensures Split(" gzip", ",") == [" gzip"] && Trim(" gzip") == "gzip"
  {
    FindFirst(" gzip", ",");
    if Find(" gzip", ",").Some? { AtChars(" gzip", Find(" gzip", ",").value, ","); }
    TrimLeadingSpace("gzip");
    TrimNoSpace("gzip");
    assert " " + "gzip" == " gzip";
  }

  lemma AcceptLineAsks()
    ensures Compress.AsksForGzip(ACCEPT_LINE)
  {
    hide ACCEPT_LINE, SplitOnce, Trim, Split;
    AcceptLineParts();
    AcceptValueParts();
    var value := " gzip";
    assert value in Split(value, ",") && EqIgnoreCase(Trim(value), Compress.ACCEPT_VALUE);
  }

  /** What the server reads at the front of a built request asks for compression, exactly unless the
      method holds a blank line of its own, and what stands in front of that does not ask. */
  lemma ServerHearsTheClient(req: Request, out: string)
    requires Serialise(req) == Ok(out)
    ensures Compress.HeadEnd(out).Some?
    ensures Contains(req.verb, CRLFCRLF) ==> Compress.HeadEnd(req.verb) == Compress.HeadEnd(out)
    ensures Compress.WantsCompression(out[..Compress.HeadEnd(out).value]) <==>
            !Contains(req.verb, CRLFCRLF) || Compress.WantsCompression(req.verb[..Compress.HeadEnd(req.verb).value])
  {
    if Contains(req.verb, CRLFCRLF) {
      MethodEndsTheHead(req, out);
    } else {
      OwnHeadAsks(req, out);
    }
  }

  lemma MethodEndsTheHead(req: Request, out: string)
    requires Serialise(req) == Ok(out) && Contains(req.verb, CRLFCRLF)
    ensures Compress.HeadEnd(out).Some? && Compress.HeadEnd(req.verb) == Compress.HeadEnd(out)
    ensures out[..Compress.HeadEnd(out).value] == req.verb[..Compress.HeadEnd(out).value]
  {
    hide HeaderLines, Terminated;
    assert out[..|req.verb|] == req.verb;
    FindFirst(req.verb, CRLFCRLF);
    FindInCut(out, CRLFCRLF, |req.verb|);
  }

  lemma OwnHeadAsks(req: Request, out: string)
    requires Serialise(req) == Ok(out) && !Contains(req.verb, CRLFCRLF)
    ensures Compress.HeadEnd(out).Some? && Compress.WantsCompression(out[..Compress.HeadEnd(out).value])
  {
    HeadEndsWhereItShould(req, out);
    assert out[..|HeadOf(req)|] == HeadOf(req);
    WholeHeadSplitsBack(req);
    AcceptLineAsks();
    var lines := HeaderLines(req);
    assert lines[|lines| - 2] == ACCEPT_LINE;
    var split := Split(HeadOf(req), CRLF);
    assert split[|Split(RequestLine(req), CRLF)| + |lines| - 2] == ACCEPT_LINE;
  }

  /** Everything at once, for a method free of CR and LF and header names that are tokens. */
  lemma AcceptedRequest(req: Request, out: string)
    requires Serialise(req) == Ok(out) && Splittable(req.verb)
    requires forall h | h in req.headers :: IsToken(h.0)
    ensures Compress.HeadEnd(out) == Some(|HeadOf(req)|)
    ensures out[|HeadOf(req)|..] == (if req.body.Some? then req.body.value else "")
    ensures |HeadOf(req)| >= 4
    ensures Split(out[..|HeadOf(req)| - 4], CRLF) == [RequestLine(req)] + HeaderLines(req)
    ensures ReadHeaders(KeptLines(req.headers)) == CallerHeaders(req.headers)
    ensures OneOfEach(LinesRead(out), req.body.Some?)
    ensures Compress.WantsCompression(out[..|HeadOf(req)|])
  {
    SplittableHasNoCrlf(req.verb);
    HeadEndsWhereItShould(req, out);
    LinesSplitBack(req);
    HeadSplitsBack(req, out);
    CleanMethodSmugglesNothing(req);
    hide HeadOf, HeaderLines, KeptLines, Split, OneOfEach, LinesRead, Smuggled;
    assert out[..|HeadOf(req)| - 4] == HeadOf(req)[..|HeadOf(req)| - 4];
    TokenHeadersReadBack(req.headers);
    FramingIsOurs(req, out);
    ServerHearsTheClient(req, out);
  }

  // --- what is not checked ------------------------------------------------

  lemma SpacedHostName()
    ensures !IsFraming("Host ") && ReadsAs("Host ") == "Host"
  {
    var name := "Host ";
    assert Lower(name)[4] == ' ';
    FindFirst(name, [':']);
    if Find(name, [':']).Some? { AtChars(name, Find(name, [':']).value, [':']); }
    assert name[..4] == "Host";
    TrimNoSpace("Host");
  }

  /** A method with a blank line in it is accepted, and ends the head before its time. */
  lemma MethodCutsTheHead()
    ensures var req := Request("GET / HTTP/1.1" + CRLFCRLF, "/", "h", "1", [], None, "");
      Serialise(req).Ok? && Compress.HeadEnd(Serialise(req).value) == Some(|req.verb|) && |req.verb| < |HeadOf(req)|
  {
    var verb := "GET / HTTP/1.1" + CRLFCRLF;
    var req := Request(verb, "/", "h", "1", [], None, "");
    assert KeptLines([]) == [] && Refusal(req) == None;
    assert At(verb, 14, CRLFCRLF);
    forall j: nat | j < 14 ensures !At(verb, j, CRLFCRLF) {
      if At(verb, j, CRLFCRLF) { AtChars(verb, j, CRLFCRLF); }
    }
    FindIs(verb, CRLFCRLF, 14);
    MethodEndsTheHead(req, Serialise(req).value);
  }

  const SMUGGLER := Request("GET / HTTP/1.1" + CRLF + "Host: evil", "/", "h", "1", [], None, "")

  lemma SmugglerIsAccepted()
    ensures Refusal(SMUGGLER) == None && KeptLines(SMUGGLER.headers) == [] && KeepsOut(SMUGGLER.headers)
  {}

  lemma SmugglerHasNoBlankLine()
    ensures !Contains(SMUGGLER.verb, CRLFCRLF)
  {
    var verb := SMUGGLER.verb;
    forall i: nat ensures !At(verb, i, CRLFCRLF) {
      if At(verb, i, CRLFCRLF) {
        AtChars(verb, i, CRLFCRLF);
      }
    }
  }

  lemma SmugglerPieces(first: string, second: string)
    requires first == "GET / HTTP/1.1" && second == Line(("Host", "evil / HTTP/1.1"))
    ensures RequestLine(SMUGGLER) == first + CRLF + second
    ensures Splittable(first) && Splittable(second)
  {
    assert second == "Host: evil" + " / HTTP/1.1";
  }

  lemma SmugglerLines()
    ensures Smuggled(SMUGGLER) == [Line(("Host", "evil / HTTP/1.1"))]
  {
    hide Split, Contains, Splittable;
    var first, second := "GET / HTTP/1.1", Line(("Host", "evil / HTTP/1.1"));
    SmugglerPieces(first, second);
    SplitLine(first, second);
    SplittableHasNoCrlf(second);
    SplitWhole(second);
  }

  /** A CRLF in the method is enough: every caller header kept out, and still two Host headers, as read. */
  lemma MethodBringsAHost()
    ensures Serialise(SMUGGLER).Ok? && !Contains(SMUGGLER.verb, CRLFCRLF) && KeepsOut(SMUGGLER.headers)
    ensures CountNamed(LinesRead(Serialise(SMUGGLER).value), "host") == 2
  {
    hide HeaderLines, LinesRead, Smuggled, CountNamed, Named, Lower, Line, ReadsAs, Contains, KeepsOut, RequestLine, BodyLines;
    SmugglerIsAccepted();
    SmugglerHasNoBlankLine();
    SmugglerLines();
    LinesAsRead(SMUGGLER, Serialise(SMUGGLER).value);
    HostCounts("evil / HTTP/1.1");
    CountInHead(SMUGGLER, "host");
    CountNoLines("host");
    CountAppend(Smuggled(SMUGGLER), HeaderLines(SMUGGLER), "host");
  }

  lemma HostCounts(value: string)
    ensures CountNamed([Line(("Host", value))], "host") == 1
  {
    hide Line, Named, ReadsAs, Lower;
    OwnNames();
    OwnLine("Host", value);
    CountOne(Line(("Host", value)), "host");
  }

  lemma CountNoLines(name: string)
    ensures CountNamed([], name) == 0
  {}

  /** A space after a framing name is enough: two Host headers, as read. */
  lemma SpacedHostSlipsPast()
    ensures var req := Request("GET", "/", "h", "1", [("Host ", "evil")], None, "");
      Serialise(req).Ok? && CountNamed(LinesRead(Serialise(req).value), "host") == 2 && !KeepsOut(req.headers)
  {
    var req := Request("GET", "/", "h", "1", [("Host ", "evil")], None, "");
    SpacedHostLines(req);
    SpacedHostCounts();
  }

  lemma SpacedHostLines(req: Request)
    requires Refusal(req) == None && req.verb == "GET"
    ensures LinesRead(Serialise(req).value) == HeaderLines(req)
  {
    SplittableHasNoCrlf("GET");
    LinesAsRead(req, Serialise(req).value);
    CleanMethodSmugglesNothing(req);
    hide HeaderLines;
    assert [] + HeaderLines(req) == HeaderLines(req);
  }

  lemma SpacedHostCounts()
    ensures var req := Request("GET", "/", "h", "1", [("Host ", "evil")], None, "");
      Refusal(req) == None && CountNamed(HeaderLines(req), "host") == 2 && !KeepsOut(req.headers)
  {
    var req := Request("GET", "/", "h", "1", [("Host ", "evil")], None, "");
    var line := Line(("Host ", "evil"));
    SpacedHostName();
    OwnNames();
    LineReadsBack("Host ", "evil");
    hide ReadHeader, Line, ReadsAs, IsFraming, HeaderLines, Lower;
    assert KeptLines(req.headers) == [line];
    CountOne(line, "host");
    CountInHead(req, "host");
    assert ("Host ", "evil") in req.headers;
    OwnedNames("Host");
  }
}
