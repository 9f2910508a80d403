/** A response as a server writes it, and what `parse_response` reads: printing and parsing agree on
    status, reason, headers and body, for both ways of framing. */
module HttpRoundTrip {
  import opened Text
  import opened Numbers
  import opened Http
  import opened HttpRequest
  import HttpResponse

  function StatusLine(code: nat, reason: string): string {
    "HTTP/1.1" + [' '] + (Decimal(code) + [' '] + reason)
  }

  /** Every header as a line. */
  function AllLines(headers: seq<(string, string)>): seq<string> {
    if |headers| == 0 then [] else [Line(headers[0])] + AllLines(headers[1..])
  }

  /** Headers without the white space around their values. */
  function Trimmed(headers: seq<(string, string)>): seq<(string, string)> {
    if |headers| == 0 then [] else [(headers[0].0, Trim(headers[0].1))] + Trimmed(headers[1..])
  }

  function Wire(code: nat, reason: string, headers: seq<(string, string)>, rest: string): string {
    StatusLine(code, reason) + CRLF + (Terminated(AllLines(headers)) + CRLF + rest)
  }

  predicate Sendable(headers: seq<(string, string)>) {
    forall i | 0 <= i < |headers| :: IsToken(headers[i].0) && Splittable(headers[i].1)
  }

  lemma StatusReadsBack(code: nat, reason: string)
    requires code <= MAX_U16
    ensures StatusOf(StatusLine(code, reason)) == (code, reason)
  {
    hide Find, ParseUnsigned, Print;
    OnceAtSpace("HTTP/1.1", Decimal(code) + [' '] + reason);
    DigitsArePlain(code);
    OnceAtSpace(Decimal(code), reason);
    DecimalReads(code, MAX_U16);
  }

  lemma OnceAtSpace(front: string, tail: string)
    requires ' ' !in front
    ensures SplitOnce(front + [' '] + tail, ' ') == Some((front, tail))
  {
    NoCharIsClean(front, ' ');
    FindAfterClean(front, [' '], tail);
    var s := front + [' '] + tail;
    assert s[..|front|] == front && s[|front| + 1..] == tail;
  }

  lemma StatusLineIsClean(code: nat, reason: string)
    requires Splittable(reason)
    ensures Splittable(StatusLine(code, reason)) && |StatusLine(code, reason)| > 0
  {
    DecimalIsSplittable(code);
  }

  lemma TokenIsSplittable(name: string)
    requires IsToken(name)
    ensures Splittable(name)
  {}

  lemma {:induction false} LinesAreClean(headers: seq<(string, string)>)
    requires Sendable(headers)
    ensures forall l | l in AllLines(headers) :: WellFormedLine(l)
    ensures |AllLines(headers)| == |headers|
  {
    hide IsToken;
    if |headers| == 0 {
    } else {
      TokenIsSplittable(headers[0].0);
      LinesAreClean(headers[1..]);
      assert WellFormedLine(Line(headers[0]));
    }
  }

  lemma {:induction false} LinesReadBack(headers: seq<(string, string)>)
    requires Sendable(headers)
    ensures ReadHeaders(AllLines(headers)) == Trimmed(headers)
  {
    if |headers| == 0 {
    } else {
      hide IsToken, ReadHeader, Line, ReadsAs, Trim;
      var h := headers[0];
      LinesReadBack(headers[1..]);
      TokenReadsAsItself(h.0);
      LineReadsBack(h.0, h.1);
      TrimLeadingSpace(h.1);
      assert AllLines(headers)[1..] == AllLines(headers[1..]);
    }
  }

  /** The head ends where it was ended. */
  lemma WireHeadEnd(line: string, lines: seq<string>, rest: string)
    requires Splittable(line) && forall l | l in lines :: WellFormedLine(l)
    ensures Find(line + CRLF + (Terminated(lines) + CRLF + rest), CRLFCRLF) == Some(|line| + |Terminated(lines)|)
  {
    var behind := Terminated(lines) + CRLF + rest;
    SplittableHasNoCrlf(line);
    if |lines| == 0 {
      assert behind == CRLF + rest;
      BlankLineBehind(line, behind, true, 0);
      FindIs(line + CRLF + behind, CRLFCRLF, |line|);
    } else {
      BlankLineAfter(lines, rest);
      assert lines[0] in lines && behind[0] == lines[0][0];
      BlankLineBehind(line, behind, false, |Terminated(lines)| - 2);
      FindIs(line + CRLF + behind, CRLFCRLF, |line| + |Terminated(lines)|);
    }
  }

  /** ... and splits into its lines. */
  lemma WireHeadSplits(line: string, lines: seq<string>)
    requires Splittable(line) && forall l | l in lines :: Splittable(l)
    ensures Split((line + CRLF + Terminated(lines))[..|line| + |Terminated(lines)|], CRLF) == [line] + lines
  {
    hide Split, Splittable;
    var all := [line] + lines;
    var front, last := all[..|lines|], all[|lines|];
    assert all == front + [last] && all[1..] == lines;
    TerminatedSnoc(front, last);
    assert Terminated(all) == line + CRLF + Terminated(lines);
    assert Terminated(all)[..|Terminated(all)| - 2] == Terminated(front) + last;
    SplitTerminated(front, last);
    LastStaysWhole(last);
  }

  lemma LastStaysWhole(line: string)
    requires Splittable(line)
    ensures Split(line, CRLF) == [line]
  {
    SplittableHasNoCrlf(line);
    SplitWhole(line);
  }

  /** What is printed is read: the whole of the head, and behind it the body its framing announces. */
  lemma WireReadsBack(code: nat, reason: string, headers: seq<(string, string)>, rest: string, max: nat)
    requires code <= MAX_U16 && Splittable(reason) && Sendable(headers)
    ensures Parse(Wire(code, reason, headers, rest), true, max) ==
            match BodyOf(rest, FramingOf(Trimmed(headers), max), max)
            case Err(e) => Err(e)
            case Ok(body) => Ok(Response(code, reason, Trimmed(headers), body))
  {
    hide Find, Split, StatusLine, StatusOf, AllLines, Trimmed, FramingOf, BodyOf, Sendable, Splittable, ReadHeaders, Terminated, WellFormedLine;
    var line, lines := StatusLine(code, reason), AllLines(headers);
    var wire := Wire(code, reason, headers, rest);
    StatusLineIsClean(code, reason);
    LinesAreClean(headers);
    WellFormedIsSplittable(lines);
    WireHeadEnd(line, lines, rest);
    WireHeadSplits(line, lines);
    var split := |line| + |Terminated(lines)|;
    assert wire[..split] == (line + CRLF + Terminated(lines))[..split];
    assert wire[split + 4..] == rest;
    StatusReadsBack(code, reason);
    LinesReadBack(headers);
    assert ([line] + lines)[1..] == lines;
  }

  lemma WellFormedIsSplittable(lines: seq<string>)
    requires forall l | l in lines :: WellFormedLine(l)
    ensures forall l | l in lines :: Splittable(l)
  {}

  // --- the two ways of framing ---------------------------------------------

  /** A response framed by neither, cut short by three bytes: accepted, and three bytes shorter. */
  lemma ShortBodyAccepted(max: nat)
    ensures var wire := Wire(200, "OK", [], "whole");
      && Parse(wire, true, max) == Ok(Response(200, "OK", [], "whole"))
      && Parse(wire[..|wire| - 3], true, max) == Ok(Response(200, "OK", [], "wh"))
  {
    hide Parse, StatusLine;
    WireReadsBack(200, "OK", [], "whole", max);
    WireReadsBack(200, "OK", [], "wh", max);
    var wire := Wire(200, "OK", [], "whole");
    assert wire[..|wire| - 3] == Wire(200, "OK", [], "wh");
  }

  predicate Unframed(headers: seq<(string, string)>) {
    forall i | 0 <= i < |headers| ::
      !EqIgnoreCase(headers[i].0, "transfer-encoding") && !EqIgnoreCase(headers[i].0, "content-length")
  }

  lemma {:induction false} HeaderBehind(headers: seq<(string, string)>, h: (string, string), name: string)
    requires forall i | 0 <= i < |headers| :: !EqIgnoreCase(headers[i].0, name)
    ensures Header(Trimmed(headers + [h]), name) == if EqIgnoreCase(h.0, name) then Some(Trim(h.1)) else None
  {
    hide EqIgnoreCase, Trim;
    if |headers| == 0 {
      assert headers + [h] == [h];
    } else {
      assert (headers + [h])[1..] == headers[1..] + [h];
      HeaderBehind(headers[1..], h, name);
      assert Trimmed(headers + [h])[1..] == Trimmed(headers[1..] + [h]);
    }
  }

  const LENGTH_NAME := "Content-Length"
  const CODING_NAME := "Transfer-Encoding"

  lemma FramingNames()
    ensures EqIgnoreCase(LENGTH_NAME, "content-length") && !EqIgnoreCase(LENGTH_NAME, "transfer-encoding")
    ensures EqIgnoreCase(CODING_NAME, "transfer-encoding")
    ensures IsToken(LENGTH_NAME) && IsToken(CODING_NAME)
    ensures Splittable("chunked") && Trim("chunked") == "chunked" && EqIgnoreCase("chunked", "chunked")
  {
    LowerIs(LENGTH_NAME, "content-length");
    LowerIs(CODING_NAME, "transfer-encoding");
    LowerIs("content-length", "content-length");
    LowerIs("transfer-encoding", "transfer-encoding");
  }

  /** A response framed by its length comes back whole, whatever follows it on the stream. */
  lemma LengthFramedReadsBack(
    code: nat, reason: string, headers: seq<(string, string)>, body: string, garbage: string, max: nat)
    requires code <= MAX_U16 && Splittable(reason) && Sendable(headers) && Unframed(headers) && |body| <= max
    ensures var sent := headers + [(LENGTH_NAME, Decimal(|body|))];
      Parse(Wire(code, reason, sent, body + garbage), true, max) == Ok(Response(code, reason, Trimmed(sent), body))
  {
    hide Parse, Wire, Trimmed, Header, EqIgnoreCase, Trim, IsToken, Splittable, Print, ParseUnsigned;
    var h := (LENGTH_NAME, Decimal(|body|));
    FramingNames();
    DecimalIsSplittable(|body|);
    DecimalReads(|body|, max);
    DigitsArePlain(|body|);
    TrimNoSpace(h.1);
    HeaderBehind(headers, h, "transfer-encoding");
    HeaderBehind(headers, h, "content-length");
    WireReadsBack(code, reason, headers + [h], body + garbage, max);
    assert (body + garbage)[..|body|] == body;
  }

  /** So does one in chunked coding, however it is cut into chunks and whatever trails it. */
  lemma ChunkedReadsBack(
    code: nat, reason: string, headers: seq<(string, string)>, chunks: seq<HttpResponse.Chunk>,
    last: HttpResponse.Chunk, trailer: string, max: nat)
    requires code <= MAX_U16 && Splittable(reason) && Sendable(headers) && Unframed(headers)
    requires forall c | c in chunks :: HttpResponse.WellFormed(c, max)
    requires HttpResponse.WellSized(last.sizeText, last.ext, 0, max)
    ensures var sent := headers + [(CODING_NAME, "chunked")];
      Parse(Wire(code, reason, sent, HttpResponse.Encode(chunks, last, trailer)), true, max) ==
      Ok(Response(code, reason, Trimmed(sent), HttpResponse.Payload(chunks)))
  {
    hide Parse, Wire, Trimmed, Header, EqIgnoreCase, Trim, IsToken, Splittable, HttpResponse.Encode, HttpResponse.Payload, Unchunk;
    var h := (CODING_NAME, "chunked");
    FramingNames();
    HeaderBehind(headers, h, "transfer-encoding");
    WireReadsBack(code, reason, headers + [h], HttpResponse.Encode(chunks, last, trailer), max);
    HttpResponse.UnchunkEncode(chunks, last, trailer, max);
  }
}
