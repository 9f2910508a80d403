/** What decides in a response: which header frames the body, what a head alone keeps, and what odd status
    lines, header lines and chunk sizes are read as. */
module HttpFraming {
  import opened Text
  import opened Numbers
  import opened Http
  import opened HttpRequest
  import opened HttpRoundTrip
  import HttpHead
  import HttpResponse

  // --- any status line -----------------------------------------------------

  /** A response under any status line. */
  function WireUnder(line: string, headers: seq<(string, string)>, rest: string): string {
    line + CRLF + (Terminated(AllLines(headers)) + CRLF + rest)
  }

  lemma AnyWireReads(line: string, headers: seq<(string, string)>, rest: string, expectBody: bool, max: nat)
    requires Splittable(line) && Sendable(headers)
    ensures Parse(WireUnder(line, headers, rest), expectBody, max) ==
            if !expectBody then Ok(Response(StatusOf(line).0, StatusOf(line).1, Trimmed(headers), ""))
            else
              match BodyOf(rest, FramingOf(Trimmed(headers), max), max)
              case Err(e) => Err(e)
              case Ok(body) => Ok(Response(StatusOf(line).0, StatusOf(line).1, Trimmed(headers), body))
  {
    hide Find, Split, StatusOf, AllLines, Trimmed, FramingOf, BodyOf, Sendable, Splittable, ReadHeaders, Terminated, WellFormedLine;
    var lines := AllLines(headers);
    var wire := WireUnder(line, headers, rest);
    LinesAreClean(headers);
    WellFormedIsSplittable(lines);
    WireHeadEnd(line, lines, rest);
    WireHeadSplits(line, lines);
    var split := |line| + |Terminated(lines)|;
    assert wire[..split] == (line + CRLF + Terminated(lines))[..split];
    assert wire[split + 4..] == rest;
    LinesReadBack(headers);
    assert ([line] + lines)[1..] == lines;
  }

  /** A response to HEAD keeps its status, its reason and its headers, whatever length they promise and
      whatever follows; only the body is empty. */
  lemma HeadKeepsItsHead(code: nat, reason: string, headers: seq<(string, string)>, rest: string, max: nat)
    requires code <= 65535 && Splittable(reason) && Sendable(headers)
    ensures Parse(Wire(code, reason, headers, rest), false, max) == Ok(Response(code, reason, Trimmed(headers), ""))
  {
    hide StatusOf, StatusLine, Sendable, Trimmed;
    StatusLineIsClean(code, reason);
    StatusReadsBack(code, reason);
    AnyWireReads(StatusLine(code, reason), headers, rest, false, max);
  }

  /** Without a blank line there is no response, body or not. */
  lemma NoHeadIsAnError(bytes: string, expectBody: bool, max: nat)
    requires !Contains(bytes, CRLFCRLF)
    ensures Parse(bytes, expectBody, max) == Err(NoHeadEnd)
  {
    FindFirst(bytes, CRLFCRLF);
  }

  /** What a status line is read as: a second word that is no number up to 65535 is status 0, the rest of the
      line is the reason, and what is missing is 0 or empty. No status line is an error. */
  lemma OddStatusLines(version: string, code: string, reason: string)
    requires ' ' !in version && ' ' !in code
    ensures StatusOf(version) == (0, "")
    ensures StatusOf(version + [' '] + code).1 == "" && StatusOf(version + [' '] + (code + [' '] + reason)).1 == reason
    ensures match ParseUnsigned(code, 10, 65535)
            case None => StatusOf(version + [' '] + code).0 == 0 && StatusOf(version + [' '] + (code + [' '] + reason)).0 == 0
            case Some(n) => StatusOf(version + [' '] + code).0 == n && StatusOf(version + [' '] + (code + [' '] + reason)).0 == n
  {
    hide Find, ParseUnsigned;
    NoSpaceNoSplit(version);
    NoSpaceNoSplit(code);
    OnceAtSpace(version, code);
    OnceAtSpace(version, code + [' '] + reason);
    OnceAtSpace(code, reason);
  }

  lemma NoSpaceNoSplit(s: string)
    requires ' ' !in s
    ensures SplitOnce(s, ' ') == None
  {
    FindFirst(s, [' ']);
    if Find(s, [' ']).Some? { AtChars(s, Find(s, [' ']).value, [' ']); }
  }

  /** A line without a colon is passed over. */
  lemma LineWithoutColonIsSkipped(a: seq<string>, line: string, b: seq<string>)
    requires ':' !in line
    ensures ReadHeaders(a + [line] + b) == ReadHeaders(a + b)
  {
    FindFirst(line, [':']);
    if Find(line, [':']).Some? { AtChars(line, Find(line, [':']).value, [':']); }
    HttpHead.ReadHeadersAppend(a, [line]);
    HttpHead.ReadHeadersAppend(a + [line], b);
    HttpHead.ReadHeadersAppend(a, b);
    assert [line][1..] == [];
  }

  // --- which header frames the body ----------------------------------------

  /** `k` is the first header of that name, or past the end if there is none. */
  predicate FirstNamed(headers: seq<(string, string)>, name: string, k: nat) {
    k <= |headers| && (forall j | 0 <= j < k :: Lower(headers[j].0) != name) && (k < |headers| ==> Lower(headers[k].0) == name)
  }

  lemma {:induction false} HeaderAt(headers: seq<(string, string)>, name: string, k: nat)
    requires Lower(name) == name && FirstNamed(headers, name, k)
    ensures Header(Trimmed(headers), name) == if k < |headers| then Some(Trim(headers[k].1)) else None
  {
    hide Lower, Trim;
    if |headers| == 0 {
    } else if k == 0 {
      assert Trimmed(headers)[0] == (headers[0].0, Trim(headers[0].1));
    } else {
      HeaderAt(headers[1..], name, k - 1);
      assert Trimmed(headers)[1..] == Trimmed(headers[1..]);
    }
  }

  lemma FramingDecided(headers: seq<(string, string)>, t: nat, k: nat, max: nat)
    requires FirstNamed(headers, "transfer-encoding", t) && FirstNamed(headers, "content-length", k)
    ensures FramingOf(Trimmed(headers), max) ==
            if t < |headers| && Lower(Trim(headers[t].1)) == "chunked" then Chunked
            else if k < |headers| && ParseUnsigned(Trim(headers[k].1), 10, max).Some? then
              Length(ParseUnsigned(Trim(headers[k].1), 10, max).value)
            else ToTheEnd
  {
    hide Lower, Trim, Header, ParseUnsigned, EqIgnoreCase, FirstNamed, Trimmed;
    HttpHead.LowerNames();
    HeaderAt(headers, "transfer-encoding", t);
    HeaderAt(headers, "content-length", k);
    Bounded(headers, "transfer-encoding", t);
    Bounded(headers, "content-length", k);
    if t < |headers| { ChunkedWord(Trim(headers[t].1)); }
  }

  lemma Bounded(headers: seq<(string, string)>, name: string, k: nat)
    requires FirstNamed(headers, name, k)
    ensures k <= |headers|
  {}

  lemma ChunkedWord(value: string)
    ensures EqIgnoreCase(value, "chunked") <==> Lower(value) == "chunked"
  {
    LowerIs("chunked", "chunked");
  }

  /** The first Transfer-Encoding decides: "chunked", in any letter case, means chunks, whatever lengths are
      promised beside it. */
  lemma ChunkedBeatsLength(
    line: string, headers: seq<(string, string)>, t: nat, chunks: seq<HttpResponse.Chunk>, last: HttpResponse.Chunk,
    trailer: string, max: nat)
    requires Splittable(line) && Sendable(headers)
    requires FirstNamed(headers, "transfer-encoding", t) && t < |headers| && Lower(Trim(headers[t].1)) == "chunked"
    requires forall c | c in chunks :: HttpResponse.WellFormed(c, max)
    requires HttpResponse.WellSized(last.sizeText, last.ext, 0, max)
    ensures Parse(WireUnder(line, headers, HttpResponse.Encode(chunks, last, trailer)), true, max) ==
            Ok(Response(StatusOf(line).0, StatusOf(line).1, Trimmed(headers), HttpResponse.Payload(chunks)))
  {
    hide StatusOf, Sendable, Trimmed, Unchunk, HttpResponse.Encode, HttpResponse.Payload, Parse, WireUnder, FirstNamed, FramingOf;
    var k := FirstOf(headers, "content-length");
    FramingDecided(headers, t, k, max);
    AnyWireReads(line, headers, HttpResponse.Encode(chunks, last, trailer), true, max);
    HttpResponse.UnchunkEncode(chunks, last, trailer, max);
  }

  lemma {:induction false} FirstOf(headers: seq<(string, string)>, name: string) returns (k: nat)
    ensures FirstNamed(headers, name, k)
  {
    hide Lower;
    if |headers| == 0 {
      k := 0;
    } else if Lower(headers[0].0) == name {
      k := 0;
    } else {
      var k' := FirstOf(headers[1..], name);
      k := k' + 1;
      forall j | 0 <= j < k ensures Lower(headers[j].0) != name {
        if j > 0 { assert headers[1..][j - 1] == headers[j]; }
      }
    }
  }

  /** Without chunks, the first Content-Length decides: as many bytes as it says, or an error if there are
      fewer. */
  lemma FirstLengthDecides(
    line: string, headers: seq<(string, string)>, t: nat, k: nat, rest: string, n: nat, max: nat)
    requires Splittable(line) && Sendable(headers)
    requires FirstNamed(headers, "transfer-encoding", t) && (t < |headers| ==> Lower(Trim(headers[t].1)) != "chunked")
    requires FirstNamed(headers, "content-length", k) && k < |headers| && ParseUnsigned(Trim(headers[k].1), 10, max) == Some(n)
    ensures n <= |rest| ==> Parse(WireUnder(line, headers, rest), true, max) ==
                            Ok(Response(StatusOf(line).0, StatusOf(line).1, Trimmed(headers), rest[..n]))
    ensures n > |rest| ==> Parse(WireUnder(line, headers, rest), true, max).Err?
  {
    hide StatusOf, Sendable, Trimmed, Parse, WireUnder, FirstNamed, FramingOf, ParseUnsigned;
    FramingDecided(headers, t, k, max);
    AnyWireReads(line, headers, rest, true, max);
  }

  /** With neither, or with a first Content-Length that is no number, the body is everything that follows. */
  lemma NeitherRunsToTheEnd(line: string, headers: seq<(string, string)>, t: nat, k: nat, rest: string, max: nat)
    requires Splittable(line) && Sendable(headers)
    requires FirstNamed(headers, "transfer-encoding", t) && (t < |headers| ==> Lower(Trim(headers[t].1)) != "chunked")
    requires FirstNamed(headers, "content-length", k) && (k < |headers| ==> ParseUnsigned(Trim(headers[k].1), 10, max) == None)
    ensures Parse(WireUnder(line, headers, rest), true, max) ==
            Ok(Response(StatusOf(line).0, StatusOf(line).1, Trimmed(headers), rest))
  {
    hide StatusOf, Sendable, Trimmed, Parse, WireUnder, FirstNamed, FramingOf, ParseUnsigned;
    FramingDecided(headers, t, k, max);
    AnyWireReads(line, headers, rest, true, max);
  }

  // --- chunk sizes ---------------------------------------------------------

  /** What a size line is taken for: no number is an error, a size past the data is an error, zero is the
      end; and without a whole size line there is nothing but an error. */
  lemma SizeLineDecides(sizeText: string, ext: string, rest: string, max: nat)
    requires ';' !in sizeText && (|ext| > 0 ==> ext[0] == ';') && !Contains(sizeText + ext, CRLF)
    ensures Unchunk(sizeText + ext, max).Err?
    ensures match ParseUnsigned(Trim(sizeText), 16, max)
            case None => Unchunk(sizeText + ext + CRLF + rest, max).Err?
            case Some(n) =>
              && (n > |rest| ==> Unchunk(sizeText + ext + CRLF + rest, max).Err?)
              && (n == 0 ==> Unchunk(sizeText + ext + CRLF + rest, max) == Ok(""))
  {
    hide ParseUnsigned, Trim;
    var line := sizeText + ext;
    var data := line + CRLF + rest;
    FindFirst(line, CRLF);
    NoCrlfIsClean(line);
    FindAfterClean(line, CRLF, rest);
    assert data[..|line|] == line && data[|line| + 2..] == rest;
    HttpResponse.SizeTextOf(sizeText, ext);
  }

  /** Exactly what is a number: behind one plus sign or none, at least one digit and digits alone, worth no
      more than the largest of the machine; and it is what they are worth. */
  lemma NumberExactly(s: string, radix: nat, max: nat)
    requires radix == 10 || radix == 16
    ensures var digits := if |s| > 0 && s[0] == '+' then s[1..] else s;
            ParseUnsigned(s, radix, max) ==
            if |digits| > 0 && (forall i | 0 <= i < |digits| :: IsDigit(digits[i], radix)) && Worth(digits, radix) <= max
            then Some(Worth(digits, radix)) else None
  {
    var digits := if |s| > 0 && s[0] == '+' then s[1..] else s;
    hide Value, Worth, IsDigit;
    ValueIsWorth(digits, radix);
  }

  /** A number past the largest is none. */
  lemma TooLargeIsNone(n: nat, upper: bool, max: nat)
    requires n > max
    ensures ParseUnsigned(Print(n, 16, upper), 16, max) == None
  {
    hide Value, Print;
    ValuePrint(n, 16, upper);
    var digits := Print(n, 16, upper);
    assert digits[0] in digits;
  }

  /** A few numbers spelled out. */
  lemma SomeNumbers()
    ensures Value("fF", 16) == Some(255) && Value("007", 10) == Some(7) && Value("12", 10) == Some(12)
    ensures Decimal(1024) == "1024"
  {
    ValueOfNothing(16);
    ValueOfNothing(10);
    ValueSnoc("", 'f', 16);
    ValueSnoc("f", 'F', 16);
    ValueSnoc("", '1', 10);
    ValueSnoc("1", '2', 10);
    ValueSnoc("", '0', 10);
    ValueSnoc("0", '0', 10);
    ValueSnoc("00", '7', 10);
    assert "" + "f" == "f" && "f" + "F" == "fF" && "" + "1" == "1" && "1" + "2" == "12";
    assert "" + "0" == "0" && "0" + "0" == "00" && "00" + "7" == "007";
    PrintsDigits();
  }

  lemma PrintsDigits()
    ensures Decimal(1024) == "1024"
  {
    assert Print(1, 10, false) == "1";
    assert Print(10, 10, false) == Print(1, 10, false) + "0" == "10";
    assert Print(102, 10, false) == Print(10, 10, false) + "2" == "102";
    assert Print(1024, 10, false) == Print(102, 10, false) + "4";
  }
}
