/** Which heads ask for compression, told from their header lines alone. */
module Asking {
  import opened Text
  import opened Compress
  import opened Http
  import opened HttpRequest
  import HttpRoundTrip
  import Serve

  /** Header lines as any client may write them. */
  function RawLines(headers: seq<(string, string)>): seq<string> {
    if |headers| == 0 then [] else [headers[0].0 + ":" + headers[0].1] + RawLines(headers[1..])
  }

  /** A request head: a first line, header lines, and a blank line. */
  function Head(first: string, headers: seq<(string, string)>): string {
    first + CRLF + (Terminated(RawLines(headers)) + CRLF)
  }

  /** A first line that begins with a method, not with the header's own name, and header lines free of CR
      and LF under token names. */
  predicate Plain(verb: string, target: string, headers: seq<(string, string)>) {
    && IsToken(verb) && Lower(verb) != "x-quackhole-accept-encoding" && '\r' !in target && '\n' !in target
    && forall i | 0 <= i < |headers| ::
         IsToken(headers[i].0) && '\r' !in headers[i].1 && '\n' !in headers[i].1
  }

  /** Some header of the one name has "gzip" among the comma-separated pieces of its value. */
  predicate SaysGzip(headers: seq<(string, string)>) {
    exists i :: 0 <= i < |headers| && Lower(headers[i].0) == "x-quackhole-accept-encoding" && HasGzip(headers[i].1)
  }

  predicate HasGzip(value: string) {
    exists k :: 0 <= k < |Split(value, ",")| && Lower(Trim(Split(value, ",")[k])) == "gzip"
  }

  lemma ValueAsks(value: string)
    ensures (exists v | v in Split(value, ",") :: EqIgnoreCase(Trim(v), ACCEPT_VALUE)) <==> HasGzip(value)
  {
    LowerIs("gzip", "gzip");
    hide Lower, Trim, Split;
    if v :| v in Split(value, ",") && EqIgnoreCase(Trim(v), ACCEPT_VALUE) {
      var k :| 0 <= k < |Split(value, ",")| && Split(value, ",")[k] == v;
    }
    if HasGzip(value) {
      var k :| 0 <= k < |Split(value, ",")| && Lower(Trim(Split(value, ",")[k])) == "gzip";
      assert Split(value, ",")[k] in Split(value, ",");
    }
  }

  /** One header line asks exactly by its name and its value. */
  lemma HeaderLineAsks(name: string, value: string)
    requires IsToken(name)
    ensures AsksForGzip(name + ":" + value) <==> Lower(name) == "x-quackhole-accept-encoding" && HasGzip(value)
  {
    hide Lower, Trim, Split, HasGzip, Find;
    TokenIsBare(name);
    AcceptNameInLowerCase();
    var line := name + ":" + value;
    NoCharIsClean(name, ':');
    FindAfterClean(name, [':'], value);
    assert line == name + [':'] + value;
    assert line[..|name|] == name && line[|name| + 1..] == value;
    TrimNoSpace(name);
    ValueAsks(value);
  }

  lemma TokenIsBare(name: string)
    requires IsToken(name)
    ensures NoSpace(name) && ':' !in name && |name| > 0 && '\r' !in name && '\n' !in name
  {
    forall c | c in name ensures !IsSpace(c) && c != ':' {
      TokenCharIsPlain(c);
    }
  }

  /** A first line does not ask: what stands in front of its first colon is more than one word, or is not
      the header's name. */
  lemma FirstLineAsksNothing(verb: string, target: string)
    requires IsToken(verb) && Lower(verb) != "x-quackhole-accept-encoding"
    ensures !AsksForGzip(verb + " " + target)
  {
    hide Lower, Trim, Split;
    TokenIsBare(verb);
    var line := verb + " " + target;
    FindFirst(line, ":");
    match Find(line, ":")
    case None =>
    case Some(k) =>
      AtChars(line, k, ":");
      assert k > |verb|;
      var front := line[..k];
      assert front == verb + (" " + line[|verb| + 1..k]);
      WordsInFront(verb, line[|verb| + 1..k]);
      if ' ' in Trim(front) { NameIsOneWord(Trim(front)); }
      AcceptNameInLowerCase();
  }

  /** Trimmed, it still begins with the method; if it goes on, then with a space. */
  lemma WordsInFront(verb: string, more: string)
    requires NoSpace(verb) && |verb| > 0
    ensures var t := Trim(verb + (" " + more)); t == verb || ' ' in t
  {
    var s := verb + (" " + more);
    assert s[0] == verb[0] && verb[0] in verb;
    EndKeepsWord(verb, " " + more);
    var t := TrimEnd(s);
    assert verb <= t;
    if |t| > |verb| { assert t[|verb|] == s[|verb|] == ' '; } else { assert t == verb; }
  }

  lemma {:induction false} EndKeepsWord(verb: string, more: string)
    requires NoSpace(verb) && |verb| > 0
    ensures verb <= TrimEnd(verb + more) <= verb + more
    decreases |more|
  {
    var s := verb + more;
    if |more| == 0 {
      assert s == verb && verb[|verb| - 1] in verb;
    } else {
      assert s[|s| - 1] == more[|more| - 1];
      if IsSpace(more[|more| - 1]) {
        assert s[..|s| - 1] == verb + more[..|more| - 1];
        EndKeepsWord(verb, more[..|more| - 1]);
      }
    }
  }

  /** No text with a space in it is the header's name in any letter case. */
  lemma NameIsOneWord(s: string)
    requires ' ' in s
    ensures !EqIgnoreCase(s, ACCEPT_HEADER)
  {
    AcceptNameInLowerCase();
    var i :| 0 <= i < |s| && s[i] == ' ';
    if Lower(s) == "x-quackhole-accept-encoding" {
      assert Lower(s)[i] == ' ';
      NoSpaceInName(i);
    }
  }

  lemma NoSpaceInName(i: nat)
    ensures i < |"x-quackhole-accept-encoding"| ==> "x-quackhole-accept-encoding"[i] != ' '
  {}

  lemma {:induction false} RawLinesAre(headers: seq<(string, string)>)
    requires forall i | 0 <= i < |headers| :: IsToken(headers[i].0) && Splittable(headers[i].1)
    ensures |RawLines(headers)| == |headers|
    ensures forall i | 0 <= i < |headers| :: RawLines(headers)[i] == headers[i].0 + ":" + headers[i].1
    ensures forall l | l in RawLines(headers) :: WellFormedLine(l)
  {
    hide IsToken;
    if |headers| == 0 {
    } else {
      TokenIsBare(headers[0].0);
      RawLinesAre(headers[1..]);
      assert WellFormedLine(headers[0].0 + ":" + headers[0].1);
      forall i | 1 <= i < |headers| ensures RawLines(headers)[i] == headers[i].0 + ":" + headers[i].1 {
        assert headers[1..][i - 1] == headers[i];
      }
    }
  }

  lemma HeadSplits(first: string, headers: seq<(string, string)>)
    requires Splittable(first) && forall l | l in RawLines(headers) :: WellFormedLine(l)
    ensures Split(Head(first, headers), CRLF) == [first] + RawLines(headers) + ["", ""]
  {
    hide Split;
    var lines := RawLines(headers);
    SplitLine(first, Terminated(lines) + CRLF);
    SplitTerminated(lines, CRLF);
    SplitAppend("", "");
    assert "" + CRLF + "" == CRLF;
    SplittableHasNoCrlf("");
    SplitWhole("");
    assert [first] + (lines + ["", ""]) == [first] + lines + ["", ""];
  }

  lemma EmptyAsksNothing()
    ensures !AsksForGzip("")
  {
    FindFirst("", ":");
  }

  /** Exactly which heads ask: those in which a header of the one name, in any letter case, has "gzip", in
      any letter case, among the pieces of its value. */
  lemma WhatAsks(verb: string, target: string, headers: seq<(string, string)>)
    requires Plain(verb, target, headers)
    ensures WantsCompression(Head(verb + " " + target, headers)) <==> SaysGzip(headers)
  {
    hide Split, AsksForGzip, HasGzip, Lower, IsToken, Head;
    var first, lines := verb + " " + target, RawLines(headers);
    TokenIsBare(verb);
    RawLinesAre(headers);
    HeadSplits(first, headers);
    FirstLineAsksNothing(verb, target);
    EmptyAsksNothing();
    forall i | 0 <= i < |headers|
      ensures AsksForGzip(lines[i]) <==> Lower(headers[i].0) == "x-quackhole-accept-encoding" && HasGzip(headers[i].1)
    {
      HeaderLineAsks(headers[i].0, headers[i].1);
    }
    var all := Split(Head(first, headers), CRLF);
    if WantsCompression(Head(first, headers)) {
      var line :| line in all && AsksForGzip(line);
      assert line == first || line == "" || line in lines;
      var i :| 0 <= i < |lines| && lines[i] == line;
    }
    if SaysGzip(headers) {
      var i :| 0 <= i < |headers| && Lower(headers[i].0) == "x-quackhole-accept-encoding" && HasGzip(headers[i].1);
      assert lines[i] in lines && all[i + 1] == lines[i];
    }
  }

  lemma HeadEndsItself(verb: string, target: string, headers: seq<(string, string)>, body: string)
    requires Plain(verb, target, headers)
    ensures var head := Head(verb + " " + target, headers);
      HeadEnd(head + body) == Some(|head|) && (head + body)[..|head|] == head
  {
    hide IsToken, Lower;
    var first, lines := verb + " " + target, RawLines(headers);
    TokenIsBare(verb);
    RawLinesAre(headers);
    HttpRoundTrip.WireHeadEnd(first, lines, body);
    assert Head(first, headers) + body == first + CRLF + (Terminated(lines) + CRLF + body);
  }

  /** A request that does not ask is answered plainly, however the network cuts it; one that does, in a
      head of at most 16384 bytes, is answered in an envelope, however the network cuts it. */
  lemma AnsweredAsAsked(
    verb: string, target: string, headers: seq<(string, string)>, body: string, pieces: seq<Serve.Read>)
    requires Plain(verb, target, headers) && Serve.Splits(pieces, Head(verb + " " + target, headers) + body)
    ensures Serve.SniffFrom("", pieces).Some?
    ensures !SaysGzip(headers) ==> !Serve.SniffFrom("", pieces).value.1
    ensures SaysGzip(headers) && |Head(verb + " " + target, headers)| <= 16384 ==> Serve.SniffFrom("", pieces).value.1
  {
    hide Plain, Head, HeadEnd, WantsCompression, SaysGzip, Serve.SniffFrom, Serve.Splits;
    var stream := Head(verb + " " + target, headers) + body;
    HeadEndsItself(verb, target, headers, body);
    WhatAsks(verb, target, headers);
    Serve.SniffDecision(pieces, stream);
    if Serve.SniffFrom("", pieces).value.1 { Serve.SniffOnlyIfAsked(pieces, stream); }
  }

  // --- three heads ---------------------------------------------------------

  lemma OnePiece(value: string)
    requires ',' !in value
    ensures Split(value, ",") == [value]
  {
    NoCharIsClean(value, ',');
    FindFirst(value, ",");
    if Find(value, ",").Some? { AtChars(value, Find(value, ",").value, ","); }
  }

  lemma PlainNames()
    ensures IsToken("GET") && IsToken("Accept-Encoding")
  {}

  lemma LongNameIsToken()
    ensures IsToken("X-QuackHole-Accept-Encoding")
  {}

  lemma NamesAreTokens()
    ensures IsToken("GET") && IsToken("Accept-Encoding") && IsToken("X-QuackHole-Accept-Encoding")
    ensures Lower("GET") != "x-quackhole-accept-encoding" && Lower("Accept-Encoding") != "x-quackhole-accept-encoding"
    ensures Lower("X-QuackHole-Accept-Encoding") == "x-quackhole-accept-encoding"
  {
    hide IsToken;
    PlainNames();
    LongNameIsToken();
    LowerIs("X-QuackHole-Accept-Encoding", "x-quackhole-accept-encoding");
    assert |Lower("GET")| == 3 && |Lower("Accept-Encoding")| == 15;
  }

  /** Another header's "gzip" does not ask. */
  lemma AnotherHeadersGzip()
    ensures !WantsCompression(Head("GET / HTTP/1.1", [("Accept-Encoding", " gzip")]))
  {
    hide IsToken, WantsCompression, Head;
    var headers := [("Accept-Encoding", " gzip")];
    NamesAreTokens();
    assert "GET" + " " + "/ HTTP/1.1" == "GET / HTTP/1.1";
    WhatAsks("GET", "/ HTTP/1.1", headers);
    hide Lower;
    assert !SaysGzip(headers);
  }

  /** The right header with another coding does not ask. */
  lemma AnotherCoding()
    ensures !WantsCompression(Head("GET / HTTP/1.1", [("X-QuackHole-Accept-Encoding", " zstd")]))
  {
    hide IsToken, WantsCompression, Head;
    var headers := [("X-QuackHole-Accept-Encoding", " zstd")];
    NamesAreTokens();
    assert "GET" + " " + "/ HTTP/1.1" == "GET / HTTP/1.1";
    WhatAsks("GET", "/ HTTP/1.1", headers);
    ZstdIsNotGzip();
    hide Lower, HasGzip;
  }

  lemma ZstdIsNotGzip()
    ensures !HasGzip(" zstd")
  {
    hide Split, Trim;
    OnePiece(" zstd");
    TrimLeadingSpace("zstd");
    TrimNoSpace("zstd");
    assert " " + "zstd" == " zstd";
    assert Lower("zstd")[0] == 'z';
  }

  /** The right header in other letters, with the coding in second place and in other letters too, asks. */
  lemma SecondInTheList()
    ensures WantsCompression(Head("GET / HTTP/1.1", [("X-QuackHole-Accept-Encoding", "br, GZIP")]))
  {
    hide IsToken, WantsCompression, Head;
    var headers := [("X-QuackHole-Accept-Encoding", "br, GZIP")];
    NamesAreTokens();
    assert "GET" + " " + "/ HTTP/1.1" == "GET / HTTP/1.1";
    WhatAsks("GET", "/ HTTP/1.1", headers);
    TwoPieces();
    LowerIs("GZIP", "gzip");
    hide Lower, Split, Trim;
    assert Split(headers[0].1, ",")[1] == " GZIP";
    assert HasGzip(headers[0].1);
  }

  lemma TwoPieces()
    ensures Split("br, GZIP", ",") == ["br", " GZIP"] && Trim(" GZIP") == "GZIP"
  {
    hide Split;
    NoCharIsClean("br", ',');
    NoCharIsClean(" GZIP", ',');
    var words := ["br", " GZIP"];
    assert words[1..] == [" GZIP"] && Join([" GZIP"], ",") == " GZIP";
    assert Join(words, ",") == "br" + "," + " GZIP" == "br, GZIP";
    SplitJoin(words, ",");
    TrimLeadingSpace("GZIP");
    TrimNoSpace("GZIP");
    assert " " + "GZIP" == " GZIP";
  }
}
