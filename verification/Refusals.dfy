/** What a ticket or an address must be to be taken, told from its text: every way a paste is refused, and
    exactly which hosts hold an endpoint id. */
module Refusals {
  import opened Text
  import opened Encoding
  import opened Peers

  // --- tickets -------------------------------------------------------------

  /** No ticket is made without a relay, and one is made of every other peer. */
  lemma TicketNeedsARelay(p: Peer)
    requires ByteFields(p)
    ensures ToTicket(p).None? <==> p.relayUrl == ""
  {}

  /** What is wrong with a paste that holds no ticket at all. */
  lemma NoTicketInIt(keys: KeyParser, input: string)
    ensures Trim(input) == "" ==> ParseTicket(keys, input) == Refused(NothingPasted)
    ensures Trim(input) != "" && !Contains(Trim(input), "qh1_") ==>
              ParseTicket(keys, input) == Refused(if |Trim(input)| < 60 && ' ' !in Trim(input) then LooksLikeAnId else NoTicket)
  {
    hide Trim;
    FindFirst(Trim(input), "qh1_");
  }

  /** A whole ticket is refused, by name, exactly if its id is missing, its relay is missing, or its id is no
      key; otherwise it gives the peer, id in printed form, relay trimmed, token as it is. */
  lemma TicketsRefused(keys: KeyParser, id: string, relay: string, token: string)
    requires IsBytes(id) && IsBytes(relay) && IsBytes(token)
    ensures IsBytes(TicketText(Peer(id, relay, token)))
    ensures ParseTicket(keys, "qh1_" + Encode(TicketText(Peer(id, relay, token)))) ==
            if id == "" then Refused(NoId)
            else if relay == "" then Refused(NoRelay)
            else if keys(id).None? then Refused(BadId)
            else Found(Peer(keys(id).value, Trim(relay), token))
  {
    var p := Peer(id, relay, token);
    TicketTextIsBytes(p);
    TicketTextIsLong(p);
    EncodeIsPlain(TicketText(p));
    DecodeEncode(TicketText(p));
    TicketTextReads(p);
    hide TicketText, Encode, Decode, ReadTicket, FindTicket, Contains;
    AloneIsFound(Encode(TicketText(p)));
    assert ("qh1_" + Encode(TicketText(p)))[4..] == Encode(TicketText(p));
  }

  lemma AloneIsFound(run: string)
    requires |run| > 0 && forall i | 0 <= i < |run| :: TicketChar(run[i])
    ensures var s := "qh1_" + run; Trim(s) == s && s != "" && FindTicket(s) == Some(s)
  {
    hide FindTicket, Trim, Contains;
    var s := "qh1_" + run;
    NothingIsClean();
    PasteFinds("", run, "");
    assert "" + (TICKET_PREFIX + run) + "" == s;
    forall c | c in s ensures !IsSpace(c) {
      var i :| 0 <= i < |s| && s[i] == c;
      if i >= 4 { assert s[i] == run[i - 4]; }
    }
    TrimNoSpace(s);
  }

  lemma NothingIsClean()
    ensures !Contains("", TICKET_PREFIX)
  {}

  /** A run cut to a length no encoding has decodes to nothing. */
  lemma {:induction false} OddLengthDecodesNot(t: string)
    requires |t| % 4 == 1
    ensures Decode(t) == None
  {
    hide SymbolValue;
    if |t| == 1 {
    } else {
      OddLengthDecodesNot(t[4..]);
    }
  }

  lemma CutTicketIsDamaged(keys: KeyParser, run: string)
    requires |run| % 4 == 1 && forall i | 0 <= i < |run| :: TicketChar(run[i])
    ensures ParseTicket(keys, "qh1_" + run) == Refused(Damaged)
  {
    OddLengthDecodesNot(run);
    hide Decode, FindTicket;
    AloneIsFound(run);
    assert ("qh1_" + run)[4..] == run;
  }

  // --- addresses -----------------------------------------------------------

  /** Exactly which hosts are ours, in a URL with any scheme, port and path: those that end in ".iroh", in any
      letter case, and have something in front of it; and that is the id, as it stands. */
  lemma WhichHostsAreOurs(scheme: string, host: string, port: string, path: string)
    requires forall i | 0 <= i < |scheme| :: scheme[i] != ':' && !IsSpace(scheme[i])
    requires |host| > 0 && forall i | 0 <= i < |host| :: host[i] != ':' && host[i] != '/' && !IsSpace(host[i])
    requires IsPort(port) && IsPath(path)
    ensures ParseAddress(scheme + "://" + (host + port) + path) ==
            if |host| > 5 && Lower(host[|host| - 5..]) == ".iroh" then Some(host[..|host| - 5]) else None
  {
    var s := scheme + "://" + (host + port) + path;
    assert s[|scheme|..|scheme| + 3] == "://";
    forall i: nat | i < |scheme| ensures !At(s, i, "://") {
      if At(s, i, "://") { AtChars(s, i, "://"); }
    }
    FindIs(s, "://", |scheme|);
    UrlAuthority(scheme, host + port, path);
    hide Find, FindLast, Lower, TrimEnd, Trim;
    AuthorityOf(host + port, TrimEnd(path));
    HostOf(host, port);
    LowerEnd(host);
  }

  lemma NoMark(rest: string)
    requires forall i | 0 <= i < |rest| :: rest[i] != ':'
    requires |rest| >= 2 ==> rest[0] != '/' || rest[1] != '/'
    ensures forall i: nat :: !At(":" + rest, i, "://")
  {
    var s := ":" + rest;
    forall i: nat ensures !At(s, i, "://") {
      if i + 3 <= |s| && i > 0 {
        assert s[i..i + 3][0] == rest[i - 1];
      } else if 3 <= |s| {
        assert s[0..3][1] == rest[0] && s[0..3][2] == rest[1];
      }
    }
  }

  /** A colon in front is no scheme, so what stands behind it is a port at most, never an id. */
  lemma ColonInFront(rest: string)
    requires forall i | 0 <= i < |rest| :: rest[i] != ':' && !IsSpace(rest[i])
    requires |rest| >= 2 ==> rest[0] != '/' || rest[1] != '/'
    ensures ParseAddress(":" + rest) == None
  {
    var s := ":" + rest;
    TrimNoSpace(s);
    NoMark(rest);
    FindFirst(s, "://");
    FindCharIs(s, ':', 0);
    var authority := CutAt(s, Find(s, "/"));
    assert forall i | 0 < i < |authority| :: authority[i] != ':';
  }

  lemma LowerEnd(host: string)
    ensures |host| >= 5 ==> Lower(host)[|host| - 5..] == Lower(host[|host| - 5..])
  {}

  lemma UrlAuthority(scheme: string, authority: string, path: string)
    requires forall i | 0 <= i < |scheme| :: scheme[i] != ':' && !IsSpace(scheme[i])
    requires |authority| > 0 && !IsSpace(authority[|authority| - 1]) && IsPath(path)
    requires Find(scheme + "://" + authority + path, "://") == Some(|scheme|)
    ensures StripScheme(Trim(scheme + "://" + authority + path)) == authority + TrimEnd(path) && IsPath(TrimEnd(path))
  {
    hide TrimEnd, TrimStart, Trim, Find;
    var front := scheme + "://" + authority;
    assert front[0] == if |scheme| > 0 then scheme[0] else ':';
    assert front[|front| - 1] == authority[|authority| - 1];
    TrimHost(front, path);
    var s := front + TrimEnd(path);
    assert (front + path)[..|s|] == s;
    FindInCut(front + path, "://", |s|);
    assert s[|scheme| + 3..] == authority + TrimEnd(path);
  }

  // --- the texts themselves ------------------------------------------------

  /** RFC 4648, section 10, without the padding; and the two symbols that are not base64's. */
  lemma KnownEncodings()
    ensures Encode("") == "" && Encode("f") == "Zg" && Encode("fo") == "Zm8" && Encode("foo") == "Zm9v"
    ensures Encode("foob") == "Zm9vYg" && Encode("fooba") == "Zm9vYmE" && Encode("foobar") == "Zm9vYmFy"
    ensures Encode([251 as char, 255 as char, 255 as char]) == "-___"
  {
    ShortEncodings();
    LongEncodings();
    OwnSymbols();
  }

  lemma ShortEncodings()
    ensures Encode("") == "" && Encode("f") == "Zg" && Encode("fo") == "Zm8" && Encode("foo") == "Zm9v"
  {
    assert "foo"[3..] == "";
  }

  lemma LongEncodings()
    ensures Encode("foob") == "Zm9vYg" && Encode("fooba") == "Zm9vYmE" && Encode("foobar") == "Zm9vYmFy"
  {
    assert "foob"[3..] == "b" && "fooba"[3..] == "ba" && "foobar"[3..] == "bar" && "bar"[3..] == "";
  }

  lemma OwnSymbols()
    ensures Encode([251 as char, 255 as char, 255 as char]) == "-___"
  {
    assert [251 as char, 255 as char, 255 as char][3..] == "";
  }

  lemma KnownLiterals()
    ensures EscapeChar('"') == "\\\"" && EscapeChar('\\') == "\\\\" && EscapeChar('\n') == "\\n"
    ensures EscapeChar(1 as char) == "\\u0001" && EscapeChar(31 as char) == "\\u001f" && EscapeChar('/') == "/"
    ensures Literal("ab") == "\"ab\""
  {
    assert "ab"[1..] == "b" && "b"[1..] == "";
    assert EscapeString("b") == "b" + "";
    assert EscapeString("ab") == "a" + EscapeString("b");
  }

  /** What a ticket holds, before it is encoded. */
  lemma KnownTicketText()
    ensures TicketText(Peer("i", "u", "s")) == "{\"e\":\"i\",\"r\":\"u\",\"t\":\"s\"}"
  {
    OneLetter("i");
    OneLetter("u");
    OneLetter("s");
    OneLetter("e");
    OneLetter("r");
    OneLetter("t");
    hide Literal;
  }

  lemma OneLetter(s: string)
    requires s in {"i", "u", "s", "e", "r", "t"}
    ensures Literal(s) == "\"" + s + "\""
  {
    assert s[1..] == "" && s == [s[0]];
  }
}
