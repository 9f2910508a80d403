/** Peer identity: the ticket one machine prints and another reads, and the address dialled. */
module Peers {
  import opened Text
  import opened Encoding

  const QUACK_PORT := "9494"
  const TICKET_PREFIX := "qh1_"
  const IROH_SUFFIX := ".iroh"

  datatype Peer = Peer(endpointId: string, relayUrl: string, token: string)

  /** The key parser behind an endpoint id: any accepted form, in the one form ids are printed in. */
  type KeyParser = string -> Option<string>

  ghost predicate Idempotent(keys: KeyParser) {
    forall s: string :: keys(s).Some? ==> keys(keys(s).value) == keys(s)
  }

  function New(keys: KeyParser, id: string, relay: string, token: string): Option<Peer> {
    match keys(id)
    case None => None
    case Some(z32) => Some(Peer(z32, Trim(relay), token))
  }

  /** What every peer made by `New` is. */
  predicate Canonical(keys: KeyParser, p: Peer) {
    keys(p.endpointId) == Some(p.endpointId) && Trim(p.relayUrl) == p.relayUrl
  }

  lemma {:induction false} TrimStartAgain(s: string)
    ensures TrimStart(TrimStart(s)) == TrimStart(s)
    ensures |TrimStart(s)| > 0 ==> !IsSpace(TrimStart(s)[0])
  {
    if |s| == 0 || !IsSpace(s[0]) {
    } else {
      TrimStartAgain(s[1..]);
    }
  }

  lemma {:induction false} TrimEndKeepsStart(s: string)
    ensures TrimEnd(TrimEnd(s)) == TrimEnd(s)
    ensures |s| > 0 && !IsSpace(s[0]) ==> |TrimEnd(s)| > 0 && TrimEnd(s)[0] == s[0]
  {
    if |s| == 0 || !IsSpace(s[|s| - 1]) {
    } else {
      TrimEndKeepsStart(s[..|s| - 1]);
    }
  }

  lemma TrimAgain(s: string)
    ensures Trim(Trim(s)) == Trim(s)
  {
    TrimStartAgain(s);
    TrimEndKeepsStart(TrimStart(s));
  }

  lemma NewIsCanonical(keys: KeyParser, id: string, relay: string, token: string)
    requires Idempotent(keys) && New(keys, id, relay, token).Some?
    ensures Canonical(keys, New(keys, id, relay, token).value)
  {
    TrimAgain(relay);
  }

  // --- the ticket ----------------------------------------------------------

  function Member(key: string, value: string): string {
    Literal(key) + ":" + Literal(value)
  }

  function TicketText(p: Peer): string {
    "{" + Member("e", p.endpointId) + "," + Member("r", p.relayUrl) + "," + Member("t", p.token) + "}"
  }

  predicate ByteFields(p: Peer) {
    IsBytes(p.endpointId) && IsBytes(p.relayUrl) && IsBytes(p.token)
  }

  lemma MemberIsBytes(key: string, value: string)
    requires IsBytes(key) && IsBytes(value)
    ensures IsBytes(Member(key, value))
  {
    hide EscapeString;
    EscapedIsBytes(key);
    EscapedIsBytes(value);
  }

  lemma TicketTextIsBytes(p: Peer)
    requires ByteFields(p)
    ensures IsBytes(TicketText(p))
  {
    hide Member;
    MemberIsBytes("e", p.endpointId);
    MemberIsBytes("r", p.relayUrl);
    MemberIsBytes("t", p.token);
  }

  /** Refused without a relay. */
  function ToTicket(p: Peer): Option<string>
    requires ByteFields(p)
  {
    if p.relayUrl == "" then None
    else
      TicketTextIsBytes(p);
      Some(TICKET_PREFIX + Encode(TicketText(p)))
  }

  datatype Fields = Fields(e: Option<string>, r: Option<string>, t: Option<string>)

  function SkipSpace(s: string): (r: string)
    ensures |r| <= |s|
  {
    if |s| > 0 && (s[0] == ' ' || s[0] == '\t' || s[0] == '\n' || s[0] == '\r') then SkipSpace(s[1..]) else s
  }

  /** A known field must not come twice; an unknown one is passed over. */
  function PutField(f: Fields, key: string, value: string): Option<Fields> {
    if key == "e" then (if f.e.Some? then None else Some(f.(e := Some(value))))
    else if key == "r" then (if f.r.Some? then None else Some(f.(r := Some(value))))
    else if key == "t" then (if f.t.Some? then None else Some(f.(t := Some(value))))
    else Some(f)
  }

  /** `c`, after any white space: the text behind it. */
  function Expect(s: string, c: char): (r: Option<string>)
    ensures r.Some? ==> |r.value| < |s|
  {
    var t := SkipSpace(s);
    if |t| > 0 && t[0] == c then Some(t[1..]) else None
  }

  function ReadLiteral(s: string): (r: Option<(string, string)>)
    ensures r.Some? ==> |r.value.1| < |s|
  {
    match Expect(s, '"')
    case None => None
    case Some(t) => ReadString(t)
  }

  function ReadMember(s: string): (r: Option<(string, string, string)>)
    ensures r.Some? ==> |r.value.2| < |s|
  {
    match ReadLiteral(s)
    case None => None
    case Some((key, s1)) =>
      match Expect(s1, ':')
      case None => None
      case Some(s2) =>
        match ReadLiteral(s2)
        case None => None
        case Some((value, s3)) => Some((key, value, s3))
  }

  /** The members up to and including the closing brace, and the text behind it. */
  function ReadMembers(s: string, f: Fields): Option<(Fields, string)>
    decreases |s|
  {
    match ReadMember(s)
    case None => None
    case Some((key, value, rest)) =>
      match PutField(f, key, value)
      case None => None
      case Some(f') =>
        match (Expect(rest, ','), Expect(rest, '}'))
        case (Some(more), _) => ReadMembers(more, f')
        case (None, Some(behind)) => Some((f', behind))
        case _ => None
  }

  const NO_FIELDS := Fields(None, None, None)

  /** What stands between the braces, which may be nothing. */
  function ReadInside(s: string): Option<(Fields, string)> {
    match Expect(s, '}')
    case Some(behind) => Some((NO_FIELDS, behind))
    case None => ReadMembers(s, NO_FIELDS)
  }

  /** The three fields of a ticket; the relay and the token may be missing, the id may not. */
  function ReadTicket(s: string): Option<(string, string, string)> {
    match Expect(s, '{')
    case None => None
    case Some(inside) =>
      match ReadInside(inside)
      case None => None
      case Some((f, behind)) =>
        if SkipSpace(behind) != "" || f.e.None? then None
        else Some((f.e.value, if f.r.Some? then f.r.value else "", if f.t.Some? then f.t.value else ""))
  }

  /** How many ticket characters `s` begins with. */
  function RunLength(s: string): (n: nat)
    ensures n <= |s|
  {
    if |s| > 0 && TicketChar(s[0]) then 1 + RunLength(s[1..]) else 0
  }

  /** The first ticket prefix and the ticket characters behind it; None if there are none of either. */
  function FindTicket(text: string): (r: Option<string>)
    ensures r.Some? ==> |r.value| > |TICKET_PREFIX|
  {
    match Find(text, TICKET_PREFIX)
    case None => None
    case Some(at) =>
      var n := RunLength(text[at + 4..]);
      if n == 0 then None else Some(text[at..at + 4 + n])
  }

  datatype TicketError = NothingPasted | LooksLikeAnId | NoTicket | Damaged | NoId | NoRelay | BadId

  datatype Parsed = Found(peer: Peer) | Refused(why: TicketError)

  function ParseTicket(keys: KeyParser, input: string): Parsed {
    var raw := Trim(input);
    if raw == "" then Refused(NothingPasted)
    else
      match FindTicket(raw)
      case None => Refused(if |raw| < 60 && ' ' !in raw then LooksLikeAnId else NoTicket)
      case Some(found) => FromTicket(keys, found)
  }

  /** What the ticket itself says. */
  function FromTicket(keys: KeyParser, found: string): Parsed
    requires |found| >= |TICKET_PREFIX|
  {
    match Decode(found[|TICKET_PREFIX|..])
    case None => Refused(Damaged)
    case Some(json) =>
      match ReadTicket(json)
      case None => Refused(Damaged)
      case Some((e, r, t)) =>
        if e == "" then Refused(NoId)
        else if r == "" then Refused(NoRelay)
        else
          match New(keys, e, r, t)
          case None => Refused(BadId)
          case Some(peer) => Found(peer)
  }

  // --- reading the JSON back -----------------------------------------------

  lemma LiteralReads(s: string, rest: string)
    ensures ReadLiteral(Literal(s) + rest) == Some((s, rest))
  {
    var text := Literal(s) + rest;
    LiteralReadsBack(s, rest);
    assert text[1..] == EscapeString(s) + "\"" + rest;
    assert SkipSpace(text) == text;
  }

  lemma MemberReads(key: string, value: string, rest: string)
    ensures ReadMember(Member(key, value) + rest) == Some((key, value, rest))
  {
    var s1, s2 := ":" + Literal(value) + rest, Literal(value) + rest;
    hide ReadString, EscapeString;
    assert Member(key, value) + rest == Literal(key) + s1;
    LiteralReads(key, s1);
    assert s1[1..] == s2;
    LiteralReads(value, rest);
  }

  lemma MembersRead(key: string, value: string, more: string, f: Fields)
    requires PutField(f, key, value).Some?
    ensures ReadMembers(Member(key, value) + ("," + more), f) == ReadMembers(more, PutField(f, key, value).value)
    ensures ReadMembers(Member(key, value) + ("}" + more), f) == Some((PutField(f, key, value).value, more))
  {
    MemberReads(key, value, "," + more);
    MemberReads(key, value, "}" + more);
    hide ReadMember, Member, PutField;
    assert ("," + more)[1..] == more && ("}" + more)[1..] == more;
  }

  lemma MemberStarts(key: string, value: string)
    ensures |Member(key, value)| > 0 && Member(key, value)[0] == '"'
  {}

  lemma BracesRead(inside: string, f: Fields)
    requires |inside| > 0 && inside[0] == '"' && ReadMembers(inside, NO_FIELDS) == Some((f, "")) && f.e.Some?
    ensures ReadTicket("{" + inside) == Some((f.e.value, if f.r.Some? then f.r.value else "", if f.t.Some? then f.t.value else ""))
  {
    hide ReadMembers;
    assert ("{" + inside)[1..] == inside;
    assert SkipSpace("{" + inside) == "{" + inside && SkipSpace(inside) == inside;
  }

  lemma TicketTextReads(p: Peer)
    ensures ReadTicket(TicketText(p)) == Some((p.endpointId, p.relayUrl, p.token))
  {
    hide Member, ReadMembers, ReadTicket;
    var f1 := NO_FIELDS.(e := Some(p.endpointId));
    var f2 := f1.(r := Some(p.relayUrl));
    var m3 := Member("t", p.token) + ("}" + "");
    var m2 := Member("r", p.relayUrl) + ("," + m3);
    var m1 := Member("e", p.endpointId) + ("," + m2);
    MembersRead("e", p.endpointId, m2, NO_FIELDS);
    MembersRead("r", p.relayUrl, m3, f1);
    MembersRead("t", p.token, "", f2);
    MemberStarts("e", p.endpointId);
    BracesRead(m1, f2.(t := Some(p.token)));
    assert TicketText(p) == "{" + m1;
  }

  // --- finding the ticket --------------------------------------------------

  lemma {:induction false} TrimStartBefore(b: string, x: string)
    requires |x| > 0 && !IsSpace(x[0])
    ensures TrimStart(b + x) == TrimStart(b) + x
    ensures Contains(TrimStart(b), TICKET_PREFIX) ==> Contains(b, TICKET_PREFIX)
  {
    if |b| > 0 && IsSpace(b[0]) {
      assert (b + x)[1..] == b[1..] + x;
      TrimStartBefore(b[1..], x);
      if Contains(b[1..], TICKET_PREFIX) {
        var i: nat :| i <= |b[1..]| && At(b[1..], i, TICKET_PREFIX);
        assert b == [b[0]] + b[1..];
        AtInSuffix([b[0]], b[1..], i + 1, TICKET_PREFIX);
        assert At(b, i + 1, TICKET_PREFIX);
      }
    } else {
      assert |b| == 0 ==> b + x == x;
    }
  }

  lemma {:induction false} TrimEndAfter(x: string, a: string)
    requires |x| > 0 && !IsSpace(x[|x| - 1])
    ensures TrimEnd(x + a) == x + TrimEnd(a)
    ensures TrimEnd(a) <= a
  {
    if |a| > 0 && IsSpace(a[|a| - 1]) {
      assert (x + a)[..|x + a| - 1] == x + a[..|a| - 1];
      TrimEndAfter(x, a[..|a| - 1]);
    } else {
      assert |a| == 0 ==> x + a == x;
    }
  }

  lemma {:induction false} RunOf(run: string, rest: string)
    requires forall i | 0 <= i < |run| :: TicketChar(run[i])
    requires |rest| == 0 || !TicketChar(rest[0])
    ensures RunLength(run + rest) == |run|
  {
    if |run| > 0 {
      assert (run + rest)[1..] == run[1..] + rest;
      RunOf(run[1..], rest);
    } else {
      assert run + rest == rest;
    }
  }

  /** The prefix does not overlap itself, so the first one is the ticket's own. */
  lemma PrefixFoundAt(b: string, x: string)
    requires !Contains(b, TICKET_PREFIX)
    ensures Find(b + (TICKET_PREFIX + x), TICKET_PREFIX) == Some(|b|)
  {
    var s := b + (TICKET_PREFIX + x);
    forall j: nat | j < |b| ensures !At(s, j, TICKET_PREFIX) {
      var k := |b| - j;
      assert s[j + k] == 'q';
      if j + 4 <= |b| {
        AtInPrefix(b, TICKET_PREFIX + x, j, TICKET_PREFIX);
      } else if At(s, j, TICKET_PREFIX) {
        AtChars(s, j, TICKET_PREFIX);
      }
    }
    assert s[|b|..|b| + 4] == TICKET_PREFIX;
    FindIs(s, TICKET_PREFIX, |b|);
  }

  lemma FindTicketIn(b: string, run: string, a: string)
    requires !Contains(b, TICKET_PREFIX)
    requires |run| > 0 && forall i | 0 <= i < |run| :: TicketChar(run[i])
    requires |a| == 0 || !TicketChar(a[0])
    ensures FindTicket(b + (TICKET_PREFIX + run) + a) == Some(TICKET_PREFIX + run)
  {
    var text := b + (TICKET_PREFIX + run) + a;
    assert text == b + (TICKET_PREFIX + (run + a));
    PrefixFoundAt(b, run + a);
    RunOf(run, a);
    assert text[|b| + 4..] == run + a;
    assert text[|b|..|b| + 4 + |run|] == TICKET_PREFIX + run;
  }

  /** A ticket is found in whatever it was pasted inside, and means the peer it was made from: for
      every token whatever its bytes, before any text that begins with no ticket character and after
      any text that holds no other ticket prefix. */
  lemma TicketRoundTrip(keys: KeyParser, p: Peer, before: string, after: string)
    requires ByteFields(p) && Canonical(keys, p) && p.endpointId != "" && p.relayUrl != ""
    requires !Contains(before, TICKET_PREFIX)
    requires |after| == 0 || !TicketChar(after[0])
    ensures ParseTicket(keys, before + ToTicket(p).value + after) == Found(p)
  {
    TicketTextIsBytes(p);
    TicketTextIsLong(p);
    var run := Encode(TicketText(p));
    EncodeIsPlain(TicketText(p));
    PasteFinds(before, run, after);
    DecodeEncode(TicketText(p));
    TicketTextReads(p);
    hide TicketText, Encode, Decode, ReadTicket, FindTicket, Trim, Contains;
    var found := TICKET_PREFIX + run;
    assert found[|TICKET_PREFIX|..] == run;
  }

  lemma TicketTextIsLong(p: Peer)
    ensures |TicketText(p)| > 0
  {}

  /** What is left of the paste after trimming still holds the ticket, and it is the first. */
  lemma PasteFinds(before: string, run: string, after: string)
    requires !Contains(before, TICKET_PREFIX)
    requires |run| > 0 && forall i | 0 <= i < |run| :: TicketChar(run[i])
    requires |after| == 0 || !TicketChar(after[0])
    ensures var raw := Trim(before + (TICKET_PREFIX + run) + after);
      raw != "" && FindTicket(raw) == Some(TICKET_PREFIX + run)
  {
    var ticket := TICKET_PREFIX + run;
    assert ticket[|ticket| - 1] == run[|run| - 1];
    TrimStartBefore(before, ticket + after);
    assert before + ticket + after == before + (ticket + after);
    var front := TrimStart(before) + ticket;
    assert TrimStart(before) + (ticket + after) == front + after;
    TrimEndAfter(front, after);
    FindTicketIn(TrimStart(before), run, TrimEnd(after));
  }

  // --- an earlier prefix ---------------------------------------------------

  /** The ticket whose characters these begin with. */
  function FromRun(s: string): (r: Option<string>)
    ensures r.Some? ==> |r.value| > |TICKET_PREFIX|
  {
    if RunLength(s) == 0 then None else Some(TICKET_PREFIX + s[..RunLength(s)])
  }

  lemma FoundFromRun(text: string, at: nat)
    requires Find(text, TICKET_PREFIX) == Some(at)
    ensures at + 4 <= |text| && text[at..at + 4] == TICKET_PREFIX && FindTicket(text) == FromRun(text[at + 4..])
  {
    hide RunLength;
    FindFirst(text, TICKET_PREFIX);
    var n := RunLength(text[at + 4..]);
    assert text[at..at + 4 + n] == text[at..at + 4] + text[at + 4..][..n];
  }

  lemma SameRun(s: string, t: string)
    requires s <= t && RunLength(t) == RunLength(s)
    ensures FromRun(t) == FromRun(s)
  {
    hide RunLength;
    assert t[..RunLength(s)] == s[..RunLength(s)];
  }

  lemma {:induction false} RunStops(s: string, rest: string)
    requires |s| > 0 && !TicketChar(s[|s| - 1])
    ensures RunLength(s + rest) == RunLength(s) < |s|
  {
    if |s| == 1 {
      assert (s + rest)[0] == s[0];
    } else {
      assert (s + rest)[1..] == s[1..] + rest;
      RunStops(s[1..], rest);
    }
  }

  /** With a prefix in front, the run of ticket characters behind the first one is all that is read. */
  lemma FirstRunIsRead(before: string, rest: string)
    requires Contains(before, TICKET_PREFIX)
    ensures Find(before, TICKET_PREFIX).Some? && Find(before, TICKET_PREFIX).value + 4 <= |before|
    ensures FindTicket(before + rest) == FromRun((before + rest)[Find(before, TICKET_PREFIX).value + 4..])
  {
    hide RunLength;
    FindFirst(before, TICKET_PREFIX);
    FoundFromRun(before, Find(before, TICKET_PREFIX).value);
    FoundStays(before, rest, TICKET_PREFIX);
    FoundFromRun(before + rest, Find(before, TICKET_PREFIX).value);
  }

  /** ... so nothing of what is pasted behind, if a character that is none stands in between. */
  lemma EarlierPrefixIsRead(before: string, rest: string)
    requires Contains(before, TICKET_PREFIX) && !TicketChar(before[|before| - 1])
    ensures FindTicket(before + rest) == FindTicket(before)
  {
    hide RunLength;
    var text := before + rest;
    FindFirst(before, TICKET_PREFIX);
    assert text[..|before|] == before;
    FindInCut(text, TICKET_PREFIX, |before|);
    var at := Find(before, TICKET_PREFIX).value;
    FoundFromRun(before, at);
    FoundFromRun(text, at);
    assert before[at + 3] == before[at..at + 4][3];
    assert text[at + 4..] == before[at + 4..] + rest;
    RunStops(before[at + 4..], rest);
    SameRun(before[at + 4..], text[at + 4..]);
  }

  lemma SpaceInFront(c: char, s: string)
    requires IsSpace(c)
    ensures FindTicket([c] + s) == FindTicket(s)
  {
    hide RunLength;
    var text := [c] + s;
    FindFirst(s, TICKET_PREFIX);
    if At(text, 0, TICKET_PREFIX) { AtChars(text, 0, TICKET_PREFIX); }
    forall j: nat | 1 <= j ensures At(text, j, TICKET_PREFIX) == At(s, j - 1, TICKET_PREFIX) {
      AtInSuffix([c], s, j, TICKET_PREFIX);
    }
    match Find(s, TICKET_PREFIX)
    case None =>
      FindFirst(text, TICKET_PREFIX);
    case Some(at) =>
      FindIs(text, TICKET_PREFIX, at + 1);
      FoundFromRun(text, at + 1);
      FoundFromRun(s, at);
      assert text[at + 5..] == s[at + 4..];
  }

  lemma SpaceBehind(s: string, c: char)
    requires IsSpace(c)
    ensures FindTicket(s + [c]) == FindTicket(s)
  {
    hide RunLength;
    var text := s + [c];
    FindFirst(s, TICKET_PREFIX);
    assert text[..|s|] == s;
    FindInCut(text, TICKET_PREFIX, |s|);
    FindFirst(text, TICKET_PREFIX);
    if Find(text, TICKET_PREFIX).Some? {
      var at := Find(text, TICKET_PREFIX).value;
      AtChars(text, at, TICKET_PREFIX);
      assert at + 4 <= |s|;
      FoundFromRun(text, at);
      FoundFromRun(s, at);
      assert text[at + 4..] == s[at + 4..] + [c];
      RunIgnoresSpace(s[at + 4..], c);
      SameRun(s[at + 4..], text[at + 4..]);
    }
  }

  lemma {:induction false} RunIgnoresSpace(s: string, c: char)
    requires IsSpace(c)
    ensures RunLength(s + [c]) == RunLength(s)
  {
    if |s| == 0 {
      assert s + [c] == [c];
    } else {
      assert (s + [c])[1..] == s[1..] + [c];
      RunIgnoresSpace(s[1..], c);
    }
  }

  lemma {:induction false} TrimStartFinds(s: string)
    ensures FindTicket(TrimStart(s)) == FindTicket(s)
  {
    if |s| == 0 || !IsSpace(s[0]) {
    } else {
      TrimStartFinds(s[1..]);
      SpaceInFront(s[0], s[1..]);
      assert [s[0]] + s[1..] == s;
    }
  }

  lemma {:induction false} TrimEndFinds(s: string)
    ensures FindTicket(TrimEnd(s)) == FindTicket(s)
  {
    if |s| == 0 || !IsSpace(s[|s| - 1]) {
    } else {
      TrimEndFinds(s[..|s| - 1]);
      SpaceBehind(s[..|s| - 1], s[|s| - 1]);
      assert s[..|s| - 1] + [s[|s| - 1]] == s;
    }
  }

  /** Exactly which text is read. Behind text that holds a ticket prefix, only the ticket characters that
      follow the first one are: the paste means what that run says, or is refused. If the text in front
      ends in a character that is none, the run is its own, and nothing behind is read. */
  lemma FirstPrefixDecides(keys: KeyParser, before: string, rest: string)
    requires Contains(before, TICKET_PREFIX)
    ensures Find(before, TICKET_PREFIX).Some? && Find(before, TICKET_PREFIX).value + 4 <= |before|
    ensures match FromRun((before + rest)[Find(before, TICKET_PREFIX).value + 4..])
            case Some(found) => ParseTicket(keys, before + rest) == FromTicket(keys, found)
            case None => ParseTicket(keys, before + rest).Refused?
    ensures !TicketChar(before[|before| - 1]) ==>
              FromRun((before + rest)[Find(before, TICKET_PREFIX).value + 4..]) == FindTicket(before)
  {
    hide FindTicket, FromTicket, FromRun, TrimStart, TrimEnd, Contains, Find;
    var paste := before + rest;
    FirstRunIsRead(before, rest);
    TrimStartFinds(paste);
    TrimEndFinds(TrimStart(paste));
    NoTicketInNothing();
    if !TicketChar(before[|before| - 1]) { EarlierPrefixIsRead(before, rest); }
  }

  lemma NoTicketInNothing()
    ensures FindTicket("") == None
  {
    FindFirst("", TICKET_PREFIX);
  }

  /** So a stray "qh1_" in front of a good ticket is enough for a refusal. */
  lemma StrayPrefixHidesTheTicket(keys: KeyParser, p: Peer)
    requires ByteFields(p) && p.relayUrl != ""
    ensures ParseTicket(keys, "qh1_ " + ToTicket(p).value).Refused?
  {
    hide ParseTicket, Find, TicketText, Encode;
    var before := "qh1_ ";
    assert before[0..4] == TICKET_PREFIX;
    assert At(before, 0, TICKET_PREFIX);
    FindIs(before, TICKET_PREFIX, 0);
    assert before[4..][0] == ' ';
    FirstPrefixDecides(keys, before, ToTicket(p).value);
  }

  // --- the address ---------------------------------------------------------

  function Address(p: Peer): string {
    "quack:" + p.endpointId + IROH_SUFFIX + ":" + QUACK_PORT
  }

  predicate Alphabetic(s: string) {
    forall c | c in s :: 'a' <= c <= 'z' || 'A' <= c <= 'Z'
  }

  function FindLast(s: string, c: char): (r: Option<nat>)
    ensures r.Some? ==> r.value < |s| && s[r.value] == c && forall i | r.value < i < |s| :: s[i] != c
    ensures r.None? ==> forall i | 0 <= i < |s| :: s[i] != c
  {
    if |s| == 0 then None
    else if s[|s| - 1] == c then Some(|s| - 1)
    else FindLast(s[..|s| - 1], c)
  }

  /** The text behind a scheme, with slashes or without. */
  function StripScheme(value: string): string {
    match Find(value, "://")
    case Some(at) => value[at + 3..]
    case None =>
      match Find(value, ":")
      case None => value
      case Some(at) =>
        var head := value[..at];
        if head != "" && '.' !in head && Alphabetic(head) then value[at + 1..] else value
  }

  function CutAt(value: string, at: Option<nat>): string
    requires at.Some? ==> at.value <= |value|
  {
    if at.Some? then value[..at.value] else value
  }

  function HostId(value: string): Option<string> {
    var authority := CutAt(value, Find(value, "/"));
    var host := CutAt(authority, FindLast(authority, ':'));
    if |host| < 5 || Lower(host)[|host| - 5..] != IROH_SUFFIX then None
    else if |host| == 5 then None
    else Some(host[..|host| - 5])
  }

  /** The endpoint id in an `<id>.iroh` address, whatever form it comes in. */
  function ParseAddress(address: string): Option<string> {
    HostId(StripScheme(Trim(address)))
  }

  /** An id as it stands in a host name. */
  predicate IsId(id: string) {
    |id| > 0 && forall i | 0 <= i < |id| :: '0' <= id[i] <= '9' || 'a' <= id[i] <= 'z' || 'A' <= id[i] <= 'Z'
  }

  /** `.iroh`, in any letter case. */
  predicate IsSuffix(s: string) {
    Lower(s) == IROH_SUFFIX
  }

  /** Nothing, or a colon and a port. */
  predicate IsPort(s: string) {
    |s| > 0 ==> s[0] == ':' && forall i | 1 <= i < |s| :: s[i] != ':' && s[i] != '/' && !IsSpace(s[i])
  }

  /** Nothing, or a slash and anything at all. */
  predicate IsPath(s: string) {
    |s| > 0 ==> s[0] == '/'
  }

  lemma SuffixChars(s: string)
    requires IsSuffix(s)
    ensures |s| == 5 && s[0] == '.' && forall i | 0 <= i < |s| :: s[i] != ':' && s[i] != '/' && !IsSpace(s[i])
  {
    forall i | 0 <= i < 5 ensures LowerChar(s[i]) == IROH_SUFFIX[i] {
      assert Lower(s)[i] == IROH_SUFFIX[i];
    }
  }

  lemma FindCharIs(s: string, c: char, k: nat)
    requires k < |s| && s[k] == c && forall i | 0 <= i < k :: s[i] != c
    ensures Find(s, [c]) == Some(k)
  {
    assert s[k..k + 1] == [c];
    forall i: nat | i < k ensures !At(s, i, [c]) {
      assert s[i..i + 1][0] == s[i];
    }
    FindIs(s, [c], k);
  }

  lemma FindCharNone(s: string, c: char)
    requires forall i | 0 <= i < |s| :: s[i] != c
    ensures Find(s, [c]) == None
  {
    FindFirst(s, [c]);
    match Find(s, [c])
    case None =>
    case Some(k) => AtChars(s, k, [c]);
  }

  lemma AuthorityOf(authority: string, path: string)
    requires IsPath(path) && forall i | 0 <= i < |authority| :: authority[i] != '/'
    ensures CutAt(authority + path, Find(authority + path, "/")) == authority
  {
    var value := authority + path;
    if |path| > 0 {
      FindCharIs(value, '/', |authority|);
      assert value[..|authority|] == authority;
    } else {
      FindCharNone(value, '/');
      assert value == authority;
    }
  }

  lemma HostOf(host: string, port: string)
    requires IsPort(port) && forall i | 0 <= i < |host| :: host[i] != ':'
    ensures CutAt(host + port, FindLast(host + port, ':')) == host
  {
    hide FindLast;
    var authority := host + port;
    if |port| > 0 {
      assert authority[|host|] == ':';
      assert forall i | |host| < i < |authority| :: authority[i] == port[i - |host|];
      assert FindLast(authority, ':') == Some(|host|);
      assert authority[..|host|] == host;
    } else {
      assert authority == host;
    }
  }

  lemma IdOf(id: string, suffix: string)
    requires IsSuffix(suffix) && |id| > 0
    ensures var host := id + suffix;
      |host| > 5 && Lower(host)[|host| - 5..] == IROH_SUFFIX && host[..|host| - 5] == id
  {
    SuffixChars(suffix);
    var host := id + suffix;
    assert Lower(host)[|host| - 5..] == Lower(suffix);
  }

  /** The host, its port and path taken off, is the id. */
  lemma HostIdOf(id: string, suffix: string, port: string, path: string)
    requires IsId(id) && IsSuffix(suffix) && IsPort(port) && IsPath(path)
    ensures HostId(id + suffix + port + path) == Some(id)
  {
    HostChars(id, suffix, port);
    AuthorityOf(id + suffix + port, path);
    assert forall i | 0 <= i < |id + suffix| :: (id + suffix)[i] == (id + suffix + port)[i];
    HostOf(id + suffix, port);
    IdOf(id, suffix);
    hide Find, FindLast, CutAt, Lower, IsSuffix, IsPort, IsPath;
  }

  lemma NoSchemeMark(s: string)
    requires forall i | 0 <= i < |s| :: s[i] != '/'
    ensures Find(s, "://") == None
  {
    FindFirst(s, "://");
    match Find(s, "://")
    case None =>
    case Some(k) => AtChars(s, k, "://");
  }

  lemma HostChars(id: string, suffix: string, port: string)
    requires IsId(id) && IsSuffix(suffix) && IsPort(port)
    ensures var s := id + suffix + port;
      && |s| > 0
      && (forall i | 0 <= i < |s| :: s[i] != '/' && !IsSpace(s[i]))
      && (forall i | 0 <= i < |id + suffix| :: s[i] != ':')
  {
    SuffixChars(suffix);
  }

  /** The bare host, with or without a port and a path: the dot tells it from a scheme. The path must
      bring in no `://`. */
  lemma BareAddress(id: string, suffix: string, port: string, path: string)
    requires IsId(id) && IsSuffix(suffix) && IsPort(port) && IsPath(path)
    requires !Contains(id + suffix + port + path, "://")
    ensures ParseAddress(id + suffix + port + path) == Some(id)
  {
    var host, trimmed := id + suffix + port, TrimEnd(path);
    HostChars(id, suffix, port);
    TrimHost(host, path);
    NoMarkInFront(host, path);
    assert id + (suffix + port + trimmed) == host + trimmed;
    DottedIsNoScheme(id, suffix + port + trimmed, suffix);
    HostIdOf(id, suffix, port, trimmed);
  }

  /** Trimming reaches into the path only. */
  lemma TrimHost(front: string, path: string)
    requires |front| > 0 && !IsSpace(front[0]) && !IsSpace(front[|front| - 1]) && IsPath(path)
    ensures Trim(front + path) == front + TrimEnd(path) && IsPath(TrimEnd(path)) && TrimEnd(path) <= path
  {
    TrimEndAfter(front, path);
    TrimEndIsPrefix(path);
    assert TrimStart(front + path) == front + path;
  }

  lemma {:induction false} TrimEndIsPrefix(s: string)
    ensures TrimEnd(s) <= s
    ensures |s| > 0 && !IsSpace(s[0]) ==> |TrimEnd(s)| > 0
  {
    if |s| == 0 || !IsSpace(s[|s| - 1]) {
    } else {
      TrimEndIsPrefix(s[..|s| - 1]);
    }
  }

  lemma NoMarkInFront(front: string, path: string)
    requires !Contains(front + path, "://")
    ensures Find(front + TrimEnd(path), "://") == None
  {
    TrimEndIsPrefix(path);
    var s, t := front + path, front + TrimEnd(path);
    FindFirst(s, "://");
    assert s[..|t|] == t;
    FindInCut(s, "://", |t|);
  }

  /** What stands in front of the first colon holds a dot, or there is no colon. */
  lemma DottedIsNoScheme(id: string, behind: string, suffix: string)
    requires IsId(id) && IsSuffix(suffix) && suffix <= behind && Find(id + behind, "://") == None
    ensures StripScheme(id + behind) == id + behind
  {
    var s := id + behind;
    SuffixChars(suffix);
    FindFirst(s, ":");
    match Find(s, ":")
    case None =>
    case Some(at) =>
      AtChars(s, at, ":");
      assert s[|id|] == '.' && at > |id|;
      assert s[..at][|id|] == '.';
  }

  lemma StripShortScheme(scheme: string, behind: string)
    requires scheme != "" && Alphabetic(scheme) && Find(scheme + ":" + behind, "://") == None
    ensures StripScheme(scheme + ":" + behind) == behind
  {
    var s := scheme + ":" + behind;
    assert forall i | 0 <= i < |scheme| :: scheme[i] in scheme;
    FindCharIs(s, ':', |scheme|);
    assert s[..|scheme|] == scheme && s[|scheme| + 1..] == behind;
  }

  /** `quack:` and its like: a scheme with no slashes, and a path that brings in no `://`. */
  lemma SchemeAddress(scheme: string, id: string, suffix: string, port: string, path: string)
    requires scheme != "" && Alphabetic(scheme) && IsId(id) && IsSuffix(suffix) && IsPort(port) && IsPath(path)
    requires !Contains(scheme + ":" + (id + suffix + port) + path, "://")
    ensures ParseAddress(scheme + ":" + (id + suffix + port) + path) == Some(id)
  {
    var host, trimmed := id + suffix + port, TrimEnd(path);
    var front := scheme + ":" + host;
    HostChars(id, suffix, port);
    assert scheme[0] in scheme && front[0] == scheme[0];
    assert front[|front| - 1] == host[|host| - 1];
    TrimHost(front, path);
    NoMarkInFront(front, path);
    assert front + trimmed == scheme + ":" + (host + trimmed);
    StripShortScheme(scheme, host + trimmed);
    HostIdOf(id, suffix, port, trimmed);
  }

  /** A `://` further on wins: whatever stands in front of the first one is not read, be it an address. */
  lemma LaterUrlWins(front: string, id: string, suffix: string, port: string, path: string)
    requires |front| > 0 ==> !IsSpace(front[0])
    requires FirstAt(front + "://" + (id + suffix + port) + path, "://", |front|)
    requires IsId(id) && IsSuffix(suffix) && IsPort(port) && IsPath(path)
    ensures ParseAddress(front + "://" + (id + suffix + port) + path) == Some(id)
  {
    hide HostId, IsSuffix, IsPort, IsId, TrimEnd, TrimStart, Trim, Find;
    var host, trimmed := id + suffix + port, TrimEnd(path);
    var all := front + "://" + host;
    HostChars(id, suffix, port);
    assert all[0] == if |front| > 0 then front[0] else ':';
    assert all[|all| - 1] == host[|host| - 1];
    TrimHost(all, path);
    var s := all + trimmed;
    FindIs(all + path, "://", |front|);
    assert (all + path)[..|s|] == s;
    FindInCut(all + path, "://", |s|);
    assert s[|front| + 3..] == host + trimmed;
    HostIdOf(id, suffix, port, trimmed);
  }

  /** So an address with such a path is taken for another one. */
  lemma PathHidesTheId()
    ensures ParseAddress("quack:abc.iroh:9494/http://x.iroh") == Some("x")
  {
    var front, host := "quack:abc.iroh:9494/http", "x" + ".iroh" + "";
    var s := front + "://" + host + "";
    assert s == "quack:abc.iroh:9494/http://x.iroh";
    assert s[|front|..|front| + 3] == "://";
    forall j: nat | j < |front| ensures !At(s, j, "://") {
      if At(s, j, "://") { AtChars(s, j, "://"); }
    }
    OwnAddressParts();
    LaterUrlWins(front, "x", ".iroh", "", "");
  }

  /** `https://` and its like: any scheme, any path, whatever colons and slashes it has in it. */
  lemma UrlAddress(scheme: string, id: string, suffix: string, port: string, path: string)
    requires forall i | 0 <= i < |scheme| :: scheme[i] != ':' && !IsSpace(scheme[i])
    requires IsId(id) && IsSuffix(suffix) && IsPort(port) && IsPath(path)
    ensures ParseAddress(scheme + "://" + (id + suffix + port) + path) == Some(id)
  {
    var s := scheme + "://" + (id + suffix + port) + path;
    assert s[|scheme|..|scheme| + 3] == "://";
    forall i: nat | i < |scheme| ensures !At(s, i, "://") {
      if At(s, i, "://") { AtChars(s, i, "://"); }
    }
    LaterUrlWins(scheme, id, suffix, port, path);
  }

  /** Printing an address and reading it gives the peer's id back. */
  lemma AddressRoundTrip(p: Peer)
    requires IsId(p.endpointId)
    ensures ParseAddress(Address(p)) == Some(p.endpointId)
  {
    OwnAddressParts();
    hide IsSuffix, IsPort, Alphabetic, ParseAddress;
    var host := p.endpointId + IROH_SUFFIX + ":9494";
    assert Address(p) == "quack" + ":" + host + "";
    NoMarkInAddress(p);
    SchemeAddress("quack", p.endpointId, IROH_SUFFIX, ":9494", "");
  }

  lemma NoMarkInAddress(p: Peer)
    requires IsId(p.endpointId)
    ensures !Contains(Address(p), "://")
  {
    var s := Address(p);
    HostChars(p.endpointId, IROH_SUFFIX, ":9494");
    assert s == "quack:" + (p.endpointId + IROH_SUFFIX + ":9494");
    NoSchemeMark(s);
    FindFirst(s, "://");
  }

  lemma OwnAddressParts()
    ensures IsSuffix(IROH_SUFFIX) && IsPort(":9494") && Alphabetic("quack")
  {}

  /** White space around an address changes nothing. */
  lemma SpacesAroundAddress(address: string)
    ensures ParseAddress(address) == ParseAddress(Trim(address))
  {
    TrimAgain(address);
  }
}
