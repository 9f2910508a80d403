/** Tickets this code did not write: exactly which texts read as a ticket's JSON, and what they say. The
    members may come in any order, spelt in any way and with white space wherever JSON allows it, and there
    may be members nobody asked for. */
module TicketSpellings {
  import opened Text
  import opened Encoding
  import opened Peers
  import opened Refusals
  import opened JsonStrings

  /** JSON's white space: RFC 8259, section 2. */
  predicate Blank(s: string) {
    forall i | 0 <= i < |s| :: s[i] in {' ', '\t', '\n', '\r'}
  }

  /** A member, and the white space in the four places around its parts. */
  datatype Entry = Entry(front: string, key: seq<Piece>, afterKey: string, beforeValue: string,
                         value: seq<Piece>, back: string)

  predicate Lawful(m: Entry) {
    Blank(m.front) && Blank(m.afterKey) && Blank(m.beforeValue) && Blank(m.back) &&
    AllProper(m.key) && AllProper(m.value)
  }

  predicate AllLawful(ms: seq<Entry>) {
    forall i | 0 <= i < |ms| :: Lawful(ms[i])
  }

  function Quoted(ps: seq<Piece>): string {
    "\"" + Written(ps) + "\""
  }

  function Spelt(m: Entry): string {
    m.front + Quoted(m.key) + m.afterKey + ":" + m.beforeValue + Quoted(m.value) + m.back
  }

  function Listed(ms: seq<Entry>): string {
    if |ms| == 0 then "" else if |ms| == 1 then Spelt(ms[0]) else Spelt(ms[0]) + "," + Listed(ms[1..])
  }

  /** The object: white space outside it on both sides, and inside it when it is empty. */
  function Object(front: string, inside: string, ms: seq<Entry>, back: string): string {
    front + "{" + (if |ms| == 0 then inside else Listed(ms)) + "}" + back
  }

  /** The keys and values the members mean. */
  function Says(ms: seq<Entry>): seq<(string, string)>
    requires AllLawful(ms)
  {
    if |ms| == 0 then [] else [(Meant(ms[0].key), Meant(ms[0].value))] + Says(ms[1..])
  }

  function Times(said: seq<(string, string)>, key: string): nat {
    if |said| == 0 then 0 else (if said[0].0 == key then 1 else 0) + Times(said[1..], key)
  }

  function ValueOf(said: seq<(string, string)>, key: string): string {
    if |said| == 0 then "" else if said[0].0 == key then said[0].1 else ValueOf(said[1..], key)
  }

  /** No field a ticket has comes twice, and the id comes. */
  predicate Whole(said: seq<(string, string)>) {
    Times(said, "e") == 1 && Times(said, "r") <= 1 && Times(said, "t") <= 1
  }

  // --- white space ---------------------------------------------------------

  lemma {:induction false} SkipsBlank(w: string, rest: string)
    requires Blank(w) && (|rest| > 0 ==> rest[0] !in {' ', '\t', '\n', '\r'})
    ensures SkipSpace(w + rest) == rest
  {
    if |w| == 0 {
      assert w + rest == rest;
    } else {
      assert (w + rest)[1..] == w[1..] + rest;
      SkipsBlank(w[1..], rest);
    }
  }

  lemma {:induction false} SkippedIsBlank(s: string) returns (w: string)
    ensures s == w + SkipSpace(s) && Blank(w)
  {
    if |s| > 0 && SkipSpace(s) != s {
      w := SkippedIsBlank(s[1..]);
      w := [s[0]] + w;
    } else {
      w := "";
    }
  }

  lemma Expected(w: string, c: char, rest: string)
    requires Blank(w) && c !in {' ', '\t', '\n', '\r'}
    ensures Expect(w + [c] + rest, c) == Some(rest)
    ensures forall d | d != c :: Expect(w + [c] + rest, d) == None
  {
    assert w + [c] + rest == w + ([c] + rest);
    SkipsBlank(w, [c] + rest);
    assert ([c] + rest)[1..] == rest;
  }

  lemma ExpectIs(s: string, c: char) returns (w: string)
    requires Expect(s, c).Some?
    ensures Blank(w) && s == w + [c] + Expect(s, c).value
  {
    w := SkippedIsBlank(s);
    assert SkipSpace(s) == [c] + SkipSpace(s)[1..];
  }

  // --- reading what is spelt -----------------------------------------------

  lemma Around(w: string, x: string, rest: string)
    ensures w + ['"'] + (x + "\"" + rest) == w + ("\"" + x + "\"") + rest
  {}

  lemma QuotedReads(w: string, ps: seq<Piece>, rest: string)
    requires Blank(w) && AllProper(ps)
    ensures ReadLiteral(w + Quoted(ps) + rest) == Some((Meant(ps), rest))
    ensures Expect(w + Quoted(ps) + rest, '}') == None
  {
    PiecesRead(ps, rest);
    hide ReadString, Expect, Written, AllProper, Blank, Meant;
    Around(w, Written(ps), rest);
    Expected(w, '"', Written(ps) + "\"" + rest);
  }

  lemma SpeltReads(m: Entry, rest: string)
    requires Lawful(m)
    ensures ReadMember(Spelt(m) + rest) == Some((Meant(m.key), Meant(m.value), m.back + rest))
    ensures Expect(Spelt(m) + rest, '}') == None
  {
    hide Quoted, ReadLiteral, Expect, Blank, AllProper;
    var s2 := m.beforeValue + Quoted(m.value) + (m.back + rest);
    var s1 := m.afterKey + [':'] + s2;
    assert Spelt(m) + rest == m.front + Quoted(m.key) + s1;
    QuotedReads(m.front, m.key, s1);
    Expected(m.afterKey, ':', s2);
    QuotedReads(m.beforeValue, m.value, m.back + rest);
  }

  /** The fields after every member has been put in turn. */
  function PutAll(f: Fields, said: seq<(string, string)>): Option<Fields>
    decreases |said|
  {
    if |said| == 0 then Some(f)
    else
      match PutField(f, said[0].0, said[0].1)
      case None => None
      case Some(f') => PutAll(f', said[1..])
  }

  lemma {:induction false} ListedReads(ms: seq<Entry>, f: Fields, rest: string)
    requires |ms| > 0 && AllLawful(ms)
    ensures ReadMembers(Listed(ms) + "}" + rest, f) ==
              match PutAll(f, Says(ms)) case None => None case Some(f') => Some((f', rest))
    ensures Expect(Listed(ms) + "}" + rest, '}') == None
    decreases |ms|
  {
    hide Spelt, ReadMember, Expect, PutField, Meant;
    var m := ms[0];
    var key, value, said := Meant(m.key), Meant(m.value), Says(ms[1..]);
    assert Says(ms)[1..] == said;
    if |ms| == 1 {
      assert Listed(ms) + "}" + rest == Spelt(m) + ("}" + rest);
      SpeltReads(m, "}" + rest);
      assert m.back + ("}" + rest) == m.back + ['}'] + rest;
      Expected(m.back, '}', rest);
      if PutField(f, key, value).Some? { assert PutAll(PutField(f, key, value).value, said).Some?; }
    } else {
      var more := Listed(ms[1..]) + "}" + rest;
      assert Listed(ms) + "}" + rest == Spelt(m) + ("," + more);
      SpeltReads(m, "," + more);
      assert m.back + ("," + more) == m.back + [','] + more;
      Expected(m.back, ',', more);
      if PutField(f, key, value).Some? { ListedReads(ms[1..], PutField(f, key, value).value, rest); }
    }
  }

  // --- what it comes to ----------------------------------------------------

  function Field(f: Fields, key: string): Option<string> {
    if key == "e" then f.e else if key == "r" then f.r else f.t
  }

  /** The members and what was there before name `key` at most once. */
  predicate Once(f: Fields, said: seq<(string, string)>, key: string) {
    Times(said, key) + (if Field(f, key).Some? then 1 else 0) <= 1
  }

  lemma {:induction false} PutAllIs(f: Fields, said: seq<(string, string)>)
    ensures PutAll(f, said).Some? <==> Once(f, said, "e") && Once(f, said, "r") && Once(f, said, "t")
    ensures PutAll(f, said).Some? ==> forall key | key in {"e", "r", "t"} ::
              Field(PutAll(f, said).value, key) ==
              if Field(f, key).Some? then Field(f, key)
              else if Times(said, key) == 0 then None else Some(ValueOf(said, key))
    decreases |said|
  {
    if |said| > 0 && PutField(f, said[0].0, said[0].1).Some? {
      PutAllIs(PutField(f, said[0].0, said[0].1).value, said[1..]);
    }
  }

  lemma {:induction false} NotThere(said: seq<(string, string)>, key: string)
    ensures Times(said, key) == 0 ==> ValueOf(said, key) == ""
  {
    if |said| > 0 { NotThere(said[1..], key); }
  }

  lemma ObjectReads(front: string, inside: string, ms: seq<Entry>, back: string)
    requires Blank(front) && Blank(inside) && Blank(back) && AllLawful(ms)
    ensures ReadTicket(Object(front, inside, ms, back)) ==
            if Whole(Says(ms)) then Some((ValueOf(Says(ms), "e"), ValueOf(Says(ms), "r"), ValueOf(Says(ms), "t")))
            else None
  {
    InsideReads(inside, ms, back);
    FieldsSaid(Says(ms));
    SkipsBlank(back, "");
    assert back + "" == back;
    ObjectOpens(front, inside, ms, back);
    hide Expect, ReadInside, SkipSpace, Listed, Meant, PutAll, Whole, Says, AllLawful, Object, ValueOf, Blank;
  }

  lemma ObjectOpens(front: string, inside: string, ms: seq<Entry>, back: string)
    requires Blank(front)
    ensures Expect(Object(front, inside, ms, back), '{') ==
              Some((if |ms| == 0 then inside else Listed(ms)) + "}" + back)
  {
    hide Expect, Listed, Blank;
    var body := if |ms| == 0 then inside else Listed(ms);
    assert Object(front, inside, ms, back) == front + ['{'] + (body + "}" + back);
    Expected(front, '{', body + "}" + back);
  }

  lemma FieldsSaid(said: seq<(string, string)>)
    ensures var f := PutAll(NO_FIELDS, said);
      && (f.Some? && f.value.e.Some? <==> Whole(said))
      && (Whole(said) ==>
            && f.value.e.value == ValueOf(said, "e")
            && (if f.value.r.Some? then f.value.r.value else "") == ValueOf(said, "r")
            && (if f.value.t.Some? then f.value.t.value else "") == ValueOf(said, "t"))
  {
    PutAllIs(NO_FIELDS, said);
    hide PutAll;
    if PutAll(NO_FIELDS, said).Some? {
      var f := PutAll(NO_FIELDS, said).value;
      assert Field(f, "e") == f.e && Field(f, "r") == f.r && Field(f, "t") == f.t;
    }
    NotThere(said, "r");
    NotThere(said, "t");
  }

  lemma InsideReads(inside: string, ms: seq<Entry>, back: string)
    requires Blank(inside) && AllLawful(ms)
    ensures ReadInside((if |ms| == 0 then inside else Listed(ms)) + "}" + back) ==
              match PutAll(NO_FIELDS, Says(ms)) case None => None case Some(f) => Some((f, back))
  {
    hide Expect, ReadMembers, Blank;
    if |ms| == 0 {
      assert inside + "}" + back == inside + ['}'] + back;
      Expected(inside, '}', back);
    } else {
      ListedReads(ms, NO_FIELDS, back);
    }
  }

  // --- whatever reads is spelt so ------------------------------------------

  lemma LiteralIs(s: string) returns (w: string, ps: seq<Piece>)
    requires ReadLiteral(s).Some?
    ensures Blank(w) && AllProper(ps) && s == w + Quoted(ps) + ReadLiteral(s).value.1
  {
    w := ExpectIs(s, '"');
    hide Expect, Blank, ReadString, Written, AllProper;
    ps := ReadIsPieces(Expect(s, '"').value);
    Around(w, Written(ps), ReadLiteral(s).value.1);
  }

  lemma NothingIsBlank()
    ensures Blank("") && AllLawful([])
  {}

  lemma MemberIs(s: string) returns (m: Entry)
    requires ReadMember(s).Some?
    ensures Lawful(m) && m.back == "" && s == Spelt(m) + ReadMember(s).value.2
  {
    hide ReadLiteral, Expect, Blank, AllProper, Quoted;
    var s1 := ReadLiteral(s).value.1;
    var s2 := Expect(s1, ':').value;
    var front, key := LiteralIs(s);
    var afterKey := ExpectIs(s1, ':');
    var beforeValue, value := LiteralIs(s2);
    m := Entry(front, key, afterKey, beforeValue, value, "");
    NothingIsBlank();
    var s3 := ReadMember(s).value.2;
    assert s == front + Quoted(key) + (afterKey + ":" + (beforeValue + Quoted(value) + s3));
    assert Spelt(m) == front + Quoted(key) + afterKey + ":" + beforeValue + Quoted(value);
  }

  lemma {:induction false} MembersAre(s: string, f: Fields) returns (ms: seq<Entry>)
    requires ReadMembers(s, f).Some?
    ensures |ms| > 0 && AllLawful(ms) && s == Listed(ms) + "}" + ReadMembers(s, f).value.1
    decreases |s|
  {
    hide ReadMember, Expect, PutField, Spelt;
    var m := MemberIs(s);
    var (key, value, rest) := ReadMember(s).value;
    var f' := PutField(f, key, value).value;
    var behind := ReadMembers(s, f).value.1;
    if Expect(rest, ',').Some? {
      var back := ExpectIs(rest, ',');
      var more := Expect(rest, ',').value;
      var others := MembersAre(more, f');
      assert rest == back + ("," + more);
      m := WithBack(m, back, "," + more);
      ms := [m] + others;
      assert ms[1..] == others;
      assert s == Spelt(m) + ("," + more) == Listed(ms) + "}" + behind;
    } else {
      var back := ExpectIs(rest, '}');
      assert rest == back + ("}" + behind);
      m := WithBack(m, back, "}" + behind);
      ms := [m];
      assert s == Spelt(m) + ("}" + behind) == Listed(ms) + "}" + behind;
    }
  }

  lemma WithBack(m: Entry, back: string, rest: string) returns (m': Entry)
    requires Lawful(m) && m.back == "" && Blank(back)
    ensures Lawful(m') && Spelt(m) + (back + rest) == Spelt(m') + rest
  {
    m' := m.(back := back);
  }

  lemma InsideIs(body: string) returns (inside: string, ms: seq<Entry>)
    requires ReadInside(body).Some?
    ensures Blank(inside) && AllLawful(ms)
    ensures body == (if |ms| == 0 then inside else Listed(ms)) + "}" + ReadInside(body).value.1
  {
    hide Expect, ReadMembers, Blank, AllLawful;
    NothingIsBlank();
    if Expect(body, '}').Some? {
      ms := [];
      inside := ExpectIs(body, '}');
    } else {
      inside := "";
      ms := MembersAre(body, NO_FIELDS);
    }
  }

  lemma TicketIs(s: string) returns (front: string, inside: string, ms: seq<Entry>, back: string)
    requires ReadTicket(s).Some?
    ensures Blank(front) && Blank(inside) && Blank(back) && AllLawful(ms) && s == Object(front, inside, ms, back)
  {
    hide Expect, ReadInside, Blank, AllLawful, Listed;
    front := ExpectIs(s, '{');
    var body := Expect(s, '{').value;
    back := ReadInside(body).value.1;
    var w := SkippedIsBlank(back);
    assert w + "" == w;
    inside, ms := InsideIs(body);
    assert front + ['{'] + body == Object(front, inside, ms, back);
  }

  /** `s` is a JSON object of string members that say `said`. */
  ghost predicate Spells(s: string, said: seq<(string, string)>) {
    exists front, inside, ms, back :: IsObject(front, inside, ms, back, s) && Says(ms) == said
  }

  predicate IsObject(front: string, inside: string, ms: seq<Entry>, back: string, s: string) {
    Blank(front) && Blank(inside) && Blank(back) && AllLawful(ms) && s == Object(front, inside, ms, back)
  }

  /** For every text: it reads as a ticket's three fields exactly if it is a JSON object of string members in
      which the id comes once and the relay and the token at most once; they are what the members say, and
      empty when missing. */
  lemma TicketExactly(s: string, e: string, r: string, t: string)
    ensures ReadTicket(s) == Some((e, r, t)) <==>
            exists said :: Spells(s, said) && Whole(said) &&
                           e == ValueOf(said, "e") && r == ValueOf(said, "r") && t == ValueOf(said, "t")
  {
    hide ReadTicket, Blank, AllLawful, Object, Says, Whole, Times, ValueOf;
    if ReadTicket(s) == Some((e, r, t)) {
      var front, inside, ms, back := TicketIs(s);
      ObjectReads(front, inside, ms, back);
      assert IsObject(front, inside, ms, back, s);
      assert Spells(s, Says(ms));
    }
    forall said | Spells(s, said) && Whole(said)
      ensures ReadTicket(s) == Some((ValueOf(said, "e"), ValueOf(said, "r"), ValueOf(said, "t")))
    {
      var front, inside, ms, back :| IsObject(front, inside, ms, back, s) && Says(ms) == said;
      ObjectReads(front, inside, ms, back);
    }
  }

  /** So for every such ticket: it is damaged exactly if a field comes twice or the id does not come; then
      an empty id, a relay that is missing or empty, and an id that is no key are refused by name. */
  lemma AnySpellingParses(keys: KeyParser, s: string, said: seq<(string, string)>)
    requires Spells(s, said) && IsBytes(s)
    ensures ParseTicket(keys, "qh1_" + Encode(s)) ==
            if Times(said, "e") != 1 || Times(said, "r") > 1 || Times(said, "t") > 1 then Refused(Damaged)
            else if ValueOf(said, "e") == "" then Refused(NoId)
            else if ValueOf(said, "r") == "" then Refused(NoRelay)
            else if keys(ValueOf(said, "e")).None? then Refused(BadId)
            else Found(Peer(keys(ValueOf(said, "e")).value, Trim(ValueOf(said, "r")), ValueOf(said, "t")))
  {
    var front, inside, ms, back :| IsObject(front, inside, ms, back, s) && Says(ms) == said;
    assert |s| > 0;
    ObjectReads(front, inside, ms, back);
    EncodeIsPlain(s);
    DecodeEncode(s);
    hide Object, Encode, Decode, ReadTicket, FindTicket, Contains, Times, ValueOf, Trim, Says, Blank, Lawful;
    AloneIsFound(Encode(s));
    assert ("qh1_" + Encode(s))[4..] == Encode(s);
  }

  /** And a ticket that is no such object is damaged. */
  lemma NoObjectIsDamaged(keys: KeyParser, s: string)
    requires |s| > 0 && IsBytes(s) && forall said | Whole(said) :: !Spells(s, said)
    ensures ParseTicket(keys, "qh1_" + Encode(s)) == Refused(Damaged)
  {
    if ReadTicket(s).Some? {
      var (e, r, t) := ReadTicket(s).value;
      TicketExactly(s, e, r, t);
    }
    EncodeIsPlain(s);
    DecodeEncode(s);
    hide Encode, Decode, ReadTicket, FindTicket, Contains, Trim, Spells, Whole;
    AloneIsFound(Encode(s));
    assert ("qh1_" + Encode(s))[4..] == Encode(s);
  }
}
