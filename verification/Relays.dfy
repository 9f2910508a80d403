/** Relay lists in canonical form, and the two books a node keeps about its peers. */
module Relays {
  import opened Text

  /** `parse_relay_url`: a typed URL to the form it prints in. */
  type UrlParser = string -> Option<string>

  predicate IsSeparator(c: char) {
    c == ',' || IsSpace(c)
  }

  predicate IsWord(s: string) {
    |s| > 0 && forall i | 0 <= i < |s| :: !IsSeparator(s[i])
  }

  /** A printed URL parses to itself, and has no separator in it. */
  ghost predicate Lawful(parse: UrlParser) {
    forall s: string :: parse(s).Some? ==> parse(parse(s).value) == parse(s) && IsWord(parse(s).value)
  }

  // --- order ---------------------------------------------------------------

  predicate Less(a: string, b: string) {
    |b| > 0 && (|a| == 0 || a[0] < b[0] || (a[0] == b[0] && Less(a[1..], b[1..])))
  }

  lemma {:induction false} LessIsStrict(a: string, b: string)
    ensures !(Less(a, b) && Less(b, a))
    ensures Less(a, b) || Less(b, a) || a == b
    ensures Less(a, b) ==> a != b
  {
    if |a| == 0 || |b| == 0 {
    } else {
      LessIsStrict(a[1..], b[1..]);
      assert a == [a[0]] + a[1..] && b == [b[0]] + b[1..];
    }
  }

  lemma {:induction false} LessIsTransitive(a: string, b: string, c: string)
    requires Less(a, b) && Less(b, c)
    ensures Less(a, c)
  {
    if |a| == 0 || a[0] != b[0] || b[0] != c[0] {
    } else {
      LessIsTransitive(a[1..], b[1..], c[1..]);
    }
  }

  ghost predicate Below(x: string, s: seq<string>) {
    forall i | 0 <= i < |s| :: Less(x, s[i])
  }

  /** Ascending, no two equal. */
  ghost predicate Ascending(s: seq<string>) {
    |s| > 0 ==> Below(s[0], s[1..]) && Ascending(s[1..])
  }

  ghost predicate NotAbove(x: string, s: seq<string>) {
    forall i | 0 <= i < |s| :: !Less(s[i], x)
  }

  ghost predicate Sorted(s: seq<string>) {
    |s| > 0 ==> NotAbove(s[0], s[1..]) && Sorted(s[1..])
  }

  function Elements(s: seq<string>): set<string> {
    set x | x in s
  }

  lemma ElementsCons(x: string, s: seq<string>)
    ensures Elements([x] + s) == {x} + Elements(s)
  {}

  function Insert(x: string, s: seq<string>): (r: seq<string>)
    ensures Elements(r) == Elements(s) + {x}
  {
    if |s| == 0 then [x]
    else if Less(s[0], x) then
      assert s == [s[0]] + s[1..];
      ElementsCons(s[0], s[1..]);
      ElementsCons(s[0], Insert(x, s[1..]));
      [s[0]] + Insert(x, s[1..])
    else
      ElementsCons(x, s);
      [x] + s
  }

  function Sort(s: seq<string>): (r: seq<string>)
    ensures Elements(r) == Elements(s)
  {
    if |s| == 0 then []
    else
      assert s == [s[0]] + s[1..];
      ElementsCons(s[0], s[1..]);
      Insert(s[0], Sort(s[1..]))
  }

  /** `Vec::dedup`: of equal neighbours the first stays. */
  function Dedup(s: seq<string>): (r: seq<string>)
    ensures Elements(r) == Elements(s)
    decreases |s|
  {
    if |s| < 2 then s
    else
      assert s == [s[0]] + s[1..];
      ElementsCons(s[0], s[1..]);
      ElementsCons(s[0], Dedup(s[1..]));
      assert s[1] in s[1..];
      if s[0] == s[1] then Dedup(s[1..]) else [s[0]] + Dedup(s[1..])
  }

  lemma {:induction false} InsertSorts(x: string, s: seq<string>)
    requires Sorted(s)
    ensures Sorted(Insert(x, s))
  {
    if |s| == 0 {
    } else {
      if Less(s[0], x) {
        InsertSorts(x, s[1..]);
        var r := Insert(x, s[1..]);
        forall i | 0 <= i < |r| ensures !Less(r[i], s[0]) {
          assert r[i] in Elements(r);
          LessIsStrict(s[0], x);
          assert r[i] == x || r[i] in s[1..];
        }
        assert ([s[0]] + r)[1..] == r;
      } else {
        forall i | 0 <= i < |s| ensures !Less(s[i], x) {
          if i > 0 {
            assert s[i] == s[1..][i - 1];
            if Less(s[i], x) { NoneBetween(s[i], x, s[0]); }
          }
        }
        assert ([x] + s)[1..] == s;
      }
    }
  }

  lemma NoneBetween(a: string, b: string, c: string)
    requires Less(a, b) && !Less(c, b)
    ensures Less(a, c)
  {
    LessIsStrict(b, c);
    if b != c { LessIsTransitive(a, b, c); }
  }

  lemma {:induction false} SortSorts(s: seq<string>)
    ensures Sorted(Sort(s))
  {
    if |s| == 0 {
    } else {
      SortSorts(s[1..]);
      InsertSorts(s[0], Sort(s[1..]));
    }
  }

  lemma {:induction false} DedupAscends(s: seq<string>)
    requires Sorted(s)
    ensures Ascending(Dedup(s))
    decreases |s|
  {
    if |s| >= 2 {
      DedupAscends(s[1..]);
      if s[0] != s[1] {
        var r := Dedup(s[1..]);
        assert s[1] == s[1..][0];
        LessIsStrict(s[0], s[1]);
        forall i | 0 <= i < |r| ensures Less(s[0], r[i]) {
          assert r[i] in Elements(r);
          assert r[i] in s[1..];
          if r[i] != s[1] {
            var k :| 0 <= k < |s[1..]| && s[1..][k] == r[i];
            assert k > 0 && s[1..][1..][k - 1] == r[i];
            LessIsStrict(s[1], r[i]);
            LessIsTransitive(s[0], s[1], r[i]);
          }
        }
        assert ([s[0]] + r)[1..] == r;
      }
    } else if |s| == 1 {
      assert s[1..] == [];
    }
  }

  /** An ascending list is told by its elements. */
  lemma {:induction false} AscendingIsUnique(a: seq<string>, b: seq<string>)
    requires Ascending(a) && Ascending(b) && Elements(a) == Elements(b)
    ensures a == b
  {
    if |a| == 0 {
      SomeElement(b);
    } else {
      assert a[0] in Elements(b) && |b| > 0 && b[0] in Elements(a);
      LessIsStrict(a[0], b[0]);
      LeastIsFirst(a, b[0]);
      LeastIsFirst(b, a[0]);
      assert a[0] == b[0];
      forall x ensures x in Elements(a[1..]) <==> x in Elements(b[1..]) {
        InTail(a, x);
        InTail(b, x);
      }
      assert Elements(a[1..]) == Elements(b[1..]);
      AscendingIsUnique(a[1..], b[1..]);
      assert a == [a[0]] + a[1..] && b == [b[0]] + b[1..];
    }
  }

  lemma SomeElement(s: seq<string>)
    ensures |s| > 0 ==> Elements(s) != {}
  {
    if |s| > 0 { assert s[0] in Elements(s); }
  }

  lemma LeastIsFirst(s: seq<string>, x: string)
    requires |s| > 0 && Ascending(s) && x in s
    ensures x == s[0] || Less(s[0], x)
  {
    var k :| 0 <= k < |s| && s[k] == x;
    if k > 0 { assert s[1..][k - 1] == x; }
  }

  lemma InTail(s: seq<string>, x: string)
    requires |s| > 0 && Ascending(s)
    ensures x in Elements(s[1..]) <==> x in Elements(s) && x != s[0]
  {
    assert s == [s[0]] + s[1..];
    if x in s[1..] {
      var k :| 0 <= k < |s[1..]| && s[1..][k] == x;
      LessIsStrict(s[0], x);
    }
  }

  // --- lists ---------------------------------------------------------------

  function WordLength(s: string): (n: nat)
    ensures n <= |s| && (|s| > 0 && !IsSeparator(s[0]) ==> n > 0)
  {
    if |s| > 0 && !IsSeparator(s[0]) then 1 + WordLength(s[1..]) else 0
  }

  /** The non-empty pieces between commas and white space. */
  function Words(s: string): seq<string>
    decreases |s|
  {
    if |s| == 0 then []
    else if IsSeparator(s[0]) then Words(s[1..])
    else
      var n := WordLength(s);
      [s[..n]] + Words(s[n..])
  }

  function ParseAll(parse: UrlParser, words: seq<string>): Option<seq<string>> {
    if |words| == 0 then Some([])
    else
      match (parse(words[0]), ParseAll(parse, words[1..]))
      case (Some(u), Some(us)) => Some([u] + us)
      case _ => None
  }

  /** The relays a list names, in no order and once each; None when a piece is no relay URL. */
  function RelaySet(parse: UrlParser, spec: string): Option<set<string>> {
    match ParseAll(parse, Words(spec))
    case None => None
    case Some(urls) => Some(Elements(urls))
  }

  function ParseRelays(parse: UrlParser, spec: string): Option<seq<string>> {
    match ParseAll(parse, Words(spec))
    case None => None
    case Some(urls) => Some(Dedup(Sort(urls)))
  }

  function Normalize(parse: UrlParser, spec: string): Option<string> {
    match ParseRelays(parse, spec)
    case None => None
    case Some(urls) => Some(Join(urls, ","))
  }

  lemma {:induction false} ParsedAreWords(parse: UrlParser, words: seq<string>)
    requires Lawful(parse) && ParseAll(parse, words).Some?
    ensures forall u | u in ParseAll(parse, words).value :: IsWord(u) && parse(u) == Some(u)
  {
    if |words| == 0 {
    } else {
      ParsedAreWords(parse, words[1..]);
    }
  }

  lemma {:induction false} ParseCanonical(parse: UrlParser, urls: seq<string>)
    requires forall u | u in urls :: parse(u) == Some(u)
    ensures ParseAll(parse, urls) == Some(urls)
  {
    if |urls| == 0 {
    } else {
      assert urls[0] in urls && forall u | u in urls[1..] :: u in urls;
      ParseCanonical(parse, urls[1..]);
      assert urls == [urls[0]] + urls[1..];
    }
  }

  lemma {:induction false} WordLengthIs(word: string, rest: string)
    requires forall i | 0 <= i < |word| :: !IsSeparator(word[i])
    requires |rest| == 0 || IsSeparator(rest[0])
    ensures WordLength(word + rest) == |word|
  {
    if |word| > 0 {
      assert (word + rest)[1..] == word[1..] + rest;
      WordLengthIs(word[1..], rest);
    } else {
      assert word + rest == rest;
    }
  }

  /** Splitting a joined list gives the list back. */
  lemma {:induction false} WordsOfJoin(urls: seq<string>)
    requires forall u | u in urls :: IsWord(u)
    ensures Words(Join(urls, ",")) == urls
  {
    if |urls| == 0 {
    } else {
      hide Words;
      var u := urls[0];
      assert u in urls && forall x | x in urls[1..] :: x in urls;
      WordsOfJoin(urls[1..]);
      if |urls| == 1 {
        assert Join(urls, ",") == u + "";
        NoWords();
        FirstWord(u, "");
      } else {
        var more := Join(urls[1..], ",");
        assert Join(urls, ",") == u + ("," + more);
        FirstWord(u, "," + more);
        SeparatorSkipped(more);
      }
      assert urls == [u] + urls[1..];
    }
  }

  lemma NoWords()
    ensures Words("") == []
  {}

  lemma FirstWord(u: string, rest: string)
    requires IsWord(u) && (|rest| == 0 || IsSeparator(rest[0]))
    ensures Words(u + rest) == [u] + Words(rest)
  {
    WordLengthIs(u, rest);
    assert (u + rest)[..|u|] == u && (u + rest)[|u|..] == rest;
  }

  lemma SeparatorSkipped(s: string)
    ensures Words("," + s) == Words(s)
  {
    assert ("," + s)[1..] == s;
  }

  lemma ParsedIsCanonical(parse: UrlParser, spec: string)
    requires Lawful(parse) && ParseRelays(parse, spec).Some?
    ensures var urls := ParseRelays(parse, spec).value;
      && Ascending(urls) && RelaySet(parse, spec) == Some(Elements(urls))
      && forall u | u in urls :: IsWord(u) && parse(u) == Some(u)
  {
    var urls := ParseAll(parse, Words(spec)).value;
    ParsedAreWords(parse, Words(spec));
    SortSorts(urls);
    DedupAscends(Sort(urls));
    forall u | u in Dedup(Sort(urls)) ensures u in urls {
      assert u in Elements(Dedup(Sort(urls)));
    }
  }

  /** Two lists have the same canonical form exactly when they name the same set of relays, whatever
      the order, the repeats and the separators. */
  lemma NormalizeTellsTheSet(parse: UrlParser, a: string, b: string)
    requires Lawful(parse) && Normalize(parse, a).Some? && Normalize(parse, b).Some?
    ensures Normalize(parse, a) == Normalize(parse, b) <==> RelaySet(parse, a) == RelaySet(parse, b)
  {
    ParsedIsCanonical(parse, a);
    ParsedIsCanonical(parse, b);
    var us, vs := ParseRelays(parse, a).value, ParseRelays(parse, b).value;
    WordsOfJoin(us);
    WordsOfJoin(vs);
    if RelaySet(parse, a) == RelaySet(parse, b) { AscendingIsUnique(us, vs); }
  }

  /** A canonical form is its own canonical form. */
  lemma NormalizeAgain(parse: UrlParser, spec: string)
    requires Lawful(parse) && Normalize(parse, spec).Some?
    ensures Normalize(parse, Normalize(parse, spec).value) == Normalize(parse, spec)
  {
    ParsedIsCanonical(parse, spec);
    var urls := ParseRelays(parse, spec).value;
    WordsOfJoin(urls);
    ParseCanonical(parse, urls);
    SortSorts(urls);
    DedupAscends(Sort(urls));
    AscendingIsUnique(Dedup(Sort(urls)), urls);
  }

  // --- what is remembered about peers --------------------------------------

  datatype Path = Direct | Relay | Unknown
  datatype Direction = In | Out
  datatype Entry = Entry(path: Path, direction: Direction)
  datatype Record = Record(id: string, path: Path, direction: Direction)

  function Recorded(m: map<string, Entry>, r: Record): map<string, Entry> {
    var entry := if r.id in m then m[r.id] else Entry(r.path, r.direction);
    m[r.id := if r.path == Unknown then entry else entry.(path := r.path)]
  }

  class PeerMap {
    var entries: map<string, Entry>

    constructor ()
      ensures entries == map[]
    {
      entries := map[];
    }

    method RecordPeer(id: string, path: Path, direction: Direction)
      modifies this
      ensures entries == Recorded(old(entries), Record(id, path, direction))
    {
      if id !in entries { entries := entries[id := Entry(path, direction)]; }
      if path != Unknown { entries := entries[id := entries[id].(path := path)]; }
    }
  }

  function RecordAll(history: seq<Record>): map<string, Entry> {
    if |history| == 0 then map[] else Recorded(RecordAll(history[..|history| - 1]), history[|history| - 1])
  }

  /** The direction a peer was first seen in. */
  function FirstDirection(history: seq<Record>, id: string): Option<Direction> {
    if |history| == 0 then None
    else if history[0].id == id then Some(history[0].direction)
    else FirstDirection(history[1..], id)
  }

  /** The last path of it that was known. */
  function LastKnownPath(history: seq<Record>, id: string): Path {
    if |history| == 0 then Unknown
    else
      var r := history[|history| - 1];
      if r.id == id && r.path != Unknown then r.path else LastKnownPath(history[..|history| - 1], id)
  }

  lemma {:induction false} FirstDirectionSnoc(history: seq<Record>, r: Record, id: string)
    ensures FirstDirection(history + [r], id) ==
            match FirstDirection(history, id)
            case Some(d) => Some(d)
            case None => if r.id == id then Some(r.direction) else None
  {
    if |history| == 0 {
      assert (history + [r])[0] == r && (history + [r])[1..] == [];
    } else {
      assert (history + [r])[1..] == history[1..] + [r];
      FirstDirectionSnoc(history[1..], r, id);
    }
  }

  /** Whatever is recorded in whatever order: a peer keeps the direction it was first seen in, and a
      known path is replaced only by another known one. */
  lemma {:induction false} WhatIsRemembered(history: seq<Record>, id: string)
    ensures id in RecordAll(history) <==> FirstDirection(history, id).Some?
    ensures id in RecordAll(history) ==>
              RecordAll(history)[id] == Entry(LastKnownPath(history, id), FirstDirection(history, id).value)
    ensures id !in RecordAll(history) ==> LastKnownPath(history, id) == Unknown
  {
    if |history| == 0 {
    } else {
      var front, r := history[..|history| - 1], history[|history| - 1];
      assert history == front + [r];
      WhatIsRemembered(front, id);
      FirstDirectionSnoc(front, r, id);
    }
  }
}
