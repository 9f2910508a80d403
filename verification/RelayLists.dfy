/** Which relays a list names, told from how it is written: words with any commas and white space between,
    in front and behind. */
module RelayLists {
  import opened Text
  import opened Relays

  /** What may stand between two entries. */
  predicate Gap(s: string) {
    forall i | 0 <= i < |s| :: s[i] in {',', ' ', '\t', '\n', '\r', 11 as char, 12 as char}
  }

  predicate Entry(s: string) {
    |s| > 0 && forall i | 0 <= i < |s| :: s[i] !in {',', ' ', '\t', '\n', '\r', 11 as char, 12 as char}
  }

  /** The entries of a list as somebody may write it: `gaps[i]` stands in front of the `i`-th, the last gap
      behind them all. */
  function Written(entries: seq<string>, gaps: seq<string>): string
    requires |gaps| == |entries| + 1
  {
    if |entries| == 0 then gaps[0] else gaps[0] + (entries[0] + Written(entries[1..], gaps[1..]))
  }

  lemma SeparatorsAre(c: char)
    ensures IsSeparator(c) <==> c in {',', ' ', '\t', '\n', '\r', 11 as char, 12 as char}
  {}

  lemma {:induction false} GapSkipped(gap: string, rest: string)
    requires Gap(gap)
    ensures Words(gap + rest) == Words(rest)
  {
    if |gap| == 0 {
      assert gap + rest == rest;
    } else {
      SeparatorsAre(gap[0]);
      assert (gap + rest)[1..] == gap[1..] + rest;
      GapSkipped(gap[1..], rest);
    }
  }

  lemma EntryIsWord(s: string)
    requires Entry(s)
    ensures IsWord(s)
  {
    forall i | 0 <= i < |s| ensures !IsSeparator(s[i]) {
      SeparatorsAre(s[i]);
    }
  }

  lemma {:induction false} WordsOfWritten(entries: seq<string>, gaps: seq<string>)
    requires |gaps| == |entries| + 1
    requires forall i | 0 <= i < |entries| :: Entry(entries[i])
    requires forall i | 0 <= i < |gaps| :: Gap(gaps[i]) && (0 < i < |entries| ==> |gaps[i]| > 0)
    ensures Words(Written(entries, gaps)) == entries
  {
    hide Words, Gap, Entry;
    if |entries| == 0 {
      GapSkipped(gaps[0], "");
      NoWords();
      assert gaps[0] + "" == gaps[0];
    } else {
      var rest := Written(entries[1..], gaps[1..]);
      assert forall i | 0 <= i < |entries[1..]| :: entries[1..][i] == entries[i + 1];
      assert forall i | 0 <= i < |gaps[1..]| :: gaps[1..][i] == gaps[i + 1];
      WordsOfWritten(entries[1..], gaps[1..]);
      RestBeginsWithGap(entries, gaps);
      EntryIsWord(entries[0]);
      FirstWord(entries[0], rest);
      GapSkipped(gaps[0], entries[0] + rest);
      assert entries == [entries[0]] + entries[1..];
    }
  }

  lemma RestBeginsWithGap(entries: seq<string>, gaps: seq<string>)
    requires |gaps| == |entries| + 1 && |entries| > 0
    requires forall i | 0 <= i < |gaps| :: Gap(gaps[i]) && (0 < i < |entries| ==> |gaps[i]| > 0)
    ensures var rest := Written(entries[1..], gaps[1..]); |rest| > 0 ==> IsSeparator(rest[0])
  {
    var rest := Written(entries[1..], gaps[1..]);
    assert gaps[1..][0] == gaps[1] && Gap(gaps[1]);
    if |rest| > 0 {
      assert rest[0] == gaps[1][0];
      SeparatorsAre(rest[0]);
    }
  }

  lemma {:induction false} AllParsed(parse: UrlParser, words: seq<string>)
    ensures ParseAll(parse, words).Some? <==> forall i | 0 <= i < |words| :: parse(words[i]).Some?
    ensures ParseAll(parse, words).Some? ==>
              |ParseAll(parse, words).value| == |words| &&
              forall i | 0 <= i < |words| :: Some(ParseAll(parse, words).value[i]) == parse(words[i])
  {
    if |words| == 0 {
    } else {
      AllParsed(parse, words[1..]);
      assert forall i | 0 <= i < |words[1..]| :: words[1..][i] == words[i + 1];
      if forall i | 0 <= i < |words| :: parse(words[i]).Some? {
        forall i | 0 <= i < |words[1..]| ensures parse(words[1..][i]).Some? {
          assert parse(words[i + 1]).Some?;
        }
      }
    }
  }

  /** The relays a list names are exactly what its entries parse to, however it is written; and it is an
      error exactly if one of them parses to nothing. */
  lemma WhatAListNames(parse: UrlParser, entries: seq<string>, gaps: seq<string>)
    requires |gaps| == |entries| + 1
    requires forall i | 0 <= i < |entries| :: Entry(entries[i])
    requires forall i | 0 <= i < |gaps| :: Gap(gaps[i]) && (0 < i < |entries| ==> |gaps[i]| > 0)
    ensures Normalize(parse, Written(entries, gaps)).Some? <==> forall i | 0 <= i < |entries| :: parse(entries[i]).Some?
    ensures RelaySet(parse, Written(entries, gaps)).Some? <==> forall i | 0 <= i < |entries| :: parse(entries[i]).Some?
    ensures RelaySet(parse, Written(entries, gaps)).Some? ==>
              forall u :: u in RelaySet(parse, Written(entries, gaps)).value <==>
                          exists i :: 0 <= i < |entries| && parse(entries[i]) == Some(u)
  {
    hide Words, Written, ParseAll;
    WordsOfWritten(entries, gaps);
    AllParsed(parse, entries);
    var spec := Written(entries, gaps);
    if RelaySet(parse, spec).Some? {
      var urls := ParseAll(parse, entries).value;
      forall u
        ensures u in RelaySet(parse, spec).value <==> exists i :: 0 <= i < |entries| && parse(entries[i]) == Some(u)
      {
        InElements(urls, u);
        if u in urls { var i :| 0 <= i < |urls| && urls[i] == u; assert parse(entries[i]) == Some(u); }
        if i :| 0 <= i < |entries| && parse(entries[i]) == Some(u) { assert urls[i] == u; }
      }
    }
  }

  lemma InElements(urls: seq<string>, u: string)
    ensures u in Elements(urls) <==> u in urls
  {}

  /** Two lists have the same canonical form exactly if their entries parse to the same relays: told from
      the lists as they are written. */
  lemma SameFormSameRelays(
    parse: UrlParser, a: seq<string>, gapsA: seq<string>, b: seq<string>, gapsB: seq<string>)
    requires Lawful(parse) && |gapsA| == |a| + 1 && |gapsB| == |b| + 1
    requires forall i | 0 <= i < |a| :: Entry(a[i]) && parse(a[i]).Some?
    requires forall i | 0 <= i < |b| :: Entry(b[i]) && parse(b[i]).Some?
    requires forall i | 0 <= i < |gapsA| :: Gap(gapsA[i]) && (0 < i < |a| ==> |gapsA[i]| > 0)
    requires forall i | 0 <= i < |gapsB| :: Gap(gapsB[i]) && (0 < i < |b| ==> |gapsB[i]| > 0)
    ensures Normalize(parse, Written(a, gapsA)) == Normalize(parse, Written(b, gapsB)) <==>
            forall u :: (exists i :: 0 <= i < |a| && parse(a[i]) == Some(u)) <==>
                        (exists i :: 0 <= i < |b| && parse(b[i]) == Some(u))
  {
    hide Normalize, RelaySet, Written, Lawful, Gap, Entry;
    WhatAListNames(parse, a, gapsA);
    WhatAListNames(parse, b, gapsB);
    NormalizeTellsTheSet(parse, Written(a, gapsA), Written(b, gapsB));
    var us, vs := RelaySet(parse, Written(a, gapsA)).value, RelaySet(parse, Written(b, gapsB)).value;
    assert us == vs <==> forall u :: u in us <==> u in vs;
  }
}
