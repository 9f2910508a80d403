/** Byte strings, and the few library operations on them that the framing code is written in.

    A byte is a `char`: wire constants can then be written as string literals, and nothing but base64
    depends on a byte being below 256. White space and letter case are the ASCII ones. */
module Text {

  datatype Option<+T> = None | Some(value: T)

  const CRLF := "\r\n"
  const CRLFCRLF := "\r\n\r\n"

  /** `needle` stands in `s` at index `i`. */
  predicate At(s: string, i: nat, needle: string) {
    i + |needle| <= |s| && s[i..i + |needle|] == needle
  }

  predicate Contains(s: string, needle: string) {
    exists i: nat | i <= |s| :: At(s, i, needle)
  }

  /** The search of `find` and `windows(n).position(..)`, from index `i` on. */
  function FindFrom(s: string, needle: string, i: nat): (r: Option<nat>)
    ensures r.Some? ==> i <= r.value <= r.value + |needle| <= |s|
    decreases |s| - i
  {
    if i + |needle| > |s| then None
    else if At(s, i, needle) then Some(i)
    else if i == |s| then None
    else FindFrom(s, needle, i + 1)
  }

  /** First index of `needle` in `s`. */
  function Find(s: string, needle: string): (r: Option<nat>)
    ensures r.Some? ==> r.value + |needle| <= |s|
  {
    FindFrom(s, needle, 0)
  }

  lemma {:induction false} FindFromFirst(s: string, needle: string, i: nat)
    ensures match FindFrom(s, needle, i)
            case None => forall j: nat | i <= j :: !At(s, j, needle)
            case Some(k) => At(s, k, needle) && forall j: nat | i <= j < k :: !At(s, j, needle)
    decreases |s| - i
  {
    if i + |needle| > |s| || At(s, i, needle) || i >= |s| {
    } else {
      FindFromFirst(s, needle, i + 1);
    }
  }

  /** The search finds the first occurrence, and nothing exactly when there is none. */
  lemma FindFirst(s: string, needle: string)
    ensures match Find(s, needle)
            case None => forall j: nat :: !At(s, j, needle)
            case Some(k) => FirstAt(s, needle, k)
  {
    FindFromFirst(s, needle, 0);
  }

  /** `k` is the first index at which `needle` stands. */
  ghost predicate FirstAt(s: string, needle: string, k: nat) {
    At(s, k, needle) && forall j: nat | j < k :: !At(s, j, needle)
  }

  lemma FindIs(s: string, needle: string, k: nat)
    requires FirstAt(s, needle, k)
    ensures Find(s, needle) == Some(k)
  {
    FindFirst(s, needle);
  }

  /** Whether `needle` stands at `i` is decided by the bytes it would cover. */
  lemma AtInPrefix(a: string, b: string, i: nat, needle: string)
    requires i + |needle| <= |a|
    ensures At(a + b, i, needle) == At(a, i, needle)
  {
    assert (a + b)[i..i + |needle|] == a[i..i + |needle|];
  }

  lemma AtInSuffix(a: string, b: string, i: nat, needle: string)
    requires |a| <= i
    ensures At(a + b, i, needle) == At(b, i - |a|, needle)
  {
    if i + |needle| <= |a| + |b| {
      assert (a + b)[i..i + |needle|] == b[i - |a|..i - |a| + |needle|];
    }
  }

  lemma AtChars(s: string, i: nat, needle: string)
    requires At(s, i, needle)
    ensures forall k | 0 <= k < |needle| :: s[i + k] == needle[k]
    ensures |needle| > 0 ==> s[i] == needle[0]
    ensures |needle| > 2 ==> s[i + 2] == needle[2]
    ensures |needle| > 0 ==> s[i + |needle| - 1] == needle[|needle| - 1]
  {
    forall k | 0 <= k < |needle| ensures s[i + k] == needle[k] {
      assert s[i..i + |needle|][k] == s[i + k];
    }
  }

  /** Cutting a string can only take occurrences away, never move the first one. */
  lemma FindInCut(s: string, needle: string, k: nat)
    requires k <= |s|
    ensures match Find(s, needle)
            case None => Find(s[..k], needle) == None
            case Some(p) => Find(s[..k], needle) == (if p + |needle| <= k then Some(p) else None)
  {
    assert s[..k] + s[k..] == s;
    forall i: nat ensures At(s[..k], i, needle) <==> i + |needle| <= k && At(s, i, needle) {
      if i + |needle| <= k { AtInPrefix(s[..k], s[k..], i, needle); }
    }
    FindFirst(s, needle);
    FindFirst(s[..k], needle);
  }

  /** `line` can be followed by `sep` without an earlier `sep` appearing. */
  ghost predicate Clean(line: string, sep: string) {
    forall i: nat | i < |line| :: !At(line + sep, i, sep)
  }

  /** What is found in a text is found in any longer one. */
  lemma FoundStays(s: string, more: string, needle: string)
    requires Find(s, needle).Some?
    ensures Find(s + more, needle) == Find(s, needle)
  {
    FindFirst(s, needle);
    var k := Find(s, needle).value;
    AtFits(s, k, needle);
    forall j: nat | j <= k ensures At(s + more, j, needle) == At(s, j, needle) {
      AtInPrefix(s, more, j, needle);
    }
    FindIs(s + more, needle, k);
  }

  lemma AtFits(s: string, k: nat, needle: string)
    requires At(s, k, needle)
    ensures k + |needle| <= |s|
  {}

  lemma FindAfterClean(line: string, sep: string, tail: string)
    requires Clean(line, sep)
    ensures Find(line + sep + tail, sep) == Some(|line|)
  {
    var s := line + sep + tail;
    forall i: nat | i < |line| ensures !At(s, i, sep) {
      AtInPrefix(line + sep, tail, i, sep);
    }
    assert s[|line|..|line| + |sep|] == sep;
    FindIs(s, sep, |line|);
  }

  /** A line holding no CRLF is clean, even when it ends in a lone CR. */
  lemma NoCrlfIsClean(line: string)
    ensures Clean(line, CRLF) <==> !Contains(line, CRLF)
  {
    var s := line + CRLF;
    forall i: nat | i < |line| ensures At(s, i, CRLF) <==> At(line, i, CRLF) {
      if i + 2 <= |line| {
        AtInPrefix(line, CRLF, i, CRLF);
      } else {
        assert s[i..i + 2][1] == s[i + 1] == '\r';
      }
    }
    if !Clean(line, CRLF) {
      var i: nat :| i < |line| && At(s, i, CRLF);
      assert At(line, i, CRLF);
    }
  }

  /** A one-character separator: clean means not holding it. */
  lemma NoCharIsClean(line: string, c: char)
    requires c !in line
    ensures Clean(line, [c])
  {
    forall i: nat | i < |line| ensures !At(line + [c], i, [c]) {
      assert (line + [c])[i..i + 1][0] == line[i];
    }
  }

  /** `str::split` on a non-empty separator. */
  function Split(s: string, sep: string): (r: seq<string>)
    requires |sep| > 0
    ensures |r| > 0
    decreases |s|
  {
    match Find(s, sep)
    case None => [s]
    case Some(k) => [s[..k]] + Split(s[k + |sep|..], sep)
  }

  function Join(lines: seq<string>, sep: string): string {
    if |lines| == 0 then ""
    else if |lines| == 1 then lines[0]
    else lines[0] + sep + Join(lines[1..], sep)
  }

  lemma {:induction false} SplitJoin(lines: seq<string>, sep: string)
    requires |lines| > 0 && |sep| > 0
    requires forall l | l in lines :: Clean(l, sep)
    ensures Split(Join(lines, sep), sep) == lines
  {
    var line, s := lines[0], Join(lines, sep);
    assert Clean(line, sep);
    if |lines| == 1 {
      forall i: nat ensures !At(line, i, sep) {
        if At(line, i, sep) { AtInPrefix(line, sep, i, sep); }
      }
      FindFirst(line, sep);
    } else {
      FindAfterClean(line, sep, Join(lines[1..], sep));
      assert s[..|line|] == line;
      assert s[|line| + |sep|..] == Join(lines[1..], sep);
      SplitJoin(lines[1..], sep);
    }
  }

  /** `str::split_once(':')` and its like. */
  function SplitOnce(s: string, c: char): Option<(string, string)> {
    match Find(s, [c])
    case None => None
    case Some(k) => Some((s[..k], s[k + 1..]))
  }

  predicate IsSpace(c: char) {
    c == ' ' || '\t' <= c <= '\r'
  }

  function TrimStart(s: string): string {
    if |s| > 0 && IsSpace(s[0]) then TrimStart(s[1..]) else s
  }

  function TrimEnd(s: string): string {
    if |s| > 0 && IsSpace(s[|s| - 1]) then TrimEnd(s[..|s| - 1]) else s
  }

  function Trim(s: string): string {
    TrimEnd(TrimStart(s))
  }

  /** What trimming is: white space off both ends, and no more of it there. */
  lemma TrimExactly(s: string) returns (a: string, b: string)
    ensures s == a + Trim(s) + b
    ensures (forall i | 0 <= i < |a| :: IsSpace(a[i])) && forall i | 0 <= i < |b| :: IsSpace(b[i])
    ensures |Trim(s)| > 0 ==> !IsSpace(Trim(s)[0]) && !IsSpace(Trim(s)[|Trim(s)| - 1])
  {
    a := StartExactly(s);
    b := EndExactly(TrimStart(s));
    assert s == a + (Trim(s) + b) == a + Trim(s) + b;
  }

  lemma {:induction false} StartExactly(s: string) returns (a: string)
    ensures s == a + TrimStart(s) && forall i | 0 <= i < |a| :: IsSpace(a[i])
    ensures |TrimStart(s)| > 0 ==> !IsSpace(TrimStart(s)[0])
  {
    if |s| == 0 || !IsSpace(s[0]) {
      a := "";
    } else {
      a := StartExactly(s[1..]);
      a := [s[0]] + a;
      assert s == [s[0]] + s[1..];
    }
  }

  lemma {:induction false} EndExactly(s: string) returns (b: string)
    ensures s == TrimEnd(s) + b && forall i | 0 <= i < |b| :: IsSpace(b[i])
    ensures |TrimEnd(s)| > 0 ==> TrimEnd(s)[0] == s[0] && !IsSpace(TrimEnd(s)[|TrimEnd(s)| - 1])
  {
    hide TrimEnd;
    if |s| == 0 || !IsSpace(s[|s| - 1]) {
      EndStays(s);
      b := "";
    } else {
      var front := s[..|s| - 1];
      var more := EndExactly(front);
      b := more + [s[|s| - 1]];
      EndCut(s);
      assert s == front + [s[|s| - 1]];
      assert TrimEnd(front) + more + [s[|s| - 1]] == TrimEnd(front) + b;
    }
  }

  lemma EndCut(s: string)
    requires |s| > 0 && IsSpace(s[|s| - 1])
    ensures TrimEnd(s) == TrimEnd(s[..|s| - 1])
  {}

  lemma EndStays(s: string)
    requires |s| == 0 || !IsSpace(s[|s| - 1])
    ensures TrimEnd(s) == s
  {}

  predicate NoSpace(s: string) {
    forall c | c in s :: !IsSpace(c)
  }

  lemma TrimNoSpace(s: string)
    requires NoSpace(s)
    ensures Trim(s) == s
  {}

  function LowerChar(c: char): char {
    if 'A' <= c <= 'Z' then (c as int + 32) as char else c
  }

  function Lower(s: string): (r: string)
    ensures |r| == |s| && forall i | 0 <= i < |s| :: r[i] == LowerChar(s[i])
  {
    seq(|s|, i requires 0 <= i < |s| => LowerChar(s[i]))
  }

  predicate EqIgnoreCase(a: string, b: string) {
    Lower(a) == Lower(b)
  }

  predicate StartsWith(s: string, p: string) {
    |p| <= |s| && s[..|p|] == p
  }

  function Concat(parts: seq<string>): string {
    if |parts| == 0 then "" else parts[0] + Concat(parts[1..])
  }

  lemma {:induction false} ConcatAppend(a: seq<string>, b: seq<string>)
    ensures Concat(a + b) == Concat(a) + Concat(b)
  {
    if |a| == 0 {
      assert a + b == b;
    } else {
      assert (a + b)[1..] == a[1..] + b;
      ConcatAppend(a[1..], b);
    }
  }

  lemma ConcatSnoc(a: seq<string>, x: string)
    ensures Concat(a + [x]) == Concat(a) + x
  {
    ConcatAppend(a, [x]);
    assert Concat([x]) == x;
  }
}
