/** A JSON coding of the head of an answer, written out: the coding the bridge's META chunk relies on
    exists. The object is `{"status":N,"headers":{"name":"value",...}}`, its members in order. */
module HeadJson {
  import opened Text
  import opened Numbers
  import opened Encoding
  import opened Protocol

  function PrintStatus(status: int): string {
    if status < 0 then "-" + Decimal(-status) else Decimal(status)
  }

  /** The members of the headers object, and the two braces that end the text. */
  function PrintHeaders(headers: seq<(string, string)>, first: bool): string {
    if |headers| == 0 then "}}"
    else
      (if first then "" else ",") +
      (Literal(headers[0].0) + (":" + (Literal(headers[0].1) + PrintHeaders(headers[1..], false))))
  }

  const OPENING := "{\"status\":"
  const MIDDLE := ",\"headers\":{"

  function Stringify(head: Head): string {
    OPENING + (PrintStatus(head.status) + (MIDDLE + PrintHeaders(head.headers, true)))
  }

  function Behind(s: string, front: string): Option<string> {
    if StartsWith(s, front) then Some(s[|front|..]) else None
  }

  function ReadStatus(s: string): Option<int> {
    var negative := |s| > 0 && s[0] == '-';
    match Value(if negative then s[1..] else s, 10)
    case None => None
    case Some(n) => Some(if negative then 0 - n else n)
  }

  /** A quoted string, and the text behind it. */
  function ReadQuoted(s: string): (r: Option<(string, string)>)
    ensures r.Some? ==> |r.value.1| < |s|
  {
    if |s| > 0 && s[0] == '"' then ReadString(s[1..]) else None
  }

  function ReadHeaders(s: string, first: bool): Option<seq<(string, string)>>
    decreases |s|
  {
    if s == "}}" then Some([])
    else if !first && (|s| == 0 || s[0] != ',') then None
    else
      match ReadQuoted(if first then s else s[1..])
      case None => None
      case Some((name, s1)) =>
        if |s1| == 0 || s1[0] != ':' then None
        else
          match ReadQuoted(s1[1..])
          case None => None
          case Some((value, s2)) =>
            match ReadHeaders(s2, false)
            case None => None
            case Some(rest) => Some([(name, value)] + rest)
  }

  function Parse(s: string): Option<Head> {
    match Behind(s, OPENING)
    case None => None
    case Some(s1) =>
      match Find(s1, ",")
      case None => None
      case Some(k) =>
        match (ReadStatus(s1[..k]), Behind(s1[k..], MIDDLE))
        case (Some(status), Some(s2)) =>
          (match ReadHeaders(s2, true)
           case None => None
           case Some(headers) => Some(Head(status, headers)))
        case _ => None
  }

  lemma QuotedReads(s: string, rest: string)
    ensures ReadQuoted(Literal(s) + rest) == Some((s, rest))
  {
    LiteralReadsBack(s, rest);
    assert (Literal(s) + rest)[1..] == EscapeString(s) + "\"" + rest;
  }

  lemma {:induction false} HeadersRead(headers: seq<(string, string)>, first: bool)
    ensures ReadHeaders(PrintHeaders(headers, first), first) == Some(headers)
  {
    hide ReadQuoted, Literal;
    if |headers| == 0 {
      assert PrintHeaders(headers, first) == "}}";
    } else {
      var h, rest := headers[0], PrintHeaders(headers[1..], false);
      var behindName := ":" + (Literal(h.1) + rest);
      var text := PrintHeaders(headers, first);
      HeadersRead(headers[1..], false);
      QuotedReads(h.0, behindName);
      QuotedReads(h.1, rest);
      QuoteComesFirst(h.0, behindName);
      if first {
        assert text == Literal(h.0) + behindName;
      } else {
        assert text[1..] == Literal(h.0) + behindName && text[0] == ',';
      }
      assert behindName[1..] == Literal(h.1) + rest;
      assert headers == [h] + headers[1..];
    }
  }

  lemma QuoteComesFirst(s: string, rest: string)
    ensures |Literal(s) + rest| > 0 && (Literal(s) + rest)[0] == '"'
  {}

  lemma StatusReads(status: int)
    ensures ReadStatus(PrintStatus(status)) == Some(status) && ',' !in PrintStatus(status)
  {
    var n := if status < 0 then -status else status;
    var digits := Decimal(n);
    ValuePrint(n, 10, false);
    hide Value, Print;
    if status < 0 {
      assert ("-" + digits)[1..] == digits;
    } else {
      assert digits[0] in digits;
    }
  }

  lemma ParseStringify(head: Head)
    ensures Parse(Stringify(head)) == Some(head)
  {
    hide ReadStatus, PrintStatus, ReadHeaders, PrintHeaders, Find;
    var status, members := PrintStatus(head.status), PrintHeaders(head.headers, true);
    var behind := MIDDLE + members;
    StatusReads(head.status);
    HeadersRead(head.headers, true);
    var s1 := status + behind;
    assert Stringify(head)[|OPENING|..] == s1;
    assert Stringify(head)[..|OPENING|] == OPENING;
    NoCharIsClean(status, ',');
    assert s1 == status + [','] + behind[1..];
    FindAfterClean(status, [','], behind[1..]);
    assert s1[..|status|] == status && s1[|status|..] == behind;
    assert behind[..|MIDDLE|] == MIDDLE && behind[|MIDDLE|..] == members;
  }

  /** So a lawful configuration exists for every buffer of a byte or more, and every transport. */
  lemma LawfulConfigExists(cap: nat, budget: nat, starts: bool, outcome: nat -> Outcome)
    requires cap >= 1
    ensures Lawful(Config(cap, budget, starts, outcome, Stringify, Parse))
  {
    forall head: Head ensures Parse(Stringify(head)) == Some(head) {
      ParseStringify(head);
    }
  }
}
