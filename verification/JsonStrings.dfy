/** Exactly which texts are JSON string literals, and what they mean: RFC 8259, section 7, with the bytes of
    a code point as RFC 3629, section 3, lays them out. */
module JsonStrings {
  import opened Text
  import opened Numbers
  import opened Encoding

  /** One piece of a literal: a character as it is, a backslash and a letter, or one or two `\u` escapes. */
  datatype Piece =
    | Plain(c: char)
    | Short(e: char)
    | Unit(h: string)
    | Two(g: string, h: string)

  predicate FourDigits(h: string) {
    |h| == 4 && forall i | 0 <= i < 4 :: IsDigit(h[i], 16)
  }

  /** A unit that is half of a pair cannot stand alone, nor two that are no pair together. */
  predicate Proper(p: Piece) {
    match p
    case Plain(c) => c as int >= 32 && c != '"' && c != '\\'
    case Short(e) => e in "\"\\/bfnrt"
    case Unit(h) => FourDigits(h) && !(0xD800 <= Worth(h, 16) <= 0xDFFF)
    case Two(g, h) =>
      FourDigits(g) && FourDigits(h) && 0xD800 <= Worth(g, 16) <= 0xDBFF && 0xDC00 <= Worth(h, 16) <= 0xDFFF
  }

  function PieceText(p: Piece): string {
    match p
    case Plain(c) => [c]
    case Short(e) => ['\\', e]
    case Unit(h) => "\\u" + h
    case Two(g, h) => "\\u" + g + ("\\u" + h)
  }

  /** What a piece means. */
  function Meaning(p: Piece): string
    requires Proper(p)
  {
    match p
    case Plain(c) => [c]
    case Short(e) =>
      [if e == 'b' then 8 as char else if e == 't' then 9 as char else if e == 'n' then 10 as char
       else if e == 'f' then 12 as char else if e == 'r' then 13 as char else e]
    case Unit(h) =>
      FourWorth(h);
      Utf8(Worth(h, 16))
    case Two(g, h) => Utf8(0x10000 + Worth(g, 16) % 0x400 * 0x400 + Worth(h, 16) % 0x400)
  }

  predicate AllProper(ps: seq<Piece>) {
    forall i | 0 <= i < |ps| :: Proper(ps[i])
  }

  function Written(ps: seq<Piece>): string {
    if |ps| == 0 then "" else PieceText(ps[0]) + Written(ps[1..])
  }

  function Meant(ps: seq<Piece>): string
    requires AllProper(ps)
  {
    if |ps| == 0 then "" else Meaning(ps[0]) + Meant(ps[1..])
  }

  // --- one code point ------------------------------------------------------

  /** A byte that continues a code point, with six of its bits. */
  predicate Continues(c: char) {
    0x80 <= c as int < 0xC0
  }

  function SixBits(c: char): int {
    c as int - 0x80
  }

  /** `s` is the code point `p` in UTF-8, in as few bytes as it takes. */
  predicate IsUtf8(s: string, p: nat) {
    || (|s| == 1 && p < 0x80 && s[0] as int == p)
    || (|s| == 2 && 0x80 <= p < 0x800 && 0xC0 <= s[0] as int && Continues(s[1]) &&
        p == (s[0] as int - 0xC0) * 64 + SixBits(s[1]))
    || (|s| == 3 && 0x800 <= p < 0x10000 && 0xE0 <= s[0] as int && Continues(s[1]) && Continues(s[2]) &&
        p == ((s[0] as int - 0xE0) * 64 + SixBits(s[1])) * 64 + SixBits(s[2]))
    || (|s| == 4 && 0x10000 <= p < 0x110000 && 0xF0 <= s[0] as int &&
        Continues(s[1]) && Continues(s[2]) && Continues(s[3]) &&
        p == (((s[0] as int - 0xF0) * 64 + SixBits(s[1])) * 64 + SixBits(s[2])) * 64 + SixBits(s[3]))
  }

  lemma Six(p: nat, x: nat, y: nat)
    requires p == x * 64 + y && y < 64
    ensures p / 64 == x && p % 64 == y
  {}

  lemma Sixes(p: nat)
    ensures p == p / 64 * 64 + p % 64 && p / 4096 == p / 64 / 64 && p / 262144 == p / 64 / 64 / 64
  {}

  lemma Utf8Exactly(p: nat, s: string)
    requires p < 0x110000
    ensures IsUtf8(s, p) <==> s == Utf8(p)
  {
    Utf8Is(p);
    if IsUtf8(s, p) { OneUtf8(p, s); }
  }

  lemma Utf8Is(p: nat)
    requires p < 0x110000
    ensures IsUtf8(Utf8(p), p)
  {
    Sixes(p);
    Sixes(p / 64);
    Sixes(p / 64 / 64);
  }

  lemma OneUtf8(p: nat, s: string)
    requires p < 0x110000 && IsUtf8(s, p)
    ensures s == Utf8(p)
  {
    Sixes(p);
    Sixes(p / 64);
    if 0x80 <= p < 0x800 {
      Six(p, s[0] as int - 0xC0, SixBits(s[1]));
    } else if 0x800 <= p < 0x10000 {
      Six(p, (s[0] as int - 0xE0) * 64 + SixBits(s[1]), SixBits(s[2]));
      Six(p / 64, s[0] as int - 0xE0, SixBits(s[1]));
    } else if 0x10000 <= p {
      Six(p, ((s[0] as int - 0xF0) * 64 + SixBits(s[1])) * 64 + SixBits(s[2]), SixBits(s[3]));
      Six(p / 64, (s[0] as int - 0xF0) * 64 + SixBits(s[1]), SixBits(s[2]));
      Six(p / 64 / 64, s[0] as int - 0xF0, SixBits(s[1]));
    }
  }

  // --- reading -------------------------------------------------------------

  lemma HexExactly(c: char)
    ensures IsDigit(c, 16) <==> HexValue(c).Some?
    ensures HexValue(c).Some? ==> HexValue(c).value == Amount(c)
  {
    DigitExactly(c, 16);
  }

  lemma FourWorth(h: string)
    requires |h| == 4
    ensures Worth(h, 16) == Amount(h[0]) * 4096 + Amount(h[1]) * 256 + Amount(h[2]) * 16 + Amount(h[3])
    ensures Worth(h, 16) < 0x10000
  {
    hide Amount;
    assert h[1..][1..] == h[2..] && h[2..][1..] == h[3..] && h[3..][1..] == "";
    assert Power(16, 0) == 1 && Power(16, 1) == 16 && Power(16, 2) == 256 && Power(16, 3) == 4096;
    assert Worth(h[3..], 16) == Amount(h[3]) + Worth("", 16);
    assert Worth(h[2..], 16) == Amount(h[2]) * 16 + Worth(h[3..], 16);
    assert Worth(h[1..], 16) == Amount(h[1]) * 256 + Worth(h[2..], 16);
  }

  lemma CodeUnitExactly(t: string)
    ensures CodeUnit(t) == if |t| >= 4 && FourDigits(t[..4]) then Some(Worth(t[..4], 16)) else None
  {
    hide Amount, HexValue, Worth, IsDigit;
    if |t| >= 4 {
      var h := t[..4];
      forall i | 0 <= i < 4 ensures h[i] == t[i] && (IsDigit(t[i], 16) <==> HexValue(t[i]).Some?) {
        HexExactly(t[i]);
      }
      forall i | 0 <= i < 4 ensures HexValue(t[i]).Some? ==> HexValue(t[i]).value == Amount(t[i]) {
        HexExactly(t[i]);
      }
      FourWorth(h);
    }
  }

  lemma UnitReads(h: string, t: string)
    requires Proper(Unit(h))
    ensures ReadEscape("u" + h + t) == Some((Meaning(Unit(h)), 5))
  {
    hide Utf8, Worth, IsDigit;
    var u := "u" + h + t;
    assert u[1..][..4] == h;
    CodeUnitExactly(u[1..]);
  }

  lemma TwoReads(g: string, h: string, t: string)
    requires Proper(Two(g, h))
    ensures ReadEscape("u" + g + ("\\u" + h) + t) == Some((Meaning(Two(g, h)), 11))
  {
    hide Utf8, Worth, IsDigit;
    var u := "u" + g + ("\\u" + h) + t;
    assert u[1..][..4] == g && u[7..][..4] == h && u[5] == '\\' && u[6] == 'u';
    CodeUnitExactly(u[1..]);
    CodeUnitExactly(u[7..]);
    PairIs(Worth(g, 16), Worth(h, 16));
  }

  /** Behind a backslash: a proper piece is read as what it means. */
  lemma EscapeReads(p: Piece, t: string)
    requires Proper(p) && !p.Plain?
    ensures ReadEscape((PieceText(p) + t)[1..]) == Some((Meaning(p), |PieceText(p)| - 1))
  {
    hide Utf8, Worth, IsDigit;
    var u := (PieceText(p) + t)[1..];
    match p
    case Short(e) =>
      assert u[0] == e;
    case Unit(h) =>
      hide ReadEscape, FourDigits;
      assert u == "u" + h + t;
      UnitReads(h, t);
    case Two(g, h) =>
      hide ReadEscape, FourDigits;
      assert u == "u" + g + ("\\u" + h) + t;
      TwoReads(g, h, t);
  }

  lemma PairIs(u: nat, v: nat)
    requires 0xD800 <= u < 0xDC00 <= v < 0xE000
    ensures Pair(u, v) == 0x10000 + u % 0x400 * 0x400 + v % 0x400
  {}

  /** What is read behind a backslash is a proper piece. */
  lemma EscapeIs(t: string) returns (p: Piece)
    requires ReadEscape(t).Some?
    ensures Proper(p) && !p.Plain? && PieceText(p) == "\\" + t[..ReadEscape(t).value.1]
  {
    hide Utf8, Worth, IsDigit;
    var n := ReadEscape(t).value.1;
    if n == 1 {
      p := Short(t[0]);
    } else if n == 5 {
      CodeUnitExactly(t[1..]);
      p := Unit(t[1..][..4]);
      assert t[..5] == "u" + t[1..][..4];
    } else {
      CodeUnitExactly(t[1..]);
      CodeUnitExactly(t[7..]);
      p := Two(t[1..][..4], t[7..][..4]);
      assert t[..11] == "u" + t[1..][..4] + ("\\u" + t[7..][..4]);
    }
  }

  /** A literal made of proper pieces is read as what they mean, up to its closing quote. */
  lemma {:induction false} PiecesRead(ps: seq<Piece>, rest: string)
    requires AllProper(ps)
    ensures ReadString(Written(ps) + "\"" + rest) == Some((Meant(ps), rest))
  {
    hide ReadEscape, Meaning, PieceText, Proper;
    if |ps| == 0 {
      assert "" + "\"" + rest == "\"" + rest && ("\"" + rest)[1..] == rest;
    } else {
      PiecesRead(ps[1..], rest);
      var p, t := ps[0], Written(ps[1..]) + "\"" + rest;
      assert Written(ps) + "\"" + rest == PieceText(p) + t;
      PieceReads(p, t);
    }
  }

  lemma PieceReads(p: Piece, t: string)
    requires Proper(p) && ReadString(t).Some?
    ensures ReadString(PieceText(p) + t) == Some((Meaning(p) + ReadString(t).value.0, ReadString(t).value.1))
  {
    if p.Plain? {
      ReadPlain(p.c, t);
    } else {
      EscapeReads(p, t);
      EscapeStarts(p);
      hide ReadEscape, Meaning, PieceText, Proper;
      var s := PieceText(p) + t;
      assert s[|PieceText(p)|..] == t;
    }
  }

  lemma EscapeStarts(p: Piece)
    requires !p.Plain?
    ensures |PieceText(p)| > 1 && PieceText(p)[0] == '\\'
  {}

  /** Whatever is read as a literal is made of proper pieces and a closing quote: nothing else is taken,
      no bare control character, no unknown escape, no half of a pair, no end without a quote. */
  lemma {:induction false} ReadIsPieces(t: string) returns (ps: seq<Piece>)
    requires ReadString(t).Some?
    ensures AllProper(ps) && t == Written(ps) + "\"" + ReadString(t).value.1
    decreases |t|
  {
    if t[0] == '"' {
      ps := [];
    } else {
      var p, n := FirstPiece(t);
      hide PieceText, Proper, ReadString;
      var more := ReadIsPieces(t[n..]);
      ps := [p] + more;
      assert ps[1..] == more && t == t[..n] + t[n..];
      assert Written(ps) == t[..n] + Written(more);
    }
  }

  lemma FirstPiece(t: string) returns (p: Piece, n: nat)
    requires ReadString(t).Some? && t[0] != '"'
    ensures 1 <= n <= |t| && Proper(p) && PieceText(p) == t[..n]
    ensures ReadString(t[n..]).Some? && ReadString(t[n..]).value.1 == ReadString(t).value.1
  {
    hide ReadEscape;
    if t[0] == '\\' {
      n := 1 + ReadEscape(t[1..]).value.1;
      p := EscapeIs(t[1..]);
      assert "\\" + t[1..][..n - 1] == t[..n];
    } else {
      p, n := Plain(t[0]), 1;
    }
  }

  /** So for every text: it is read as `s` with `rest` behind it exactly if it is pieces that mean `s`, a
      closing quote, and `rest`. */
  lemma StringExactly(t: string, s: string, rest: string)
    ensures ReadString(t) == Some((s, rest)) <==>
            exists ps :: AllProper(ps) && t == Written(ps) + "\"" + rest && Meant(ps) == s
  {
    if ReadString(t) == Some((s, rest)) {
      var ps := ReadIsPieces(t);
      PiecesRead(ps, rest);
    }
    forall ps | AllProper(ps) && t == Written(ps) + "\"" + rest && Meant(ps) == s
      ensures ReadString(t) == Some((s, rest))
    {
      PiecesRead(ps, rest);
    }
  }
}
