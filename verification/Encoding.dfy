/** The two encodings a ticket is made of: base64url without padding (RFC 4648, section 5) and JSON
    strings (RFC 8259, section 7). Here a byte is a `char` below 256. */
module Encoding {
  import opened Text

  predicate IsBytes(s: string) {
    forall i | 0 <= i < |s| :: s[i] as int < 256
  }

  // --- base64url -----------------------------------------------------------

  function Symbol(v: nat): char
    requires v < 64
  {
    if v < 26 then ('A' as int + v) as char
    else if v < 52 then ('a' as int + v - 26) as char
    else if v < 62 then ('0' as int + v - 52) as char
    else if v == 62 then '-'
    else '_'
  }

  function SymbolValue(c: char): (r: Option<nat>)
    ensures r.Some? ==> r.value < 64
  {
    if 'A' <= c <= 'Z' then Some(c as int - 'A' as int)
    else if 'a' <= c <= 'z' then Some(c as int - 'a' as int + 26)
    else if '0' <= c <= '9' then Some(c as int - '0' as int + 52)
    else if c == '-' then Some(62)
    else if c == '_' then Some(63)
    else None
  }

  function Encode(s: string): string
    requires IsBytes(s)
  {
    if |s| == 0 then ""
    else if |s| == 1 then
      var a := s[0] as int;
      [Symbol(a / 4), Symbol(a % 4 * 16)]
    else if |s| == 2 then
      var a, b := s[0] as int, s[1] as int;
      [Symbol(a / 4), Symbol(a % 4 * 16 + b / 16), Symbol(b % 16 * 4)]
    else
      var a, b, c := s[0] as int, s[1] as int, s[2] as int;
      [Symbol(a / 4), Symbol(a % 4 * 16 + b / 16), Symbol(b % 16 * 4 + c / 64), Symbol(c % 64)] + Encode(s[3..])
  }

  /** The strict decoder: no padding, no stray symbol, and no bits set that encode nothing. */
  function Decode(t: string): Option<string> {
    if |t| == 0 then Some("")
    else if |t| == 1 then None
    else
      match (SymbolValue(t[0]), SymbolValue(t[1]))
      case (Some(a), Some(b)) =>
        var first := (a * 4 + b / 16) as char;
        if |t| == 2 then (if b % 16 == 0 then Some([first]) else None)
        else (
          match SymbolValue(t[2])
          case None => None
          case Some(c) =>
            var second := (b % 16 * 16 + c / 4) as char;
            if |t| == 3 then (if c % 4 == 0 then Some([first, second]) else None)
            else
              match (SymbolValue(t[3]), Decode(t[4..]))
              case (Some(d), Some(rest)) => Some([first, second, (c % 4 * 64 + d) as char] + rest)
              case _ => None)
      case _ => None
  }

  lemma SymbolRoundTrip(v: nat)
    requires v < 64
    ensures SymbolValue(Symbol(v)) == Some(v)
  {}

  /** Three bytes make four sextets, and back. */
  lemma Octets(a: nat, b: nat, c: nat)
    requires a < 256 && b < 256 && c < 256
    ensures var p, q, r, u := a / 4, a % 4 * 16 + b / 16, b % 16 * 4 + c / 64, c % 64;
      p < 64 && q < 64 && r < 64 && p * 4 + q / 16 == a && q % 16 * 16 + r / 4 == b && r % 4 * 64 + u == c
    ensures b % 16 * 4 % 4 == 0 && a % 4 * 16 % 16 == 0
  {}

  lemma DecodeOne(x: char)
    requires x as int < 256
    ensures var a := x as int; Decode([Symbol(a / 4), Symbol(a % 4 * 16)]) == Some([x])
  {
    var a := x as int;
    Octets(a, 0, 0);
    SymbolRoundTrip(a / 4);
    SymbolRoundTrip(a % 4 * 16);
  }

  lemma DecodeTwo(x: char, y: char)
    requires x as int < 256 && y as int < 256
    ensures var a, b := x as int, y as int;
      Decode([Symbol(a / 4), Symbol(a % 4 * 16 + b / 16), Symbol(b % 16 * 4)]) == Some([x, y])
  {
    var a, b := x as int, y as int;
    Octets(a, b, 0);
    SymbolRoundTrip(a / 4);
    SymbolRoundTrip(a % 4 * 16 + b / 16);
    SymbolRoundTrip(b % 16 * 4);
    hide Symbol, SymbolValue;
  }

  lemma DecodeGroup(x: char, y: char, z: char, more: string)
    requires x as int < 256 && y as int < 256 && z as int < 256 && Decode(more).Some?
    ensures var a, b, c := x as int, y as int, z as int;
      var group := [Symbol(a / 4), Symbol(a % 4 * 16 + b / 16), Symbol(b % 16 * 4 + c / 64), Symbol(c % 64)];
      Decode(group + more) == Some([x, y, z] + Decode(more).value)
  {
    var a, b, c := x as int, y as int, z as int;
    Octets(a, b, c);
    SymbolRoundTrip(a / 4);
    SymbolRoundTrip(a % 4 * 16 + b / 16);
    SymbolRoundTrip(b % 16 * 4 + c / 64);
    SymbolRoundTrip(c % 64);
    var group := [Symbol(a / 4), Symbol(a % 4 * 16 + b / 16), Symbol(b % 16 * 4 + c / 64), Symbol(c % 64)];
    assert (group + more)[4..] == more;
  }

  lemma EncodeShort(s: string)
    requires IsBytes(s) && |s| < 3
    ensures |s| == 0 ==> Encode(s) == ""
    ensures |s| == 1 ==> var a := s[0] as int; Encode(s) == [Symbol(a / 4), Symbol(a % 4 * 16)]
    ensures |s| == 2 ==>
              var a, b := s[0] as int, s[1] as int;
              Encode(s) == [Symbol(a / 4), Symbol(a % 4 * 16 + b / 16), Symbol(b % 16 * 4)]
  {}

  lemma DecodeEncodeOne(s: string)
    requires IsBytes(s) && |s| == 1
    ensures Decode(Encode(s)) == Some(s)
  {
    EncodeShort(s);
    DecodeOne(s[0]);
    hide *;
    assert s == [s[0]];
  }

  lemma DecodeEncodeTwo(s: string)
    requires IsBytes(s) && |s| == 2
    ensures Decode(Encode(s)) == Some(s)
  {
    EncodeShort(s);
    DecodeTwo(s[0], s[1]);
    hide *;
    assert s == [s[0], s[1]];
  }

  lemma DecodeEncodeMore(s: string)
    requires IsBytes(s) && |s| > 2 && Decode(Encode(s[3..])) == Some(s[3..])
    ensures Decode(Encode(s)) == Some(s)
  {
    hide Decode, Encode, Symbol;
    EncodeMore(s);
    DecodeGroup(s[0], s[1], s[2], Encode(s[3..]));
    assert s == [s[0], s[1], s[2]] + s[3..];
  }

  lemma EncodeMore(s: string)
    requires IsBytes(s) && |s| > 2
    ensures IsBytes(s[3..])
    ensures var a, b, c := s[0] as int, s[1] as int, s[2] as int;
      Encode(s) ==
        [Symbol(a / 4), Symbol(a % 4 * 16 + b / 16), Symbol(b % 16 * 4 + c / 64), Symbol(c % 64)] + Encode(s[3..])
  {}

  lemma {:induction false} DecodeEncode(s: string)
    requires IsBytes(s)
    ensures Decode(Encode(s)) == Some(s)
  {
    if |s| > 2 {
      DecodeEncode(s[3..]);
      DecodeEncodeMore(s);
    } else if |s| == 2 {
      DecodeEncodeTwo(s);
    } else if |s| == 1 {
      DecodeEncodeOne(s);
    }
  }

  lemma SymbolOf(c: char)
    requires SymbolValue(c).Some?
    ensures Symbol(SymbolValue(c).value) == c
  {}

  /** Four sextets make three bytes, and back. */
  lemma Sextets(a: nat, b: nat, c: nat, d: nat)
    requires a < 64 && b < 64 && c < 64 && d < 64
    ensures var x, y, z := a * 4 + b / 16, b % 16 * 16 + c / 4, c % 4 * 64 + d;
      x < 256 && y < 256 && z < 256 && x / 4 == a && x % 4 * 16 + y / 16 == b && y % 16 * 4 + z / 64 == c && z % 64 == d
  {}

  lemma ShortSextets(a: nat, b: nat, c: nat)
    requires a < 64 && b < 64 && c < 64
    ensures b % 16 == 0 ==> (a * 4 + b / 16) % 4 * 16 == b
    ensures c % 4 == 0 ==> (b % 16 * 16 + c / 4) % 16 * 4 == c
  {}

  lemma EncodeDecodeTwo(t: string)
    requires |t| == 2 && Decode(t).Some?
    ensures IsBytes(Decode(t).value) && Encode(Decode(t).value) == t
  {
    SymbolOf(t[0]);
    SymbolOf(t[1]);
    var a, b := SymbolValue(t[0]).value, SymbolValue(t[1]).value;
    Sextets(a, b, 0, 0);
    ShortSextets(a, b, 0);
    assert Decode(t) == Some([(a * 4 + b / 16) as char]);
    hide Decode;
    assert t == [t[0], t[1]];
  }

  lemma EncodeDecodeThree(t: string)
    requires |t| == 3 && Decode(t).Some?
    ensures IsBytes(Decode(t).value) && Encode(Decode(t).value) == t
  {
    SymbolOf(t[0]);
    SymbolOf(t[1]);
    SymbolOf(t[2]);
    var a, b, c := SymbolValue(t[0]).value, SymbolValue(t[1]).value, SymbolValue(t[2]).value;
    Sextets(a, b, c, 0);
    ShortSextets(a, b, c);
    assert Decode(t) == Some([(a * 4 + b / 16) as char, (b % 16 * 16 + c / 4) as char]);
    hide Decode, Symbol, SymbolValue;
    assert t == [t[0], t[1], t[2]];
  }

  lemma EncodeDecodeMore(t: string)
    requires |t| >= 4 && Decode(t).Some?
    requires Decode(t[4..]).Some? ==> IsBytes(Decode(t[4..]).value) && Encode(Decode(t[4..]).value) == t[4..]
    ensures IsBytes(Decode(t).value) && Encode(Decode(t).value) == t
  {
    hide Decode, SymbolValue, Symbol;
    var bytes := FirstGroup(t);
    var rest := Decode(t[4..]).value;
    assert (bytes + rest)[3..] == rest;
    assert t == t[..4] + t[4..];
  }

  /** The decoder accepts one spelling only: what it accepts is what the encoder writes. */
  lemma {:induction false} EncodeDecode(t: string)
    requires Decode(t).Some?
    ensures IsBytes(Decode(t).value) && Encode(Decode(t).value) == t
  {
    if |t| == 2 {
      EncodeDecodeTwo(t);
    } else if |t| == 3 {
      EncodeDecodeThree(t);
    } else if |t| >= 4 {
      EncodeDecode(t[4..]);
      EncodeDecodeMore(t);
    }
  }

  /** The first four symbols, as the three bytes they encode. */
  lemma FirstGroup(t: string) returns (bytes: string)
    requires |t| >= 4 && Decode(t).Some?
    ensures |bytes| == 3 && IsBytes(bytes) && Decode(t[4..]).Some? && Decode(t) == Some(bytes + Decode(t[4..]).value)
    ensures var a, b, c := bytes[0] as int, bytes[1] as int, bytes[2] as int;
      t[..4] == [Symbol(a / 4), Symbol(a % 4 * 16 + b / 16), Symbol(b % 16 * 4 + c / 64), Symbol(c % 64)]
  {
    SymbolOf(t[0]);
    SymbolOf(t[1]);
    SymbolOf(t[2]);
    SymbolOf(t[3]);
    var a, b, c, d := SymbolValue(t[0]).value, SymbolValue(t[1]).value, SymbolValue(t[2]).value, SymbolValue(t[3]).value;
    Sextets(a, b, c, d);
    bytes := [(a * 4 + b / 16) as char, (b % 16 * 16 + c / 4) as char, (c % 4 * 64 + d) as char];
  }

  predicate TicketChar(c: char) {
    '0' <= c <= '9' || 'a' <= c <= 'z' || 'A' <= c <= 'Z' || c == '-' || c == '_'
  }

  lemma {:induction false} EncodeIsPlain(s: string)
    requires IsBytes(s)
    ensures forall i | 0 <= i < |Encode(s)| :: TicketChar(Encode(s)[i])
    ensures |s| > 0 ==> |Encode(s)| > 0
  {
    if |s| <= 2 {
    } else {
      EncodeIsPlain(s[3..]);
    }
  }

  // --- JSON strings --------------------------------------------------------

  function HexDigit(d: nat): char
    requires d < 16
  {
    if d < 10 then ('0' as int + d) as char else ('a' as int + d - 10) as char
  }

  function HexValue(c: char): (r: Option<nat>)
    ensures r.Some? ==> r.value < 16
  {
    if '0' <= c <= '9' then Some(c as int - '0' as int)
    else if 'a' <= c <= 'f' then Some(c as int - 'a' as int + 10)
    else if 'A' <= c <= 'F' then Some(c as int - 'A' as int + 10)
    else None
  }

  /** One byte inside a string literal, as the serialiser writes it. */
  function EscapeChar(c: char): string {
    if c == '"' then "\\\""
    else if c == '\\' then "\\\\"
    else if c as int == 8 then "\\b"
    else if c as int == 9 then "\\t"
    else if c as int == 10 then "\\n"
    else if c as int == 12 then "\\f"
    else if c as int == 13 then "\\r"
    else if c as int < 32 then ['\\', 'u', '0', '0', HexDigit(c as int / 16), HexDigit(c as int % 16)]
    else [c]
  }

  function EscapeString(s: string): string {
    if |s| == 0 then "" else EscapeChar(s[0]) + EscapeString(s[1..])
  }

  function Literal(s: string): string {
    "\"" + EscapeString(s) + "\""
  }

  /** Four hex digits. */
  function CodeUnit(t: string): (r: Option<nat>)
    ensures r.Some? ==> |t| >= 4 && r.value < 0x10000
  {
    if |t| < 4 then None
    else
      match (HexValue(t[0]), HexValue(t[1]), HexValue(t[2]), HexValue(t[3]))
      case (Some(a), Some(b), Some(c), Some(d)) => Some(a * 4096 + b * 256 + c * 16 + d)
      case _ => None
  }

  /** A code point in UTF-8. */
  function Utf8(p: nat): string
    requires p < 0x110000
  {
    if p < 0x80 then [p as char]
    else if p < 0x800 then [(0xC0 + p / 64) as char, (0x80 + p % 64) as char]
    else if p < 0x10000 then [(0xE0 + p / 4096) as char, (0x80 + p / 64 % 64) as char, (0x80 + p % 64) as char]
    else [(0xF0 + p / 262144) as char, (0x80 + p / 4096 % 64) as char, (0x80 + p / 64 % 64) as char, (0x80 + p % 64) as char]
  }

  /** What stands for one escape, after the backslash: the bytes it means and how much it takes. */
  function ReadEscape(t: string): (r: Option<(string, nat)>)
    ensures r.Some? ==> 1 <= r.value.1 <= |t|
  {
    if |t| == 0 then None
    else if t[0] == '"' || t[0] == '\\' || t[0] == '/' then Some(([t[0]], 1))
    else if t[0] == 'b' then Some(([8 as char], 1))
    else if t[0] == 't' then Some(([9 as char], 1))
    else if t[0] == 'n' then Some(([10 as char], 1))
    else if t[0] == 'f' then Some(([12 as char], 1))
    else if t[0] == 'r' then Some(([13 as char], 1))
    else if t[0] != 'u' then None
    else
      match CodeUnit(t[1..])
      case None => None
      case Some(u) =>
        if 0xDC00 <= u < 0xE000 then None
        else if u < 0xD800 || u >= 0xE000 then Some((Utf8(u), 5))
        else if |t| < 11 || t[5] != '\\' || t[6] != 'u' then None
        else
          match CodeUnit(t[7..])
          case None => None
          case Some(v) => if 0xDC00 <= v < 0xE000 then Some((Utf8(Pair(u, v)), 11)) else None
  }

  /** The code point of a surrogate pair. */
  function Pair(u: nat, v: nat): (p: nat)
    requires 0xD800 <= u < 0xDC00 <= v < 0xE000
    ensures 0x10000 <= p < 0x110000
  {
    0x10000 + (u - 0xD800) * 1024 + (v - 0xDC00)
  }

  /** The inside of a literal: the string it means, and the text behind the closing quote. */
  function ReadString(t: string): (r: Option<(string, string)>)
    ensures r.Some? ==> |r.value.1| < |t|
    decreases |t|
  {
    if |t| == 0 || t[0] as int < 32 then None
    else if t[0] == '"' then Some(("", t[1..]))
    else if t[0] != '\\' then
      match ReadString(t[1..])
      case None => None
      case Some((s, rest)) => Some(([t[0]] + s, rest))
    else
      match ReadEscape(t[1..])
      case None => None
      case Some((front, n)) =>
        match ReadString(t[1 + n..])
        case None => None
        case Some((s, rest)) => Some((front + s, rest))
  }

  lemma ReadPlain(c: char, t: string)
    requires ReadString(t).Some? && c as int >= 32 && c != '"' && c != '\\'
    ensures ReadString([c] + t) == Some(([c] + ReadString(t).value.0, ReadString(t).value.1))
  {
    assert ([c] + t)[1..] == t;
  }

  lemma ReadShortEscape(e: char, c: char, t: string)
    requires ReadString(t).Some? && e != 'u' && ReadEscape([e] + t) == Some(([c], 1))
    ensures ReadString(['\\', e] + t) == Some(([c] + ReadString(t).value.0, ReadString(t).value.1))
  {
    hide ReadEscape;
    var s := ['\\', e] + t;
    assert s[1..] == [e] + t && s[2..] == t;
  }

  lemma ReadLongEscape(n: nat, t: string)
    requires ReadString(t).Some? && n < 32
    ensures ReadString(['\\', 'u', '0', '0', HexDigit(n / 16), HexDigit(n % 16)] + t) ==
            Some(([n as char] + ReadString(t).value.0, ReadString(t).value.1))
  {
    var s := ['\\', 'u', '0', '0', HexDigit(n / 16), HexDigit(n % 16)] + t;
    var u := s[1..];
    HexRoundTrip(n / 16);
    HexRoundTrip(n % 16);
    assert u[1..][0] == '0' && u[1..][1] == '0' && u[1..][2] == HexDigit(n / 16) && u[1..][3] == HexDigit(n % 16);
    assert CodeUnit(u[1..]) == Some(n);
    assert ReadEscape(u) == Some(([n as char], 5));
    assert s[6..] == t;
  }

  /** One escaped byte is read back as that byte. */
  lemma ReadEscapedChar(c: char, t: string)
    requires ReadString(t).Some?
    ensures ReadString(EscapeChar(c) + t) == Some(([c] + ReadString(t).value.0, ReadString(t).value.1))
  {
    var e := EscapeChar(c);
    if |e| == 1 {
      ReadPlain(c, t);
    } else if |e| == 2 {
      assert e == ['\\', e[1]];
      ReadShortEscape(e[1], c, t);
    } else {
      ReadLongEscape(c as int, t);
    }
  }

  lemma HexRoundTrip(d: nat)
    requires d < 16
    ensures HexValue(HexDigit(d)) == Some(d)
  {}

  /** Every string survives its literal: quotes, backslashes, control characters and all. */
  lemma {:induction false} LiteralReadsBack(s: string, rest: string)
    ensures ReadString(EscapeString(s) + "\"" + rest) == Some((s, rest))
  {
    hide EscapeChar, ReadEscape;
    if |s| == 0 {
      assert ("\"" + rest)[1..] == rest;
      assert "" + "\"" + rest == "\"" + rest;
    } else {
      LiteralReadsBack(s[1..], rest);
      var t := EscapeString(s[1..]) + "\"" + rest;
      ReadEscapedChar(s[0], t);
      assert EscapeString(s) + "\"" + rest == EscapeChar(s[0]) + t;
      assert [s[0]] + s[1..] == s;
    }
  }

  lemma {:induction false} EscapedIsBytes(s: string)
    requires IsBytes(s)
    ensures IsBytes(EscapeString(s))
  {
    if |s| == 0 {
    } else {
      EscapedIsBytes(s[1..]);
      assert IsBytes(EscapeChar(s[0]));
    }
  }
}
