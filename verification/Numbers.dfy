/** Numbers in text: printing, and the strict parsing of an unsigned machine integer. */
module Numbers {
  import opened Text

  function DigitChar(d: nat, upper: bool): char
    requires d < 16
  {
    if d < 10 then ('0' as int + d) as char else ((if upper then 'A' else 'a') as int + d - 10) as char
  }

  function DigitValue(c: char): Option<nat> {
    if '0' <= c <= '9' then Some(c as int - '0' as int)
    else if 'a' <= c <= 'f' then Some(c as int - 'a' as int + 10)
    else if 'A' <= c <= 'F' then Some(c as int - 'A' as int + 10)
    else None
  }

  /** `n` in base `radix`, without leading zeros. */
  function Print(n: nat, radix: nat, upper: bool): (r: string)
    requires 2 <= radix <= 16
    ensures |r| >= 1 && forall c | c in r :: DigitValue(c).Some? && DigitValue(c).value < radix
  {
    if n < radix then [DigitChar(n, upper)]
    else
      QuotientAndRemainder(n, radix);
      Print(n / radix, radix, upper) + [DigitChar(n % radix, upper)]
  }

  function Decimal(n: nat): string {
    Print(n, 10, false)
  }

  function Shifted(v: nat, radix: nat, d: nat): nat {
    v * radix + d
  }

  function Value(s: string, radix: nat): Option<nat> {
    if |s| == 0 then Some(0)
    else
      match (Value(s[..|s| - 1], radix), DigitValue(s[|s| - 1]))
      case (Some(v), Some(d)) => if d < radix then Some(Shifted(v, radix, d)) else None
      case _ => None
  }

  /** `from_str_radix` of an unsigned type whose largest value is `max`: one leading plus sign, at
      least one digit, and an error on overflow. */
  function ParseUnsigned(s: string, radix: nat, max: nat): Option<nat> {
    var digits := if |s| > 0 && s[0] == '+' then s[1..] else s;
    if |digits| == 0 then None
    else
      match Value(digits, radix)
      case None => None
      case Some(v) => if v <= max then Some(v) else None
  }

  lemma {:induction false} ValuePrint(n: nat, radix: nat, upper: bool)
    requires 2 <= radix <= 16
    ensures Value(Print(n, radix, upper), radix) == Some(n)
  {
    hide Value, DigitChar, DigitValue;
    if n < radix {
      DigitRoundTrip(n, upper);
      ValueOfNothing(radix);
      ValueSnoc("", DigitChar(n, upper), radix);
      assert "" + [DigitChar(n, upper)] == [DigitChar(n, upper)];
    } else {
      var q, r := n / radix, n % radix;
      QuotientAndRemainder(n, radix);
      ValuePrint(q, radix, upper);
      DigitRoundTrip(r, upper);
      ValueSnoc(Print(q, radix, upper), DigitChar(r, upper), radix);
    }
  }

  lemma QuotientAndRemainder(n: nat, k: nat)
    requires 2 <= k <= n
    ensures (n / k) * k + n % k == n
    ensures 0 <= n / k < n && 0 <= n % k < k
  {
    var q, r := n / k, n % k;
    assert q * k + r == n;
    assert q * k >= q * 2;
  }

  lemma ValueOfNothing(radix: nat)
    ensures Value("", radix) == Some(0)
  {}

  lemma DigitRoundTrip(d: nat, upper: bool)
    requires d < 16
    ensures DigitValue(DigitChar(d, upper)) == Some(d)
  {}

  lemma ValueSnoc(front: string, last: char, radix: nat)
    requires Value(front, radix).Some? && DigitValue(last).Some? && DigitValue(last).value < radix
    ensures Value(front + [last], radix) == Some(Value(front, radix).value * radix + DigitValue(last).value)
  {
    var s := front + [last];
    assert s[..|s| - 1] == front;
  }

  lemma ValueOfAnotherZero(front: string, radix: nat)
    requires radix >= 2 && Value(front, radix) == Some(0)
    ensures Value(front + "0", radix) == Some(0)
  {
    ValueSnoc(front, '0', radix);
    assert 0 * radix == 0;
  }

  lemma ValueByFront(s: string, t: string, radix: nat)
    requires |s| > 0 && |t| > 0 && DigitValue(s[|s| - 1]) == DigitValue(t[|t| - 1])
    requires Value(s[..|s| - 1], radix) == Value(t[..|t| - 1], radix)
    ensures Value(s, radix) == Value(t, radix)
  {
    hide Shifted, DigitValue;
  }

  /** Letter case does not matter to a value. */
  lemma {:induction false} ValueIgnoresCase(s: string, t: string, radix: nat)
    requires EqIgnoreCase(s, t)
    ensures Value(s, radix) == Value(t, radix)
    ensures (forall c | c in t :: DigitValue(c).Some?) ==> forall c | c in s :: DigitValue(c).Some?
    decreases |s|
  {
    hide Value, Lower;
    assert |Lower(s)| == |s| && |Lower(t)| == |t|;
    forall i | 0 <= i < |s| ensures DigitValue(s[i]) == DigitValue(t[i]) {
      assert Lower(s)[i] == Lower(t)[i];
      DigitIgnoresCase(s[i]);
      DigitIgnoresCase(t[i]);
    }
    if |s| > 0 {
      var n := |s| - 1;
      assert Lower(s[..n]) == Lower(s)[..n] && Lower(t[..n]) == Lower(t)[..n];
      ValueIgnoresCase(s[..n], t[..n], radix);
      ValueByFront(s, t, radix);
    } else {
      assert s == t;
    }
    if forall c | c in t :: DigitValue(c).Some? {
      forall c | c in s ensures DigitValue(c).Some? {
        var i :| 0 <= i < |s| && s[i] == c;
        assert t[i] in t;
      }
    }
  }

  lemma DigitIgnoresCase(c: char)
    ensures DigitValue(LowerChar(c)) == DigitValue(c)
  {}

  function Zeros(k: nat): string {
    if k == 0 then "" else "0" + Zeros(k - 1)
  }

  lemma {:induction false} ValueZeros(k: nat, s: string, radix: nat)
    requires radix >= 2
    ensures Value(Zeros(k) + s, radix) == Value(s, radix)
    decreases k, |s|
  {
    hide Value, DigitValue;
    var t := Zeros(k) + s;
    if |s| > 0 {
      ValueZeros(k, s[..|s| - 1], radix);
      assert t[..|t| - 1] == Zeros(k) + s[..|s| - 1];
      ValueByFront(t, s, radix);
    } else if k > 0 {
      ZerosSnoc(k - 1);
      ValueZeros(k - 1, "", radix);
      ValueOfNothing(radix);
      ValueOfAnotherZero(Zeros(k - 1) + "", radix);
      assert s == "" && t == Zeros(k - 1) + "" + "0";
    } else {
      assert t == s;
    }
  }

  lemma {:induction false} ZerosSnoc(k: nat)
    ensures Zeros(k + 1) == Zeros(k) + "0" && forall c | c in Zeros(k) :: c == '0'
  {
    if k == 0 {
    } else {
      ZerosSnoc(k - 1);
    }
  }

  // --- what digits are worth, told from a table ----------------------------

  /** `c` is the digit for `d`, in either letter case. */
  predicate Means(c: char, d: nat) {
    d < 16 && (c == "0123456789abcdef"[d] || c == "0123456789ABCDEF"[d])
  }

  predicate IsDigit(c: char, radix: nat) {
    exists d: nat :: d < radix && Means(c, d)
  }

  function Power(radix: nat, n: nat): nat {
    if n == 0 then 1 else radix * Power(radix, n - 1)
  }

  /** What a digit stands for; anything else stands for nothing. */
  function Amount(c: char): (d: nat)
    ensures d < 16
  {
    if exists d: nat | d < 16 :: Means(c, d) then
      OneMeaning(c);
      hide Means;
      var d: nat :| d < 16 && Means(c, d);
      d
    else 0
  }

  /** What the digits of `s` are worth, each by the place it stands in. */
  function Worth(s: string, radix: nat): nat {
    if |s| == 0 then 0 else Amount(s[0]) * Power(radix, |s| - 1) + Worth(s[1..], radix)
  }

  lemma DigitExactly(c: char, radix: nat)
    requires radix <= 16
    ensures IsDigit(c, radix) <==> DigitValue(c).Some? && DigitValue(c).value < radix
    ensures DigitValue(c).Some? ==> Amount(c) == DigitValue(c).value
  {
    OneMeaning(c);
  }

  lemma OneMeaning(c: char)
    ensures DigitValue(c).Some? ==> Means(c, DigitValue(c).value)
    ensures forall d: nat | Means(c, d) :: DigitValue(c) == Some(d)
  {}

  lemma {:induction false} WorthSnoc(s: string, c: char, radix: nat)
    ensures Worth(s + [c], radix) == Worth(s, radix) * radix + Amount(c)
  {
    hide Amount;
    if |s| == 0 {
      assert s + [c] == [c] && [c][1..] == "";
    } else {
      var t := s[1..];
      assert (s + [c])[1..] == t + [c] && (s + [c])[0] == s[0];
      WorthSnoc(t, c, radix);
      Distributes(Amount(s[0]), radix, Power(radix, |t|), Worth(t, radix));
    }
  }

  lemma Distributes(d: nat, radix: nat, p: nat, w: nat)
    ensures d * (radix * p) + w * radix == (d * p + w) * radix
  {}

  lemma {:induction false} ValueIsWorth(s: string, radix: nat)
    requires radix <= 16
    ensures Value(s, radix).Some? <==> forall i | 0 <= i < |s| :: IsDigit(s[i], radix)
    ensures Value(s, radix).Some? ==> Value(s, radix).value == Worth(s, radix)
  {
    hide DigitValue, IsDigit, Worth, Amount;
    if |s| > 0 {
      var front, last := s[..|s| - 1], s[|s| - 1];
      assert s == front + [last];
      ValueIsWorth(front, radix);
      DigitExactly(last, radix);
      WorthSnoc(front, last, radix);
      assert forall i | 0 <= i < |front| :: front[i] == s[i];
    } else {
      WorthOfNothing(radix);
    }
  }

  lemma WorthOfNothing(radix: nat)
    ensures Worth("", radix) == 0
  {}
}
