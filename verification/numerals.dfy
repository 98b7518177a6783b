/** Decimal numerals: the ASCII digit grammar shared by the semester regex
    (`\d`), Java's `Integer.parseInt` and `String.format("%d", …)`. */
module Numerals {
  import opened Wrappers

  /** Bounds of Java's 32-bit `int`. */
  const IntMin: int := -0x8000_0000
  const IntMax: int := 0x7fff_ffff

  predicate InIntRange(n: int) {
    IntMin <= n <= IntMax
  }

  predicate IsDigit(c: char) {
    '0' <= c <= '9'
  }

  predicate AllDigits(s: string) {
    forall i | 0 <= i < |s| :: IsDigit(s[i])
  }

  function DigitValue(c: char): (d: nat)
    requires IsDigit(c)
    ensures d < 10
  {
    (c as int) - ('0' as int)
  }

  function DigitChar(d: nat): (c: char)
    requires d < 10
    ensures IsDigit(c) && DigitValue(c) == d
  {
    (('0' as int) + d) as char
  }

  function Pow10(n: nat): (p: nat)
    ensures p >= 1
  {
    if n == 0 then 1 else 10 * Pow10(n - 1)
  }

  /** The value of a digit string, most significant digit first. */
  function DigitsValue(s: string): nat
    requires AllDigits(s)
  {
    if s == [] then 0 else 10 * DigitsValue(s[..|s| - 1]) + DigitValue(s[|s| - 1])
  }

  /** The shortest decimal rendering of `n`, as `String.format("%d", n)` prints it. */
  function ShowNat(n: nat): (s: string)
    ensures |s| > 0 && AllDigits(s)
  {
    if n < 10 then [DigitChar(n)] else ShowNat(n / 10) + [DigitChar(n % 10)]
  }

  /** `Integer.toString(n)`: a leading '-' for negative values. */
  function ShowInt(n: int): (s: string)
    ensures |s| > 0
  {
    if n < 0 then "-" + ShowNat(-n) else ShowNat(n)
  }

  /** Java's `Integer.parseInt(s)` (radix 10): an optional '+' or '-', then
      one or more digits, and a value that fits an `int`. `None` stands for
      the `NumberFormatException` the Java method throws otherwise. */
  function ParseInt(s: string): (r: Option<int>)
    ensures r.Some? ==> InIntRange(r.value)
    ensures r.Some? <==>
              || (AllDigits(s) && |s| > 0 && DigitsValue(s) <= IntMax)
              || (|s| > 1 && s[0] == '+' && AllDigits(s[1..]) && DigitsValue(s[1..]) <= IntMax)
              || (|s| > 1 && s[0] == '-' && AllDigits(s[1..]) && DigitsValue(s[1..]) <= -IntMin)
  {
    if |s| == 0 then None
    else
      var signed := s[0] == '-' || s[0] == '+';
      var digits := if signed then s[1..] else s;
      if |digits| == 0 || !AllDigits(digits) then None
      else
        var v: int := if s[0] == '-' then 0 - DigitsValue(digits) else DigitsValue(digits) as int;
        if InIntRange(v) then Some(v) else None
  }

  /** The value `Integer.parseInt` returns for a run of digits: the digits'
      value, unchanged by a leading '+' and negated by a leading '-', or the
      exception when that value leaves the `int` range. */
  lemma ParseIntValue(d: string)
    requires |d| > 0 && AllDigits(d)
    ensures ParseInt(d) == if DigitsValue(d) <= IntMax then Some(DigitsValue(d) as int) else None
    ensures ParseInt("+" + d) == ParseInt(d)
    ensures ParseInt("-" + d) == if DigitsValue(d) <= -IntMin then Some(0 - DigitsValue(d)) else None
  {
    ParsePlus(d);
    ParseMinus(d);
  }

  /** A leading '+' is read and dropped. */
  lemma ParsePlus(d: string)
    requires |d| > 0 && AllDigits(d)
    ensures ParseInt("+" + d) == ParseInt(d)
  {
    assert ("+" + d)[1..] == d && !IsDigit(("+" + d)[0]);
  }

  /** A leading '-' negates the digits' value, which may then be one more
      than the largest `int`, since the range is asymmetric. */
  lemma ParseMinus(d: string)
    requires |d| > 0 && AllDigits(d)
    ensures ParseInt("-" + d) == if DigitsValue(d) <= -IntMin then Some(0 - DigitsValue(d)) else None
  {
    assert ("-" + d)[1..] == d && !IsDigit(("-" + d)[0]);
  }

  /** A leading zero does not change a digit string's value. */
  lemma {:induction false} LeadingZero(d: string)
    requires AllDigits(d)
    ensures AllDigits("0" + d) && DigitsValue("0" + d) == DigitsValue(d)
  {
    var z := "0" + d;
    assert AllDigits(z) by {
      assert forall i | 1 <= i < |z| :: z[i] == d[i - 1];
    }
    if d != [] {
      var n := |d| - 1;
      assert z[..|z| - 1] == "0" + d[..n];
      assert z[|z| - 1] == d[n];
      LeadingZero(d[..n]);
    }
  }

  lemma {:induction false} DigitsValueBound(s: string)
    requires AllDigits(s)
    ensures DigitsValue(s) < Pow10(|s|)
  {
    if s != [] {
      DigitsValueBound(s[..|s| - 1]);
    }
  }

  /** Digit strings of equal length with equal values are equal. */
  lemma {:induction false} DigitsValueInjective(a: string, b: string)
    requires AllDigits(a) && AllDigits(b) && |a| == |b|
    requires DigitsValue(a) == DigitsValue(b)
    ensures a == b
  {
    if a != [] {
      var n := |a| - 1;
      var x, y := DigitsValue(a[..n]), DigitsValue(b[..n]);
      assert 10 * x + DigitValue(a[n]) == 10 * y + DigitValue(b[n]);
      assert DigitValue(a[n]) == DigitValue(b[n]) && x == y;
      DigitsValueInjective(a[..n], b[..n]);
      assert a == a[..n] + [a[n]] && b == b[..n] + [b[n]];
    }
  }

  /** Reading back a rendered natural number gives the number. */
  lemma {:induction false} ShowNatRoundTrip(n: nat)
    ensures DigitsValue(ShowNat(n)) == n
  {
    if n >= 10 {
      var s := ShowNat(n);
      assert s[..|s| - 1] == ShowNat(n / 10);
      ShowNatRoundTrip(n / 10);
    }
  }

  /** `Integer.parseInt(Integer.toString(n)) == n` for every `int` value. */
  lemma ParseShowRoundTrip(n: int)
    requires InIntRange(n)
    ensures ParseInt(ShowInt(n)) == Some(n)
  {
    if n < 0 {
      var s := ShowInt(n);
      assert s[1..] == ShowNat(-n);
      ShowNatRoundTrip(-n);
    } else {
      ShowNatRoundTrip(n);
    }
  }

  /** Different numbers render differently (used for ledger keys "0", "1", …). */
  lemma ShowNatInjective(m: nat, n: nat)
    requires m != n
    ensures ShowNat(m) != ShowNat(n)
  {
    ShowNatRoundTrip(m);
    ShowNatRoundTrip(n);
  }
}
