/** Decimal rendering and reading of natural numbers, as `fmt.Sprintf("%d", n)` prints
    a non-negative integer and as Semantic Versioning 2.0.0 reads a numeric identifier. */
module Decimal {

  predicate IsDigit(c: char) {
    '0' <= c <= '9'
  }

  predicate AllDigits(s: string) {
    forall i :: 0 <= i < |s| ==> IsDigit(s[i])
  }

  /** A numeric identifier of Semantic Versioning 2.0.0 section 2: `0`, or digits
      that do not start with `0`. */
  predicate IsNumeral(s: string) {
    |s| > 0 && AllDigits(s) && (s[0] == '0' ==> |s| == 1)
  }

  function DigitChar(d: nat): (c: char)
    requires d < 10
    ensures IsDigit(c)
  {
    ('0' as int + d) as char
  }

  function DigitValue(c: char): nat
    requires IsDigit(c)
  {
    c as int - '0' as int
  }

  /** The value of a string of decimal digits, most significant first. */
  function StringToNat(s: string): nat
    requires AllDigits(s)
  {
    if |s| == 0 then 0 else StringToNat(s[..|s| - 1]) * 10 + DigitValue(s[|s| - 1])
  }

  /** `n` in decimal, without leading zeros; reading it back gives `n`. */
  function NatToString(n: nat): (s: string)
    ensures IsNumeral(s)
    ensures s[0] == '0' <==> n == 0
    ensures StringToNat(s) == n
  {
    if n < 10 then
      [DigitChar(n)]
    else
      var high := NatToString(n / 10);
      var s := high + [DigitChar(n % 10)];
      assert s[..|s| - 1] == high;
      s
  }

  /** A numeral that does not start with `0` is worth at least one. */
  lemma {:induction false} NumeralPositive(s: string)
    requires |s| > 0 && AllDigits(s) && s[0] != '0'
    ensures StringToNat(s) >= 1
    decreases |s|
  {
    if |s| > 1 {
      NumeralPositive(s[..|s| - 1]);
    }
  }

  /** Every numeral is the rendering of its own value. */
  lemma {:induction false} NumeralRoundTrip(s: string)
    requires IsNumeral(s)
    ensures NatToString(StringToNat(s)) == s
    decreases |s|
  {
    if |s| > 1 {
      var high := s[..|s| - 1];
      var d := DigitValue(s[|s| - 1]);
      NumeralPositive(high);
      NumeralRoundTrip(high);
      var n := StringToNat(s);
      assert n == StringToNat(high) * 10 + d;
      assert n / 10 == StringToNat(high) && n % 10 == d;
      assert s == high + [DigitChar(d)];
    }
  }

  /** Distinct numerals have distinct values. */
  lemma NumeralInjective(s: string, t: string)
    requires IsNumeral(s) && IsNumeral(t) && StringToNat(s) == StringToNat(t)
    ensures s == t
  {
    NumeralRoundTrip(s);
    NumeralRoundTrip(t);
  }
}
