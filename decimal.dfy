/**
 * Decimal numerals: how JavaScript writes a non-negative integer
 * (Number.prototype.toString) and how Number() reads a string of digits.
 */
module Decimal {

  predicate IsDigit(c: char) { '0' <= c <= '9' }

  predicate IsDigits(s: string) { forall i :: 0 <= i < |s| ==> IsDigit(s[i]) }

  /** A numeral as toString writes it: at least one digit, no leading zero. */
  predicate IsCanonical(s: string) {
    |s| >= 1 && IsDigits(s) && (s[0] == '0' ==> |s| == 1)
  }

  function DigitValue(c: char): (d: nat)
    requires IsDigit(c)
    ensures d < 10
  {
    c as int - '0' as int
  }

  function DigitChar(d: nat): (c: char)
    requires d < 10
    ensures IsDigit(c) && DigitValue(c) == d
  {
    ('0' as int + d) as char
  }

  /** Number(s) for a string of decimal digits. */
  function Value(s: string): nat
    requires IsDigits(s)
  {
    if s == [] then 0 else Value(s[..|s| - 1]) * 10 + DigitValue(s[|s| - 1])
  }

  /** n.toString(): the canonical numeral of n, which reads back as n. */
  function Text(n: nat): (s: string)
    ensures IsCanonical(s)
    ensures Value(s) == n
  {
    if n < 10 then
      [DigitChar(n)]
    else
      var high := Text(n / 10);
      var s := high + [DigitChar(n % 10)];
      assert s[..|s| - 1] == high;
      s
  }

  function Pow10(k: nat): nat {
    if k == 0 then 1 else 10 * Pow10(k - 1)
  }

  /** A numeral that does not start with '0' is at least 10^(length - 1). */
  lemma {:induction false} ValueLowerBound(s: string)
    requires IsDigits(s) && |s| >= 1 && s[0] != '0'
    ensures Value(s) >= Pow10(|s| - 1)
  {
    if |s| > 1 {
      var init := s[..|s| - 1];
      ValueLowerBound(init);
    }
  }

  /** Every canonical numeral is the toString of the number it denotes. */
  lemma {:induction false} TextOfValue(s: string)
    requires IsCanonical(s)
    ensures Text(Value(s)) == s
  {
    if |s| == 1 {
      assert s == [s[0]];
    } else {
      var init := s[..|s| - 1];
      var last := s[|s| - 1];
      assert init[0] == s[0];
      TextOfValue(init);
      ValueLowerBound(init);
      var n := Value(s);
      assert n / 10 == Value(init) && n % 10 == DigitValue(last);
      assert DigitChar(DigitValue(last)) == last;
      assert s == init + [last];
    }
  }

  /** Canonical numerals and natural numbers are in one-to-one correspondence. */
  lemma {:induction false} TextInjective(m: nat, n: nat)
    ensures Text(m) == Text(n) <==> m == n
  {
  }
}
