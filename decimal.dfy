/**
 Decimal digit strings: reading a run of digits as a number and writing a
 number as digits, shared by the date layout and the number formatting of
 the field readers.
 */
module Decimal {

  predicate IsDigit(c: char)
  {
    '0' <= c <= '9'
  }

  predicate AllDigits(s: string)
  {
    forall i :: 0 <= i < |s| ==> IsDigit(s[i])
  }

  function DigitChar(n: int): (c: char)
    requires 0 <= n < 10
    ensures IsDigit(c)
  {
    ('0' as int + n) as char
  }

  function DigitValue(c: char): int
    requires IsDigit(c)
  {
    c as int - '0' as int
  }

  function Pow10(w: nat): (p: int)
    ensures p >= 1
  {
    if w == 0 then 1 else 10 * Pow10(w - 1)
  }

  /** The value of a string of decimal digits, most significant first. */
  function DecimalValue(s: string): (n: int)
    requires AllDigits(s)
    ensures 0 <= n < Pow10(|s|)
  {
    if s == [] then 0
    else DecimalValue(s[..|s| - 1]) * 10 + DigitValue(s[|s| - 1])
  }

  /** `n` written with exactly `w` digits, padded with leading zeros. */
  function Digits(n: int, w: nat): (s: string)
    requires 0 <= n < Pow10(w)
    ensures |s| == w && AllDigits(s)
  {
    if w == 0 then [] else Digits(n / 10, w - 1) + [DigitChar(n % 10)]
  }

  /** Reading back what `Digits` wrote gives the number. */
  lemma {:induction false} DecimalValueOfDigits(n: int, w: nat)
    requires 0 <= n < Pow10(w)
    ensures DecimalValue(Digits(n, w)) == n
  {
    if w > 0 {
      var s := Digits(n, w);
      assert s[..|s| - 1] == Digits(n / 10, w - 1);
      DecimalValueOfDigits(n / 10, w - 1);
    }
  }

  /** Writing out the value of a digit string gives the string back. */
  lemma {:induction false} DigitsOfDecimalValue(s: string)
    requires AllDigits(s)
    ensures Digits(DecimalValue(s), |s|) == s
  {
    if s != [] {
      var init, last := s[..|s| - 1], s[|s| - 1];
      assert s == init + [last];
      DigitsOfDecimalValue(init);
      DigitsOfOneMore(init, last);
    }
  }

  /** One more digit at the end: the last digit of the value is that digit
      and the rest of the value is the value of the rest. */
  lemma DigitsOfOneMore(init: string, last: char)
    requires AllDigits(init) && IsDigit(last)
    ensures AllDigits(init + [last])
    ensures Digits(DecimalValue(init + [last]), |init| + 1)
            == Digits(DecimalValue(init), |init|) + [last]
  {
    DecimalValueSnoc(init, last);
    DigitsSnoc(DecimalValue(init + [last]), DecimalValue(init), last, |init|);
  }

  lemma DecimalValueSnoc(init: string, last: char)
    requires AllDigits(init) && IsDigit(last)
    ensures AllDigits(init + [last])
    ensures DecimalValue(init + [last]) == DecimalValue(init) * 10 + DigitValue(last)
  {
    assert (init + [last])[..|init|] == init;
  }

  /** `n` written with one more digit is `a` written followed by `c`, when `n`
      is `a` with digit `c` appended. */
  lemma DigitsSnoc(n: int, a: int, c: char, w: nat)
    requires 0 <= a < Pow10(w) && IsDigit(c) && n == a * 10 + DigitValue(c)
    ensures 0 <= n < Pow10(w + 1)
    ensures Digits(n, w + 1) == Digits(a, w) + [c]
  {
    assert n / 10 == a && n % 10 == DigitValue(c);
    assert DigitChar(DigitValue(c)) == c;
  }

  /** `n` in decimal without leading zeros, as Go's `%d` prints a natural number. */
  function NatString(n: nat): (s: string)
    ensures AllDigits(s) && 1 <= |s|
  {
    if n < 10 then [DigitChar(n)] else NatString(n / 10) + [DigitChar(n % 10)]
  }

  /** The shortest spelling: only zero itself starts with '0', and reading it
      back gives the number. */
  lemma {:induction false} NatStringRoundTrip(n: nat)
    ensures DecimalValue(NatString(n)) == n
    ensures NatString(n)[0] == '0' <==> n == 0
  {
    if n >= 10 {
      var s := NatString(n);
      assert s[..|s| - 1] == NatString(n / 10);
      NatStringRoundTrip(n / 10);
    }
  }
}
