/**
 Canonical decimal numbers as the query parsers accept them: one spelling per number.
 */
module Decimal {

  predicate IsDigit(c: char) { '0' <= c <= '9' }

  predicate AllDigits(s: string) { forall i :: 0 <= i < |s| ==> IsDigit(s[i]) }

  /** `is_canonical_decimal`: a positive number without leading zeros. */
  predicate IsCanonical(s: string) { s != "" && s[0] != '0' && AllDigits(s) }

  /** `is_canonical_nonnegative_decimal`. */
  predicate IsCanonicalNonNegative(s: string) { s == "0" || IsCanonical(s) }

  function DigitChar(d: nat): (c: char)
    requires d < 10
    ensures IsDigit(c) && c as int - '0' as int == d
  {
    ('0' as int + d) as char
  }

  function Digits(n: nat): (s: string)
    ensures s != ""
  {
    if n < 10 then [DigitChar(n)] else Digits(n / 10) + [DigitChar(n % 10)]
  }

  /** What `str::parse` reads from a string of digits, before its range check. */
  function Value(s: string): nat
    requires AllDigits(s)
  {
    if s == "" then 0 else 10 * Value(s[..|s| - 1]) + (s[|s| - 1] as int - '0' as int)
  }

  lemma {:induction false} DigitsAreCanonical(n: nat)
    ensures IsCanonicalNonNegative(Digits(n)) && AllDigits(Digits(n)) && Value(Digits(n)) == n
    ensures n > 0 ==> IsCanonical(Digits(n))
  {
    var s := Digits(n);
    if n < 10 {
      assert s[..0] == "" && s[0] == DigitChar(n);
      assert n == 0 ==> DigitChar('0' as int - '0' as int) == '0';
    } else {
      DigitsAreCanonical(n / 10);
      assert s[..|s| - 1] == Digits(n / 10) && s[|s| - 1] == DigitChar(n % 10);
      assert s[0] == Digits(n / 10)[0];
    }
  }

  lemma {:induction false} ValueIsPositive(s: string)
    requires IsCanonical(s)
    ensures Value(s) > 0
  {
    if |s| == 1 {
      assert s[..0] == "";
    } else {
      ValueIsPositive(s[..|s| - 1]);
    }
  }

  lemma DigitsStep(v: nat, d: nat)
    requires v > 0 && d < 10
    ensures Digits(10 * v + d) == Digits(v) + [DigitChar(d)]
  {
    assert (10 * v + d) / 10 == v && (10 * v + d) % 10 == d;
  }

  lemma {:induction false} DigitsOfCanonical(s: string)
    requires IsCanonical(s)
    ensures Digits(Value(s)) == s
  {
    var n := |s| - 1;
    var d := s[n] as int - '0' as int;
    assert DigitChar(d) == s[n];
    if n == 0 {
      assert s[..0] == "" && Value(s) == d && s == [s[0]];
    } else {
      hide Digits;
      ValueIsPositive(s[..n]);
      DigitsOfCanonical(s[..n]);
      DigitsStep(Value(s[..n]), d);
      assert s == s[..n] + [s[n]];
    }
  }

  /** Every accepted number has exactly one spelling, and it is the printed one. */
  lemma {:induction false} OneSpelling(s: string)
    requires IsCanonicalNonNegative(s)
    ensures AllDigits(s) && Digits(Value(s)) == s
  {
    if s == "0" {
      assert s[..0] == "" && Value(s) == 0;
      assert DigitChar(s[0] as int - '0' as int) == s[0];
    } else {
      DigitsOfCanonical(s);
    }
  }
}
