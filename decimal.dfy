/**
 * Decimal text of integers, as JavaScript writes a number into a string (`year + '.'`,
 * `setAttribute('date-day', day)`) and reads it back with unary plus (`+getAttribute(...)`).
 * Only the integers the datepicker handles are covered: no fractions, exponents or NaN.
 */
module Decimal {

  predicate IsDigits(s: string)
  {
    forall i :: 0 <= i < |s| ==> '0' <= s[i] <= '9'
  }

  function DigitChar(d: int): (c: char)
    requires 0 <= d < 10
    ensures '0' <= c <= '9'
  {
    ('0' as int + d) as char
  }

  /** Shortest decimal text of a natural number: no leading zero unless it is 0 itself. */
  function NatToString(n: nat): (s: string)
    ensures |s| >= 1 && IsDigits(s)
    ensures s[0] == '0' ==> n == 0
    decreases n
  {
    if n < 10 then [DigitChar(n)] else NatToString(n / 10) + [DigitChar(n % 10)]
  }

  /** `String(n)` for an integer `n`. */
  function NumberToString(n: int): string
  {
    if n < 0 then "-" + NatToString(-n) else NatToString(n)
  }

  /** Value of a string of decimal digits, most significant first. */
  function DigitsValue(s: string): nat
    requires IsDigits(s)
  {
    if s == [] then 0 else 10 * DigitsValue(s[..|s| - 1]) + (s[|s| - 1] as int - '0' as int)
  }

  /** The strings unary plus turns into an integer here: optional minus sign, then digits. */
  predicate IsNumeral(s: string)
  {
    (|s| >= 1 && IsDigits(s)) || (|s| >= 2 && s[0] == '-' && IsDigits(s[1..]))
  }

  /** `+s` for a numeral `s`. */
  function NumeralValue(s: string): int
    requires IsNumeral(s)
  {
    if s[0] == '-' then -(DigitsValue(s[1..]) as int) else DigitsValue(s)
  }

  lemma {:induction false} NatToStringRoundTrip(n: nat)
    ensures DigitsValue(NatToString(n)) == n
    decreases n
  {
    if n >= 10 {
      NatToStringRoundTrip(n / 10);
      var s := NatToString(n);
      assert s[..|s| - 1] == NatToString(n / 10);
    }
  }

  /** Writing an integer as text and reading it back with unary plus gives the integer. */
  lemma NumberToStringRoundTrip(n: int)
    ensures IsNumeral(NumberToString(n))
    ensures NumeralValue(NumberToString(n)) == n
  {
    if n < 0 {
      NatToStringRoundTrip(-n);
      assert NumberToString(n)[1..] == NatToString(-n);
    } else {
      NatToStringRoundTrip(n);
    }
  }

  /** Distinct integers have distinct text. */
  lemma NumberToStringInjective(a: int, b: int)
    requires NumberToString(a) == NumberToString(b)
    ensures a == b
  {
    NumberToStringRoundTrip(a);
    NumberToStringRoundTrip(b);
  }

  /** The text of an integer is made of digits and the minus sign only. */
  lemma NumberToStringChars(n: int)
    ensures forall i :: 0 <= i < |NumberToString(n)| ==>
      NumberToString(n)[i] == '-' || '0' <= NumberToString(n)[i] <= '9'
  {
    if n < 0 {
      var s := NumberToString(n);
      assert forall i :: 1 <= i < |s| ==> s[i] == NatToString(-n)[i - 1];
    }
  }
}
