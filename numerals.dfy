/** Decimal numerals of natural numbers, as `Number#toString` and template literals
    write them: no sign, no leading zero (except for zero itself). */
module Numerals {

  predicate IsDigit(c: char)
  {
    '0' <= c <= '9'
  }

  predicate AllDigits(s: string)
  {
    forall i :: 0 <= i < |s| ==> IsDigit(s[i])
  }

  /** A numeral without a redundant leading zero. */
  predicate Canonical(s: string)
  {
    |s| >= 1 && AllDigits(s) && (|s| > 1 ==> s[0] != '0')
  }

  function DigitChar(d: nat): (c: char)
    requires d < 10
    ensures IsDigit(c)
  {
    (('0' as int) + d) as char
  }

  function DigitValue(c: char): (d: nat)
    requires IsDigit(c)
    ensures d < 10
  {
    (c as int) - ('0' as int)
  }

  /** The numeral of `n`. */
  function Decimal(n: nat): (s: string)
    ensures Canonical(s)
    ensures n < 10 ==> |s| == 1
    ensures 10 <= n < 100 ==> |s| == 2
  {
    if n < 10 then [DigitChar(n)] else Decimal(n / 10) + [DigitChar(n % 10)]
  }

  /** The number a string of digits denotes; leading zeros add nothing. */
  function Value(s: string): nat
    requires AllDigits(s)
  {
    if s == [] then 0 else 10 * Value(s[..|s| - 1]) + DigitValue(s[|s| - 1])
  }

  /** Reading a numeral back gives the number. */
  lemma {:induction false} ValueOfDecimal(n: nat)
    ensures Value(Decimal(n)) == n
  {
    if n >= 10 {
      ValueOfDecimal(n / 10);
      var s := Decimal(n);
      assert s[..|s| - 1] == Decimal(n / 10);
    }
  }

  /** Every canonical numeral is the numeral of the number it denotes. */
  lemma {:induction false} DecimalOfValue(s: string)
    requires Canonical(s)
    ensures Decimal(Value(s)) == s
  {
    if |s| > 1 {
      var front := s[..|s| - 1];
      assert Canonical(front) by {
        assert front[0] == s[0];
      }
      DecimalOfValue(front);
      LeadingDigitPositive(front);
      assert Value(s) / 10 == Value(front);
      assert Value(s) % 10 == DigitValue(s[|s| - 1]);
    }
    else {
      assert Value(s) == DigitValue(s[0]) by {
        assert s[..0] == [];
      }
    }
  }

  /** A canonical numeral of two or more digits denotes at least 10. */
  lemma {:induction false} LeadingDigitPositive(s: string)
    requires Canonical(s)
    ensures |s| > 1 ==> Value(s) >= 10
    ensures Value(s) > 0 || s == "0"
  {
    if |s| > 1 {
      var front := s[..|s| - 1];
      assert Canonical(front) by {
        assert front[0] == s[0];
      }
      LeadingDigitPositive(front);
    } else {
      assert s[..0] == [];
    }
  }
}
