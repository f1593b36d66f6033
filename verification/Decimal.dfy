/**
 Decimal digit strings, the numbers they denote, and the canonical digit string
 of a number.
 */
module Decimal {

  predicate IsDigit(c: char) {
    '0' <= c <= '9'
  }

  predicate AllDigits(s: string) {
    forall i :: 0 <= i < |s| ==> IsDigit(s[i])
  }

  /** A written number: one or more digits, leading zeros allowed. */
  predicate IsNumeral(s: string) {
    s != "" && AllDigits(s)
  }

  /** A numeral without superfluous leading zeros, as semantic versioning requires. */
  predicate IsCanonical(s: string) {
    IsNumeral(s) && (s[0] == '0' ==> |s| == 1)
  }

  function DigitValue(c: char): nat
    requires IsDigit(c)
  {
    (c - '0') as int
  }

  function DigitChar(d: nat): (c: char)
    requires d < 10
    ensures IsDigit(c) && DigitValue(c) == d
  {
    '0' + d as char
  }

  /** The number a digit string denotes, most significant digit first. */
  function Value(s: string): nat
    requires AllDigits(s)
  {
    if s == "" then 0 else 10 * Value(s[..|s| - 1]) + DigitValue(s[|s| - 1])
  }

  /** The canonical digit string of a number. */
  function Show(n: nat): (s: string)
    ensures IsNumeral(s)
  {
    if n < 10 then [DigitChar(n)] else Show(n / 10) + [DigitChar(n % 10)]
  }

  lemma {:induction false} ValueOfShow(n: nat)
    ensures IsCanonical(Show(n)) && Value(Show(n)) == n
    ensures n > 0 ==> Show(n)[0] != '0'
  {
    var s := Show(n);
    if n < 10 {
      assert s[..0] == "";
      assert Value(s) == DigitValue(s[0]);
    } else {
      ValueOfShow(n / 10);
      assert s[..|s| - 1] == Show(n / 10);
    }
  }

  lemma {:induction false} ValueBound(s: string)
    requires IsNumeral(s) && s[0] != '0'
    ensures Value(s) > 0
  {
    if |s| == 1 {
      assert s[..0] == "";
    } else {
      ValueBound(s[..|s| - 1]);
    }
  }

  /** Printing the number denoted by a canonical numeral gives the numeral back. */
  lemma {:induction false} ShowOfValue(s: string)
    requires IsCanonical(s)
    ensures Show(Value(s)) == s
  {
    var init := s[..|s| - 1];
    if |s| == 1 {
      assert init == "";
    } else {
      ValueBound(init);
      ShowOfValue(init);
      assert Value(s) / 10 == Value(init);
      assert s == init + [s[|s| - 1]];
    }
  }
}
