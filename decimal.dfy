/** Decimal digit strings, as the comment listing reads its `page` and
    `take` query parameters. */
module Decimal {

  predicate IsDigit(c: char) {
    '0' <= c <= '9'
  }

  /** The test `/^0{0}[0-9]*$/`. `0{0}` repeats "0" zero times and so matches
      the empty string: the pattern accepts exactly the strings made of
      decimal digits, the empty string included. */
  predicate IsDigits(s: string)
    ensures IsDigits(s) <==> forall c :: c in s ==> IsDigit(c)
  {
    forall i :: 0 <= i < |s| ==> IsDigit(s[i])
  }

  function DigitValue(c: char): (d: nat)
    requires IsDigit(c)
    ensures d < 10
  {
    c as int - '0' as int
  }

  function DigitChar(d: nat): (c: char)
    requires d < 10
    ensures IsDigit(c) && DigitValue(c) == d
  {
    ('0' as int + d) as char
  }

  function Pow10(n: nat): (p: nat)
    ensures p >= 1
  {
    if n == 0 then 1 else 10 * Pow10(n - 1)
  }

  /** `parseInt(s)` on a digit string: the digits read most significant
      first. (On the empty string parseInt gives NaN; the caller never asks
      for it, since it substitutes a default first.) */
  function Value(s: string): (v: nat)
    requires IsDigits(s)
    ensures v < Pow10(|s|)
    decreases |s|
  {
    if s == [] then 0 else 10 * Value(s[..|s| - 1]) + DigitValue(s[|s| - 1])
  }

  /** The decimal spelling of a number, without leading zeros. */
  function Show(n: nat): (s: string)
    ensures IsDigits(s) && s != []
  {
    if n < 10 then [DigitChar(n)] else Show(n / 10) + [DigitChar(n % 10)]
  }

  /** Reading back a spelled-out number gives the number. */
  lemma {:induction false} ValueOfShow(n: nat)
    ensures Value(Show(n)) == n
  {
    if n >= 10 {
      var s := Show(n);
      assert s[..|s| - 1] == Show(n / 10);
      ValueOfShow(n / 10);
    }
  }

  /** A string that spells out some number reads back as that number. */
  lemma ValueOfSpelling(s: string)
    requires IsDigits(s)
    ensures forall n :: s == Show(n) ==> Value(s) == n
  {
    forall n | s == Show(n) {
      ValueOfShow(n);
    }
  }

  /** Leading zeros do not change the value, as with parseInt. */
  lemma {:induction false} ValueIgnoresLeadingZero(s: string)
    requires IsDigits(s)
    ensures IsDigits("0" + s) && Value("0" + s) == Value(s)
  {
    if s != [] {
      var t := "0" + s;
      assert t[..|t| - 1] == "0" + s[..|s| - 1];
      ValueIgnoresLeadingZero(s[..|s| - 1]);
    }
  }
}
