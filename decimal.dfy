/**
 * Decimal digits and the decimal rendering of integers (`${n}` for the frame
 * names). The two text-to-integer parsers the services use, Python's `int`
 * and JavaScript's `parseInt`, are built on these in their own modules.
 */
module Decimal {

  predicate IsDigit(c: char) {
    '0' <= c <= '9'
  }

  predicate AllDigits(s: string) {
    forall i :: 0 <= i < |s| ==> IsDigit(s[i])
  }

  function DigitValue(c: char): (d: nat)
    requires IsDigit(c)
    ensures d < 10
  {
    c as int - '0' as int
  }

  function DigitChar(d: nat): (c: char)
    requires d < 10
    ensures IsDigit(c) && DigitValue(c) == d
  {
    ('0' as int + d) as char
  }

  /** The number a run of digits denotes, most significant digit first. */
  function DigitsValue(s: string): nat
    requires AllDigits(s)
  {
    if s == [] then 0 else DigitsValue(s[..|s| - 1]) * 10 + DigitValue(s[|s| - 1])
  }

  /** Decimal rendering of `n` without leading zeros. */
  function ShowNat(n: nat): (r: string)
    ensures r != [] && AllDigits(r)
    ensures '.' !in r
  {
    if n < 10 then [DigitChar(n)] else ShowNat(n / 10) + [DigitChar(n % 10)]
  }

  lemma {:induction false} ShowNatValue(n: nat)
    ensures DigitsValue(ShowNat(n)) == n
  {
    if n >= 10 {
      var s := ShowNat(n);
      assert s[..|s| - 1] == ShowNat(n / 10);
      ShowNatValue(n / 10);
    }
  }

  /** Decimal rendering of an integer: a `-` for negatives, then the digits (Python `str`, JavaScript template literals). */
  function ShowInt(n: int): (r: string)
    ensures r != [] && '.' !in r
  {
    if n < 0 then "-" + ShowNat(-n) else ShowNat(n)
  }
}
