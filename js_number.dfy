/**
 The JavaScript number built-ins the application relies on, over exact integers and ratios:
 `Math.round` of a ratio, and the decimal text a template literal gives an integer (`${n}`) or
 a value with one decimal place (`${t / 10}`).
 */
module JsNumber {
  import opened Wrappers

  /** `Math.round(num / den)`: the integer nearest the ratio, a half rounding up (towards +infinity). */
  function Round(num: int, den: int): (r: int)
    requires den > 0
    ensures -den < 2 * den * r - 2 * num <= den
  {
    var q := (2 * num + den) / (2 * den);
    assert 2 * num + den == 2 * den * q + (2 * num + den) % (2 * den);
    q
  }

  /** A positive common factor can be cancelled from a strict inequality between products. */
  lemma CancelFactor(n: int, a: int, b: int)
    requires n > 0
    ensures n * a < n * b ==> a < b
  {
    assert n * b - n * a == n * (b - a);
  }

  /** The bound in `Round`'s contract has only one solution, so it is a full specification of `Math.round`. */
  lemma RoundUnique(num: int, den: int, r: int)
    requires den > 0
    requires -den < 2 * den * r - 2 * num <= den
    ensures r == Round(num, den)
  {
    var q := Round(num, den);
    assert 2 * den * r < 2 * den * (q + 1);
    assert 2 * den * q < 2 * den * (r + 1);
    CancelFactor(2 * den, r, q + 1);
    CancelFactor(2 * den, q, r + 1);
  }

  predicate IsDigit(c: char) {
    '0' <= c <= '9'
  }

  predicate AllDigits(s: string) {
    forall i :: 0 <= i < |s| ==> IsDigit(s[i])
  }

  /** The decimal digit for `d`. */
  function Digit(d: nat): (c: char)
    requires d < 10
    ensures IsDigit(c)
  {
    ('0' as int + d) as char
  }

  /** The value of a decimal digit. */
  function DigitValue(c: char): (d: nat)
    requires IsDigit(c)
    ensures d < 10 && Digit(d) == c
  {
    c as int - '0' as int
  }

  /** The decimal text of a non-negative integer: digits only, and no leading zero except in "0". */
  function NatToString(n: nat): (s: string)
    ensures |s| >= 1 && AllDigits(s)
    ensures s[0] == '0' ==> n == 0 && s == "0"
    decreases n
  {
    if n < 10 then [Digit(n)] else NatToString(n / 10) + [Digit(n % 10)]
  }

  /** The value of a string of decimal digits, read most significant digit first. */
  function DigitsValue(s: string): nat
    requires AllDigits(s)
  {
    if s == [] then 0 else 10 * DigitsValue(s[..|s| - 1]) + DigitValue(s[|s| - 1])
  }

  /** Reading the decimal text of `n` gives `n` back. */
  lemma {:induction false} NatToStringRoundTrip(n: nat)
    ensures DigitsValue(NatToString(n)) == n
    decreases n
  {
    var s := NatToString(n);
    if n >= 10 {
      NatToStringRoundTrip(n / 10);
      assert s[..|s| - 1] == NatToString(n / 10);
    }
  }

  /** `${i}` for an integer of magnitude below 10^21: a minus sign for negatives, then the decimal digits. */
  function IntToString(i: int): (s: string)
    ensures |s| >= 1
    ensures s[0] == '-' <==> i < 0
    ensures i >= 0 ==> AllDigits(s) && DigitsValue(s) == i
    ensures i < 0 ==> AllDigits(s[1..]) && DigitsValue(s[1..]) == -i
  {
    if i < 0 then
      NatToStringRoundTrip(-i);
      assert ("-" + NatToString(-i))[1..] == NatToString(-i);
      "-" + NatToString(-i)
    else
      NatToStringRoundTrip(i);
      NatToString(i)
  }

  /** The decimal text of a non-negative number of tenths: "." and the tenths digit only when that digit is not 0. */
  function UnsignedTenths(m: nat): string {
    NatToString(m / 10) + (if m % 10 == 0 then "" else "." + [Digit(m % 10)])
  }

  /**
   `${t / 10}` for an integer number of tenths `t`: the integer digits, then a point and the
   tenths digit only when that digit is not zero (4.0 prints as "4", 4.5 as "4.5").
   */
  function FormatTenths(t: int): (s: string)
    ensures |s| >= 1
    ensures s[0] == '-' <==> t < 0
  {
    if t < 0 then
      "-" + UnsignedTenths(-t)
    else
      UnsignedTenthsRoundTrip(t);
      UnsignedTenths(t)
  }

  /** Reads text of the form digits, or digits "." digit, as a number of tenths. */
  function ParseUnsignedTenths(s: string): Option<nat> {
    if |s| >= 3 && s[|s| - 2] == '.' && IsDigit(s[|s| - 1]) && AllDigits(s[..|s| - 2]) then
      Some(10 * DigitsValue(s[..|s| - 2]) + DigitValue(s[|s| - 1]))
    else if |s| >= 1 && AllDigits(s) then
      Some(10 * DigitsValue(s))
    else
      None
  }

  /** Reads an optionally signed decimal with at most one fractional digit as a number of tenths. */
  function ParseTenths(s: string): Option<int> {
    if |s| >= 1 && s[0] == '-' then
      match ParseUnsignedTenths(s[1..])
      case Some(m) => Some(-(m as int))
      case None => None
    else
      match ParseUnsignedTenths(s)
      case Some(m) => Some(m as int)
      case None => None
  }

  /** The unsigned text reads back as its number, and it starts with a digit. */
  lemma UnsignedTenthsRoundTrip(m: nat)
    ensures ParseUnsignedTenths(UnsignedTenths(m)) == Some(m)
    ensures IsDigit(UnsignedTenths(m)[0])
  {
    var digits := NatToString(m / 10);
    NatToStringRoundTrip(m / 10);
    var u := UnsignedTenths(m);
    if m % 10 == 0 {
      assert u == digits;
    } else {
      assert u == digits + ['.', Digit(m % 10)];
      assert u[..|u| - 2] == digits;
    }
  }

  /** The decimal text of a number of tenths reads back as that number. */
  lemma FormatTenthsRoundTrip(t: int)
    ensures ParseTenths(FormatTenths(t)) == Some(t)
  {
    if t < 0 {
      UnsignedTenthsRoundTrip(-t);
      assert FormatTenths(t)[1..] == UnsignedTenths(-t);
    } else {
      UnsignedTenthsRoundTrip(t);
    }
  }

  /** Different numbers of tenths print differently. */
  lemma FormatTenthsInjective(a: int, b: int)
    requires FormatTenths(a) == FormatTenths(b)
    ensures a == b
  {
    FormatTenthsRoundTrip(a);
    FormatTenthsRoundTrip(b);
  }
}
