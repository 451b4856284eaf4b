/**
 * Decimal text of Java integers: String.valueOf and
 * Integer.parseInt, as the prefix matcher and the reservation protocol use them.
 */
module Decimal {
  import opened Wrappers

  const INT_MIN: int := -0x8000_0000
  const INT_MAX: int := 0x7fff_ffff

  predicate IsDigit(c: char) { '0' <= c <= '9' }

  predicate AllDigits(s: string) { forall i :: 0 <= i < |s| ==> IsDigit(s[i]) }

  function DigitChar(d: nat): (c: char)
    requires d < 10
    ensures IsDigit(c)
  {
    ('0' as int + d) as char
  }

  function DigitValue(c: char): (d: nat)
    requires IsDigit(c)
    ensures d < 10
  {
    c as int - '0' as int
  }

  /** String.valueOf of a non-negative int: its decimal digits, without leading zeros. */
  function Digits(n: nat): (s: string)
    ensures 1 <= |s| && AllDigits(s)
    ensures |s| == 1 <==> n < 10
    ensures DigitValue(s[0]) != 0 || n == 0
  {
    if n < 10 then [DigitChar(n)] else Digits(n / 10) + [DigitChar(n % 10)]
  }

  /** String.valueOf of any int: a minus sign before the digits of a negative value. */
  function IntToString(x: int): (s: string)
    ensures |s| >= 1
    ensures |s| == 1 <==> 0 <= x < 10
    ensures x >= 0 ==> s == Digits(x)
    ensures x < 0 ==> s[0] == '-' && s[1..] == Digits(-x)
  {
    if x < 0 then "-" + Digits(-x) else Digits(x)
  }

  /** The number a string of decimal digits denotes, most significant digit first. */
  function ValueOf(s: string): nat
    requires AllDigits(s)
  {
    if s == [] then 0 else 10 * ValueOf(s[..|s| - 1]) + DigitValue(s[|s| - 1])
  }

  /** Reading back the digits of n gives n. */
  lemma {:induction false} ValueOfDigits(n: nat)
    ensures ValueOf(Digits(n)) == n
  {
    if n >= 10 {
      var s := Digits(n);
      assert s[..|s| - 1] == Digits(n / 10);
      ValueOfDigits(n / 10);
    }
  }

  /** Dropping the leading digit never makes the number larger. */
  lemma {:induction false} ValueOfDropFirst(s: string)
    requires 1 <= |s| && AllDigits(s)
    ensures ValueOf(s[1..]) <= ValueOf(s)
    decreases |s|
  {
    if |s| >= 2 {
      var front := s[..|s| - 1];
      ValueOfDropFirst(front);
      assert s[1..][..|s[1..]| - 1] == front[1..];
    }
  }

  /**
   * Integer.parseInt on text made of an optional sign and ASCII digits: at
   * least one digit, denoting a value within the 32-bit range, is read as that
   * value; anything else is NumberFormatException (None). Java also accepts
   * the other Unicode decimal digits, which this model rejects.
   */
  function ParseInt(s: string): (r: Option<int>)
    ensures r.Some? ==> INT_MIN <= r.value <= INT_MAX
    ensures r.Some? ==> |s| >= 1
  {
    if |s| >= 2 && s[0] == '-' && AllDigits(s[1..]) && ValueOf(s[1..]) <= -INT_MIN then
      Some(0 - ValueOf(s[1..]))
    else if |s| >= 2 && s[0] == '+' && AllDigits(s[1..]) && ValueOf(s[1..]) <= INT_MAX then
      Some(ValueOf(s[1..]))
    else if |s| >= 1 && AllDigits(s) && ValueOf(s) <= INT_MAX then
      Some(ValueOf(s))
    else
      None
  }

  /** Integer.parseInt reads back what String.valueOf wrote, for every non-negative int. */
  lemma ParseIntDigits(n: nat)
    requires n <= INT_MAX
    ensures ParseInt(Digits(n)) == Some(n)
  {
    ValueOfDigits(n);
  }
}
