/** Decimal rendering of ids, as `Long.toString` does it, and the parser that
    inverts it. Ids are unbounded integers here; the 64-bit range of `Long`
    plays no part in the rendering. */
module Decimal {

  predicate IsDigit(c: char) {
    '0' <= c <= '9'
  }

  predicate AllDigits(s: string) {
    forall i :: 0 <= i < |s| ==> IsDigit(s[i])
  }

  function DigitChar(d: nat): (c: char)
    requires d < 10
    ensures IsDigit(c)
  {
    (48 + d) as char
  }

  function DigitValue(c: char): (d: nat)
    requires IsDigit(c)
    ensures d < 10
  {
    (c as int) - 48
  }

  /** Digits of a non-negative number, most significant first, with no
      leading zero. */
  function NatToString(n: nat): (s: string)
    ensures 1 <= |s| && AllDigits(s)
    ensures |s| > 1 ==> s[0] != '0'
    decreases n
  {
    if n < 10 then [DigitChar(n)] else NatToString(n / 10) + [DigitChar(n % 10)]
  }

  /** `Long.toString(n)`: a minus sign before the digits of a negative number. */
  function LongToString(n: int): (s: string)
    ensures 1 <= |s|
    ensures n >= 0 <==> AllDigits(s)
    ensures n < 0 <==> s[0] == '-'
  {
    if n < 0 then
      var s := "-" + NatToString(-n);
      assert !IsDigit(s[0]);
      s
    else NatToString(n)
  }

  /** The value of a digit string (the empty string reads as 0). */
  function ParseNat(s: string): nat
    requires AllDigits(s)
  {
    if s == [] then 0 else ParseNat(s[..|s| - 1]) * 10 + DigitValue(s[|s| - 1])
  }

  /** `Long.parseLong` on the strings `LongToString` produces. */
  function ParseLong(s: string): int
    requires AllDigits(s) || (1 <= |s| && s[0] == '-' && AllDigits(s[1..]))
  {
    if 1 <= |s| && s[0] == '-' then -(ParseNat(s[1..]) as int) else ParseNat(s)
  }

  lemma {:induction false} ParseNatToString(n: nat)
    ensures ParseNat(NatToString(n)) == n
    decreases n
  {
    var s := NatToString(n);
    if n >= 10 {
      ParseNatToString(n / 10);
      assert s[..|s| - 1] == NatToString(n / 10);
    }
  }

  /** Parsing undoes rendering, so rendering is injective. */
  lemma LongToStringRoundTrip(n: int)
    ensures var s := LongToString(n);
            (AllDigits(s) || (s[0] == '-' && AllDigits(s[1..]))) && ParseLong(s) == n
  {
    if n < 0 {
      ParseNatToString(-n);
      assert LongToString(n)[1..] == NatToString(-n);
    } else {
      ParseNatToString(n);
    }
  }

  lemma LongToStringInjective(m: int, n: int)
    ensures LongToString(m) == LongToString(n) ==> m == n
  {
    LongToStringRoundTrip(m);
    LongToStringRoundTrip(n);
  }
}
