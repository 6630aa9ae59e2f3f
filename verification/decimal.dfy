/**
  Decimal rendering of non-negative integers, as Python's `str(n)` and
  the format spec `{n:02d}` produce it, together with the digit parser
  that undoes it.
 */
module Decimal {

  const Digits: string := "0123456789"

  predicate IsDigit(c: char) {
    '0' <= c <= '9'
  }

  predicate AllDigits(s: string) {
    forall k :: 0 <= k < |s| ==> IsDigit(s[k])
  }

  function DigitValue(c: char): nat
    requires IsDigit(c)
  {
    c as int - '0' as int
  }

  function DigitChar(d: nat): (c: char)
    requires d < 10
    ensures IsDigit(c) && DigitValue(c) == d
  {
    Digits[d]
  }

  /** The value of a string of decimal digits, most significant first. */
  function ParseDigits(s: string): nat
    requires AllDigits(s)
  {
    if s == [] then 0 else ParseDigits(s[..|s| - 1]) * 10 + DigitValue(s[|s| - 1])
  }

  /** `str(n)`: the shortest decimal numeral for `n`, without leading zeros. */
  function NatToString(n: nat): (s: string)
    ensures |s| >= 1 && AllDigits(s)
    ensures s[0] == '0' ==> s == "0"
    ensures |s| == 1 <==> n < 10
  {
    if n < 10 then [DigitChar(n)] else NatToString(n / 10) + [DigitChar(n % 10)]
  }

  /** Reading back the numeral `str(n)` gives `n`. */
  lemma {:induction false} ParseNatToString(n: nat)
    ensures ParseDigits(NatToString(n)) == n
  {
    var s := NatToString(n);
    if n >= 10 {
      ParseNatToString(n / 10);
      assert s[..|s| - 1] == NatToString(n / 10);
    }
  }

  /** Different numbers have different numerals. */
  lemma {:induction false} NatToStringInjective(m: nat, n: nat)
    requires NatToString(m) == NatToString(n)
    ensures m == n
  {
    ParseNatToString(m);
    ParseNatToString(n);
  }

  /** `f"{n:02d}"`: the numeral of `n`, padded on the left with zeros to two digits. */
  function ZeroPad2(n: nat): (s: string)
    ensures AllDigits(s)
    ensures |s| == if |NatToString(n)| < 2 then 2 else |NatToString(n)|
    ensures ParseDigits(s) == n
  {
    ParseNatToString(n);
    if n < 10 then
      var s := ['0'] + NatToString(n);
      assert s[..1] == "0";
      s
    else NatToString(n)
  }

  /** The longest prefix of `s` made of decimal digits. */
  function LeadingDigits(s: string): (d: string)
    ensures d <= s && AllDigits(d)
    ensures |d| == |s| || !IsDigit(s[|d|])
  {
    if s != [] && IsDigit(s[0]) then [s[0]] + LeadingDigits(s[1..]) else []
  }

  /** A numeral followed by a non-digit is read back as exactly that numeral. */
  lemma {:induction false} LeadingDigitsOf(d: string, rest: string)
    requires AllDigits(d)
    requires rest == [] || !IsDigit(rest[0])
    ensures LeadingDigits(d + rest) == d
  {
    if d != [] {
      assert (d + rest)[1..] == d[1..] + rest;
      LeadingDigitsOf(d[1..], rest);
    } else {
      assert d + rest == rest;
    }
  }

  /**
    `str(n)` for any integer: a minus sign before the numeral of `-n` when
    `n` is negative. The string is all digits exactly when `n` is not
    negative, and the digits after any sign read back as the magnitude.
   */
  function IntToString(n: int): (s: string)
    ensures |s| >= 1
    ensures n >= 0 ==> s == NatToString(n)
    ensures n < 0 ==> s[0] == '-' && s[1..] == NatToString(-n)
    ensures n >= 0 ==> AllDigits(s) && ParseDigits(s) == n
    ensures n < 0 ==> !IsDigit(s[0]) && AllDigits(s[1..]) && ParseDigits(s[1..]) == -n
  {
    if n < 0 then
      ParseNatToString(-n);
      var s := "-" + NatToString(-n);
      assert !IsDigit(s[0]);
      assert s[1..] == NatToString(-n);
      s
    else
      ParseNatToString(n);
      NatToString(n)
  }

  /** Different integers have different numerals. */
  lemma {:induction false} IntToStringInjective(m: int, n: int)
    requires IntToString(m) == IntToString(n)
    ensures m == n
  {
    if m < 0 && n < 0 {
      NatToStringInjective(-m, -n);
    } else if m >= 0 && n >= 0 {
      NatToStringInjective(m, n);
    }
  }
}
