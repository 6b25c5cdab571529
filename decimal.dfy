/**
 * Decimal rendering of integers, as a template literal renders a JavaScript
 * integer-valued number of magnitude below 10^21: an optional minus sign
 * followed by the digits, with no leading zeros. (JavaScript switches to
 * exponent form from 10^21 on; that form is not modelled.) The parser is
 * its partner: it recovers the integer.
 */
module Decimal {

  predicate IsDigit(c: char) {
    '0' <= c <= '9'
  }

  predicate IsDigits(s: string) {
    |s| > 0 && forall i :: 0 <= i < |s| ==> IsDigit(s[i])
  }

  function DigitChar(d: nat): (c: char)
    requires d < 10
    ensures IsDigit(c)
  {
    ('0' as int + d) as char
  }

  function DigitValue(c: char): (d: nat)
    requires IsDigit(c)
    ensures d < 10 && DigitChar(d) == c
  {
    c as int - '0' as int
  }

  /** The digits of n, most significant first. */
  function FromNat(n: nat): (s: string)
    ensures IsDigits(s)
    ensures s[0] == '0' <==> n == 0
    decreases n
  {
    if n < 10 then [DigitChar(n)] else FromNat(n / 10) + [DigitChar(n % 10)]
  }

  /** The text of n: a minus sign for a negative n, then the digits of |n|. */
  function FromInt(n: int): (s: string)
    ensures |s| > 0 && (s[0] == '-' <==> n < 0)
    ensures n < 0 ==> IsDigits(s[1..]) && s[1] != '0'
    ensures n >= 0 ==> IsDigits(s) && (s[0] == '0' ==> s == "0")
  {
    if n < 0 then "-" + FromNat(-n) else FromNat(n)
  }

  function ParseNat(s: string): (n: nat)
    requires IsDigits(s)
    decreases |s|
  {
    if |s| == 1 then DigitValue(s[0])
    else ParseNat(s[..|s| - 1]) * 10 + DigitValue(s[|s| - 1])
  }

  function ParseInt(s: string): (n: int)
    requires IsDigits(s) || (|s| > 1 && s[0] == '-' && IsDigits(s[1..]))
  {
    if s[0] == '-' then -(ParseNat(s[1..]) as int) else ParseNat(s)
  }

  lemma {:induction false} ParseFromNat(n: nat)
    ensures ParseNat(FromNat(n)) == n
    decreases n
  {
    if n >= 10 {
      var prefix := FromNat(n / 10);
      var s := prefix + [DigitChar(n % 10)];
      assert s[..|s| - 1] == prefix;
      ParseFromNat(n / 10);
    }
  }

  /** Rendering is injective: the text of an integer determines it. */
  lemma ParseFromInt(n: int)
    ensures var s := FromInt(n);
            (IsDigits(s) || (|s| > 1 && s[0] == '-' && IsDigits(s[1..])))
            && ParseInt(s) == n
  {
    if n < 0 {
      var s := FromInt(n);
      assert s[1..] == FromNat(-n);
      ParseFromNat(-n);
    } else {
      ParseFromNat(n);
    }
  }
}
