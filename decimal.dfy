/**
 * Java's conversion of an `int` to text, as used by string concatenation
 * (`prefix + newIndex`): an optional minus sign followed by the decimal
 * digits of the magnitude, most significant first, without leading zeros.
 * The parser is the inverse used to prove that the conversion is injective.
 */
module Decimal {

  predicate IsDigit(c: char) {
    '0' <= c <= '9'
  }

  predicate IsDigits(s: string) {
    forall i :: 0 <= i < |s| ==> IsDigit(s[i])
  }

  function DigitChar(d: nat): (c: char)
    requires d < 10
    ensures IsDigit(c)
  {
    (48 + d) as char
  }

  function DigitValue(c: char): (d: nat)
    requires IsDigit(c)
    ensures d < 10
  {
    c as int - 48
  }

  /** The decimal digits of `n`. */
  function NatToString(n: nat): (s: string)
    ensures |s| >= 1 && IsDigits(s)
    ensures n >= 10 ==> s[0] != '0'
  {
    if n < 10 then [DigitChar(n)] else NatToString(n / 10) + [DigitChar(n % 10)]
  }

  /** `Integer.toString(i)`. */
  function IntToString(i: int): (s: string)
    ensures |s| >= 1
    ensures s[0] == '-' <==> i < 0
  {
    if i < 0 then "-" + NatToString(-i) else NatToString(i)
  }

  /** The value of a string of decimal digits. */
  function ParseDigits(s: string): nat
    requires IsDigits(s)
  {
    if s == [] then 0 else ParseDigits(s[..|s| - 1]) * 10 + DigitValue(s[|s| - 1])
  }

  /** `Integer.parseInt` restricted to the strings `IntToString` produces. */
  function ParseInt(s: string): int
    requires |s| >= 1
    requires if s[0] == '-' then IsDigits(s[1..]) else IsDigits(s)
  {
    if s[0] == '-' then -(ParseDigits(s[1..]) as int) else ParseDigits(s)
  }

  lemma {:induction false} NatRoundTrip(n: nat)
    ensures ParseDigits(NatToString(n)) == n
  {
    if n >= 10 {
      var s := NatToString(n);
      assert s[..|s| - 1] == NatToString(n / 10);
      NatRoundTrip(n / 10);
    }
  }

  /** Parsing the text of an integer gives the integer back. */
  lemma IntRoundTrip(i: int)
    ensures var s := IntToString(i);
      && (if s[0] == '-' then IsDigits(s[1..]) else IsDigits(s))
      && ParseInt(s) == i
  {
    var s := IntToString(i);
    if i < 0 {
      assert s[1..] == NatToString(-i);
      NatRoundTrip(-i);
    } else {
      NatRoundTrip(i);
    }
  }

  /** Distinct integers have distinct texts. */
  lemma IntToStringInjective(a: int, b: int)
    requires IntToString(a) == IntToString(b)
    ensures a == b
  {
    IntRoundTrip(a);
    IntRoundTrip(b);
  }

  /** Distinct integers give distinct names `prefix + i`. */
  lemma PrefixedNameInjective(prefix: string, a: int, b: int)
    requires prefix + IntToString(a) == prefix + IntToString(b)
    ensures a == b
  {
    assert (prefix + IntToString(a))[|prefix|..] == IntToString(a);
    assert (prefix + IntToString(b))[|prefix|..] == IntToString(b);
    IntToStringInjective(a, b);
  }
}
