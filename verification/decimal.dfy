/**
 * The decimal text JavaScript produces for a non-negative integer in a
 * template literal (`${n}`), and its inverse.
 */
module Decimal {
  import opened Chars

  function DigitChar(d: nat): (c: char)
    requires d < 10
    ensures IsDigit(c)
  {
    "0123456789"[d]
  }

  function DigitValue(c: char): (d: nat)
    requires IsDigit(c)
    ensures d < 10
    ensures DigitChar(d) == c
  {
    (c as int - '0' as int) as nat
  }

  /** The value of a string of decimal digits, most significant first. */
  function ParseDigits(s: string): (n: nat)
    requires All(s, IsDigit)
    decreases |s|
  {
    if |s| == 0 then 0
    else 10 * ParseDigits(s[..|s| - 1]) + DigitValue(s[|s| - 1])
  }

  /**
   * `${n}` for a non-negative integer: non-empty, all digits, no leading zero
   * except for 0 itself, and reading it back gives `n`.
   */
  function NatToString(n: nat): (r: string)
    ensures IsDigits(r)
    ensures r[0] == '0' ==> n == 0 && |r| == 1
    ensures ParseDigits(r) == n
    decreases n
  {
    if n < 10 then [DigitChar(n)]
    else
      var prefix := NatToString(n / 10);
      var r := prefix + [DigitChar(n % 10)];
      assert r[..|r| - 1] == prefix;
      r
  }

  /** Distinct numbers print as distinct strings. */
  lemma NatToStringInjective(a: nat, b: nat)
    requires NatToString(a) == NatToString(b)
    ensures a == b
  {
    assert ParseDigits(NatToString(a)) == a;
  }
}
