/**
 The decimal rendering of a natural number, as Python's `str(n)` (and an
 f-string `{n}`) produces it for the planet ordinals, together with its
 inverse. The planet names, dimension keys and skin references are built
 from it.
 */
module Decimal {

  predicate IsDigit(c: char) {
    '0' <= c <= '9'
  }

  predicate IsDigits(s: string) {
    forall i :: 0 <= i < |s| ==> IsDigit(s[i])
  }

  function DigitChar(d: nat): (c: char)
    requires d < 10
    ensures IsDigit(c) && c as int - '0' as int == d
  {
    ('0' as int + d) as char
  }

  function DigitValue(c: char): nat
    requires IsDigit(c)
  {
    c as int - '0' as int
  }

  /** `str(n)`: most significant digit first, no leading zero. */
  function FromNat(n: nat): (s: string)
    ensures 1 <= |s| && IsDigits(s)
    ensures n != 0 ==> s[0] != '0'
    ensures (|s| == 1) == (n < 10)
  {
    if n < 10 then [DigitChar(n)] else FromNat(n / 10) + [DigitChar(n % 10)]
  }

  /** Reads a string of digits back as a number (Python's `int(s)`). */
  function ToNat(s: string): nat
    requires IsDigits(s)
  {
    if s == [] then 0 else ToNat(s[..|s| - 1]) * 10 + DigitValue(s[|s| - 1])
  }

  /** Rendering then reading gives the number back. */
  lemma {:induction false} ToNatFromNat(n: nat)
    ensures ToNat(FromNat(n)) == n
  {
    var s := FromNat(n);
    if n >= 10 {
      var prefix := FromNat(n / 10);
      assert s[..|s| - 1] == prefix;
      ToNatFromNat(n / 10);
    }
  }

  /** Distinct numbers have distinct renderings. */
  lemma FromNatInjective(a: nat, b: nat)
    requires a != b
    ensures FromNat(a) != FromNat(b)
  {
    ToNatFromNat(a);
    ToNatFromNat(b);
  }
}
