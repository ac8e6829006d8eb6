/** Decimal printing and parsing of natural numbers, as strconv does it. */
module Decimal {
  predicate IsDigit(c: char) {
    '0' <= c <= '9'
  }

  function Digit(n: nat): char
    requires n < 10
  {
    ('0' as int + n) as char
  }

  function DigitValue(c: char): nat
    requires IsDigit(c)
  {
    c as int - '0' as int
  }

  function Itoa(n: nat): (s: string)
    ensures s != [] && forall i :: 0 <= i < |s| ==> IsDigit(s[i])
  {
    if n < 10 then [Digit(n)] else Itoa(n / 10) + [Digit(n % 10)]
  }

  predicate AllDigits(s: string) {
    forall i :: 0 <= i < |s| ==> IsDigit(s[i])
  }

  function DigitsValue(s: string): nat
    requires AllDigits(s)
  {
    if s == [] then 0 else 10 * DigitsValue(s[..|s| - 1]) + DigitValue(s[|s| - 1])
  }

  /** Reading a printed number gives it back; so printing is injective. */
  lemma {:induction false} ItoaReads(n: nat)
    ensures DigitsValue(Itoa(n)) == n
  {
    if n < 10 {
      assert Itoa(n)[..0] == [];
    } else {
      ItoaReads(n / 10);
      assert Itoa(n)[..|Itoa(n)| - 1] == Itoa(n / 10);
    }
  }

  lemma ItoaInjective(m: nat, n: nat)
    requires Itoa(m) == Itoa(n)
    ensures m == n
  {
    ItoaReads(m);
    ItoaReads(n);
  }
}
