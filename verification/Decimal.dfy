/** Decimal text of integers, as `String(n)` and `BigInt.toString` print it. */
module Decimal {
  predicate IsDigit(c: char) {
    '0' <= c <= '9'
  }

  predicate AllDigits(s: string) {
    forall i | 0 <= i < |s| :: IsDigit(s[i])
  }

  function DigitValue(c: char): (v: nat)
    requires IsDigit(c)
    ensures v < 10
  {
    c as int - '0' as int
  }

  function DigitChar(v: nat): (c: char)
    requires v < 10
    ensures IsDigit(c) && DigitValue(c) == v
  {
    (v + '0' as int) as char
  }

  /** No leading zero, except for zero itself. */
  function NatText(n: nat): (s: string)
    ensures s != "" && AllDigits(s)
    ensures s[0] == '0' ==> n == 0
  {
    if n < 10 then [DigitChar(n)] else NatText(n / 10) + [DigitChar(n % 10)]
  }

  /** The number a run of digits denotes. */
  function NatValue(s: string): nat
    requires AllDigits(s)
  {
    if s == "" then 0 else 10 * NatValue(s[..|s| - 1]) + DigitValue(s[|s| - 1])
  }

  lemma {:induction false} NatRoundTrip(n: nat)
    ensures NatValue(NatText(n)) == n
  {
    if n < 10 {
      assert NatText(n)[..0] == "";
    } else {
      NatRoundTrip(n / 10);
      assert NatText(n)[..|NatText(n)| - 1] == NatText(n / 10);
    }
  }

  function IntText(i: int): (s: string)
    ensures s != "" && forall j | 0 <= j < |s| :: IsDigit(s[j]) || s[j] == '-'
  {
    if i < 0 then "-" + NatText(-i) else NatText(i)
  }

  /** Decimal text as one writes it: the digits 0 to 9, tens before units, a minus sign in front. */
  lemma TextSpelled(n: nat)
    ensures n < 10 ==> NatText(n) == ["0123456789"[n]]
    ensures n >= 10 ==> NatText(n) == NatText(n / 10) + NatText(n % 10)
    ensures IntText(n) == NatText(n) && (n > 0 ==> IntText(0 - n) == "-" + NatText(n))
  {
    if n < 10 { assert forall v: nat | v < 10 :: "0123456789"[v] == DigitChar(v); }
  }

  lemma NatTextInjective(a: nat, b: nat)
    requires NatText(a) == NatText(b)
    ensures a == b
  {
    hide *;
    NatRoundTrip(a);
    NatRoundTrip(b);
  }

  lemma IntTextInjective(a: int, b: int)
    requires IntText(a) == IntText(b)
    ensures a == b
  {
    hide NatText;
    if a >= 0 && b >= 0 {
      NatTextInjective(a, b);
    } else {
      assert IntText(if a < 0 then a else b)[0] == '-';
      assert a < 0 && b < 0;
      assert NatText(-a) == IntText(a)[1..] && NatText(-b) == IntText(b)[1..];
      NatTextInjective(-a, -b);
    }
  }
}
