/** Strings of ASCII decimal digits and the numbers they denote. */
module Decimal {

  predicate IsDigit(c: char) {
    '0' <= c <= '9'
  }

  predicate AllDigits(s: string) {
    forall i :: 0 <= i < |s| ==> IsDigit(s[i])
  }

  function Pow10(n: nat): (r: nat)
    ensures r >= 1
  {
    if n == 0 then 1 else 10 * Pow10(n - 1)
  }

  /** The number a digit string denotes, most significant digit first. */
  function Value(s: string): nat
    requires AllDigits(s)
  {
    if |s| == 0 then 0
    else Value(s[..|s| - 1]) * 10 + (s[|s| - 1] as int - '0' as int)
  }

  /** The shortest digit string denoting n (the empty string for 0). */
  function Digits(n: nat): (s: string)
    ensures AllDigits(s)
    ensures n > 0 ==> |s| > 0 && s[0] != '0'
  {
    if n == 0 then ""
    else Digits(n / 10) + [('0' as int + n % 10) as char]
  }

  /** Reading back the digits written for n gives n. */
  lemma {:induction false} ValueOfDigits(n: nat)
    ensures Value(Digits(n)) == n
  {
    if n > 0 {
      var s := Digits(n);
      assert s[..|s| - 1] == Digits(n / 10);
      ValueOfDigits(n / 10);
    }
  }

  /** n digits denote less than 10 to the n. */
  lemma {:induction false} ValueBound(s: string)
    requires AllDigits(s)
    ensures Value(s) < Pow10(|s|)
    decreases |s|
  {
    if |s| > 0 {
      ValueBound(s[..|s| - 1]);
    }
  }

  /** At most three digits denote at most 999. */
  lemma ThreeDigitsBound(s: string)
    requires AllDigits(s) && |s| <= 3
    ensures Value(s) <= 999
  {
    ValueBound(s);
    assert Pow10(|s|) <= 1000 by {
      assert Pow10(0) == 1 && Pow10(1) == 10 && Pow10(2) == 100 && Pow10(3) == 1000;
    }
  }
}
