// Powers of ten and decimal digit counts, shared by the solvers that take
// numbers apart digit by digit.

module Decimal {

  function Pow10(k: nat): (p: int)
    ensures p >= 1
  {
    if k == 0 then 1 else 10 * Pow10(k - 1)
  }

  /** Number of decimal digits of `n`; 0 for `n <= 0`. */
  function DigitCount(n: int): nat {
    if n < 1 then 0 else 1 + DigitCount(n / 10)
  }

  /** `10^k <= n` exactly when `n` has more than `k` digits. */
  lemma {:induction false} Pow10AtMostIff(k: nat, n: int)
    ensures Pow10(k) <= n <==> k < DigitCount(n)
  {
    if n >= 1 && k > 0 {
      Pow10AtMostIff(k - 1, n / 10);
      assert 10 * Pow10(k - 1) <= n <==> Pow10(k - 1) <= n / 10;
    }
  }

  /** The least power of ten above `n` is 10^DigitCount(n). */
  lemma Pow10AboveDigits(n: int)
    ensures Pow10(DigitCount(n)) > n
    ensures DigitCount(n) > 0 ==> Pow10(DigitCount(n) - 1) <= n
  {
    Pow10AtMostIff(DigitCount(n), n);
    if DigitCount(n) > 0 {
      Pow10AtMostIff(DigitCount(n) - 1, n);
    }
  }

  lemma {:induction false} Pow10Add(i: nat, j: nat)
    ensures Pow10(i + j) == Pow10(i) * Pow10(j)
  {
    if j > 0 {
      Pow10Add(i, j - 1);
      assert Pow10(i + j) == 10 * Pow10(i + j - 1);
    }
  }

  lemma {:induction false} Pow10Monotone(i: nat, j: nat)
    requires i <= j
    ensures Pow10(i) <= Pow10(j)
  {
    if i < j {
      Pow10Monotone(i, j - 1);
    }
  }
}
