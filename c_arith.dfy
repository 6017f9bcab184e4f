// C's integer division and remainder, which truncate toward zero, written
// out over Dafny's Euclidean `/` and `%`.

module CArith {

  function Abs(x: int): int {
    if x < 0 then -x else x
  }

  /** C's `a / b`: the quotient truncated toward zero. */
  function CDiv(a: int, b: int): int
    requires b != 0
  {
    var q := Abs(a) / Abs(b);
    if (a < 0) == (b < 0) then q else -q
  }

  /** C's `a % b`: the remainder takes the sign of the dividend. */
  function CRem(a: int, b: int): (r: int)
    requires b != 0
    ensures Abs(r) < Abs(b)
    ensures a >= 0 ==> r >= 0
    ensures a <= 0 ==> r <= 0
  {
    var ab := Abs(b);
    assert ab > 0;
    var m := Abs(a) % ab;
    assert 0 <= m < ab;
    if a < 0 then -m else m
  }

  /** Quotient and remainder recombine to the dividend, as C guarantees. */
  lemma DivRemIdentity(a: int, b: int)
    requires b != 0
    ensures CDiv(a, b) * b + CRem(a, b) == a
  {
    var q := Abs(a) / Abs(b);
    var m := Abs(a) % Abs(b);
    assert q * Abs(b) + m == Abs(a);
    if b < 0 {
      assert b == -Abs(b);
      assert (-q) * b == q * Abs(b);
      assert q * b == -(q * Abs(b));
    } else {
      assert b == Abs(b);
    }
  }

  /** Euclidean quotient and remainder are unique. */
  lemma DivUnique(a: int, b: int, q: int, r: int)
    requires b > 0 && 0 <= r < b && a == q * b + r
    ensures a / b == q && a % b == r
  {
    var q', r' := a / b, a % b;
    assert (q - q') * b == r' - r;
    if q - q' >= 1 {
      MulAtLeast(q - q', b);
      assert false;
    } else if q' - q >= 1 {
      MulAtLeast(q' - q, b);
      assert false;
    }
  }

  lemma MulAtLeast(k: int, b: int)
    requires k >= 1 && b > 0
    ensures k * b >= b
  {
    assert k * b == (k - 1) * b + b;
    assert (k - 1) * b >= 0;
  }

  /** When `b` divides `a` the C remainder is 0 and the C quotient is the
    * cofactor. */
  lemma KnownQuotient(a: int, b: int, k: int)
    requires b != 0 && k * b == a
    ensures CRem(a, b) == 0 && CDiv(a, b) == k
  {
    MulSigns(k, b);
    DivUnique(Abs(a), Abs(b), Abs(k), 0);
  }

  /** The size and sign of a product with a nonzero factor. */
  lemma MulSigns(k: int, b: int)
    requires b != 0
    ensures Abs(k * b) == Abs(k) * Abs(b)
    ensures k * b == 0 <==> k == 0
    ensures k * b > 0 <==> k != 0 && (k < 0) == (b < 0)
    ensures k * b < 0 <==> k != 0 && (k < 0) != (b < 0)
  {
    if k == 0 {
    } else if k > 0 && b > 0 {
      MulAtLeast(k, b);
    } else if k > 0 {
      MulAtLeast(k, -b);
      assert k * b == -(k * (-b));
    } else if b > 0 {
      MulAtLeast(-k, b);
      assert k * b == -((-k) * b);
    } else {
      MulAtLeast(-k, -b);
      assert k * b == (-k) * (-b);
    }
  }

  /** A zero C remainder is exact divisibility. */
  lemma RemZeroIffDivides(a: int, b: int)
    requires b != 0
    ensures CRem(a, b) == 0 <==> exists k :: k * b == a
    ensures CRem(a, b) == 0 ==> CDiv(a, b) * b == a
  {
    DivRemIdentity(a, b);
    if k :| k * b == a {
      KnownQuotient(a, b, k);
    }
  }
}
