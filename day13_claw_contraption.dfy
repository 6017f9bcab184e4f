// Day 13, part 2: the claw machine.  Pressing A moves the claw by
// `buttonA`, pressing B by `buttonB`; the prize is at `target`.  The two
// linear equations are solved in closed form by Cramer's rule.

module ClawContraption {
  import opened CArith

  const A_PRICE: int := 3
  const B_PRICE: int := 1
  /** Offset the parser adds to both target coordinates. */
  const INCREASE_AMOUNT: int := 10000000000000

  datatype Point = Point(x: int, y: int)
  datatype ClawMachine = ClawMachine(buttonA: Point, buttonB: Point, target: Point)

  /** `a` presses of A and `b` presses of B put the claw on the prize. */
  predicate Solves(m: ClawMachine, a: int, b: int) {
    m.buttonA.x * a + m.buttonB.x * b == m.target.x &&
    m.buttonA.y * a + m.buttonB.y * b == m.target.y
  }

  /** The determinant of the button matrix. */
  function Divisor(m: ClawMachine): int {
    m.buttonB.y * m.buttonA.x - m.buttonB.x * m.buttonA.y
  }

  function Dividend(m: ClawMachine): int {
    m.buttonB.y * m.target.x - m.buttonB.x * m.target.y
  }

  /** The inputs on which `min_tokens` never divides by zero: it divides by
    * B's y component once the first press count is known to be integral. */
  predicate Defined(m: ClawMachine) {
    Divisor(m) == 0 || CRem(Dividend(m), Divisor(m)) != 0 || m.buttonB.y != 0
  }

  /** The parser's adjustment of a machine read from the input. */
  function Adjusted(m: ClawMachine): (r: ClawMachine)
    ensures r.buttonA == m.buttonA && r.buttonB == m.buttonB
    ensures r.target.x - m.target.x == INCREASE_AMOUNT
    ensures r.target.y - m.target.y == INCREASE_AMOUNT
  {
    m.(target := Point(m.target.x + INCREASE_AMOUNT, m.target.y + INCREASE_AMOUNT))
  }

  /** Tokens spent to win the prize, as computed by `min_tokens`: 0 when
    * the determinant is zero or a press count is not an integer. */
  function MinTokens(m: ClawMachine): (r: int)
    requires Defined(m)
    ensures Divisor(m) == 0 ==> r == 0
    ensures r != 0 ==> exists a, b :: Solves(m, a, b) && r == A_PRICE * a + B_PRICE * b
  {
    var divisor := Divisor(m);
    if divisor == 0 then 0
    else
      var dividend := Dividend(m);
      if CRem(dividend, divisor) != 0 then 0
      else
        var a := CDiv(dividend, divisor);
        var rest := m.target.y - m.buttonA.y * a;
        if CRem(rest, m.buttonB.y) != 0 then 0
        else
          var b := CDiv(rest, m.buttonB.y);
          SolutionFound(m, a, b);
          a * 3 + b
  }

  /** The press counts `min_tokens` computes do solve both equations. */
  lemma SolutionFound(m: ClawMachine, a: int, b: int)
    requires Divisor(m) != 0 && m.buttonB.y != 0
    requires CRem(Dividend(m), Divisor(m)) == 0 && a == CDiv(Dividend(m), Divisor(m))
    requires CRem(m.target.y - m.buttonA.y * a, m.buttonB.y) == 0
    requires b == CDiv(m.target.y - m.buttonA.y * a, m.buttonB.y)
    ensures Solves(m, a, b)
  {
    RemZeroIffDivides(Dividend(m), Divisor(m));
    RemZeroIffDivides(m.target.y - m.buttonA.y * a, m.buttonB.y);
    Cramer(m.buttonA.x, m.buttonA.y, m.buttonB.x, m.buttonB.y, m.target.x, m.target.y, a, b);
  }

  /** Eliminating `b`: with the second equation and the determinant
    * equation, the first equation follows. */
  lemma Cramer(xa: int, ya: int, xb: int, yb: int, xt: int, yt: int, a: int, b: int)
    requires yb != 0
    requires a * (yb * xa - xb * ya) == yb * xt - xb * yt
    requires b * yb == yt - ya * a
    ensures xa * a + xb * b == xt
  {
    calc {
      yb * (xa * a + xb * b);
      yb * xa * a + xb * (b * yb);
      yb * xa * a + xb * (yt - ya * a);
      a * (yb * xa - xb * ya) + xb * yt;
      yb * xt;
    }
    CancelFactor(yb, xa * a + xb * b, xt);
  }

  lemma CancelFactor(k: int, x: int, y: int)
    requires k != 0 && k * x == k * y
    ensures x == y
  {
    assert k * (x - y) == 0;
  }

  /** Cramer's rule: when the determinant is nonzero and some integer press
    * counts solve both equations, `min_tokens` returns their cost. */
  lemma MinTokensComplete(m: ClawMachine, a: int, b: int)
    requires Divisor(m) != 0 && Solves(m, a, b)
    requires m.buttonB.y != 0
    ensures MinTokens(m) == A_PRICE * a + B_PRICE * b
  {
    SolutionUnique(m, a, b);
  }

  /** With a nonzero determinant the solution is unique, and the exact
    * divisions of `min_tokens` recover it. */
  lemma SolutionUnique(m: ClawMachine, a: int, b: int)
    requires Divisor(m) != 0 && Solves(m, a, b)
    requires m.buttonB.y != 0
    ensures CRem(Dividend(m), Divisor(m)) == 0 && CDiv(Dividend(m), Divisor(m)) == a
    ensures CRem(m.target.y - m.buttonA.y * a, m.buttonB.y) == 0
    ensures CDiv(m.target.y - m.buttonA.y * a, m.buttonB.y) == b
  {
    var xa, ya, xb, yb, xt, yt := m.buttonA.x, m.buttonA.y, m.buttonB.x, m.buttonB.y, m.target.x, m.target.y;
    assert a * Divisor(m) == Dividend(m) by {
      assert yb * xt == yb * (xa * a) + yb * (xb * b);
      assert xb * yt == xb * (ya * a) + xb * (yb * b);
    }
    KnownQuotient(Dividend(m), Divisor(m), a);
    assert b * yb == yt - ya * a;
    KnownQuotient(yt - ya * a, yb, b);
  }

  /** As written, a solution with a negative press count is paid for.
    * Buttons A = (20, 10) and B = (30, 5) with the prize read as (40, 0):
    * after the parser's offset the only solution presses A
    * 1249999999999 times and B -499999999998 times, and `min_tokens`
    * charges 3249999999999 tokens for it. */
  lemma NegativePressesCharged()
    ensures var m := Adjusted(ClawMachine(Point(20, 10), Point(30, 5), Point(40, 0)));
      Solves(m, 1249999999999, -499999999998) && MinTokens(m) == 3249999999999
  {
  }

  /** Whether the machine can be won at all: press counts are never
    * negative. */
  function MinTokensNonNegative(m: ClawMachine): (r: int)
    requires Defined(m)
    ensures r >= 0
    ensures r != 0 ==> exists a, b :: 0 <= a && 0 <= b && Solves(m, a, b) && r == A_PRICE * a + B_PRICE * b
  {
    var divisor := Divisor(m);
    if divisor == 0 then 0
    else
      var dividend := Dividend(m);
      if CRem(dividend, divisor) != 0 then 0
      else
        var a := CDiv(dividend, divisor);
        var rest := m.target.y - m.buttonA.y * a;
        if CRem(rest, m.buttonB.y) != 0 then 0
        else
          var b := CDiv(rest, m.buttonB.y);
          if a < 0 || b < 0 then 0
          else
            SolutionFound(m, a, b);
            a * 3 + b
  }

  /** The corrected solver pays for the non-negative solution when there
    * is one, the same amount as `min_tokens` (`MinTokensComplete`). */
  lemma MinTokensNonNegativeComplete(m: ClawMachine, a: int, b: int)
    requires Divisor(m) != 0 && m.buttonB.y != 0
    requires Solves(m, a, b) && 0 <= a && 0 <= b
    ensures MinTokensNonNegative(m) == A_PRICE * a + B_PRICE * b
  {
    SolutionUnique(m, a, b);
  }
}
