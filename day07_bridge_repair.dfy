// Day 7, part 2: can the operands, combined left to right with `+`, `*`
// and digit concatenation, produce the test value?  The solver works
// backwards from the target, peeling off the last operand.

module BridgeRepair {
  import opened CArith
  import opened Decimal

  /** The least power of ten greater than `n` (1 when `n < 1`). */
  function Pow10Above(n: int): (p: int)
    ensures p >= 1 && p > n
    ensures n >= 1 ==> p / 10 <= n
  {
    Pow10AboveDigits(n);
    Pow10(DigitCount(n))
  }

  /** Finds the least power of ten above `operand`, as `un_concat_10`'s
    * loop does. */
  method PowerAbove(operand: int) returns (powerOf10: int)
    ensures powerOf10 == Pow10Above(operand)
  {
    powerOf10 := 1;
    ghost var k: nat := 0;
    Pow10AtMostIff(0, operand);
    while powerOf10 <= operand
      invariant powerOf10 == Pow10(k)
      invariant k <= DigitCount(operand)
      decreases DigitCount(operand) - k
    {
      Pow10AtMostIff(k, operand);
      powerOf10 := powerOf10 * 10;
      k := k + 1;
    }
    Pow10AtMostIff(k, operand);
  }

  /** `un_concat_10(operand, sum)`: `sum` with the digits of `operand`
    * removed from its low end, or -1 when `sum` does not end in them. */
  function UnConcat(operand: int, sum: int): int {
    if sum < operand then -1
    else
      var p := Pow10Above(operand);
      if CRem(sum - operand, p) != 0 then -1 else CDiv(sum, p)
  }

  method UnConcat10(operand: int, sum: int) returns (r: int)
    ensures r == UnConcat(operand, sum)
  {
    if sum < operand {
      return -1;
    }
    var powerOf10 := PowerAbove(operand);
    if CRem(sum - operand, powerOf10) != 0 {
      r := -1;
    } else {
      r := CDiv(sum, powerOf10);
    }
  }

  /** Digit concatenation `a || b` for a positive `b`. */
  function Concat(a: int, b: int): int {
    a * Pow10Above(b) + b
  }

  /** A sum below the operand can never end in it. */
  lemma UnConcatTooSmall(operand: int, sum: int)
    requires sum < operand
    ensures UnConcat(operand, sum) == -1
  {
  }

  /** Removing the digits of `b` from `a || b` gives back `a`. */
  lemma UnConcatOfConcat(a: int, b: int)
    requires a >= 0 && b >= 1
    ensures UnConcat(b, Concat(a, b)) == a
  {
    var p := Pow10Above(b);
    KnownQuotient(Concat(a, b) - b, p, a);
    DivUnique(Concat(a, b), p, a, b);
  }

  /** Whatever `un_concat_10` succeeds with, concatenating `b` onto it gives
    * the sum back. */
  lemma ConcatOfUnConcat(b: int, sum: int)
    requires b >= 1 && UnConcat(b, sum) != -1
    ensures UnConcat(b, sum) >= 0 && Concat(UnConcat(b, sum), b) == sum
  {
    var p := Pow10Above(b);
    DivRemIdentity(sum - b, p);
    var k := CDiv(sum - b, p);
    assert k * p == sum - b;
    DivUnique(sum, p, k, b);
  }

  /** `valid_values`: can the operands make `target`?  With no operands
    * left the target must have been used up exactly; with operands left
    * only a positive target can still be made.  Any operand but 0, on
    * which `target % this_operand` is undefined, is accepted. */
  function ValidValues(target: int, operands: seq<int>): (valid: bool)
    requires forall i :: 0 <= i < |operands| ==> operands[i] != 0
    ensures |operands| == 0 ==> (valid <==> target == 0)
    ensures valid && |operands| > 0 ==> target > 0
    decreases |operands|
  {
    if |operands| == 0 then target == 0
    else if target <= 0 then false
    else
      var n := |operands| - 1;
      var thisOperand := operands[n];
      var rest := operands[..n];
      ValidValues(target - thisOperand, rest)
      || (CRem(target, thisOperand) == 0 && ValidValues(CDiv(target, thisOperand), rest))
      || (UnConcat(thisOperand, target) != -1 && ValidValues(UnConcat(thisOperand, target), rest))
  }

  lemma NoOperands(target: int)
    ensures ValidValues(target, []) <==> target == 0
  {
  }

  lemma NonPositiveTarget(target: int, operands: seq<int>)
    requires forall i :: 0 <= i < |operands| ==> operands[i] != 0
    requires |operands| > 0 && target <= 0
    ensures !ValidValues(target, operands)
  {
  }

  datatype Operator = Add | Mul | Cat

  function Apply(op: Operator, v: int, x: int): int {
    match op
    case Add => v + x
    case Mul => v * x
    case Cat => Concat(v, x)
  }

  /** The equation read left to right: `xs[0] op[0] xs[1] op[1] ...`. */
  function Eval(xs: seq<int>, ops: seq<Operator>): int
    requires |xs| >= 1 && |ops| == |xs| - 1
  {
    if |xs| == 1 then xs[0]
    else Apply(ops[|ops| - 1], Eval(xs[..|xs| - 1], ops[..|ops| - 1]), xs[|xs| - 1])
  }

  predicate Positive(xs: seq<int>) {
    forall i :: 0 <= i < |xs| ==> xs[i] > 0
  }

  lemma {:induction false} EvalPositive(xs: seq<int>, ops: seq<Operator>)
    requires |xs| >= 1 && |ops| == |xs| - 1 && Positive(xs)
    ensures Eval(xs, ops) > 0
  {
    if |xs| > 1 {
      EvalPositive(xs[..|xs| - 1], ops[..|ops| - 1]);
      var v := Eval(xs[..|xs| - 1], ops[..|ops| - 1]);
      var x := xs[|xs| - 1];
      match ops[|ops| - 1]
      case Add =>
      case Mul => MulMonotone(v, x);
      case Cat => MulMonotone(v, Pow10Above(x));
    }
  }

  lemma MulMonotone(v: int, x: int)
    requires v >= 1 && x >= 1
    ensures v * x >= x
  {
    assert v * x == (v - 1) * x + x;
    assert (v - 1) * x >= 0;
  }

  /** Backward search and forward evaluation agree: `valid_values` holds
    * exactly when some choice of operators makes the equation true. */
  lemma ValidValuesIffSolvable(target: int, xs: seq<int>)
    requires |xs| >= 1 && Positive(xs)
    ensures ValidValues(target, xs) <==>
            exists ops :: |ops| == |xs| - 1 && Eval(xs, ops) == target
  {
    if ValidValues(target, xs) {
      var ops := SolutionFromSearch(target, xs);
    }
    if ops :| |ops| == |xs| - 1 && Eval(xs, ops) == target {
      SearchFindsSolution(xs, ops);
    }
  }

  /** Without positive operands the search and the evaluation part: `-1 + 2`
    * makes 1, but the search subtracts 2, is left with the target -1 before
    * the last operand and gives up. */
  lemma NegativeOperandMissed()
    ensures Eval([-1, 2], [Add]) == 1 && !ValidValues(1, [-1, 2])
  {
    assert [-1, 2][..1] == [-1];
  }

  lemma {:induction false} SolutionFromSearch(target: int, xs: seq<int>) returns (ops: seq<Operator>)
    requires |xs| >= 1 && Positive(xs) && ValidValues(target, xs)
    ensures |ops| == |xs| - 1 && Eval(xs, ops) == target
    decreases |xs|
  {
    var n := |xs| - 1;
    var x := xs[n];
    var rest := xs[..n];
    assert xs[..n + 1] == xs;
    if n == 0 {
      ops := [];
      if ValidValues(target - x, rest) {
      } else if CRem(target, x) == 0 && ValidValues(CDiv(target, x), rest) {
        KnownQuotientPositive(target, x);
        assert false;
      } else {
        ConcatOfUnConcat(x, target);
      }
    } else if ValidValues(target - x, rest) {
      var ops' := SolutionFromSearch(target - x, rest);
      ops := ops' + [Add];
      assert ops[..|ops| - 1] == ops';
    } else if CRem(target, x) == 0 && ValidValues(CDiv(target, x), rest) {
      var ops' := SolutionFromSearch(CDiv(target, x), rest);
      ops := ops' + [Mul];
      assert ops[..|ops| - 1] == ops';
      RemZeroIffDivides(target, x);
    } else {
      var u := UnConcat(x, target);
      var ops' := SolutionFromSearch(u, rest);
      ops := ops' + [Cat];
      assert ops[..|ops| - 1] == ops';
      ConcatOfUnConcat(x, target);
    }
  }

  lemma KnownQuotientPositive(target: int, x: int)
    requires target > 0 && x > 0 && CRem(target, x) == 0
    ensures CDiv(target, x) > 0
  {
    RemZeroIffDivides(target, x);
  }

  lemma {:induction false} SearchFindsSolution(xs: seq<int>, ops: seq<Operator>)
    requires |xs| >= 1 && |ops| == |xs| - 1 && Positive(xs)
    ensures ValidValues(Eval(xs, ops), xs)
    decreases |xs|
  {
    var target := Eval(xs, ops);
    EvalPositive(xs, ops);
    var n := |xs| - 1;
    var x := xs[n];
    var rest := xs[..n];
    if n == 0 {
      assert target - x == 0;
    } else {
      var ops' := ops[..|ops| - 1];
      var v := Eval(rest, ops');
      EvalPositive(rest, ops');
      SearchFindsSolution(rest, ops');
      match ops[|ops| - 1]
      case Add =>
        assert target - x == v;
      case Mul =>
        assert target == v * x;
        KnownQuotient(target, x, v);
      case Cat =>
        assert target == Concat(v, x);
        UnConcatOfConcat(v, x);
    }
  }
}
