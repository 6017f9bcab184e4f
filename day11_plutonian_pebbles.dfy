// Day 11, part 2: stones that change every time you blink, counted with a
// memo of digit tries (one trie per number of remaining blinks).

module PlutonianPebbles {
  import opened Decimal

  // ---------------------------------------------------------------------------
  // The digit trie: a key is read in base 8, least significant digit first.

  /** Children per trie node. */
  const ARITY: nat := 8

  /** A trie pointer: `Nil` is C's NULL. */
  datatype Trie = Nil | Node(children: seq<Trie>, val: int)

  /** Every node has exactly ARITY child pointers. */
  predicate WellFormed(t: Trie) {
    t.Node? ==> |t.children| == ARITY && forall i :: 0 <= i < ARITY ==> WellFormed(t.children[i])
  }

  /** A freshly allocated node: no children, value -1 ("unknown"). */
  function NewNode(): (t: Trie)
    ensures t.Node? && WellFormed(t) && t.val == -1
    ensures forall i :: 0 <= i < ARITY ==> t.children[i] == Nil
  {
    Node(seq(ARITY, _ => Nil), -1)
  }

  /** `insert_trie`: stores `val` under `key`, creating missing nodes on the
    * way with value -1. */
  function Insert(root: Trie, key: nat, val: int): (r: Trie)
    requires root.Node? && WellFormed(root)
    ensures r.Node? && WellFormed(r)
    decreases key
  {
    if key == 0 then root.(val := val)
    else
      var sub := key % ARITY;
      var child := if root.children[sub].Nil? then NewNode() else root.children[sub];
      root.(children := root.children[sub := Insert(child, key / ARITY, val)])
  }

  /** `get_trie`: the value stored under `key`, or -1 when the path runs
    * into a NULL child. */
  function Get(root: Trie, key: nat): int
    requires WellFormed(root)
    decreases key
  {
    if root.Nil? then -1
    else if key == 0 then root.val
    else Get(root.children[key % ARITY], key / ARITY)
  }

  /** Looking a key up right after inserting it gives the inserted value. */
  lemma {:induction false} GetInsertSame(root: Trie, key: nat, val: int)
    requires root.Node? && WellFormed(root)
    ensures Get(Insert(root, key, val), key) == val
    decreases key
  {
    if key != 0 {
      var sub := key % ARITY;
      var child := if root.children[sub].Nil? then NewNode() else root.children[sub];
      GetInsertSame(child, key / ARITY, val);
    }
  }

  /** Inserting one key leaves every other key's value as it was. */
  lemma {:induction false} GetInsertOther(root: Trie, key: nat, val: int, other: nat)
    requires root.Node? && WellFormed(root) && other != key
    ensures Get(Insert(root, key, val), other) == Get(root, other)
    decreases key
  {
    if key != 0 && other != 0 {
      var sub := key % ARITY;
      var child := if root.children[sub].Nil? then NewNode() else root.children[sub];
      if other % ARITY == sub {
        assert other / ARITY != key / ARITY;
        GetInsertOther(child, key / ARITY, val, other / ARITY);
        if root.children[sub].Nil? {
          NewNodeEmpty(other / ARITY);
        }
      }
    }
  }

  /** A fresh node holds -1 under every key. */
  lemma NewNodeEmpty(key: nat)
    ensures Get(NewNode(), key) == -1
  {
  }

  // ---------------------------------------------------------------------------
  // Digits.

  /** `log_10`: the integer part of the decimal logarithm, -1 for n <= 0. */
  method Log10(n: int) returns (log: int)
    ensures n <= 0 ==> log == -1
    ensures n > 0 ==> log == DigitCount(n) - 1
    ensures n > 0 ==> log >= 0 && Pow10(log) <= n < Pow10(log + 1)
  {
    if n <= 0 {
      return -1;
    }
    log := 0;
    var m := n;
    while m >= 10
      invariant m >= 1 && log >= 0
      invariant DigitCount(n) == DigitCount(m) + log
      decreases m
    {
      m := m / 10;
      log := log + 1;
    }
    Pow10AboveDigits(n);
  }

  predicate EvenDigits(n: nat) {
    n > 0 && DigitCount(n) % 2 == 0
  }

  function HalfPower(n: nat): int {
    Pow10(DigitCount(n) / 2)
  }

  /** `split_digits`: a number with an even digit count splits into its
    * left and right halves; the split also "happens" for n <= 0, where
    * `log_10` reports -1, an odd number. */
  method SplitDigits(n: int) returns (split: bool, mostSig: int, leastSig: int)
    ensures split <==> n <= 0 || DigitCount(n) % 2 == 0
    ensures n <= 0 ==> mostSig == n && leastSig == 0
    ensures n > 0 && split ==>
      mostSig == n / HalfPower(n) && leastSig == n % HalfPower(n) &&
      mostSig * HalfPower(n) + leastSig == n && 0 <= leastSig < HalfPower(n)
  {
    var log := Log10(n);
    if log % 2 != 0 {
      log := (log + 1) / 2;
      var powerOf10 := 1;
      var i := 0;
      while i < log
        invariant 0 <= i <= log
        invariant powerOf10 == Pow10(i)
      {
        powerOf10 := powerOf10 * 10;
        i := i + 1;
      }
      mostSig := n / powerOf10;
      leastSig := n % powerOf10;
      if n <= 0 {
        assert powerOf10 == 1;
      }
      split := true;
    } else {
      split := false;
      mostSig, leastSig := 0, 0;
    }
  }

  /** The halves each have half the digits (the right half may have
    * leading zeros, so it has at most that many). */
  lemma SplitHalves(n: nat)
    requires EvenDigits(n)
    ensures DigitCount(n / HalfPower(n)) == DigitCount(n) / 2
    ensures n % HalfPower(n) < HalfPower(n)
  {
    var h := DigitCount(n) / 2;
    Pow10AboveDigits(n);
    Pow10Add(h, h);
    assert DigitCount(n) == h + h;
    var left := n / Pow10(h);
    // 10^(h-1) <= left < 10^h
    assert left < Pow10(h) by {
      assert n < Pow10(h) * Pow10(h);
      if left >= Pow10(h) {
        assert n >= left * Pow10(h);
        MulMono(Pow10(h), left, Pow10(h));
      }
    }
    assert Pow10(h - 1) <= left by {
      Pow10Add(h - 1, h);
      assert Pow10(h - 1 + h) == Pow10(h - 1) * Pow10(h);
      DivLowerBound(n, Pow10(h), Pow10(h - 1));
    }
    DigitsBetween(left, h);
  }

  lemma MulMono(a: int, b: int, c: int)
    requires 0 <= a <= b && c >= 0
    ensures a * c <= b * c
  {
  }

  lemma DivLowerBound(n: int, d: int, q: int)
    requires d > 0 && q >= 0 && q * d <= n
    ensures q <= n / d
  {
    if q > n / d {
      MulMono(n / d + 1, q, d);
    }
  }

  lemma DigitsBetween(x: int, h: nat)
    requires h >= 1 && Pow10(h - 1) <= x < Pow10(h)
    ensures DigitCount(x) == h
  {
    Pow10AtMostIff(h - 1, x);
    Pow10AtMostIff(h, x);
  }

  // ---------------------------------------------------------------------------
  // The blink rules.

  /** What one stone becomes after one blink. */
  function Rule(stone: nat): seq<nat> {
    if stone == 0 then [1]
    else if EvenDigits(stone) then [stone / HalfPower(stone), stone % HalfPower(stone)]
    else [2024 * stone]
  }

  /** One blink over the whole row, keeping the order of the stones. */
  function Blink(stones: seq<nat>): seq<nat> {
    if |stones| == 0 then [] else Rule(stones[0]) + Blink(stones[1..])
  }

  function BlinkTimes(stones: seq<nat>, blinks: nat): seq<nat>
    decreases blinks
  {
    if blinks == 0 then stones else BlinkTimes(Blink(stones), blinks - 1)
  }

  /** The number of stones one stone turns into after `blinks` blinks, as
    * `children_of_the_stone` computes it without the memo. */
  function Count(stone: nat, blinks: nat): (c: nat)
    ensures c >= 1
    decreases blinks
  {
    if blinks == 0 then 1
    else if stone == 0 then Count(1, blinks - 1)
    else if EvenDigits(stone) then
      Count(stone / HalfPower(stone), blinks - 1) + Count(stone % HalfPower(stone), blinks - 1)
    else Count(2024 * stone, blinks - 1)
  }

  function SumCounts(stones: seq<nat>, blinks: nat): nat {
    if |stones| == 0 then 0 else Count(stones[0], blinks) + SumCounts(stones[1..], blinks)
  }

  lemma {:induction false} SumCountsAppend(a: seq<nat>, b: seq<nat>, blinks: nat)
    ensures SumCounts(a + b, blinks) == SumCounts(a, blinks) + SumCounts(b, blinks)
  {
    if |a| > 0 {
      assert (a + b)[1..] == a[1..] + b;
      SumCountsAppend(a[1..], b, blinks);
    } else {
      assert a + b == b;
    }
  }

  lemma {:induction false} SumCountsBlink(stones: seq<nat>, blinks: nat)
    ensures SumCounts(Blink(stones), blinks) == SumCounts(stones, blinks + 1)
  {
    if |stones| > 0 {
      SumCountsBlink(stones[1..], blinks);
      SumCountsAppend(Rule(stones[0]), Blink(stones[1..]), blinks);
      var r := Rule(stones[0]);
      if |r| == 1 {
        assert r[1..] == [];
      } else {
        assert r[1..][1..] == [];
      }
    }
  }

  /** Counting stone by stone agrees with simulating the whole row: the
    * row has `SumCounts` stones after `blinks` blinks. */
  lemma {:induction false} CountIsRowLength(stones: seq<nat>, blinks: nat)
    ensures |BlinkTimes(stones, blinks)| == SumCounts(stones, blinks)
    decreases blinks
  {
    if blinks == 0 {
      SumCountsOfZero(stones);
    } else {
      CountIsRowLength(Blink(stones), blinks - 1);
      SumCountsBlink(stones, blinks - 1);
    }
  }

  lemma {:induction false} SumCountsOfZero(stones: seq<nat>)
    ensures SumCounts(stones, 0) == |stones|
  {
    if |stones| > 0 {
      SumCountsOfZero(stones[1..]);
    }
  }

  // ---------------------------------------------------------------------------
  // The memo: trie `cache[b]` maps a stone to its count after b + 1 blinks.

  class StoneCache {
    var cache: array<Trie>

    /** Every trie is well formed, and every value it holds is either -1
      * (unknown) or the true count. */
    ghost predicate Valid()
      reads this, cache
    {
      forall b :: 0 <= b < cache.Length ==>
        cache[b].Node? && WellFormed(cache[b]) &&
        forall k: nat :: Get(cache[b], k) == -1 || Get(cache[b], k) == Count(k, b + 1)
    }

    /** `count_stones`'s setup: one empty root (value -1) per blink. */
    constructor (blinks: nat)
      ensures Valid() && cache.Length == blinks
      ensures fresh(cache)
    {
      cache := new Trie[blinks](_ => NewNode());
      new;
      forall k: nat ensures Get(NewNode(), k) == -1 {
        NewNodeEmpty(k);
      }
    }

    /** `children_of_the_stone`: memoised count of what `stone` becomes
      * after `blinks` blinks. */
    method ChildrenOfTheStone(stone: nat, blinks: nat) returns (childCount: nat)
      requires Valid() && blinks <= cache.Length
      modifies cache
      ensures Valid()
      ensures childCount == Count(stone, blinks)
      decreases blinks, 1
    {
      if blinks == 0 {
        return 1;
      }
      var b := blinks - 1;
      var memo := Get(cache[b], stone);
      if memo != -1 {
        return memo;
      }
      childCount := UncachedChildren(stone, blinks);
      Remember(b, stone, childCount);
    }

    /** The uncached case of `children_of_the_stone`: blink `stone` once by
      * the rules and count what each resulting stone becomes. */
    method UncachedChildren(stone: nat, blinks: nat) returns (childCount: nat)
      requires Valid() && 1 <= blinks <= cache.Length
      modifies cache
      ensures Valid()
      ensures childCount == Count(stone, blinks)
      decreases blinks, 0
    {
      var b := blinks - 1;
      var split, leftStone, rightStone := SplitDigits(stone);
      if stone == 0 {
        childCount := ChildrenOfTheStone(1, b);
      } else if split {
        var l := ChildrenOfTheStone(leftStone, b);
        var r := ChildrenOfTheStone(rightStone, b);
        childCount := l + r;
      } else {
        childCount := ChildrenOfTheStone(2024 * stone, b);
      }
    }

    /** `insert_trie(cache[b], stone, count)` for a count known correct. */
    method Remember(b: nat, stone: nat, count: nat)
      requires Valid() && b < cache.Length && count == Count(stone, b + 1)
      modifies cache
      ensures Valid()
    {
      var t := cache[b];
      forall k: nat ensures Get(Insert(t, stone, count), k) == -1 || Get(Insert(t, stone, count), k) == Count(k, b + 1) {
        if k == stone {
          GetInsertSame(t, stone, count);
        } else {
          GetInsertOther(t, stone, count, k);
        }
      }
      cache[b] := Insert(t, stone, count);
    }
  }

  /** `count_stones`: total stones after `blinks` blinks of the whole row. */
  method CountStones(stones: seq<nat>, blinks: nat) returns (totalStones: nat)
    ensures totalStones == SumCounts(stones, blinks)
    ensures totalStones == |BlinkTimes(stones, blinks)|
  {
    var memo := new StoneCache(blinks);
    totalStones := 0;
    var i := 0;
    while i < |stones|
      invariant 0 <= i <= |stones|
      invariant memo.Valid() && memo.cache.Length == blinks && fresh(memo.cache)
      invariant totalStones + SumCounts(stones[i..], blinks) == SumCounts(stones, blinks)
    {
      var c := memo.ChildrenOfTheStone(stones[i], blinks);
      assert stones[i..][1..] == stones[i + 1..];
      totalStones := totalStones + c;
      i := i + 1;
    }
    CountIsRowLength(stones, blinks);
  }
}
