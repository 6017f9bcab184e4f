// Single bits of a C `long long`, kept as a 64-bit vector, and the set of
// positions of its one bits.

module LongBits {

  /** `(v >> k) & 1` is 1. */
  predicate BitSet(v: bv64, k: bv6) {
    (v >> k) & 1 == 1
  }

  /** The positions of the one bits of `v`. */
  ghost function Bits(v: bv64): iset<bv6> {
    iset k: bv6 | BitSet(v, k)
  }

  lemma NoBits()
    ensures Bits(0) == iset{}
  {
  }

  /** `v | (b << k)`. */
  function OrShift(v: bv64, b: bv64, k: bv6): bv64 {
    v | (b << k)
  }

  /** `v | (b << k)` for a bit `b`: bit `k` is added when `b` is 1 and no
    * other bit changes. */
  lemma OrBit(v: bv64, b: bv64, k: bv6)
    requires b == 0 || b == 1
    ensures b == 0 ==> Bits(v | (b << k)) == Bits(v)
    ensures b == 1 ==> Bits(v | (b << k)) == Bits(v) + iset{k}
  {
    if b == 0 {
      ShiftZero(b, k);
      assert v | 0 == v;
    } else {
      ShiftOne(b, k);
      OrOneBits(v, k);
    }
  }

  /** The same, for a variable whose bits are known to be `s`. */
  lemma OrBitInto(v: bv64, b: bv64, k: bv6, s: iset<bv6>, s': iset<bv6>)
    requires b == 0 || b == 1
    requires Bits(v) == s
    requires b == 0 ==> s' == s
    requires b == 1 ==> s' == s + iset{k}
    ensures Bits(OrShift(v, b, k)) == s'
  {
    OrBit(v, b, k);
  }

  lemma OrOneBits(v: bv64, k: bv6)
    ensures Bits(v | (1 << k)) == Bits(v) + iset{k}
  {
    forall j: bv6
      ensures j in Bits(v | (1 << k)) <==> j in Bits(v) || j == k
    {
      OrOne(v, k, j);
    }
  }

  lemma OrOne(v: bv64, k: bv6, j: bv6)
    ensures BitSet(v | (1 << k), j) <==> j == k || BitSet(v, j)
  {
  }

  lemma ShiftOne(b: bv64, k: bv6)
    requires b == 1
    ensures b << k == 1 << k
  {
  }

  lemma ShiftZero(b: bv64, k: bv6)
    requires b == 0
    ensures b << k == 0
  {
  }
}
