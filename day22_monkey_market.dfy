// Day 22, part 1: the secret-number hash of the monkey market.
// A number is a C `int`, modelled as its 32-bit pattern.

module MonkeyMarket {

  /** Number of hash iterations applied to every seed. */
  const ITERATIONS: nat := 2000

  /** 2^24 - 1: `prune` keeps the low 24 bits. */
  const PRUNE_BITMASK: bv32 := 0xFF_FFFF

  /** Mix in `n << 6` and prune. */
  function MixLeft6(n: bv32): bv32 {
    (n ^ (n << 6)) & PRUNE_BITMASK
  }

  /** Mix in `n >> 5` and prune. */
  function MixRight5(n: bv32): bv32 {
    (n ^ (n >> 5)) & PRUNE_BITMASK
  }

  /** Mix in `n << 11` and prune; the shift overflows 32 bits, which the
    * prune discards. */
  function MixLeft11(n: bv32): bv32 {
    (n ^ (n << 11)) & PRUNE_BITMASK
  }

  /** One hash step: the three mix-and-prune steps in order. */
  function NextNumber(num: bv32): (r: bv32)
    ensures r <= PRUNE_BITMASK
  {
    MixLeft11(MixRight5(MixLeft6(num)))
  }

  /** The arithmetic wording of the three steps, computed on a 64-bit value
    * where nothing overflows: multiply by 64, divide by 32, multiply by
    * 2048, each followed by mix and mod 2^24.  The lemmas below show that
    * each 32-bit shift-and-mask step computes the same value, so the
    * 32-bit overflow of `<< 6` and `<< 11` is harmless. */
  function MulMix64(s: bv64): bv64 { (s ^ (s * 64)) % 0x100_0000 }
  function DivMix32(s: bv64): bv64 { (s ^ (s / 32)) % 0x100_0000 }
  function MulMix2048(s: bv64): bv64 { (s ^ (s * 2048)) % 0x100_0000 }

  lemma TimesSixtyFourIsShift(s: bv64)
    ensures s * 64 == s << 6
  {
  }

  lemma TimesTwoThousandFortyEightIsShift(s: bv64)
    ensures s * 2048 == s << 11
  {
  }

  lemma DivideIsShift(s: bv64)
    ensures s / 32 == s >> 5
  {
  }

  lemma ModuloIsMask(x: bv64)
    ensures x % 0x100_0000 == x & 0xFF_FFFF
  {
  }

  lemma LowBitsOfLeft6(n: bv32)
    ensures (n as bv64 ^ (n as bv64 << 6)) & 0xFF_FFFF == MixLeft6(n) as bv64
  {
  }

  lemma LowBitsOfRight5(n: bv32)
    ensures (n as bv64 ^ (n as bv64 >> 5)) & 0xFF_FFFF == MixRight5(n) as bv64
  {
  }

  lemma LowBitsOfLeft11(n: bv32)
    ensures (n as bv64 ^ (n as bv64 << 11)) & 0xFF_FFFF == MixLeft11(n) as bv64
  {
  }

  lemma MulMix64Agrees(n: bv32)
    ensures MulMix64(n as bv64) == MixLeft6(n) as bv64
  {
    var s := n as bv64;
    TimesSixtyFourIsShift(s);
    ModuloIsMask(s ^ (s * 64));
    LowBitsOfLeft6(n);
  }

  lemma DivMix32Agrees(n: bv32)
    ensures DivMix32(n as bv64) == MixRight5(n) as bv64
  {
    var s := n as bv64;
    DivideIsShift(s);
    ModuloIsMask(s ^ (s / 32));
    LowBitsOfRight5(n);
  }

  lemma MulMix2048Agrees(n: bv32)
    ensures MulMix2048(n as bv64) == MixLeft11(n) as bv64
  {
    var s := n as bv64;
    TimesTwoThousandFortyEightIsShift(s);
    ModuloIsMask(s ^ (s * 2048));
    LowBitsOfLeft11(n);
  }

  /** Only the low 24 bits of the input matter: the bits the shifts push
    * past bit 31 could only have reached bits the prune discards anyway. */
  lemma NextNumberReadsLow24(num: bv32)
    ensures NextNumber(num) == NextNumber(num & PRUNE_BITMASK)
  {
    assert MixLeft6(num) == MixLeft6(num & PRUNE_BITMASK);
  }

  /** `num` hashed `k` times. */
  function Iterate(num: bv32, k: nat): (r: bv32)
    ensures k > 0 ==> r <= PRUNE_BITMASK
  {
    if k == 0 then num else NextNumber(Iterate(num, k - 1))
  }

  /** Value a seed ends at; it fits in 24 bits. */
  function Final(seed: bv32): bv24 {
    Iterate(seed, ITERATIONS) as bv24
  }

  /** Sum of the final values of the seeds, accumulated left to right. */
  function FinalSum(seeds: seq<bv32>): int {
    if |seeds| == 0 then 0
    else FinalSum(seeds[..|seeds| - 1]) + Final(seeds[|seeds| - 1]) as int
  }

  /** Every final value lies in [0, 2^24), so the sum of `n` seeds lies in
    * [0, n * 2^24). */
  lemma {:induction false} FinalSumBounds(seeds: seq<bv32>)
    ensures 0 <= FinalSum(seeds) <= |seeds| * 0xFF_FFFF
  {
    if |seeds| > 0 {
      var n := |seeds| - 1;
      FinalSumBounds(seeds[..n]);
      assert n * 0xFF_FFFF + 0xFF_FFFF == |seeds| * 0xFF_FFFF;
    }
  }

  /** The inner loop: one seed hashed ITERATIONS times. */
  method HashSeed(seed: bv32) returns (num: bv32)
    ensures num == Iterate(seed, ITERATIONS) && num <= PRUNE_BITMASK
  {
    num := seed;
    var j := 0;
    while j < ITERATIONS
      invariant 0 <= j <= ITERATIONS
      invariant num == Iterate(seed, j)
    {
      num := NextNumber(num);
      j := j + 1;
    }
  }

  /** Hashes every seed ITERATIONS times and sums the results. */
  method SecretNumberSum(nums: seq<bv32>) returns (sum: int)
    ensures sum == FinalSum(nums)
    ensures 0 <= sum <= |nums| * 0xFF_FFFF
  {
    sum := 0;
    var i := 0;
    while i < |nums|
      invariant 0 <= i <= |nums|
      invariant sum == FinalSum(nums[..i])
    {
      var num := HashSeed(nums[i]);
      assert nums[..i + 1][..i] == nums[..i];
      sum := sum + (num as bv24) as int;
      i := i + 1;
    }
    assert nums[..i] == nums;
    FinalSumBounds(nums);
  }
}
