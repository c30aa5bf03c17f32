/**
 * The hash functions of the cuckoo hash table.
 *
 * A hash function is a pair of 32-bit constants `(x, y)`.  The primary hash
 * of a 64-bit key is `((x ^ key) + y) % kPrimeDivisor`; the stash hash is
 * written `x ^ key + y` in C, where `+` binds tighter than `^`, so it is
 * `x ^ (key + y)`, reduced modulo the stash size.  All arithmetic is on
 * `unsigned long long`: the constants are zero-extended and the sums wrap.
 */
module HashFunctions {
  import opened Unsigned
  import opened Definitions

  /** The largest prime below 2^32. */
  const kPrimeDivisor: Uint32 := 4294967291

  /** A pair of 32-bit constants, CUDA's `uint2`. */
  datatype Uint2 = Uint2(x: Uint32, y: Uint32)

  /**
   * A set of hash functions: `Functions<N>` holds N constant pairs, and N is
   * the length of `constants`.
   */
  datatype Functions = Functions(constants: seq<Uint2>)

  /**
   * The 64-bit value `(x ^ key) + y` that the primary hash reduces: the
   * mathematical sum, less 2^64 when it overflows.
   */
  function PrimaryMix(constants: Uint2, key: Uint64): (r: Uint64)
    ensures Xor(constants.x, key) + constants.y < TWO_64 ==>
      r == Xor(constants.x, key) + constants.y
    ensures Xor(constants.x, key) + constants.y >= TWO_64 ==>
      r == Xor(constants.x, key) + constants.y - TWO_64
  {
    WrappingAdd(Xor64(ZeroExtend(constants.x), key), ZeroExtend(constants.y))
  }

  /**
   * The 64-bit value `x ^ (key + y)` that the stash hash reduces: the `^`
   * sees the wrapped sum, and the 32-bit `x` leaves that sum's upper half
   * as it is.
   */
  function StashMix(constants: Uint2, key: Uint64): (r: Uint64)
    ensures key + constants.y < TWO_64 ==> r == Xor(constants.x, key + constants.y)
    ensures key + constants.y >= TWO_64 ==> r == Xor(constants.x, key + constants.y - TWO_64)
    ensures r / TWO_32 == WrappingAdd(key, constants.y) / TWO_32
  {
    Pow2Widths();
    XorHigh(constants.x, WrappingAdd(key, constants.y), 32);
    Xor64(ZeroExtend(constants.x), WrappingAdd(key, ZeroExtend(constants.y)))
  }

  /** `hash_function_inner`: a hash below the prime, so it fits an `unsigned`. */
  function HashFunctionInner(constants: Uint2, key: Uint64): (r: Uint32)
    ensures r < kPrimeDivisor
    ensures r == PrimaryMix(constants, key) % kPrimeDivisor
  {
    Truncate32(PrimaryMix(constants, key) % kPrimeDivisor)
  }

  /**
   * `hash_function`: function number `whichFunction` of the set, which must
   * be one of its N functions.
   */
  function HashFunction(functions: Functions, whichFunction: Uint32, key: Uint64): (r: Uint32)
    requires whichFunction < |functions.constants|
    ensures r < kPrimeDivisor
  {
    HashFunctionInner(functions.constants[whichFunction], key)
  }

  /** `stash_hash_function`: always the index of a stash slot. */
  function StashHashFunction(stashConstants: Uint2, key: Uint64): (r: Uint32)
    ensures r < kStashSize
    ensures r == StashMix(stashConstants, key) % kStashSize
  {
    Truncate32(StashMix(stashConstants, key) % kStashSize)
  }

  /**
   * Against the mathematical sum `Xor(x, key) + y`: the prime reduction sees
   * that sum when it fits in 64 bits and the sum less 2^64 when it overflows.
   */
  lemma PrimaryHashWrapping(constants: Uint2, key: Uint64)
    ensures Xor(constants.x, key) + constants.y < TWO_64 ==>
      HashFunctionInner(constants, key) == (Xor(constants.x, key) + constants.y) % kPrimeDivisor
    ensures Xor(constants.x, key) + constants.y >= TWO_64 ==>
      HashFunctionInner(constants, key) == (Xor(constants.x, key) + constants.y - TWO_64) % kPrimeDivisor
  {
  }

  /**
   * With `x = 0, y = 1` the largest key wraps to 0 and hashes to 0; without
   * the wrap it would hash to 2^64 mod kPrimeDivisor = 25.
   */
  lemma PrimaryHashWrapExample()
    ensures HashFunctionInner(Uint2(0, 1), TWO_64 - 1) == 0
    ensures TWO_64 % kPrimeDivisor == 25
  {
    XorZero(TWO_64 - 1);
  }

  /** With both constants zero the hash is the key reduced by the prime. */
  lemma PrimaryHashZeroConstants(key: Uint64)
    ensures HashFunctionInner(Uint2(0, 0), key) == key % kPrimeDivisor
    ensures key < kPrimeDivisor ==> HashFunctionInner(Uint2(0, 0), key) == key
  {
    XorZero(key);
  }

  /** Function `i` of a set depends on the set's `i`-th constant pair only. */
  lemma HashFunctionSelects(f: Functions, g: Functions, i: Uint32, key: Uint64)
    requires i < |f.constants| && i < |g.constants|
    requires f.constants[i] == g.constants[i]
    ensures HashFunction(f, i, key) == HashFunction(g, i, key)
    ensures HashFunction(f, i, key) == HashFunctionInner(f.constants[i], key)
  {
  }

  /**
   * The grouping matters: with `x = 1, y = 1` the key 0 goes to stash slot
   * `1 ^ (0 + 1) = 0`, while `(1 ^ 0) + 1` would give slot 2.
   */
  lemma StashHashGroupingExample()
    ensures StashHashFunction(Uint2(1, 1), 0) == 0
    ensures PrimaryMix(Uint2(1, 1), 0) % kStashSize == 2
  {
  }

  /**
   * Against the mathematical sum `key + y`: the exclusive or with `x` sees
   * that sum when it fits in 64 bits and the sum less 2^64 when it overflows.
   */
  lemma StashHashWrapping(constants: Uint2, key: Uint64)
    ensures key + constants.y < TWO_64 ==>
      StashHashFunction(constants, key) == Xor(constants.x, key + constants.y) % kStashSize
    ensures key + constants.y >= TWO_64 ==>
      StashHashFunction(constants, key) == Xor(constants.x, key + constants.y - TWO_64) % kStashSize
  {
  }

  /** With `y = 0` the two groupings coincide. */
  lemma StashHashZeroOffset(x: Uint32, key: Uint64)
    ensures StashHashFunction(Uint2(x, 0), key) == PrimaryMix(Uint2(x, 0), key) % kStashSize
  {
  }

  /**
   * Before reduction both mixes are one-to-one on 64-bit keys, so two keys
   * can only share a hash through the final `%`.
   */
  lemma MixesInjective(constants: Uint2, k1: Uint64, k2: Uint64)
    requires k1 != k2
    ensures PrimaryMix(constants, k1) != PrimaryMix(constants, k2)
    ensures StashMix(constants, k1) != StashMix(constants, k2)
  {
    if Xor(constants.x, k1) == Xor(constants.x, k2) {
      XorInjective(constants.x, k1, k2);
    }
    var s1, s2 := WrappingAdd(k1, constants.y), WrappingAdd(k2, constants.y);
    if Xor(constants.x, s1) == Xor(constants.x, s2) {
      XorInjective(constants.x, s1, s2);
    }
  }

  /**
   * A 32-bit `x` changes only the low half of the key: the primary mix
   * before the addition keeps the key's upper 32 bits.
   */
  lemma PrimaryMixKeepsHighHalf(constants: Uint2, key: Uint64)
    ensures Xor64(ZeroExtend(constants.x), key) / TWO_32 == key / TWO_32
  {
    Pow2Widths();
    XorHigh(constants.x, key, 32);
  }

  /** Two keys with the same primary hash have congruent mixes. */
  lemma PrimaryCollision(constants: Uint2, k1: Uint64, k2: Uint64)
    requires k1 != k2
    requires HashFunctionInner(constants, k1) == HashFunctionInner(constants, k2)
    ensures PrimaryMix(constants, k1) != PrimaryMix(constants, k2)
    ensures PrimaryMix(constants, k1) % kPrimeDivisor == PrimaryMix(constants, k2) % kPrimeDivisor
  {
    MixesInjective(constants, k1, k2);
  }
}
