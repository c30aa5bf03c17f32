# cuHash64 hash functions and table constants, in Dafny

cuHash64 is a GPU cuckoo hash table that maps 64-bit keys to 32-bit values.
Every probe it makes, in both construction and retrieval, goes through two hash
functions:

- the primary hash `hash_function_inner` / `hash_function`, which computes
  `((x ^ key) + y) % 4294967291` for one constant pair `(x, y)` of a function
  set `Functions<N>`;
- the stash hash `stash_hash_function`, which picks one of the 101 stash slots
  stored after the main table.

This project models these functions together with the stored record (`Entry`),
the reserved sentinels and the hard-coded limits. Modules:

- `Unsigned` (`unsigned.dfy`) covers C's unsigned arithmetic. `unsigned` and
  `unsigned long long` are naturals below 2^32 and 2^64. It has wrapping 64-bit
  addition, zero extension, truncation to 32 bits, and exclusive or. Exclusive or
  is defined one bit at a time, and a lemma proves its bit-by-bit meaning.
- `Definitions` (`definitions.dfy`) holds `Entry`, the sentinels `kKeyEmpty`,
  `kNotFound`, `kEntryEmpty` and `kEntryNotFound`, the limits `kMaxRestartAttempts`,
  `kMaxHashFunctions` and `kStashSize`, and the table of minimum space usages per
  function count.
- `HashFunctions` (`hash_function.dfy`) holds `kPrimeDivisor`, the constant pair
  `Uint2`, the function set `Functions` (N is the length of its constant sequence),
  and the two hashes.
- `TableLayout` (`layout.dfy`) says where a stash slot sits in the table contents:
  the stash is stored after the `table_size` main slots. The length of the
  contents is defined as `StorageSize(tableSize) = tableSize + kStashSize`, and
  the `StashPosition` and `StashPositionOf` rows below are stated against it.

The stash hash follows C operator precedence. C's `+` binds tighter than `^`, so
`x ^ key + y` (hashFunction.h:50) computes `x ^ ((key + y) mod 2^64)`. This
grouping differs from the primary hash's `(x ^ key) + y` (hashFunction.h:36).
`StashHashGroupingExample` shows one input where the two give different slots.

## Model

| member | source | states |
|---|---|---|
| `Unsigned.XorBit` | hashFunction.h:36 | bit i of the modelled `^` is set exactly when bit i of the two operands differ (the meaning of C's `^`) |
| `Unsigned.XorBound` | hashFunction.h:36 | the `^` of two n-bit operands is an n-bit value, so `x ^ key` is an `unsigned long long` |
| `Unsigned.XorInverse` | hashFunction.h:36 | `(a ^ b) ^ b == a`: exclusive or with a fixed constant can be undone |
| `Unsigned.XorZero` | hashFunction.h:36 | 0 is the identity of `^` on either side |
| `Unsigned.Xor64` | hashFunction.h:36 | C's `^` on two `unsigned long long` operands: a 64-bit result (by `XorBound`) whose bit i is set exactly when bit i of the operands differ (by `XorBit`) |
| `Unsigned.WrappingAdd` | hashFunction.h:36 | 64-bit `+` is the plain sum when that sum is below 2^64, and the sum minus 2^64 when it is not |
| `Unsigned.ZeroExtend` | hashFunction.h:36 | widening a 32-bit constant to 64 bits keeps its value in the low half and leaves the upper half zero |
| `Unsigned.Truncate32` | hashFunction.h:33-37 | converting to `unsigned` keeps the low 32 bits of the value, so it leaves any value below 2^32 unchanged |
| `Definitions.MinimumSpaceUsage` | definitions.h:50-55 | a lookup by function count 0..kMaxHashFunctions is unsupported exactly for counts below 2; every supported count needs between 1.00 (exclusive) and 2.01 slots per key |
| `Definitions.MinimumSpaceUsagesLength` | definitions.h:42-55 | the table has kMaxHashFunctions + 1 = 6 entries |
| `Definitions.MinimumSpaceUsageDecreasing` | definitions.h:50-55 | for counts i < j, a supported count j needs strictly less space than count i, and counts 0 and 1 are the same |
| `Definitions.MinimumSpaceUsageValues` | definitions.h:50-55 | counts 2, 3, 4 and 5 need exactly 2.01, 1.10, 1.03 and 1.02 slots per key |
| `Definitions.SentinelsAreMaxima` | definitions.h:37-41 | `kKeyEmpty` is 2^64 - 1 and `kNotFound` is 2^32 - 1, so each is the largest value of its type |
| `Definitions.SentinelEntries` | definitions.h:46-47 | `kEntryEmpty` and `kEntryNotFound` both have key `kKeyEmpty`, have values 0 and `kNotFound`, and are different entries |
| `HashFunctions.PrimaryMix` | hashFunction.h:36 | the 64-bit value `(x ^ key) + y` is the mathematical sum when it fits in 64 bits, and that sum minus 2^64 when it overflows |
| `HashFunctions.HashFunctionInner` | hashFunction.h:33-37 | the primary hash is below `kPrimeDivisor`, and converting it to `unsigned` loses nothing |
| `HashFunctions.PrimaryHashWrapping` | hashFunction.h:36 | measured against the mathematical value `(x ^ key) + y`: the prime reduction sees that value when it fits in 64 bits, and that value minus 2^64 when it overflows |
| `HashFunctions.PrimaryHashWrapExample` | hashFunction.h:36 | with `x = 0, y = 1` the key 2^64 - 1 hashes to 0, while the unwrapped sum would give 25 |
| `HashFunctions.PrimaryHashZeroConstants` | hashFunction.h:36 | with constants `(0, 0)` the hash is `key % kPrimeDivisor`, and is the key itself when the key is below the prime |
| `HashFunctions.PrimaryMixKeepsHighHalf` | hashFunction.h:36 | zero-extending the 32-bit `x` means `x ^ key` keeps the key's upper 32 bits |
| `HashFunctions.MixesInjective` | hashFunction.h:33-51 | before the final `%`, both mixes are one-to-one on 64-bit keys |
| `HashFunctions.PrimaryCollision` | hashFunction.h:36 | two distinct keys with the same primary hash have distinct 64-bit mixes that are congruent modulo the prime |
| `HashFunctions.StashMix` | hashFunction.h:50 | the 64-bit value `x ^ key + y`, grouped as `x ^ (key + y)`: the `^` sees the sum `key + y`, less 2^64 when it overflows, and keeps that wrapped sum's upper 32 bits |
| `HashFunctions.HashFunction` | hashFunction.h:39-45 | function `which_function` is defined only for an index below N, and its value is below `kPrimeDivisor` |
| `HashFunctions.HashFunctionSelects` | hashFunction.h:22-45 | function i of a set is `hash_function_inner` of the set's i-th constant pair; two sets that agree at i give the same hash for every key |
| `HashFunctions.StashHashFunction` | hashFunction.h:47-51 | the stash hash is below `kStashSize` = 101, and converting it to `unsigned` loses nothing |
| `HashFunctions.StashHashGroupingExample` | hashFunction.h:50 | with `x = 1, y = 1` the key 0 goes to stash slot 0, while the primary grouping `(x ^ key) + y` would give slot 2 |
| `HashFunctions.StashHashWrapping` | hashFunction.h:50 | measured against the mathematical value `key + y`: the `^` with `x` sees that value when it fits in 64 bits, and that value minus 2^64 when it overflows |
| `HashFunctions.StashHashZeroOffset` | hashFunction.h:50 | when `y = 0` the stash grouping and the primary grouping agree |
| `TableLayout.StashPosition` | cuHash64.h:69-70 | stash slot s sits at position table_size + s: past the main table and inside the `table_size + kStashSize` contents |
| `TableLayout.StashPositionOf` | cuHash64.h:69-70 | the stash slot a key hashes to always lies past the main table and inside the contents |

## Left out

- `Functions<N>::Generate` and `GenerateFunctions` (hashFunction.h:19-30) are left out. They draw random constants in device memory through a function whose body is not part of this model.
- `PrintMessage` (definitions.h:15-22) is left out because it is console output.
- `kBlockSize` and `kGridSize` are left out because they are GPU launch configuration with no bearing on the hashes.
- Everything declared in cuHash64.h is left out. Apart from the one-line field accessors and `setTheCudpp` (cuHash64.h:49-65) and the destructor's call to `Release` (cuHash64.h:34), none of it has a body there. That covers `HashTable`, `ComputeMaxIterations`, `ComputerGridDim`, `ClearTable`, the construction kernel `CallCuckooHash` and the retrieval kernel `CallHashRetrieve`. The model adds no eviction chain, retrieval protocol or iteration budget. Only the stash placement described at cuHash64.h:69-70 is modelled.
- `Definitions.MinimumSpaceUsage`: the entries are `float`s in the source. The model keeps them as exact decimals (2.01 rather than the nearest float), and `std::numeric_limits<float>::max()` is the marker `Unsupported`, placed above every decimal.
- `TableLayout.StorageSize`: `table_size + kStashSize` is computed without 32-bit wrap-around. The model does not follow a `table_size` so close to the 32-bit range of `unsigned table_size_` (cuHash64.h:67) that the 32-bit sum `table_size + kStashSize` would wrap.
- `Functions`: the template's count N is the length of the constant sequence and not part of the type. `hash_function`'s requirement that `which_function < N` is a precondition.
- The namespace names (`CudaHT::CuckooHashing`, `CUHASH`, `CUHASH_HF`, `CUHASH_HT`) carry no behaviour and are left out.
- The 96-bit layout of `Entry` mentioned in the source comment is not modelled. Only the contents matter here: a 64-bit key and a 32-bit value.
