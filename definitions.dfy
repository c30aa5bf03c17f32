/**
 * The stored record, the reserved sentinel values and the hard-coded limits
 * of the cuckoo hash table.
 */
module Definitions {
  import opened Unsigned

  /** A key and its value, stored side by side in one table slot. */
  datatype Entry = Entry(key: Uint64, value: Uint32)

  /** Number of build attempts before a build gives up. */
  const kMaxRestartAttempts: Uint32 := 10
  /** Key of a slot that holds nothing. */
  const kKeyEmpty: Uint64 := 0xFFFF_FFFF_FFFF_FFFF
  /** Value reported for a query key that is not in the table. */
  const kNotFound: Uint32 := 0xFFFF_FFFF
  /** Largest number of hash functions a table may use. */
  const kMaxHashFunctions: Uint32 := 5
  /** Number of slots of the stash that follows the main table. */
  const kStashSize: Uint32 := 101

  const kEntryEmpty: Entry := Entry(kKeyEmpty, 0)
  const kEntryNotFound: Entry := Entry(kKeyEmpty, kNotFound)

  /**
   * A minimum space usage (slots per key).  `Unsupported` stands for
   * `std::numeric_limits<float>::max()` and compares above every decimal
   * (see `Below`); `Hundredths(h)` is the exact decimal h / 100.
   */
  datatype SpaceUsage = Unsupported | Hundredths(h: nat)

  /** Minimum space usage indexed by the number of hash functions. */
  const kMinimumSpaceUsages: seq<SpaceUsage> :=
    [Unsupported, Unsupported, Hundredths(201), Hundredths(110), Hundredths(103), Hundredths(102)]

  /** `a` is strictly below `b`; `Unsupported` lies above every decimal. */
  predicate Below(a: SpaceUsage, b: SpaceUsage)
  {
    a.Hundredths? && (b.Unsupported? || a.h < b.h)
  }

  /**
   * Looking up the table with a function count.  The table has one entry for
   * every count from 0 to kMaxHashFunctions; fewer than two functions are not
   * supported, and every supported count asks for more slots than keys.
   */
  function MinimumSpaceUsage(numFunctions: nat): (r: SpaceUsage)
    requires numFunctions <= kMaxHashFunctions
    ensures r.Unsupported? <==> numFunctions < 2
    ensures r.Hundredths? ==> 100 < r.h <= 201
  {
    kMinimumSpaceUsages[numFunctions]
  }

  /** The table covers exactly the counts 0 .. kMaxHashFunctions. */
  lemma MinimumSpaceUsagesLength()
    ensures |kMinimumSpaceUsages| == kMaxHashFunctions + 1
  {
  }

  /**
   * More hash functions never ask for more space, and among the supported
   * counts every extra function asks for strictly less.
   */
  lemma MinimumSpaceUsageDecreasing(i: nat, j: nat)
    requires i < j <= kMaxHashFunctions
    ensures 2 <= j ==> Below(MinimumSpaceUsage(j), MinimumSpaceUsage(i))
    ensures j < 2 ==> MinimumSpaceUsage(j) == MinimumSpaceUsage(i)
  {
  }

  /** The four supported minimum space usages, as exact decimals. */
  lemma MinimumSpaceUsageValues()
    ensures MinimumSpaceUsage(2) == Hundredths(201)
    ensures MinimumSpaceUsage(3) == Hundredths(110)
    ensures MinimumSpaceUsage(4) == Hundredths(103)
    ensures MinimumSpaceUsage(5) == Hundredths(102)
  {
  }

  /** The sentinels are the largest key and the largest value. */
  lemma SentinelsAreMaxima(k: Uint64, v: Uint32)
    ensures kKeyEmpty == Pow2(64) - 1 && k <= kKeyEmpty
    ensures kNotFound == Pow2(32) - 1 && v <= kNotFound
  {
    Pow2Widths();
  }

  /**
   * The empty slot and the not-found result share the reserved key and are
   * told apart only by their value.
   */
  lemma SentinelEntries()
    ensures kEntryEmpty.key == kEntryNotFound.key == kKeyEmpty
    ensures kEntryEmpty.value == 0 && kEntryNotFound.value == kNotFound
    ensures kEntryEmpty != kEntryNotFound
  {
  }
}
