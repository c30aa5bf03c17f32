/**
 * Where the stash lives in the table contents: the contents hold
 * `tableSize` main slots followed by the kStashSize stash slots.
 */
module TableLayout {
  import opened Unsigned
  import opened Definitions
  import opened HashFunctions

  /** Number of entries of the contents of a table with `tableSize` main slots. */
  function StorageSize(tableSize: Uint32): nat
  {
    tableSize + kStashSize
  }

  /** Position in the contents of stash slot `slot`. */
  function StashPosition(tableSize: Uint32, slot: nat): (p: nat)
    requires slot < kStashSize
    ensures tableSize <= p < StorageSize(tableSize)
    ensures p - tableSize == slot
  {
    tableSize + slot
  }

  /** Position in the contents of the stash slot a key hashes to. */
  function StashPositionOf(tableSize: Uint32, stashConstants: Uint2, key: Uint64): (p: nat)
    ensures tableSize <= p < StorageSize(tableSize)
  {
    StashPosition(tableSize, StashHashFunction(stashConstants, key))
  }
}
