/** The probe sequence shared by the sequential and the atomic hash table: slot (key + i) modulo the
    table size, with the sum taken in 64 bits, for the first 10 values of i. */
module Probing {
  import opened Arithmetic

  const EMPTY: nat := 0
  const REMOVED: nat := 0xFFFF_FFFF_FFFF_FFFF
  const PLACEHOLDER: nat := 0xFFFF_FFFF_FFFF_FFFE
  const MAX_TRIES: nat := 10
  const UINT64: nat := 0x1_0000_0000_0000_0000

  function Index(size: nat, key: nat, i: nat): (x: nat)
    requires size > 0
    ensures x < size
  {
    Mod(Mod(key + i, UINT64), size)
  }

  /** The slot tried i-th for a key is (key + i) modulo 2^64, modulo the table size. */
  lemma IndexIsSum(size: nat, key: nat, i: nat)
    requires size > 0
    ensures Index(size, key, i) == ((key + i) % UINT64) % size
  {
    DivIsQuotient(key + i, UINT64);
    DivIsQuotient(Mod(key + i, UINT64), size);
  }

  /** The keys that no marker value is mistaken for. */
  predicate ProperKey(key: nat) {
    key < UINT64 && key != EMPTY && key != REMOVED && key != PLACEHOLDER
  }
}
