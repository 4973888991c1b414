/** The counter-and-number words of ycommon/headers/atomic_number_mask.h: the top 8 bits of an
    unsigned 64-bit word count its changes modulo 256, the low 56 bits hold a number. */
module NumberMask {

  const COUNTS := 256
  const NUMBERS: nat := 0x100_0000_0000_0000
  const WORDS: nat := 0x1_0000_0000_0000_0000

  function GetCnt(word: nat): nat {
    word / NUMBERS
  }

  function GetNum(word: nat): nat {
    word % NUMBERS
  }

  /** Shifting the count left by 56 in 64 bits keeps it modulo 256; masking keeps the low 56 bits. */
  function ConstructValue(count: nat, number: nat): nat {
    (count % COUNTS) * NUMBERS + number % NUMBERS
  }

  function ConstructNextValue(count: nat, number: nat): nat {
    ConstructValue(count + 1, number)
  }

  lemma WordParts(count: nat, number: nat)
    requires number < NUMBERS
    ensures ConstructValue(count, number) < WORDS
    ensures GetCnt(ConstructValue(count, number)) == count % 256
    ensures GetNum(ConstructValue(count, number)) == number
  {
  }

  /** Counting on from a stored counter is counting on from the true count. */
  lemma NextWord(count: nat, number: nat, next: nat)
    requires number < NUMBERS && next < NUMBERS
    ensures ConstructNextValue(GetCnt(ConstructValue(count, number)), next) == ConstructValue(count + 1, next)
  {
    WordParts(count, number);
    assert (count % COUNTS + 1) % COUNTS == (count + 1) % COUNTS;
  }

  lemma StoredCount(count: nat, number: nat)
    ensures ConstructValue(count % COUNTS, number) == ConstructValue(count, number)
  {
  }

  /** Two words are equal exactly if their numbers are and their counts agree modulo 256. */
  lemma SameWord(c: nat, m: nat, d: nat, n: nat)
    requires m < NUMBERS && n < NUMBERS
    ensures ConstructValue(c, m) == ConstructValue(d, n) <==> m == n && c % COUNTS == d % COUNTS
  {
    WordParts(c, m);
    WordParts(d, n);
  }

  /** Fewer than 256 changes apart, equal counters mean equal counts. */
  lemma NearCounts(c: nat, d: nat)
    requires c <= d < c + COUNTS
    ensures c % COUNTS == d % COUNTS <==> c == d
  {
    if c % COUNTS == d % COUNTS {
      assert d - c == COUNTS * (d / COUNTS - c / COUNTS);
    }
  }
}
