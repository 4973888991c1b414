/** Ring positions and their words: ycommon/containers/atomic_queue.cpp packs how often an end of the
    ring has gone round, modulo 256, together with its byte offset in the buffer. */
module RingWords {
  import opened Arithmetic
  import opened NumberMask

  /** A ring of `items` slots of `size` bytes. */
  datatype Ring = Ring(size: nat, items: nat)

  function Capacity(r: Ring): nat {
    Times(r.items, r.size)
  }

  ghost predicate Valid(r: Ring) {
    r.size > 0 && r.items > 0 && Capacity(r) < NUMBERS
  }

  /** The byte offset of the slot of the p-th item ever enqueued. */
  function Offset(r: Ring, p: nat): nat
    requires r.items > 0
  {
    Times(Mod(p, r.items), r.size)
  }

  /** The word that stands for position p. */
  function Word(r: Ring, p: nat): nat
    requires r.items > 0
  {
    ConstructValue(Div(p, r.items), Offset(r, p))
  }

  /** The word after `word`, as Enqueue and Dequeue compute it. */
  function Advance(r: Ring, word: nat): nat {
    if GetNum(word) + r.size == Capacity(r) then ConstructNextValue(GetCnt(word), 0)
    else ConstructValue(GetCnt(word), GetNum(word) + r.size)
  }

  /** Counting gives the quotient, the remainder and the products that the words are made of. */
  lemma WordsAreQuotients(r: Ring, p: nat)
    requires r.items > 0
    ensures Capacity(r) == r.items * r.size
    ensures Word(r, p) == ConstructValue(p / r.items, (p % r.items) * r.size)
  {
    TimesIsProduct(r.items, r.size);
    DivIsQuotient(p, r.items);
    TimesIsProduct(Mod(p, r.items), r.size);
  }

  // ----- the word of a position -----

  lemma OffsetFits(r: Ring, p: nat)
    requires Valid(r)
    ensures Offset(r, p) + r.size <= Capacity(r)
    ensures Offset(r, p) < NUMBERS
  {
    TimesLess(Mod(p, r.items), r.items, r.size);
  }

  lemma WordAt(r: Ring, p: nat)
    requires Valid(r)
    ensures GetNum(Word(r, p)) == Offset(r, p) && GetCnt(Word(r, p)) == Div(p, r.items) % COUNTS
  {
    OffsetFits(r, p);
    WordParts(Div(p, r.items), Offset(r, p));
  }

  lemma {:induction false} NextInRing(n: nat, p: nat)
    requires n > 0
    ensures if Mod(p, n) == n - 1 then Mod(p + 1, n) == 0 && Div(p + 1, n) == Div(p, n) + 1
            else Mod(p + 1, n) == Mod(p, n) + 1 && Div(p + 1, n) == Div(p, n)
  {
    if p >= n {
      NextInRing(n, p - n);
    }
  }

  /** The word after that of position p is the word of position p + 1. */
  lemma AdvanceIsNext(r: Ring, p: nat)
    requires Valid(r)
    ensures Advance(r, Word(r, p)) == Word(r, p + 1)
  {
    WordAt(r, p);
    OffsetFits(r, p);
    NextInRing(r.items, p);
    NextWord(Div(p, r.items), Offset(r, p), 0);
    AdvanceOffset(r, p);
    if Mod(p, r.items) != r.items - 1 {
      StoredCount(Div(p, r.items), Offset(r, p + 1));
    }
  }

  /** The offset goes up by a slot, or reaches the end of the buffer in the last slot of the ring. */
  lemma AdvanceOffset(r: Ring, p: nat)
    requires Valid(r)
    ensures Offset(r, p) + r.size == Capacity(r) <==> Mod(p, r.items) == r.items - 1
    ensures Mod(p, r.items) == r.items - 1 ==> Offset(r, p + 1) == 0
    ensures Mod(p, r.items) != r.items - 1 ==> Offset(r, p + 1) == Offset(r, p) + r.size
  {
    NextInRing(r.items, p);
    if Mod(p, r.items) != r.items - 1 {
      TimesLess(Mod(p, r.items) + 1, r.items, r.size);
    }
  }

  lemma SameOffset(r: Ring, p: nat, q: nat)
    requires Valid(r)
    ensures Offset(r, p) == Offset(r, q) <==> Mod(p, r.items) == Mod(q, r.items)
  {
    var a, b := Mod(p, r.items), Mod(q, r.items);
    if a < b {
      TimesLess(a, b, r.size);
    } else if b < a {
      TimesLess(b, a, r.size);
    }
  }

  /** Two words agree exactly if their positions agree in the ring and in the laps modulo 256. */
  lemma SameWordParts(r: Ring, p: nat, q: nat)
    requires Valid(r)
    ensures Word(r, p) == Word(r, q) <==>
            Mod(p, r.items) == Mod(q, r.items) && Div(p, r.items) % COUNTS == Div(q, r.items) % COUNTS
  {
    OffsetFits(r, p);
    OffsetFits(r, q);
    SameWord(Div(p, r.items), Offset(r, p), Div(q, r.items), Offset(r, q));
    SameOffset(r, p, q);
  }

  lemma LapsApart(n: nat, p: nat, q: nat)
    requires n > 0 && p <= q && Mod(p, n) == Mod(q, n)
    ensures Div(q, n) >= Div(p, n) && q - p == Times(Div(q, n) - Div(p, n), n)
  {
    DivMod(p, n);
    DivMod(q, n);
    if Div(q, n) < Div(p, n) {
      TimesLess(Div(q, n), Div(p, n), n);
    } else {
      TimesAdd(Div(p, n), Div(q, n) - Div(p, n), n);
    }
  }

  lemma LapsBetween(n: nat, p: nat, q: nat) returns (k: nat)
    requires n > 0 && p <= q && Mod(p, n) == Mod(q, n) && Div(p, n) % COUNTS == Div(q, n) % COUNTS
    ensures q - p == Times(k * COUNTS, n)
  {
    LapsApart(n, p, q);
    k := Div(q, n) / COUNTS - Div(p, n) / COUNTS;
  }

  /** Two words agree exactly if their positions are a multiple of 256 laps apart. */
  lemma SameWordIff(r: Ring, p: nat, q: nat)
    requires Valid(r) && p <= q
    ensures Word(r, p) == Word(r, q) <==> exists k: nat :: q - p == Times(k * COUNTS, r.items)
  {
    SameWordParts(r, p, q);
    if Word(r, p) == Word(r, q) {
      var k := LapsBetween(r.items, p, q);
    }
    if k: nat :| q - p == Times(k * COUNTS, r.items) {
      AddTimes(p, k * COUNTS, r.items);
    }
  }

  /** Fewer than 256 laps apart, equal words mean equal positions. */
  lemma NearWords(r: Ring, p: nat, q: nat)
    requires Valid(r) && p <= q < p + COUNTS * r.items
    ensures Word(r, p) == Word(r, q) <==> p == q
  {
    SameWordIff(r, p, q);
    if k: nat :| q - p == Times(k * COUNTS, r.items) {
      if k > 0 {
        TimesLess(COUNTS - 1, k * COUNTS, r.items);
        TimesIsProduct(COUNTS - 1, r.items);
      }
    }
  }

  /** Positions at most one lap apart share a slot exactly if they are equal or one lap apart. */
  lemma SameSlotNear(n: nat, p: nat, q: nat)
    requires n > 0 && p <= q <= p + n
    ensures Mod(p, n) == Mod(q, n) <==> q == p || q == p + n
  {
    if Mod(p, n) == Mod(q, n) {
      LapsApart(n, p, q);
      if Div(q, n) - Div(p, n) >= 2 {
        TimesLess(1, Div(q, n) - Div(p, n), n);
      }
    }
  }

  /** The words of two ends at most one ring apart decide empty and full as the positions do. */
  lemma WordsDecide(r: Ring, head: nat, tail: nat)
    requires Valid(r) && head <= tail <= head + r.items
    ensures Word(r, head) == Word(r, tail) <==> head == tail
    ensures GetNum(Word(r, head)) == GetNum(Word(r, tail)) && Word(r, head) != Word(r, tail) <==>
            tail == head + r.items
  {
    NearWords(r, head, tail);
    WordAt(r, head);
    WordAt(r, tail);
    SameOffset(r, head, tail);
    SameSlotNear(r.items, head, tail);
  }

  /** Different slots do not overlap. */
  lemma SlotsApart(r: Ring, p: nat, q: nat)
    requires Valid(r) && Mod(p, r.items) != Mod(q, r.items)
    ensures Offset(r, p) + r.size <= Offset(r, q) || Offset(r, q) + r.size <= Offset(r, p)
  {
    if Mod(p, r.items) < Mod(q, r.items) {
      TimesLess(Mod(p, r.items), Mod(q, r.items), r.size);
    } else {
      TimesLess(Mod(q, r.items), Mod(p, r.items), r.size);
    }
  }

  lemma NearSlotsDiffer(r: Ring, p: nat, q: nat)
    requires Valid(r) && p < q < p + r.items
    ensures Mod(p, r.items) != Mod(q, r.items)
  {
    SameSlotNear(r.items, p, q);
  }

  lemma SlotCount(size: nat, a: nat, b: nat)
    requires size > 0 && a < b
    ensures Times(b, size) > Times(a, size) && (Times(b, size) - Times(a, size)) / size == b - a
  {
    TimesLess(a, b, size);
    TimesAdd(a, b - a, size);
    AddTimes(0, b - a, size);
    DivIsQuotient(Times(b - a, size), size);
  }
}
