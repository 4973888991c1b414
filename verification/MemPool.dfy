/** The sequential pool: ycommon/containers/mem_pool.cpp, lines 73 to 113. An item is modelled as its
    first 32-bit word, which holds the next free index while the item is free, and the rest. */
module MemPool {
  import opened Options
  import opened MemPoolSpec

  const NIL: nat := 0xFFFF_FFFF

  datatype Item<T> = Item(word: nat, rest: T)

  class MemPool<T(!new)> {
    const items: array<Item<T>>
    var usedIndexes: nat
    var nextFreeIndex: nat
    ghost var free: seq<nat>

    ghost function Model(): Pool
      reads this
    {
      Pool(free, usedIndexes)
    }

    ghost predicate Valid()
      reads this, items
    {
      && items.Length <= NIL
      && MemPoolSpec.Valid(Model(), items.Length)
      && nextFreeIndex == First(free)
      && Linked(items[..], free)
    }

    constructor (buffer: array<Item<T>>)
      requires buffer.Length <= NIL
      ensures Valid() && items == buffer && Model() == Pool([], 0)
    {
      items := buffer;
      usedIndexes, nextFreeIndex, free := 0, NIL, [];
    }

    method Clear()
      requires Valid()
      modifies this
      ensures Valid() && Model() == Pool([], 0)
    {
      usedIndexes, nextFreeIndex, free := 0, NIL, [];
    }

    /** Returns NIL if every item is held. */
    method Allocate() returns (index: nat)
      requires Valid()
      modifies this
      ensures Valid() && (ToOption(index), Model()) == MemPoolSpec.Allocate(old(Model()), items.Length)
    {
      index := nextFreeIndex;
      if index != NIL {
        nextFreeIndex := items[index].word;
        free := free[1..];
      } else if usedIndexes < items.Length {
        index := usedIndexes;
        usedIndexes := usedIndexes + 1;
      }
      AllocateIsFresh(old(Model()), items.Length);
    }

    method Insert(item: Item<T>) returns (index: nat)
      requires Valid()
      modifies this, items
      ensures Valid() && (ToOption(index), Model()) == MemPoolSpec.Allocate(old(Model()), items.Length)
      ensures items[..] == if index == NIL then old(items[..]) else old(items[..])[index := item]
    {
      index := Allocate();
      if index != NIL {
        AllocateIsFresh(old(Model()), items.Length);
        LinkedWrite(items[..], free, index, item);
        items[index] := item;
      }
    }

    /** The pool stays consistent if and only if the caller holds the index it gives back. */
    method Remove(index: nat)
      requires Valid() && index < usedIndexes
      modifies this, items
      ensures Consistent(items[..], nextFreeIndex, usedIndexes) <==> index in old(Held(Model()))
      ensures index in old(Held(Model())) ==> Valid() && Model() == MemPoolSpec.Remove(old(Model()), index)
      ensures nextFreeIndex == index && usedIndexes == old(usedIndexes)
      ensures items[..] == old(items[..])[index := old(items[index]).(word := old(nextFreeIndex))]
    {
      if index in Held(Model()) {
        RemoveFrees(Model(), items.Length, index);
        LinkedWrite(items[..], free, index, items[index].(word := nextFreeIndex));
      } else {
        DoubleFreeBreaks(items[..], free, usedIndexes, index);
      }
      items[index] := items[index].(word := nextFreeIndex);
      nextFreeIndex := index;
      free := [index] + free;
      assert free[1..] == old(free);
    }
  }

  /** The words in the buffer and the two counters describe some pool. */
  ghost predicate Consistent<T(!new)>(items: seq<Item<T>>, nextFree: nat, used: nat) {
    exists free :: nextFree == First(free) && Linked(items, free) && MemPoolSpec.Valid(Pool(free, used), |items|)
  }

  lemma {:induction false} LinkAt<T>(items: seq<Item<T>>, free: seq<nat>, j: nat)
    requires Linked(items, free) && j < |free|
    ensures free[j] < |items| && items[free[j]].word == if j + 1 < |free| then free[j + 1] else NIL
    decreases j
  {
    if j > 0 {
      LinkAt(items, free[1..], j - 1);
    }
  }

  /** Freeing a free index again ties the list into a ring: no list of distinct indexes follows its words. */
  lemma DoubleFreeBreaks<T(!new)>(items: seq<Item<T>>, free: seq<nat>, used: nat, index: nat)
    requires |items| <= NIL && Linked(items, free) && MemPoolSpec.Valid(Pool(free, used), |items|)
    requires index < used && index in free
    ensures !Consistent(items[index := items[index].(word := First(free))], index, used)
  {
    var items' := items[index := items[index].(word := First(free))];
    var k :| 0 <= k < |free| && free[k] == index;
    if list :| index == First(list) && Linked(items', list) && MemPoolSpec.Valid(Pool(list, used), |items|) {
      GoesRound(items, free, index, k, items', list, k);
    }
  }

  /** A list that starts at the index freed again goes on with the old list. */
  lemma {:induction false} GoesRound<T>(items: seq<Item<T>>, free: seq<nat>, index: nat, k: nat,
                                        items': seq<Item<T>>, list: seq<nat>, j: nat)
    requires |items| <= NIL && Linked(items, free) && j <= k < |free| && free[k] == index < |items|
    requires forall l | 0 <= l < k :: free[l] != index
    requires items' == items[index := items[index].(word := First(free))]
    requires list != [] && list[0] == index && Linked(items', list)
    ensures j + 1 < |list| && list[j + 1] == free[j]
    decreases j
  {
    LinkAt(items, free, j);
    if j == 0 {
      LinkAt(items', list, 0);
    } else {
      GoesRound(items, free, index, k, items', list, j - 1);
      LinkAt(items', list, j);
      LinkAt(items, free, j - 1);
    }
  }

  function ToOption(index: nat): Option<nat> {
    if index == NIL then None else Some(index)
  }

  ghost function First(free: seq<nat>): nat {
    if free == [] then NIL else free[0]
  }

  /** The words of the listed items chain them up, ending in NIL. */
  ghost predicate Linked<T>(items: seq<Item<T>>, free: seq<nat>) {
    free == [] || (free[0] < |items| && items[free[0]].word == First(free[1..]) && Linked(items, free[1..]))
  }

  lemma {:induction false} LinkedWrite<T>(items: seq<Item<T>>, free: seq<nat>, i: nat, item: Item<T>)
    requires Linked(items, free) && i < |items| && i !in free
    ensures Linked(items[i := item], free)
  {
    if free != [] {
      LinkedWrite(items, free[1..], i, item);
    }
  }
}
