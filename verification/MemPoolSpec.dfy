/** What a pool is, seen from outside: the stack of freed indexes and the number of indexes handed
    out so far. Both the sequential and the lock-free pool are measured against it. */
module MemPoolSpec {

  import opened Options

  datatype Pool = Pool(free: seq<nat>, used: nat)

  /** The index to hand out next, with the pool that is left, unless all numItems are in use. */
  function Allocate(p: Pool, numItems: nat): (Option<nat>, Pool) {
    if p.free != [] then (Some(p.free[0]), p.(free := p.free[1..]))
    else if p.used < numItems then (Some(p.used), p.(used := p.used + 1))
    else (None, p)
  }

  function Remove(p: Pool, index: nat): Pool {
    p.(free := [index] + p.free)
  }

  /** The freed indexes are distinct and have all been handed out. */
  ghost predicate Valid(p: Pool, numItems: nat) {
    && p.used <= numItems
    && (forall k | 0 <= k < |p.free| :: p.free[k] < p.used)
    && (forall k, l | 0 <= k < l < |p.free| :: p.free[k] != p.free[l])
  }

  /** The indexes clients hold. */
  ghost function Held(p: Pool): set<nat> {
    set i: nat | i < p.used && i !in p.free
  }

  /** Allocation hands out an index nobody holds, and fails only if all are held. */
  lemma AllocateIsFresh(p: Pool, numItems: nat)
    requires Valid(p, numItems)
    ensures var (r, p') := Allocate(p, numItems);
            && Valid(p', numItems)
            && (r.Some? ==> r.value < numItems && r.value !in Held(p) && Held(p') == Held(p) + {r.value})
            && (r.None? ==> p' == p && forall i: nat | i < numItems :: i in Held(p))
  {
    var (r, p') := Allocate(p, numItems);
    if p.free != [] {
      assert p.free == [p.free[0]] + p'.free;
      assert forall i :: i in p.free <==> i == p.free[0] || i in p'.free;
    }
  }

  lemma RemoveFrees(p: Pool, numItems: nat, index: nat)
    requires Valid(p, numItems) && index in Held(p)
    ensures Valid(Remove(p, index), numItems) && Held(Remove(p, index)) == Held(p) - {index}
  {
    assert forall i :: i in Remove(p, index).free <==> i == index || i in p.free;
  }

  /** Freeing an index and allocating again returns it and restores the pool. */
  lemma RemoveThenAllocate(p: Pool, numItems: nat, index: nat)
    ensures Allocate(Remove(p, index), numItems) == (Some(index), p)
  {
    assert ([index] + p.free)[1..] == p.free;
  }
}
