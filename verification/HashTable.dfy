/** The sequential table of ycommon/containers/hash_table.cpp, lines 60 to 203: open addressing with ten
    probes and tombstones. Value addresses are modelled as slot numbers. */
module HashTable {
  import opened Options
  import opened Probing

  /** The keys that neither marker value is mistaken for. */
  predicate IsKey(key: nat) {
    key < UINT64 && key != EMPTY && key != REMOVED
  }

  // ----- what a key table means -----

  /** Where the i-th and later probes for the key end: at the key, or at an EMPTY slot. */
  function Find(slots: seq<nat>, key: nat, i: nat): (r: Option<nat>)
    requires |slots| > 0 && i <= MAX_TRIES
    ensures r.Some? ==> r.value < |slots|
    decreases MAX_TRIES - i
  {
    if i == MAX_TRIES then None
    else
      var x := Index(|slots|, key, i);
      if slots[x] == key then Some(x)
      else if slots[x] == EMPTY then None
      else Find(slots, key, i + 1)
  }

  /** The first slot, from the i-th probe on, that an insert of the key takes. */
  function FindUsable(slots: seq<nat>, key: nat, i: nat): (r: Option<nat>)
    requires |slots| > 0 && i <= MAX_TRIES
    ensures r.Some? ==> r.value < |slots|
    decreases MAX_TRIES - i
  {
    if i == MAX_TRIES then None
    else
      var x := Index(|slots|, key, i);
      if slots[x] == key || slots[x] == REMOVED || slots[x] == EMPTY then Some(x)
      else FindUsable(slots, key, i + 1)
  }

  ghost predicate Passes(slots: seq<nat>, key: nat, i: nat)
    requires |slots| > 0
  {
    forall j | 0 <= j < i :: slots[Index(|slots|, key, j)] != EMPTY
  }

  /** Every key is stored once, at the probe number given by `offsets`, behind slots that are
      not EMPTY. */
  ghost predicate Placed(slots: seq<nat>, offsets: map<nat, nat>) {
    && |slots| >= MAX_TRIES
    && (forall k | k in offsets ::
          IsKey(k) && offsets[k] < MAX_TRIES && slots[Index(|slots|, k, offsets[k])] == k && Passes(slots, k, offsets[k]))
    && (forall x | 0 <= x < |slots| ::
          slots[x] == EMPTY || slots[x] == REMOVED
          || (slots[x] in offsets && Index(|slots|, slots[x], offsets[slots[x]]) == x))
  }

  /** The key table and the entry counter fit together. */
  ghost predicate Consistent(slots: seq<nat>, entries: int) {
    exists offsets :: Placed(slots, offsets) && |offsets| == entries
  }

  /** In a consistent table a key is found exactly if it is stored, and then in its slot. */
  lemma {:induction false} FindExact(slots: seq<nat>, offsets: map<nat, nat>, key: nat, i: nat)
    requires Placed(slots, offsets) && IsKey(key) && i <= MAX_TRIES
    requires key in offsets ==> i <= offsets[key]
    ensures Find(slots, key, i) == if key in offsets then Some(Index(|slots|, key, offsets[key])) else None
    decreases MAX_TRIES - i
  {
    if i < MAX_TRIES {
      var x := Index(|slots|, key, i);
      if slots[x] != key && slots[x] != EMPTY {
        FindExact(slots, offsets, key, i + 1);
      }
    }
  }

  lemma {:induction false} FindUsableAt(slots: seq<nat>, key: nat, i: nat)
    requires |slots| > 0 && i <= MAX_TRIES && Passes(slots, key, i)
    ensures FindUsable(slots, key, i).Some? ==>
              exists o | i <= o < MAX_TRIES ::
                FindUsable(slots, key, i) == Some(Index(|slots|, key, o)) && Passes(slots, key, o)
    ensures FindUsable(slots, key, i).Some? ==>
              slots[FindUsable(slots, key, i).value] in {key, EMPTY, REMOVED}
    decreases MAX_TRIES - i
  {
    if i < MAX_TRIES {
      var x := Index(|slots|, key, i);
      if slots[x] == key || slots[x] == REMOVED || slots[x] == EMPTY {
        assert FindUsable(slots, key, i) == Some(Index(|slots|, key, i));
      } else {
        FindUsableAt(slots, key, i + 1);
      }
    }
  }

  /** The j-th slot tried for the key holds another key. */
  predicate TakenByOther(slots: seq<nat>, key: nat, j: nat)
    requires |slots| > 0
  {
    slots[Index(|slots|, key, j)] !in {key, EMPTY, REMOVED}
  }

  /** Slot x is the first of the ten, in probing order, that does not hold another key. */
  ghost predicate IsFirstUsable(slots: seq<nat>, key: nat, i: nat, x: nat)
    requires |slots| > 0
  {
    exists o | i <= o < MAX_TRIES ::
      && x == Index(|slots|, key, o) && !TakenByOther(slots, key, o)
      && forall j | i <= j < o :: TakenByOther(slots, key, j)
  }

  lemma {:induction false} FindUsableIsFirst(slots: seq<nat>, key: nat, i: nat)
    requires |slots| > 0 && i <= MAX_TRIES && FindUsable(slots, key, i).Some?
    ensures IsFirstUsable(slots, key, i, FindUsable(slots, key, i).value)
    decreases MAX_TRIES - i
  {
    var x := Index(|slots|, key, i);
    if TakenByOther(slots, key, i) {
      FindUsableIsFirst(slots, key, i + 1);
      var o :| i + 1 <= o < MAX_TRIES && FindUsable(slots, key, i).value == Index(|slots|, key, o)
        && !TakenByOther(slots, key, o) && forall j | i + 1 <= j < o :: TakenByOther(slots, key, j);
      assert forall j | i <= j < o :: TakenByOther(slots, key, j);
    } else {
      assert x == Index(|slots|, key, i) && !TakenByOther(slots, key, i);
    }
  }

  /** An insert fails only if all ten slots hold other keys. */
  lemma {:induction false} FindUsableFails(slots: seq<nat>, key: nat, i: nat)
    requires |slots| > 0 && i <= MAX_TRIES
    ensures FindUsable(slots, key, i).None? <==>
            forall j | i <= j < MAX_TRIES :: TakenByOther(slots, key, j)
    decreases MAX_TRIES - i
  {
    if i < MAX_TRIES {
      FindUsableFails(slots, key, i + 1);
      assert FindUsable(slots, key, i).None? <==> TakenByOther(slots, key, i) && FindUsable(slots, key, i + 1).None?;
    }
  }

  lemma PassesWrite(slots: seq<nat>, x: nat, key: nat, k: nat, i: nat)
    requires |slots| > 0 && Passes(slots, k, i) && x < |slots| && key != EMPTY
    ensures Passes(slots[x := key], k, i)
  {
    var slots' := slots[x := key];
    forall j | 0 <= j < i ensures slots'[Index(|slots'|, k, j)] != EMPTY {
      assert slots[Index(|slots|, k, j)] != EMPTY;
    }
  }

  /** Storing an absent key in a free slot reached by probing. */
  lemma StorePlaces(slots: seq<nat>, offsets: map<nat, nat>, key: nat, o: nat)
    requires Placed(slots, offsets) && IsKey(key) && key !in offsets
    requires o < MAX_TRIES && Passes(slots, key, o) && slots[Index(|slots|, key, o)] in {EMPTY, REMOVED}
    ensures Placed(slots[Index(|slots|, key, o) := key], offsets[key := o])
  {
    var x := Index(|slots|, key, o);
    PassesWrite(slots, x, key, key, o);
    forall k | k in offsets ensures Passes(slots[x := key], k, offsets[k]) {
      PassesWrite(slots, x, key, k, offsets[k]);
    }
  }

  /** Overwriting a stored key with a tombstone. */
  lemma RemovePlaces(slots: seq<nat>, offsets: map<nat, nat>, key: nat)
    requires Placed(slots, offsets) && key in offsets
    ensures Placed(slots[Index(|slots|, key, offsets[key]) := REMOVED], offsets - {key})
  {
    var x := Index(|slots|, key, offsets[key]);
    forall k | k in offsets ensures Passes(slots[x := REMOVED], k, offsets[k]) {
      PassesWrite(slots, x, REMOVED, k, offsets[k]);
    }
  }

  /** A key table determines the keys stored. */
  lemma SameKeys(slots: seq<nat>, o1: map<nat, nat>, o2: map<nat, nat>)
    requires Placed(slots, o1) && Placed(slots, o2)
    ensures o1.Keys == o2.Keys && |o1| == |o2|
  {
    assert |o1| == |o1.Keys| && |o2| == |o2.Keys|;
    forall k | k in o1 ensures k in o2 {
      assert slots[Index(|slots|, k, o1[k])] == k;
    }
    forall k | k in o2 ensures k in o1 {
      assert slots[Index(|slots|, k, o2[k])] == k;
    }
  }

  /** Inserting a stored key again, into its own slot or into an earlier tombstone, always leaves the
      table inconsistent: either the counter is one too high, or the key is stored twice. */
  lemma StoreAgainBreaks(slots: seq<nat>, offsets: map<nat, nat>, key: nat, x: nat)
    requires Placed(slots, offsets) && key in offsets && x < |slots| && slots[x] in {key, EMPTY, REMOVED}
    ensures !Consistent(slots[x := key], |offsets| + 1)
  {
    var slots' := slots[x := key];
    var y := Index(|slots|, key, offsets[key]);
    if o :| Placed(slots', o) && |o| == |offsets| + 1 {
      assert slots'[x] == key && slots'[y] == key;
      assert x == y;
      assert slots' == slots;
      SameKeys(slots, offsets, o);
    }
  }

  lemma FindUsableExact(slots: seq<nat>, key: nat)
    requires |slots| > 0
    ensures match FindUsable(slots, key, 0)
            case Some(x) => IsFirstUsable(slots, key, 0, x)
            case None => true
    ensures FindUsable(slots, key, 0).None? <==> forall j | 0 <= j < 10 :: TakenByOther(slots, key, j)
  {
    FindUsableFails(slots, key, 0);
    if FindUsable(slots, key, 0).Some? {
      FindUsableIsFirst(slots, key, 0);
    }
  }

  /** The map that a table with the given values stands for. */
  ghost function MapOf<V>(values: seq<V>, offsets: map<nat, nat>): map<nat, V>
    requires |values| > 0
  {
    map k | k in offsets :: values[Index(|values|, k, offsets[k])]
  }

  lemma RemoveOneKey(offsets: map<nat, nat>, key: nat)
    requires key in offsets
    ensures |offsets - {key}| == |offsets| - 1
  {
    assert offsets.Keys == (offsets - {key}).Keys + {key};
    assert |offsets| == |offsets.Keys| && |offsets - {key}| == |(offsets - {key}).Keys|;
  }

  lemma RemoveMaps<V>(values: seq<V>, offsets: map<nat, nat>, key: nat)
    requires |values| > 0
    ensures MapOf(values, offsets - {key}) == MapOf(values, offsets) - {key}
  {
  }

  /** A tombstone in an occupied slot takes its key out of the map. */
  lemma TakeOut<V>(slots: seq<nat>, values: seq<V>, offsets: map<nat, nat>, x: nat)
    requires Placed(slots, offsets) && |values| == |slots| && x < |slots| && slots[x] !in {EMPTY, REMOVED}
    ensures slots[x] in offsets && |offsets - {slots[x]}| == |offsets| - 1
    ensures Placed(slots[x := REMOVED], offsets - {slots[x]})
    ensures MapOf(values, offsets - {slots[x]}) == MapOf(values, offsets) - {slots[x]}
  {
    RemovePlaces(slots, offsets, slots[x]);
    RemoveOneKey(offsets, slots[x]);
    RemoveMaps(values, offsets, slots[x]);
  }

  lemma AbsentNotStored(slots: seq<nat>, offsets: map<nat, nat>, key: nat, x: nat)
    requires Placed(slots, offsets) && key !in offsets && IsKey(key) && x < |slots|
    ensures slots[x] != key
  {
  }

  lemma StoreMaps<V>(slots: seq<nat>, values: seq<V>, offsets: map<nat, nat>, key: nat, o: nat, value: V)
    requires Placed(slots, offsets) && IsKey(key) && key !in offsets && |values| == |slots|
    requires slots[Index(|slots|, key, o)] in {EMPTY, REMOVED}
    ensures MapOf(values[Index(|slots|, key, o) := value], offsets[key := o]) == MapOf(values, offsets)[key := value]
  {
    var x := Index(|slots|, key, o);
    forall k | k in offsets ensures Index(|slots|, k, offsets[k]) != x {
      assert slots[Index(|slots|, k, offsets[k])] == k;
    }
  }

  /** Storing an absent key in a free slot: the table stays placed, and the map gains the entry. */
  lemma StoreAbsent<V>(slots: seq<nat>, values: seq<V>, offsets: map<nat, nat>, key: nat, o: nat, value: V)
    requires Placed(slots, offsets) && IsKey(key) && key !in offsets && |values| == |slots|
    requires o < MAX_TRIES && Passes(slots, key, o) && slots[Index(|slots|, key, o)] in {key, EMPTY, REMOVED}
    ensures var x := Index(|slots|, key, o);
            && Placed(slots[x := key], offsets[key := o]) && |offsets[key := o]| == |offsets| + 1
            && MapOf(values[x := value], offsets[key := o]) == MapOf(values, offsets)[key := value]
  {
    AbsentNotStored(slots, offsets, key, Index(|slots|, key, o));
    StorePlaces(slots, offsets, key, o);
    StoreMaps(slots, values, offsets, key, o, value);
  }

  /** In every consistent table of n slots, probing finds the key exactly if it is stored. */
  ghost predicate FoundExactly(n: nat, key: nat)
    requires n > 0
  {
    forall slots, offsets | |slots| == n && Placed(slots, offsets) ::
      Find(slots, key, 0) == if key in offsets then Some(Index(n, key, offsets[key])) else None
  }

  /** Probing is exact for a 64-bit key if and only if the key is neither of the two marker values. */
  lemma FoundExactlyIff(n: nat, key: nat)
    requires n >= MAX_TRIES && key < UINT64
    ensures FoundExactly(n, key) <==> IsKey(key)
  {
    if IsKey(key) {
      forall slots, offsets | |slots| == n && Placed(slots, offsets)
        ensures Find(slots, key, 0) == if key in offsets then Some(Index(n, key, offsets[key])) else None
      {
        FindExact(slots, offsets, key, 0);
      }
    } else {
      var slots := MarkerAt(n, key);
      MarkerIsFound(n, key);
      assert Find(slots, key, 0) != None;
    }
  }

  /** An empty table, with a tombstone where the probing for the marker starts. */
  function MarkerAt(n: nat, marker: nat): (slots: seq<nat>)
    requires n > 0
    ensures |slots| == n
  {
    seq(n, x => if x == Index(n, marker, 0) then marker else EMPTY)
  }

  /** The marker values must not be used as keys: a table that stores nothing seems to contain them. */
  lemma MarkerIsFound(n: nat, marker: nat)
    requires n >= MAX_TRIES && (marker == EMPTY || marker == REMOVED)
    ensures Placed(MarkerAt(n, marker), map[]) && Find(MarkerAt(n, marker), marker, 0) == Some(Index(n, marker, 0))
  {
  }

  // ----- the table -----

  class HashTable<V(0)> {
    const keys: array<nat>
    const values: array<V>
    var currentEntries: int
    ghost var offsets: map<nat, nat>

    ghost predicate Valid()
      reads this, keys, values
    {
      && keys as object != values as object
      && keys.Length == values.Length
      && Placed(keys[..], offsets)
      && |offsets| == currentEntries
    }

    /** The map the table stands for. */
    ghost function Model(): map<nat, V>
      reads this, keys, values
      requires Valid()
    {
      MapOf(values[..], offsets)
    }

    /** The table is consistent exactly if the key was absent from the map before; then it has gained the entry. */
    ghost predicate StoredOver(before: map<nat, V>, key: nat, value: V)
      reads this, keys, values
    {
      && (Consistent(keys[..], currentEntries) <==> key !in before)
      && (key !in before ==> Valid() && Model() == before[key := value])
    }

    constructor (numEntries: nat)
      requires numEntries >= MAX_TRIES
      ensures Valid() && fresh(keys) && fresh(values) && Model() == map[]
    {
      keys := new nat[numEntries](_ => EMPTY);
      values := new V[numEntries];
      currentEntries := 0;
      offsets := map[];
    }

    method Clear()
      requires Valid()
      modifies this, keys
      ensures Valid() && Model() == map[] && currentEntries == 0
    {
      currentEntries := 0;
      for i := 0 to keys.Length
        invariant currentEntries == 0
        invariant forall x | 0 <= x < i :: keys[x] == EMPTY
      {
        keys[i] := EMPTY;
      }
      offsets := map[];
    }

    /** Returns the slot, or None where the source aborts because ten tries found no room. The table
        stays consistent exactly if the key was absent; then the map gains the entry. */
    method Insert(key: nat, value: V) returns (r: Option<nat>)
      requires Valid() && IsKey(key)
      modifies this, keys, values
      ensures r == FindUsable(old(keys[..]), key, 0)
      ensures r.Some? ==> IsFirstUsable(old(keys[..]), key, 0, r.value)
      ensures r.None? <==> forall j | 0 <= j < 10 :: TakenByOther(old(keys[..]), key, j)
      ensures r.None? ==> Valid() && Model() == old(Model())
      ensures r.Some? ==> StoredOver(old(Model()), key, value)
      ensures r.Some? ==> r.value < keys.Length && keys[r.value] == key && values[r.value] == value
    {
      ghost var slots := keys[..];
      FindUsableExact(slots, key);
      var i := 0;
      while i < MAX_TRIES
        invariant 0 <= i <= MAX_TRIES
        invariant FindUsable(slots, key, i) == FindUsable(slots, key, 0)
      {
        var x := Index(keys.Length, key, i);
        if keys[x] == key || keys[x] == REMOVED || keys[x] == EMPTY {
          break;
        }
        i := i + 1;
      }
      if i == MAX_TRIES {
        return None;
      }
      var x := Index(keys.Length, key, i);
      Store(key, value, x);
      return Some(x);
    }

    /** Writing key and value into the slot that the probing has chosen. */
    method Store(key: nat, value: V, x: nat)
      requires Valid() && IsKey(key) && FindUsable(keys[..], key, 0) == Some(x)
      modifies this, keys, values
      ensures keys[..] == old(keys[..])[x := key] && values[..] == old(values[..])[x := value]
      ensures StoredOver(old(Model()), key, value)
    {
      FindUsableAt(keys[..], key, 0);
      ghost var o :| 0 <= o < MAX_TRIES && x == Index(keys.Length, key, o) && Passes(keys[..], key, o);
      if key in offsets {
        StoreAgainBreaks(keys[..], offsets, key, x);
      } else {
        StoreAbsent(keys[..], values[..], offsets, key, o, value);
        offsets := offsets[key := o];
      }
      WriteSlot(key, value, x);
      currentEntries := currentEntries + 1;
    }

    method WriteSlot(key: nat, value: V, x: nat)
      requires keys as object != values as object && x < keys.Length == values.Length
      modifies keys, values
      ensures keys[..] == old(keys[..])[x := key] && values[..] == old(values[..])[x := value]
    {
      keys[x] := key;
      values[x] := value;
    }

    /** Remove by key: true exactly if the key was there, and then it is gone. */
    method Remove(key: nat) returns (removed: bool)
      requires Valid() && IsKey(key)
      modifies this, keys
      ensures Valid() && removed == (key in old(Model())) && Model() == old(Model()) - {key}
      ensures values[..] == old(values[..])
    {
      FindExact(keys[..], offsets, key, 0);
      var i := 0;
      while i < MAX_TRIES
        invariant 0 <= i <= MAX_TRIES
        invariant Find(keys[..], key, i) == Find(old(keys[..]), key, 0)
        invariant keys[..] == old(keys[..]) && currentEntries == old(currentEntries) && offsets == old(offsets)
        invariant Valid()
      {
        var x := Index(keys.Length, key, i);
        if keys[x] == key {
          removed := RemoveAt(x);
          return;
        } else if keys[x] == EMPTY {
          return false;
        }
        i := i + 1;
      }
      return false;
    }

    /** Remove by the address of a value: takes out the key stored there, if any. */
    method RemoveAt(x: nat) returns (removed: bool)
      requires Valid() && x < keys.Length
      modifies this, keys
      ensures Valid() && removed == (old(keys[x]) in old(Model()))
      ensures Model() == old(Model()) - {old(keys[x])}
      ensures values[..] == old(values[..])
    {
      if keys[x] == REMOVED || keys[x] == EMPTY {
        return false;
      }
      TakeOut(keys[..], values[..], offsets, x);
      ghost var before := keys[..];
      offsets := offsets - {keys[x]};
      keys[x] := REMOVED;
      assert keys[..] == before[x := REMOVED];
      currentEntries := currentEntries - 1;
      return true;
    }

    /** The slot of the key's value, or None. */
    method GetValue(key: nat) returns (r: Option<nat>)
      requires Valid() && key < UINT64
      ensures r == Find(keys[..], key, 0)
      ensures IsKey(key) ==> (r.Some? <==> key in Model())
      ensures IsKey(key) && r.Some? ==> r.value < values.Length && values[r.value] == Model()[key]
    {
      if IsKey(key) {
        FindExact(keys[..], offsets, key, 0);
      }
      var i := 0;
      while i < MAX_TRIES
        invariant 0 <= i <= MAX_TRIES
        invariant Find(keys[..], key, i) == Find(keys[..], key, 0)
      {
        var x := Index(keys.Length, key, i);
        if keys[x] == key {
          return Some(x);
        } else if keys[x] == EMPTY {
          return None;
        }
        i := i + 1;
      }
      return None;
    }
  }
}
