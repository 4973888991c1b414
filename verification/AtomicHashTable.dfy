/** The lock-free table of ycommon/containers/atomic_hash_table.cpp, lines 82 to 141 and 177 to 220.

    Every read or write of shared memory is a step of its own, down to the single bytes of a value.
    The threads keep the table's one rule: a key is inserted only while it is not in the table and no other
    insert of it is under way. Removes and lookups are unrestricted: they may overlap anything. */
module AtomicHashTable {
  import opened Options
  import opened Probing
  import Runs

  type Bytes = seq<nat>

  datatype Pc =
    | Idle
    | InsProbe(key: nat, value: Bytes, i: nat)                // about to read slot i, or to give up
    | InsClaim(key: nat, value: Bytes, i: nat, seen: nat)     // about to swap seen for PLACEHOLDER
    | InsCopy(key: nat, value: Bytes, i: nat, c: nat)         // about to write byte c, or to count
    | InsPublish(key: nat, value: Bytes, i: nat)              // about to store the key
    | RemProbe(key: nat, i: nat, since: Since)
    | RemSwap(key: nat, i: nat, since: Since)                 // about to swap the key for REMOVED
    | RemCount(key: nat)                                      // about to subtract from the count
    | GetProbe(key: nat, i: nat, since: Since)
    | Fatal                                                   // an insert found no slot in ten tries

  /** History of a lookup or a Remove: where its key was when it began, if it was in the table, and how often
      the key had been taken out. */
  datatype Since = Since(start: Option<(nat, Bytes)>, takenOut: nat)

  /** What is going on with a key; a key without status is absent. Offsets are probe numbers. */
  datatype Status =
    | Inserting(t: nat)
    | Present(offset: nat, value: Bytes)

  datatype State = State(
    slots: seq<nat>,            // the key table
    values: seq<Bytes>,         // the value table
    count: int,                 // mCurrentEntries
    threads: seq<Pc>,
    // history
    claims: seq<Option<nat>>,   // for each slot, the thread that has put PLACEHOLDER there
    status: map<nat, Status>,
    takenOut: map<nat, nat>)    // for each key, how often it has been swapped out

  datatype Action =
    | BeginInsert(t: nat, key: nat, value: Bytes)
    | BeginRemove(t: nat, key: nat)
    | BeginGet(t: nat, key: nat)
    | Step(t: nat)

  function Init(numThreads: nat, values: seq<Bytes>): State {
    State(seq(|values|, _ => EMPTY), values, 0, seq(numThreads, _ => Idle), seq(|values|, _ => None), map[], map[])
  }

  ghost predicate Typed(width: nat, s: State) {
    && |s.slots| > 0 && |s.values| == |s.claims| == |s.slots|
    && (forall x | 0 <= x < |s.values| :: |s.values[x]| == width)
    && (forall t | 0 <= t < |s.threads| :: TypedPc(width, s.threads[t]))
  }

  ghost predicate TypedPc(width: nat, pc: Pc) {
    && (pc.InsProbe? || pc.InsClaim? || pc.InsCopy? || pc.InsPublish? ==> |pc.value| <= width)
    && (pc.InsCopy? ==> pc.c <= |pc.value|)
  }

  function Slot(slots: seq<nat>, key: nat, i: nat): (x: nat)
    requires |slots| > 0
    ensures x < |slots|
  {
    Index(|slots|, key, i)
  }

  function TakenOut(s: State, key: nat): nat {
    if key in s.takenOut then s.takenOut[key] else 0
  }

  /** The key sits in a slot. */
  predicate InTable(s: State, key: nat) {
    key in s.status && s.status[key].Present?
  }

  function Now(s: State, key: nat): Since {
    Since(if InTable(s, key) then Some((s.status[key].offset, s.status[key].value)) else None, TakenOut(s, key))
  }

  /** Beginning an insert is where the rule about keys is kept. */
  ghost predicate Enabled(width: nat, s: State, a: Action) {
    && a.t < |s.threads|
    && match a
       case BeginInsert(t, k, v) => s.threads[t].Idle? && ProperKey(k) && k !in s.status && |v| <= width
       case BeginRemove(t, k) => s.threads[t].Idle? && ProperKey(k)
       case BeginGet(t, k) => s.threads[t].Idle? && ProperKey(k)
       case Step(t) => !s.threads[t].Idle? && !s.threads[t].Fatal?
  }

  ghost function Next(width: nat, s: State, a: Action): State
    requires Typed(width, s) && Enabled(width, s, a)
  {
    match a
    case BeginInsert(t, k, v) =>
      s.(threads := s.threads[t := InsProbe(k, v, 0)], status := s.status[k := Inserting(t)])
    case BeginRemove(t, k) => s.(threads := s.threads[t := RemProbe(k, 0, Now(s, k))])
    case BeginGet(t, k) => s.(threads := s.threads[t := GetProbe(k, 0, Now(s, k))])
    case Step(t) => ThreadNext(width, s, t)
  }

  function GoTo(s: State, t: nat, pc: Pc): State
    requires t < |s.threads|
  {
    s.(threads := s.threads[t := pc])
  }

  ghost function ThreadNext(width: nat, s: State, t: nat): State
    requires Typed(width, s) && t < |s.threads|
  {
    match s.threads[t]
    case InsProbe(k, v, i) =>
      if i == MAX_TRIES then GoTo(s, t, Fatal).(status := s.status - {k})
      else
        var seen := s.slots[Slot(s.slots, k, i)];
        if seen == k then GoTo(s, t, InsCopy(k, v, i, 0))
        else if seen == EMPTY || seen == REMOVED then GoTo(s, t, InsClaim(k, v, i, seen))
        else GoTo(s, t, InsProbe(k, v, i + 1))
    case InsClaim(k, v, i, seen) =>
      var x := Slot(s.slots, k, i);
      if s.slots[x] == seen then
        GoTo(s, t, InsCopy(k, v, i, 0)).(slots := s.slots[x := PLACEHOLDER], claims := s.claims[x := Some(t)])
      else GoTo(s, t, InsProbe(k, v, i + 1))
    case InsCopy(k, v, i, c) =>
      var x := Slot(s.slots, k, i);
      if c < |v| then
        GoTo(s, t, InsCopy(k, v, i, c + 1)).(values := s.values[x := s.values[x][c := v[c]]])
      else GoTo(s, t, InsPublish(k, v, i)).(count := s.count + 1)
    case InsPublish(k, v, i) =>
      var x := Slot(s.slots, k, i);
      GoTo(s, t, Idle).(slots := s.slots[x := k], claims := s.claims[x := None], status := s.status[k := Present(i, v)])
    case RemProbe(k, i, since) =>
      if i == MAX_TRIES then GoTo(s, t, Idle)
      else
        var seen := s.slots[Slot(s.slots, k, i)];
        if seen == k then GoTo(s, t, RemSwap(k, i, since))
        else if seen == EMPTY then GoTo(s, t, Idle)
        else GoTo(s, t, RemProbe(k, i + 1, since))
    case RemSwap(k, i, since) =>
      var x := Slot(s.slots, k, i);
      if s.slots[x] == k then
        GoTo(s, t, RemCount(k)).(slots := s.slots[x := REMOVED], status := s.status - {k},
           takenOut := s.takenOut[k := TakenOut(s, k) + 1])
      else GoTo(s, t, RemProbe(k, i + 1, since))
    case RemCount(k) => GoTo(s, t, Idle).(count := s.count - 1)
    case GetProbe(k, i, since) =>
      if i == MAX_TRIES || s.slots[Slot(s.slots, k, i)] == k || s.slots[Slot(s.slots, k, i)] == EMPTY then GoTo(s, t, Idle)
      else GoTo(s, t, GetProbe(k, i + 1, since))
    case Idle => s
    case Fatal => s
  }

  /** What a lookup returns at this step: the slot it has found, or nothing. */
  function GetResult(s: State, key: nat, i: nat): Option<nat>
    requires |s.slots| > 0
  {
    if i < MAX_TRIES && s.slots[Slot(s.slots, key, i)] == key then Some(Slot(s.slots, key, i)) else None
  }

  // ----- the invariant -----

  /** Probing for the key passes over its first i slots: none of them is EMPTY. */
  ghost predicate Passes(slots: seq<nat>, key: nat, i: nat)
    requires |slots| > 0
  {
    forall j | 0 <= j < i :: slots[Slot(slots, key, j)] != EMPTY
  }

  /** The value is stored in the first bytes of slot x. */
  ghost predicate Stored(values: seq<Bytes>, x: nat, value: Bytes, c: nat) {
    x < |values| && c <= |value| && c <= |values[x]| && values[x][..c] == value[..c]
  }

  /** The key sits in its slot number offset, found by probing, with its value. */
  ghost predicate Sits(slots: seq<nat>, values: seq<Bytes>, key: nat, offset: nat, value: Bytes)
    requires |slots| > 0
  {
    && offset < MAX_TRIES && slots[Slot(slots, key, offset)] == key
    && Passes(slots, key, offset) && Stored(values, Slot(slots, key, offset), value, |value|)
  }

  ghost predicate IsClaim(s: State, t: nat, key: nat, i: nat)
    requires |s.slots| > 0 && |s.claims| == |s.slots|
  {
    i < MAX_TRIES && s.claims[Slot(s.slots, key, i)] == Some(t) && Passes(s.slots, key, i)
  }

  /** The key was in the table when the call began, and has not been taken out since. */
  ghost predicate Steady(s: State, key: nat, since: Since) {
    since.start.Some? && since.takenOut == TakenOut(s, key)
  }

  /** Then it still is where it was. */
  ghost predicate SinceOk(s: State, key: nat, since: Since) {
    && ProperKey(key) && since.takenOut <= TakenOut(s, key)
    && (Steady(s, key, since) ==> InTable(s, key) && (s.status[key].offset, s.status[key].value) == since.start.value)
  }

  ghost predicate ThreadOk(width: nat, s: State, t: nat)
    requires Typed(width, s) && t < |s.threads|
  {
    match s.threads[t]
    case InsProbe(k, v, i) =>
      i <= MAX_TRIES && ProperKey(k) && k in s.status && s.status[k] == Inserting(t) && Passes(s.slots, k, i)
    case InsClaim(k, v, i, seen) =>
      i < MAX_TRIES && ProperKey(k) && k in s.status && s.status[k] == Inserting(t) && Passes(s.slots, k, i)
      && (seen == EMPTY || (seen == REMOVED && s.slots[Slot(s.slots, k, i)] != EMPTY))
    case InsCopy(k, v, i, c) =>
      && ProperKey(k) && k in s.status && s.status[k] == Inserting(t)
      && IsClaim(s, t, k, i) && Stored(s.values, Slot(s.slots, k, i), v, c)
    case InsPublish(k, v, i) =>
      && ProperKey(k) && k in s.status && s.status[k] == Inserting(t)
      && IsClaim(s, t, k, i) && Stored(s.values, Slot(s.slots, k, i), v, |v|)
    case RemProbe(k, i, since) =>
      i <= MAX_TRIES && SinceOk(s, k, since) && (Steady(s, k, since) ==> i <= since.start.value.0)
    case RemSwap(k, i, since) =>
      i < MAX_TRIES && SinceOk(s, k, since) && (Steady(s, k, since) ==> Slot(s.slots, k, i) == Slot(s.slots, k, since.start.value.0))
    case GetProbe(k, i, since) =>
      i <= MAX_TRIES && SinceOk(s, k, since) && (Steady(s, k, since) ==> i <= since.start.value.0)
    case _ => true
  }

  ghost predicate KeyOk(width: nat, s: State, k: nat)
    requires Typed(width, s) && k in s.status
  {
    && ProperKey(k)
    && match s.status[k]
       case Inserting(t) =>
         t < |s.threads| && (s.threads[t].InsProbe? || s.threads[t].InsClaim? || s.threads[t].InsCopy? || s.threads[t].InsPublish?)
         && s.threads[t].key == k
       case Present(offset, v) => Sits(s.slots, s.values, k, offset, v)
  }

  ghost predicate SlotOk(width: nat, s: State, x: nat)
    requires Typed(width, s) && x < |s.slots|
  {
    && (s.claims[x].Some? <==> s.slots[x] == PLACEHOLDER)
    && (s.slots[x] != EMPTY && s.slots[x] != REMOVED && s.slots[x] != PLACEHOLDER ==>
          var k := s.slots[x];
          InTable(s, k) && Slot(s.slots, k, s.status[k].offset) == x)
  }

  /** The published keys, and those inserted and counted but not yet published. */
  ghost function CountedKeys(s: State): set<nat> {
    set k | k in s.status && IsCounted(s, k)
  }

  ghost predicate IsCounted(s: State, k: nat)
    requires k in s.status
  {
    match s.status[k]
    case Present(_, _) => true
    case Inserting(t) => t < |s.threads| && s.threads[t].InsPublish?
  }

  /** How many threads have taken a key out and not subtracted it from the count yet. */
  function Owing(threads: seq<Pc>): nat {
    if threads == [] then 0 else Owing(threads[..|threads| - 1]) + Owed(threads[|threads| - 1])
  }

  function Owed(pc: Pc): nat {
    if pc.RemCount? then 1 else 0
  }

  ghost predicate Inv(width: nat, s: State) {
    && Typed(width, s)
    && (forall t | 0 <= t < |s.threads| :: ThreadOk(width, s, t))
    && (forall k | k in s.status :: KeyOk(width, s, k))
    && (forall x | 0 <= x < |s.slots| :: SlotOk(width, s, x))
    && s.count == |CountedKeys(s)| + Owing(s.threads)
  }

  lemma InitInv(width: nat, numThreads: nat, values: seq<Bytes>)
    requires |values| > 0 && forall x | 0 <= x < |values| :: |values[x]| == width
    ensures Inv(width, Init(numThreads, values))
  {
    assert CountedKeys(Init(numThreads, values)) == {};
    NoneOwing(numThreads);
  }

  lemma {:induction false} NoneOwing(n: nat)
    ensures Owing(seq(n, _ => Idle)) == 0
  {
    if n > 0 {
      NoneOwing(n - 1);
      assert seq(n, _ => Idle)[..n - 1] == seq(n - 1, _ => Idle);
    }
  }

  lemma {:induction false} OwingUpdate(threads: seq<Pc>, t: nat, pc: Pc)
    requires t < |threads|
    ensures Owing(threads[t := pc]) - Owing(threads) == Owed(pc) - Owed(threads[t])
    decreases |threads|
  {
    var last := |threads| - 1;
    if t < last {
      OwingUpdate(threads[..last], t, pc);
      assert threads[t := pc][..last] == threads[..last][t := pc];
    } else {
      assert threads[t := pc][..last] == threads[..last];
    }
  }

  // ----- what one step can do -----

  /** Thread t does something about `key`: no other thread, key or slot is concerned. */
  ghost predicate Touches(width: nat, s: State, s': State, t: nat, key: nat) {
    && Typed(width, s) && Typed(width, s')
    && |s'.slots| == |s.slots| && t < |s.threads| == |s'.threads|
    && s'.threads == s.threads[t := s'.threads[t]]
    && (s.threads[t].Idle? || (!s.threads[t].Fatal? && s.threads[t].key == key))
    && (forall x | 0 <= x < |s.slots| :: SlotStep(s, s', t, key, x))
    && (forall k | k != key :: k in s'.status <==> k in s.status)
    && (forall k | k in s.status && k != key :: s'.status[k] == s.status[k])
    && (key in s.status ==> MayTouch(s.status[key], t))
    && (forall k | k != key :: TakenOut(s', k) == TakenOut(s, k))
    && TakenOut(s', key) >= TakenOut(s, key)
    && (InTable(s, key) ==> StaysInTable(s, s', key) || TakenOut(s', key) > TakenOut(s, key))
  }

  predicate StaysInTable(s: State, s': State, key: nat)
    requires InTable(s, key)
  {
    InTable(s', key) && s'.status[key].offset == s.status[key].offset && s'.status[key].value == s.status[key].value
  }

  predicate MayTouch(status: Status, t: nat) {
    match status
    case Present(_, _) => true
    case Inserting(u) => u == t
  }

  /** A slot never becomes EMPTY again; only a free slot, a slot claimed by t or the key's own slot
      changes; and only a slot claimed by t has its value written. */
  ghost predicate SlotStep(s: State, s': State, t: nat, key: nat, x: nat)
    requires x < |s.slots| == |s'.slots| == |s.values| == |s'.values| == |s.claims| == |s'.claims|
  {
    && (s.slots[x] != EMPTY ==> s'.slots[x] != EMPTY)
    && (s'.slots[x] != s.slots[x] ==>
          s.slots[x] == EMPTY || s.slots[x] == REMOVED || s.claims[x] == Some(t) || s.slots[x] == key)
    && (s'.values[x] != s.values[x] ==> s.claims[x] == Some(t))
    && (s'.claims[x] != s.claims[x] ==> s.claims[x] == None || s.claims[x] == Some(t))
  }

  lemma PassesStill(width: nat, s: State, s': State, t: nat, key: nat, k: nat, i: nat)
    requires Touches(width, s, s', t, key) && Passes(s.slots, k, i)
    ensures Passes(s'.slots, k, i)
  {
    forall j | 0 <= j < i ensures s'.slots[Slot(s'.slots, k, j)] != EMPTY {
      assert SlotStep(s, s', t, key, Slot(s.slots, k, j));
    }
  }

  lemma ClaimStill(width: nat, s: State, s': State, t: nat, key: nat, u: nat, k: nat, i: nat)
    requires Touches(width, s, s', t, key) && u != t && IsClaim(s, u, k, i)
    ensures IsClaim(s', u, k, i) && s'.values[Slot(s'.slots, k, i)] == s.values[Slot(s.slots, k, i)]
  {
    PassesStill(width, s, s', t, key, k, i);
    assert SlotStep(s, s', t, key, Slot(s.slots, k, i));
  }

  lemma SinceStill(width: nat, s: State, s': State, t: nat, key: nat, k: nat, since: Since)
    requires Touches(width, s, s', t, key) && SinceOk(s, k, since)
    ensures SinceOk(s', k, since) && (Steady(s', k, since) ==> Steady(s, k, since))
  {
  }

  lemma OtherThread(width: nat, s: State, s': State, t: nat, key: nat, u: nat)
    requires Touches(width, s, s', t, key) && u < |s.threads| && u != t && ThreadOk(width, s, u)
    ensures ThreadOk(width, s', u)
  {
    match s.threads[u]
    case InsProbe(k, v, i) => PassesStill(width, s, s', t, key, k, i);
    case InsClaim(k, v, i, _) =>
      PassesStill(width, s, s', t, key, k, i);
      assert SlotStep(s, s', t, key, Slot(s.slots, k, i));
    case InsCopy(k, v, i, _) => ClaimStill(width, s, s', t, key, u, k, i);
    case InsPublish(k, v, i) => ClaimStill(width, s, s', t, key, u, k, i);
    case RemProbe(k, _, since) => SinceStill(width, s, s', t, key, k, since);
    case RemSwap(k, _, since) => SinceStill(width, s, s', t, key, k, since);
    case GetProbe(k, _, since) => SinceStill(width, s, s', t, key, k, since);
    case _ =>
  }

  lemma SitsStill(width: nat, s: State, s': State, t: nat, key: nat, k: nat, offset: nat, value: Bytes)
    requires Touches(width, s, s', t, key) && k != key && ProperKey(k) && Sits(s.slots, s.values, k, offset, value)
    requires SlotOk(width, s, Slot(s.slots, k, offset))
    ensures Sits(s'.slots, s'.values, k, offset, value)
  {
    PassesStill(width, s, s', t, key, k, offset);
    assert SlotStep(s, s', t, key, Slot(s.slots, k, offset));
  }

  lemma OtherKey(width: nat, s: State, s': State, t: nat, key: nat, k: nat)
    requires Inv(width, s) && Touches(width, s, s', t, key) && k in s.status && k != key
    ensures k in s'.status && KeyOk(width, s', k) && IsCounted(s', k) == IsCounted(s, k)
  {
    assert KeyOk(width, s, k);
    match s.status[k]
    case Present(offset, v) =>
      assert SlotOk(width, s, Slot(s.slots, k, offset));
      SitsStill(width, s, s', t, key, k, offset, v);
    case _ =>
  }

  lemma OtherKeys(width: nat, s: State, s': State, t: nat, key: nat)
    requires Inv(width, s) && Touches(width, s, s', t, key)
    ensures forall k | k in s'.status && k != key :: KeyOk(width, s', k) && IsCounted(s', k) == IsCounted(s, k)
  {
    forall k | k in s'.status && k != key ensures KeyOk(width, s', k) && IsCounted(s', k) == IsCounted(s, k) {
      OtherKey(width, s, s', t, key, k);
    }
  }

  lemma OtherSlot(width: nat, s: State, s': State, t: nat, key: nat, x: nat)
    requires Inv(width, s) && Touches(width, s, s', t, key) && x < |s.slots|
    requires s'.slots[x] == s.slots[x] && s'.claims[x] == s.claims[x] && s.slots[x] != key
    ensures SlotOk(width, s', x)
  {
    assert SlotOk(width, s, x);
  }

  ghost function One(s: State, key: nat): nat {
    if key in s.status && IsCounted(s, key) then 1 else 0
  }

  lemma CountOthers(s: State, s': State, key: nat)
    requires forall k | k != key :: k in s'.status <==> k in s.status
    requires forall k | k in s'.status && k != key :: IsCounted(s', k) == IsCounted(s, k)
    ensures |CountedKeys(s')| - |CountedKeys(s)| == One(s', key) - One(s, key)
  {
    assert forall k | k != key :: k in CountedKeys(s') <==> k in CountedKeys(s);
    assert CountedKeys(s') - {key} == CountedKeys(s) - {key};
    CountWithout(s, key);
    CountWithout(s', key);
  }

  lemma CountWithout(s: State, key: nat)
    ensures |CountedKeys(s)| == |CountedKeys(s) - {key}| + One(s, key)
  {
    if key in CountedKeys(s) {
      assert CountedKeys(s) == (CountedKeys(s) - {key}) + {key};
    } else {
      assert CountedKeys(s) - {key} == CountedKeys(s);
    }
  }

  /** What is left to show for a step about `key`: the thread's, the key's and the changed slots' own
      parts of the invariant, and the count. */
  lemma TouchKeeps(width: nat, s: State, s': State, t: nat, key: nat)
    requires Inv(width, s) && Touches(width, s, s', t, key)
    requires ThreadOk(width, s', t)
    requires key in s'.status ==> KeyOk(width, s', key)
    requires forall x | 0 <= x < |s.slots| ::
               (s'.slots[x] == s.slots[x] && s'.claims[x] == s.claims[x] && s.slots[x] != key) || SlotOk(width, s', x)
    requires s'.count - s.count == One(s', key) - One(s, key) + Owed(s'.threads[t]) - Owed(s.threads[t])
    ensures Inv(width, s')
  {
    OtherKeys(width, s, s', t, key);
    OwingUpdate(s.threads, t, s'.threads[t]);
    CountOthers(s, s', key);
    forall u | 0 <= u < |s'.threads| ensures ThreadOk(width, s', u) {
      if u != t {
        OtherThread(width, s, s', t, key, u);
      }
    }
    forall x | 0 <= x < |s'.slots| ensures SlotOk(width, s', x) {
      if s'.slots[x] == s.slots[x] && s'.claims[x] == s.claims[x] && s.slots[x] != key {
        OtherSlot(width, s, s', t, key, x);
      }
    }
  }

  // ----- preservation -----

  lemma BeginInsertKeeps(width: nat, s: State, t: nat, k: nat, v: Bytes)
    requires Inv(width, s) && Enabled(width, s, BeginInsert(t, k, v))
    ensures Inv(width, Next(width, s, BeginInsert(t, k, v)))
  {
    var s' := Next(width, s, BeginInsert(t, k, v));
    AbsentSlots(width, s, k);
    TouchKeeps(width, s, s', t, k);
  }

  /** A key that is absent or being inserted is in no slot. */
  lemma AbsentSlots(width: nat, s: State, k: nat)
    requires Inv(width, s) && ProperKey(k)
    requires !InTable(s, k)
    ensures forall x | 0 <= x < |s.slots| :: s.slots[x] != k
  {
    forall x | 0 <= x < |s.slots| ensures s.slots[x] != k {
      assert SlotOk(width, s, x);
    }
  }

  /** A key that is in the table is in one slot only. */
  lemma OneSlot(width: nat, s: State, k: nat, x: nat)
    requires Inv(width, s) && ProperKey(k) && x < |s.slots| && s.slots[x] == k
    ensures InTable(s, k) && x == Slot(s.slots, k, s.status[k].offset)
  {
    assert SlotOk(width, s, x);
  }

  /** Threads in these states have claimed nothing and are inserting nothing. */
  predicate IsFree(pc: Pc) {
    pc.Idle? || pc.GetProbe? || pc.RemProbe? || pc.RemSwap? || pc.RemCount?
  }

  /** A step that changes nothing but its own thread, and perhaps pays what the thread owes the count. */
  lemma LookKeeps(width: nat, s: State, s': State, t: nat)
    requires Inv(width, s) && Typed(width, s') && t < |s.threads| == |s'.threads|
    requires s' == s.(threads := s.threads[t := s'.threads[t]], count := s'.count)
    requires IsFree(s.threads[t]) && IsFree(s'.threads[t]) && ThreadOk(width, s', t)
    requires s'.count - s.count == Owed(s'.threads[t]) - Owed(s.threads[t])
    ensures Inv(width, s')
  {
    forall u | 0 <= u < |s'.threads| ensures ThreadOk(width, s', u) {
      assert ThreadOk(width, s, u);
    }
    forall k | k in s'.status ensures KeyOk(width, s', k) && IsCounted(s', k) == IsCounted(s, k) {
      LookKeepsKey(width, s, s', t, k);
    }
    forall x | 0 <= x < |s'.slots| ensures SlotOk(width, s', x) {
      assert SlotOk(width, s, x);
    }
    assert CountedKeys(s') == CountedKeys(s);
    OwingUpdate(s.threads, t, s'.threads[t]);
  }

  lemma LookKeepsKey(width: nat, s: State, s': State, t: nat, k: nat)
    requires Inv(width, s) && Typed(width, s') && t < |s.threads| == |s'.threads| && k in s.status
    requires s' == s.(threads := s.threads[t := s'.threads[t]], count := s'.count)
    requires IsFree(s.threads[t]) && IsFree(s'.threads[t])
    ensures KeyOk(width, s', k) && IsCounted(s', k) == IsCounted(s, k)
  {
    assert KeyOk(width, s, k);
  }

  lemma NowOk(width: nat, s: State, k: nat)
    requires Inv(width, s) && ProperKey(k)
    ensures SinceOk(s, k, Now(s, k))
  {
  }

  /** Lookups, and what Removes do besides swapping a key out. */
  predicate Looks(s: State, a: Action) {
    a.BeginGet? || a.BeginRemove? || (a.Step? && a.t < |s.threads| && LooksAt(s, s.threads[a.t]))
  }

  predicate LooksAt(s: State, pc: Pc) {
    pc.GetProbe? || pc.RemProbe? || pc.RemCount?
    || (pc.RemSwap? && |s.slots| > 0 && s.slots[Slot(s.slots, pc.key, pc.i)] != pc.key)
  }

  /** While the key has stayed in the table, the search for it does not run past its slot. */
  lemma SteadySearch(width: nat, s: State, k: nat, i: nat, since: Since)
    requires Inv(width, s) && SinceOk(s, k, since) && Steady(s, k, since) && i <= since.start.value.0
    ensures i < MAX_TRIES && s.slots[Slot(s.slots, k, since.start.value.0)] == k
    ensures s.slots[Slot(s.slots, k, i)] != EMPTY
    ensures s.slots[Slot(s.slots, k, i)] == k ==> Slot(s.slots, k, i) == Slot(s.slots, k, since.start.value.0)
  {
    assert KeyOk(width, s, k);
    if s.slots[Slot(s.slots, k, i)] == k {
      OneSlot(width, s, k, Slot(s.slots, k, i));
    }
  }

  /** A steady search that does not swap finds its key in this slot or goes on. */
  lemma LookGoesOn(width: nat, s: State, t: nat)
    requires Inv(width, s) && t < |s.threads| && LooksAt(s, s.threads[t]) && !s.threads[t].RemCount?
    requires ThreadOk(width, s, t) && Steady(s, s.threads[t].key, s.threads[t].since)
    ensures var pc := s.threads[t];
            var offset := pc.since.start.value.0;
            && !pc.RemSwap? && pc.i <= offset < MAX_TRIES
            && (if s.slots[Slot(s.slots, pc.key, pc.i)] == pc.key then Slot(s.slots, pc.key, pc.i) == Slot(s.slots, pc.key, offset)
                else pc.i < offset)
  {
    var pc := s.threads[t];
    SteadySearch(width, s, pc.key, if pc.RemSwap? then pc.since.start.value.0 else pc.i, pc.since);
  }

  lemma LookFrame(width: nat, s: State, t: nat)
    requires Typed(width, s) && t < |s.threads| && LooksAt(s, s.threads[t])
    ensures var s' := ThreadNext(width, s, t);
            && s' == s.(threads := s.threads[t := s'.threads[t]], count := s'.count) && IsFree(s'.threads[t])
            && s'.count - s.count == Owed(s'.threads[t]) - Owed(s.threads[t])
  {
  }

  lemma LookThread(width: nat, s: State, t: nat)
    requires Inv(width, s) && t < |s.threads| && LooksAt(s, s.threads[t])
    ensures Typed(width, ThreadNext(width, s, t)) && ThreadOk(width, ThreadNext(width, s, t), t)
  {
    LookFrame(width, s, t);
    assert ThreadOk(width, s, t);
    if !s.threads[t].RemCount? && Steady(s, s.threads[t].key, s.threads[t].since) {
      LookGoesOn(width, s, t);
    }
  }

  lemma LookStepKeeps(width: nat, s: State, a: Action)
    requires Inv(width, s) && Enabled(width, s, a) && Looks(s, a)
    ensures Inv(width, Next(width, s, a))
  {
    if a.Step? {
      LookFrame(width, s, a.t);
      LookThread(width, s, a.t);
    } else {
      NowOk(width, s, a.key);
    }
    LookKeeps(width, s, Next(width, s, a), a.t);
  }

  /** One more slot that is not EMPTY has been passed over. */
  lemma PassesOneMore(slots: seq<nat>, k: nat, i: nat)
    requires |slots| > 0 && Passes(slots, k, i) && slots[Slot(slots, k, i)] != EMPTY
    ensures Passes(slots, k, i + 1)
  {
  }

  lemma InsProbeTouches(width: nat, s: State, t: nat)
    requires Typed(width, s) && t < |s.threads| && s.threads[t].InsProbe? && ThreadOk(width, s, t)
    requires forall x | 0 <= x < |s.slots| :: s.slots[x] != s.threads[t].key
    ensures var s' := ThreadNext(width, s, t);
            var k := s.threads[t].key;
            && Touches(width, s, s', t, k) && ThreadOk(width, s', t)
            && (k in s'.status ==> KeyOk(width, s', k))
            && s'.slots == s.slots && s'.claims == s.claims && s'.count == s.count
            && One(s', k) == One(s, k) == 0
  {
    var InsProbe(k, v, i) := s.threads[t];
    if i < MAX_TRIES && s.slots[Slot(s.slots, k, i)] != EMPTY {
      PassesOneMore(s.slots, k, i);
    }
  }

  lemma InsProbeKeeps(width: nat, s: State, t: nat)
    requires Inv(width, s) && t < |s.threads| && s.threads[t].InsProbe?
    ensures Inv(width, ThreadNext(width, s, t))
  {
    assert ThreadOk(width, s, t);
    AbsentSlots(width, s, s.threads[t].key);
    InsProbeTouches(width, s, t);
    TouchKeeps(width, s, ThreadNext(width, s, t), t, s.threads[t].key);
  }

  lemma PassesUpdate(slots: seq<nat>, x: nat, key: nat, k: nat, i: nat)
    requires |slots| > 0 && Passes(slots, k, i) && x < |slots| && key != EMPTY
    ensures Passes(slots[x := key], k, i)
  {
    var slots' := slots[x := key];
    forall j | 0 <= j < i ensures slots'[Slot(slots', k, j)] != EMPTY {
      assert slots[Slot(slots, k, j)] != EMPTY;
    }
  }

  lemma InsClaimTouches(width: nat, s: State, t: nat)
    requires Typed(width, s) && t < |s.threads| && s.threads[t].InsClaim? && ThreadOk(width, s, t)
    requires SlotOk(width, s, Slot(s.slots, s.threads[t].key, s.threads[t].i))
    ensures var s' := ThreadNext(width, s, t);
            var k := s.threads[t].key;
            && Touches(width, s, s', t, k) && ThreadOk(width, s', t) && KeyOk(width, s', k)
            && s'.count == s.count && One(s', k) == One(s, k)
            && (forall x | 0 <= x < |s.slots| ::
                  (s'.slots[x] == s.slots[x] && s'.claims[x] == s.claims[x]) || SlotOk(width, s', x))
  {
    var s' := ThreadNext(width, s, t);
    var InsClaim(k, v, i, seen) := s.threads[t];
    if s.slots[Slot(s.slots, k, i)] != seen {
      PassesOneMore(s.slots, k, i);
    } else {
      PassesUpdate(s.slots, Slot(s.slots, k, i), PLACEHOLDER, k, i);
    }
    assert forall x | 0 <= x < |s.slots| :: SlotStep(s, s', t, k, x);
  }

  lemma InsClaimKeeps(width: nat, s: State, t: nat)
    requires Inv(width, s) && t < |s.threads| && s.threads[t].InsClaim?
    ensures Inv(width, ThreadNext(width, s, t))
  {
    assert ThreadOk(width, s, t);
    AbsentSlots(width, s, s.threads[t].key);
    InsClaimTouches(width, s, t);
    TouchKeeps(width, s, ThreadNext(width, s, t), t, s.threads[t].key);
  }

  lemma InsCopyTouches(width: nat, s: State, t: nat)
    requires Typed(width, s) && t < |s.threads| && s.threads[t].InsCopy? && ThreadOk(width, s, t)
    requires KeyOk(width, s, s.threads[t].key)
    ensures var s' := ThreadNext(width, s, t);
            var k := s.threads[t].key;
            && Touches(width, s, s', t, k) && ThreadOk(width, s', t) && KeyOk(width, s', k)
            && s'.count - s.count == One(s', k) - One(s, k)
            && s'.slots == s.slots && s'.claims == s.claims
  {
    var s' := ThreadNext(width, s, t);
    var InsCopy(k, v, i, c) := s.threads[t];
    var x := Slot(s.slots, k, i);
    if c < |v| {
      assert s'.values[x][..c + 1] == s.values[x][..c] + [v[c]];
      assert v[..c + 1] == v[..c] + [v[c]];
    }
  }

  lemma InsCopyKeeps(width: nat, s: State, t: nat)
    requires Inv(width, s) && t < |s.threads| && s.threads[t].InsCopy?
    ensures Inv(width, ThreadNext(width, s, t))
  {
    assert ThreadOk(width, s, t);
    AbsentSlots(width, s, s.threads[t].key);
    InsCopyTouches(width, s, t);
    TouchKeeps(width, s, ThreadNext(width, s, t), t, s.threads[t].key);
  }

  lemma InsPublishTouches(width: nat, s: State, t: nat)
    requires Typed(width, s) && t < |s.threads| && s.threads[t].InsPublish? && ThreadOk(width, s, t)
    ensures var s' := ThreadNext(width, s, t);
            var k := s.threads[t].key;
            && Touches(width, s, s', t, k) && ThreadOk(width, s', t) && KeyOk(width, s', k)
            && s'.count == s.count && One(s', k) == One(s, k)
            && (forall x | 0 <= x < |s.slots| ::
                  (s'.slots[x] == s.slots[x] && s'.claims[x] == s.claims[x]) || SlotOk(width, s', x))
  {
    var s' := ThreadNext(width, s, t);
    var InsPublish(k, v, i) := s.threads[t];
    PassesUpdate(s.slots, Slot(s.slots, k, i), k, k, i);
    assert forall x | 0 <= x < |s.slots| :: SlotStep(s, s', t, k, x);
  }

  lemma InsPublishKeeps(width: nat, s: State, t: nat)
    requires Inv(width, s) && t < |s.threads| && s.threads[t].InsPublish?
    ensures Inv(width, ThreadNext(width, s, t))
  {
    assert ThreadOk(width, s, t);
    AbsentSlots(width, s, s.threads[t].key);
    InsPublishTouches(width, s, t);
    TouchKeeps(width, s, ThreadNext(width, s, t), t, s.threads[t].key);
  }

  lemma RemSwapTouches(width: nat, s: State, t: nat)
    requires Typed(width, s) && t < |s.threads| && s.threads[t].RemSwap? && ThreadOk(width, s, t)
    requires s.slots[Slot(s.slots, s.threads[t].key, s.threads[t].i)] == s.threads[t].key && InTable(s, s.threads[t].key)
    requires SlotOk(width, s, Slot(s.slots, s.threads[t].key, s.threads[t].i))
    ensures var s' := ThreadNext(width, s, t);
            var k := s.threads[t].key;
            && Touches(width, s, s', t, k) && ThreadOk(width, s', t) && k !in s'.status
            && s'.count == s.count && One(s, k) == 1 && s'.threads[t].RemCount?
            && (forall x | 0 <= x < |s.slots| ::
                  if x == Slot(s.slots, k, s.threads[t].i) then SlotOk(width, s', x)
                  else s'.slots[x] == s.slots[x] && s'.claims[x] == s.claims[x])
  {
    var s' := ThreadNext(width, s, t);
    assert forall x | 0 <= x < |s.slots| :: SlotStep(s, s', t, s.threads[t].key, x);
  }

  lemma RemSwapKeeps(width: nat, s: State, t: nat)
    requires Inv(width, s) && t < |s.threads| && s.threads[t].RemSwap?
    requires s.slots[Slot(s.slots, s.threads[t].key, s.threads[t].i)] == s.threads[t].key
    ensures Inv(width, ThreadNext(width, s, t))
  {
    var k, x := s.threads[t].key, Slot(s.slots, s.threads[t].key, s.threads[t].i);
    assert ThreadOk(width, s, t) && SlotOk(width, s, x);
    OneSlot(width, s, k, x);
    RemSwapTouches(width, s, t);
    forall y | 0 <= y < |s.slots| && s.slots[y] == k ensures y == x {
      OneSlot(width, s, k, y);
    }
    TouchKeeps(width, s, ThreadNext(width, s, t), t, k);
  }

  lemma StepInv(width: nat, s: State, a: Action)
    requires Inv(width, s) && Enabled(width, s, a)
    ensures Inv(width, Next(width, s, a))
  {
    match a
    case BeginInsert(t, k, v) => BeginInsertKeeps(width, s, t, k, v);
    case BeginRemove(_, _) => LookStepKeeps(width, s, a);
    case BeginGet(_, _) => LookStepKeeps(width, s, a);
    case Step(t) =>
      match s.threads[t]
      case InsProbe(_, _, _) => InsProbeKeeps(width, s, t);
      case InsClaim(_, _, _, _) => InsClaimKeeps(width, s, t);
      case InsCopy(_, _, _, _) => InsCopyKeeps(width, s, t);
      case InsPublish(_, _, _) => InsPublishKeeps(width, s, t);
      case RemSwap(k, i, _) =>
        if s.slots[Slot(s.slots, k, i)] == k { RemSwapKeeps(width, s, t); } else { LookStepKeeps(width, s, a); }
      case RemProbe(_, _, _) => LookStepKeeps(width, s, a);
      case RemCount(_) => LookStepKeeps(width, s, a);
      case GetProbe(_, _, _) => LookStepKeeps(width, s, a);
  }

  // ----- runs -----

  ghost predicate Leads(width: nat, s: State, a: Action, s': State) {
    Typed(width, s) && Enabled(width, s, a) && s' == Next(width, s, a)
  }

  ghost function Initial(width: nat, size: nat, numThreads: nat): State -> bool {
    (s: State) =>
      |s.values| == size && (forall x | 0 <= x < |s.values| :: |s.values[x]| == width) && s == Init(numThreads, s.values)
  }

  ghost function Steps(width: nat): (State, State) -> bool {
    (s: State, s': State) => exists a :: Leads(width, s, a, s')
  }

  /** s is reached from an empty table of the given size by threads that keep the rule about keys. */
  ghost predicate Reachable(width: nat, size: nat, numThreads: nat, s: State) {
    Runs.Reachable(Initial(width, size, numThreads), Steps(width), s)
  }

  lemma ReachableInv(width: nat, size: nat, numThreads: nat, s: State)
    requires size >= MAX_TRIES && Reachable(width, size, numThreads, s)
    ensures Inv(width, s)
  {
    var inv := (x: State) => Inv(width, x);
    forall x | Initial(width, size, numThreads)(x) ensures inv(x) {
      InitInv(width, numThreads, x.values);
    }
    forall x, y | inv(x) && Steps(width)(x, y) ensures inv(y) {
      var a :| Leads(width, x, a, y);
      StepInv(width, x, a);
    }
    Runs.Invariance(Initial(width, size, numThreads), Steps(width), inv, s);
  }

}
