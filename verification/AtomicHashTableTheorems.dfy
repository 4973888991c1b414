/** What callers of the lock-free hash table can rely on in every run. */
module AtomicHashTableTheorems {
  import opened Options
  import opened Probing
  import opened AtomicHashTable
  import Runs

  // ----- the table as a map -----

  /** The map the table stands for: the keys that sit in a slot. */
  ghost function Model(s: State): map<nat, Bytes> {
    map k | k in s.status && s.status[k].Present? :: s.status[k].value
  }

  /** Thread t is about to store the key it inserts. */
  predicate Publishes(s: State, a: Action) {
    a.Step? && a.t < |s.threads| && s.threads[a.t].InsPublish?
  }

  /** Thread t is about to swap its key for REMOVED, in a slot that still holds it. */
  predicate SwapsOut(s: State, a: Action) {
    && a.Step? && a.t < |s.threads| && s.threads[a.t].RemSwap? && |s.slots| > 0
    && s.slots[Slot(s.slots, s.threads[a.t].key, s.threads[a.t].i)] == s.threads[a.t].key
  }

  /** An insert's last step adds the key, which was absent, with its value. */
  lemma PublishAdds(width: nat, s: State, t: nat)
    requires Inv(width, s) && t < |s.threads| && s.threads[t].InsPublish?
    ensures s.threads[t].key !in Model(s)
    ensures Model(ThreadNext(width, s, t)) == Model(s)[s.threads[t].key := s.threads[t].value]
  {
    assert ThreadOk(width, s, t);
  }

  /** A Remove's swap succeeds exactly if its slot still holds the key. Then the key was in the table, it alone is
      taken out, and the thread goes on to return true; otherwise the thread goes on to the next slot. */
  lemma SwapRemoves(width: nat, s: State, t: nat)
    requires Inv(width, s) && t < |s.threads| && s.threads[t].RemSwap?
    ensures var RemSwap(k, i, _) := s.threads[t];
            var s' := ThreadNext(width, s, t);
            if SwapsOut(s, Step(t)) then
              && s'.threads[t] == RemCount(k)
              && k in Model(s) && Model(s') == Model(s) - {k} && TakenOut(s', k) == TakenOut(s, k) + 1
            else
              && s'.threads[t].RemProbe? && s'.threads[t].key == k && s'.threads[t].i == i + 1
              && Model(s') == Model(s) && s'.slots == s.slots && s'.takenOut == s.takenOut
  {
    assert ThreadOk(width, s, t);
    if SwapsOut(s, Step(t)) {
      OneSlot(width, s, s.threads[t].key, Slot(s.slots, s.threads[t].key, s.threads[t].i));
    }
  }

  lemma SameModel(s: State, s': State)
    requires forall k :: InTable(s', k) <==> InTable(s, k)
    requires forall k | InTable(s, k) && InTable(s', k) :: s'.status[k].value == s.status[k].value
    ensures Model(s') == Model(s)
  {
    assert forall k :: k in Model(s) <==> InTable(s, k);
    assert forall k :: k in Model(s') <==> InTable(s', k);
  }

  lemma InsertKeepsModel(width: nat, s: State, t: nat)
    requires Inv(width, s) && t < |s.threads| && (s.threads[t].InsProbe? || s.threads[t].InsClaim? || s.threads[t].InsCopy?)
    ensures Model(ThreadNext(width, s, t)) == Model(s) && ThreadNext(width, s, t).takenOut == s.takenOut
  {
    assert ThreadOk(width, s, t);
    SameModel(s, ThreadNext(width, s, t));
  }

  /** The other steps change no status that the map depends on. */
  lemma StepKeepsModel(width: nat, s: State, a: Action)
    requires Inv(width, s) && Enabled(width, s, a) && !Publishes(s, a) && !SwapsOut(s, a)
    ensures Model(Next(width, s, a)) == Model(s) && Next(width, s, a).takenOut == s.takenOut
  {
    if a.Step? {
      if Looks(s, a) {
        LookFrame(width, s, a.t);
      } else {
        InsertKeepsModel(width, s, a.t);
      }
    }
  }

  /** A key that is in the table after a step has not been taken out by it. */
  lemma TakenOutIsAbsent(width: nat, s: State, a: Action, k: nat)
    requires Inv(width, s) && Enabled(width, s, a) && InTable(Next(width, s, a), k)
    ensures TakenOut(Next(width, s, a), k) == TakenOut(s, k)
  {
    if SwapsOut(s, a) {
      SwapRemoves(width, s, a.t);
    } else if !Publishes(s, a) {
      StepKeepsModel(width, s, a);
    }
  }

  lemma OthersWait(width: nat, s: State, a: Action, t: nat)
    requires Typed(width, s) && Enabled(width, s, a) && t < |s.threads| && a.t != t
    ensures t < |Next(width, s, a).threads| && Next(width, s, a).threads[t] == s.threads[t]
  {
    if a.Step? {
      StepFrame(width, s, a.t);
    }
  }

  lemma StepFrame(width: nat, s: State, t: nat)
    requires Typed(width, s) && t < |s.threads|
    ensures t < |ThreadNext(width, s, t).threads|
    ensures ThreadNext(width, s, t).threads == s.threads[t := ThreadNext(width, s, t).threads[t]]
  {
    var pc := s.threads[t];
    if pc.InsProbe? || pc.InsClaim? || pc.InsCopy? || pc.InsPublish? {
      InsertFrame(width, s, t);
    }
  }

  lemma InsertFrame(width: nat, s: State, t: nat)
    requires Typed(width, s) && t < |s.threads|
    requires s.threads[t].InsProbe? || s.threads[t].InsClaim? || s.threads[t].InsCopy? || s.threads[t].InsPublish?
    ensures t < |ThreadNext(width, s, t).threads|
    ensures ThreadNext(width, s, t).threads == s.threads[t := ThreadNext(width, s, t).threads[t]]
  {
  }

  /** The only steps that change the map are an insert's last step and a Remove's successful swap. */
  lemma StepsOnModel(width: nat, size: nat, numThreads: nat, s: State, a: Action)
    requires size >= MAX_TRIES && Reachable(width, size, numThreads, s) && Enabled(width, s, a)
    ensures Inv(width, s)
    ensures var s' := Next(width, s, a);
            if Publishes(s, a) then
              s.threads[a.t].key !in Model(s) && Model(s') == Model(s)[s.threads[a.t].key := s.threads[a.t].value]
            else if SwapsOut(s, a) then
              s.threads[a.t].key in Model(s) && Model(s') == Model(s) - {s.threads[a.t].key}
            else Model(s') == Model(s)
  {
    ReachableInv(width, size, numThreads, s);
    if Publishes(s, a) {
      PublishAdds(width, s, a.t);
    } else if SwapsOut(s, a) {
      SwapRemoves(width, s, a.t);
    } else {
      StepKeepsModel(width, s, a);
    }
  }

  // ----- whole runs -----

  ghost predicate Run(width: nat, states: seq<State>, acts: seq<Action>) {
    |states| == |acts| + 1 && forall j | 0 <= j < |acts| :: LeadsAt(width, states, acts, j)
  }

  ghost predicate LeadsAt(width: nat, states: seq<State>, acts: seq<Action>, j: nat)
    requires |states| == |acts| + 1
  {
    j < |acts| && Leads(width, states[j], acts[j], states[j + 1])
  }

  lemma {:induction false} RunReachable(width: nat, size: nat, numThreads: nat, states: seq<State>, acts: seq<Action>, j: nat)
    requires Run(width, states, acts) && Reachable(width, size, numThreads, states[0]) && j <= |acts|
    ensures Reachable(width, size, numThreads, states[j])
    decreases j
  {
    if j > 0 {
      RunReachable(width, size, numThreads, states, acts, j - 1);
      assert LeadsAt(width, states, acts, j - 1);
      Runs.StepReachable(Initial(width, size, numThreads), Steps(width), states[j - 1], states[j]);
    }
  }

  lemma RunInv(width: nat, size: nat, numThreads: nat, states: seq<State>, acts: seq<Action>, j: nat)
    requires size >= MAX_TRIES && Run(width, states, acts) && Reachable(width, size, numThreads, states[0]) && j <= |acts|
    ensures Inv(width, states[j])
  {
    RunReachable(width, size, numThreads, states, acts, j);
    ReachableInv(width, size, numThreads, states[j]);
  }

  /** This step publishes key k. */
  predicate PublishesKey(s: State, a: Action, k: nat) {
    Publishes(s, a) && s.threads[a.t].key == k
  }

  /** This step takes key k out. */
  predicate TakesOutKey(s: State, a: Action, k: nat) {
    SwapsOut(s, a) && s.threads[a.t].key == k
  }

  /** How often key k has been published in the first n steps of a run. */
  ghost function TimesPublished(states: seq<State>, acts: seq<Action>, k: nat, n: nat): nat
    requires n <= |acts| <= |states|
  {
    if n == 0 then 0
    else TimesPublished(states, acts, k, n - 1) + if PublishesKey(states[n - 1], acts[n - 1], k) then 1 else 0
  }

  /** How often a Remove's swap has taken k out; each such Remove returns true, and no other one does. */
  ghost function TimesRemoved(states: seq<State>, acts: seq<Action>, k: nat, n: nat): nat
    requires n <= |acts| <= |states|
  {
    if n == 0 then 0
    else TimesRemoved(states, acts, k, n - 1) + if TakesOutKey(states[n - 1], acts[n - 1], k) then 1 else 0
  }

  ghost function Holds(s: State, k: nat): nat {
    if k in Model(s) then 1 else 0
  }

  lemma StepHolds(width: nat, size: nat, numThreads: nat, s: State, a: Action, s': State, k: nat)
    requires size >= MAX_TRIES && Reachable(width, size, numThreads, s) && Leads(width, s, a, s')
    ensures Holds(s', k) - Holds(s, k) ==
            (if PublishesKey(s, a, k) then 1 else 0) - if TakesOutKey(s, a, k) then 1 else 0
  {
    StepsOnModel(width, size, numThreads, s, a);
  }

  /** However Removes overlap, one of them succeeds for each time the key was inserted, unless the key is still
      in the table. */
  lemma {:induction false} OneRemovePerInsert(width: nat, size: nat, numThreads: nat, states: seq<State>, acts: seq<Action>, k: nat, n: nat)
    requires size >= MAX_TRIES && Run(width, states, acts) && n <= |acts|
    requires Reachable(width, size, numThreads, states[0])
    ensures TimesPublished(states, acts, k, n) + Holds(states[0], k) == TimesRemoved(states, acts, k, n) + Holds(states[n], k)
    decreases n
  {
    if n > 0 {
      OneRemovePerInsert(width, size, numThreads, states, acts, k, n - 1);
      RunReachable(width, size, numThreads, states, acts, n - 1);
      assert LeadsAt(width, states, acts, n - 1);
      StepHolds(width, size, numThreads, states[n - 1], acts[n - 1], states[n], k);
    }
  }

  // ----- lookups and Removes -----

  ghost predicate Searching(s: State, t: nat) {
    |s.slots| > 0 && t < |s.threads| && (s.threads[t].GetProbe? || s.threads[t].RemProbe? || s.threads[t].RemSwap?)
  }

  /** The key thread t searches for was in the table when the call began, as it is once an insert has returned,
      and has not been taken out since. */
  ghost predicate SearchesSteadily(s: State, t: nat) {
    Searching(s, t) && Steady(s, s.threads[t].key, s.threads[t].since)
  }

  /** A lookup or Remove whose key has stayed in the table never misses it: the slot where it was still holds it
      with its value, a lookup returns this slot or goes on past a slot that is not EMPTY, and a Remove goes on
      until its swap takes the key out. */
  lemma LookupFindsInserted(width: nat, size: nat, numThreads: nat, s: State, t: nat)
    requires size >= MAX_TRIES && Reachable(width, size, numThreads, s)
    requires SearchesSteadily(s, t)
    ensures var (k, i, start) := (s.threads[t].key, s.threads[t].i, s.threads[t].since.start.value);
            var x := Slot(s.slots, k, start.0);
            && s.slots[x] == k && Stored(s.values, x, start.1, |start.1|) && i < MAX_TRIES
            && s.slots[Slot(s.slots, k, i)] != EMPTY
            && (GetResult(s, k, i).Some? ==> GetResult(s, k, i) == Some(x))
            && (s.threads[t].RemSwap? ==> SwapsOut(s, Step(t)))
  {
    ReachableInv(width, size, numThreads, s);
    assert ThreadOk(width, s, t);
    var k, since := s.threads[t].key, s.threads[t].since;
    assert KeyOk(width, s, k);
    SteadySearch(width, s, k, if s.threads[t].RemSwap? then since.start.value.0 else s.threads[t].i, since);
  }

  /** The run of one lookup or Remove of key k by thread t, from its call to the step by which it returns null
      or false. */
  ghost predicate FailedSearch(width: nat, states: seq<State>, acts: seq<Action>, t: nat, k: nat) {
    var last := |acts| - 1;
    && Run(width, states, acts) && |acts| > 1
    && (acts[0] == BeginGet(t, k) || acts[0] == BeginRemove(t, k)) && acts[last] == Step(t)
    && (forall j | 0 < j < |acts| :: Searching(states[j], t))
    && t < |states[|acts|].threads| && states[|acts|].threads[t].Idle?
    && (states[last].threads[t].GetProbe? ==> GetResult(states[last], k, states[last].threads[t].i).None?)
  }

  lemma StillSearching(width: nat, s: State, a: Action, t: nat)
    requires Typed(width, s) && Enabled(width, s, a) && Searching(s, t) && Searching(Next(width, s, a), t)
    ensures Next(width, s, a).threads[t].key == s.threads[t].key && Next(width, s, a).threads[t].since == s.threads[t].since
  {
    if a.t != t {
      OthersWait(width, s, a, t);
    }
  }

  lemma StillSteady(width: nat, s: State, a: Action, s': State, t: nat, k: nat)
    requires Inv(width, s) && Leads(width, s, a, s') && Searching(s, t) && Searching(s', t)
    requires s.threads[t].key == k && Steady(s, k, s.threads[t].since) && InTable(s', k)
    ensures s'.threads[t].key == k && Steady(s', k, s'.threads[t].since)
  {
    StillSearching(width, s, a, t);
    TakenOutIsAbsent(width, s, a, k);
  }

  lemma {:induction false} SteadyUntil(width: nat, size: nat, numThreads: nat, states: seq<State>, acts: seq<Action>, t: nat, k: nat, j: nat)
    requires size >= MAX_TRIES && FailedSearch(width, states, acts, t, k) && Reachable(width, size, numThreads, states[0])
    requires forall l | 0 <= l < |acts| :: InTable(states[l], k)
    requires 0 < j < |acts|
    ensures SearchesSteadily(states[j], t) && states[j].threads[t].key == k
    decreases j
  {
    assert LeadsAt(width, states, acts, j - 1);
    assert InTable(states[j - 1], k) && InTable(states[j], k) && Searching(states[j], t);
    if j > 1 {
      SteadyUntil(width, size, numThreads, states, acts, t, k, j - 1);
      RunInv(width, size, numThreads, states, acts, j - 1);
      StillSteady(width, states[j - 1], acts[j - 1], states[j], t, k);
    }
  }

  /** The step of a search that ends it without the key. */
  lemma SteadyGoesOn(width: nat, size: nat, numThreads: nat, s: State, t: nat)
    requires size >= MAX_TRIES && Reachable(width, size, numThreads, s) && Typed(width, s)
    requires SearchesSteadily(s, t) && (s.threads[t].GetProbe? ==> GetResult(s, s.threads[t].key, s.threads[t].i).None?)
    ensures !ThreadNext(width, s, t).threads[t].Idle?
  {
    LookupFindsInserted(width, size, numThreads, s, t);
  }

  /** A lookup returns null, and a Remove returns false, only if at some instant of it the key was not in the
      table. */
  lemma NotFoundMeansAbsent(width: nat, size: nat, numThreads: nat, states: seq<State>, acts: seq<Action>, t: nat, k: nat)
    requires size >= MAX_TRIES && FailedSearch(width, states, acts, t, k)
    requires Reachable(width, size, numThreads, states[0])
    ensures exists j | 0 <= j < |acts| :: k !in Model(states[j])
  {
    var last := |acts| - 1;
    if forall j | 0 <= j < |acts| :: k in Model(states[j]) {
      assert forall j | 0 <= j < |acts| :: k in Model(states[j]) ==> InTable(states[j], k);
      SteadyUntil(width, size, numThreads, states, acts, t, k, last);
      RunReachable(width, size, numThreads, states, acts, last);
      assert LeadsAt(width, states, acts, last);
      SteadyGoesOn(width, size, numThreads, states[last], t);
      assert false;
    }
  }

  /** Whatever a lookup returns, at that moment the key is in the table and the slot holds its value. */
  lemma LookupReturnsCurrent(width: nat, size: nat, numThreads: nat, s: State, k: nat, i: nat)
    requires size >= MAX_TRIES && Reachable(width, size, numThreads, s) && ProperKey(k)
    ensures |s.slots| > 0
    ensures GetResult(s, k, i).Some? ==>
              && k in Model(s)
              && Stored(s.values, GetResult(s, k, i).value, Model(s)[k], |Model(s)[k]|)
  {
    ReachableInv(width, size, numThreads, s);
    if GetResult(s, k, i).Some? {
      OneSlot(width, s, k, Slot(s.slots, k, i));
      assert KeyOk(width, s, k);
    }
  }

  // ----- inserts that fail -----

  /** The run of one insert of key k by thread t that finds no slot. */
  ghost predicate FailedInsert(width: nat, states: seq<State>, acts: seq<Action>, t: nat, k: nat) {
    && Run(width, states, acts) && |acts| > 1
    && acts[0].BeginInsert? && acts[0].t == t && acts[0].key == k
    && (forall j | 0 < j < |acts| :: Inserts(states[j], t))
    && t < |states[|acts|].threads| && states[|acts|].threads[t].Fatal?
  }

  ghost predicate Inserts(s: State, t: nat) {
    |s.slots| > 0 && t < |s.threads| && (s.threads[t].InsProbe? || s.threads[t].InsClaim?)
  }

  /** Thread t, inserting k, fails at slot number i: the slot holds another key, or is claimed for another insert,
      or has been claimed and given up again since t saw it EMPTY. */
  ghost predicate Blocked(s: State, t: nat, k: nat, i: nat) {
    && Inserts(s, t) && s.threads[t].key == k && s.threads[t].i == i
    && var w := s.slots[Slot(s.slots, k, i)];
    && w != k
    && (w in Model(s) || w == PLACEHOLDER || (w == REMOVED && s.threads[t].InsClaim? && s.threads[t].seen == EMPTY))
  }

  ghost predicate BlockedAt(states: seq<State>, acts: seq<Action>, t: nat, k: nat, i: nat, j: nat) {
    j < |acts| && j < |states| && acts[j] == Step(t) && Blocked(states[j], t, k, i)
  }

  ghost predicate IsBlocked(states: seq<State>, acts: seq<Action>, t: nat, k: nat, i: nat) {
    exists j :: BlockedAt(states, acts, t, k, i, j)
  }

  /** An insert leaves a slot only if the slot is blocked. */
  lemma InsertGoesOn(width: nat, s: State, t: nat)
    requires Inv(width, s) && Inserts(s, t)
    ensures var pc, pc' := s.threads[t], ThreadNext(width, s, t).threads[t];
            pc'.InsProbe? || pc'.InsClaim? ==> pc'.key == pc.key && (pc'.i == pc.i || (pc'.i == pc.i + 1 && Blocked(s, t, pc.key, pc.i)))
    ensures ThreadNext(width, s, t).threads[t].Fatal? ==> s.threads[t].i == MAX_TRIES
  {
    assert ThreadOk(width, s, t);
    AbsentSlots(width, s, s.threads[t].key);
    assert SlotOk(width, s, Slot(s.slots, s.threads[t].key, s.threads[t].i));
  }

  lemma InsertStep(width: nat, s: State, a: Action, s': State, t: nat)
    requires Inv(width, s) && Leads(width, s, a, s') && Inserts(s, t) && Inserts(s', t)
    ensures s'.threads[t].key == s.threads[t].key
    ensures s'.threads[t].i == s.threads[t].i
            || (s'.threads[t].i == s.threads[t].i + 1 && a == Step(t) && Blocked(s, t, s.threads[t].key, s.threads[t].i))
  {
    if a.t == t {
      InsertGoesOn(width, s, t);
    } else {
      OthersWait(width, s, a, t);
    }
  }

  lemma InsertStepOfRun(width: nat, size: nat, numThreads: nat, states: seq<State>, acts: seq<Action>, t: nat, k: nat, n: nat)
    requires size >= MAX_TRIES && FailedInsert(width, states, acts, t, k) && 0 < n < |acts| - 1
    requires Reachable(width, size, numThreads, states[0]) && Inserts(states[n], t) && states[n].threads[t].key == k
    ensures Inserts(states[n + 1], t) && states[n + 1].threads[t].key == k
    ensures var i, i' := states[n].threads[t].i, states[n + 1].threads[t].i;
            i' == i || (i' == i + 1 && IsBlocked(states, acts, t, k, i))
  {
    assert LeadsAt(width, states, acts, n) && Inserts(states[n + 1], t);
    RunInv(width, size, numThreads, states, acts, n);
    InsertStep(width, states[n], acts[n], states[n + 1], t);
    if states[n + 1].threads[t].i > states[n].threads[t].i {
      assert BlockedAt(states, acts, t, k, states[n].threads[t].i, n);
    }
  }

  lemma InsertBegins(width: nat, states: seq<State>, acts: seq<Action>, t: nat, k: nat)
    requires FailedInsert(width, states, acts, t, k)
    ensures Inserts(states[1], t) && states[1].threads[t].key == k && states[1].threads[t].i == 0
  {
    assert LeadsAt(width, states, acts, 0) && Inserts(states[1], t);
  }

  lemma {:induction false} SlotsBlocked(width: nat, size: nat, numThreads: nat, states: seq<State>, acts: seq<Action>, t: nat, k: nat, n: nat)
    requires size >= MAX_TRIES && FailedInsert(width, states, acts, t, k) && 0 < n < |acts|
    requires Reachable(width, size, numThreads, states[0])
    ensures Inserts(states[n], t) && states[n].threads[t].key == k
    ensures forall i | 0 <= i < states[n].threads[t].i :: IsBlocked(states, acts, t, k, i)
    decreases n
  {
    if n > 1 {
      SlotsBlocked(width, size, numThreads, states, acts, t, k, n - 1);
      InsertStepOfRun(width, size, numThreads, states, acts, t, k, n - 1);
    } else {
      InsertBegins(width, states, acts, t, k);
    }
  }

  /** An insert finds no slot only if each of its ten slots was blocked when it was tried. */
  lemma FatalMeansBlocked(width: nat, size: nat, numThreads: nat, states: seq<State>, acts: seq<Action>, t: nat, k: nat)
    requires size >= MAX_TRIES && FailedInsert(width, states, acts, t, k)
    requires Reachable(width, size, numThreads, states[0])
    ensures forall i | 0 <= i < 10 :: IsBlocked(states, acts, t, k, i)
  {
    var last := |acts| - 1;
    SlotsBlocked(width, size, numThreads, states, acts, t, k, last);
    RunInv(width, size, numThreads, states, acts, last);
    assert LeadsAt(width, states, acts, last);
    LastInsertStep(width, states[last], acts[last], states[last + 1], t);
  }

  lemma LastInsertStep(width: nat, s: State, a: Action, s': State, t: nat)
    requires Inv(width, s) && Leads(width, s, a, s') && Inserts(s, t)
    requires t < |s'.threads| && s'.threads[t].Fatal?
    ensures s.threads[t].i == MAX_TRIES
  {
    if a.t == t {
      InsertGoesOn(width, s, t);
    } else {
      OthersWait(width, s, a, t);
    }
  }

  // ----- inserts that succeed -----

  /** Thread t is in a call, between its first action and its return. */
  ghost predicate InCall(s: State, t: nat) {
    t < |s.threads| && !s.threads[t].Idle?
  }

  /** The run of one call by thread t, from its first action up to and including its return. */
  ghost predicate Call(width: nat, states: seq<State>, acts: seq<Action>, t: nat) {
    && Run(width, states, acts) && |acts| > 1 && !acts[0].Step? && acts[0].t == t
    && (forall j | 0 < j < |acts| :: InCall(states[j], t))
    && t < |states[|acts|].threads| && states[|acts|].threads[t].Idle?
  }

  /** Thread t inserts this key and value, or has given up. */
  predicate InsertsThis(pc: Pc, key: nat, value: Bytes) {
    pc.Fatal? || ((pc.InsProbe? || pc.InsClaim? || pc.InsCopy? || pc.InsPublish?) && pc.key == key && pc.value == value)
  }

  lemma StillInsertsThis(width: nat, s: State, t: nat, key: nat, value: Bytes)
    requires Typed(width, s) && t < |s.threads| && InsertsThis(s.threads[t], key, value)
    ensures t < |ThreadNext(width, s, t).threads|
    ensures s.threads[t].InsPublish? || InsertsThis(ThreadNext(width, s, t).threads[t], key, value)
  {
  }

  lemma StepInsertsThis(width: nat, s: State, a: Action, s': State, t: nat, key: nat, value: Bytes)
    requires Leads(width, s, a, s') && t < |s.threads| && InsertsThis(s.threads[t], key, value)
    ensures t < |s'.threads|
    ensures InsertsThis(s'.threads[t], key, value) || (a == Step(t) && s.threads[t].InsPublish?)
  {
    if a.t == t {
      StillInsertsThis(width, s, t, key, value);
    } else {
      OthersWait(width, s, a, t);
    }
  }

  lemma PublishEnds(width: nat, s: State, t: nat)
    requires Typed(width, s) && t < |s.threads| && s.threads[t].InsPublish?
    ensures t < |ThreadNext(width, s, t).threads| && ThreadNext(width, s, t).threads[t].Idle?
  {
  }

  lemma InsertThisBegins(width: nat, states: seq<State>, acts: seq<Action>, t: nat, key: nat, value: Bytes)
    requires Call(width, states, acts, t) && acts[0] == BeginInsert(t, key, value)
    ensures t < |states[1].threads| && InsertsThis(states[1].threads[t], key, value)
  {
    assert LeadsAt(width, states, acts, 0);
  }

  lemma {:induction false} InsertsThisUntil(width: nat, states: seq<State>, acts: seq<Action>, t: nat, key: nat, value: Bytes, n: nat)
    requires Call(width, states, acts, t) && acts[0] == BeginInsert(t, key, value) && 0 < n < |acts|
    ensures t < |states[n].threads| && InsertsThis(states[n].threads[t], key, value)
    decreases n
  {
    if n > 1 {
      InsertsThisUntil(width, states, acts, t, key, value, n - 1);
      assert LeadsAt(width, states, acts, n - 1) && InCall(states[n], t);
      StepInsertsThis(width, states[n - 1], acts[n - 1], states[n], t, key, value);
      if acts[n - 1] == Step(t) && states[n - 1].threads[t].InsPublish? {
        PublishEnds(width, states[n - 1], t);
      }
    } else {
      InsertThisBegins(width, states, acts, t, key, value);
    }
  }

  /** The key is in the table, in a slot that holds the value. */
  ghost predicate SlotHolds(s: State, key: nat, value: Bytes) {
    && |s.slots| > 0
    && exists i :: 0 <= i < MAX_TRIES && HoldsAt(s, Slot(s.slots, key, i), key, value)
  }

  ghost predicate HoldsAt(s: State, x: nat, key: nat, value: Bytes) {
    x < |s.slots| && s.slots[x] == key && Stored(s.values, x, value, |value|)
  }

  lemma PublishStores(width: nat, s: State, t: nat)
    requires Inv(width, s) && t < |s.threads| && s.threads[t].InsPublish?
    ensures SlotHolds(ThreadNext(width, s, t), s.threads[t].key, s.threads[t].value)
  {
    var s', k, v, i := ThreadNext(width, s, t), s.threads[t].key, s.threads[t].value, s.threads[t].i;
    assert ThreadOk(width, s, t);
    assert HoldsAt(s', Slot(s'.slots, k, i), k, v);
  }

  /** An insert that returns has stored the value it was called with: whatever overlaps the call, its last step
      adds the key, absent until then, with this value, and the key's slot holds the value's bytes. */
  lemma InsertStores(width: nat, size: nat, numThreads: nat, states: seq<State>, acts: seq<Action>, t: nat, key: nat, value: Bytes)
    requires size >= MAX_TRIES && Call(width, states, acts, t) && acts[0] == BeginInsert(t, key, value)
    requires Reachable(width, size, numThreads, states[0])
    ensures var s, s' := states[|acts| - 1], states[|acts|];
            key !in Model(s) && Model(s') == Model(s)[key := value] && SlotHolds(s', key, value)
  {
    var last := |acts| - 1;
    InsertsThisUntil(width, states, acts, t, key, value, last);
    assert LeadsAt(width, states, acts, last);
    StepInsertsThis(width, states[last], acts[last], states[last + 1], t, key, value);
    RunInv(width, size, numThreads, states, acts, last);
    PublishAdds(width, states[last], t);
    PublishStores(width, states[last], t);
  }

  // ----- every call is finite -----

  /** How many steps a call has left at most. */
  function StepsLeft(pc: Pc): int {
    match pc
    case InsProbe(_, v, i) => 2 * (MAX_TRIES - i) + |v| + 5
    case InsClaim(_, v, i, _) => 2 * (MAX_TRIES - i) + |v| + 4
    case InsCopy(_, v, _, c) => |v| - c + 2
    case InsPublish(_, _, _) => 1
    case RemProbe(_, i, _) => 2 * (MAX_TRIES - i) + 1
    case RemSwap(_, i, _) => 2 * (MAX_TRIES - i)
    case RemCount(_) => 1
    case GetProbe(_, i, _) => MAX_TRIES - i + 1
    case _ => 0
  }

  lemma StepsLeftPositive(width: nat, s: State, t: nat)
    requires Inv(width, s) && t < |s.threads|
    ensures StepsLeft(s.threads[t]) >= 0
  {
    assert ThreadOk(width, s, t);
  }

  lemma OwnStepCounts(width: nat, s: State, t: nat)
    requires Inv(width, s) && t < |s.threads| && Enabled(width, s, Step(t))
    ensures t < |ThreadNext(width, s, t).threads|
    ensures StepsLeft(ThreadNext(width, s, t).threads[t]) < StepsLeft(s.threads[t])
  {
    assert ThreadOk(width, s, t);
  }

  function OwnSteps(acts: seq<Action>, t: nat, n: nat): nat
    requires n <= |acts|
  {
    if n == 0 then 0 else OwnSteps(acts, t, n - 1) + if acts[n - 1] == Step(t) then 1 else 0
  }

  lemma StepCounts(width: nat, s: State, a: Action, s': State, t: nat)
    requires Inv(width, s) && Leads(width, s, a, s') && InCall(s, t)
    ensures t < |s'.threads|
    ensures StepsLeft(s'.threads[t]) + (if a == Step(t) then 1 else 0) <= StepsLeft(s.threads[t])
  {
    if a.t == t {
      OwnStepCounts(width, s, t);
    } else {
      OthersWait(width, s, a, t);
    }
  }

  lemma CallBegins(width: nat, states: seq<State>, acts: seq<Action>, t: nat)
    requires Run(width, states, acts) && |acts| > 0 && !acts[0].Step? && acts[0].t == t
    ensures t < |states[1].threads| && StepsLeft(states[1].threads[t]) <= 2 * MAX_TRIES + width + 5
  {
    assert LeadsAt(width, states, acts, 0);
  }

  lemma StepOfCallCounts(width: nat, size: nat, numThreads: nat, states: seq<State>, acts: seq<Action>, t: nat, n: nat)
    requires size >= MAX_TRIES && n < |acts| && Run(width, states, acts) && Reachable(width, size, numThreads, states[0])
    requires InCall(states[n], t)
    ensures t < |states[n + 1].threads|
    ensures StepsLeft(states[n + 1].threads[t]) + (if acts[n] == Step(t) then 1 else 0) <= StepsLeft(states[n].threads[t])
  {
    assert LeadsAt(width, states, acts, n);
    RunInv(width, size, numThreads, states, acts, n);
    StepCounts(width, states[n], acts[n], states[n + 1], t);
  }

  lemma {:induction false} StepsOfCall(width: nat, size: nat, numThreads: nat, states: seq<State>, acts: seq<Action>, t: nat, n: nat)
    requires size >= MAX_TRIES && 0 < n <= |acts| && Run(width, states, acts) && Reachable(width, size, numThreads, states[0])
    requires !acts[0].Step? && acts[0].t == t && forall j | 0 < j < n :: InCall(states[j], t)
    ensures t < |states[n].threads|
    ensures OwnSteps(acts, t, n) + StepsLeft(states[n].threads[t]) <= 2 * MAX_TRIES + width + 5
    decreases n
  {
    if n > 1 {
      StepsOfCall(width, size, numThreads, states, acts, t, n - 1);
      StepOfCallCounts(width, size, numThreads, states, acts, t, n - 1);
    } else {
      CallBegins(width, states, acts, t);
      assert OwnSteps(acts, t, 0) == 0;
    }
  }

  /** Every call is wait-free: whatever the other threads do, it takes at most a fixed number of steps of its own. */
  lemma CallsAreWaitFree(width: nat, size: nat, numThreads: nat, states: seq<State>, acts: seq<Action>, t: nat)
    requires size >= MAX_TRIES && |acts| > 0 && Run(width, states, acts) && Reachable(width, size, numThreads, states[0])
    requires !acts[0].Step? && acts[0].t == t && forall j | 0 < j < |acts| :: InCall(states[j], t)
    ensures OwnSteps(acts, t, |acts|) <= 2 * MAX_TRIES + width + 5
  {
    StepsOfCall(width, size, numThreads, states, acts, t, |acts|);
    RunInv(width, size, numThreads, states, acts, |acts|);
    StepsLeftPositive(width, states[|acts|], t);
  }

  // ----- the counter and the slots -----

  /** The counter counts the published keys, the inserts past their increment and the Removes past their
      swap but not their decrement; when none of these is under way it is the size of the map. */
  lemma CounterIsExact(width: nat, size: nat, numThreads: nat, s: State)
    requires size >= MAX_TRIES && Reachable(width, size, numThreads, s)
    ensures s.count == |CountedKeys(s)| + Owing(s.threads) >= |Model(s)|
    ensures (forall k | k in s.status :: s.status[k].Present?) && Owing(s.threads) == 0 ==> s.count == |Model(s)|
  {
    ReachableInv(width, size, numThreads, s);
    KeysBelowCounted(s);
  }

  lemma KeysBelowCounted(s: State)
    ensures |Model(s)| <= |CountedKeys(s)|
    ensures (forall k | k in s.status :: s.status[k].Present?) ==> |CountedKeys(s)| == |Model(s)|
  {
    var rest := CountedKeys(s) - Model(s).Keys;
    assert CountedKeys(s) == Model(s).Keys + rest;
    if forall k | k in s.status :: s.status[k].Present? {
      assert rest == {};
    }
  }

  /** No slot ever becomes EMPTY again. */
  lemma SlotsStayUsed(width: nat, size: nat, numThreads: nat, s: State, a: Action, x: nat)
    requires size >= MAX_TRIES && Reachable(width, size, numThreads, s) && Enabled(width, s, a) && x < |s.slots|
    ensures Typed(width, s) && |Next(width, s, a).slots| == |s.slots|
    ensures s.slots[x] != EMPTY ==> Next(width, s, a).slots[x] != EMPTY
  {
    ReachableInv(width, size, numThreads, s);
    assert ThreadOk(width, s, a.t);
  }

  /** At most one thread has claimed a slot. */
  lemma OneClaimant(width: nat, size: nat, numThreads: nat, s: State, x: nat, t: nat, u: nat)
    requires size >= MAX_TRIES && Reachable(width, size, numThreads, s) && |s.slots| > 0
    requires t < |s.threads| && u < |s.threads| && Claims(s, t, x) && Claims(s, u, x)
    ensures t == u
  {
    ReachableInv(width, size, numThreads, s);
    assert ThreadOk(width, s, t) && ThreadOk(width, s, u);
  }

  ghost predicate Claims(s: State, t: nat, x: nat)
    requires |s.slots| > 0 && t < |s.threads|
  {
    (s.threads[t].InsCopy? || s.threads[t].InsPublish?) && Slot(s.slots, s.threads[t].key, s.threads[t].i) == x
  }
}
