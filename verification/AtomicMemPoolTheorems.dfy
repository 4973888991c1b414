/** What the lock-free pool promises of every run in which no Allocate's compare-and-swap comes 256 or more
    swings after its read of the head. */
module AtomicMemPoolTheorems {
  import opened Options
  import opened NumberMask
  import opened AtomicMemPool
  import MemPoolSpec
  import Runs

  ghost predicate Leads(s: State, a: Action, s': State) {
    Typed(s) && Enabled(s, a) && Prompt(s, a) && s' == Next(s, a)
  }

  ghost function Initial(numItems: nat, numThreads: nat): State -> bool {
    (s: State) =>
      |s.links| == numItems && (forall i | 0 <= i < numItems :: s.links[i] < UINT32) && s == Init(numItems, numThreads, s.links)
  }

  ghost function PromptStep(): (State, State) -> bool {
    (s: State, s': State) => exists a :: Leads(s, a, s')
  }

  /** s is reached from an empty pool by steps that are all prompt. */
  ghost predicate Reachable(numItems: nat, numThreads: nat, s: State) {
    Runs.Reachable(Initial(numItems, numThreads), PromptStep(), s)
  }

  lemma InitInv(numItems: nat, numThreads: nat, s: State)
    requires numItems <= NIL && numItems + numThreads < UINT32 && Initial(numItems, numThreads)(s)
    ensures Inv(s)
  {
  }

  lemma LeadsInv(s: State, a: Action, s': State)
    requires Inv(s) && Leads(s, a, s')
    ensures Inv(s') && |s'.threads| == |s.threads| && |s'.links| == |s.links|
  {
    StepInv(s, a);
  }

  lemma ReachableInv(numItems: nat, numThreads: nat, s: State)
    requires numItems <= NIL && numItems + numThreads < UINT32 && Reachable(numItems, numThreads, s)
    ensures Inv(s) && |s.links| == numItems && |s.threads| == numThreads
  {
    var inv := (x: State) => Inv(x) && |x.links| == numItems && |x.threads| == numThreads;
    forall x | Initial(numItems, numThreads)(x) ensures inv(x) {
      InitInv(numItems, numThreads, x);
    }
    forall x, y | inv(x) && PromptStep()(x, y) ensures inv(y) {
      var a :| Leads(x, a, y);
      LeadsInv(x, a, y);
    }
    Runs.Invariance(Initial(numItems, numThreads), PromptStep(), inv, s);
  }

  // ----- the indexes are partitioned -----

  ghost function FreeIndexes(s: State): set<nat> {
    set i | i in s.free
  }

  ghost function HeldIndexes(s: State): set<nat> {
    set i | 0 <= i < |s.owner| && s.owner[i].Held?
  }

  /** The indexes some thread is in the middle of removing. */
  ghost function InFlight(s: State): set<nat> {
    set t | 0 <= t < |s.threads| && IsFreeing(s.threads[t]) :: s.threads[t].index
  }

  ghost function NeverUsed(s: State): set<nat> {
    set i | 0 <= i < |s.owner| && BeyondUsed(s, i)
  }

  ghost predicate BeyondUsed(s: State, i: int) {
    s.used <= i
  }

  /** In every reachable state each index is in exactly one place: the free list, a client's hands, a
      Remove in progress, or the part of the array never used. None is lost, none is shared. */
  lemma IndexesPartitioned(numItems: nat, numThreads: nat, s: State, i: nat)
    requires numItems <= NIL && numItems + numThreads < UINT32 && Reachable(numItems, numThreads, s)
    ensures i < numItems <==> i in FreeIndexes(s) + HeldIndexes(s) + InFlight(s) + NeverUsed(s)
    ensures FreeIndexes(s) !! HeldIndexes(s) !! InFlight(s) !! NeverUsed(s)
    ensures forall t, u | 0 <= t < |s.threads| && 0 <= u < |s.threads| && Frees(s.threads[t], i) && Frees(s.threads[u], i) :: t == u
  {
    ReachableInv(numItems, numThreads, s);
    forall k ensures k in InFlight(s) <==> 0 <= k < |s.owner| && s.owner[k].Freeing? {
      InFlightExact(s, k);
    }
    forall k: nat ensures k in FreeIndexes(s) <==> k < |s.owner| && s.owner[k].Free? {
      FreeExact(s, k);
    }
    forall k | 0 <= k < |s.owner| ensures k in NeverUsed(s) <==> s.owner[k].Unused? {
      assert ItemOk(s, k);
    }
    forall t, u | 0 <= t < |s.threads| && 0 <= u < |s.threads| && Frees(s.threads[t], i) && Frees(s.threads[u], i)
      ensures t == u
    {
      assert ThreadOk(s, t) && ThreadOk(s, u);
    }
  }

  lemma InFlightExact(s: State, k: int)
    requires Inv(s)
    ensures k in InFlight(s) <==> 0 <= k < |s.owner| && s.owner[k].Freeing?
  {
    if t :| 0 <= t < |s.threads| && IsFreeing(s.threads[t]) && s.threads[t].index == k {
      assert ThreadOk(s, t);
    }
    if 0 <= k < |s.owner| && s.owner[k].Freeing? {
      assert ItemOk(s, k);
      var t := s.owner[k].t;
      assert IsFreeing(s.threads[t]) && s.threads[t].index == k;
    }
  }

  lemma {:induction false} LinkedInRange(links: seq<nat>, free: seq<nat>)
    requires Linked(links, free)
    ensures forall k | 0 <= k < |free| :: free[k] < |links|
  {
    if free != [] {
      LinkedInRange(links, free[1..]);
      assert forall k | 0 < k < |free| :: free[k] == free[1..][k - 1];
    }
  }

  lemma FreeExact(s: State, k: nat)
    requires Inv(s)
    ensures k in FreeIndexes(s) <==> k < |s.owner| && s.owner[k].Free?
  {
    LinkedInRange(s.links, s.free);
    if k < |s.owner| {
      assert ItemOk(s, k);
    }
  }

  /** An index is handed out only when nobody holds it or is removing it, and then it is held. */
  lemma HandedOutOnce(numItems: nat, numThreads: nat, s: State, a: Action)
    requires numItems <= NIL && numItems + numThreads < UINT32 && Reachable(numItems, numThreads, s)
    requires Typed(s) && Enabled(s, a) && Prompt(s, a) && Returned(s, a) >= 0
    ensures var i := Returned(s, a);
            && i in FreeIndexes(s) + NeverUsed(s)
            && HeldIndexes(Next(s, a)) == HeldIndexes(s) + {i}
            && InFlight(Next(s, a)) == InFlight(s)
  {
    ReachableInv(numItems, numThreads, s);
    var i := Returned(s, a);
    var s' := Next(s, a);
    StepInv(s, a);
    if s.threads[a.t].AllocSwap? {
      PromptIsCurrent(s, a);
      AllocSwapKeepsList(s, a.t);
      HeadWord(s);
    } else {
      assert ItemOk(s, i);
    }
    assert s'.owner == s.owner[i := Held];
    forall k ensures k in InFlight(s') <==> k in InFlight(s) {
      InFlightExact(s, k);
      InFlightExact(s', k);
    }
  }

  /** What a step makes held: exactly the index it returns. A step that returns none makes no index held; only the
      beginning of a Remove takes one from the held ones. */
  lemma ReturnedIsHandedOut(numItems: nat, numThreads: nat, s: State, a: Action)
    requires numItems <= NIL && numItems + numThreads < UINT32 && Reachable(numItems, numThreads, s)
    requires Typed(s) && Enabled(s, a) && Prompt(s, a)
    ensures var i, s' := Returned(s, a), Next(s, a);
            if i >= 0 then i !in HeldIndexes(s) && HeldIndexes(s') == HeldIndexes(s) + {i}
            else i == -1 && HeldIndexes(s') == if a.BeginRemove? then HeldIndexes(s) - {a.index} else HeldIndexes(s)
  {
    ReachableInv(numItems, numThreads, s);
    if Returned(s, a) >= 0 {
      HandedOutOnce(numItems, numThreads, s, a);
      IndexesPartitioned(numItems, numThreads, s, Returned(s, a));
    } else {
      NoneReturned(s, a);
    }
  }

  lemma NoneReturned(s: State, a: Action)
    requires Inv(s) && Enabled(s, a) && Returned(s, a) < 0
    ensures Returned(s, a) == -1
    ensures HeldIndexes(Next(s, a)) == if a.BeginRemove? then HeldIndexes(s) - {a.index} else HeldIndexes(s)
  {
    var s' := Next(s, a);
    if a.Step? && s.threads[a.t].FreeSwap? {
      assert ThreadOk(s, a.t);
    }
    assert forall k | 0 <= k < |s.owner| ::
        s'.owner[k].Held? <==> s.owner[k].Held? && !(a.BeginRemove? && k == a.index);
  }

  /** Where an Allocate that has just read the head goes: past the list exactly if it is empty. */
  lemma ListLookedAt(numItems: nat, numThreads: nat, s: State, t: nat)
    requires numItems <= NIL && numItems + numThreads < UINT32 && Reachable(numItems, numThreads, s)
    requires Typed(s) && Enabled(s, Step(t)) && s.threads[t].AllocHead?
    ensures ThreadNext(s, t).threads[t].AllocFresh? <==> FreeIndexes(s) == {}
  {
    ReachableInv(numItems, numThreads, s);
    HeadWord(s);
    if s.free != [] {
      assert s.free[0] in FreeIndexes(s);
    }
  }

  /** An Allocate that has found the list empty returns no index exactly if none is left that was never used. */
  lemma AllocateFailsIff(numItems: nat, numThreads: nat, s: State, t: nat)
    requires numItems <= NIL && numItems + numThreads < UINT32 && Reachable(numItems, numThreads, s)
    requires Typed(s) && Enabled(s, Step(t)) && s.threads[t].AllocFresh?
    ensures Returned(s, Step(t)) == -1 <==> NeverUsed(s) == {}
    ensures ThreadNext(s, t).threads[t].Idle?
  {
    ReachableInv(numItems, numThreads, s);
    assert ThreadOk(s, t);
    if s.used < |s.links| {
      assert s.used in NeverUsed(s);
    }
  }

  // ----- the list in memory -----

  /** The index found after following k links from i. */
  function Walk(links: seq<nat>, i: nat, k: nat): nat
    decreases k
  {
    if k == 0 then i else if i < |links| then Walk(links, links[i], k - 1) else NIL
  }

  lemma {:induction false} WalkFollows(links: seq<nat>, free: seq<nat>, k: nat)
    requires Linked(links, free) && k <= |free|
    ensures Walk(links, First(free), k) == if k < |free| then free[k] else NIL
    decreases |free|
  {
    if k > 0 {
      WalkFollows(links, free[1..], k - 1);
    }
  }

  /** The list that starts at the head and follows the links in memory is acyclic: it visits distinct
      free items and ends. */
  lemma ListInMemoryIsAcyclic(numItems: nat, numThreads: nat, s: State)
    requires numItems <= NIL && numItems + numThreads < UINT32 && Reachable(numItems, numThreads, s)
    ensures Walk(s.links, GetNum(s.head), |s.free|) == NIL
    ensures forall k | 0 <= k < |s.free| :: Walk(s.links, GetNum(s.head), k) == s.free[k] < numItems
    ensures forall k, l | 0 <= k < l < |s.free| ::
              Walk(s.links, GetNum(s.head), k) != Walk(s.links, GetNum(s.head), l)
  {
    ReachableInv(numItems, numThreads, s);
    HeadWord(s);
    LinkedInRange(s.links, s.free);
    forall k: nat | k <= |s.free|
      ensures Walk(s.links, First(s.free), k) == if k < |s.free| then s.free[k] else NIL
    {
      WalkFollows(s.links, s.free, k);
    }
  }

  /** mUsedIndexes never comes near wrapping around its 32 bits. */
  lemma UsedNeverWraps(numItems: nat, numThreads: nat, s: State)
    requires numItems <= NIL && numItems + numThreads < UINT32 && Reachable(numItems, numThreads, s)
    ensures s.used <= numItems + numThreads
  {
    ReachableInv(numItems, numThreads, s);
  }

  function GetNumIndexesUsed(used: nat, numItems: nat): nat {
    if used < numItems then used else numItems
  }

  /** Exactly the indexes below the number reported have ever been handed out. */
  lemma NumIndexesUsedExact(numItems: nat, numThreads: nat, s: State, i: nat)
    requires numItems <= NIL && numItems + numThreads < UINT32 && Reachable(numItems, numThreads, s)
    ensures i < GetNumIndexesUsed(s.used, numItems) <==> i in FreeIndexes(s) + HeldIndexes(s) + InFlight(s)
  {
    ReachableInv(numItems, numThreads, s);
    IndexesPartitioned(numItems, numThreads, s, i);
    assert i in NeverUsed(s) <==> i < numItems && s.used <= i;
  }

  // ----- compare-and-swap -----

  /** Without any bound, a compare-and-swap succeeds exactly if the head has its old number and has
      been swung a multiple of 256 times since it was read. */
  lemma SwapSucceedsIff(s: State, w: nat, seen: nat)
    requires Inv(s) && ReadWord(s, w, seen)
    ensures s.head == w <==> GetNum(w) == First(s.free) && (s.version - seen) % COUNTS == 0
  {
    HeadWord(s);
    SameWord(s.version, First(s.free), seen, GetNum(w));
    SameRemainder(seen, s.version);
  }

  lemma SameRemainder(c: nat, d: nat)
    requires c <= d
    ensures c % COUNTS == d % COUNTS <==> (d - c) % COUNTS == 0
  {
    assert d - c == COUNTS * (d / COUNTS - c / COUNTS) + (d % COUNTS - c % COUNTS);
  }

  /** Lock freedom: a compare-and-swap fewer than 256 swings after its read fails only if another one succeeded in between, so
      some thread has completed its call. */
  lemma FailureMeansProgress(numItems: nat, numThreads: nat, s: State, t: nat)
    requires numItems <= NIL && numItems + numThreads < UINT32 && Reachable(numItems, numThreads, s)
    requires t < |s.threads| && (s.threads[t].AllocSwap? || s.threads[t].FreeSwap?)
    requires s.version < s.threads[t].seen + COUNTS
    ensures s.head != s.threads[t].word <==> s.version > s.threads[t].seen
  {
    ReachableInv(numItems, numThreads, s);
    assert ThreadOk(s, t);
    SwapIffCurrent(s, s.threads[t].word, s.threads[t].seen);
  }

  // ----- calls without interference -----

  ghost function Model(s: State): MemPoolSpec.Pool {
    MemPoolSpec.Pool(s.free, if s.used <= |s.links| then s.used else |s.links|)
  }

  ghost function Run(s: State, acts: seq<Action>): Option<State>
    decreases |acts|
  {
    if acts == [] then Some(s)
    else if Typed(s) && Enabled(s, acts[0]) && Prompt(s, acts[0]) then Run(Next(s, acts[0]), acts[1..])
    else None
  }

  lemma {:induction false} RunReachable(numItems: nat, numThreads: nat, s: State, acts: seq<Action>, s': State)
    requires Reachable(numItems, numThreads, s) && Run(s, acts) == Some(s')
    ensures Reachable(numItems, numThreads, s')
    decreases |acts|
  {
    if acts != [] {
      assert Leads(s, acts[0], Next(s, acts[0]));
      Runs.StepReachable(Initial(numItems, numThreads), PromptStep(), s, Next(s, acts[0]));
      RunReachable(numItems, numThreads, Next(s, acts[0]), acts[1..], s');
    }
  }

  /** The steps of a call of Allocate by thread t that nobody interrupts. */
  function AllocateSteps(s: State, t: nat): seq<Action> {
    if s.free != [] then [BeginAllocate(t), Step(t), Step(t), Step(t)] else [BeginAllocate(t), Step(t), Step(t)]
  }

  function RemoveSteps(t: nat, index: nat): seq<Action> {
    [BeginRemove(t, index), Step(t), Step(t), Step(t)]
  }

  /** The state after such a call. */
  ghost function Allocated(s: State): State
    requires |s.owner| == |s.links| && (s.free != [] ==> s.free[0] < |s.owner|)
  {
    if s.free != [] then
      s.(head := ConstructValue(s.version + 1, First(s.free[1..])), version := s.version + 1,
         free := s.free[1..], owner := s.owner[s.free[0] := Held])
    else if s.used < |s.links| then
      s.(used := s.used + 1, owner := s.owner[s.used := Held])
    else s
  }

  ghost function Removed(s: State, index: nat): State
    requires index < |s.owner| == |s.links|
  {
    s.(links := s.links[index := First(s.free)], head := ConstructValue(s.version + 1, index),
       version := s.version + 1, free := [index] + s.free, owner := s.owner[index := Free])
  }

  ghost function At(s: State, t: nat, pc: Pc): State
    requires t < |s.threads|
  {
    s.(threads := s.threads[t := pc])
  }

  lemma AtTyped(s: State, t: nat, pc: Pc)
    requires Typed(s) && t < |s.threads| && TypedPc(s, pc)
    ensures Typed(At(s, t, pc))
  {
  }

  lemma RunStep(s: State, a: Action, s1: State, rest: seq<Action>)
    requires Typed(s) && Enabled(s, a) && Prompt(s, a) && s1 == Next(s, a)
    ensures Run(s, [a] + rest) == Run(s1, rest)
  {
    assert ([a] + rest)[1..] == rest;
  }

  /** The first two steps of Allocate: both indexes read. */
  lemma AllocateReads(s: State, t: nat, rest: seq<Action>)
    requires Inv(s) && t < |s.threads| && s.threads[t].Idle?
    ensures Typed(At(s, t, LookAtHead(s, s.used)))
    ensures Run(s, [BeginAllocate(t), Step(t)] + rest) == Run(At(s, t, LookAtHead(s, s.used)), rest)
  {
    HeadWord(s);
    AtTyped(s, t, AllocHead(s.used));
    AtTyped(s, t, LookAtHead(s, s.used));
    RunStep(At(s, t, AllocHead(s.used)), Step(t), At(s, t, LookAtHead(s, s.used)), rest);
    RunStep(s, BeginAllocate(t), At(s, t, AllocHead(s.used)), [Step(t)] + rest);
    assert [BeginAllocate(t), Step(t)] + rest == [BeginAllocate(t)] + ([Step(t)] + rest);
  }

  lemma AllocateSwaps(s: State, t: nat)
    requires Inv(s) && t < |s.threads| && s.threads[t].Idle? && s.free != []
    ensures var pc := AllocSwap(s.used, s.head, s.version, First(s.free[1..]));
            && Typed(At(s, t, pc))
            && Next(At(s, t, LookAtHead(s, s.used)), Step(t)) == At(s, t, pc)
            && Next(At(s, t, pc), Step(t)) == Allocated(s)
  {
    HeadWord(s);
    assert Linked(s.links, s.free[1..]);
    NextWord(s.version, s.free[0], First(s.free[1..]));
    assert s.threads[t := Idle] == s.threads;
  }

  lemma AllocatePopRuns(s: State, t: nat)
    requires Inv(s) && t < |s.threads| && s.threads[t].Idle? && s.free != []
    ensures Run(s, AllocateSteps(s, t)) == Some(Allocated(s))
  {
    HeadWord(s);
    AllocateSwaps(s, t);
    AllocateReads(s, t, [Step(t), Step(t)]);
    var s3 := At(s, t, AllocSwap(s.used, s.head, s.version, First(s.free[1..])));
    RunStep(s3, Step(t), Allocated(s), []);
    RunStep(At(s, t, LookAtHead(s, s.used)), Step(t), s3, [Step(t)]);
    assert AllocateSteps(s, t) == [BeginAllocate(t), Step(t)] + [Step(t), Step(t)];
  }

  lemma AllocateTakes(s: State, t: nat)
    requires Inv(s) && t < |s.threads| && s.threads[t].Idle? && s.free == []
    requires Typed(At(s, t, LookAtHead(s, s.used)))
    ensures Enabled(At(s, t, LookAtHead(s, s.used)), Step(t))
    ensures Next(At(s, t, LookAtHead(s, s.used)), Step(t)) == Allocated(s)
  {
    HeadWord(s);
    assert s.threads[t := Idle] == s.threads;
  }

  lemma AllocateFreshRuns(s: State, t: nat)
    requires Inv(s) && t < |s.threads| && s.threads[t].Idle? && s.free == []
    ensures Run(s, AllocateSteps(s, t)) == Some(Allocated(s))
  {
    AllocateReads(s, t, [Step(t)]);
    AllocateTakes(s, t);
    HeadWord(s);
    RunStep(At(s, t, LookAtHead(s, s.used)), Step(t), Allocated(s), []);
    assert AllocateSteps(s, t) == [BeginAllocate(t), Step(t)] + [Step(t)];
  }

  /** The states in the middle of a call of Remove: begun, head read, link written. */
  ghost function Removing(s: State, t: nat, index: nat, k: nat): State
    requires t < |s.threads| && index < |s.owner| == |s.links|
  {
    var s0 := s.(owner := s.owner[index := Freeing(t)]);
    if k == 0 then At(s0, t, FreeHead(index))
    else if k == 1 then At(s0, t, FreeLink(index, s.head, s.version))
    else At(s0.(links := s.links[index := First(s.free)]), t, FreeSwap(index, s.head, s.version))
  }

  lemma RemoveStarts(s: State, t: nat, index: nat)
    requires Inv(s) && t < |s.threads| && s.threads[t].Idle? && index < |s.owner| && s.owner[index].Held?
    ensures Typed(Removing(s, t, index, 0)) && Next(s, BeginRemove(t, index)) == Removing(s, t, index, 0)
    ensures Typed(Removing(s, t, index, 1)) && Next(Removing(s, t, index, 0), Step(t)) == Removing(s, t, index, 1)
  {
    HeadWord(s);
  }

  lemma RemoveWrites(s: State, t: nat, index: nat)
    requires Inv(s) && t < |s.threads| && s.threads[t].Idle? && index < |s.owner| && s.owner[index].Held?
    requires Typed(Removing(s, t, index, 1))
    ensures Typed(Removing(s, t, index, 2)) && Next(Removing(s, t, index, 1), Step(t)) == Removing(s, t, index, 2)
  {
    HeadWord(s);
  }

  lemma RemoveEnds(s: State, t: nat, index: nat)
    requires Inv(s) && t < |s.threads| && s.threads[t].Idle? && index < |s.owner| && s.owner[index].Held?
    requires Typed(Removing(s, t, index, 2))
    ensures Next(Removing(s, t, index, 2), Step(t)) == Removed(s, index)
  {
    HeadWord(s);
    NextWord(s.version, First(s.free), index);
    assert s.threads[t := Idle] == s.threads;
    assert s.owner[index := Freeing(t)][index := Free] == s.owner[index := Free];
  }

  lemma RemoveRuns(s: State, t: nat, index: nat)
    requires Inv(s) && t < |s.threads| && s.threads[t].Idle? && index < |s.owner| && s.owner[index].Held?
    ensures Run(s, RemoveSteps(t, index)) == Some(Removed(s, index))
  {
    RemoveStarts(s, t, index);
    RemoveWrites(s, t, index);
    RemoveEnds(s, t, index);
    RunStep(Removing(s, t, index, 2), Step(t), Removed(s, index), []);
    RunStep(Removing(s, t, index, 1), Step(t), Removing(s, t, index, 2), [Step(t)]);
    RunStep(Removing(s, t, index, 0), Step(t), Removing(s, t, index, 1), [Step(t), Step(t)]);
    RunStep(s, BeginRemove(t, index), Removing(s, t, index, 0), [Step(t), Step(t), Step(t)]);
  }

  /** A call of Allocate that nobody interrupts does what the sequential pool does. */
  lemma SoloAllocateMatchesMemPool(s: State, t: nat)
    requires Inv(s) && t < |s.threads| && s.threads[t].Idle?
    ensures Run(s, AllocateSteps(s, t)) == Some(Allocated(s))
    ensures Model(Allocated(s)) == MemPoolSpec.Allocate(Model(s), |s.links|).1
    ensures match MemPoolSpec.Allocate(Model(s), |s.links|).0
            case Some(i) => HeldIndexes(Allocated(s)) == HeldIndexes(s) + {i}
            case None => Allocated(s) == s
  {
    if s.free != [] {
      AllocatePopRuns(s, t);
      HeadWord(s);
    } else {
      AllocateFreshRuns(s, t);
    }
  }

  /** What such a call returns, at its last step and not before: the sequential pool's index, or -1 if it has none. */
  lemma SoloAllocateReturns(s: State, t: nat)
    requires Inv(s) && t < |s.threads| && s.threads[t].Idle?
    ensures var steps := AllocateSteps(s, t);
            var front := Run(s, steps[..|steps| - 1]);
            && front.Some?
            && Returned(front.value, steps[|steps| - 1])
               == match MemPoolSpec.Allocate(Model(s), |s.links|).0
                  case Some(i) => i
                  case None => -1
  {
    if s.free != [] {
      SoloPopReturns(s, t);
    } else {
      AllocateReads(s, t, []);
      assert AllocateSteps(s, t)[..2] == [BeginAllocate(t), Step(t)] + [];
      HeadWord(s);
    }
  }

  lemma SoloPopReturns(s: State, t: nat)
    requires Inv(s) && t < |s.threads| && s.threads[t].Idle? && s.free != []
    ensures var p := At(s, t, AllocSwap(s.used, s.head, s.version, First(s.free[1..])));
            Run(s, AllocateSteps(s, t)[..3]) == Some(p) && Returned(p, Step(t)) == s.free[0]
  {
    HeadWord(s);
    AllocateSwaps(s, t);
    AllocateReads(s, t, [Step(t)]);
    var p := At(s, t, AllocSwap(s.used, s.head, s.version, First(s.free[1..])));
    RunStep(At(s, t, LookAtHead(s, s.used)), Step(t), p, []);
    assert AllocateSteps(s, t)[..3] == [BeginAllocate(t), Step(t)] + [Step(t)];
  }

  /** So does a call of Remove. */
  lemma SoloRemoveMatchesMemPool(s: State, t: nat, index: nat)
    requires Inv(s) && t < |s.threads| && s.threads[t].Idle? && index in HeldIndexes(s)
    ensures Run(s, RemoveSteps(t, index)) == Some(Removed(s, index))
    ensures Model(Removed(s, index)) == MemPoolSpec.Remove(Model(s), index)
    ensures HeldIndexes(Removed(s, index)) == HeldIndexes(s) - {index}
  {
    RemoveRuns(s, t, index);
  }
}
