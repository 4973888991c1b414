/** A call of Allocate that returns no index although there is one at every moment of the call: it finds the list
    empty while an index was never used, and then finds none unused while the list is not empty. */
module AtomicMemPoolFailure {
  import opened Options
  import opened NumberMask
  import opened AtomicMemPool
  import opened AtomicMemPoolTheorems
  import Runs

  /** Some index is free, or was never used. */
  ghost predicate Available(s: State) {
    FreeIndexes(s) + NeverUsed(s) != {}
  }

  /** A step in the middle of a call of thread 1, with an index available before and after. */
  ghost function MidCall(): (State, State) -> bool {
    (s: State, s': State) => PromptStep()(s, s') && IsMidCall(s) && IsMidCall(s')
  }

  ghost predicate IsMidCall(s: State) {
    Available(s) && |s.threads| > 1 && !s.threads[1].Idle?
  }

  ghost function From(s: State): State -> bool {
    (x: State) => x == s
  }

  /** s is reached from BEGUN in the middle of thread 1's call. */
  ghost predicate Reached(s: State) {
    Runs.Reachable(From(BEGUN), MidCall(), s)
  }

  lemma Take(s: State, a: Action, s': State)
    requires Reached(s) && Leads(s, a, s') && IsMidCall(s) && IsMidCall(s')
    ensures Reached(s')
  {
    assert PromptStep()(s, s');
    Runs.StepReachable(From(BEGUN), MidCall(), s, s');
  }

  /** Two items. Thread 0 holds index 0, and index 1 was never used. */
  const ONE_HELD: State := State([0, 0], 1, ConstructValue(0, NIL), [Idle, Idle, Idle], 0, [], [Held, Unused])

  lemma OneHeldReachable()
    ensures Reachable(2, 3, ONE_HELD)
  {
    var s := Init(2, 3, [0, 0]);
    Runs.InitReachable(Initial(2, 3), PromptStep(), s);
    ReachableInv(2, 3, s);
    SoloAllocateMatchesMemPool(s, 0);
    assert s.threads == [Idle, Idle, Idle] && s.owner == [Unused, Unused];
    assert Allocated(s) == ONE_HELD;
    RunReachable(2, 3, s, AllocateSteps(s, 0), ONE_HELD);
  }

  /** Thread 1 has begun to allocate. */
  const BEGUN: State := ONE_HELD.(threads := [Idle, AllocHead(1), Idle])

  /** The threads are at these points. */
  function Looking(t0: Pc, t1: Pc, t2: Pc): State {
    ONE_HELD.(threads := [t0, t1, t2])
  }

  /** Threads 1 and 2 have found the list empty, and thread 0 gives index 0 back. */
  function Removing0(pc: Pc, link: nat): State {
    Looking(pc, AllocFresh(1), AllocFresh(1)).(links := [link, 0], owner := [Freeing(0), Unused])
  }

  const REMOVED: State :=
    State([NIL, 0], 1, ConstructValue(1, 0), [Idle, AllocFresh(1), AllocFresh(1)], 1, [0], [Free, Unused])

  /** Thread 2 has taken index 1. */
  const TAKEN: State :=
    State([NIL, 0], 2, ConstructValue(1, 0), [Idle, AllocFresh(1), Idle], 1, [0], [Free, Held])

  lemma LookingIsMidCall(t0: Pc, t1: Pc, t2: Pc)
    ensures !t1.Idle? ==> IsMidCall(Looking(t0, t1, t2))
  {
    assert 1 in NeverUsed(Looking(t0, t1, t2));
  }

  lemma RemovingIsMidCall(pc: Pc, link: nat)
    ensures IsMidCall(Removing0(pc, link))
  {
    assert 1 in NeverUsed(Removing0(pc, link));
  }

  lemma RemovedIsMidCall()
    ensures IsMidCall(REMOVED) && IsMidCall(TAKEN)
  {
    assert 0 in FreeIndexes(REMOVED) && 0 in FreeIndexes(TAKEN);
  }

  lemma FirstLooks()
    ensures Reached(Looking(Idle, AllocFresh(1), Idle))
  {
    assert BEGUN == Looking(Idle, AllocHead(1), Idle);
    Runs.InitReachable(From(BEGUN), MidCall(), BEGUN);
    LookingIsMidCall(Idle, AllocHead(1), Idle);
    LookingIsMidCall(Idle, AllocFresh(1), Idle);
    WordParts(0, NIL);
    assert BEGUN.threads[1 := AllocFresh(1)] == Looking(Idle, AllocFresh(1), Idle).threads;
    Take(BEGUN, Step(1), Looking(Idle, AllocFresh(1), Idle));
  }

  lemma SecondBegins()
    ensures Reached(Looking(Idle, AllocFresh(1), AllocHead(1)))
  {
    var s, s' := Looking(Idle, AllocFresh(1), Idle), Looking(Idle, AllocFresh(1), AllocHead(1));
    FirstLooks();
    LookingIsMidCall(Idle, AllocFresh(1), Idle);
    LookingIsMidCall(Idle, AllocFresh(1), AllocHead(1));
    assert s.threads[2 := AllocHead(1)] == s'.threads;
    Take(s, BeginAllocate(2), s');
  }

  lemma SecondLooks()
    ensures Reached(Looking(Idle, AllocFresh(1), AllocFresh(1)))
  {
    var s, s' := Looking(Idle, AllocFresh(1), AllocHead(1)), Looking(Idle, AllocFresh(1), AllocFresh(1));
    SecondBegins();
    LookingIsMidCall(Idle, AllocFresh(1), AllocHead(1));
    LookingIsMidCall(Idle, AllocFresh(1), AllocFresh(1));
    WordParts(0, NIL);
    assert s.threads[2 := AllocFresh(1)] == s'.threads;
    Take(s, Step(2), s');
  }

  lemma RemoveBegins()
    ensures Reached(Removing0(FreeHead(0), 0))
  {
    var s, s' := Looking(Idle, AllocFresh(1), AllocFresh(1)), Removing0(FreeHead(0), 0);
    SecondLooks();
    LookingIsMidCall(Idle, AllocFresh(1), AllocFresh(1));
    RemovingIsMidCall(FreeHead(0), 0);
    assert s.threads[0 := FreeHead(0)] == s'.threads && s.owner[0 := Freeing(0)] == s'.owner;
    Take(s, BeginRemove(0, 0), s');
  }

  lemma RemoveReads()
    ensures Reached(Removing0(FreeLink(0, ConstructValue(0, NIL), 0), 0))
  {
    var s, s' := Removing0(FreeHead(0), 0), Removing0(FreeLink(0, ConstructValue(0, NIL), 0), 0);
    RemoveBegins();
    RemovingIsMidCall(FreeHead(0), 0);
    RemovingIsMidCall(FreeLink(0, ConstructValue(0, NIL), 0), 0);
    assert s.threads[0 := FreeLink(0, ConstructValue(0, NIL), 0)] == s'.threads;
    Take(s, Step(0), s');
  }

  lemma RemoveLinks()
    ensures Reached(Removing0(FreeSwap(0, ConstructValue(0, NIL), 0), NIL))
  {
    var s, s' := Removing0(FreeLink(0, ConstructValue(0, NIL), 0), 0), Removing0(FreeSwap(0, ConstructValue(0, NIL), 0), NIL);
    RemoveReads();
    RemovingIsMidCall(FreeLink(0, ConstructValue(0, NIL), 0), 0);
    RemovingIsMidCall(FreeSwap(0, ConstructValue(0, NIL), 0), NIL);
    WordParts(0, NIL);
    assert s.threads[0 := FreeSwap(0, ConstructValue(0, NIL), 0)] == s'.threads && s.links[0 := NIL] == s'.links;
    Take(s, Step(0), s');
  }

  lemma SwapLeads()
    ensures Leads(Removing0(FreeSwap(0, ConstructValue(0, NIL), 0), NIL), Step(0), REMOVED)
  {
    var s := Removing0(FreeSwap(0, ConstructValue(0, NIL), 0), NIL);
    NextWord(0, NIL, 0);
    assert s.threads[0 := Idle] == REMOVED.threads && s.owner[0 := Free] == REMOVED.owner && [0] + s.free == REMOVED.free;
  }

  lemma RemoveSwaps()
    ensures Reached(REMOVED)
  {
    RemoveLinks();
    RemovingIsMidCall(FreeSwap(0, ConstructValue(0, NIL), 0), NIL);
    RemovedIsMidCall();
    SwapLeads();
    Take(Removing0(FreeSwap(0, ConstructValue(0, NIL), 0), NIL), Step(0), REMOVED);
  }

  lemma LastTaken()
    ensures Reached(TAKEN)
  {
    RemoveSwaps();
    RemovedIsMidCall();
    assert REMOVED.threads[2 := Idle] == TAKEN.threads && REMOVED.owner[1 := Held] == TAKEN.owner;
    Take(REMOVED, Step(2), TAKEN);
  }

  lemma CallBegins()
    ensures Available(ONE_HELD) && Leads(ONE_HELD, BeginAllocate(1), BEGUN)
  {
    assert 1 in NeverUsed(ONE_HELD);
    assert ONE_HELD.threads[1 := AllocHead(1)] == BEGUN.threads;
  }

  /** This step of thread 1 ends its call without an index. */
  ghost predicate Fails(s: State) {
    Typed(s) && Enabled(s, Step(1)) && s.threads[1].AllocFresh? && Returned(s, Step(1)) == -1
  }

  lemma TakenFails()
    ensures Fails(TAKEN)
  {
  }

  /** Thread 1's call of Allocate begins in ONE_HELD and ends in TAKEN without an index, though one is available in both and
      in every state in between. */
  lemma FailsThoughAvailable()
    ensures Reachable(2, 3, ONE_HELD) && Available(ONE_HELD) && Leads(ONE_HELD, BeginAllocate(1), BEGUN)
    ensures Reached(TAKEN) && Available(TAKEN) && Fails(TAKEN)
  {
    OneHeldReachable();
    CallBegins();
    LastTaken();
    RemovedIsMidCall();
    TakenFails();
  }
}
