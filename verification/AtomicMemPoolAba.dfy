/** Why the bound of 256 is needed, and exact: a compare-and-swap that comes 256 swings after its read of
    the head can succeed on a list that has changed, and then an index is handed out twice. */
module AtomicMemPoolAba {
  import opened Options
  import opened NumberMask
  import opened AtomicMemPool
  import opened AtomicMemPoolTheorems
  import Runs

  predicate SomeFree(s: State) {
    s.free != [] ==> s.free[0] < |s.owner|
  }

  lemma AfterAllocate(s: State, t: nat, s': State)
    requires Reachable(3, 2, s) && t < |s.threads| && s.threads[t].Idle?
    requires |s.owner| == |s.links| && SomeFree(s) && s' == Allocated(s)
    ensures Reachable(3, 2, s')
  {
    ReachableInv(3, 2, s);
    SoloAllocateMatchesMemPool(s, t);
    RunReachable(3, 2, s, AllocateSteps(s, t), s');
  }

  lemma AfterRemove(s: State, t: nat, i: nat, s': State)
    requires Reachable(3, 2, s) && t < |s.threads| && s.threads[t].Idle?
    requires i < |s.owner| == |s.links| && s.owner[i].Held? && s' == Removed(s, i)
    ensures Reachable(3, 2, s')
  {
    ReachableInv(3, 2, s);
    SoloRemoveMatchesMemPool(s, t, i);
    RunReachable(3, 2, s, RemoveSteps(t, i), s');
  }

  const START: State := Init(3, 2, [0, 0, 0])

  /** All three indexes are free: the list is 0, 1, 2. */
  const FULL: State :=
    State([1, 2, NIL], 3, ConstructValue(3, 0), [Idle, Idle], 3, [0, 1, 2], [Free, Free, Free])

  /** Thread 0 has taken all three indexes. */
  const TAKEN: State := State([0, 0, 0], 3, ConstructValue(0, NIL), [Idle, Idle], 0, [], [Held, Held, Held])

  lemma TakenReachable()
    ensures Reachable(3, 2, TAKEN)
  {
    Runs.InitReachable(Initial(3, 2), PromptStep(), START);
    var s1 := Allocated(START);
    AfterAllocate(START, 0, s1);
    var s2 := Allocated(s1);
    AfterAllocate(s1, 0, s2);
    TakenIsAllocated();
    AfterAllocate(s2, 0, TAKEN);
  }

  lemma TakenIsAllocated()
    ensures Allocated(Allocated(Allocated(START))) == TAKEN
  {
    var s := Allocated(Allocated(Allocated(START)));
    assert s.owner == TAKEN.owner && START.threads == TAKEN.threads;
  }

  lemma FullReachable()
    ensures Reachable(3, 2, FULL)
  {
    TakenReachable();
    var s1 := Removed(TAKEN, 2);
    AfterRemove(TAKEN, 0, 2, s1);
    var s2 := Removed(s1, 1);
    AfterRemove(s1, 0, 1, s2);
    AfterRemove(s2, 0, 0, Removed(s2, 0));
    FullIsRemoved();
  }

  lemma FullIsRemoved()
    ensures Removed(Removed(Removed(TAKEN, 2), 1), 0) == FULL
  {
    var s := Removed(Removed(Removed(TAKEN, 2), 1), 0);
    assert s.links == FULL.links && s.free == FULL.free && s.owner == FULL.owner;
  }

  /** Thread 0 is about to swing the head from 0 to 1, as it read them at version 3. */
  const STALE: Pc := AllocSwap(3, ConstructValue(3, 0), 3, 1)

  /** Meanwhile thread 1 has taken all three indexes and given back only 0. */
  function Stalled(version: nat): State {
    State([NIL, 2, NIL], 3, ConstructValue(version, 0), [STALE, Idle], version, [0], [Free, Held, Held])
  }

  lemma StalledReachable()
    ensures Reachable(3, 2, Stalled(7))
  {
    FullReachable();
    ReachableInv(3, 2, FULL);
    WordParts(3, 0);
    AllocateReads(FULL, 0, [Step(0)]);
    var s0 := FULL.(threads := [STALE, Idle]);
    assert LookAtHead(FULL, 3) == AllocLink(3, ConstructValue(3, 0), 3);
    RunStep(At(FULL, 0, AllocLink(3, ConstructValue(3, 0), 3)), Step(0), s0, []);
    RunReachable(3, 2, FULL, [BeginAllocate(0), Step(0)] + [Step(0)], s0);
    TakeAll(s0);
  }

  lemma TakeAll(s: State)
    requires s == FULL.(threads := [STALE, Idle]) && Reachable(3, 2, s)
    ensures Reachable(3, 2, Stalled(7))
  {
    var s1 := Allocated(s);
    AfterAllocate(s, 1, s1);
    var s2 := Allocated(s1);
    AfterAllocate(s1, 1, s2);
    var s3 := Allocated(s2);
    AfterAllocate(s2, 1, s3);
    TakenFromFull(s);
    AfterRemove(s3, 1, 0, Stalled(7));
  }

  lemma TakenFromFull(s: State)
    requires s == FULL.(threads := [STALE, Idle])
    ensures var s3 := Allocated(Allocated(Allocated(s)));
            |s3.owner| == |s3.links| == 3 && s3.owner[0].Held? && Removed(s3, 0) == Stalled(7)
  {
    var s3 := Allocated(Allocated(Allocated(s)));
    assert s3.free == [] && s3.owner == [Held, Held, Held];
    var s4 := Removed(s3, 0);
    assert s4.links == Stalled(7).links && s4.owner == Stalled(7).owner;
  }

  /** Thread 1 takes index 0 and gives it back, again and again. */
  lemma {:induction false} StalledLater(rounds: nat)
    ensures Reachable(3, 2, Stalled(7 + 2 * rounds))
  {
    if rounds == 0 {
      StalledReachable();
    } else {
      StalledLater(rounds - 1);
      StalledNext(5 + 2 * rounds);
    }
  }

  lemma StalledNext(v: nat)
    requires Reachable(3, 2, Stalled(v))
    ensures Reachable(3, 2, Stalled(v + 2))
  {
    StalledRound(v);
    AfterAllocate(Stalled(v), 1, Allocated(Stalled(v)));
    AfterRemove(Allocated(Stalled(v)), 1, 0, Stalled(v + 2));
  }

  lemma StalledRound(v: nat)
    ensures var s := Allocated(Stalled(v));
            && |s.owner| == |s.links| == 3 && s.owner[0].Held? && s.threads == [STALE, Idle]
            && Removed(s, 0) == Stalled(v + 2)
  {
    var s := Allocated(Stalled(v));
    assert s.free == [];
    assert Removed(s, 0).links == Stalled(v + 2).links && Removed(s, 0).owner == Stalled(v + 2).owner;
  }

  /** The state after thread 0's late swap: the head names index 1, which a client holds. */
  const BROKEN: State :=
    State([NIL, 2, NIL], 3, ConstructValue(4, 1), [Idle, Idle], 260, [], [Held, Held, Held])

  lemma LateSwapSucceeds()
    ensures Reachable(3, 2, Stalled(259)) && Stalled(259).version == STALE.seen + COUNTS
    ensures Typed(Stalled(259)) && Enabled(Stalled(259), Step(0)) && !Prompt(Stalled(259), Step(0))
    ensures Next(Stalled(259), Step(0)) == BROKEN
  {
    StalledLater(126);
    ReachableInv(3, 2, Stalled(259));
    SameWord(259, 0, 3, 0);
    WordParts(3, 0);
    NextWord(3, 0, 1);
  }

  lemma BrokenRuns(s4: State)
    requires s4 == BROKEN.(threads := [Idle, AllocSwap(3, ConstructValue(4, 1), 260, 2)])
    ensures Run(BROKEN, [BeginAllocate(1), Step(1), Step(1)]) == Some(s4)
  {
    var w := ConstructValue(4, 1);
    WordParts(4, 1);
    var s2 := BROKEN.(threads := [Idle, AllocHead(3)]);
    var s3 := BROKEN.(threads := [Idle, AllocLink(3, w, 260)]);
    RunStep(s3, Step(1), s4, []);
    RunStep(s2, Step(1), s3, [Step(1)]);
    RunStep(BROKEN, BeginAllocate(1), s2, [Step(1), Step(1)]);
  }

  /** After exactly 256 swings thread 0's compare-and-swap succeeds, though index 1 is held; and the next
      call of Allocate hands index 1 out a second time. */
  lemma LateSwapHandsOutTwice()
    ensures exists s, s' ::
              && Reachable(3, 2, s) && Typed(s) && Enabled(s, Step(0))
              && s.threads[0].AllocSwap? && s.version == s.threads[0].seen + COUNTS
              && Run(Next(s, Step(0)), [BeginAllocate(1), Step(1), Step(1)]) == Some(s')
              && |s'.owner| > 1 && s'.owner[1].Held? && Returned(s', Step(1)) == 1
  {
    LateSwapSucceeds();
    WordParts(4, 1);
    var s' := BROKEN.(threads := [Idle, AllocSwap(3, ConstructValue(4, 1), 260, 2)]);
    BrokenRuns(s');
    assert Returned(s', Step(1)) == 1;
  }
}
