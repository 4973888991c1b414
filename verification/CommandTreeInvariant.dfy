/** The inductive invariant of the execution protocol, and its preservation by every step. */
module CommandTreeInvariant {
  import opened Options
  import opened DependencyGraph
  import opened CommandTreeRun

  /** What the protocol needs of the constructed tree. */
  ghost predicate WellBuilt(t: Tree) {
    && Valid(t.deps)
    && AsListed(t)
    && (forall n, k | 0 <= n < |t.kids| && 0 <= k < |t.kids[n]| ::
          IsEntry(t.deps, t.kids[n][k]) && Source(t, t.kids[n][k]) == n)
    && (forall n, k, l | 0 <= n < |t.kids| && 0 <= k < l < |t.kids[n]| :: t.kids[n][k] != t.kids[n][l])
    && (forall d, j | 0 <= d < |t.deps| && 0 <= j < |t.deps[d]| :: (d, j) in t.kids[t.deps[d][j]])
    && (forall k, l | 0 <= k < l < |t.roots| :: t.roots[k] != t.roots[l])
    && (forall r: nat :: r in t.roots <==> r < |t.deps| && t.deps[r] == [])
  }

  ghost function Source(t: Tree, e: Entry): nat
    requires IsEntry(t.deps, e)
  {
    t.deps[e.0][e.1]
  }

  lemma BuildIsWellBuilt(g: Graph)
    requires Valid(g)
    ensures WellBuilt(Build(g))
  {
    var t := Build(g);
    forall n, k | 0 <= n < |t.kids| && 0 <= k < |t.kids[n]|
      ensures IsEntry(g, t.kids[n][k]) && Source(t, t.kids[n][k]) == n
    {
      EntriesExact(g, n, |g|, 0, t.kids[n][k]);
    }
    forall n, k, l | 0 <= n < |t.kids| && 0 <= k < l < |t.kids[n]| ensures t.kids[n][k] != t.kids[n][l] {
      EntriesIncrease(g, n, |g|, 0);
    }
    forall d, j | 0 <= d < |g| && 0 <= j < |g[d]| ensures (d, j) in t.kids[g[d][j]] {
      EntriesExact(g, g[d][j], |g|, 0, (d, j));
    }
    RootsExact(g, |g|);
  }

  // ----- the invariant -----

  ghost predicate Counted(s: State, e: Entry) {
    e.0 < |s.counted| && e.1 in s.counted[e.0]
  }

  ghost function Range(n: nat): (r: set<nat>)
    ensures |r| == n
    ensures forall j: nat :: j in r <==> j < n
  {
    if n == 0 then {} else Range(n - 1) + {n - 1}
  }

  /** Worker state pc still has to count child k of node n. */
  ghost predicate Owes(pc: WorkerPc, n: nat, k: nat) {
    match pc
    case CheckReturn(m) => m == n
    case NextChild(m, i) => m == n && i <= k
    case PushChild(m, i) => m == n && i < k
    case _ => false
  }

  ghost predicate WorkerOk(t: Tree, s: State, w: nat)
    requires Typed(t, s) && w < |s.workers|
  {
    && (match s.workers[w]
        case Popped(n) => s.phase[n] == Taken(w)
        case Cleared(n) => s.phase[n] == Runnable(w)
        case InRoutine(n) => s.phase[n] == Started(w)
        case StoreFailure(n, r) => s.phase[n] == Failed && r != 0
        case SignalFailure(n) => s.phase[n] == Failed && s.returnValue != 0
        case CountFinished(n) => s.phase[n] == Succeeded(w)
        case SignalDone => s.finisher == Some(w)
        case PushChild(n, k) => s.phase[t.kids[n][k].0] == Granted(w)
        case _ => true)
    && (forall n, k | 0 <= n < |t.kids| && 0 <= k < |t.kids[n]| && Owes(s.workers[w], n, k) ::
          s.phase[n] == Finished(w) && !Counted(s, t.kids[n][k]))
  }

  ghost predicate Begun(p: Phase) {
    p.Started? || p.Succeeded? || p.Finished? || p.Failed?
  }

  ghost predicate EndedBadly(log: seq<Event>, n: nat) {
    exists r :: r != 0 && End(n, r) in log
  }

  /** Which worker a node's phase points to, and what that worker is doing. */
  ghost predicate OwnerOk(t: Tree, s: State, n: nat)
    requires Typed(t, s) && n < |s.phase|
  {
    match s.phase[n]
    case Granted(w) =>
      && w < |s.workers| && s.workers[w].PushChild?
      && t.kids[s.workers[w].node][s.workers[w].k].0 == n
    case Taken(w) => w < |s.workers| && s.workers[w] == Popped(n)
    case Runnable(w) => w < |s.workers| && s.workers[w] == Cleared(n)
    case Started(w) => w < |s.workers| && s.workers[w] == InRoutine(n)
    case Succeeded(w) => w < |s.workers| && s.workers[w] == CountFinished(n)
    case Finished(w) =>
      && w < |s.workers|
      && (forall k | 0 <= k < |t.kids[n]| ::
            Counted(s, t.kids[n][k]) || Owes(s.workers[w], n, k) || s.returnValue != 0)
    case _ => true
  }

  ghost predicate CountOk(t: Tree, s: State, n: nat)
    requires Typed(t, s) && n < |s.phase|
  {
    && s.counted[n] <= Range(|t.deps[n]|)
    && (forall j | j in s.counted[n] :: t.deps[n][j] < |s.phase| && s.phase[t.deps[n][j]].Finished?)
    && (s.phase[n].Blocked? ==> t.deps[n] == [] || s.counted[n] != Range(|t.deps[n]|))
    && (!s.phase[n].Blocked? ==> s.counted[n] == Range(|t.deps[n]|))
    && s.counters[n] == if s.phase[n].Blocked? || s.phase[n].Granted? || s.phase[n].Queued? || s.phase[n].Taken?
                        then |s.counted[n]| else 0
  }

  ghost predicate LoggedOk(s: State, n: nat)
    requires n < |s.phase|
  {
    && (Begin(n) in s.log <==> Begun(s.phase[n]))
    && (End(n, 0) in s.log <==> s.phase[n].Succeeded? || s.phase[n].Finished?)
    && (EndedBadly(s.log, n) <==> s.phase[n].Failed?)
  }

  ghost predicate NodeOk(t: Tree, s: State, n: nat)
    requires Typed(t, s) && n < |s.phase|
  {
    && OwnerOk(t, s, n)
    && CountOk(t, s, n)
    && LoggedOk(s, n)
    && (n in s.queue <==> s.phase[n].Queued?)
  }

  /** A well-ordered log: every routine begins at most once and only after the routines of all its
      dependencies returned 0, and ends at most once, after it began. */
  ghost predicate LogOk(g: Graph, log: seq<Event>) {
    forall k | 0 <= k < |log| :: EventOk(g, log, k)
  }

  ghost predicate EventOk(g: Graph, log: seq<Event>, k: nat)
    requires k < |log|
  {
    match log[k]
    case Begin(n) =>
      && n < |g|
      && Begin(n) !in log[..k]
      && (forall j | 0 <= j < |g[n]| :: End(g[n][j], 0) in log[..k])
    case End(n, _) =>
      && Begin(n) in log[..k]
      && (forall r :: End(n, r) !in log[..k])
  }

  ghost function FinishedNodes(s: State): set<nat> {
    set n | 0 <= n < |s.phase| && s.phase[n].Finished?
  }

  ghost predicate AnyFailed(s: State) {
    exists n :: 0 <= n < |s.phase| && s.phase[n].Failed?
  }

  ghost predicate QueueOk(s: State) {
    && !s.overflowed
    && (forall k, l | 0 <= k < l < |s.queue| :: s.queue[k] != s.queue[l])
  }

  ghost predicate RootsOk(t: Tree, s: State)
    requires Typed(t, s)
  {
    && (s.main.PushRoot? ==> s.main.k <= |t.roots|)
    && (forall i | 0 <= i < |t.roots| ::
          s.phase[t.roots[i]].Blocked? <==> s.main.PushRoot? && s.main.k <= i)
  }

  /** How the completion semaphore has been used in this execution. */
  ghost predicate SignalsOk(t: Tree, s: State) {
    && s.numFinished == |FinishedNodes(s)|
    && (s.finisher.Some? <==> s.numFinished == |t.deps|)
    && (s.finisher.Some? ==>
          && s.finisher.value < |s.workers|
          && s.releases == if s.workers[s.finisher.value] == SignalDone then 0 else 1)
    && (s.releases > 0 ==> s.finisher.Some? || s.returnValue != 0)
    && (s.returnValue != 0 ==> AnyFailed(s))
    && (!AnyFailed(s) ==>
          && (s.finisher.None? ==> s.releases == 0)
          && s.semaphore + (if s.main.Returned? then 1 else 0) == s.releases)
    && (s.main.Returned? || s.semaphore > 0 ==> s.releases > 0)
    && s.semaphore <= 1
  }

  ghost predicate Inv(t: Tree, s: State) {
    && Typed(t, s)
    && (forall w | 0 <= w < |s.workers| :: WorkerOk(t, s, w))
    && (forall n | 0 <= n < |s.phase| :: NodeOk(t, s, n))
    && QueueOk(s)
    && RootsOk(t, s)
    && LogOk(t.deps, s.log)
    && SignalsOk(t, s)
  }

  // ----- preservation: steps that move one node forward -----

  /** Worker w leaves a state that owes no edge and carries node n from one phase to the next;
      nobody else is concerned. */
  ghost predicate Moves(t: Tree, s: State, s': State, w: nat, n: nat) {
    && Typed(t, s) && Typed(t, s')
    && w < |s.workers| && n < |s.phase|
    && |s'.workers| == |s.workers| && s'.workers == s.workers[w := s'.workers[w]]
    && |s'.phase| == |s.phase| && !s'.phase[n].Blocked? && s'.main == s.main
    && s'.phase == s.phase[n := s'.phase[n]]
    && s'.counted == s.counted
    && s'.counters == s.counters[n := s'.counters[n]]
    && (s.returnValue != 0 ==> s'.returnValue != 0)
    && (s'.finisher == s.finisher || s.finisher.None?)
    && (forall m | m != n :: m in s'.queue <==> m in s.queue)
    && (forall e: Event | e.node != n :: e in s'.log <==> e in s.log)
    && (s.workers[w].Idle? || (!IsEdgePc(s.workers[w]) && !s.workers[w].SignalDone? && s.workers[w].node == n))
    && (s.phase[n].Queued? || HeldBy(s.phase[n], w) || (s.phase[n].Failed? && s'.phase[n].Failed?))
  }

  predicate HeldBy(p: Phase, w: nat) {
    p == Taken(w) || p == Runnable(w) || p == Started(w) || p == Succeeded(w)
  }

  predicate IsEdgePc(pc: WorkerPc) {
    pc.CheckReturn? || pc.NextChild? || pc.PushChild?
  }

  lemma MoveKeepsWorker(t: Tree, s: State, s': State, w: nat, n: nat, v: nat)
    requires Moves(t, s, s', w, n) && v < |s.workers| && v != w && WorkerOk(t, s, v)
    ensures WorkerOk(t, s', v)
  {
  }

  lemma MoveKeepsNode(t: Tree, s: State, s': State, w: nat, n: nat, m: nat)
    requires Moves(t, s, s', w, n) && m < |s.phase| && m != n && NodeOk(t, s, m)
    ensures NodeOk(t, s', m)
  {
  }

  lemma MoveKeeps(t: Tree, s: State, s': State, w: nat, n: nat)
    requires Inv(t, s) && Moves(t, s, s', w, n)
    requires WorkerOk(t, s', w) && NodeOk(t, s', n)
    requires QueueOk(s') && LogOk(t.deps, s'.log) && SignalsOk(t, s')
    ensures Inv(t, s')
  {
    forall v | 0 <= v < |s'.workers| ensures WorkerOk(t, s', v) {
      assert WorkerOk(t, s, v);
      if v != w {
        MoveKeepsWorker(t, s, s', w, n, v);
      }
    }
    forall m | 0 <= m < |s'.phase| ensures NodeOk(t, s', m) {
      assert NodeOk(t, s, m);
      if m != n {
        MoveKeepsNode(t, s, s', w, n, m);
      }
    }
  }

  /** A move that neither finishes nor fails the node leaves the signalling state as it was. */
  lemma QuietMove(t: Tree, s: State, s': State, w: nat, n: nat)
    requires Inv(t, s) && Moves(t, s, s', w, n)
    requires !s'.phase[n].Finished? && (s'.phase[n].Failed? ==> s.phase[n].Failed?)
    requires s'.workers[w] != SignalDone
    requires s'.numFinished == s.numFinished && s'.returnValue == s.returnValue
    requires s'.semaphore == s.semaphore && s'.releases == s.releases && s'.finisher == s.finisher
    ensures SignalsOk(t, s')
  {
    assert FinishedNodes(s') == FinishedNodes(s);
    if AnyFailed(s') {
      var m :| 0 <= m < |s'.phase| && s'.phase[m].Failed?;
      assert s.phase[m].Failed?;
    }
    if AnyFailed(s) {
      var m :| 0 <= m < |s.phase| && s.phase[m].Failed?;
      assert s'.phase[m].Failed?;
    }
  }

  lemma PopMoves(t: Tree, s: State, w: nat, ret: nat)
    requires Typed(t, s) && QueueOk(s) && Enabled(t, s, Worker(w, ret)) && s.workers[w].Idle?
    requires NodeOk(t, s, s.queue[0]) && WorkerOk(t, s, w)
    ensures var s' := WorkerNext(t, s, w, ret);
            && Moves(t, s, s', w, s.queue[0])
            && WorkerOk(t, s', w) && NodeOk(t, s', s.queue[0]) && QueueOk(s')
  {
    var n := s.queue[0];
    assert n in s.queue;
    assert s.queue == [n] + s.queue[1..];
  }

  lemma PopKeeps(t: Tree, s: State, w: nat, ret: nat)
    requires Inv(t, s) && Enabled(t, s, Worker(w, ret)) && s.workers[w].Idle?
    ensures Inv(t, WorkerNext(t, s, w, ret))
  {
    var s' := WorkerNext(t, s, w, ret);
    var n := s.queue[0];
    PopMoves(t, s, w, ret);
    QuietMove(t, s, s', w, n);
    MoveKeeps(t, s, s', w, n);
  }

  lemma ClearKeeps(t: Tree, s: State, w: nat, ret: nat)
    requires Inv(t, s) && w < |s.workers| && s.workers[w].Popped?
    ensures Inv(t, WorkerNext(t, s, w, ret))
  {
    var s' := WorkerNext(t, s, w, ret);
    var n := s.workers[w].node;
    assert NodeOk(t, s, n) && WorkerOk(t, s, w);
    ClearMoves(t, s, w, ret);
    QuietMove(t, s, s', w, n);
    MoveKeeps(t, s, s', w, n);
  }

  lemma ClearIsMove(t: Tree, s: State, w: nat, ret: nat)
    requires Typed(t, s) && w < |s.workers| && s.workers[w].Popped? && WorkerOk(t, s, w)
    ensures Moves(t, s, WorkerNext(t, s, w, ret), w, s.workers[w].node)
  {
  }

  lemma ClearMoves(t: Tree, s: State, w: nat, ret: nat)
    requires Typed(t, s) && w < |s.workers| && s.workers[w].Popped?
    requires NodeOk(t, s, s.workers[w].node) && WorkerOk(t, s, w)
    ensures var s' := WorkerNext(t, s, w, ret);
            var n := s.workers[w].node;
            Moves(t, s, s', w, n) && WorkerOk(t, s', w) && NodeOk(t, s', n)
  {
    ClearIsMove(t, s, w, ret);
  }

  lemma LogGrows(g: Graph, log: seq<Event>, e: Event)
    requires LogOk(g, log) && EventOk(g, log + [e], |log|)
    ensures LogOk(g, log + [e])
  {
    var log' := log + [e];
    forall k | 0 <= k < |log'| ensures EventOk(g, log', k) {
      if k < |log| {
        assert EventOk(g, log, k) && log'[..k] == log[..k];
      }
    }
  }

  lemma BeginMoves(t: Tree, s: State, w: nat, ret: nat)
    requires Typed(t, s) && w < |s.workers| && s.workers[w].Cleared?
    requires NodeOk(t, s, s.workers[w].node) && WorkerOk(t, s, w)
    ensures var s' := WorkerNext(t, s, w, ret);
            var n := s.workers[w].node;
            Moves(t, s, s', w, n) && WorkerOk(t, s', w) && NodeOk(t, s', n)
  {
    var s' := WorkerNext(t, s, w, ret);
    var n := s.workers[w].node;
    assert forall e :: e in s'.log <==> e in s.log || e == Begin(n);
    assert EndedBadly(s'.log, n) == EndedBadly(s.log, n);
  }

  /** A routine is called only after the routines of all its dependencies returned 0. */
  lemma BeginOrdered(t: Tree, s: State, w: nat)
    requires WellBuilt(t) && Inv(t, s) && w < |s.workers| && s.workers[w].Cleared?
    ensures LogOk(t.deps, s.log + [Begin(s.workers[w].node)])
  {
    var n := s.workers[w].node;
    assert NodeOk(t, s, n) && WorkerOk(t, s, w);
    assert (s.log + [Begin(n)])[..|s.log|] == s.log;
    forall j | 0 <= j < |t.deps[n]| ensures End(t.deps[n][j], 0) in s.log {
      assert j in s.counted[n];
      assert NodeOk(t, s, t.deps[n][j]);
    }
    LogGrows(t.deps, s.log, Begin(n));
  }

  lemma BeginKeeps(t: Tree, s: State, w: nat, ret: nat)
    requires WellBuilt(t) && Inv(t, s) && w < |s.workers| && s.workers[w].Cleared?
    ensures Inv(t, WorkerNext(t, s, w, ret))
  {
    var s' := WorkerNext(t, s, w, ret);
    var n := s.workers[w].node;
    assert NodeOk(t, s, n) && WorkerOk(t, s, w);
    BeginMoves(t, s, w, ret);
    BeginOrdered(t, s, w);
    QuietMove(t, s, s', w, n);
    MoveKeeps(t, s, s', w, n);
  }

  lemma EndMoves(t: Tree, s: State, w: nat, ret: nat)
    requires Typed(t, s) && w < |s.workers| && s.workers[w].InRoutine?
    requires NodeOk(t, s, s.workers[w].node) && WorkerOk(t, s, w)
    ensures var s' := WorkerNext(t, s, w, ret);
            var n := s.workers[w].node;
            Moves(t, s, s', w, n) && WorkerOk(t, s', w) && NodeOk(t, s', n)
  {
    var s' := WorkerNext(t, s, w, ret);
    var n := s.workers[w].node;
    EndLogged(s, s', n, ret);
  }

  lemma EndLogged(s: State, s': State, n: nat, ret: nat)
    requires n < |s.phase| == |s'.phase| && s.phase[n].Started? && LoggedOk(s, n)
    requires s'.log == s.log + [End(n, ret)] && if ret == 0 then s'.phase[n].Succeeded? else s'.phase[n].Failed?
    ensures forall e :: e in s'.log <==> e in s.log || e == End(n, ret)
    ensures LoggedOk(s', n)
  {
    assert forall e :: e in s'.log <==> e in s.log || e == End(n, ret);
    assert !EndedBadly(s.log, n);
    assert ret != 0 ==> EndedBadly(s'.log, n);
  }

  lemma EndOrdered(t: Tree, s: State, w: nat, ret: nat)
    requires Inv(t, s) && w < |s.workers| && s.workers[w].InRoutine?
    ensures LogOk(t.deps, s.log + [End(s.workers[w].node, ret)])
  {
    var n := s.workers[w].node;
    assert NodeOk(t, s, n) && WorkerOk(t, s, w);
    assert (s.log + [End(n, ret)])[..|s.log|] == s.log;
    forall r ensures End(n, r) !in s.log {
      assert !EndedBadly(s.log, n);
    }
    LogGrows(t.deps, s.log, End(n, ret));
  }

  lemma EndKeeps(t: Tree, s: State, w: nat, ret: nat)
    requires Inv(t, s) && w < |s.workers| && s.workers[w].InRoutine?
    ensures Inv(t, WorkerNext(t, s, w, ret))
  {
    var s' := WorkerNext(t, s, w, ret);
    var n := s.workers[w].node;
    assert NodeOk(t, s, n) && WorkerOk(t, s, w);
    EndMoves(t, s, w, ret);
    EndOrdered(t, s, w, ret);
    if ret == 0 {
      QuietMove(t, s, s', w, n);
    } else {
      FailedMove(t, s, s', w, n);
    }
    MoveKeeps(t, s, s', w, n);
  }

  /** A move after which some node has failed: all that is then claimed of the signals. */
  lemma FailedMove(t: Tree, s: State, s': State, w: nat, n: nat)
    requires Inv(t, s) && Moves(t, s, s', w, n)
    requires s'.phase[n].Failed? && s'.workers[w] != SignalDone && s.workers[w] != SignalDone
    requires s'.numFinished == s.numFinished && s'.finisher == s.finisher
    requires s'.semaphore <= 1 && (s'.semaphore > s.semaphore ==> s'.releases > 0)
    requires s'.returnValue == 0 ==> s.returnValue == 0 && s'.releases == s.releases
    requires s'.releases >= s.releases
    ensures SignalsOk(t, s')
  {
    assert FinishedNodes(s') == FinishedNodes(s);
    UnfinishedNode(t, s', n);
  }

  /** While some node is not finished, the last one has not been counted. */
  lemma UnfinishedNode(t: Tree, s: State, n: nat)
    requires Typed(t, s) && n < |s.phase| && !s.phase[n].Finished?
    ensures |FinishedNodes(s)| < |t.deps|
  {
    var all := Range(|t.deps|);
    assert FinishedNodes(s) <= all - {n};
    SubsetSize(FinishedNodes(s), all - {n});
  }

  lemma {:induction false} SubsetSize<T>(a: set<T>, b: set<T>)
    requires a <= b
    ensures |a| <= |b|
    ensures |a| == |b| ==> a == b
    decreases a
  {
    if a != {} {
      var x :| x in a;
      SubsetSize(a - {x}, b - {x});
    }
  }

  lemma FailureMoves(t: Tree, s: State, w: nat, ret: nat)
    requires Typed(t, s) && w < |s.workers| && (s.workers[w].StoreFailure? || s.workers[w].SignalFailure?)
    requires NodeOk(t, s, s.workers[w].node) && WorkerOk(t, s, w)
    ensures var s' := WorkerNext(t, s, w, ret);
            var n := s.workers[w].node;
            Moves(t, s, s', w, n) && WorkerOk(t, s', w) && NodeOk(t, s', n)
  {
    var s' := WorkerNext(t, s, w, ret);
    FailedStays(t, s, s', s.workers[w].node);
    assert forall n, k | 0 <= n < |t.kids| && 0 <= k < |t.kids[n]| :: !Owes(s'.workers[w], n, k);
  }

  /** What is claimed of a failed node does not depend on the workers. */
  lemma FailedStays(t: Tree, s: State, s': State, n: nat)
    requires Typed(t, s) && Typed(t, s') && n < |s.phase| && s.phase[n].Failed? && NodeOk(t, s, n)
    requires s'.phase == s.phase && s'.counted == s.counted && s'.counters == s.counters
    requires s'.log == s.log && s'.queue == s.queue
    ensures NodeOk(t, s', n)
  {
  }

  lemma StoreKeeps(t: Tree, s: State, w: nat, ret: nat)
    requires Inv(t, s) && w < |s.workers| && s.workers[w].StoreFailure?
    ensures Inv(t, WorkerNext(t, s, w, ret))
  {
    var s' := WorkerNext(t, s, w, ret);
    var n := s.workers[w].node;
    assert NodeOk(t, s, n) && WorkerOk(t, s, w);
    FailureMoves(t, s, w, ret);
    FailedMove(t, s, s', w, n);
    MoveKeeps(t, s, s', w, n);
  }

  lemma SignalFailureKeeps(t: Tree, s: State, w: nat, ret: nat)
    requires Inv(t, s) && w < |s.workers| && s.workers[w].SignalFailure?
    ensures Inv(t, WorkerNext(t, s, w, ret))
  {
    var s' := WorkerNext(t, s, w, ret);
    var n := s.workers[w].node;
    assert NodeOk(t, s, n) && WorkerOk(t, s, w);
    FailureMoves(t, s, w, ret);
    FailedMove(t, s, s', w, n);
    MoveKeeps(t, s, s', w, n);
  }

  /** A child of a node that is not counted yet has not been counted either. */
  lemma ChildUnfinished(t: Tree, s: State, n: nat, k: nat)
    requires WellBuilt(t) && Inv(t, s) && n < |s.phase| && s.phase[n].Succeeded?
    requires k < |t.kids[n]|
    ensures t.kids[n][k].0 != n && !s.phase[t.kids[n][k].0].Finished?
  {
    var d := t.kids[n][k].0;
    assert NodeOk(t, s, d);
    assert Source(t, t.kids[n][k]) == n;
    if s.phase[d].Finished? || d == n {
      assert false;
    }
  }

  /** The last node to be counted has no children left: they would have had to wait for it. */
  lemma LastHasNoDebt(t: Tree, s: State, n: nat, k: nat)
    requires WellBuilt(t) && Inv(t, s) && n < |s.phase| && s.phase[n].Succeeded?
    requires k < |t.kids[n]|
    ensures s.numFinished < |t.deps| - 1
  {
    ChildUnfinished(t, s, n, k);
    var rest := Range(|t.deps|) - {n} - {t.kids[n][k].0};
    assert FinishedNodes(s) <= rest;
    SubsetSize(FinishedNodes(s), rest);
  }

  /** No child has counted a node that has not been counted itself. */
  lemma NotYetCounted(t: Tree, s: State, n: nat, k: nat)
    requires WellBuilt(t) && Inv(t, s) && n < |s.phase| && !s.phase[n].Finished?
    requires k < |t.kids[n]|
    ensures !Counted(s, t.kids[n][k])
  {
    assert NodeOk(t, s, t.kids[n][k].0);
    assert Source(t, t.kids[n][k]) == n;
  }

  /** Node n can be counted: it is the last one only if it has no child. */
  ghost predicate DebtFree(t: Tree, s: State, n: nat)
    requires n < |t.kids|
  {
    && (t.kids[n] != [] ==> s.numFinished < |t.deps| - 1)
    && forall k | 0 <= k < |t.kids[n]| :: !Counted(s, t.kids[n][k])
  }

  lemma SucceededIsDebtFree(t: Tree, s: State, n: nat)
    requires WellBuilt(t) && Inv(t, s) && n < |s.phase| && s.phase[n].Succeeded?
    ensures DebtFree(t, s, n) && s.finisher.None?
  {
    UnfinishedNode(t, s, n);
    if t.kids[n] != [] {
      LastHasNoDebt(t, s, n, 0);
    }
    forall k | 0 <= k < |t.kids[n]| ensures !Counted(s, t.kids[n][k]) {
      NotYetCounted(t, s, n, k);
    }
  }

  lemma CountMovesOnly(t: Tree, s: State, w: nat, ret: nat)
    requires Typed(t, s) && w < |s.workers| && s.workers[w].CountFinished?
    requires WorkerOk(t, s, w) && s.finisher.None?
    ensures Moves(t, s, WorkerNext(t, s, w, ret), w, s.workers[w].node)
  {
  }

  lemma CountMoves(t: Tree, s: State, w: nat, ret: nat)
    requires Typed(t, s) && w < |s.workers| && s.workers[w].CountFinished?
    requires NodeOk(t, s, s.workers[w].node) && WorkerOk(t, s, w) && s.finisher.None?
    requires DebtFree(t, s, s.workers[w].node)
    ensures var s' := WorkerNext(t, s, w, ret);
            var n := s.workers[w].node;
            Moves(t, s, s', w, n) && WorkerOk(t, s', w) && NodeOk(t, s', n)
  {
    CountMovesOnly(t, s, w, ret);
    CountedOk(t, s, WorkerNext(t, s, w, ret), w, s.workers[w].node);
  }

  lemma CountedOk(t: Tree, s: State, s': State, w: nat, n: nat)
    requires Moves(t, s, s', w, n) && NodeOk(t, s, n) && s.phase[n] == Succeeded(w) && DebtFree(t, s, n)
    requires s'.phase[n] == Finished(w) && s'.counters == s.counters && s'.log == s.log && s'.queue == s.queue
    requires s'.workers[w] == CheckReturn(n)
             || (s'.workers[w] == SignalDone && s.numFinished == |t.deps| - 1 && s'.finisher == Some(w))
    ensures WorkerOk(t, s', w) && NodeOk(t, s', n)
  {
    assert forall k | 0 <= k < |t.kids[n]| :: !Counted(s', t.kids[n][k]);
    assert OwnerOk(t, s', n);
  }

  lemma CountIsMove(t: Tree, s: State, w: nat, ret: nat)
    requires WellBuilt(t) && Inv(t, s) && w < |s.workers| && s.workers[w].CountFinished?
    ensures var s' := WorkerNext(t, s, w, ret);
            var n := s.workers[w].node;
            Moves(t, s, s', w, n) && WorkerOk(t, s', w) && NodeOk(t, s', n)
  {
    var n := s.workers[w].node;
    assert NodeOk(t, s, n) && WorkerOk(t, s, w);
    SucceededIsDebtFree(t, s, n);
    CountMoves(t, s, w, ret);
  }

  /** One more node is finished; if some node has failed, it is not the last one. */
  lemma CountGrows(t: Tree, s: State, s': State, n: nat)
    requires Typed(t, s) && Typed(t, s') && n < |s.phase| && s.phase[n].Succeeded? && s'.phase[n].Finished?
    requires s'.phase == s.phase[n := s'.phase[n]]
    ensures |FinishedNodes(s')| == |FinishedNodes(s)| + 1 <= |t.deps|
    ensures AnyFailed(s') == AnyFailed(s)
    ensures AnyFailed(s) ==> |FinishedNodes(s')| < |t.deps|
  {
    UnfinishedNode(t, s, n);
    assert FinishedNodes(s') == FinishedNodes(s) + {n};
    if AnyFailed(s) {
      var m :| 0 <= m < |s.phase| && s.phase[m].Failed?;
      assert s'.phase[m].Failed?;
      UnfinishedNode(t, s', m);
    }
  }

  lemma CountSignals(t: Tree, s: State, w: nat, ret: nat)
    requires Inv(t, s) && w < |s.workers| && s.workers[w].CountFinished?
    ensures SignalsOk(t, WorkerNext(t, s, w, ret))
  {
    var n := s.workers[w].node;
    assert NodeOk(t, s, n) && WorkerOk(t, s, w);
    CountGrows(t, s, WorkerNext(t, s, w, ret), n);
  }

  lemma CountKeeps(t: Tree, s: State, w: nat, ret: nat)
    requires WellBuilt(t) && Inv(t, s) && w < |s.workers| && s.workers[w].CountFinished?
    ensures Inv(t, WorkerNext(t, s, w, ret))
  {
    CountIsMove(t, s, w, ret);
    CountSignals(t, s, w, ret);
    CountLogsNothing(t, s, w, ret);
    UnloggedMoveKeeps(t, s, WorkerNext(t, s, w, ret), w, s.workers[w].node);
  }

  lemma CountLogsNothing(t: Tree, s: State, w: nat, ret: nat)
    requires Typed(t, s) && w < |s.workers| && s.workers[w].CountFinished?
    ensures var s' := WorkerNext(t, s, w, ret); s'.log == s.log && s'.queue == s.queue && s'.overflowed == s.overflowed
  {
  }

  /** A move that leaves log and queue alone. */
  lemma UnloggedMoveKeeps(t: Tree, s: State, s': State, w: nat, n: nat)
    requires Inv(t, s) && Moves(t, s, s', w, n) && WorkerOk(t, s', w) && NodeOk(t, s', n) && SignalsOk(t, s')
    requires s'.log == s.log && s'.queue == s.queue && s'.overflowed == s.overflowed
    ensures Inv(t, s')
  {
    MoveKeeps(t, s, s', w, n);
  }

  // ----- preservation: steps that only move a worker -----

  /** Worker w goes to pc, owing the same edges as before, or none if a failure is recorded. */
  ghost predicate Stays(t: Tree, s: State, s': State, w: nat) {
    && Typed(t, s) && Typed(t, s')
    && w < |s.workers| == |s'.workers|
    && s' == s.(workers := s.workers[w := s'.workers[w]], semaphore := s'.semaphore, releases := s'.releases)
    && (s.workers[w].CheckReturn? || s.workers[w].NextChild? || s.workers[w].SignalDone?)
    && (s'.workers[w].Idle? || s'.workers[w].NextChild?)
    && (forall n, k | 0 <= n < |t.kids| && 0 <= k < |t.kids[n]| ::
          && (Owes(s'.workers[w], n, k) ==> Owes(s.workers[w], n, k))
          && (Owes(s.workers[w], n, k) ==> Owes(s'.workers[w], n, k) || s.returnValue != 0))
  }

  lemma StayKeeps(t: Tree, s: State, s': State, w: nat)
    requires Inv(t, s) && Stays(t, s, s', w) && SignalsOk(t, s')
    ensures Inv(t, s')
  {
    forall v | 0 <= v < |s'.workers| ensures WorkerOk(t, s', v) {
      assert WorkerOk(t, s, v) && WorkerOk(t, s, w);
    }
    forall m | 0 <= m < |s'.phase| ensures NodeOk(t, s', m) {
      assert NodeOk(t, s, m);
    }
  }

  lemma SignalDoneKeeps(t: Tree, s: State, w: nat, ret: nat)
    requires Inv(t, s) && w < |s.workers| && s.workers[w].SignalDone?
    ensures Inv(t, WorkerNext(t, s, w, ret))
  {
    var s' := WorkerNext(t, s, w, ret);
    assert WorkerOk(t, s, w);
    assert FinishedNodes(s') == FinishedNodes(s);
    assert AnyFailed(s') == AnyFailed(s);
    StayKeeps(t, s, s', w);
  }

  lemma CheckReturnKeeps(t: Tree, s: State, w: nat, ret: nat)
    requires Inv(t, s) && w < |s.workers| && s.workers[w].CheckReturn?
    ensures Inv(t, WorkerNext(t, s, w, ret))
  {
    var s' := WorkerNext(t, s, w, ret);
    assert FinishedNodes(s') == FinishedNodes(s);
    assert AnyFailed(s') == AnyFailed(s);
    StayKeeps(t, s, s', w);
  }

  lemma LeaveKeeps(t: Tree, s: State, w: nat, ret: nat)
    requires Inv(t, s) && w < |s.workers| && s.workers[w].NextChild?
    requires s.workers[w].k == |t.kids[s.workers[w].node]|
    ensures Inv(t, WorkerNext(t, s, w, ret))
  {
    var s' := WorkerNext(t, s, w, ret);
    assert FinishedNodes(s') == FinishedNodes(s);
    assert AnyFailed(s') == AnyFailed(s);
    StayKeeps(t, s, s', w);
  }

  // ----- preservation: counting for a child, and pushing it -----

  /** The child's entry is not counted yet, so the child is still blocked. */
  lemma ChildBlocked(t: Tree, s: State, w: nat)
    requires WellBuilt(t) && Inv(t, s) && w < |s.workers| && s.workers[w].NextChild?
    requires s.workers[w].k < |t.kids[s.workers[w].node]|
    ensures var (d, j) := t.kids[s.workers[w].node][s.workers[w].k];
            && s.phase[s.workers[w].node] == Finished(w)
            && IsEntry(t.deps, (d, j)) && t.deps[d][j] == s.workers[w].node
            && j !in s.counted[d] && s.phase[d].Blocked? && s.counters[d] == |s.counted[d]|
  {
    var n, k := s.workers[w].node, s.workers[w].k;
    assert WorkerOk(t, s, w);
    assert Owes(s.workers[w], n, k);
    assert Source(t, t.kids[n][k]) == n;
    assert NodeOk(t, s, t.kids[n][k].0);
  }

  /** Worker w counts entry e, which it owed; nothing else changes but its own program counter and,
      if the entry was the last one, the phase of the blocked child. */
  ghost predicate Counts(t: Tree, s: State, s': State, w: nat, e: Entry) {
    && Typed(t, s) && Typed(t, s')
    && w < |s.workers| && e.0 < |s.phase|
    && s.workers[w].NextChild? && s.workers[w].k < |t.kids[s.workers[w].node]|
    && e == t.kids[s.workers[w].node][s.workers[w].k]
    && s' == s.(workers := s'.workers, counters := s'.counters, counted := s'.counted, phase := s'.phase)
    && |s'.workers| == |s.workers| && s'.workers == s.workers[w := s'.workers[w]]
    && s'.phase == s.phase[e.0 := s'.phase[e.0]]
    && s'.counters == s.counters[e.0 := s'.counters[e.0]]
    && s'.counted == s.counted[e.0 := s.counted[e.0] + {e.1}]
    && s.phase[e.0].Blocked? && (s'.phase[e.0].Blocked? || s'.phase[e.0] == Granted(w))
    && (s'.workers[w] == NextChild(s.workers[w].node, s.workers[w].k + 1)
        || s'.workers[w] == PushChild(s.workers[w].node, s.workers[w].k))
  }

  lemma CountsKeepsWorker(t: Tree, s: State, s': State, w: nat, e: Entry, v: nat)
    requires WellBuilt(t) && Counts(t, s, s', w, e) && s.phase[s.workers[w].node] == Finished(w)
    requires v < |s.workers| && v != w && WorkerOk(t, s, v)
    ensures WorkerOk(t, s', v)
  {
    forall n, k | 0 <= n < |t.kids| && 0 <= k < |t.kids[n]| && Owes(s'.workers[v], n, k)
      ensures s'.phase[n] == Finished(v) && !Counted(s', t.kids[n][k])
    {
      assert s.phase[n] == Finished(v);
      assert Source(t, t.kids[n][k]) == n;
      assert Source(t, e) == s.workers[w].node;
    }
  }

  lemma CountsKeepsSelf(t: Tree, s: State, s': State, w: nat, e: Entry)
    requires WellBuilt(t) && Counts(t, s, s', w, e) && WorkerOk(t, s, w)
    requires s'.workers[w].PushChild? ==> s'.phase[e.0] == Granted(w)
    ensures WorkerOk(t, s', w)
  {
    var n, k := s.workers[w].node, s.workers[w].k;
    forall m, l | 0 <= m < |t.kids| && 0 <= l < |t.kids[m]| && Owes(s'.workers[w], m, l)
      ensures s'.phase[m] == Finished(w) && !Counted(s', t.kids[m][l])
    {
      assert m == n && k < l;
      assert Owes(s.workers[w], m, l);
      assert t.kids[n][k] != t.kids[n][l];
    }
  }

  lemma CountsKeepsOwner(t: Tree, s: State, s': State, w: nat, e: Entry, m: nat)
    requires Counts(t, s, s', w, e) && m < |s.phase| && m != e.0 && OwnerOk(t, s, m)
    ensures OwnerOk(t, s', m)
  {
    if s.phase[m].Finished? && s.phase[m].w == w {
      forall k | 0 <= k < |t.kids[m]|
        ensures Counted(s', t.kids[m][k]) || Owes(s'.workers[w], m, k) || s.returnValue != 0
      {
        assert Counted(s, t.kids[m][k]) || Owes(s.workers[w], m, k) || s.returnValue != 0;
      }
    }
  }

  lemma CountsKeepsNode(t: Tree, s: State, s': State, w: nat, e: Entry, m: nat)
    requires Counts(t, s, s', w, e) && m < |s.phase| && m != e.0 && NodeOk(t, s, m)
    ensures NodeOk(t, s', m)
  {
    CountsKeepsOwner(t, s, s', w, e, m);
  }

  /** What worker w is about to count: its next entry, still uncounted, of a blocked child. */
  ghost predicate NextEntry(t: Tree, s: State, w: nat, e: Entry) {
    && Typed(t, s) && w < |s.workers| && s.workers[w].NextChild?
    && s.workers[w].k < |t.kids[s.workers[w].node]| && e == t.kids[s.workers[w].node][s.workers[w].k]
    && IsEntry(t.deps, e) && t.deps[e.0][e.1] == s.workers[w].node
    && s.phase[s.workers[w].node] == Finished(w)
    && e.1 !in s.counted[e.0] && s.phase[e.0].Blocked? && s.counters[e.0] == |s.counted[e.0]|
  }

  lemma ChildCounts(t: Tree, s: State, w: nat, ret: nat, e: Entry)
    requires NextEntry(t, s, w, e)
    ensures var s' := WorkerNext(t, s, w, ret);
            && Counts(t, s, s', w, e)
            && |s'.counted[e.0]| == s'.counters[e.0] == |s.counted[e.0]| + 1
            && (s'.phase[e.0] == if s'.counters[e.0] == |t.deps[e.0]| then Granted(w) else Blocked)
            && (s'.workers[w].PushChild? <==> s'.phase[e.0] == Granted(w))
  {
  }

  /** The child's own record: it stays blocked until its last entry is counted. */
  lemma CountsKeepsChild(t: Tree, s: State, s': State, w: nat, e: Entry)
    requires NextEntry(t, s, w, e) && Counts(t, s, s', w, e) && NodeOk(t, s, e.0)
    requires |s'.counted[e.0]| == s'.counters[e.0]
    requires s'.phase[e.0] == if s'.counters[e.0] == |t.deps[e.0]| then Granted(w) else Blocked
    requires s'.workers[w].PushChild? <==> s'.phase[e.0] == Granted(w)
    ensures NodeOk(t, s', e.0)
  {
    assert s'.counted[e.0] <= Range(|t.deps[e.0]|);
    SubsetSize(s'.counted[e.0], Range(|t.deps[e.0]|));
    assert CountOk(t, s', e.0);
  }

  lemma ChildCount(t: Tree, s: State, w: nat, ret: nat)
    requires WellBuilt(t) && Inv(t, s) && w < |s.workers| && s.workers[w].NextChild?
    requires s.workers[w].k < |t.kids[s.workers[w].node]|
    ensures var e := t.kids[s.workers[w].node][s.workers[w].k];
            var s' := WorkerNext(t, s, w, ret);
            Counts(t, s, s', w, e) && WorkerOk(t, s', w) && NodeOk(t, s', e.0)
  {
    var e := t.kids[s.workers[w].node][s.workers[w].k];
    var s' := WorkerNext(t, s, w, ret);
    ChildBlocked(t, s, w);
    assert NodeOk(t, s, e.0) && WorkerOk(t, s, w);
    ChildCounts(t, s, w, ret, e);
    CountsKeepsChild(t, s, s', w, e);
    CountsKeepsSelf(t, s, s', w, e);
  }

  lemma CountsKeeps(t: Tree, s: State, s': State, w: nat, e: Entry)
    requires WellBuilt(t) && Inv(t, s) && Counts(t, s, s', w, e)
    requires s.phase[s.workers[w].node] == Finished(w) && t.deps[e.0] != []
    requires WorkerOk(t, s', w) && NodeOk(t, s', e.0)
    ensures Inv(t, s')
  {
    forall v | 0 <= v < |s'.workers| ensures WorkerOk(t, s', v) {
      assert WorkerOk(t, s, v);
      if v != w {
        CountsKeepsWorker(t, s, s', w, e, v);
      }
    }
    forall m | 0 <= m < |s'.phase| ensures NodeOk(t, s', m) {
      assert NodeOk(t, s, m);
      if m != e.0 {
        CountsKeepsNode(t, s, s', w, e, m);
      }
    }
    CountsKeepsRoots(t, s, s', w, e);
    CountsKeepsSignals(t, s, s', w, e);
  }

  lemma CountsKeepsRoots(t: Tree, s: State, s': State, w: nat, e: Entry)
    requires WellBuilt(t) && Counts(t, s, s', w, e) && RootsOk(t, s) && t.deps[e.0] != []
    ensures RootsOk(t, s')
  {
    assert forall i | 0 <= i < |t.roots| :: t.roots[i] in t.roots && t.roots[i] != e.0;
  }

  lemma CountsKeepsSignals(t: Tree, s: State, s': State, w: nat, e: Entry)
    requires Counts(t, s, s', w, e) && SignalsOk(t, s)
    ensures SignalsOk(t, s')
  {
    assert FinishedNodes(s') == FinishedNodes(s);
    assert AnyFailed(s') == AnyFailed(s) by {
      assert forall m | 0 <= m < |s.phase| :: s'.phase[m].Failed? == s.phase[m].Failed?;
    }
  }

  lemma ChildKeeps(t: Tree, s: State, w: nat, ret: nat)
    requires WellBuilt(t) && Inv(t, s) && w < |s.workers| && s.workers[w].NextChild?
    requires s.workers[w].k < |t.kids[s.workers[w].node]|
    ensures Inv(t, WorkerNext(t, s, w, ret))
  {
    ChildBlocked(t, s, w);
    ChildCount(t, s, w, ret);
    CountsKeeps(t, s, WorkerNext(t, s, w, ret), w, t.kids[s.workers[w].node][s.workers[w].k]);
  }

  ghost function Elements(q: seq<nat>): set<nat> {
    set n | n in q
  }

  lemma {:induction false} DistinctSize(q: seq<nat>)
    requires forall k, l | 0 <= k < l < |q| :: q[k] != q[l]
    ensures |Elements(q)| == |q|
  {
    if q != [] {
      var last := |q| - 1;
      DistinctSize(q[..last]);
      assert Elements(q) == Elements(q[..last]) + {q[last]};
    }
  }

  /** The run queue has a free slot for every node that is not in it. */
  lemma QueueHasRoom(t: Tree, s: State, d: nat)
    requires WellBuilt(t) && Typed(t, s) && QueueOk(s) && d < |t.deps| && d !in s.queue
    ensures |s.queue| < |t.deps| <= MAX_NODES
  {
    DistinctSize(s.queue);
    SubsetSize(Elements(s.queue), Range(|t.deps|) - {d});
  }

  /** Node d, blocked or granted to the mover, enters the run queue. */
  ghost predicate Enqueues(t: Tree, s: State, s': State, d: nat) {
    && Typed(t, s) && Typed(t, s') && d < |s.phase|
    && s' == s.(workers := s'.workers, main := s'.main, phase := s'.phase, queue := s.queue + [d])
    && |s'.workers| == |s.workers|
    && s'.phase == s.phase[d := Queued]
    && (s.phase[d].Granted? || s.phase[d].Blocked?)
    && (forall w | 0 <= w < |s.workers| ::
          s'.workers[w] == s.workers[w]
          || (s.workers[w].PushChild? && s.phase[d] == Granted(w)
              && s'.workers[w] == NextChild(s.workers[w].node, s.workers[w].k + 1)))
    && (s.phase[d].Granted? ==> d == Target(t, s, s.phase[d].w) && s'.workers[s.phase[d].w].NextChild?)
  }

  ghost function Target(t: Tree, s: State, w: nat): int
    requires Typed(t, s)
  {
    if w < |s.workers| && s.workers[w].PushChild? then t.kids[s.workers[w].node][s.workers[w].k].0 else -1
  }

  lemma EnqueuesKeepsWorker(t: Tree, s: State, s': State, d: nat, v: nat)
    requires Enqueues(t, s, s', d) && v < |s.workers| && WorkerOk(t, s, v)
    ensures WorkerOk(t, s', v)
  {
    forall n, k | 0 <= n < |t.kids| && 0 <= k < |t.kids[n]| && Owes(s'.workers[v], n, k)
      ensures s'.phase[n] == Finished(v) && !Counted(s', t.kids[n][k])
    {
      assert Owes(s.workers[v], n, k);
    }
  }

  lemma EnqueuesKeepsNode(t: Tree, s: State, s': State, d: nat, m: nat)
    requires Enqueues(t, s, s', d) && m < |s.phase| && m != d && NodeOk(t, s, m)
    ensures NodeOk(t, s', m)
  {
    if s.phase[m].Finished? {
      var w := s.phase[m].w;
      forall k | 0 <= k < |t.kids[m]|
        ensures Counted(s', t.kids[m][k]) || Owes(s'.workers[w], m, k) || s'.returnValue != 0
      {
        assert Counted(s, t.kids[m][k]) || Owes(s.workers[w], m, k) || s.returnValue != 0;
      }
    }
    assert OwnerOk(t, s', m);
  }

  lemma EnqueuesKeepsChild(t: Tree, s: State, s': State, d: nat)
    requires Enqueues(t, s, s', d) && NodeOk(t, s, d)
    requires s.phase[d].Blocked? ==> t.deps[d] == []
    ensures NodeOk(t, s', d)
  {
    assert s'.counted[d] == s.counted[d];
  }

  lemma EnqueuesKeeps(t: Tree, s: State, s': State, d: nat)
    requires Inv(t, s) && Enqueues(t, s, s', d)
    requires s.phase[d].Blocked? ==> t.deps[d] == []
    requires RootsOk(t, s')
    requires s'.main.Returned? <==> s.main.Returned?
    ensures Inv(t, s')
  {
    assert NodeOk(t, s, d);
    forall v | 0 <= v < |s'.workers| ensures WorkerOk(t, s', v) {
      assert WorkerOk(t, s, v);
      EnqueuesKeepsWorker(t, s, s', d, v);
    }
    forall m | 0 <= m < |s'.phase| ensures NodeOk(t, s', m) {
      assert NodeOk(t, s, m);
      if m != d {
        EnqueuesKeepsNode(t, s, s', d, m);
      } else {
        EnqueuesKeepsChild(t, s, s', d);
      }
    }
    EnqueuesKeepsSignals(t, s, s', d);
  }

  lemma EnqueuesKeepsSignals(t: Tree, s: State, s': State, d: nat)
    requires SignalsOk(t, s) && Enqueues(t, s, s', d)
    requires s'.main.Returned? <==> s.main.Returned?
    ensures SignalsOk(t, s')
  {
    assert FinishedNodes(s') == FinishedNodes(s);
    assert AnyFailed(s') == AnyFailed(s) by {
      assert forall m | 0 <= m < |s.phase| :: s'.phase[m].Failed? == s.phase[m].Failed?;
    }
    if s.finisher.Some? && s.finisher.value < |s.workers| {
      assert s'.workers[s.finisher.value] == SignalDone <==> s.workers[s.finisher.value] == SignalDone;
    }
  }

  lemma PushChildKeeps(t: Tree, s: State, w: nat, ret: nat)
    requires WellBuilt(t) && Inv(t, s) && w < |s.workers| && s.workers[w].PushChild?
    ensures Inv(t, WorkerNext(t, s, w, ret))
  {
    var d := t.kids[s.workers[w].node][s.workers[w].k].0;
    assert WorkerOk(t, s, w) && NodeOk(t, s, d);
    QueueHasRoom(t, s, d);
    PushChildEnqueues(t, s, w, ret);
    EnqueuesKeeps(t, s, WorkerNext(t, s, w, ret), d);
  }

  lemma PushChildEnqueues(t: Tree, s: State, w: nat, ret: nat)
    requires Typed(t, s) && w < |s.workers| && s.workers[w].PushChild?
    requires WorkerOk(t, s, w) && |s.queue| < MAX_NODES && RootsOk(t, s)
    requires NodeOk(t, s, t.kids[s.workers[w].node][s.workers[w].k].0)
    ensures var s' := WorkerNext(t, s, w, ret);
            Enqueues(t, s, s', t.kids[s.workers[w].node][s.workers[w].k].0) && RootsOk(t, s') && s'.main == s.main
  {
  }

  lemma PushRootKeeps(t: Tree, s: State)
    requires WellBuilt(t) && Inv(t, s) && s.main.PushRoot? && s.main.k < |t.roots|
    ensures Inv(t, MainNext(t, s))
  {
    var s' := MainNext(t, s);
    var d := t.roots[s.main.k];
    assert d in t.roots && NodeOk(t, s, d);
    QueueHasRoom(t, s, d);
    assert Enqueues(t, s, s', d);
    EnqueuesKeeps(t, s, s', d);
  }

  // ----- preservation: the other steps of ExecuteCommands -----

  lemma MainKeeps(t: Tree, s: State)
    requires WellBuilt(t) && Inv(t, s) && Enabled(t, s, Main) && !s.main.Returned?
    ensures Inv(t, MainNext(t, s))
  {
    if s.main.PushRoot? && s.main.k < |t.roots| {
      PushRootKeeps(t, s);
    } else {
      var s' := MainNext(t, s);
      forall v | 0 <= v < |s'.workers| ensures WorkerOk(t, s', v) {
        assert WorkerOk(t, s, v);
      }
      forall m | 0 <= m < |s'.phase| ensures NodeOk(t, s', m) {
        assert NodeOk(t, s, m);
      }
      assert FinishedNodes(s') == FinishedNodes(s);
      assert AnyFailed(s') == AnyFailed(s);
    }
  }

  /** Once the caller is back with return value 0, every node is finished ... */
  lemma SuccessMeansFinished(t: Tree, s: State)
    requires Inv(t, s) && s.releases > 0 && s.returnValue == 0
    ensures forall n | 0 <= n < |s.phase| :: s.phase[n].Finished?
  {
    SubsetSize(FinishedNodes(s), Range(|t.deps|));
    forall n | 0 <= n < |s.phase| ensures s.phase[n].Finished? {
      assert n in FinishedNodes(s);
    }
  }

  /** ... every counter is back to 0, every entry counted, and no job left. */
  lemma SuccessMeansClean(t: Tree, s: State)
    requires WellBuilt(t) && Inv(t, s) && s.releases > 0 && s.returnValue == 0
    ensures s.queue == []
    ensures forall n | 0 <= n < |s.phase| :: s.counters[n] == 0 && s.counted[n] == Range(|t.deps[n]|)
    ensures forall w | 0 <= w < |s.workers| ::
              && (s.workers[w].Idle? || s.workers[w].CheckReturn? || s.workers[w].NextChild?)
              && (forall n, k | 0 <= n < |t.kids| && 0 <= k < |t.kids[n]| :: !Owes(s.workers[w], n, k))
  {
    assert s.queue != [] ==> s.queue[0] in s.queue;
    SuccessMeansFinished(t, s);
    forall n | 0 <= n < |s.phase|
      ensures s.counters[n] == 0 && s.counted[n] == Range(|t.deps[n]|) && n !in s.queue
    {
      assert NodeOk(t, s, n);
    }
    forall w | 0 <= w < |s.workers|
      ensures s.workers[w].Idle? || s.workers[w].CheckReturn? || s.workers[w].NextChild?
      ensures forall n, k | 0 <= n < |t.kids| && 0 <= k < |t.kids[n]| :: !Owes(s.workers[w], n, k)
    {
      SuccessMeansNoDebt(t, s, w);
    }
  }

  lemma SuccessMeansCounted(t: Tree, s: State, n: nat, k: nat)
    requires WellBuilt(t) && Typed(t, s) && n < |t.kids| && k < |t.kids[n]|
    requires forall n | 0 <= n < |s.phase| :: s.counted[n] == Range(|t.deps[n]|)
    ensures Counted(s, t.kids[n][k])
  {
    var e := t.kids[n][k];
    assert IsEntry(t.deps, e) && e.1 in s.counted[e.0];
  }

  lemma SuccessMeansPast(t: Tree, s: State, w: nat)
    requires Typed(t, s) && SignalsOk(t, s) && s.releases > 0 && s.returnValue == 0 && w < |s.workers| && WorkerOk(t, s, w)
    requires forall n | 0 <= n < |s.phase| :: s.phase[n].Finished?
    ensures s.workers[w].Idle? || s.workers[w].CheckReturn? || s.workers[w].NextChild?
  {
  }

  lemma SuccessMeansNoDebt(t: Tree, s: State, w: nat)
    requires WellBuilt(t) && Inv(t, s) && s.releases > 0 && s.returnValue == 0 && w < |s.workers|
    requires forall n | 0 <= n < |s.phase| :: s.phase[n].Finished? && s.counted[n] == Range(|t.deps[n]|)
    ensures s.workers[w].Idle? || s.workers[w].CheckReturn? || s.workers[w].NextChild?
    ensures forall n, k | 0 <= n < |t.kids| && 0 <= k < |t.kids[n]| :: !Owes(s.workers[w], n, k)
  {
    assert WorkerOk(t, s, w);
    SuccessMeansPast(t, s, w);
    forall n, k | 0 <= n < |t.kids| && 0 <= k < |t.kids[n]| ensures !Owes(s.workers[w], n, k) {
      SuccessMeansCounted(t, s, n, k);
    }
  }

  lemma RestartKeeps(t: Tree, s: State)
    requires WellBuilt(t) && Inv(t, s) && s.main.Returned? && s.returnValue == 0
    ensures Inv(t, MainNext(t, s))
  {
    var s' := MainNext(t, s);
    SuccessMeansFinished(t, s);
    SuccessMeansClean(t, s);
    forall v | 0 <= v < |s'.workers| ensures WorkerOk(t, s', v) {
      assert WorkerOk(t, s, v);
    }
    forall m | 0 <= m < |s'.phase| ensures NodeOk(t, s', m) {
      assert s'.phase[m] == Blocked && s'.counted[m] == {};
      assert t.deps[m] != [] ==> 0 in Range(|t.deps[m]|);
      assert !EndedBadly(s'.log, m);
    }
    assert FinishedNodes(s') == {};
    assert !AnyFailed(s') && !AnyFailed(s);
  }

  lemma InitInv(t: Tree, numThreads: nat)
    requires WellBuilt(t)
    ensures Inv(t, Init(t, numThreads))
  {
    var s := Init(t, numThreads);
    assert forall k | 0 <= k < |t.roots| :: t.roots[k] in t.roots;
    forall n | 0 <= n < |s.phase| ensures NodeOk(t, s, n) {
      assert t.deps[n] != [] ==> 0 in Range(|t.deps[n]|);
      assert !EndedBadly(s.log, n);
    }
    assert FinishedNodes(s) == {};
    assert !AnyFailed(s);
  }

  lemma StepInv(t: Tree, s: State, a: Action)
    requires WellBuilt(t) && Inv(t, s) && Enabled(t, s, a)
    ensures Inv(t, Next(t, s, a))
  {
    match a
    case Main =>
      if s.main.Returned? { RestartKeeps(t, s); } else { MainKeeps(t, s); }
    case Worker(w, ret) =>
      match s.workers[w]
      case Idle => PopKeeps(t, s, w, ret);
      case Popped(_) => ClearKeeps(t, s, w, ret);
      case Cleared(_) => BeginKeeps(t, s, w, ret);
      case InRoutine(_) => EndKeeps(t, s, w, ret);
      case StoreFailure(_, _) => StoreKeeps(t, s, w, ret);
      case SignalFailure(_) => SignalFailureKeeps(t, s, w, ret);
      case CountFinished(_) => CountKeeps(t, s, w, ret);
      case SignalDone => SignalDoneKeeps(t, s, w, ret);
      case CheckReturn(_) => CheckReturnKeeps(t, s, w, ret);
      case NextChild(n, k) =>
        if k == |t.kids[n]| { LeaveKeeps(t, s, w, ret); } else { ChildKeeps(t, s, w, ret); }
      case PushChild(_, _) => PushChildKeeps(t, s, w, ret);
  }

  lemma StepKeepsThreads(t: Tree, s: State, a: Action)
    requires Typed(t, s) && Enabled(t, s, a)
    ensures |Next(t, s, a).workers| == |s.workers|
  {
  }
}
