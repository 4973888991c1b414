/** Executions in which a routine fails: the caller of ExecuteCommands always returns, with a non-zero value. */
module CommandTreeFailure {
  import opened DependencyGraph
  import opened CommandTreeRun
  import opened CommandTreeInvariant
  import opened CommandTreeTheorems
  import Runs

  predicate Reports(pc: WorkerPc, n: nat) {
    (pc.StoreFailure? || pc.SignalFailure?) && pc.node == n
  }

  /** The failure of node n has been recorded and signalled, or a worker is about to do so. */
  ghost predicate FailureKnown(s: State, n: nat) {
    (s.releases > 0 && s.returnValue != 0) || exists w :: 0 <= w < |s.workers| && Reports(s.workers[w], n)
  }

  ghost predicate FailureOk(s: State) {
    && (s.releases > 0 ==> s.semaphore == 1 || s.main.Returned?)
    && forall n | 0 <= n < |s.phase| && s.phase[n].Failed? :: FailureKnown(s, n)
  }

  /** What a worker's step does to the failures: only the return of a routine adds one, and its worker reports it. */
  ghost predicate KeepsReports(s: State, s': State, w: nat) {
    && w < |s'.workers| == |s.workers| && |s'.phase| == |s.phase| && s'.main == s.main
    && (forall v | 0 <= v < |s.workers| && v != w :: s'.workers[v] == s.workers[v])
    && (forall n | 0 <= n < |s.phase| && s'.phase[n].Failed? && !s.phase[n].Failed? :: Reports(s'.workers[w], n))
    && (s.returnValue != 0 ==> s'.returnValue != 0) && s'.releases >= s.releases
    && (s'.releases > s.releases ==> s'.semaphore == 1) && s'.semaphore >= (if s.semaphore == 1 then 1 else 0)
    && (s'.semaphore == s.semaphore || s'.semaphore == 1)
  }

  lemma RunningFailures(t: Tree, s: State, w: nat, ret: nat)
    requires Typed(t, s) && Enabled(t, s, Worker(w, ret)) && WorkerOk(t, s, w) && IsRunning(s.workers[w])
    ensures KeepsReports(s, WorkerNext(t, s, w, ret), w)
  {
  }

  lemma CountingFailures(t: Tree, s: State, w: nat, ret: nat)
    requires Typed(t, s) && Enabled(t, s, Worker(w, ret)) && WorkerOk(t, s, w) && !IsRunning(s.workers[w])
    ensures KeepsReports(s, WorkerNext(t, s, w, ret), w)
  {
  }

  lemma WorkerFailures(t: Tree, s: State, w: nat, ret: nat)
    requires Typed(t, s) && Enabled(t, s, Worker(w, ret)) && WorkerOk(t, s, w)
    ensures KeepsReports(s, WorkerNext(t, s, w, ret), w)
  {
    if IsRunning(s.workers[w]) {
      RunningFailures(t, s, w, ret);
    } else {
      CountingFailures(t, s, w, ret);
    }
  }

  lemma WorkerReports(t: Tree, s: State, w: nat, ret: nat, n: nat)
    requires Typed(t, s) && Enabled(t, s, Worker(w, ret)) && WorkerOk(t, s, w) && Reports(s.workers[w], n)
    ensures FailureKnown(WorkerNext(t, s, w, ret), n)
  {
    var s' := WorkerNext(t, s, w, ret);
    assert Reports(s'.workers[w], n) || (s'.releases > 0 && s'.returnValue != 0);
  }

  lemma WorkerKeepsFailures(t: Tree, s: State, w: nat, ret: nat)
    requires Inv(t, s) && FailureOk(s) && Enabled(t, s, Worker(w, ret))
    ensures FailureOk(WorkerNext(t, s, w, ret))
  {
    var s' := WorkerNext(t, s, w, ret);
    assert WorkerOk(t, s, w);
    WorkerFailures(t, s, w, ret);
    forall n | 0 <= n < |s'.phase| && s'.phase[n].Failed? ensures FailureKnown(s', n) {
      if !s.phase[n].Failed? {
        assert Reports(s'.workers[w], n);
      } else if !(s.releases > 0 && s.returnValue != 0) {
        var v :| 0 <= v < |s.workers| && Reports(s.workers[v], n);
        if v == w {
          WorkerReports(t, s, w, ret, n);
        } else {
          assert Reports(s'.workers[v], n);
        }
      }
    }
  }

  lemma MainKeepsFailures(t: Tree, s: State)
    requires Inv(t, s) && FailureOk(s) && Enabled(t, s, Main)
    ensures FailureOk(MainNext(t, s))
  {
    var s' := MainNext(t, s);
    forall n | 0 <= n < |s'.phase| && s'.phase[n].Failed? ensures FailureKnown(s', n) {
      assert s.phase[n].Failed? && FailureKnown(s, n) && s'.workers == s.workers;
    }
  }

  lemma StepKeepsFailures(t: Tree, s: State, a: Action)
    requires Inv(t, s) && FailureOk(s) && Enabled(t, s, a)
    ensures FailureOk(Next(t, s, a))
  {
    match a
    case Worker(w, ret) => WorkerKeepsFailures(t, s, w, ret);
    case Main => MainKeepsFailures(t, s);
  }

  lemma ReachableFailures(g: Graph, numThreads: nat, s: State)
    requires Valid(g) && Reachable(Build(g), numThreads, s)
    ensures WellBuilt(Build(g)) && Inv(Build(g), s) && FailureOk(s) && |s.workers| == numThreads
  {
    BuildIsWellBuilt(g);
    var t := Build(g);
    var inv := (x: State) => Inv(t, x) && FailureOk(x);
    forall x | Initial(t, numThreads)(x) ensures inv(x) {
      InitInv(t, numThreads);
    }
    forall x, y | inv(x) && Steps(t)(x, y) ensures inv(y) {
      var a :| Leads(t, x, a, y);
      StepInv(t, x, a);
      StepKeepsFailures(t, x, a);
    }
    Runs.Invariance(Initial(t, numThreads), Steps(t), inv, s);
    ReachableInv(g, numThreads, s);
  }

  /** A stuck state with a failed node: the caller has returned, and the value is non-zero. */
  lemma StuckAfterFailure(t: Tree, s: State)
    requires Inv(t, s) && FailureOk(s) && Stuck(t, s) && |s.workers| >= 1 && AnyFailed(s)
    ensures s.main.Returned? && s.returnValue != 0
  {
    StuckMeansIdle(t, s);
    var n :| 0 <= n < |s.phase| && s.phase[n].Failed?;
    assert FailureKnown(s, n);
  }

  lemma FailureIsLogged(t: Tree, s: State)
    requires Inv(t, s) && !NoFailure(s)
    ensures AnyFailed(s)
  {
    var n, r :| End(n, r) in s.log && r != 0;
    var k :| 0 <= k < |s.log| && s.log[k] == End(n, r);
    assert EventOk(t.deps, s.log, k);
    var b :| 0 <= b < k && s.log[..k][b] == Begin(n);
    assert EventOk(t.deps, s.log, b);
    assert NodeOk(t, s, n) && EndedBadly(s.log, n);
  }

  lemma {:induction false} ExecutionKeepsFailures(t: Tree, s: State, acts: seq<Action>, s': State)
    requires WellBuilt(t) && Inv(t, s) && FailureOk(s) && Execution(t, s, acts, s')
    ensures FailureOk(s')
    decreases |acts|
  {
    if acts != [] {
      StepInv(t, s, acts[0]);
      StepKeepsFailures(t, s, acts[0]);
      ExecutionKeepsFailures(t, Next(t, s, acts[0]), acts[1..], s');
    }
  }

  /** Main result: whatever the graph, an execution in which some routine returns non-zero is finite too, and
      can only end with the caller returned and a non-zero value. */
  lemma FailedExecutionEnds(g: Graph, numThreads: nat, s: State, acts: seq<Action>, s': State)
    requires Valid(g) && numThreads >= 1
    requires Reachable(Build(g), numThreads, s) && Execution(Build(g), s, acts, s') && !NoFailure(s')
    ensures Typed(Build(g), s) && |acts| <= Measure(Build(g), s)
    ensures Typed(Build(g), s') && (Stuck(Build(g), s') ==> s'.main.Returned? && s'.returnValue != 0)
  {
    ReachableFailures(g, numThreads, s);
    ExecutionBounded(Build(g), s, acts, s');
    ExecutionKeepsFailures(Build(g), s, acts, s');
    if Stuck(Build(g), s') {
      FailureIsLogged(Build(g), s');
      StuckAfterFailure(Build(g), s');
    }
  }

  // ----- the value returned -----

  /** Some routine of this execution returned r. */
  ghost predicate WasReturned(log: seq<Event>, r: nat) {
    exists n :: End(n, r) in log
  }

  ghost predicate ReturnOk(s: State) {
    && (s.returnValue != 0 ==> WasReturned(s.log, s.returnValue))
    && (forall w | 0 <= w < |s.workers| && s.workers[w].StoreFailure? :: End(s.workers[w].node, s.workers[w].ret) in s.log)
  }

  lemma WorkerLogs(t: Tree, s: State, w: nat, ret: nat)
    requires Typed(t, s) && Enabled(t, s, Worker(w, ret))
    ensures var s' := WorkerNext(t, s, w, ret);
            && s.log <= s'.log && w < |s'.workers|
            && (s'.workers[w].StoreFailure? ==> End(s'.workers[w].node, s'.workers[w].ret) in s'.log)
            && s'.returnValue == if s.workers[w].StoreFailure? then s.workers[w].ret else s.returnValue
  {
  }

  lemma WorkerKeepsReturn(t: Tree, s: State, w: nat, ret: nat)
    requires Typed(t, s) && ReturnOk(s) && Enabled(t, s, Worker(w, ret))
    ensures ReturnOk(WorkerNext(t, s, w, ret))
  {
    var s' := WorkerNext(t, s, w, ret);
    WorkerFrame(t, s, w, ret);
    WorkerLogs(t, s, w, ret);
    assert forall e :: e in s.log ==> e in s'.log;
    if s.workers[w].StoreFailure? {
      assert End(s.workers[w].node, s'.returnValue) in s'.log;
    } else if s.returnValue != 0 {
      var n :| End(n, s.returnValue) in s.log;
      assert End(n, s'.returnValue) in s'.log;
    }
  }

  lemma StepKeepsReturn(t: Tree, s: State, a: Action)
    requires WellBuilt(t) && Inv(t, s) && ReturnOk(s) && Enabled(t, s, a)
    ensures ReturnOk(Next(t, s, a))
  {
    match a
    case Worker(w, ret) => WorkerKeepsReturn(t, s, w, ret);
    case Main =>
      if s.main.Returned? {
        SuccessMeansClean(t, s);
      }
  }

  /** The value that ExecuteCommands returns, if it is not 0, is what one of the routines it called returned. */
  lemma ReturnsARoutinesValue(g: Graph, numThreads: nat, s: State)
    requires Valid(g) && Reachable(Build(g), numThreads, s) && s.returnValue != 0
    ensures WasReturned(s.log, s.returnValue)
  {
    BuildIsWellBuilt(g);
    var t := Build(g);
    var inv := (x: State) => Inv(t, x) && ReturnOk(x);
    forall x | Initial(t, numThreads)(x) ensures inv(x) {
      InitInv(t, numThreads);
    }
    forall x, y | inv(x) && Steps(t)(x, y) ensures inv(y) {
      var a :| Leads(t, x, a, y);
      StepInv(t, x, a);
      StepKeepsReturn(t, x, a);
    }
    Runs.Invariance(Initial(t, numThreads), Steps(t), inv, s);
  }
}
