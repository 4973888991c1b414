/** What the command tree promises of every run: order, at most one run of each routine, room in the
    run queue, termination, completion exactly for acyclic graphs, re-execution, and the effect of
    failing routines. */
module CommandTreeTheorems {
  import opened Options
  import opened DependencyGraph
  import opened CommandTreeRun
  import opened CommandTreeInvariant
  import Runs

  // ----- safety -----

  /** In every execution each routine begins at most once, and only after the routines of all the
      nodes it depends on have returned 0. */
  lemma RunsOnceAfterDependencies(g: Graph, numThreads: nat, s: State, k: nat)
    requires Valid(g) && Reachable(Build(g), numThreads, s) && k < |s.log| && s.log[k].Begin?
    ensures forall l | 0 <= l < |s.log| && l != k :: s.log[l] != s.log[k]
    ensures s.log[k].node < |g|
    ensures forall j | 0 <= j < |g[s.log[k].node]| :: End(g[s.log[k].node][j], 0) in s.log[..k]
  {
    ReachableInv(g, numThreads, s);
    assert EventOk(g, s.log, k);
    BeginsOnce(g, s.log, k);
  }

  lemma BeginsOnce(g: Graph, log: seq<Event>, k: nat)
    requires LogOk(g, log) && k < |log| && log[k].Begin?
    ensures forall l | 0 <= l < |log| && l != k :: log[l] != log[k]
  {
    PrefixesContain(log);
    forall l | 0 <= l < |log| && l != k ensures log[l] != log[k] {
      assert EventOk(g, log, if l < k then k else l);
    }
  }

  /** The run queue is never full when a node is pushed, and holds every node at most once. */
  lemma QueueNeverOverflows(g: Graph, numThreads: nat, s: State)
    requires Valid(g) && Reachable(Build(g), numThreads, s)
    ensures !s.overflowed && |s.queue| <= |g| <= 256
    ensures forall k, l | 0 <= k < l < |s.queue| :: s.queue[k] != s.queue[l]
  {
    ReachableInv(g, numThreads, s);
    DistinctSize(s.queue);
    SubsetSize(Elements(s.queue), Range(|g|));
  }

  /** The completion semaphore is released only when all routines have returned 0 or a failure
      is recorded. */
  lemma ReleaseMeansDone(g: Graph, numThreads: nat, s: State)
    requires Valid(g) && Reachable(Build(g), numThreads, s) && s.releases > 0
    ensures s.returnValue != 0 || forall n | 0 <= n < |g| :: End(n, 0) in s.log
    ensures s.returnValue == 0 ==> s.releases == 1
  {
    ReachableInv(g, numThreads, s);
    if s.returnValue == 0 {
      SuccessMeansFinished(Build(g), s);
      forall n | 0 <= n < |g| ensures End(n, 0) in s.log {
        assert NodeOk(Build(g), s, n);
      }
    }
  }

  /** When the semaphore has been released on the success path, the tree is as the constructor left
      it: counters 0, no job queued, no worker with an edge to count or a node to push. */
  lemma ReadyToExecuteAgain(g: Graph, numThreads: nat, s: State)
    requires Valid(g) && Reachable(Build(g), numThreads, s) && s.releases > 0 && s.returnValue == 0
    ensures s.queue == [] && s.counters == seq(|g|, _ => 0)
    ensures forall w | 0 <= w < |s.workers| ::
              && (s.workers[w].Idle? || s.workers[w].CheckReturn? || s.workers[w].NextChild?)
              && (forall n, k | 0 <= n < |g| && 0 <= k < |ChildEntries(g, n)| :: !Owes(s.workers[w], n, k))
  {
    ReachableInv(g, numThreads, s);
    SuccessMeansClean(Build(g), s);
    forall w, n, k | 0 <= w < |s.workers| && 0 <= n < |g| && 0 <= k < |ChildEntries(g, n)|
      ensures !Owes(s.workers[w], n, k)
    {
      assert k < |Build(g).kids[n]|;
    }
  }

  /** A chain of dependencies: every node depends on the next one. */
  ghost predicate Chain(g: Graph, path: seq<nat>) {
    && path != []
    && (forall i | 0 <= i < |path| :: path[i] < |g|)
    && (forall i | 0 <= i < |path| - 1 :: path[i + 1] in g[path[i]])
  }

  /** No node with a direct or indirect dependency that returned non-zero ever starts. */
  lemma FailureStopsDependents(g: Graph, numThreads: nat, s: State, path: seq<nat>, ret: nat)
    requires Valid(g) && Reachable(Build(g), numThreads, s)
    requires Chain(g, path) && |path| > 1 && ret != 0 && End(path[|path| - 1], ret) in s.log
    ensures Begin(path[0]) !in s.log
  {
    ReachableInv(g, numThreads, s);
    if Begin(path[0]) in s.log {
      AncestorsSucceeded(g, s.log, path, |path| - 1);
      OneEnd(g, s.log, path[|path| - 1], 0, ret);
    }
  }

  lemma PrefixesContain(log: seq<Event>)
    ensures forall k, l | 0 <= k < l <= |log| :: log[k] in log[..l]
  {
    forall k, l | 0 <= k < l <= |log| ensures log[k] in log[..l] {
      assert log[..l][k] == log[k];
    }
  }

  lemma OneEnd(g: Graph, log: seq<Event>, n: nat, r: nat, r': nat)
    requires LogOk(g, log) && End(n, r) in log && End(n, r') in log
    ensures r == r'
  {
    var k :| 0 <= k < |log| && log[k] == End(n, r);
    var l :| 0 <= l < |log| && log[l] == End(n, r');
    PrefixesContain(log);
    assert EventOk(g, log, k) && EventOk(g, log, l);
  }

  lemma {:induction false} AncestorsSucceeded(g: Graph, log: seq<Event>, path: seq<nat>, i: nat)
    requires LogOk(g, log) && Chain(g, path) && Begin(path[0]) in log
    requires 0 < i < |path|
    ensures End(path[i], 0) in log
    decreases i
  {
    if i > 1 {
      AncestorsSucceeded(g, log, path, i - 1);
      var l :| 0 <= l < |log| && log[l] == End(path[i - 1], 0);
      assert EventOk(g, log, l) && Begin(path[i - 1]) in log;
    }
    var k :| 0 <= k < |log| && log[k] == Begin(path[i - 1]);
    assert EventOk(g, log, k);
    assert path[(i - 1) + 1] in g[path[i - 1]];
    var j :| 0 <= j < |g[path[i - 1]]| && g[path[i - 1]][j] == path[i];
    assert End(g[path[i - 1]][j], 0) in log[..k];
  }

  lemma ReachableInv(g: Graph, numThreads: nat, s: State)
    requires Valid(g) && Reachable(Build(g), numThreads, s)
    ensures WellBuilt(Build(g)) && Inv(Build(g), s) && |s.workers| == numThreads
  {
    BuildIsWellBuilt(g);
    var t := Build(g);
    var inv := (x: State) => Inv(t, x) && |x.workers| == numThreads;
    forall x | Initial(t, numThreads)(x) ensures inv(x) {
      InitInv(t, numThreads);
    }
    forall x, y | inv(x) && Steps(t)(x, y) ensures inv(y) {
      var a :| Leads(t, x, a, y);
      StepInv(t, x, a);
      StepKeepsThreads(t, x, a);
    }
    Runs.Invariance(Initial(t, numThreads), Steps(t), inv, s);
  }

  // ----- termination -----

  /** Calling ExecuteCommands again is the one step that does not belong to the current execution. */
  predicate IsRestart(s: State, a: Action) {
    a.Main? && s.main.Returned?
  }

  ghost function PcWork(t: Tree, pc: WorkerPc): nat
    requires TypedPc(t, pc)
  {
    match pc
    case Idle => 0
    case Popped(n) => 2 * |t.kids[n]| + 6
    case Cleared(n) => 2 * |t.kids[n]| + 5
    case InRoutine(n) => 2 * |t.kids[n]| + 4
    case StoreFailure(_, _) => 2
    case SignalFailure(_) => 1
    case CountFinished(n) => 2 * |t.kids[n]| + 3
    case SignalDone => 1
    case CheckReturn(n) => 2 * |t.kids[n]| + 2
    case NextChild(n, k) => 2 * (|t.kids[n]| - k) + 1
    case PushChild(n, k) => 2 * (|t.kids[n]| - k)
  }

  ghost function NodeWork(t: Tree, s: State, n: nat): nat
    requires Typed(t, s) && n < |s.phase|
  {
    if s.phase[n].Blocked? || s.phase[n].Granted? || s.phase[n].Queued? then 2 * |t.kids[n]| + 7 else 0
  }

  ghost function WorkersWork(t: Tree, s: State, v: nat): nat
    requires Typed(t, s) && v <= |s.workers|
  {
    if v == 0 then 0 else WorkersWork(t, s, v - 1) + PcWork(t, s.workers[v - 1])
  }

  ghost function NodesWork(t: Tree, s: State, n: nat): nat
    requires Typed(t, s) && n <= |s.phase|
  {
    if n == 0 then 0 else NodesWork(t, s, n - 1) + NodeWork(t, s, n - 1)
  }

  ghost function MainWork(t: Tree, s: State): nat {
    match s.main
    case PushRoot(k) => if k <= |t.roots| then |t.roots| - k + 2 else 2
    case Waiting => 1
    case Returned => 0
  }

  /** An upper bound on the steps the current execution can still take. */
  ghost function Measure(t: Tree, s: State): nat
    requires Typed(t, s)
  {
    NodesWork(t, s, |s.phase|) + WorkersWork(t, s, |s.workers|) + MainWork(t, s)
  }

  lemma {:induction false} WorkersDiffer(t: Tree, s: State, s': State, w: nat, v: nat)
    requires Typed(t, s) && Typed(t, s') && w < |s.workers| == |s'.workers| && v <= |s.workers|
    requires forall u | 0 <= u < |s.workers| && u != w :: s'.workers[u] == s.workers[u]
    ensures WorkersWork(t, s', v) - WorkersWork(t, s, v)
         == if w < v then PcWork(t, s'.workers[w]) - PcWork(t, s.workers[w]) else 0
  {
    if v > 0 {
      WorkersDiffer(t, s, s', w, v - 1);
    }
  }

  lemma {:induction false} NodesDiffer(t: Tree, s: State, s': State, d: nat, n: nat)
    requires Typed(t, s) && Typed(t, s') && d < |s.phase| && n <= |s.phase|
    requires forall m | 0 <= m < |s.phase| && m != d :: s'.phase[m] == s.phase[m]
    ensures NodesWork(t, s', n) - NodesWork(t, s, n)
         == if d < n then NodeWork(t, s', d) - NodeWork(t, s, d) else 0
  {
    if n > 0 {
      NodesDiffer(t, s, s', d, n - 1);
    }
  }

  /** The node whose phase the step of worker w changes, if any. */
  ghost function Mover(t: Tree, s: State, w: nat): nat
    requires Typed(t, s) && w < |s.workers| && (s.workers[w].Idle? ==> s.queue != [])
  {
    match s.workers[w]
    case Idle => s.queue[0]
    case SignalDone => 0
    case NextChild(n, k) => if k == |t.kids[n]| then 0 else t.kids[n][k].0
    case PushChild(n, k) => t.kids[n][k].0
    case pc => pc.node
  }

  /** Only worker w and the phase of its node change. */
  ghost predicate Frames(t: Tree, s: State, s': State, w: nat)
    requires Typed(t, s) && w < |s.workers| && (s.workers[w].Idle? ==> s.queue != [])
  {
    && |s'.workers| == |s.workers| && |s'.phase| == |s.phase| && s'.main == s.main
    && (s.phase != [] ==> Mover(t, s, w) < |s.phase|)
    && (forall u | 0 <= u < |s.workers| && u != w :: s'.workers[u] == s.workers[u])
    && (forall m | 0 <= m < |s.phase| && m != Mover(t, s, w) :: s'.phase[m] == s.phase[m])
  }

  predicate IsRunning(pc: WorkerPc) {
    pc.Idle? || pc.Popped? || pc.Cleared? || pc.InRoutine? || pc.StoreFailure? || pc.SignalFailure?
  }

  lemma RunningFrame(t: Tree, s: State, w: nat, ret: nat)
    requires Typed(t, s) && Enabled(t, s, Worker(w, ret)) && IsRunning(s.workers[w])
    ensures Frames(t, s, WorkerNext(t, s, w, ret), w)
  {
  }

  lemma CountingFrame(t: Tree, s: State, w: nat, ret: nat)
    requires Typed(t, s) && Enabled(t, s, Worker(w, ret)) && !IsRunning(s.workers[w])
    ensures Frames(t, s, WorkerNext(t, s, w, ret), w)
  {
  }

  lemma WorkerFrame(t: Tree, s: State, w: nat, ret: nat)
    requires Typed(t, s) && Enabled(t, s, Worker(w, ret))
    ensures Frames(t, s, WorkerNext(t, s, w, ret), w)
  {
    if IsRunning(s.workers[w]) {
      RunningFrame(t, s, w, ret);
    } else {
      CountingFrame(t, s, w, ret);
    }
  }

  lemma WorkerUsesWork(t: Tree, s: State, w: nat, ret: nat)
    requires WellBuilt(t) && Inv(t, s) && Enabled(t, s, Worker(w, ret)) && Typed(t, WorkerNext(t, s, w, ret))
    ensures var s' := WorkerNext(t, s, w, ret);
            && Mover(t, s, w) < |s.phase| == |s'.phase| && w < |s'.workers|
            && PcWork(t, s'.workers[w]) + NodeWork(t, s', Mover(t, s, w))
               < PcWork(t, s.workers[w]) + NodeWork(t, s, Mover(t, s, w))
  {
    assert WorkerOk(t, s, w);
    if s.workers[w].Idle? {
      assert s.queue[0] in s.queue && NodeOk(t, s, s.queue[0]);
    } else if s.workers[w].NextChild? && s.workers[w].k < |t.kids[s.workers[w].node]| {
      ChildBlocked(t, s, w);
    }
    if IsRunning(s.workers[w]) {
      RunningUsesWork(t, s, w, ret);
    } else {
      CountingUsesWork(t, s, w, ret);
    }
  }

  lemma RunningUsesWork(t: Tree, s: State, w: nat, ret: nat)
    requires Typed(t, s) && Enabled(t, s, Worker(w, ret)) && Typed(t, WorkerNext(t, s, w, ret))
    requires WorkerOk(t, s, w) && s.phase != [] && IsRunning(s.workers[w])
    requires s.workers[w].Idle? ==> s.phase[s.queue[0]].Queued?
    ensures var s' := WorkerNext(t, s, w, ret);
            && Mover(t, s, w) < |s.phase| == |s'.phase| && w < |s'.workers|
            && PcWork(t, s'.workers[w]) + NodeWork(t, s', Mover(t, s, w))
               < PcWork(t, s.workers[w]) + NodeWork(t, s, Mover(t, s, w))
  {
  }

  lemma CountingUsesWork(t: Tree, s: State, w: nat, ret: nat)
    requires Typed(t, s) && Enabled(t, s, Worker(w, ret)) && Typed(t, WorkerNext(t, s, w, ret))
    requires WorkerOk(t, s, w) && s.phase != [] && !IsRunning(s.workers[w])
    requires s.workers[w].NextChild? && s.workers[w].k < |t.kids[s.workers[w].node]| ==>
               s.phase[t.kids[s.workers[w].node][s.workers[w].k].0].Blocked?
    ensures var s' := WorkerNext(t, s, w, ret);
            && Mover(t, s, w) < |s.phase| == |s'.phase| && w < |s'.workers|
            && PcWork(t, s'.workers[w]) + NodeWork(t, s', Mover(t, s, w))
               < PcWork(t, s.workers[w]) + NodeWork(t, s, Mover(t, s, w))
  {
  }

  /** Every step of an execution uses up some of the measure. */
  lemma StepShrinks(t: Tree, s: State, a: Action)
    requires WellBuilt(t) && Inv(t, s) && Enabled(t, s, a) && !IsRestart(s, a)
    ensures Inv(t, Next(t, s, a)) && Measure(t, Next(t, s, a)) < Measure(t, s)
  {
    StepInv(t, s, a);
    var s' := Next(t, s, a);
    match a
    case Worker(w, ret) =>
      WorkerFrame(t, s, w, ret);
      WorkerUsesWork(t, s, w, ret);
      WorkersDiffer(t, s, s', w, |s.workers|);
      NodesDiffer(t, s, s', Mover(t, s, w), |s.phase|);
    case Main =>
      MainShrinks(t, s);
  }

  lemma MainShrinks(t: Tree, s: State)
    requires WellBuilt(t) && Inv(t, s) && Enabled(t, s, Main) && !s.main.Returned?
    requires Typed(t, MainNext(t, s))
    ensures Measure(t, MainNext(t, s)) < Measure(t, s)
  {
    var s' := MainNext(t, s);
    var d := if s.main.PushRoot? && s.main.k < |t.roots| then t.roots[s.main.k] else 0;
    NodesDiffer(t, s, s', d, |s.phase|);
    if |s.workers| > 0 {
      WorkersDiffer(t, s, s', 0, |s.workers|);
    }
  }

  /** acts is a run of the current execution from s to s'. */
  ghost predicate Execution(t: Tree, s: State, acts: seq<Action>, s': State)
    decreases |acts|
  {
    if acts == [] then s == s'
    else Typed(t, s) && Enabled(t, s, acts[0]) && !IsRestart(s, acts[0]) && Execution(t, Next(t, s, acts[0]), acts[1..], s')
  }

  lemma {:induction false} ExecutionBounded(t: Tree, s: State, acts: seq<Action>, s': State)
    requires WellBuilt(t) && Inv(t, s) && Execution(t, s, acts, s')
    ensures Inv(t, s') && |acts| + Measure(t, s') <= Measure(t, s) && |s'.workers| == |s.workers|
    decreases |acts|
  {
    if acts != [] {
      StepShrinks(t, s, acts[0]);
      StepKeepsThreads(t, s, acts[0]);
      ExecutionBounded(t, Next(t, s, acts[0]), acts[1..], s');
    }
  }

  // ----- progress -----

  /** The dependency relation has a topological numbering. */
  ghost predicate Acyclic(g: Graph) {
    exists rank: seq<nat> :: TopologicalRank(g, rank)
  }

  ghost predicate TopologicalRank(g: Graph, rank: seq<nat>) {
    && |rank| == |g|
    && forall i, j | 0 <= i < |g| && 0 <= j < |g[i]| :: g[i][j] < |g| && rank[g[i][j]] < rank[i]
  }

  ghost predicate NoFailure(s: State) {
    forall n, r | End(n, r) in s.log :: r == 0
  }

  /** The execution is over and was a success. */
  ghost predicate Complete(t: Tree, s: State) {
    && s.main.Returned? && s.returnValue == 0
    && s.releases == 1 && s.semaphore == 0
    && s.queue == []
    && (forall w | 0 <= w < |s.workers| :: s.workers[w].Idle?)
    && (forall n | 0 <= n < |t.deps| :: End(n, 0) in s.log)
  }

  ghost predicate Stuck(t: Tree, s: State)
    requires Typed(t, s)
  {
    forall a | Enabled(t, s, a) :: IsRestart(s, a)
  }

  lemma StuckMeansIdle(t: Tree, s: State)
    requires Inv(t, s) && Stuck(t, s) && |s.workers| >= 1
    ensures s.queue == [] && !s.main.PushRoot? && (s.main.Waiting? ==> s.semaphore == 0)
    ensures forall w | 0 <= w < |s.workers| :: s.workers[w].Idle?
  {
    assert !s.main.Returned? ==> !Enabled(t, s, Main);
    forall w | 0 <= w < |s.workers| ensures s.workers[w].Idle? && s.queue == [] {
      assert !Enabled(t, s, Worker(w, 0));
    }
    assert s.workers[0].Idle?;
  }

  lemma NoFailureMeansNoneFailed(t: Tree, s: State)
    requires Inv(t, s) && NoFailure(s)
    ensures !AnyFailed(s) && s.returnValue == 0
  {
    forall n | 0 <= n < |s.phase| ensures !s.phase[n].Failed? {
      assert NodeOk(t, s, n);
    }
  }

  /** In a stuck state without failures every node is finished: by induction on its rank, all its
      dependencies are, so all its entries are counted. */
  lemma {:induction false} StuckMeansFinished(t: Tree, s: State, rank: seq<nat>, n: nat)
    requires WellBuilt(t) && Inv(t, s) && !AnyFailed(s) && s.returnValue == 0
    requires s.queue == [] && !s.main.PushRoot? && forall w | 0 <= w < |s.workers| :: s.workers[w].Idle?
    requires TopologicalRank(t.deps, rank) && n < |t.deps|
    ensures s.phase[n].Finished?
    decreases rank[n]
  {
    forall j | 0 <= j < |t.deps[n]| ensures j in s.counted[n] {
      StuckMeansFinished(t, s, rank, t.deps[n][j]);
      IdleMeansCounted(t, s, n, j);
    }
    IdleMeansFinished(t, s, n);
  }

  /** If nobody works, a finished node has been counted by all its children ... */
  lemma IdleMeansCounted(t: Tree, s: State, n: nat, j: nat)
    requires WellBuilt(t) && Inv(t, s) && s.returnValue == 0
    requires forall w | 0 <= w < |s.workers| :: s.workers[w].Idle?
    requires IsEntry(t.deps, (n, j)) && s.phase[t.deps[n][j]].Finished?
    ensures j in s.counted[n]
  {
    var d := t.deps[n][j];
    var k :| 0 <= k < |t.kids[d]| && t.kids[d][k] == (n, j);
    assert NodeOk(t, s, d);
    assert Counted(s, t.kids[d][k]);
  }

  /** ... and a node whose entries are all counted is finished. */
  lemma IdleMeansFinished(t: Tree, s: State, n: nat)
    requires WellBuilt(t) && Inv(t, s) && !AnyFailed(s) && s.queue == [] && !s.main.PushRoot?
    requires forall w | 0 <= w < |s.workers| :: s.workers[w].Idle?
    requires n < |t.deps| && forall j | 0 <= j < |t.deps[n]| :: j in s.counted[n]
    ensures s.phase[n].Finished?
  {
    assert NodeOk(t, s, n);
    assert s.counted[n] == Range(|t.deps[n]|);
    if t.deps[n] == [] {
      var i :| 0 <= i < |t.roots| && t.roots[i] == n;
      assert !s.phase[t.roots[i]].Blocked?;
    }
  }

  /** With at least one worker, an acyclic graph and no failing routine, an execution that is not
      complete has a next step. */
  lemma Progress(t: Tree, s: State)
    requires WellBuilt(t) && Inv(t, s) && NoFailure(s) && Acyclic(t.deps) && |s.workers| >= 1
    requires Stuck(t, s)
    ensures Complete(t, s)
  {
    StuckMeansIdle(t, s);
    NoFailureMeansNoneFailed(t, s);
    var rank :| TopologicalRank(t.deps, rank);
    forall n | 0 <= n < |t.deps| ensures s.phase[n].Finished? && End(n, 0) in s.log {
      StuckMeansFinished(t, s, rank, n);
      assert NodeOk(t, s, n);
    }
    assert FinishedNodes(s) == Range(|t.deps|);
  }

  /** Main result: from every reachable state, in every interleaving, the current execution takes at
      most Measure steps; and if no routine fails, it can only end complete, with every routine run
      and the completion semaphore released exactly once. */
  lemma EveryExecutionCompletes(g: Graph, numThreads: nat, s: State, acts: seq<Action>, s': State)
    requires Valid(g) && Acyclic(g) && numThreads >= 1
    requires Reachable(Build(g), numThreads, s) && Execution(Build(g), s, acts, s') && NoFailure(s')
    ensures Typed(Build(g), s) && |acts| <= Measure(Build(g), s)
    ensures Typed(Build(g), s') && (Stuck(Build(g), s') ==> Complete(Build(g), s'))
  {
    ReachableInv(g, numThreads, s);
    BuildIsWellBuilt(g);
    ExecutionBounded(Build(g), s, acts, s');
    if Stuck(Build(g), s') {
      Progress(Build(g), s');
    }
  }

  // ----- completion exactly for acyclic graphs -----

  lemma GoodStepExists(t: Tree, s: State) returns (a: Action)
    requires Typed(t, s) && !Stuck(t, s)
    ensures Enabled(t, s, a) && !IsRestart(s, a) && (a.Worker? ==> a.ret == 0)
  {
    var b :| Enabled(t, s, b) && !IsRestart(s, b);
    a := if b.Worker? then Worker(b.w, 0) else Main;
    assert Enabled(t, s, a);
  }

  lemma GoodStepNoFailure(t: Tree, s: State, a: Action)
    requires Typed(t, s) && Enabled(t, s, a) && NoFailure(s) && (a.Worker? ==> a.ret == 0)
    ensures NoFailure(Next(t, s, a))
  {
    var s' := Next(t, s, a);
    if a.Worker? {
      assert s'.log == s.log || exists e :: s'.log == s.log + [e] && (e.End? ==> e.ret == 0);
    }
  }

  /** A step that can be taken, with a routine returning 0 if the step is a routine's return. */
  lemma GoodStep(g: Graph, numThreads: nat, s: State) returns (s': State)
    requires Valid(g) && Reachable(Build(g), numThreads, s) && NoFailure(s)
    requires Typed(Build(g), s) && !Stuck(Build(g), s)
    ensures Reachable(Build(g), numThreads, s') && NoFailure(s')
    ensures Typed(Build(g), s') && Measure(Build(g), s') < Measure(Build(g), s)
  {
    var t := Build(g);
    var a := GoodStepExists(t, s);
    s' := Next(t, s, a);
    GoodStepNoFailure(t, s, a);
    assert Leads(t, s, a, s');
    Runs.StepReachable(Initial(t, numThreads), Steps(t), s, s');
    ReachableInv(g, numThreads, s);
    StepShrinks(t, s, a);
  }

  lemma {:induction false} CanRunToTheEnd(g: Graph, numThreads: nat, s: State) returns (s': State)
    requires Valid(g) && Reachable(Build(g), numThreads, s) && NoFailure(s) && Typed(Build(g), s)
    ensures Reachable(Build(g), numThreads, s') && NoFailure(s')
    ensures Typed(Build(g), s') && Stuck(Build(g), s')
    decreases Measure(Build(g), s)
  {
    if Stuck(Build(g), s) {
      s' := s;
    } else {
      var s1 := GoodStep(g, numThreads, s);
      s' := CanRunToTheEnd(g, numThreads, s1);
    }
  }

  /** The order in which the routines began is a topological numbering. */
  lemma CompleteMeansAcyclic(t: Tree, s: State)
    requires WellBuilt(t) && Inv(t, s) && Complete(t, s)
    ensures Acyclic(t.deps)
  {
    var rank := seq(|t.deps|, n requires 0 <= n < |t.deps| => BeginIndex(t, s, n));
    forall i, j | 0 <= i < |t.deps| && 0 <= j < |t.deps[i]| ensures rank[t.deps[i][j]] < rank[i] {
      var d := t.deps[i][j];
      assert EventOk(t.deps, s.log, rank[i]);
      var e :| 0 <= e < rank[i] && s.log[..rank[i]][e] == End(d, 0);
      assert EventOk(t.deps, s.log, e);
      var b :| 0 <= b < e && s.log[..e][b] == Begin(d);
      BeginsOnce(t.deps, s.log, rank[d]);
      assert b == rank[d];
    }
    assert TopologicalRank(t.deps, rank);
  }

  ghost function BeginIndex(t: Tree, s: State, n: nat): (k: nat)
    requires WellBuilt(t) && Inv(t, s) && Complete(t, s) && n < |t.deps|
    ensures k < |s.log| && s.log[k] == Begin(n)
  {
    assert NodeOk(t, s, n);
    var k: nat :| k < |s.log| && s.log[k] == Begin(n);
    k
  }

  /** An execution can complete if and only if the dependency graph is acyclic. */
  lemma CompletesIffAcyclic(g: Graph, numThreads: nat)
    requires Valid(g) && numThreads >= 1
    ensures (exists s :: Reachable(Build(g), numThreads, s) && Complete(Build(g), s)) <==> Acyclic(g)
  {
    BuildIsWellBuilt(g);
    var t := Build(g);
    if s :| Reachable(t, numThreads, s) && Complete(t, s) {
      ReachableInv(g, numThreads, s);
      CompleteMeansAcyclic(t, s);
    }
    if Acyclic(g) {
      InitInv(t, numThreads);
      Runs.InitReachable(Initial(t, numThreads), Steps(t), Init(t, numThreads));
      var s := CanRunToTheEnd(g, numThreads, Init(t, numThreads));
      ReachableInv(g, numThreads, s);
      Progress(t, s);
    }
  }

  /** Two nodes that depend on each other pass the constructor, and never complete. */
  lemma CycleNeverCompletes(numThreads: nat)
    requires numThreads >= 1
    ensures Valid([[1], [0]])
    ensures !exists s :: Reachable(Build([[1], [0]]), numThreads, s) && Complete(Build([[1], [0]]), s)
  {
    var g := [[1], [0]];
    assert g[0][0] == 1 && g[1][0] == 0;
    if rank :| TopologicalRank(g, rank) {
      assert false;
    }
    CompletesIffAcyclic(g, numThreads);
  }
}
