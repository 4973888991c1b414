/** ExecuteCommands on the real worker loop always returns; when it returns 0 every routine has run and no worker holds
    a job. */
module CommandTreeOnPoolTheorems {
  import opened DependencyGraph
  import opened CommandTreeOnPool
  import Tree = CommandTreeRun
  import TreeInv = CommandTreeInvariant
  import TreeRuns = CommandTreeTheorems
  import TreeFailure = CommandTreeFailure
  import Pool = ThreadPool
  import Runs

  // ----- a call of ExecuteCommands is finite -----

  /** The caller has returned, and calls ExecuteCommands again. */
  predicate IsRestart(s: State, a: Action) {
    a.CallerStep? && s.joined
  }

  function EnqueueWork(producers: seq<Pool.Producer>): nat {
    if producers == [] then 0
    else EnqueueWork(producers[..|producers| - 1]) + ProducerWork(producers[|producers| - 1])
  }

  function ProducerWork(p: Pool.Producer): nat {
    match p
    case PIdle => 0
    case ToRelease => 13
    case Pushed => 14
  }

  /** What Start, Pause and Join have yet to do in this call. */
  function CallerWork(pool: Pool.State, main: Tree.MainPc, joined: bool): nat {
    match pool.controller
    case StartSet(_) => 13 * |pool.workers| + 7
    case Starting(_, i) => (if i <= |pool.workers| then 13 * (|pool.workers| - i) else 0) + 6
    case PauseSet => 4
    case JoinTest => 2
    case JoinWait => 1
    case CIdle =>
      if joined then 0
      else if pool.run == Pool.Running then 5
      else if main.PushRoot? then 13 * |pool.workers| + 8
      else 3
  }

  /** The pool's part of the measure. */
  ghost function PoolPart(pool: Pool.State, main: Tree.MainPc, joined: bool): nat {
    4 * Pool.Measure(pool) + EnqueueWork(pool.producers) + CallerWork(pool, main, joined) + if pool.parent > 0 then 3 else 0
  }

  /** An upper bound on the steps that are left of this call. */
  ghost function Measure(t: Tree.Tree, s: State): nat
    requires Typed(t, s)
  {
    100 * TreeRuns.Measure(t, s.tree) + PoolPart(s.pool, s.tree.main, s.joined)
  }

  lemma {:induction false} EnqueueUpdate(producers: seq<Pool.Producer>, p: nat, pc: Pool.Producer)
    requires p < |producers|
    ensures EnqueueWork(producers[p := pc]) - EnqueueWork(producers) == ProducerWork(pc) - ProducerWork(producers[p])
    decreases |producers|
  {
    var last := |producers| - 1;
    if p < last {
      EnqueueUpdate(producers[..last], p, pc);
      assert producers[p := pc][..last] == producers[..last][p := pc];
    } else {
      assert producers[p := pc][..last] == producers[..last];
    }
  }

  lemma LoopFrame(pool: Pool.State, w: nat)
    requires Pool.Enabled(MAX_NODES, pool, Pool.WorkerStep(w))
    ensures var pool' := OnPool(pool, Pool.WorkerStep(w));
            && pool' == Pool.WorkerNext(pool, w) && pool'.run == pool.run && pool'.controller == pool.controller
            && pool'.producers == pool.producers && |pool'.workers| == |pool.workers|
  {
  }

  lemma LoopShrinksPool(pool: Pool.State, main: Tree.MainPc, joined: bool, w: nat)
    requires Pool.Enabled(MAX_NODES, pool, Pool.WorkerStep(w))
    ensures PoolPart(OnPool(pool, Pool.WorkerStep(w)), main, joined) < PoolPart(pool, main, joined)
  {
    LoopFrame(pool, w);
    Pool.WorkerShrinks(pool, w);
  }

  lemma LoopShrinks(t: Tree.Tree, s: State, w: nat)
    requires TreeInv.WellBuilt(t) && Inv(t, s) && Typed(t, s) && Enabled(s, LoopStep(w))
    requires Typed(t, Next(t, s, LoopStep(w)))
    ensures Measure(t, Next(t, s, LoopStep(w))) < Measure(t, s)
  {
    LoopShrinksPool(s.pool, s.tree.main, s.joined, w);
    if Pops(s, w) {
      TreeRuns.WorkerFrame(t, s.tree, w, 0);
      TreeRuns.StepShrinks(t, s.tree, Tree.Worker(w, 0));
    }
  }

  /** A push adds less to the pool's part of the measure than it takes from the tree's. */
  lemma PushAdds(pool: Pool.State, main: Tree.MainPc, main': Tree.MainPc, joined: bool, p: nat, job: nat)
    requires Pool.Enabled(MAX_NODES, pool, Pool.BeginEnqueue(p, job))
    requires main' == main || (pool.controller.CIdle? && pool.run == Pool.Running)
    ensures PoolPart(OnPool(pool, Pool.BeginEnqueue(p, job)), main', joined) == PoolPart(pool, main, joined) + 42
  {
    EnqueueUpdate(pool.producers, p, Pool.Pushed);
  }

  lemma JobShrinks(t: Tree.Tree, s: State, w: nat, ret: nat)
    requires TreeInv.WellBuilt(t) && Inv(t, s) && Typed(t, s) && Enabled(s, JobStep(w, ret))
    requires Typed(t, Next(t, s, JobStep(w, ret)))
    ensures Measure(t, Next(t, s, JobStep(w, ret))) < Measure(t, s)
  {
    TreeRuns.WorkerFrame(t, s.tree, w, ret);
    TreeRuns.StepShrinks(t, s.tree, Tree.Worker(w, ret));
    if s.tree.workers[w].PushChild? {
      TreeQueue(t, s.tree, w, ret);
      PushAdds(s.pool, s.tree.main, s.tree.main, s.joined, w, t.kids[s.tree.workers[w].node][s.tree.workers[w].k].0);
    }
  }

  lemma EnqueueShrinksPool(pool: Pool.State, main: Tree.MainPc, joined: bool, p: nat)
    requires Pool.Enabled(MAX_NODES, pool, Pool.ProducerStep(p))
    ensures PoolPart(OnPool(pool, Pool.ProducerStep(p)), main, joined) < PoolPart(pool, main, joined)
  {
    EnqueueUpdate(pool.producers, p, OnPool(pool, Pool.ProducerStep(p)).producers[p]);
  }

  lemma ControllerShrinksPool(pool: Pool.State, main: Tree.MainPc, joined: bool, joined': bool)
    requires Pool.Enabled(MAX_NODES, pool, Pool.ControllerStep) && !joined && Pool.Inv(pool)
    requires joined' == (pool.controller.JoinTest? && OnPool(pool, Pool.ControllerStep).controller.CIdle?)
    requires pool.controller.PauseSet? ==> !main.PushRoot?
    ensures PoolPart(OnPool(pool, Pool.ControllerStep), main, joined') < PoolPart(pool, main, joined)
  {
    if pool.controller.Starting? && pool.controller.i < |pool.workers| {
      Pool.WorkUpdate(pool.workers, pool.controller.i, Pool.Top);
    }
  }

  lemma ControllerShrinks(t: Tree.Tree, s: State)
    requires Inv(t, s) && Typed(t, s) && CallerEnabled(s) && !s.pool.controller.CIdle?
    requires Typed(t, CallerNext(t, s))
    ensures Measure(t, CallerNext(t, s)) < Measure(t, s)
  {
    ControllerShrinksPool(s.pool, s.tree.main, s.joined, CallerNext(t, s).joined);
  }

  lemma RootShrinks(t: Tree.Tree, s: State)
    requires TreeInv.WellBuilt(t) && Inv(t, s) && Typed(t, s) && CallerEnabled(s) && s.pool.controller.CIdle? && !s.joined
    requires Typed(t, CallerNext(t, s)) && s.tree.main.PushRoot? && s.pool.run == Pool.Running
    ensures Measure(t, CallerNext(t, s)) < Measure(t, s)
  {
    TreeRuns.StepShrinks(t, s.tree, Tree.Main);
    if s.tree.main.k < |t.roots| {
      RootHasRoom(t, s.tree);
      PushAdds(s.pool, s.tree.main, Tree.PushRoot(s.tree.main.k + 1), false, CallerOf(s), t.roots[s.tree.main.k]);
    }
  }

  lemma CallerShrinks(t: Tree.Tree, s: State)
    requires TreeInv.WellBuilt(t) && Inv(t, s) && Typed(t, s) && CallerEnabled(s) && s.pool.controller.CIdle? && !s.joined
    requires Typed(t, CallerNext(t, s))
    ensures Measure(t, CallerNext(t, s)) < Measure(t, s)
  {
    if s.tree.main.PushRoot? && s.pool.run == Pool.Running {
      RootShrinks(t, s);
    } else if s.tree.main.Waiting? {
      TreeRuns.StepShrinks(t, s.tree, Tree.Main);
    }
  }

  /** Every step of a call lowers the measure. */
  lemma StepShrinks(t: Tree.Tree, s: State, a: Action)
    requires TreeInv.WellBuilt(t) && Inv(t, s) && Typed(t, s) && Enabled(s, a) && !IsRestart(s, a)
    ensures Inv(t, Next(t, s, a)) && Typed(t, Next(t, s, a))
    ensures Measure(t, Next(t, s, a)) < Measure(t, s)
  {
    StepInv(t, s, a);
    InvTyped(t, Next(t, s, a));
    match a
    case LoopStep(w) => LoopShrinks(t, s, w);
    case JobStep(w, ret) => JobShrinks(t, s, w, ret);
    case EnqueueStep(p) => EnqueueShrinksPool(s.pool, s.tree.main, s.joined, p);
    case CallerStep =>
      if s.pool.controller.CIdle? { CallerShrinks(t, s); } else { ControllerShrinks(t, s); }
  }

  /** acts is a run of the current call from s to s'. */
  ghost predicate Execution(t: Tree.Tree, s: State, acts: seq<Action>, s': State)
    decreases |acts|
  {
    if acts == [] then s == s'
    else Typed(t, s) && Enabled(s, acts[0]) && !IsRestart(s, acts[0]) && Execution(t, Next(t, s, acts[0]), acts[1..], s')
  }

  lemma {:induction false} ExecutionBounded(t: Tree.Tree, numThreads: nat, s: State, acts: seq<Action>, s': State)
    requires TreeInv.WellBuilt(t) && Reachable(t, numThreads, s) && Inv(t, s) && Typed(t, s) && Execution(t, s, acts, s')
    ensures Reachable(t, numThreads, s') && Typed(t, s') && |acts| + Measure(t, s') <= Measure(t, s)
    decreases |acts|
  {
    if acts != [] {
      StepShrinks(t, s, acts[0]);
      assert Leads(t, s, acts[0], Next(t, s, acts[0]));
      Runs.StepReachable(Initial(t, numThreads), Steps(t), s, Next(t, s, acts[0]));
      ExecutionBounded(t, numThreads, Next(t, s, acts[0]), acts[1..], s');
    }
  }

  // ----- and it ends with the caller returned -----

  ghost predicate Stuck(s: State) {
    forall a | Enabled(s, a) :: IsRestart(s, a)
  }

  /** All workers wait for the semaphore, or have not been started. */
  predicate Resting(s: State) {
    && (forall w | 0 <= w < |s.tree.workers| :: s.tree.workers[w].Idle?)
    && (forall w | 0 <= w < |s.pool.workers| :: s.pool.workers[w].ToWait? || s.pool.workers[w].Unborn?)
    && (forall p | 0 <= p < |s.pool.producers| :: s.pool.producers[p].PIdle?)
  }

  lemma StuckMeansResting(t: Tree.Tree, s: State)
    requires Inv(t, s) && Stuck(s)
    ensures Resting(s)
    ensures forall w | 0 <= w < |s.pool.workers| :: s.pool.workers[w].ToWait? ==> s.pool.semaphore == 0
  {
    forall p | 0 <= p < |s.pool.producers| ensures s.pool.producers[p].PIdle? {
      assert !Enabled(s, EnqueueStep(p));
    }
    forall w | 0 <= w < |s.tree.workers|
      ensures s.tree.workers[w].Idle? && (s.pool.workers[w].Unborn? || (s.pool.workers[w].ToWait? && s.pool.semaphore == 0))
    {
      assert WorkerLinked(s.pool.workers[w], s.tree.workers[w], s.pool.producers[w]);
      assert !Enabled(s, LoopStep(w)) && !Enabled(s, JobStep(w, 0));
    }
  }

  /** The caller does not hang in Start, Pause or Join, nor between them. */
  lemma StuckCaller(t: Tree.Tree, s: State)
    requires Inv(t, s) && Stuck(s) && Resting(s)
    ensures s.joined || (s.tree.main.Waiting? && s.tree.semaphore == 0 && s.pool.run == Pool.Running)
  {
    assert forall w | 0 <= w < |s.pool.workers| :: !Pool.Counted(s.pool.workers[w]) && !s.pool.workers[w].SignalParent?;
    assert s.pool.controller.JoinWait? ==> s.pool.parent > 0;
    assert !s.joined ==> !Enabled(s, CallerStep);
  }

  /** If the caller waits, nothing is queued: the pool has lost no wake-up. */
  lemma StuckWaiting(t: Tree.Tree, s: State)
    requires Inv(t, s) && Typed(t, s) && Stuck(s) && s.tree.main.Waiting? && s.tree.semaphore == 0 && s.pool.run == Pool.Running
    ensures TreeRuns.Stuck(t, s.tree)
  {
    StuckMeansResting(t, s);
    assert s.pool.controller.CIdle?;
    assert s.pool.workers[0].ToWait?;
    assert s.pool.queue == [];
  }

  /** A call does not end before it returns. */
  lemma StuckMeansJoined(t: Tree.Tree, s: State)
    requires TreeInv.WellBuilt(t) && Inv(t, s) && Typed(t, s) && TreeFailure.FailureOk(s.tree) && Stuck(s)
    requires TreeRuns.Acyclic(t.deps) || !TreeRuns.NoFailure(s.tree)
    ensures s.joined
  {
    StuckMeansResting(t, s);
    StuckCaller(t, s);
    if !s.joined {
      StuckWaiting(t, s);
      if TreeRuns.NoFailure(s.tree) {
        TreeRuns.Progress(t, s.tree);
      } else {
        TreeFailure.FailureIsLogged(t, s.tree);
        TreeFailure.StuckAfterFailure(t, s.tree);
      }
      assert false;
    }
  }

  /** A caller that has returned, with all workers at rest: the call is complete, or it returns the failure. */
  lemma JoinedAndResting(g: Graph, numThreads: nat, s: State)
    requires Valid(g) && numThreads >= 1 && Reachable(Tree.Build(g), numThreads, s) && s.joined && Resting(s)
    ensures if TreeRuns.NoFailure(s.tree) then TreeRuns.Complete(Tree.Build(g), s.tree) else s.tree.returnValue != 0
  {
    var t := Tree.Build(g);
    ReachableRefines(g, numThreads, s);
    TreeFailure.ReachableFailures(g, numThreads, s.tree);
    if TreeRuns.NoFailure(s.tree) {
      TreeRuns.NoFailureMeansNoneFailed(t, s.tree);
      TreeRuns.ReadyToExecuteAgain(g, numThreads, s.tree);
      TreeRuns.ReleaseMeansDone(g, numThreads, s.tree);
    } else {
      TreeFailure.FailureIsLogged(t, s.tree);
      var n :| 0 <= n < |s.tree.phase| && s.tree.phase[n].Failed?;
      assert TreeFailure.FailureKnown(s.tree, n);
    }
  }

  /** Main result: with the pool's own worker loop, in every interleaving, a call of ExecuteCommands takes at most
      Measure steps, and for an acyclic graph it ends only when the caller has returned and all workers wait; if no
      routine has failed, every routine has then run, and otherwise the value returned is not 0. */
  lemma EveryCallReturns(g: Graph, numThreads: nat, s: State, acts: seq<Action>, s': State)
    requires Valid(g) && numThreads >= 1 && Reachable(Tree.Build(g), numThreads, s) && Execution(Tree.Build(g), s, acts, s')
    requires TreeRuns.Acyclic(g) || !TreeRuns.NoFailure(s'.tree)
    ensures Typed(Tree.Build(g), s) && |acts| <= Measure(Tree.Build(g), s)
    ensures Stuck(s') ==>
              && s'.joined && Resting(s')
              && if TreeRuns.NoFailure(s'.tree) then TreeRuns.Complete(Tree.Build(g), s'.tree) else s'.tree.returnValue != 0
  {
    ReachableRefines(g, numThreads, s);
    ExecutionBounded(Tree.Build(g), numThreads, s, acts, s');
    if Stuck(s') {
      ReachableRefines(g, numThreads, s');
      TreeFailure.ReachableFailures(g, numThreads, s'.tree);
      StuckMeansResting(Tree.Build(g), s');
      StuckMeansJoined(Tree.Build(g), s');
      JoinedAndResting(g, numThreads, s');
    }
  }

  // ----- after a success nothing runs any more -----

  lemma {:induction false} NoneIsCounted(ws: seq<Pool.Worker>, w: nat)
    requires w < |ws| && Pool.CountedWorkers(ws) == 0
    ensures !Pool.Counted(ws[w])
    decreases |ws|
  {
    if w < |ws| - 1 {
      NoneIsCounted(ws[..|ws| - 1], w);
    }
  }

  ghost predicate QuietOk(s: State) {
    s.joined && s.tree.returnValue == 0 ==> s.pool.threadsRunning == 0
  }

  /** After a success no job is left: none is queued, and no worker is about to count one. */
  lemma NothingLeft(g: Graph, numThreads: nat, s: State)
    requires Valid(g) && numThreads >= 1 && Refines(Tree.Build(g), numThreads, s) && s.joined && s.tree.returnValue == 0
    ensures s.pool.queue == [] && forall w | 0 <= w < |s.pool.workers| :: !s.pool.workers[w].CountUp?
  {
    TreeRuns.ReachableInv(g, numThreads, s.tree);
    TreeRuns.ReadyToExecuteAgain(g, numThreads, s.tree);
    forall w | 0 <= w < |s.pool.workers| ensures !s.pool.workers[w].CountUp? {
      assert WorkerLinked(s.pool.workers[w], s.tree.workers[w], s.pool.producers[w]);
    }
  }

  lemma FailureStays(t: Tree.Tree, s: State, a: Action)
    requires Inv(t, s) && Typed(t, s) && Enabled(s, a) && !IsRestart(s, a)
    ensures s.tree.returnValue != 0 ==> Next(t, s, a).tree.returnValue != 0
  {
    match a
    case LoopStep(w) =>
      if Pops(s, w) {
        assert TreeInv.WorkerOk(t, s.tree, w);
        TreeFailure.WorkerFailures(t, s.tree, w, 0);
      }
    case JobStep(w, ret) =>
      assert TreeInv.WorkerOk(t, s.tree, w);
      TreeFailure.WorkerFailures(t, s.tree, w, ret);
    case _ =>
  }

  lemma StepKeepsQuiet(g: Graph, numThreads: nat, s: State, a: Action)
    requires Valid(g) && numThreads >= 1 && Refines(Tree.Build(g), numThreads, s) && QuietOk(s)
    requires Typed(Tree.Build(g), s) && Enabled(s, a)
    ensures QuietOk(Next(Tree.Build(g), s, a))
  {
    var s' := Next(Tree.Build(g), s, a);
    if s'.joined && s'.tree.returnValue == 0 {
      FailureStays(Tree.Build(g), s, a);
      if s.joined {
        NothingLeft(g, numThreads, s);
      }
    }
  }

  /** Main result: when ExecuteCommands has returned 0, and until it is called again, no routine runs, no worker holds
      a node and none is queued, in every interleaving. */
  lemma SuccessIsQuiet(g: Graph, numThreads: nat, s: State)
    requires Valid(g) && numThreads >= 1 && Reachable(Tree.Build(g), numThreads, s) && s.joined && s.tree.returnValue == 0
    ensures s.pool.queue == []
    ensures forall w | 0 <= w < |s.pool.workers| :: !s.pool.workers[w].CountUp? && !s.pool.workers[w].Busy?
    ensures forall w | 0 <= w < |s.tree.workers| :: s.tree.workers[w].Idle?
  {
    var t := Tree.Build(g);
    TreeInv.BuildIsWellBuilt(g);
    var inv := (x: State) => Refines(t, numThreads, x) && Typed(t, x) && QuietOk(x);
    forall x | Initial(t, numThreads)(x) ensures inv(x) {
      InitRefines(t, numThreads);
      InvTyped(t, x);
    }
    forall x, y | inv(x) && Steps(t)(x, y) ensures inv(y) {
      var a :| Leads(t, x, a, y);
      StepRefines(t, numThreads, x, y);
      InvTyped(t, y);
      StepKeepsQuiet(g, numThreads, x, a);
    }
    Runs.Invariance(Initial(t, numThreads), Steps(t), inv, s);
    NothingLeft(g, numThreads, s);
    forall w | 0 <= w < |s.pool.workers|
      ensures !s.pool.workers[w].CountUp? && !s.pool.workers[w].Busy? && s.tree.workers[w].Idle?
    {
      NoneIsCounted(s.pool.workers, w);
      assert WorkerLinked(s.pool.workers[w], s.tree.workers[w], s.pool.producers[w]);
    }
  }

  // ----- after a failure something may still run -----

  /** No worker has taken a job, or can still take one. */
  predicate NoJobTaken(s: State) {
    forall w | 0 <= w < |s.pool.workers| :: NotTaken(s.pool.workers[w], s.pool.queue)
  }

  predicate NotTaken(pc: Pool.Worker, queue: seq<nat>) {
    !pc.CountUp? && !pc.Busy? && (pc.TryPop? ==> queue == [])
  }

  predicate SomeRuns(s: State) {
    exists w :: 0 <= w < |s.pool.workers| && s.pool.workers[w].Busy?
  }

  lemma StepKeepsNoJob(t: Tree.Tree, s: State, a: Action)
    requires Inv(t, s) && Typed(t, s) && s.joined && NoJobTaken(s) && Enabled(s, a) && !IsRestart(s, a)
    ensures Next(t, s, a).joined && NoJobTaken(Next(t, s, a))
  {
    var s' := Next(t, s, a);
    assert a.LoopStep? || a.JobStep? ==> NotTaken(s.pool.workers[a.w], s.pool.queue);
    forall w | 0 <= w < |s'.pool.workers| ensures NotTaken(s'.pool.workers[w], s'.pool.queue) {
      assert NotTaken(s.pool.workers[w], s.pool.queue);
    }
  }

  lemma {:induction false} NoJobRuns(t: Tree.Tree, s: State, acts: seq<Action>, s': State)
    requires TreeInv.WellBuilt(t) && Inv(t, s) && s.joined && NoJobTaken(s) && Execution(t, s, acts, s')
    ensures NoJobTaken(s')
    decreases |acts|
  {
    if acts != [] {
      StepInv(t, s, acts[0]);
      StepKeepsNoJob(t, s, acts[0]);
      NoJobRuns(t, Next(t, s, acts[0]), acts[1..], s');
    }
  }

  lemma OneStep(t: Tree.Tree, s: State, a: Action, acts: seq<Action>, s': State)
    requires Typed(t, s) && Enabled(s, a) && !IsRestart(s, a) && Execution(t, Next(t, s, a), acts, s')
    ensures Execution(t, s, [a] + acts, s')
  {
    assert ([a] + acts)[1..] == acts;
  }

  /** A job that a worker has popped runs as soon as it is counted. */
  lemma CountedRuns(t: Tree.Tree, s: State, w: nat)
    requires Inv(t, s) && Typed(t, s) && w < |s.pool.workers| && s.pool.workers[w].CountUp?
    ensures exists s' :: Execution(t, s, [LoopStep(w)], s') && SomeRuns(s')
  {
    assert WorkerLinked(s.pool.workers[w], s.tree.workers[w], s.pool.producers[w]);
    var s' := Next(t, s, LoopStep(w));
    OneStep(t, s, LoopStep(w), [], s');
    assert [LoopStep(w)] + [] == [LoopStep(w)];
    assert s'.pool.workers[w].Busy?;
  }

  lemma TakenRuns(t: Tree.Tree, s: State, w: nat)
    requires TreeInv.WellBuilt(t) && Inv(t, s) && Typed(t, s)
    requires w < |s.pool.workers| && !NotTaken(s.pool.workers[w], s.pool.queue)
    ensures exists acts, s' :: Execution(t, s, acts, s') && SomeRuns(s')
  {
    assert WorkerLinked(s.pool.workers[w], s.tree.workers[w], s.pool.producers[w]);
    if s.pool.workers[w].Busy? {
      assert Execution(t, s, [], s);
    } else if s.pool.workers[w].CountUp? {
      CountedRuns(t, s, w);
    } else {
      var s1 := Next(t, s, LoopStep(w));
      StepInv(t, s, LoopStep(w));
      InvTyped(t, s1);
      assert s1.pool.workers[w].CountUp?;
      CountedRuns(t, s1, w);
      var s' :| Execution(t, s1, [LoopStep(w)], s') && SomeRuns(s');
      OneStep(t, s, LoopStep(w), [LoopStep(w)], s');
    }
  }

  /** From a state in which ExecuteCommands has returned, no job will run until it is called again, in any
      interleaving, if and only if no worker has taken one, or is about to take one from a queue that is not empty. */
  lemma ReturnIsQuietIff(g: Graph, numThreads: nat, s: State)
    requires Valid(g) && numThreads >= 1 && Reachable(Tree.Build(g), numThreads, s) && s.joined
    ensures (forall acts, s' | Execution(Tree.Build(g), s, acts, s') :: !SomeRuns(s')) <==> NoJobTaken(s)
  {
    var t := Tree.Build(g);
    ReachableRefines(g, numThreads, s);
    if NoJobTaken(s) {
      forall acts, s' | Execution(t, s, acts, s') ensures !SomeRuns(s') {
        NoJobRuns(t, s, acts, s');
        assert forall w | 0 <= w < |s'.pool.workers| :: NotTaken(s'.pool.workers[w], s'.pool.queue);
      }
    } else {
      var w :| 0 <= w < |s.pool.workers| && !NotTaken(s.pool.workers[w], s.pool.queue);
      TakenRuns(t, s, w);
    }
  }
}
