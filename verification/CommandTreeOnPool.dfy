/** The command tree on the thread pool it runs on: command_tree.cpp, lines 161 to 263, together with
    thread_pool.cpp, lines 59 to 189.

    A state holds one of the tree and one of the pool, which share the run queue: a worker of the pool that has taken
    a job is inside CommandTreeThread for a node, every push of the tree is an EnqueueRun of the pool, and
    ExecuteCommands starts the pool, pushes the roots, waits, pauses the pool and joins it. */
module CommandTreeOnPool {
  import opened DependencyGraph
  import Tree = CommandTreeRun
  import TreeInv = CommandTreeInvariant
  import TreeRuns = CommandTreeTheorems
  import Pool = ThreadPool
  import Runs

  datatype State = State(
    tree: Tree.State,
    pool: Pool.State,     // with a producer for every worker, and one more for the caller
    joined: bool)         // ExecuteCommands has returned

  datatype Action =
    | LoopStep(w: nat)                // a worker's step in ThreadPoolThread
    | JobStep(w: nat, ret: nat)       // a worker's step in CommandTreeThread
    | EnqueueStep(p: nat)             // a step in EnqueueRun, after the push itself
    | CallerStep                      // a step of ExecuteCommands

  function Init(t: Tree.Tree, numThreads: nat): State {
    State(Tree.Init(t, numThreads), Pool.Init(numThreads, numThreads + 1), false)
  }

  /** The caller's producer. */
  function CallerOf(s: State): nat {
    |s.tree.workers|
  }

  predicate IsEnqueuing(s: State, p: nat) {
    p < |s.pool.producers| && !s.pool.producers[p].PIdle?
  }

  ghost predicate Enabled(s: State, a: Action) {
    match a
    case LoopStep(w) =>
      && Pool.Enabled(MAX_NODES, s.pool, Pool.WorkerStep(w)) && w < |s.tree.workers|
      && (s.pool.workers[w].Busy? ==> s.tree.workers[w].Idle?) && !IsEnqueuing(s, w)
    case JobStep(w, _) =>
      w < |s.pool.workers| && w < |s.tree.workers| && s.pool.workers[w].Busy? && !s.tree.workers[w].Idle? && !IsEnqueuing(s, w)
    case EnqueueStep(p) => IsEnqueuing(s, p)
    case CallerStep => CallerEnabled(s)
  }

  predicate CallerEnabled(s: State) {
    if !s.pool.controller.CIdle? then s.pool.controller.JoinWait? ==> s.pool.parent > 0
    else if IsEnqueuing(s, CallerOf(s)) then false
    else match s.tree.main
      case PushRoot(_) => true
      case Waiting => s.tree.semaphore > 0
      case Returned => !s.joined || s.tree.returnValue == 0
  }

  /** What the pool does; a push to a full queue leaves it alone, and EnqueueRun returns false. */
  ghost function OnPool(pool: Pool.State, a: Pool.Action): Pool.State {
    if Pool.Enabled(MAX_NODES, pool, a) then Pool.Next(MAX_NODES, pool, a) else pool
  }

  /** A worker in its loop that finds a job takes it from the shared queue. */
  predicate Pops(s: State, w: nat) {
    w < |s.pool.workers| && s.pool.workers[w].TryPop? && s.pool.queue != []
  }

  ghost predicate Typed(t: Tree.Tree, s: State) {
    && Tree.Typed(t, s.tree) && |s.pool.workers| == |s.tree.workers| && |s.pool.producers| == |s.tree.workers| + 1
    && s.pool.queue == s.tree.queue
    && (forall w | 0 <= w < |s.tree.workers| :: s.pool.workers[w].TryPop? ==> s.tree.workers[w].Idle?)
  }

  ghost function Next(t: Tree.Tree, s: State, a: Action): State
    requires Typed(t, s) && Enabled(s, a)
  {
    match a
    case LoopStep(w) =>
      s.(pool := OnPool(s.pool, Pool.WorkerStep(w)),
         tree := if Pops(s, w) then Tree.WorkerNext(t, s.tree, w, 0) else s.tree)
    case JobStep(w, ret) =>
      s.(tree := Tree.WorkerNext(t, s.tree, w, ret),
         pool := match s.tree.workers[w]
                 case PushChild(n, k) => OnPool(s.pool, Pool.BeginEnqueue(w, t.kids[n][k].0))
                 case _ => s.pool)
    case EnqueueStep(p) => s.(pool := OnPool(s.pool, Pool.ProducerStep(p)))
    case CallerStep => CallerNext(t, s)
  }

  ghost function CallerNext(t: Tree.Tree, s: State): State
    requires Typed(t, s) && CallerEnabled(s)
  {
    if !s.pool.controller.CIdle? then
      var pool := OnPool(s.pool, Pool.ControllerStep);
      s.(pool := pool, joined := s.joined || (s.pool.controller.JoinTest? && pool.controller.CIdle?))
    else match s.tree.main
      case PushRoot(k) =>
        if s.pool.run != Pool.Running then s.(pool := OnPool(s.pool, Pool.BeginStart))
        else s.(tree := Tree.MainNext(t, s.tree),
                pool := if k < |t.roots| then OnPool(s.pool, Pool.BeginEnqueue(CallerOf(s), t.roots[k])) else s.pool)
      case Waiting => s.(tree := Tree.MainNext(t, s.tree))
      case Returned =>
        if s.pool.run == Pool.Running then s.(pool := OnPool(s.pool, Pool.BeginPause))
        else if !s.joined then s.(pool := OnPool(s.pool, Pool.BeginJoin))
        else s.(tree := Tree.MainNext(t, s.tree), joined := false)
  }

  // ----- how tree and pool go together -----

  /** What a worker of the pool does, and what the tree knows of it. */
  predicate WorkerLinked(pool: Pool.Worker, tree: Tree.WorkerPc, producer: Pool.Producer) {
    match pool
    case CountUp(job) => tree == Tree.Popped(job) && producer.PIdle?
    case Busy(job) => tree.Idle? || tree.SignalDone? || tree.node == job
    case _ => tree.Idle? && producer.PIdle?
  }

  /** Where the caller is. */
  predicate CallerLinked(s: State) {
    && (s.joined ==> s.tree.main.Returned? && s.pool.run == Pool.Paused && s.pool.controller.CIdle?)
    && (IsEnqueuing(s, CallerOf(s)) ==> s.tree.main.PushRoot? && s.pool.controller.CIdle? && s.pool.run == Pool.Running)
    && match s.tree.main
       case PushRoot(k) =>
         if s.pool.controller.CIdle? then s.pool.run != Pool.Running ==> k == 0
         else (s.pool.controller.StartSet? || s.pool.controller.Starting?) && k == 0
       case Waiting => s.pool.controller.CIdle? && s.pool.run == Pool.Running
       case Returned =>
         match s.pool.controller
         case CIdle => s.pool.run != Pool.Stopped
         case PauseSet => true
         case JoinTest => s.pool.run == Pool.Paused
         case JoinWait => s.pool.run == Pool.Paused
         case _ => false
  }

  ghost predicate Linked(s: State) {
    && |s.pool.workers| == |s.tree.workers| && |s.pool.producers| == |s.tree.workers| + 1
    && s.pool.queue == s.tree.queue
    && (forall w | 0 <= w < |s.tree.workers| :: WorkerLinked(s.pool.workers[w], s.tree.workers[w], s.pool.producers[w]))
    && CallerLinked(s)
  }

  ghost predicate Inv(t: Tree.Tree, s: State) {
    TreeInv.Inv(t, s.tree) && Pool.Inv(s.pool) && Linked(s)
  }

  lemma InitLinked(t: Tree.Tree, numThreads: nat)
    requires TreeInv.WellBuilt(t) && numThreads >= 1
    ensures Inv(t, Init(t, numThreads))
  {
    TreeInv.InitInv(t, numThreads);
    Pool.NoneCounted(numThreads);
  }

  // ----- every step is a step of the tree, a step of the pool, or both -----

  ghost predicate TreeMoves(t: Tree.Tree, tree: Tree.State, tree': Tree.State) {
    tree' == tree || Tree.Steps(t)(tree, tree')
  }

  ghost predicate PoolMoves(pool: Pool.State, pool': Pool.State) {
    pool' == pool || Pool.Steps(MAX_NODES)(pool, pool')
  }

  lemma OnPoolMoves(pool: Pool.State, a: Pool.Action)
    ensures PoolMoves(pool, OnPool(pool, a))
  {
    assert Pool.Enabled(MAX_NODES, pool, a) ==> Pool.Leads(MAX_NODES, pool, a, OnPool(pool, a));
  }

  lemma TreeWorkerMoves(t: Tree.Tree, tree: Tree.State, w: nat, ret: nat)
    requires Tree.Typed(t, tree) && Tree.Enabled(t, tree, Tree.Worker(w, ret))
    ensures TreeMoves(t, tree, Tree.WorkerNext(t, tree, w, ret))
  {
    assert Tree.Leads(t, tree, Tree.Worker(w, ret), Tree.WorkerNext(t, tree, w, ret));
  }

  lemma TreeMainMoves(t: Tree.Tree, tree: Tree.State)
    requires Tree.Typed(t, tree) && Tree.Enabled(t, tree, Tree.Main)
    ensures TreeMoves(t, tree, Tree.MainNext(t, tree))
  {
    assert Tree.Leads(t, tree, Tree.Main, Tree.MainNext(t, tree));
  }

  lemma InvTyped(t: Tree.Tree, s: State)
    requires Inv(t, s)
    ensures Typed(t, s)
  {
    forall w | 0 <= w < |s.tree.workers| ensures s.pool.workers[w].TryPop? ==> s.tree.workers[w].Idle? {
      assert WorkerLinked(s.pool.workers[w], s.tree.workers[w], s.pool.producers[w]);
    }
  }

  /** What a worker's step in the tree does to the run queue. */
  lemma TreeQueue(t: Tree.Tree, tree: Tree.State, w: nat, ret: nat)
    requires TreeInv.WellBuilt(t) && TreeInv.Inv(t, tree) && Tree.Enabled(t, tree, Tree.Worker(w, ret))
    ensures |tree.queue| < MAX_NODES || !tree.workers[w].PushChild?
    ensures Tree.WorkerNext(t, tree, w, ret).queue ==
            match tree.workers[w]
            case Idle => tree.queue[1..]
            case PushChild(n, k) => tree.queue + [t.kids[n][k].0]
            case _ => tree.queue
  {
    if tree.workers[w].PushChild? {
      var d := t.kids[tree.workers[w].node][tree.workers[w].k].0;
      assert TreeInv.WorkerOk(t, tree, w) && TreeInv.NodeOk(t, tree, d);
      TreeInv.QueueHasRoom(t, tree, d);
    }
  }

  lemma RootHasRoom(t: Tree.Tree, tree: Tree.State)
    requires TreeInv.WellBuilt(t) && TreeInv.Inv(t, tree) && tree.main.PushRoot? && tree.main.k < |t.roots|
    ensures |tree.queue| < MAX_NODES && Tree.MainNext(t, tree).queue == tree.queue + [t.roots[tree.main.k]]
  {
    assert TreeInv.NodeOk(t, tree, t.roots[tree.main.k]);
    TreeInv.QueueHasRoom(t, tree, t.roots[tree.main.k]);
  }

  lemma LoopKeeps(t: Tree.Tree, s: State, w: nat)
    requires TreeInv.WellBuilt(t) && Inv(t, s) && Typed(t, s) && Enabled(s, LoopStep(w))
    ensures var s' := Next(t, s, LoopStep(w)); Linked(s') && TreeMoves(t, s.tree, s'.tree) && PoolMoves(s.pool, s'.pool)
  {
    var s' := Next(t, s, LoopStep(w));
    OnPoolMoves(s.pool, Pool.WorkerStep(w));
    assert WorkerLinked(s.pool.workers[w], s.tree.workers[w], s.pool.producers[w]);
    if Pops(s, w) {
      TreeWorkerMoves(t, s.tree, w, 0);
      TreeQueue(t, s.tree, w, 0);
      TreeRuns.WorkerFrame(t, s.tree, w, 0);
    }
    forall v | 0 <= v < |s'.tree.workers|
      ensures WorkerLinked(s'.pool.workers[v], s'.tree.workers[v], s'.pool.producers[v])
    {
      assert WorkerLinked(s.pool.workers[v], s.tree.workers[v], s.pool.producers[v]);
    }
  }

  lemma JobMoves(t: Tree.Tree, s: State, w: nat, ret: nat)
    requires TreeInv.WellBuilt(t) && Inv(t, s) && Typed(t, s) && Enabled(s, JobStep(w, ret))
    ensures var s' := Next(t, s, JobStep(w, ret));
            && TreeMoves(t, s.tree, s'.tree) && PoolMoves(s.pool, s'.pool)
            && s'.pool.queue == s'.tree.queue && CallerLinked(s') && s'.pool.workers == s.pool.workers
            && |s'.tree.workers| == |s.tree.workers| && |s'.pool.producers| == |s.pool.producers|
            && (forall v | 0 <= v < |s.tree.workers| && v != w ::
                  s'.tree.workers[v] == s.tree.workers[v] && s'.pool.producers[v] == s.pool.producers[v])
  {
    TreeWorkerMoves(t, s.tree, w, ret);
    TreeQueue(t, s.tree, w, ret);
    TreeRuns.WorkerFrame(t, s.tree, w, ret);
    if s.tree.workers[w].PushChild? {
      OnPoolMoves(s.pool, Pool.BeginEnqueue(w, t.kids[s.tree.workers[w].node][s.tree.workers[w].k].0));
    }
  }

  /** A job is about one node from its beginning to its end. */
  lemma JobKeepsNode(t: Tree.Tree, tree: Tree.State, w: nat, ret: nat)
    requires Tree.Typed(t, tree) && w < |tree.workers| && !tree.workers[w].Idle?
    ensures var tree' := Tree.WorkerNext(t, tree, w, ret);
            && w < |tree'.workers|
            && (tree'.workers[w].Idle? || tree'.workers[w].SignalDone?
                || (!tree.workers[w].SignalDone? && tree'.workers[w].node == tree.workers[w].node))
  {
  }

  lemma JobKeeps(t: Tree.Tree, s: State, w: nat, ret: nat)
    requires TreeInv.WellBuilt(t) && Inv(t, s) && Typed(t, s) && Enabled(s, JobStep(w, ret))
    ensures var s' := Next(t, s, JobStep(w, ret)); Linked(s') && TreeMoves(t, s.tree, s'.tree) && PoolMoves(s.pool, s'.pool)
  {
    var s' := Next(t, s, JobStep(w, ret));
    JobMoves(t, s, w, ret);
    JobKeepsNode(t, s.tree, w, ret);
    forall v | 0 <= v < |s'.tree.workers|
      ensures WorkerLinked(s'.pool.workers[v], s'.tree.workers[v], s'.pool.producers[v])
    {
      assert WorkerLinked(s.pool.workers[v], s.tree.workers[v], s.pool.producers[v]);
    }
  }

  lemma EnqueueKeeps(t: Tree.Tree, s: State, p: nat)
    requires Inv(t, s) && Typed(t, s) && Enabled(s, EnqueueStep(p))
    ensures var s' := Next(t, s, EnqueueStep(p)); Linked(s') && TreeMoves(t, s.tree, s'.tree) && PoolMoves(s.pool, s'.pool)
  {
    var s' := Next(t, s, EnqueueStep(p));
    OnPoolMoves(s.pool, Pool.ProducerStep(p));
    forall v | 0 <= v < |s'.tree.workers|
      ensures WorkerLinked(s'.pool.workers[v], s'.tree.workers[v], s'.pool.producers[v])
    {
      assert WorkerLinked(s.pool.workers[v], s.tree.workers[v], s.pool.producers[v]);
    }
  }

  /** Starting, pausing and joining the pool. */
  lemma ControllerKeeps(t: Tree.Tree, s: State)
    requires Inv(t, s) && Typed(t, s) && CallerEnabled(s) && !s.pool.controller.CIdle?
    ensures var s' := CallerNext(t, s); Linked(s') && TreeMoves(t, s.tree, s'.tree) && PoolMoves(s.pool, s'.pool)
  {
    var s' := CallerNext(t, s);
    OnPoolMoves(s.pool, Pool.ControllerStep);
    forall v | 0 <= v < |s'.tree.workers|
      ensures WorkerLinked(s'.pool.workers[v], s'.tree.workers[v], s'.pool.producers[v])
    {
      assert WorkerLinked(s.pool.workers[v], s.tree.workers[v], s.pool.producers[v]);
    }
  }

  /** Pushing a root, being woken, and being called again. */
  lemma CallerTreeKeeps(t: Tree.Tree, s: State)
    requires TreeInv.WellBuilt(t) && Inv(t, s) && Typed(t, s) && CallerEnabled(s) && s.pool.controller.CIdle?
    requires Tree.Enabled(t, s.tree, Tree.Main) && CallerNext(t, s).tree == Tree.MainNext(t, s.tree)
    requires s.tree.main.PushRoot? ==> s.pool.run == Pool.Running
    requires s.tree.main.Returned? ==> s.joined
    ensures var s' := CallerNext(t, s); Linked(s') && TreeMoves(t, s.tree, s'.tree) && PoolMoves(s.pool, s'.pool)
  {
    var s' := CallerNext(t, s);
    TreeMainMoves(t, s.tree);
    if s.tree.main.PushRoot? && s.tree.main.k < |t.roots| {
      RootHasRoom(t, s.tree);
      OnPoolMoves(s.pool, Pool.BeginEnqueue(CallerOf(s), t.roots[s.tree.main.k]));
    }
    forall v | 0 <= v < |s'.tree.workers|
      ensures WorkerLinked(s'.pool.workers[v], s'.tree.workers[v], s'.pool.producers[v])
    {
      assert WorkerLinked(s.pool.workers[v], s.tree.workers[v], s.pool.producers[v]);
    }
  }

  /** Beginning to start, pause or join the pool. */
  lemma CallerPoolKeeps(t: Tree.Tree, s: State, a: Pool.Action)
    requires Inv(t, s) && Typed(t, s) && CallerEnabled(s) && s.pool.controller.CIdle?
    requires a.BeginStart? || a.BeginPause? || a.BeginJoin?
    requires CallerNext(t, s) == s.(pool := OnPool(s.pool, a))
    requires match s.tree.main
             case PushRoot(_) => a.BeginStart? && s.pool.run != Pool.Running
             case Waiting => false
             case Returned => if s.pool.run == Pool.Running then a.BeginPause? else a.BeginJoin? && !s.joined
    ensures var s' := CallerNext(t, s); Linked(s') && TreeMoves(t, s.tree, s'.tree) && PoolMoves(s.pool, s'.pool)
  {
    var s' := CallerNext(t, s);
    OnPoolMoves(s.pool, a);
    forall v | 0 <= v < |s'.tree.workers|
      ensures WorkerLinked(s'.pool.workers[v], s'.tree.workers[v], s'.pool.producers[v])
    {
      assert WorkerLinked(s.pool.workers[v], s.tree.workers[v], s.pool.producers[v]);
    }
  }

  lemma CallerKeeps(t: Tree.Tree, s: State)
    requires TreeInv.WellBuilt(t) && Inv(t, s) && Typed(t, s) && CallerEnabled(s) && s.pool.controller.CIdle?
    ensures var s' := CallerNext(t, s); Linked(s') && TreeMoves(t, s.tree, s'.tree) && PoolMoves(s.pool, s'.pool)
  {
    match s.tree.main
    case PushRoot(_) =>
      if s.pool.run != Pool.Running { CallerPoolKeeps(t, s, Pool.BeginStart); } else { CallerTreeKeeps(t, s); }
    case Waiting => CallerTreeKeeps(t, s);
    case Returned =>
      if s.pool.run == Pool.Running { CallerPoolKeeps(t, s, Pool.BeginPause); }
      else if !s.joined { CallerPoolKeeps(t, s, Pool.BeginJoin); }
      else { CallerTreeKeeps(t, s); }
  }

  /** Every step of the whole is at most one step of the tree and at most one of the pool. */
  lemma StepMoves(t: Tree.Tree, s: State, a: Action)
    requires TreeInv.WellBuilt(t) && Inv(t, s) && Typed(t, s) && Enabled(s, a)
    ensures var s' := Next(t, s, a); Linked(s') && TreeMoves(t, s.tree, s'.tree) && PoolMoves(s.pool, s'.pool)
  {
    match a
    case LoopStep(w) => LoopKeeps(t, s, w);
    case JobStep(w, ret) => JobKeeps(t, s, w, ret);
    case EnqueueStep(p) => EnqueueKeeps(t, s, p);
    case CallerStep =>
      if s.pool.controller.CIdle? { CallerKeeps(t, s); } else { ControllerKeeps(t, s); }
  }

  lemma StepInv(t: Tree.Tree, s: State, a: Action)
    requires TreeInv.WellBuilt(t) && Inv(t, s) && Typed(t, s) && Enabled(s, a)
    ensures Inv(t, Next(t, s, a))
  {
    var s' := Next(t, s, a);
    StepMoves(t, s, a);
    if s'.tree != s.tree {
      var ta :| Tree.Leads(t, s.tree, ta, s'.tree);
      TreeInv.StepInv(t, s.tree, ta);
    }
    if s'.pool != s.pool {
      var pa :| Pool.Leads(MAX_NODES, s.pool, pa, s'.pool);
      Pool.StepInv(MAX_NODES, s.pool, pa);
    }
  }

  // ----- runs -----

  ghost predicate Leads(t: Tree.Tree, s: State, a: Action, s': State) {
    Typed(t, s) && Enabled(s, a) && s' == Next(t, s, a)
  }

  ghost function Initial(t: Tree.Tree, numThreads: nat): State -> bool {
    (s: State) => s == Init(t, numThreads)
  }

  ghost function Steps(t: Tree.Tree): (State, State) -> bool {
    (s: State, s': State) => exists a :: Leads(t, s, a, s')
  }

  ghost predicate Reachable(t: Tree.Tree, numThreads: nat, s: State) {
    Runs.Reachable(Initial(t, numThreads), Steps(t), s)
  }

  /** The invariant, and that tree and pool are in states they reach on their own. */
  ghost predicate Refines(t: Tree.Tree, numThreads: nat, s: State) {
    && Inv(t, s)
    && Tree.Reachable(t, numThreads, s.tree)
    && Pool.Reachable(numThreads, numThreads + 1, MAX_NODES, s.pool)
  }

  lemma StepRefines(t: Tree.Tree, numThreads: nat, s: State, s': State)
    requires TreeInv.WellBuilt(t) && Refines(t, numThreads, s) && Steps(t)(s, s')
    ensures Refines(t, numThreads, s')
  {
    var a :| Leads(t, s, a, s');
    StepInv(t, s, a);
    StepMoves(t, s, a);
    if s'.tree != s.tree {
      Runs.StepReachable(Tree.Initial(t, numThreads), Tree.Steps(t), s.tree, s'.tree);
    }
    if s'.pool != s.pool {
      Runs.StepReachable(Pool.Initial(numThreads, numThreads + 1), Pool.Steps(MAX_NODES), s.pool, s'.pool);
    }
  }

  lemma InitRefines(t: Tree.Tree, numThreads: nat)
    requires TreeInv.WellBuilt(t) && numThreads >= 1
    ensures Refines(t, numThreads, Init(t, numThreads))
  {
    InitLinked(t, numThreads);
    Runs.InitReachable(Tree.Initial(t, numThreads), Tree.Steps(t), Tree.Init(t, numThreads));
    Runs.InitReachable(Pool.Initial(numThreads, numThreads + 1), Pool.Steps(MAX_NODES), Pool.Init(numThreads, numThreads + 1));
  }

  /** Whatever holds in every reachable state of the tree, or of the pool, holds while they work together. */
  lemma ReachableRefines(g: Graph, numThreads: nat, s: State)
    requires Valid(g) && numThreads >= 1 && Reachable(Tree.Build(g), numThreads, s)
    ensures TreeInv.WellBuilt(Tree.Build(g)) && Refines(Tree.Build(g), numThreads, s) && Typed(Tree.Build(g), s)
  {
    TreeInv.BuildIsWellBuilt(g);
    var t := Tree.Build(g);
    var inv := (x: State) => Refines(t, numThreads, x);
    forall x | Initial(t, numThreads)(x) ensures inv(x) {
      InitRefines(t, numThreads);
    }
    forall x, y | inv(x) && Steps(t)(x, y) ensures inv(y) {
      StepRefines(t, numThreads, x, y);
    }
    Runs.Invariance(Initial(t, numThreads), Steps(t), inv, s);
    InvTyped(t, s);
  }
}
