/** A run of ExecuteCommands that returns a failure while a worker still holds a job, whose routine begins only
    afterwards. */
module CommandTreeOnPoolFailure {
  import opened Options
  import opened DependencyGraph
  import opened CommandTreeOnPool
  import Theorems = CommandTreeOnPoolTheorems
  import Tree = CommandTreeRun
  import Pool = ThreadPool
  import Runs

  /** Two nodes without dependencies, and two workers. */
  const TWO: Graph := [[], []]
  const BUILT: Tree.Tree := Tree.Tree([0, 0], [[], []], [0, 1], TWO, [[], []])

  lemma TwoIsBuilt()
    ensures Valid(TWO) && Tree.Build(TWO) == BUILT
  {
    NoEntries(0);
    NoEntries(1);
    assert RootsBelow(TWO, 1) == RootsBelow(TWO, 0) + [0] == [0];
    assert RootsBelow(TWO, 2) == RootsBelow(TWO, 1) + [1] == [0, 1];
    assert Tree.Build(TWO).kids == BUILT.kids && Tree.Build(TWO).children == BUILT.children;
  }

  lemma NoEntries(d: nat)
    ensures ChildEntries(TWO, d) == []
  {
    assert Entries(TWO, d, 1, 0) == Entries(TWO, d, 0, 0) == [];
    assert Entries(TWO, d, 2, 0) == Entries(TWO, d, 1, 0);
  }

  ghost predicate Reached(s: State) {
    Reachable(BUILT, 2, s) && Typed(BUILT, s)
  }

  lemma Take(s: State, a: Action, s': State)
    requires Reached(s) && Enabled(s, a) && s' == Next(BUILT, s, a)
    ensures Reached(s')
  {
    TwoIsBuilt();
    assert Leads(BUILT, s, a, s');
    Runs.StepReachable(Initial(BUILT, 2), Steps(BUILT), s, s');
    ReachableRefines(TWO, 2, s');
  }

  const START: State :=
    State(Tree.State([0, 0], 0, 0, 0, [], false, [Tree.Idle, Tree.Idle], Tree.PushRoot(0),
                     [Tree.Blocked, Tree.Blocked], [{}, {}], [], None, 0),
          Pool.State(Pool.Stopped, 2, 0, [], 0, [Pool.Unborn, Pool.Unborn], [Pool.PIdle, Pool.PIdle, Pool.PIdle], Pool.CIdle),
          false)

  lemma StartReached()
    ensures Reached(START)
  {
    assert START == Init(BUILT, 2);
    Runs.InitReachable(Initial(BUILT, 2), Steps(BUILT), START);
  }

  /** The pool has been started. */
  const STARTED: State := START.(pool := START.pool.(run := Pool.Running, workers := [Pool.Top, Pool.Top]))

  lemma StartedReached()
    ensures Reached(STARTED)
  {
    StartReached();
    var s1 := START.(pool := START.pool.(controller := Pool.StartSet(Pool.Stopped)));
    Take(START, CallerStep, s1);
    RunningSet(s1);
  }

  lemma RunningSet(s: State)
    requires Reached(s) && s == START.(pool := START.pool.(controller := Pool.StartSet(Pool.Stopped)))
    ensures Reached(STARTED)
  {
    var s1 := s.(pool := s.pool.(run := Pool.Running, controller := Pool.Starting(Pool.Stopped, 0)));
    Take(s, CallerStep, s1);
    ThreadsStarted(s1);
  }

  lemma ThreadsStarted(s: State)
    requires Reached(s) && s == START.(pool := START.pool.(run := Pool.Running, controller := Pool.Starting(Pool.Stopped, 0)))
    ensures Reached(STARTED)
  {
    var s1 := s.(pool := s.pool.(workers := [Pool.Top, Pool.Unborn], controller := Pool.Starting(Pool.Stopped, 1)));
    assert s.pool.workers[0 := Pool.Top] == s1.pool.workers;
    Take(s, CallerStep, s1);
    var s2 := s.(pool := s.pool.(workers := [Pool.Top, Pool.Top], controller := Pool.Starting(Pool.Stopped, 2)));
    assert s1.pool.workers[1 := Pool.Top] == s2.pool.workers;
    Take(s1, CallerStep, s2);
    Take(s2, CallerStep, STARTED);
  }

  /** The caller has pushed the first k roots. */
  function Pushed(k: nat): State
    requires k <= 2
  {
    var queue := [0, 1][..k];
    STARTED.(tree := STARTED.tree.(main := Tree.PushRoot(k), queue := queue,
                                   phase := seq(2, n => if n < k then Tree.Queued else Tree.Blocked)),
             pool := STARTED.pool.(queue := queue))
  }

  /** A push of the caller; the semaphore is at its maximum and stays there. */
  lemma PushedNext(k: nat)
    requires k < 2 && Reached(Pushed(k))
    ensures Reached(Pushed(k + 1))
  {
    var s := Pushed(k);
    var s' := Pushed(k + 1);
    assert [0, 1][..k] + [k] == [0, 1][..k + 1];
    assert s.tree.phase[k := Tree.Queued] == s'.tree.phase;
    var s1 := s'.(pool := s'.pool.(producers := [Pool.PIdle, Pool.PIdle, Pool.Pushed]));
    assert s.pool.producers[2 := Pool.Pushed] == s1.pool.producers;
    Take(s, CallerStep, s1);
    var s2 := s'.(pool := s'.pool.(producers := [Pool.PIdle, Pool.PIdle, Pool.ToRelease]));
    assert s1.pool.producers[2 := Pool.ToRelease] == s2.pool.producers;
    Take(s1, EnqueueStep(2), s2);
    assert s2.pool.producers[2 := Pool.PIdle] == s'.pool.producers;
    Take(s2, EnqueueStep(2), s');
  }

  /** Both roots are queued, and the caller waits. */
  const QUEUED: State :=
    STARTED.(tree := STARTED.tree.(main := Tree.Waiting, queue := [0, 1], phase := [Tree.Queued, Tree.Queued]),
             pool := STARTED.pool.(queue := [0, 1]))

  lemma {:induction false} PushedReached(k: nat)
    requires k <= 2
    ensures Reached(Pushed(k))
  {
    if k == 0 {
      StartedReached();
      assert Pushed(0) == STARTED;
    } else {
      PushedReached(k - 1);
      PushedNext(k - 1);
    }
  }

  lemma QueuedReached()
    ensures Reached(QUEUED)
  {
    PushedReached(2);
    assert [0, 1][..2] == [0, 1] && Pushed(2).tree.phase == [Tree.Queued, Tree.Queued];
    Take(Pushed(2), CallerStep, QUEUED);
  }

  /** Worker 0 has popped node 0. */
  const ONE_POPPED: State :=
    QUEUED.(tree := QUEUED.tree.(queue := [1], workers := [Tree.Popped(0), Tree.Idle], phase := [Tree.Taken(0), Tree.Queued]),
            pool := QUEUED.pool.(queue := [1], workers := [Pool.CountUp(0), Pool.Top]))

  /** And worker 1 node 1. */
  const BOTH_POPPED: State :=
    QUEUED.(tree := QUEUED.tree.(queue := [], workers := [Tree.Popped(0), Tree.Popped(1)], phase := [Tree.Taken(0), Tree.Taken(1)]),
            pool := QUEUED.pool.(queue := [], workers := [Pool.CountUp(0), Pool.CountUp(1)]))

  lemma OnePoppedReached()
    ensures Reached(ONE_POPPED)
  {
    QueuedReached();
    var s := QUEUED.(pool := QUEUED.pool.(workers := [Pool.TryPop, Pool.Top]));
    assert QUEUED.pool.workers[0 := Pool.TryPop] == s.pool.workers;
    Take(QUEUED, LoopStep(0), s);
    assert s.pool.workers[0 := Pool.CountUp(0)] == ONE_POPPED.pool.workers;
    assert s.tree.workers[0 := Tree.Popped(0)] == ONE_POPPED.tree.workers;
    assert s.tree.phase[0 := Tree.Taken(0)] == ONE_POPPED.tree.phase;
    Take(s, LoopStep(0), ONE_POPPED);
  }

  lemma BothPoppedReached()
    ensures Reached(BOTH_POPPED)
  {
    OnePoppedReached();
    var s := ONE_POPPED.(pool := ONE_POPPED.pool.(workers := [Pool.CountUp(0), Pool.TryPop]));
    assert ONE_POPPED.pool.workers[1 := Pool.TryPop] == s.pool.workers;
    Take(ONE_POPPED, LoopStep(1), s);
    assert s.pool.workers[1 := Pool.CountUp(1)] == BOTH_POPPED.pool.workers;
    assert s.tree.workers[1 := Tree.Popped(1)] == BOTH_POPPED.tree.workers;
    assert s.tree.phase[1 := Tree.Taken(1)] == BOTH_POPPED.tree.phase;
    Take(s, LoopStep(1), BOTH_POPPED);
  }

  /** Worker 0 is at the given points of its job and its loop; worker 1 stays where it is. */
  function Working(pc: Tree.WorkerPc, phase: Tree.Phase, log: seq<Tree.Event>, loop: Pool.Worker, running: nat): State {
    BOTH_POPPED.(tree := BOTH_POPPED.tree.(workers := [pc, Tree.Popped(1)], phase := [phase, Tree.Taken(1)], log := log),
                 pool := BOTH_POPPED.pool.(workers := [loop, Pool.CountUp(1)], threadsRunning := running))
  }

  lemma NodeCounted()
    ensures Reached(Working(Tree.Popped(0), Tree.Taken(0), [], Pool.Busy(0), 1))
  {
    BothPoppedReached();
    var s := Working(Tree.Popped(0), Tree.Taken(0), [], Pool.Busy(0), 1);
    assert BOTH_POPPED.pool.workers[0 := Pool.Busy(0)] == s.pool.workers;
    Take(BOTH_POPPED, LoopStep(0), s);
  }

  lemma NodeCleared()
    ensures Reached(Working(Tree.Cleared(0), Tree.Runnable(0), [], Pool.Busy(0), 1))
  {
    NodeCounted();
    var s := Working(Tree.Popped(0), Tree.Taken(0), [], Pool.Busy(0), 1);
    var s' := Working(Tree.Cleared(0), Tree.Runnable(0), [], Pool.Busy(0), 1);
    assert s.tree.workers[0 := Tree.Cleared(0)] == s'.tree.workers && s.tree.counters[0 := 0] == s'.tree.counters;
    assert s.tree.phase[0 := Tree.Runnable(0)] == s'.tree.phase;
    Take(s, JobStep(0, 0), s');
  }

  lemma RoutineEntered()
    ensures Reached(Working(Tree.InRoutine(0), Tree.Started(0), [Tree.Begin(0)], Pool.Busy(0), 1))
  {
    NodeCleared();
    var s := Working(Tree.Cleared(0), Tree.Runnable(0), [], Pool.Busy(0), 1);
    var s' := Working(Tree.InRoutine(0), Tree.Started(0), [Tree.Begin(0)], Pool.Busy(0), 1);
    assert s.tree.workers[0 := Tree.InRoutine(0)] == s'.tree.workers;
    assert s.tree.phase[0 := Tree.Started(0)] == s'.tree.phase && s.tree.log + [Tree.Begin(0)] == s'.tree.log;
    Take(s, JobStep(0, 0), s');
  }

  const FAILED_LOG: seq<Tree.Event> := [Tree.Begin(0), Tree.End(0, 7)]

  /** The routine of node 0 has returned 7, the value is recorded and the completion semaphore released. */
  function Failed(loop: Pool.Worker, running: nat): State {
    var s := Working(Tree.Idle, Tree.Failed, FAILED_LOG, loop, running);
    s.(tree := s.tree.(returnValue := 7, semaphore := 1, releases := 1))
  }

  lemma RoutineFailed()
    ensures Reached(Working(Tree.StoreFailure(0, 7), Tree.Failed, FAILED_LOG, Pool.Busy(0), 1))
  {
    RoutineEntered();
    var s := Working(Tree.InRoutine(0), Tree.Started(0), [Tree.Begin(0)], Pool.Busy(0), 1);
    var s' := Working(Tree.StoreFailure(0, 7), Tree.Failed, FAILED_LOG, Pool.Busy(0), 1);
    assert s.tree.workers[0 := Tree.StoreFailure(0, 7)] == s'.tree.workers;
    assert s.tree.phase[0 := Tree.Failed] == s'.tree.phase && s.tree.log + [Tree.End(0, 7)] == s'.tree.log;
    Take(s, JobStep(0, 7), s');
  }

  lemma FailureStored() returns (s: State)
    ensures s == var s0 := Working(Tree.SignalFailure(0), Tree.Failed, FAILED_LOG, Pool.Busy(0), 1);
                 s0.(tree := s0.tree.(returnValue := 7))
    ensures Reached(s)
  {
    RoutineFailed();
    var s0 := Working(Tree.SignalFailure(0), Tree.Failed, FAILED_LOG, Pool.Busy(0), 1);
    s := s0.(tree := s0.tree.(returnValue := 7));
    var before := Working(Tree.StoreFailure(0, 7), Tree.Failed, FAILED_LOG, Pool.Busy(0), 1);
    assert before.tree.workers[0 := Tree.SignalFailure(0)] == s.tree.workers;
    Take(before, JobStep(0, 0), s);
  }

  lemma FailureSignalled()
    ensures Reached(Failed(Pool.Busy(0), 1))
  {
    var s := FailureStored();
    assert s.tree.workers[0 := Tree.Idle] == Failed(Pool.Busy(0), 1).tree.workers;
    Take(s, JobStep(0, 0), Failed(Pool.Busy(0), 1));
  }

  lemma RoutineReturned()
    ensures Reached(Failed(Pool.CountDown, 1))
  {
    FailureSignalled();
    var s := Failed(Pool.Busy(0), 1);
    assert s.pool.workers[0 := Pool.CountDown] == Failed(Pool.CountDown, 1).pool.workers;
    Take(s, LoopStep(0), Failed(Pool.CountDown, 1));
  }

  lemma WorkerCountedDown()
    ensures Reached(Failed(Pool.SignalParent, 0))
  {
    RoutineReturned();
    var s := Failed(Pool.CountDown, 1);
    assert s.pool.workers[0 := Pool.SignalParent] == Failed(Pool.SignalParent, 0).pool.workers;
    Take(s, LoopStep(0), Failed(Pool.SignalParent, 0));
  }

  /** The caller has been woken, has paused the pool, and is at the given point. */
  function Pausing(run: Pool.RunState, controller: Pool.Controller, joined: bool): State {
    var s := Failed(Pool.SignalParent, 0);
    s.(tree := s.tree.(main := Tree.Returned, semaphore := 0), pool := s.pool.(run := run, controller := controller), joined := joined)
  }

  lemma CallerWoken()
    ensures Reached(Pausing(Pool.Running, Pool.CIdle, false))
  {
    WorkerCountedDown();
    Take(Failed(Pool.SignalParent, 0), CallerStep, Pausing(Pool.Running, Pool.CIdle, false));
  }

  lemma CallerPauses()
    ensures Reached(Pausing(Pool.Running, Pool.PauseSet, false))
  {
    CallerWoken();
    Take(Pausing(Pool.Running, Pool.CIdle, false), CallerStep, Pausing(Pool.Running, Pool.PauseSet, false));
  }

  lemma PoolPaused()
    ensures Reached(Pausing(Pool.Paused, Pool.CIdle, false))
  {
    CallerPauses();
    Take(Pausing(Pool.Running, Pool.PauseSet, false), CallerStep, Pausing(Pool.Paused, Pool.CIdle, false));
  }

  lemma CallerJoins()
    ensures Reached(Pausing(Pool.Paused, Pool.JoinTest, false))
  {
    PoolPaused();
    Take(Pausing(Pool.Paused, Pool.CIdle, false), CallerStep, Pausing(Pool.Paused, Pool.JoinTest, false));
  }

  lemma CallerReturned()
    ensures Reached(Pausing(Pool.Paused, Pool.CIdle, true))
  {
    CallerJoins();
    Take(Pausing(Pool.Paused, Pool.JoinTest, false), CallerStep, Pausing(Pool.Paused, Pool.CIdle, true));
  }

  /** ExecuteCommands can return a failure although a worker has taken a node whose routine has not begun: it begins
      after the return. */
  lemma RoutineBeginsAfterReturn()
    ensures exists s, acts, s' ::
              && Reachable(BUILT, 2, s) && s.joined && s.tree.returnValue != 0 && Tree.Begin(1) !in s.tree.log
              && Theorems.Execution(BUILT, s, acts, s') && s'.joined && Tree.Begin(1) in s'.tree.log
  {
    CallerReturned();
    RoutineBegins(Pausing(Pool.Paused, Pool.CIdle, true));
  }

  /** A worker that has popped a node goes on to call its routine. */
  lemma RoutineBegins(s: State)
    requires Reached(s) && s.joined && s.tree.workers == [Tree.Idle, Tree.Popped(1)]
    requires s.pool.workers[1] == Pool.CountUp(1) && s.pool.producers[1].PIdle?
    ensures exists acts, s' :: Theorems.Execution(BUILT, s, acts, s') && s'.joined && s'.tree.log == s.tree.log + [Tree.Begin(1)]
  {
    var s1 := Next(BUILT, s, LoopStep(1));
    Take(s, LoopStep(1), s1);
    NodeRuns(s1);
    var acts, s' :| Theorems.Execution(BUILT, s1, acts, s') && s'.joined && s'.tree.log == s1.tree.log + [Tree.Begin(1)];
    Theorems.OneStep(BUILT, s, LoopStep(1), acts, s');
  }

  lemma NodeRuns(s: State)
    requires Reached(s) && s.joined && s.tree.workers == [Tree.Idle, Tree.Popped(1)]
    requires s.pool.workers[1].Busy? && s.pool.producers[1].PIdle?
    ensures exists acts, s' :: Theorems.Execution(BUILT, s, acts, s') && s'.joined && s'.tree.log == s.tree.log + [Tree.Begin(1)]
  {
    var s1 := Next(BUILT, s, JobStep(1, 0));
    Take(s, JobStep(1, 0), s1);
    var s2 := Next(BUILT, s1, JobStep(1, 0));
    assert Theorems.Execution(BUILT, s2, [], s2);
    Theorems.OneStep(BUILT, s1, JobStep(1, 0), [], s2);
    Theorems.OneStep(BUILT, s, JobStep(1, 0), [JobStep(1, 0)] + [], s2);
  }
}
