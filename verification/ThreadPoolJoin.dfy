/** What Join on a paused pool promises: ycommon/containers/thread_pool.cpp, lines 96 to 103, 135 to 160 and
    166 to 189. A job is taken from the queue before it is counted as running, so Join can miss it. */
module ThreadPoolJoin {
  import opened ThreadPool
  import Runs

  // ----- when Join returns -----

  ghost predicate SomeBusy(s: State) {
    exists w :: 0 <= w < |s.workers| && s.workers[w].Busy?
  }

  /** The worker has taken a job that it has not counted yet, or is about to take one. */
  predicate AboutToRun(s: State, w: nat)
    requires w < |s.workers|
  {
    s.workers[w].CountUp? || (s.workers[w].TryPop? && s.queue != [])
  }

  ghost predicate SomeAboutToRun(s: State) {
    exists w :: 0 <= w < |s.workers| && AboutToRun(s, w)
  }

  /** Join is about to read that no thread is running, and to return. */
  predicate JoinReturns(s: State) {
    s.run == Paused && s.controller.JoinTest? && s.threadsRunning == 0
  }

  /** No routine runs, and none will as long as only the workers move. */
  ghost predicate Quiet(s: State) {
    forall ws, s' | WorkersRun(s, ws, s') :: !SomeBusy(s')
  }

  lemma NoneCountedNoneBusy(s: State)
    requires Inv(s) && s.threadsRunning == 0
    ensures !SomeBusy(s)
  {
    if w :| 0 <= w < |s.workers| && s.workers[w].Busy? {
      CountedPositive(s.workers, w);
    }
  }

  lemma {:induction false} CountedPositive(ws: seq<Worker>, w: nat)
    requires w < |ws| && Counted(ws[w])
    ensures CountedWorkers(ws) > 0
    decreases |ws|
  {
    if w < |ws| - 1 {
      CountedPositive(ws[..|ws| - 1], w);
    }
  }

  /** On a paused pool, workers that do not run and are not about to stay so. */
  lemma {:induction false} StaysQuiet(s: State, ws: seq<nat>, s': State)
    requires s.run == Paused && !SomeBusy(s) && !SomeAboutToRun(s) && WorkersRun(s, ws, s')
    ensures !SomeBusy(s')
    decreases |ws|
  {
    if ws != [] {
      var s1 := WorkerNext(s, ws[0]);
      assert !s.workers[ws[0]].Busy? && !AboutToRun(s, ws[0]);
      forall w | 0 <= w < |s1.workers| ensures !s1.workers[w].Busy? && !AboutToRun(s1, w) {
        assert !s.workers[w].Busy? && !AboutToRun(s, w);
      }
      StaysQuiet(s1, ws[1..], s');
    }
  }

  lemma RunsOne(s: State, w: nat, s1: State)
    requires Enabled(0, s, WorkerStep(w)) && s1 == WorkerNext(s, w)
    ensures WorkersRun(s, [w], s1)
  {
    assert [w][1..] == [];
  }

  lemma RunsTwo(s: State, w: nat, s1: State, s2: State)
    requires Enabled(0, s, WorkerStep(w)) && s1 == WorkerNext(s, w)
    requires Enabled(0, s1, WorkerStep(w)) && s2 == WorkerNext(s1, w)
    ensures WorkersRun(s, [w, w], s2)
  {
    RunsOne(s1, w, s2);
    assert [w, w][1..] == [w];
  }

  lemma AboutToRunRuns(s: State, w: nat)
    requires w < |s.workers| && AboutToRun(s, w)
    ensures !Quiet(s)
  {
    var s1 := WorkerNext(s, w);
    if s.workers[w].CountUp? {
      RunsOne(s, w, s1);
      assert s1.workers[w].Busy?;
    } else {
      var s2 := WorkerNext(s1, w);
      RunsTwo(s, w, s1, s2);
      assert s2.workers[w].Busy?;
    }
  }

  /** When Join returns nothing runs, and nothing will run, if and only if no worker has a job that it has
      not counted, and none is about to take one. */
  lemma JoinQuietIff(numThreads: nat, numProducers: nat, capacity: nat, s: State)
    requires numThreads >= 1 && Reachable(numThreads, numProducers, capacity, s) && JoinReturns(s)
    ensures ControllerNext(s).controller.CIdle?
    ensures Quiet(ControllerNext(s)) <==> !SomeAboutToRun(s)
  {
    ReachableInv(numThreads, numProducers, capacity, s);
    QuietAtReturn(s);
  }

  lemma QuietAtReturn(s: State)
    requires Inv(s) && JoinReturns(s)
    ensures Quiet(ControllerNext(s)) <==> !SomeAboutToRun(s)
  {
    var r := ControllerNext(s);
    NoneCountedNoneBusy(s);
    assert r.workers == s.workers && r.queue == s.queue;
    if w :| 0 <= w < |s.workers| && AboutToRun(s, w) {
      assert AboutToRun(r, w);
      AboutToRunRuns(r, w);
    } else {
      assert !SomeBusy(r) && !SomeAboutToRun(r) by {
        assert forall w | 0 <= w < |r.workers| :: !s.workers[w].Busy? && !AboutToRun(s, w);
      }
      forall ws, s' | WorkersRun(r, ws, s') ensures !SomeBusy(s') {
        StaysQuiet(r, ws, s');
      }
    }
  }

  // ----- pausing and joining -----

  /** What can happen while the controller pauses and joins and nobody pushes a job. */
  predicate NoPush(a: Action) {
    a.WorkerStep? || a.ProducerStep? || a.ControllerStep? || a.BeginJoin?
  }

  ghost predicate NoPushRun(s: State, acts: seq<Action>, s': State)
    decreases |acts|
  {
    if acts == [] then s == s'
    else NoPush(acts[0]) && Enabled(0, s, acts[0]) && NoPushRun(Next(0, s, acts[0]), acts[1..], s')
  }

  lemma {:induction false} NoPushConcat(s: State, a: seq<Action>, s1: State, b: seq<Action>, s2: State)
    requires NoPushRun(s, a, s1) && NoPushRun(s1, b, s2)
    ensures NoPushRun(s, a + b, s2)
    decreases |a|
  {
    if a == [] {
      assert a + b == b;
    } else {
      assert (a + b)[1..] == a[1..] + b;
      NoPushConcat(Next(0, s, a[0]), a[1..], s1, b, s2);
    }
  }

  lemma NoPushStep(s: State, a: Action, s1: State, acts: seq<Action>, s': State)
    requires NoPush(a) && Enabled(0, s, a) && s1 == Next(0, s, a) && NoPushRun(s1, acts, s')
    ensures NoPushRun(s, [a] + acts, s')
  {
    assert ([a] + acts)[1..] == acts;
  }

  /** Every job has been taken from the queue and counted, so it has entered its routine. */
  ghost predicate AllEntered(s: State) {
    s.queue == [] && forall w | 0 <= w < |s.workers| :: !s.workers[w].CountUp?
  }

  lemma {:induction false} AllEnteredStays(s: State, acts: seq<Action>, s': State)
    requires Inv(s) && AllEntered(s) && NoPushRun(s, acts, s')
    ensures Inv(s') && AllEntered(s')
    decreases |acts|
  {
    if acts != [] {
      var s1 := Next(0, s, acts[0]);
      StepInv(0, s, acts[0]);
      assert AllEntered(s1);
      AllEnteredStays(s1, acts[1..], s');
    }
  }

  /** A worker that is awake gets to take a job from the queue. */
  lemma {:induction false} AwakeTakesJob(s: State, w: nat) returns (acts: seq<Action>, s': State)
    requires Inv(s) && s.run == Running && s.controller.PauseSet? && s.queue != []
    requires w < |s.workers| && Awake(s.workers[w])
    ensures NoPushRun(s, acts, s') && Inv(s') && s'.run == Running && s'.controller.PauseSet?
    ensures w < |s'.workers| && s'.workers[w].CountUp?
    decreases PcWork(s.workers[w])
  {
    if s.workers[w].CountUp? {
      acts, s' := [], s;
    } else {
      var s1 := WorkerNext(s, w);
      WorkerKeeps(s, w);
      if s.workers[w].TryPop? {
        s' := s1;
        acts := [];
      } else {
        acts, s' := AwakeTakesJob(s1, w);
      }
      NoPushStep(s, WorkerStep(w), s1, acts, s');
      acts := [WorkerStep(w)] + acts;
    }
  }

  /** A waiting worker wakes up if the semaphore is up. */
  lemma WokenTakesJob(s: State) returns (acts: seq<Action>, s': State, w: nat)
    requires Inv(s) && s.run == Running && s.controller.PauseSet? && s.queue != []
    requires SomeAwake(s) || s.semaphore > 0
    ensures NoPushRun(s, acts, s') && Inv(s') && s'.run == Running && s'.controller.PauseSet?
    ensures w < |s'.workers| && s'.workers[w].CountUp?
  {
    if SomeAwake(s) {
      w :| 0 <= w < |s.workers| && Awake(s.workers[w]);
      acts, s' := AwakeTakesJob(s, w);
    } else {
      w := 0;
      assert !Awake(s.workers[w]) && !s.workers[w].Unborn?;
      var s1 := WorkerNext(s, w);
      WorkerKeeps(s, w);
      acts, s' := AwakeTakesJob(s1, w);
      NoPushStep(s, WorkerStep(w), s1, acts, s');
      acts := [WorkerStep(w)] + acts;
    }
  }

  /** A producer that is past its push raises the semaphore. */
  lemma ProducerRaises(s: State, p: nat) returns (acts: seq<Action>, s': State)
    requires Inv(s) && s.run == Running && s.controller.PauseSet? && p < |s.producers| && !s.producers[p].PIdle?
    ensures NoPushRun(s, acts, s') && Inv(s') && s'.run == Running && s'.controller.PauseSet?
    ensures s'.queue == s.queue && s'.semaphore > 0
  {
    if s.producers[p].Pushed? {
      var s1 := Next(0, s, ProducerStep(p));
      StepInv(0, s, ProducerStep(p));
      s' := Next(0, s1, ProducerStep(p));
      StepInv(0, s1, ProducerStep(p));
      NoPushStep(s1, ProducerStep(p), s', [], s');
      acts := [ProducerStep(p)] + ([ProducerStep(p)] + []);
      NoPushStep(s, ProducerStep(p), s1, [ProducerStep(p)] + [], s');
    } else {
      s' := Next(0, s, ProducerStep(p));
      StepInv(0, s, ProducerStep(p));
      NoPushStep(s, ProducerStep(p), s', [], s');
      acts := [ProducerStep(p)] + [];
    }
  }

  /** While the pool still runs, some worker can be where it has taken a job and not counted it. */
  lemma SomeTakesJob(s: State) returns (acts: seq<Action>, s': State, w: nat)
    requires Inv(s) && s.run == Running && s.controller.PauseSet? && !AllEntered(s)
    ensures NoPushRun(s, acts, s') && Inv(s') && s'.run == Running && s'.controller.PauseSet?
    ensures w < |s'.workers| && s'.workers[w].CountUp?
  {
    if s.queue == [] {
      w :| 0 <= w < |s.workers| && s.workers[w].CountUp?;
      acts, s' := [], s;
    } else if SomeAwake(s) || s.semaphore > 0 {
      acts, s', w := WokenTakesJob(s);
    } else {
      var p :| 0 <= p < |s.producers| && !s.producers[p].PIdle?;
      var a, s1 := ProducerRaises(s, p);
      var b;
      b, s', w := WokenTakesJob(s1);
      NoPushConcat(s, a, s1, b, s');
      acts := a + b;
    }
  }

  /** The other workers can all finish while worker w has not counted its job yet. */
  lemma {:induction false} OthersFinish(s: State, w: nat) returns (acts: seq<Action>, s': State)
    requires Inv(s) && s.run == Paused && s.controller.JoinTest? && w < |s.workers| && s.workers[w].CountUp?
    ensures NoPushRun(s, acts, s') && Inv(s') && JoinReturns(s')
    ensures w < |s'.workers| && s'.workers[w].CountUp?
    decreases Measure(s)
  {
    if s.threadsRunning == 0 {
      acts, s' := [], s;
    } else {
      SomeCounted(s.workers);
      var v :| 0 <= v < |s.workers| && Counted(s.workers[v]);
      var s1 := WorkerNext(s, v);
      WorkerKeeps(s, v);
      WorkerShrinks(s, v);
      acts, s' := OthersFinish(s1, w);
      NoPushStep(s, WorkerStep(v), s1, acts, s');
      acts := [WorkerStep(v)] + acts;
    }
  }

  /** If some job has not entered its routine when Pause begins, Join can return before it runs. */
  lemma JoinCanMissAJob(s: State) returns (acts: seq<Action>, s': State)
    requires Inv(s) && s.run == Running && s.controller.PauseSet? && !AllEntered(s)
    ensures NoPushRun(s, acts, s') && Inv(s') && JoinReturns(s') && SomeAboutToRun(s')
  {
    var a, s1, w := SomeTakesJob(s);
    var s2 := Next(0, s1, ControllerStep);
    StepInv(0, s1, ControllerStep);
    var s3 := Next(0, s2, BeginJoin);
    StepInv(0, s2, BeginJoin);
    var b;
    b, s' := OthersFinish(s3, w);
    assert AboutToRun(s', w);
    NoPushStep(s2, BeginJoin, s3, b, s');
    NoPushStep(s1, ControllerStep, s2, [BeginJoin] + b, s');
    NoPushConcat(s, a, s1, [ControllerStep] + ([BeginJoin] + b), s');
    acts := a + ([ControllerStep] + ([BeginJoin] + b));
  }

  /** However the run goes on without a push, nothing runs and nothing will when Join returns. */
  ghost predicate AlwaysQuiet(s: State) {
    forall acts, s' | NoPushRun(s, acts, s') && JoinReturns(s') :: Quiet(ControllerNext(s'))
  }

  /** Pausing and then joining, with nobody pushing a job meanwhile, always ends with nothing running and
      nothing about to run, if and only if, when Pause is called, the queue is empty and every job
      taken from it has entered its routine. */
  lemma PauseJoinQuietIff(numThreads: nat, numProducers: nat, capacity: nat, s: State)
    requires numThreads >= 1 && Reachable(numThreads, numProducers, capacity, s)
    requires Enabled(capacity, s, BeginPause)
    ensures AlwaysQuiet(Next(capacity, s, BeginPause)) <==> AllEntered(s)
  {
    ReachableInv(numThreads, numProducers, capacity, s);
    var s0 := Next(capacity, s, BeginPause);
    StepInv(capacity, s, BeginPause);
    if AllEntered(s) {
      forall acts, s' | NoPushRun(s0, acts, s') && JoinReturns(s') ensures Quiet(ControllerNext(s')) {
        AllEnteredStays(s0, acts, s');
        QuietAtReturn(s');
      }
    } else {
      assert s0.workers == s.workers && s0.queue == s.queue;
      var acts, s' := JoinCanMissAJob(s0);
      QuietAtReturn(s');
    }
  }

  // ----- a failing run -----

  ghost predicate RunLeads(capacity: nat, s: State, acts: seq<Action>, s': State)
    decreases |acts|
  {
    if acts == [] then s == s' else Enabled(capacity, s, acts[0]) && RunLeads(capacity, Next(capacity, s, acts[0]), acts[1..], s')
  }

  lemma {:induction false} RunReachable(numThreads: nat, numProducers: nat, capacity: nat, s: State, acts: seq<Action>, s': State)
    requires Reachable(numThreads, numProducers, capacity, s) && RunLeads(capacity, s, acts, s')
    ensures Reachable(numThreads, numProducers, capacity, s')
    decreases |acts|
  {
    if acts != [] {
      var s1 := Next(capacity, s, acts[0]);
      assert Leads(capacity, s, acts[0], s1);
      Runs.StepReachable(Initial(numThreads, numProducers), Steps(capacity), s, s1);
      RunReachable(numThreads, numProducers, capacity, s1, acts[1..], s');
    }
  }

  /** One worker, one producer, a queue of one: the worker is about to pop job 7. */
  const ABOUT_TO_POP: State := State(Running, 1, 0, [7], 0, [TryPop], [Pushed], CIdle)

  lemma AboutToPopReachable()
    ensures Reachable(1, 1, 1, ABOUT_TO_POP)
  {
    var s0 := Init(1, 1);
    Runs.InitReachable(Initial(1, 1), Steps(1), s0);
    var s1 := State(Running, 1, 0, [], 0, [Unborn], [PIdle], Starting(Stopped, 0));
    RunReachable(1, 1, 1, s0, [BeginStart, ControllerStep], s1);
    var s2 := State(Running, 1, 0, [], 0, [Top], [PIdle], CIdle);
    RunReachable(1, 1, 1, s1, [ControllerStep, ControllerStep], s2);
    RunReachable(1, 1, 1, s2, [BeginEnqueue(0, 7), WorkerStep(0)], ABOUT_TO_POP);
  }

  /** Join on a paused pool can return although a job taken before the pause has yet to run: a job is
      taken from the queue before it is counted. */
  lemma JoinCanReturnBeforeAJobRuns()
    ensures exists s ::
              && Reachable(1, 1, 1, s) && s.run == Paused && s.controller.JoinTest?
              && ControllerNext(s).controller.CIdle? && s.workers == [CountUp(7)]
  {
    AboutToPopReachable();
    var s1 := State(Running, 1, 0, [], 0, [CountUp(7)], [Pushed], CIdle);
    RunReachable(1, 1, 1, ABOUT_TO_POP, [WorkerStep(0)], s1);
    var s2 := State(Paused, 1, 0, [], 0, [CountUp(7)], [Pushed], JoinTest);
    RunReachable(1, 1, 1, s1, [BeginPause, ControllerStep, BeginJoin], s2);
  }
}
