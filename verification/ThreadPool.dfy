/** The wake-up protocol of ycommon/containers/thread_pool.cpp, lines 59 to 103, 137 to 159 and 166 to 189:
    Start, Pause and Join on a paused pool, called by one controlling thread; EnqueueRun, called by any
    number of producers (a job that enqueues another one acts as a producer); and the workers.

    One push to the run queue and one pop from it count as one step each. A semaphore release at the
    maximum count leaves the count unchanged. */
module ThreadPool {
  import Runs

  datatype RunState = Stopped | Running | Paused

  datatype Worker =
    | Unborn                  // its thread does not run yet
    | Top                     // about to read the run state
    | TryPop                  // has read Running, about to pop the queue
    | CountUp(job: nat)       // has popped a job, about to add to mThreadsRunning
    | Busy(job: nat)          // the routine runs
    | CountDown               // about to subtract from mThreadsRunning
    | SignalParent            // about to release the parent semaphore
    | ToWait                  // about to wait for the semaphore

  datatype Producer = PIdle | Pushed | ToRelease

  datatype Controller =
    | CIdle
    | StartSet(prev: RunState)            // about to set Running
    | Starting(prev: RunState, i: nat)    // about to start thread i, or to do the i-th release
    | PauseSet                            // about to set Paused
    | JoinTest                            // about to read mThreadsRunning
    | JoinWait                            // about to wait for the parent semaphore

  datatype State = State(
    run: RunState,
    semaphore: nat,           // at most the number of threads
    parent: nat,              // the parent semaphore, at most 1
    queue: seq<nat>,
    threadsRunning: nat,      // mThreadsRunning
    workers: seq<Worker>,
    producers: seq<Producer>,
    controller: Controller)

  datatype Action =
    | WorkerStep(w: nat)
    | BeginEnqueue(p: nat, job: nat)
    | ProducerStep(p: nat)
    | BeginStart
    | BeginPause
    | BeginJoin
    | ControllerStep

  /** After Initialize: the semaphore starts at its maximum. */
  function Init(numThreads: nat, numProducers: nat): State {
    State(Stopped, numThreads, 0, [], 0, seq(numThreads, _ => Unborn), seq(numProducers, _ => PIdle), CIdle)
  }

  function Release(s: State): State {
    if s.semaphore < |s.workers| then s.(semaphore := s.semaphore + 1) else s
  }

  ghost predicate Enabled(capacity: nat, s: State, a: Action) {
    match a
    case WorkerStep(w) =>
      w < |s.workers| && !s.workers[w].Unborn? && (s.workers[w].ToWait? ==> s.semaphore > 0)
    case BeginEnqueue(p, _) => p < |s.producers| && s.producers[p].PIdle? && |s.queue| < capacity
    case ProducerStep(p) => p < |s.producers| && !s.producers[p].PIdle?
    case BeginStart => s.controller.CIdle? && s.run != Running
    case BeginPause => s.controller.CIdle? && s.run == Running
    case BeginJoin => s.controller.CIdle? && s.run == Paused
    case ControllerStep => !s.controller.CIdle? && (s.controller.JoinWait? ==> s.parent > 0)
  }

  ghost function Next(capacity: nat, s: State, a: Action): State
    requires Enabled(capacity, s, a)
  {
    match a
    case WorkerStep(w) => WorkerNext(s, w)
    case BeginEnqueue(p, job) => s.(queue := s.queue + [job], producers := s.producers[p := Pushed])
    case ProducerStep(p) =>
      if s.producers[p].Pushed? then
        s.(producers := s.producers[p := if s.run == Running then ToRelease else PIdle])
      else Release(s.(producers := s.producers[p := PIdle]))
    case BeginStart => s.(controller := StartSet(s.run))
    case BeginPause => s.(controller := PauseSet)
    case BeginJoin => s.(controller := JoinTest)
    case ControllerStep => ControllerNext(s)
  }

  function WorkerNext(s: State, w: nat): State
    requires w < |s.workers|
  {
    var s' := s.(workers := s.workers[w := WorkerPc(s, s.workers[w])]);
    match s.workers[w]
    case TryPop => if s.queue != [] then s'.(queue := s.queue[1..]) else s'
    case CountUp(_) => s'.(threadsRunning := s.threadsRunning + 1)
    case CountDown => if s.threadsRunning > 0 then s'.(threadsRunning := s.threadsRunning - 1) else s'
    case SignalParent => s'.(parent := 1)
    case ToWait => if s.semaphore > 0 then s'.(semaphore := s.semaphore - 1) else s
    case _ => s'
  }

  function WorkerPc(s: State, pc: Worker): Worker {
    match pc
    case Unborn => Unborn
    case Top => if s.run == Running then TryPop else ToWait
    case TryPop => if s.queue != [] then CountUp(s.queue[0]) else ToWait
    case CountUp(job) => Busy(job)
    case Busy(_) => CountDown
    case CountDown => SignalParent
    case SignalParent => Top
    case ToWait => Top
  }

  function ControllerNext(s: State): State {
    match s.controller
    case CIdle => s
    case StartSet(prev) => s.(run := Running, controller := Starting(prev, 0))
    case Starting(prev, i) =>
      if i >= |s.workers| then s.(controller := CIdle)
      else
        var s' := s.(controller := Starting(prev, i + 1));
        if prev == Stopped then s'.(workers := s.workers[i := Top]) else Release(s')
    case PauseSet => s.(run := Paused, controller := CIdle)
    case JoinTest => s.(controller := if s.threadsRunning != 0 then JoinWait else CIdle)
    case JoinWait => s.(parent := 0, controller := JoinTest)
  }

  // ----- the invariant -----

  /** The worker will try to pop the queue before it next waits, if the pool keeps running. */
  predicate Awake(pc: Worker) {
    !pc.Unborn? && !pc.ToWait?
  }

  predicate Counted(pc: Worker) {
    pc.Busy? || pc.CountDown?
  }

  ghost predicate SomeAwake(s: State) {
    exists w :: 0 <= w < |s.workers| && Awake(s.workers[w])
  }

  ghost predicate SomeProducing(s: State) {
    exists p :: 0 <= p < |s.producers| && !s.producers[p].PIdle?
  }

  /** No queued job is forgotten while the pool runs. */
  ghost predicate NoLostWakeUp(s: State) {
    s.run == Running && s.queue != [] ==>
      || s.semaphore > 0
      || SomeAwake(s)
      || SomeProducing(s)
      || OwesFirstStart(s)
  }

  /** Start has set Running, but has neither started a thread nor released the semaphore yet. */
  predicate OwesFirstStart(s: State) {
    s.controller.Starting? && s.controller.i == 0
  }

  /** A waiting Join will be woken: a worker that still has to signal has been counted. */
  ghost predicate JoinNotForgotten(s: State) {
    s.controller.JoinWait? ==>
      s.parent > 0 || exists w :: 0 <= w < |s.workers| && (Counted(s.workers[w]) || s.workers[w].SignalParent?)
  }

  ghost function CountedWorkers(ws: seq<Worker>): nat {
    if ws == [] then 0
    else CountedWorkers(ws[..|ws| - 1]) + if Counted(ws[|ws| - 1]) then 1 else 0
  }

  ghost predicate Inv(s: State) {
    && |s.workers| >= 1
    && s.semaphore <= |s.workers|
    && s.threadsRunning == CountedWorkers(s.workers)
    && NoLostWakeUp(s)
    && JoinNotForgotten(s)
    && (s.controller.StartSet? ==> s.run == s.controller.prev != Running)
    && (s.controller.Starting? ==> s.run == Running)
    && (s.controller.PauseSet? ==> s.run == Running)
    && (forall w | 0 <= w < |s.workers| ::
          s.workers[w].Unborn? <==> s.run == Stopped || (s.controller.Starting? && s.controller.prev == Stopped && s.controller.i <= w))
  }

  lemma {:induction false} CountedUpdate(ws: seq<Worker>, w: nat, pc: Worker)
    requires w < |ws|
    ensures CountedWorkers(ws[w := pc]) - CountedWorkers(ws)
         == (if Counted(pc) then 1 else 0) - if Counted(ws[w]) then 1 else 0
    decreases |ws|
  {
    var last := |ws| - 1;
    if w < last {
      CountedUpdate(ws[..last], w, pc);
      assert ws[w := pc][..last] == ws[..last][w := pc];
    } else {
      assert ws[w := pc][..last] == ws[..last];
    }
  }

  lemma {:induction false} SomeCounted(ws: seq<Worker>)
    requires CountedWorkers(ws) > 0
    ensures exists w :: 0 <= w < |ws| && Counted(ws[w])
    decreases |ws|
  {
    var last := |ws| - 1;
    if !Counted(ws[last]) {
      SomeCounted(ws[..last]);
      var w :| 0 <= w < last && Counted(ws[..last][w]);
      assert Counted(ws[w]);
    }
  }

  lemma WorkerKeeps(s: State, w: nat)
    requires Inv(s) && w < |s.workers| && !s.workers[w].Unborn? && (s.workers[w].ToWait? ==> s.semaphore > 0)
    ensures Inv(WorkerNext(s, w))
  {
    var s' := WorkerNext(s, w);
    CountedUpdate(s.workers, w, s'.workers[w]);
    WorkerKeepsWakeUp(s, w);
    WorkerKeepsJoin(s, w);
  }

  lemma WorkerKeepsWakeUp(s: State, w: nat)
    requires Inv(s) && w < |s.workers| && !s.workers[w].Unborn? && (s.workers[w].ToWait? ==> s.semaphore > 0)
    ensures NoLostWakeUp(WorkerNext(s, w))
  {
    var s' := WorkerNext(s, w);
    if Awake(s'.workers[w]) {
      assert SomeAwake(s');
    }
    if SomeProducing(s) {
      var p :| 0 <= p < |s.producers| && !s.producers[p].PIdle?;
      assert !s'.producers[p].PIdle?;
    }
  }

  lemma WorkerKeepsJoin(s: State, w: nat)
    requires Inv(s) && w < |s.workers| && !s.workers[w].Unborn? && (s.workers[w].ToWait? ==> s.semaphore > 0)
    ensures JoinNotForgotten(WorkerNext(s, w))
  {
    var s' := WorkerNext(s, w);
    if s.controller.JoinWait? && s.parent == 0 {
      var v :| 0 <= v < |s.workers| && (Counted(s.workers[v]) || s.workers[v].SignalParent?);
      if v != w {
        assert s'.workers[v] == s.workers[v];
      } else {
        assert s'.parent > 0 || Counted(s'.workers[w]) || s'.workers[w].SignalParent?;
      }
    }
  }

  lemma ProducerKeeps(capacity: nat, s: State, a: Action)
    requires Inv(s) && Enabled(capacity, s, a) && (a.ProducerStep? || a.BeginEnqueue?)
    ensures Inv(Next(capacity, s, a))
  {
    var s' := Next(capacity, s, a);
    if SomeAwake(s) {
      var w :| 0 <= w < |s.workers| && Awake(s.workers[w]);
      assert Awake(s'.workers[w]);
    }
    if !s'.producers[a.p].PIdle? {
      assert SomeProducing(s');
    }
  }

  lemma ControllerKeeps(capacity: nat, s: State, a: Action)
    requires Inv(s) && Enabled(capacity, s, a) && (a.BeginStart? || a.BeginPause? || a.BeginJoin? || a.ControllerStep?)
    ensures Inv(Next(capacity, s, a))
  {
    var s' := Next(capacity, s, a);
    if a.ControllerStep? && s.controller.Starting? && s.controller.i < |s.workers| && s.controller.prev.Stopped? {
      CountedUpdate(s.workers, s.controller.i, Top);
      assert Awake(s'.workers[s.controller.i]);
    } else {
      assert s'.workers == s.workers;
      assert SomeAwake(s') == SomeAwake(s);
    }
    if SomeProducing(s) {
      var p :| 0 <= p < |s.producers| && !s.producers[p].PIdle?;
      assert !s'.producers[p].PIdle?;
    }
    if s.controller.JoinTest? && s.threadsRunning > 0 {
      SomeCounted(s.workers);
    }
  }

  lemma {:induction false} NoneCounted(n: nat)
    ensures CountedWorkers(seq(n, _ => Unborn)) == 0
  {
    if n > 0 {
      NoneCounted(n - 1);
      assert seq(n, _ => Unborn)[..n - 1] == seq(n - 1, _ => Unborn);
    }
  }

  lemma StepInv(capacity: nat, s: State, a: Action)
    requires Inv(s) && Enabled(capacity, s, a)
    ensures Inv(Next(capacity, s, a))
  {
    match a
    case WorkerStep(w) => WorkerKeeps(s, w);
    case BeginEnqueue(_, _) => ProducerKeeps(capacity, s, a);
    case ProducerStep(_) => ProducerKeeps(capacity, s, a);
    case _ => ControllerKeeps(capacity, s, a);
  }

  // ----- runs -----

  ghost predicate Leads(capacity: nat, s: State, a: Action, s': State) {
    Enabled(capacity, s, a) && s' == Next(capacity, s, a)
  }

  ghost function Initial(numThreads: nat, numProducers: nat): State -> bool {
    (s: State) => s == Init(numThreads, numProducers)
  }

  ghost function Steps(capacity: nat): (State, State) -> bool {
    (s: State, s': State) => exists a :: Leads(capacity, s, a, s')
  }

  ghost predicate Reachable(numThreads: nat, numProducers: nat, capacity: nat, s: State) {
    Runs.Reachable(Initial(numThreads, numProducers), Steps(capacity), s)
  }

  lemma ReachableInv(numThreads: nat, numProducers: nat, capacity: nat, s: State)
    requires numThreads >= 1 && Reachable(numThreads, numProducers, capacity, s)
    ensures Inv(s)
  {
    var inv := (x: State) => Inv(x);
    forall x | Initial(numThreads, numProducers)(x) ensures inv(x) {
      NoneCounted(numThreads);
    }
    forall x, y | inv(x) && Steps(capacity)(x, y) ensures inv(y) {
      var a :| Leads(capacity, x, a, y);
      StepInv(capacity, x, a);
    }
    Runs.Invariance(Initial(numThreads, numProducers), Steps(capacity), inv, s);
  }

  /** No lost wake-up: in every reachable Running state with a queued job, the semaphore is up, or some
      worker will try to pop the queue before it next waits, or a producer is between its push and
      its release, or Start still owes its first release. */
  lemma NoWakeUpIsLost(numThreads: nat, numProducers: nat, capacity: nat, s: State)
    requires numThreads >= 1 && Reachable(numThreads, numProducers, capacity, s)
    requires s.run == Running && s.queue != [] && !SomeProducing(s) && !OwesFirstStart(s)
    ensures s.semaphore > 0 || SomeAwake(s)
  {
    ReachableInv(numThreads, numProducers, capacity, s);
  }

  // ----- queued jobs run -----

  function PcWork(pc: Worker): nat {
    match pc
    case Unborn => 0
    case ToWait => 0
    case TryPop => 1
    case Top => 2
    case SignalParent => 3
    case CountDown => 4
    case Busy(_) => 5
    case CountUp(_) => 6
  }

  ghost function WorkOf(ws: seq<Worker>): nat {
    if ws == [] then 0 else WorkOf(ws[..|ws| - 1]) + PcWork(ws[|ws| - 1])
  }

  /** An upper bound on the steps the workers can take on their own. */
  ghost function Measure(s: State): nat {
    7 * |s.queue| + 3 * s.semaphore + WorkOf(s.workers)
  }

  lemma {:induction false} WorkUpdate(ws: seq<Worker>, w: nat, pc: Worker)
    requires w < |ws|
    ensures WorkOf(ws[w := pc]) - WorkOf(ws) == PcWork(pc) - PcWork(ws[w])
    decreases |ws|
  {
    var last := |ws| - 1;
    if w < last {
      WorkUpdate(ws[..last], w, pc);
      assert ws[w := pc][..last] == ws[..last][w := pc];
    } else {
      assert ws[w := pc][..last] == ws[..last];
    }
  }

  lemma WorkerShrinks(s: State, w: nat)
    requires w < |s.workers| && !s.workers[w].Unborn? && (s.workers[w].ToWait? ==> s.semaphore > 0)
    ensures Measure(WorkerNext(s, w)) < Measure(s)
  {
    WorkUpdate(s.workers, w, WorkerNext(s, w).workers[w]);
  }

  /** The workers take the given steps, and nobody else moves. */
  ghost predicate WorkersRun(s: State, ws: seq<nat>, s': State)
    decreases |ws|
  {
    if ws == [] then s == s'
    else Enabled(0, s, WorkerStep(ws[0])) && WorkersRun(WorkerNext(s, ws[0]), ws[1..], s')
  }

  lemma {:induction false} WorkersRunBounded(s: State, ws: seq<nat>, s': State)
    requires Inv(s) && WorkersRun(s, ws, s')
    ensures Inv(s') && |ws| + Measure(s') <= Measure(s)
    ensures s'.run == s.run && s'.controller == s.controller && s'.producers == s.producers
    decreases |ws|
  {
    if ws != [] {
      WorkerShrinks(s, ws[0]);
      WorkerKeeps(s, ws[0]);
      WorkersRunBounded(WorkerNext(s, ws[0]), ws[1..], s');
    }
  }

  ghost predicate WorkersStuck(s: State) {
    forall w | 0 <= w < |s.workers| :: !Enabled(0, s, WorkerStep(w))
  }

  /** Every queued job runs: from any reachable Running state in which no producer is under way and no
      Start owes its first thread or release, the workers on their own stop after at most Measure steps,
      and only once the queue is empty and every job taken from it has returned. */
  lemma QueuedJobsRun(numThreads: nat, numProducers: nat, capacity: nat, s: State, ws: seq<nat>, s': State)
    requires numThreads >= 1 && Reachable(numThreads, numProducers, capacity, s)
    requires s.run == Running && !SomeProducing(s) && !OwesFirstStart(s)
    requires WorkersRun(s, ws, s')
    ensures |ws| <= Measure(s)
    ensures WorkersStuck(s') ==> s'.queue == [] && s'.threadsRunning == 0 && !SomeAwake(s')
  {
    ReachableInv(numThreads, numProducers, capacity, s);
    WorkersRunBounded(s, ws, s');
    if WorkersStuck(s') {
      StuckWorkersWait(s');
    }
  }

  lemma StuckWorkersWait(s: State)
    requires Inv(s) && WorkersStuck(s)
    ensures !SomeAwake(s) && s.threadsRunning == 0
    ensures s.run != Stopped && !OwesFirstStart(s) ==> s.semaphore == 0
  {
    forall w | 0 <= w < |s.workers| ensures !Awake(s.workers[w]) && (s.workers[w].ToWait? ==> s.semaphore == 0) {
      assert !Enabled(0, s, WorkerStep(w));
    }
    if s.threadsRunning > 0 {
      SomeCounted(s.workers);
    }
    assert s.workers[0].Unborn? || s.workers[0].ToWait?;
  }

  /** A Join that waits is woken: the workers on their own cannot stop before the parent semaphore
      is up. */
  lemma JoinIsWoken(numThreads: nat, numProducers: nat, capacity: nat, s: State, ws: seq<nat>, s': State)
    requires numThreads >= 1 && Reachable(numThreads, numProducers, capacity, s)
    requires s.controller.JoinWait? && WorkersRun(s, ws, s')
    ensures |ws| <= Measure(s)
    ensures WorkersStuck(s') ==> s'.parent > 0
  {
    ReachableInv(numThreads, numProducers, capacity, s);
    WorkersRunBounded(s, ws, s');
    if WorkersStuck(s') {
      StuckWorkersWait(s');
    }
  }
}
