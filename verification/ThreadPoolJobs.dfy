/** Which jobs the workers of the pool run: thread_pool.cpp, lines 59 to 72 and 166 to 189. */
module ThreadPoolJobs {
  import opened ThreadPool

  ghost predicate Run(capacity: nat, states: seq<State>, acts: seq<Action>) {
    |states| == |acts| + 1 && forall j | 0 <= j < |acts| :: LeadsAt(capacity, states, acts, j)
  }

  ghost predicate LeadsAt(capacity: nat, states: seq<State>, acts: seq<Action>, j: nat)
    requires |states| == |acts| + 1
  {
    j < |acts| && Leads(capacity, states[j], acts[j], states[j + 1])
  }

  /** The worker's step takes a job from the queue. */
  predicate Takes(s: State, a: Action) {
    a.WorkerStep? && a.w < |s.workers| && s.workers[a.w].TryPop? && s.queue != []
  }

  /** The worker's step leads into a routine. */
  predicate Enters(s: State, a: Action, s': State) {
    a.WorkerStep? && a.w < |s.workers| && a.w < |s'.workers| && !s.workers[a.w].Busy? && s'.workers[a.w].Busy?
  }

  /** The jobs given to EnqueueRun by the first n steps, in order. */
  function Enqueued(acts: seq<Action>, n: nat): seq<nat>
    requires n <= |acts|
  {
    if n == 0 then [] else Enqueued(acts, n - 1) + if acts[n - 1].BeginEnqueue? then [acts[n - 1].job] else []
  }

  /** The jobs taken from the queue, in order. */
  function Taken(states: seq<State>, acts: seq<Action>, n: nat): seq<nat>
    requires n <= |acts| <= |states|
  {
    if n == 0 then []
    else Taken(states, acts, n - 1) + if Takes(states[n - 1], acts[n - 1]) then [states[n - 1].queue[0]] else []
  }

  /** How often the routine of this job has been called. */
  function TimesCalled(states: seq<State>, acts: seq<Action>, job: nat, n: nat): nat
    requires n <= |acts| < |states|
  {
    if n == 0 then 0 else TimesCalled(states, acts, job, n - 1) + One(Calls(states[n - 1], acts[n - 1], states[n], job))
  }

  predicate Calls(s: State, a: Action, s': State, job: nat) {
    Enters(s, a, s') && s'.workers[a.w].job == job
  }

  predicate TakesJob(s: State, a: Action, job: nat) {
    Takes(s, a) && s.queue[0] == job
  }

  function One(b: bool): nat {
    if b then 1 else 0
  }

  /** How many workers have taken this job and not called its routine yet. */
  function InHand(ws: seq<Worker>, job: nat): nat {
    if ws == [] then 0 else InHand(ws[..|ws| - 1], job) + One(ws[|ws| - 1] == CountUp(job))
  }

  lemma {:induction false} InHandUpdate(ws: seq<Worker>, w: nat, pc: Worker, job: nat)
    requires w < |ws|
    ensures InHand(ws[w := pc], job) + One(ws[w] == CountUp(job)) == InHand(ws, job) + One(pc == CountUp(job))
    decreases |ws|
  {
    var last := |ws| - 1;
    if w < last {
      InHandUpdate(ws[..last], w, pc, job);
      assert ws[w := pc][..last] == ws[..last][w := pc];
    } else {
      assert ws[w := pc][..last] == ws[..last];
    }
  }

  lemma StepQueue(capacity: nat, s: State, a: Action, s': State)
    requires Leads(capacity, s, a, s')
    ensures s.queue + (if a.BeginEnqueue? then [a.job] else [])
         == (if Takes(s, a) then [s.queue[0]] else []) + s'.queue
  {
  }

  /** The queue is first in, first out: the jobs taken, followed by those in the queue, are the ones enqueued. */
  lemma {:induction false} QueueIsFifo(capacity: nat, states: seq<State>, acts: seq<Action>, n: nat)
    requires Run(capacity, states, acts) && n <= |acts|
    ensures states[0].queue + Enqueued(acts, n) == Taken(states, acts, n) + states[n].queue
    decreases n
  {
    if n > 0 {
      QueueIsFifo(capacity, states, acts, n - 1);
      assert LeadsAt(capacity, states, acts, n - 1);
      var s, a, s' := states[n - 1], acts[n - 1], states[n];
      StepQueue(capacity, s, a, s');
      Slide(states[0].queue, Enqueued(acts, n - 1), Taken(states, acts, n - 1), s.queue,
            if a.BeginEnqueue? then [a.job] else [], if Takes(s, a) then [s.queue[0]] else [], s'.queue);
    }
  }

  lemma Slide(start: seq<nat>, enqueued: seq<nat>, taken: seq<nat>, queue: seq<nat>, given: seq<nat>, took: seq<nat>, queue': seq<nat>)
    requires start + enqueued == taken + queue && queue + given == took + queue'
    ensures start + (enqueued + given) == (taken + took) + queue'
  {
    assert start + (enqueued + given) == (start + enqueued) + given;
    assert (taken + queue) + given == taken + (queue + given);
    assert taken + (took + queue') == (taken + took) + queue';
  }

  lemma StepInHand(capacity: nat, s: State, a: Action, s': State, job: nat)
    requires Inv(s) && Leads(capacity, s, a, s')
    ensures InHand(s.workers, job) + One(TakesJob(s, a, job)) == InHand(s'.workers, job) + One(Calls(s, a, s', job))
  {
    if a.WorkerStep? {
      InHandUpdate(s.workers, a.w, s'.workers[a.w], job);
    } else if s'.workers != s.workers {
      StartsInHand(s, job);
    }
  }

  lemma StartsInHand(s: State, job: nat)
    requires Inv(s) && s.controller.Starting? && s.controller.i < |s.workers| && s.controller.prev == Stopped
    ensures InHand(ControllerNext(s).workers, job) == InHand(s.workers, job)
  {
    InHandUpdate(s.workers, s.controller.i, Top, job);
  }

  /** The calls of a job's routine are as many as the times it was taken, less the workers that still have it in
      hand. */
  lemma {:induction false} TakenAreCalled(capacity: nat, states: seq<State>, acts: seq<Action>, job: nat, n: nat)
    requires Run(capacity, states, acts) && Inv(states[0]) && n <= |acts|
    ensures Inv(states[n])
    ensures InHand(states[0].workers, job) + multiset(Taken(states, acts, n))[job]
         == TimesCalled(states, acts, job, n) + InHand(states[n].workers, job)
    decreases n
  {
    if n > 0 {
      TakenAreCalled(capacity, states, acts, job, n - 1);
      assert LeadsAt(capacity, states, acts, n - 1);
      StepInv(capacity, states[n - 1], acts[n - 1]);
      StepInHand(capacity, states[n - 1], acts[n - 1], states[n], job);
    }
  }

  lemma {:induction false} NoneInHand(n: nat, job: nat)
    ensures InHand(seq(n, _ => Unborn), job) == 0
  {
    if n > 0 {
      NoneInHand(n - 1, job);
      assert seq(n, _ => Unborn)[..n - 1] == seq(n - 1, _ => Unborn);
    }
  }

  /** Every job runs once for each time it is enqueued: the calls of its routine, the workers that have it in hand and its
      places in the queue are together as many as its enqueues. */
  lemma EachJobRunsOnce(numThreads: nat, numProducers: nat, capacity: nat, states: seq<State>, acts: seq<Action>, job: nat)
    requires numThreads >= 1 && Run(capacity, states, acts) && states[0] == Init(numThreads, numProducers)
    ensures multiset(Enqueued(acts, |acts|))[job]
         == TimesCalled(states, acts, job, |acts|) + InHand(states[|acts|].workers, job) + multiset(states[|acts|].queue)[job]
  {
    NoneCounted(numThreads);
    NoneInHand(numThreads, job);
    TakenAreCalled(capacity, states, acts, job, |acts|);
    QueueIsFifo(capacity, states, acts, |acts|);
    assert states[0].queue + Enqueued(acts, |acts|) == Enqueued(acts, |acts|);
  }
}
