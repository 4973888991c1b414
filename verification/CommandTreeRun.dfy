/** The execution protocol of the command tree: ycommon/containers/command_tree.cpp, lines 157 to 263.

    The state holds what the threads share, one program counter per worker and one for the caller of
    ExecuteCommands, and history variables that no step reads: the phase of every node, the
    dependency entries already counted, the log of routine calls, and who has released the
    completion semaphore how often. Every step is one access to shared memory, except that
    one push to the run queue and one pop from it count as one step each.

    The thread pool's own state is not part of this model: its run state and semaphore, and Pause and
    Join (lines 204 to 206), are left out, and an idle worker may pop whenever the queue is not empty. Safety
    holds all the more; CommandTreeOnPool puts the tree on the pool. */
module CommandTreeRun {
  import opened Options
  import opened DependencyGraph
  import Runs

  /** What the constructor leaves in memory, and the lists it stands for. */
  datatype Tree = Tree(
    needed: seq<nat>,                 // mNumDependencies of every node
    children: seq<seq<nat>>,          // mChildren and mNumChildren of every node
    roots: seq<nat>,                  // mRootNodes
    // history
    deps: Graph,
    kids: seq<seq<Entry>>)            // for every child, the dependency entry it is listed for

  function Build(g: Graph): Tree {
    Tree(seq(|g|, d requires 0 <= d < |g| => |g[d]|), seq(|g|, d requires 0 <= d < |g| => Owners(ChildEntries(g, d))), Roots(g),
         g, seq(|g|, d requires 0 <= d < |g| => ChildEntries(g, d)))
  }

  /** The memory agrees with the lists. */
  ghost predicate AsListed(t: Tree) {
    && |t.needed| == |t.children| == |t.kids| == |t.deps|
    && (forall d | 0 <= d < |t.deps| :: t.needed[d] == |t.deps[d]| && t.children[d] == Owners(t.kids[d]))
  }

  datatype Event = Begin(node: nat) | End(node: nat, ret: nat)

  datatype WorkerPc =
    | Idle                            // in the pool's loop, about to pop the run queue
    | Popped(node: nat)               // about to clear the node's counter
    | Cleared(node: nat)              // about to call the routine
    | InRoutine(node: nat)
    | StoreFailure(node: nat, ret: nat)
    | SignalFailure(node: nat)
    | CountFinished(node: nat)        // about to add to the number of finished nodes
    | SignalDone                      // that addition was the last one
    | CheckReturn(node: nat)          // about to read the recorded return value
    | NextChild(node: nat, k: nat)    // about to count for child k, or to leave the loop
    | PushChild(node: nat, k: nat)    // that count was child k's last one

  datatype MainPc = PushRoot(k: nat) | Waiting | Returned

  datatype Phase =
    | Blocked                         // not all dependencies are counted, or a root not pushed yet
    | Granted(w: nat)                 // worker w is about to push it
    | Queued
    | Taken(w: nat)
    | Runnable(w: nat)
    | Started(w: nat)
    | Succeeded(w: nat)
    | Finished(w: nat)
    | Failed

  datatype State = State(
    counters: seq<nat>,               // mNumDependenciesFinished
    numFinished: nat,                 // mNumNodesFinished
    returnValue: nat,                 // mReturnValue
    semaphore: nat,                   // the completion semaphore, at most 1
    queue: seq<nat>,                  // the run queue, MAX_NODES slots
    overflowed: bool,                 // a push found the queue full and its assertion failed
    workers: seq<WorkerPc>,
    main: MainPc,
    // history
    phase: seq<Phase>,
    counted: seq<set<nat>>,           // for each node, the dependency entries already counted
    log: seq<Event>,                  // routine calls of this execution
    finisher: Option<nat>,            // the worker that counted the last node
    releases: nat)                    // releases of the completion semaphore in this execution

  /** A worker does its next step (`ret` is what the routine returns, if that is the step),
      or the caller of ExecuteCommands does. */
  datatype Action = Worker(w: nat, ret: nat) | Main

  function Prepared(t: Tree, workers: seq<WorkerPc>, semaphore: nat, queue: seq<nat>, counters: seq<nat>): State {
    State(counters, 0, 0, semaphore, queue, false, workers, PushRoot(0),
          seq(|t.deps|, _ => Blocked), seq(|t.deps|, _ => {}), [], None, 0)
  }

  function Init(t: Tree, numThreads: nat): State {
    Prepared(t, seq(numThreads, _ => Idle), 0, [], seq(|t.deps|, _ => 0))
  }

  function Push(s: State, n: nat): State {
    if |s.queue| < MAX_NODES then s.(queue := s.queue + [n]) else s.(overflowed := true)
  }

  function Release(s: State): State {
    s.(semaphore := 1, releases := s.releases + 1)
  }

  ghost predicate Typed(t: Tree, s: State) {
    && AsListed(t)
    && |t.kids| == |s.counters| == |s.phase| == |s.counted| == |t.deps|
    && (forall w | 0 <= w < |s.workers| :: TypedPc(t, s.workers[w]))
    && (forall n, k | 0 <= n < |t.kids| && 0 <= k < |t.kids[n]| :: t.kids[n][k].0 < |t.deps|)
    && (forall k | 0 <= k < |s.queue| :: s.queue[k] < |t.deps|)
    && (forall k | 0 <= k < |t.roots| :: t.roots[k] < |t.deps|)
  }

  ghost predicate TypedPc(t: Tree, pc: WorkerPc) {
    && (pc.Idle? || pc.SignalDone? || pc.node < |t.kids|)
    && (pc.NextChild? ==> pc.k <= |t.kids[pc.node]|)
    && (pc.PushChild? ==> pc.k < |t.kids[pc.node]|)
  }

  ghost predicate Enabled(t: Tree, s: State, a: Action) {
    match a
    case Worker(w, _) => w < |s.workers| && (s.workers[w].Idle? ==> s.queue != [])
    case Main =>
      match s.main
      case PushRoot(_) => true
      case Waiting => s.semaphore > 0
      case Returned => s.returnValue == 0
  }

  ghost function Next(t: Tree, s: State, a: Action): State
    requires Typed(t, s) && Enabled(t, s, a)
  {
    match a
    case Worker(w, ret) => WorkerNext(t, s, w, ret)
    case Main => MainNext(t, s)
  }

  ghost function WorkerNext(t: Tree, s: State, w: nat, ret: nat): State
    requires Typed(t, s) && Enabled(t, s, Worker(w, ret))
  {
    var go := (pc: WorkerPc) => s.workers[w := pc];
    match s.workers[w]
    case Idle =>
      var n := s.queue[0];
      s.(workers := go(Popped(n)), queue := s.queue[1..], phase := s.phase[n := Taken(w)])
    case Popped(n) =>
      s.(workers := go(Cleared(n)), counters := s.counters[n := 0], phase := s.phase[n := Runnable(w)])
    case Cleared(n) =>
      s.(workers := go(InRoutine(n)), log := s.log + [Begin(n)], phase := s.phase[n := Started(w)])
    case InRoutine(n) =>
      var s' := s.(log := s.log + [End(n, ret)]);
      if ret != 0 then s'.(workers := go(StoreFailure(n, ret)), phase := s.phase[n := Failed])
      else s'.(workers := go(CountFinished(n)), phase := s.phase[n := Succeeded(w)])
    case StoreFailure(n, r) =>
      s.(workers := go(SignalFailure(n)), returnValue := r)
    case SignalFailure(n) =>
      Release(s.(workers := go(Idle)))
    case CountFinished(n) =>
      var s' := s.(numFinished := s.numFinished + 1, phase := s.phase[n := Finished(w)]);
      if s.numFinished == |t.needed| - 1 then s'.(workers := go(SignalDone), finisher := Some(w))
      else s'.(workers := go(CheckReturn(n)))
    case SignalDone =>
      Release(s.(workers := go(Idle)))
    case CheckReturn(n) =>
      s.(workers := go(if s.returnValue != 0 then Idle else NextChild(n, 0)))
    case NextChild(n, k) =>
      if k == |t.children[n]| then s.(workers := go(Idle))
      else
        var (d, j) := (t.children[n][k], t.kids[n][k].1);
        var s' := s.(counters := s.counters[d := s.counters[d] + 1], counted := s.counted[d := s.counted[d] + {j}]);
        if s.counters[d] + 1 == t.needed[d]
        then s'.(workers := go(PushChild(n, k)), phase := s.phase[d := Granted(w)])
        else s'.(workers := go(NextChild(n, k + 1)))
    case PushChild(n, k) =>
      var d := t.children[n][k];
      Push(s.(workers := go(NextChild(n, k + 1)), phase := s.phase[d := Queued]), d)
  }

  /** ExecuteCommands: push the roots, wait for the completion semaphore, return; and, once the
      return value is read as 0, possibly be called again. */
  ghost function MainNext(t: Tree, s: State): State
    requires Typed(t, s) && Enabled(t, s, Main)
  {
    match s.main
    case PushRoot(k) =>
      if k < |t.roots| then
        Push(s.(main := PushRoot(k + 1), phase := s.phase[t.roots[k] := Queued]), t.roots[k])
      else s.(main := Waiting)
    case Waiting => s.(main := Returned, semaphore := s.semaphore - 1)
    case Returned => Prepared(t, s.workers, s.semaphore, s.queue, s.counters).(overflowed := s.overflowed)
  }

  ghost predicate Leads(t: Tree, s: State, a: Action, s': State) {
    Typed(t, s) && Enabled(t, s, a) && s' == Next(t, s, a)
  }

  ghost function Initial(t: Tree, numThreads: nat): State -> bool {
    (s: State) => s == Init(t, numThreads)
  }

  ghost function Steps(t: Tree): (State, State) -> bool {
    (s: State, s': State) => exists a :: Leads(t, s, a, s')
  }

  /** s is reached from a fresh tree, in some interleaving and after any number of executions. */
  ghost predicate Reachable(t: Tree, numThreads: nat, s: State) {
    Runs.Reachable(Initial(t, numThreads), Steps(t), s)
  }
}
