/** Whole calls of Enqueue in runs of the ring, atomic_queue.cpp, lines 47 to 72. */
module AtomicQueueCalls {
  import opened RingWords
  import opened AtomicQueue
  import Runs

  ghost predicate Run(r: Ring, states: seq<State>, acts: seq<Action>) {
    |states| == |acts| + 1 && forall j | 0 <= j < |acts| :: LeadsAt(r, states, acts, j)
  }

  ghost predicate LeadsAt(r: Ring, states: seq<State>, acts: seq<Action>, j: nat)
    requires |states| == |acts| + 1
  {
    j < |acts| && Leads(r, states[j], acts[j], states[j + 1])
  }

  /** The run of one call of Enqueue, from its beginning up to and including its return. */
  ghost predicate EnqueueCall(r: Ring, states: seq<State>, acts: seq<Action>, item: Bytes) {
    && Run(r, states, acts) && |acts| > 1 && acts[0] == BeginEnqueue(item)
    && (forall j | 0 < j < |acts| :: InCall(states[j]))
    && states[|acts|].producer.PIdle?
  }

  predicate InCall(s: State) {
    !s.producer.PIdle?
  }

  /** The queue holds as many items as it has room for. */
  predicate IsFull(r: Ring, s: State) {
    |s.values| == |s.delivered| + r.items
  }

  /** The call returns true at this state's next step, rather than false. */
  predicate Accepts(s: State) {
    s.producer.PCopy?
  }

  lemma {:induction false} RunReachable(r: Ring, n: nat, states: seq<State>, acts: seq<Action>, j: nat)
    requires Run(r, states, acts) && Reachable(r, n, states[0]) && j <= |acts|
    ensures Reachable(r, n, states[j])
    decreases j
  {
    if j > 0 {
      RunReachable(r, n, states, acts, j - 1);
      assert LeadsAt(r, states, acts, j - 1);
      StepReachable(r, n, states[j - 1], acts[j - 1], states[j]);
    }
  }

  lemma StepEnqueues(r: Ring, s: State, a: Action, s': State, item: Bytes)
    requires Leads(r, s, a, s') && InCall(s) && s.producer.item == item && InCall(s')
    ensures s'.producer.item == item && s'.values == s.values
  {
  }

  lemma {:induction false} EnqueuesUntil(r: Ring, states: seq<State>, acts: seq<Action>, item: Bytes, n: nat)
    requires EnqueueCall(r, states, acts, item) && 0 < n < |acts|
    ensures InCall(states[n]) && states[n].producer.item == item && states[n].values == states[0].values
    decreases n
  {
    assert LeadsAt(r, states, acts, n - 1) && InCall(states[n]);
    if n > 1 {
      EnqueuesUntil(r, states, acts, item, n - 1);
      StepEnqueues(r, states[n - 1], acts[n - 1], states[n], item);
    }
  }

  /** Where the head that the producer has read was read. */
  ghost predicate HeadReadAt(states: seq<State>, n: nat, j: nat) {
    j < n < |states| && states[n].producer.PTail? && |states[j].delivered| == states[n].producer.headPos
  }

  lemma {:induction false} HeadWasRead(r: Ring, states: seq<State>, acts: seq<Action>, item: Bytes, n: nat)
    requires EnqueueCall(r, states, acts, item) && 0 < n < |acts| && states[n].producer.PTail?
    ensures exists j :: 0 < j && HeadReadAt(states, n, j)
    decreases n
  {
    assert LeadsAt(r, states, acts, n - 1);
    if states[n - 1].producer.PTail? {
      HeadWasRead(r, states, acts, item, n - 1);
      var j :| 0 < j && HeadReadAt(states, n - 1, j);
      assert HeadReadAt(states, n, j);
    } else {
      assert HeadReadAt(states, n, n - 1);
    }
  }

  lemma LastStep(r: Ring, s: State, a: Action, s': State)
    requires Valid(r) && Inv(r, s) && Leads(r, s, a, s') && InCall(s) && !InCall(s')
    ensures s.producer.PTail? || s.producer.PCopy?
    ensures if Accepts(s) then s'.values == s.values + [s.producer.item] && s'.delivered == s.delivered
            else s'.values == s.values && |s.values| == s.producer.headPos + r.items
  {
    if s.producer.PTail? {
      FullIff(r, s);
    }
  }

  /** Whatever the consumers do meanwhile, a call of Enqueue that returns true has appended the item it was called with
      to those enqueued before; one that returns false has appended nothing, and the queue was full at some moment
      of the call. */
  lemma EnqueueAppends(r: Ring, n: nat, states: seq<State>, acts: seq<Action>, item: Bytes)
    requires Valid(r) && EnqueueCall(r, states, acts, item) && Reachable(r, n, states[0])
    ensures var s, s' := states[|acts| - 1], states[|acts|];
            if Accepts(s) then s'.values == states[0].values + [item] && s'.delivered == s.delivered
            else s'.values == states[0].values && exists j :: 0 < j < |acts| && IsFull(r, states[j])
  {
    var last := |acts| - 1;
    assert LeadsAt(r, states, acts, last);
    EnqueuesUntil(r, states, acts, item, last);
    RunReachable(r, n, states, acts, last);
    ReachableInv(r, n, states[last]);
    LastStep(r, states[last], acts[last], states[last + 1]);
    if !Accepts(states[last]) {
      HeadWasRead(r, states, acts, item, last);
      var j :| 0 < j && HeadReadAt(states, last, j);
      EnqueuesUntil(r, states, acts, item, j);
      assert IsFull(r, states[j]);
    }
  }
}
