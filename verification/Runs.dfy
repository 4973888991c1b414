/** Runs of a transition system given by its initial states and its steps. */
module Runs {

  ghost predicate ReachedIn<S(!new)>(init: S -> bool, step: (S, S) -> bool, s: S, n: nat) {
    if n == 0 then init(s) else exists p :: ReachedIn(init, step, p, n - 1) && step(p, s)
  }

  ghost predicate Reachable<S(!new)>(init: S -> bool, step: (S, S) -> bool, s: S) {
    exists n: nat :: ReachedIn(init, step, s, n)
  }

  lemma InitReachable<S(!new)>(init: S -> bool, step: (S, S) -> bool, s: S)
    requires init(s)
    ensures Reachable(init, step, s)
  {
    assert ReachedIn(init, step, s, 0);
  }

  lemma StepReachable<S(!new)>(init: S -> bool, step: (S, S) -> bool, s: S, s': S)
    requires Reachable(init, step, s) && step(s, s')
    ensures Reachable(init, step, s')
  {
    var n: nat :| ReachedIn(init, step, s, n);
    assert ReachedIn(init, step, s', n + 1);
  }

  /** What holds initially and is kept by every step holds in every reachable state. */
  lemma Invariance<S(!new)>(init: S -> bool, step: (S, S) -> bool, inv: S -> bool, s: S)
    requires forall x | init(x) :: inv(x)
    requires forall x, y | inv(x) && step(x, y) :: inv(y)
    requires Reachable(init, step, s)
    ensures inv(s)
  {
    var n: nat :| ReachedIn(init, step, s, n);
    InvarianceIn(init, step, inv, s, n);
  }

  lemma {:induction false} InvarianceIn<S(!new)>(init: S -> bool, step: (S, S) -> bool, inv: S -> bool, s: S, n: nat)
    requires forall x | init(x) :: inv(x)
    requires forall x, y | inv(x) && step(x, y) :: inv(y)
    requires ReachedIn(init, step, s, n)
    ensures inv(s)
    decreases n
  {
    if n > 0 {
      var p :| ReachedIn(init, step, p, n - 1) && step(p, s);
      InvarianceIn(init, step, inv, p, n - 1);
    }
  }
}
