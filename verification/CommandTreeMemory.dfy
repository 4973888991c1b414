/** The tree that the protocol runs on is the one that the constructor has left in memory. */
module CommandTreeMemory {
  import opened DependencyGraph
  import opened CommandTree
  import Run = CommandTreeRun
  import Theorems = CommandTreeTheorems
  import Pool = CommandTreeOnPool
  import PoolTheorems = CommandTreeOnPoolTheorems

  /** The children that a record points to. */
  function SliceOf(node: CommandNode, kids: seq<nat>): seq<nat> {
    if 0 <= node.children && node.children + node.numChildren <= |kids|
    then kids[node.children..node.children + node.numChildren]
    else []
  }

  /** The tree as it is read from memory; the dependency lists themselves are not stored. */
  function Read(g: Graph, nodes: seq<CommandNode>, roots: seq<nat>, kids: seq<nat>): Run.Tree {
    Run.Tree(seq(|nodes|, d requires 0 <= d < |nodes| => nodes[d].numDependencies),
             seq(|nodes|, d requires 0 <= d < |nodes| => SliceOf(nodes[d], kids)),
             roots, g, seq(|g|, d requires 0 <= d < |g| => ChildEntries(g, d)))
  }

  /** What is read from memory after the constructor is the tree that the protocol's theorems are about, and its
      counters are those of the initial state. */
  lemma ReadIsBuild(g: Graph, nodes: seq<CommandNode>, roots: seq<nat>, kids: seq<nat>, numThreads: nat)
    requires Transposed(g, nodes, roots, kids)
    ensures Read(g, nodes, roots, kids) == Run.Build(g)
    ensures seq(|nodes|, d requires 0 <= d < |nodes| => nodes[d].dependenciesFinished) == Run.Init(Run.Build(g), numThreads).counters
  {
    forall d | 0 <= d < |g|
      ensures nodes[d].numDependencies == |g[d]| && SliceOf(nodes[d], kids) == Owners(ChildEntries(g, d))
      ensures nodes[d].dependenciesFinished == 0
    {
      assert IsRecord(g, d, nodes[d], kids);
      LeafHasNoEntries(g, d);
    }
    assert Read(g, nodes, roots, kids).needed == Run.Build(g).needed;
    assert Read(g, nodes, roots, kids).children == Run.Build(g).children;
  }

  /** Main result: an execution on the tree that the constructor has left in memory is finite, and if no routine
      fails it ends complete. */
  lemma ConstructedTreeCompletes(g: Graph, nodes: seq<CommandNode>, roots: seq<nat>, kids: seq<nat>, numThreads: nat,
                                 s: Run.State, acts: seq<Run.Action>, s': Run.State)
    requires Valid(g) && Theorems.Acyclic(g) && numThreads >= 1 && Transposed(g, nodes, roots, kids)
    requires Run.Reachable(Read(g, nodes, roots, kids), numThreads, s)
    requires Theorems.Execution(Read(g, nodes, roots, kids), s, acts, s') && Theorems.NoFailure(s')
    ensures Run.Typed(Read(g, nodes, roots, kids), s) && |acts| <= Theorems.Measure(Read(g, nodes, roots, kids), s)
    ensures Run.Typed(Read(g, nodes, roots, kids), s')
    ensures Theorems.Stuck(Read(g, nodes, roots, kids), s') ==> Theorems.Complete(Read(g, nodes, roots, kids), s')
  {
    ReadIsBuild(g, nodes, roots, kids, numThreads);
    Theorems.EveryExecutionCompletes(g, numThreads, s, acts, s');
  }

  /** And a call of ExecuteCommands on it, on the pool's worker loop, is finite and ends with the caller returned. */
  lemma ConstructedTreeReturns(g: Graph, nodes: seq<CommandNode>, roots: seq<nat>, kids: seq<nat>, numThreads: nat,
                               s: Pool.State, acts: seq<Pool.Action>, s': Pool.State)
    requires Valid(g) && Theorems.Acyclic(g) && numThreads >= 1 && Transposed(g, nodes, roots, kids)
    requires Pool.Reachable(Read(g, nodes, roots, kids), numThreads, s)
    requires PoolTheorems.Execution(Read(g, nodes, roots, kids), s, acts, s')
    ensures Pool.Typed(Read(g, nodes, roots, kids), s) && |acts| <= PoolTheorems.Measure(Read(g, nodes, roots, kids), s)
    ensures PoolTheorems.Stuck(s') ==>
              && s'.joined && PoolTheorems.Resting(s')
              && if Theorems.NoFailure(s'.tree) then Theorems.Complete(Read(g, nodes, roots, kids), s'.tree)
                 else s'.tree.returnValue != 0
  {
    ReadIsBuild(g, nodes, roots, kids, numThreads);
    PoolTheorems.EveryCallReturns(g, numThreads, s, acts, s');
  }
}
