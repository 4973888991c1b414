/** The constructor of the command tree: ycommon/containers/command_tree.cpp, lines 66 to 154.
    Node pointers are modelled as node indexes, and the three regions carved out of the caller's
    buffer as three arrays. */
module CommandTree {
  import opened DependencyGraph

  /** The structural part of a command node; `children` is the start of the node's slice
      of the shared children array, or -1 for the null pointer. */
  datatype CommandNode = CommandNode(dependenciesFinished: nat, numDependencies: nat,
                                     numChildren: nat, children: int)

  function Fresh(g: Graph, d: nat): CommandNode
    requires d < |g|
  {
    CommandNode(0, |g[d]|, 0, -1)
  }

  /** The record of node d once its children are counted and its slice is assigned. */
  function Sliced(g: Graph, d: nat): CommandNode
    requires d < |g|
  {
    Fresh(g, d).(numChildren := |ChildEntries(g, d)|,
                 children := if |ChildEntries(g, d)| == 0 then -1 else Offset(g, d))
  }

  /** The stretch of `kids` from `base` on starts with the owners of the entries `es`. */
  ghost predicate Holds(kids: seq<nat>, base: nat, es: seq<Entry>) {
    && base + |es| <= |kids|
    && forall k | 0 <= k < |es| :: kids[base + k] == es[k].0
  }

  /** Every slice holds the owners of the entries met before position (i, n), in order. */
  ghost predicate FilledTo(g: Graph, kids: seq<nat>, i: nat, n: nat)
    requires Position(g, i, n)
  {
    forall d | 0 <= d < |g| :: Holds(kids, Offset(g, d), Entries(g, d, i, n))
  }

  /** No node depends on d. */
  predicate IsLeaf(g: Graph, d: nat) {
    forall i, j | 0 <= i < |g| && 0 <= j < |g[i]| :: g[i][j] != d
  }

  /** The record of node d: its counter starts at 0, it waits for as many nodes as it depends on, and its slice holds
      the owners of the entries that name it; the null pointer stands for no children. */
  ghost predicate IsRecord(g: Graph, d: nat, node: CommandNode, kids: seq<nat>) {
    && d < |g|
    && node.dependenciesFinished == 0 && node.numDependencies == |g[d]| && node.numChildren == |ChildEntries(g, d)|
    && (if IsLeaf(g, d) then node.numChildren == 0 && node.children == -1
        else
          && 0 <= node.children == Offset(g, d) && node.children + node.numChildren <= |kids|
          && kids[node.children..node.children + node.numChildren] == Owners(ChildEntries(g, d)))
  }

  /** The tree in memory is the transpose of the dependency lists: slice d lists every node once
      for each of its dependencies on d, in increasing order, the slices lie one after the other
      and fill the children array, and the root array lists the nodes without dependencies. */
  ghost predicate Transposed(g: Graph, nodes: seq<CommandNode>, roots: seq<nat>, kids: seq<nat>) {
    && |nodes| == |g|
    && (forall d | 0 <= d < |g| :: IsRecord(g, d, nodes[d], kids))
    && |kids| == EntryCount(g, |g|) == Offset(g, |g|)
    && roots == Roots(g)
  }

  class CommandTree {
    var commandNodes: array<CommandNode>
    var rootNodes: array<nat>
    var numRootNodes: nat
    var numNodes: nat
    var childrenNodes: array<nat>

    constructor ()
      ensures fresh(commandNodes) && fresh(rootNodes) && fresh(childrenNodes)
    {
      commandNodes := new CommandNode[0];
      rootNodes := new nat[0];
      numRootNodes, numNodes := 0, 0;
      childrenNodes := new nat[0];
    }

    method ConstructTree(nodes: Graph)
      requires Valid(nodes)
      modifies this
      ensures fresh(commandNodes) && fresh(rootNodes) && fresh(childrenNodes)
      ensures Transposed(nodes, commandNodes[..], rootNodes[..], childrenNodes[..])
      ensures numRootNodes == rootNodes.Length && numNodes == |nodes|
    {
      var cmds, roots, kids := LayOut(nodes);
      commandNodes, rootNodes, numRootNodes, childrenNodes := cmds, roots, roots.Length, kids;
      numNodes := |nodes|;
    }
  }

  method LayOut(nodes: Graph) returns (cmds: array<CommandNode>, roots: array<nat>, kids: array<nat>)
    requires Valid(nodes)
    ensures fresh(cmds) && fresh(roots) && fresh(kids)
    ensures Transposed(nodes, cmds[..], roots[..], kids[..])
  {
    cmds := InitializeNodes(nodes);
    var total, numRoots := CountChildren(nodes, cmds);
    roots := new nat[numRoots];
    kids := new nat[total];
    AssignSlices(nodes, cmds);
    AssignChildren(nodes, cmds, roots, kids);
    FilledTree(nodes, cmds[..], roots[..], kids[..]);
  }

  method InitializeNodes(nodes: Graph) returns (cmds: array<CommandNode>)
    requires Valid(nodes)
    ensures fresh(cmds) && cmds.Length == |nodes|
    ensures forall d | 0 <= d < |nodes| :: cmds[d] == CommandNode(0, |nodes[d]|, 0, -1)
  {
    cmds := new CommandNode[|nodes|];
    for i := 0 to |nodes|
      invariant forall d | 0 <= d < i :: cmds[d] == CommandNode(0, |nodes[d]|, 0, -1)
    {
      cmds[i] := CommandNode(0, |nodes[i]|, 0, -1);
    }
  }

  /** First pass: how many children each node has, and how many nodes are roots. */
  method CountChildren(nodes: Graph, cmds: array<CommandNode>) returns (total: nat, numRoots: nat)
    requires Valid(nodes) && cmds.Length == |nodes|
    requires forall d | 0 <= d < |nodes| :: cmds[d] == Fresh(nodes, d)
    modifies cmds
    ensures forall d | 0 <= d < |nodes| ::
              cmds[d] == Fresh(nodes, d).(numChildren := |ChildEntries(nodes, d)|)
    ensures total == EntryCount(nodes, |nodes|) && numRoots == |Roots(nodes)|
  {
    total, numRoots := 0, 0;
    for i := 0 to |nodes|
      invariant forall d | 0 <= d < |nodes| ::
                  cmds[d] == Fresh(nodes, d).(numChildren := |Entries(nodes, d, i, 0)|)
      invariant total == EntryCount(nodes, i) && numRoots == |RootsBelow(nodes, i)|
    {
      if |nodes[i]| != 0 {
        for n := 0 to |nodes[i]|
          invariant forall d | 0 <= d < |nodes| ::
                      cmds[d] == Fresh(nodes, d).(numChildren := |Entries(nodes, d, i, n)|)
        {
          var dep := nodes[i][n];
          cmds[dep] := cmds[dep].(numChildren := cmds[dep].numChildren + 1);
        }
        total := total + |nodes[i]|;
      } else {
        numRoots := numRoots + 1;
      }
    }
  }

  /** Second pass: every node with children gets the next free stretch of the children array. */
  method AssignSlices(nodes: Graph, cmds: array<CommandNode>)
    requires Valid(nodes) && cmds.Length == |nodes|
    requires forall d | 0 <= d < |nodes| ::
               cmds[d] == Fresh(nodes, d).(numChildren := |ChildEntries(nodes, d)|)
    modifies cmds
    ensures forall d | 0 <= d < |nodes| :: cmds[d] == Sliced(nodes, d)
  {
    var used := 0;
    for i := 0 to |nodes|
      invariant used == Offset(nodes, i)
      invariant forall d | 0 <= d < i :: cmds[d] == Sliced(nodes, d)
      invariant forall d | i <= d < |nodes| ::
                  cmds[d] == Fresh(nodes, d).(numChildren := |ChildEntries(nodes, d)|)
    {
      if cmds[i].numChildren != 0 {
        cmds[i] := cmds[i].(children := used);
        used := used + cmds[i].numChildren;
      }
    }
  }

  /** Third pass: write each node into the slice of every dependency it names. */
  method AssignChildren(nodes: Graph, cmds: array<CommandNode>, roots: array<nat>, kids: array<nat>)
    requires Valid(nodes) && cmds.Length == |nodes|
    requires forall d | 0 <= d < |nodes| :: cmds[d] == Sliced(nodes, d)
    requires kids.Length == EntryCount(nodes, |nodes|) && roots.Length == |Roots(nodes)|
    requires roots != kids
    modifies roots, kids
    ensures roots[..] == Roots(nodes)
    ensures FilledTo(nodes, kids[..], |nodes|, 0)
  {
    var currentRoots := 0;
    var cursor := new nat[MAX_NODES](_ => 0);
    SlicesFit(nodes);
    for i := 0 to |nodes|
      invariant currentRoots == |RootsBelow(nodes, i)| <= roots.Length
      invariant roots[..currentRoots] == RootsBelow(nodes, i)
      invariant forall d | 0 <= d < |nodes| :: cursor[d] == |Entries(nodes, d, i, 0)|
      invariant FilledTo(nodes, kids[..], i, 0)
    {
      RootsGrow(nodes, i + 1, |nodes|);
      if |nodes[i]| != 0 {
        AssignToDependencies(nodes, i, cmds, cursor, kids);
      } else {
        roots[currentRoots] := i;
        currentRoots := currentRoots + 1;
      }
      RowComplete(nodes, i);
    }
  }

  method AssignToDependencies(nodes: Graph, i: nat, cmds: array<CommandNode>, cursor: array<nat>, kids: array<nat>)
    requires Valid(nodes) && i < |nodes| && cmds.Length == |nodes| && cursor.Length == MAX_NODES
    requires forall d | 0 <= d < |nodes| :: cmds[d] == Sliced(nodes, d)
    requires forall d | 0 <= d < |nodes| :: cursor[d] == |Entries(nodes, d, i, 0)|
    requires kids.Length == EntryCount(nodes, |nodes|) && FilledTo(nodes, kids[..], i, 0)
    requires cursor != kids
    modifies cursor, kids
    ensures forall d | 0 <= d < |nodes| :: cursor[d] == |Entries(nodes, d, i, |nodes[i]|)|
    ensures FilledTo(nodes, kids[..], i, |nodes[i]|)
  {
    for n := 0 to |nodes[i]|
      invariant forall d | 0 <= d < |nodes| :: cursor[d] == |Entries(nodes, d, i, n)|
      invariant FilledTo(nodes, kids[..], i, n)
    {
      var dep := nodes[i][n];
      SlotFilled(nodes, kids[..], i, n);
      ghost var before := kids[..];
      kids[cmds[dep].children + cursor[dep]] := i;
      assert kids[..] == before[SlotOf(nodes, i, n) := i];
      cursor[dep] := cursor[dep] + 1;
    }
  }

  lemma {:induction false} SlicesFit(g: Graph)
    requires Valid(g)
    ensures forall d | 0 <= d < |g| :: Offset(g, d) + |ChildEntries(g, d)| <= EntryCount(g, |g|)
  {
    SlicesTile(g);
    forall d | 0 <= d < |g| ensures Offset(g, d) + |ChildEntries(g, d)| <= EntryCount(g, |g|) {
      OffsetMonotone(g, d, |g|);
    }
  }

  /** Where the owner of the entry at position (i, n) goes. */
  function SlotOf(g: Graph, i: nat, n: nat): nat
    requires i < |g| && n < |g[i]|
  {
    Offset(g, g[i][n]) + |Entries(g, g[i][n], i, n)|
  }

  /** The next entry goes to the next slot of its source's slice; that slot lies inside the slice,
      hence in no other slice. */
  lemma SlotInSlice(g: Graph, i: nat, n: nat)
    requires Valid(g) && i < |g| && n < |g[i]|
    ensures |ChildEntries(g, g[i][n])| > 0
    ensures SlotOf(g, i, n) < Offset(g, g[i][n]) + |ChildEntries(g, g[i][n])| <= EntryCount(g, |g|)
  {
    SlicesFit(g);
    EntriesGrow(g, g[i][n], i, n + 1, |g|, 0);
  }

  lemma SliceStep(g: Graph, kids: seq<nat>, i: nat, n: nat, d: nat)
    requires Valid(g) && i < |g| && n < |g[i]| && d < |g|
    requires SlotOf(g, i, n) < |kids|
    requires Holds(kids, Offset(g, d), Entries(g, d, i, n))
    ensures Holds(kids[SlotOf(g, i, n) := i], Offset(g, d), Entries(g, d, i, n + 1))
  {
    var dep := g[i][n];
    SlotInSlice(g, i, n);
    EntriesGrow(g, d, i, n, |g|, 0);
    if d == dep {
      HoldsOneMore(kids, Offset(g, d), Entries(g, d, i, n), (i, n));
    } else {
      SlicesApart(g, d, dep);
      HoldsStill(kids, Offset(g, d), Entries(g, d, i, n), SlotOf(g, i, n), i);
    }
  }

  lemma SlicesApart(g: Graph, c: nat, d: nat)
    requires c != d
    ensures Offset(g, c) + |ChildEntries(g, c)| <= Offset(g, d) || Offset(g, d) + |ChildEntries(g, d)| <= Offset(g, c)
  {
    if c < d {
      OffsetMonotone(g, c, d);
    } else {
      OffsetMonotone(g, d, c);
    }
  }

  lemma HoldsOneMore(kids: seq<nat>, base: nat, es: seq<Entry>, e: Entry)
    requires Holds(kids, base, es) && base + |es| < |kids|
    ensures Holds(kids[base + |es| := e.0], base, es + [e])
  {
  }

  lemma HoldsStill(kids: seq<nat>, base: nat, es: seq<Entry>, slot: nat, n: nat)
    requires Holds(kids, base, es) && slot < |kids| && (slot < base || base + |es| <= slot)
    ensures Holds(kids[slot := n], base, es)
  {
  }

  lemma HeldSlice(kids: seq<nat>, base: nat, es: seq<Entry>)
    requires Holds(kids, base, es)
    ensures kids[base..base + |es|] == Owners(es)
  {
    forall k | 0 <= k < |es| ensures kids[base..base + |es|][k] == Owners(es)[k] {
      assert kids[base..base + |es|][k] == kids[base + k];
    }
  }

  lemma SlotFilled(g: Graph, kids: seq<nat>, i: nat, n: nat)
    requires Valid(g) && i < |g| && n < |g[i]|
    requires |kids| == EntryCount(g, |g|) && FilledTo(g, kids, i, n)
    ensures |ChildEntries(g, g[i][n])| > 0 && SlotOf(g, i, n) < |kids|
    ensures FilledTo(g, kids[SlotOf(g, i, n) := i], i, n + 1)
  {
    SlotInSlice(g, i, n);
    forall d | 0 <= d < |g|
      ensures Holds(kids[SlotOf(g, i, n) := i], Offset(g, d), Entries(g, d, i, n + 1))
    {
      SliceStep(g, kids, i, n, d);
    }
  }

  lemma RowComplete(g: Graph, i: nat)
    requires i < |g|
    ensures forall d :: Entries(g, d, i, |g[i]|) == Entries(g, d, i + 1, 0)
  {
  }

  lemma LeafHasNoEntries(g: Graph, d: nat)
    ensures IsLeaf(g, d) <==> ChildEntries(g, d) == []
  {
    if ChildEntries(g, d) != [] {
      EntriesExact(g, d, |g|, 0, ChildEntries(g, d)[0]);
    }
    if i, j :| 0 <= i < |g| && 0 <= j < |g[i]| && g[i][j] == d {
      EntriesExact(g, d, |g|, 0, (i, j));
    }
  }

  lemma SlicedIsRecord(g: Graph, d: nat, kids: seq<nat>)
    requires d < |g| && Holds(kids, Offset(g, d), ChildEntries(g, d))
    ensures IsRecord(g, d, Sliced(g, d), kids)
  {
    HeldSlice(kids, Offset(g, d), ChildEntries(g, d));
    LeafHasNoEntries(g, d);
  }

  lemma FilledTree(g: Graph, nodes: seq<CommandNode>, roots: seq<nat>, kids: seq<nat>)
    requires Valid(g) && |nodes| == |g| && forall d | 0 <= d < |g| :: nodes[d] == Sliced(g, d)
    requires roots == Roots(g) && |kids| == EntryCount(g, |g|) && FilledTo(g, kids, |g|, 0)
    ensures Transposed(g, nodes, roots, kids)
  {
    SlicesTile(g);
    forall d | 0 <= d < |g| ensures IsRecord(g, d, nodes[d], kids) {
      SlicedIsRecord(g, d, kids);
    }
  }
}
