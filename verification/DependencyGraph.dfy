/** Dependency lists and their transpose.

    A graph gives, for every node, the list of the nodes it depends on (with repetitions allowed).
    An entry `(i, j)` of the graph is the j-th dependency of node i; its source is `g[i][j]`.
    The child list of a node d is the list of all entries whose source is d, in the order in
    which two nested loops over nodes and dependencies meet them. */
module DependencyGraph {

  const MAX_DEPENDS := 8
  const MAX_NODES := 256

  type Graph = seq<seq<nat>>
  type Entry = (nat, nat)

  /** What the constructor asserts of its input, plus 1 <= |g| <= MAX_NODES. */
  ghost predicate Valid(g: Graph) {
    && 1 <= |g| <= MAX_NODES
    && (forall i | 0 <= i < |g| :: |g[i]| <= MAX_DEPENDS)
    && (forall i, j | 0 <= i < |g| && 0 <= j < |g[i]| :: g[i][j] < |g|)
  }

  /** (i, j) is a scan position: i rows are complete, and j entries of row i. */
  predicate Position(g: Graph, i: nat, j: nat) {
    i <= |g| && j <= if i < |g| then |g[i]| else 0
  }

  predicate IsEntry(g: Graph, e: Entry) {
    e.0 < |g| && e.1 < |g[e.0]|
  }

  predicate Before(e: Entry, i: nat, j: nat) {
    e.0 < i || (e.0 == i && e.1 < j)
  }

  /** The entries with source d met before position (i, j). */
  function Entries(g: Graph, d: nat, i: nat, j: nat): seq<Entry>
    requires Position(g, i, j)
    decreases i, j
  {
    if j > 0 then Entries(g, d, i, j - 1) + (if g[i][j - 1] == d then [(i, j - 1)] else [])
    else if i > 0 then Entries(g, d, i - 1, |g[i - 1]|)
    else []
  }

  function ChildEntries(g: Graph, d: nat): seq<Entry> {
    Entries(g, d, |g|, 0)
  }

  function Owners(es: seq<Entry>): (r: seq<nat>)
    ensures |r| == |es|
    ensures forall k | 0 <= k < |r| :: r[k] == es[k].0
  {
    seq(|es|, k requires 0 <= k < |es| => es[k].0)
  }

  /** The nodes below n that have no dependency, in increasing order. */
  function RootsBelow(g: Graph, n: nat): seq<nat>
    requires n <= |g|
  {
    if n == 0 then [] else RootsBelow(g, n - 1) + (if |g[n - 1]| == 0 then [n - 1] else [])
  }

  function Roots(g: Graph): seq<nat> {
    RootsBelow(g, |g|)
  }

  function EntryCount(g: Graph, i: nat): nat
    requires i <= |g|
  {
    if i == 0 then 0 else EntryCount(g, i - 1) + |g[i - 1]|
  }

  /** The total length of the child lists of the nodes below d: where the slice of d starts. */
  function Offset(g: Graph, d: nat): nat {
    if d == 0 then 0 else Offset(g, d - 1) + |ChildEntries(g, d - 1)|
  }

  /** A node's child list holds exactly the entries that name it as a dependency ... */
  lemma {:induction false} EntriesExact(g: Graph, d: nat, i: nat, j: nat, e: Entry)
    requires Position(g, i, j)
    ensures e in Entries(g, d, i, j) <==> IsEntry(g, e) && g[e.0][e.1] == d && Before(e, i, j)
    decreases i, j
  {
    if j > 0 {
      EntriesExact(g, d, i, j - 1, e);
    } else if i > 0 {
      EntriesExact(g, d, i - 1, |g[i - 1]|, e);
    }
  }

  /** ... each once, and in increasing order of (node, dependency number). */
  lemma {:induction false} EntriesIncrease(g: Graph, d: nat, i: nat, j: nat)
    requires Position(g, i, j)
    ensures forall k, l | 0 <= k < l < |Entries(g, d, i, j)| ::
              Before(Entries(g, d, i, j)[k], Entries(g, d, i, j)[l].0, Entries(g, d, i, j)[l].1)
    decreases i, j
  {
    if j > 0 {
      EntriesIncrease(g, d, i, j - 1);
      var es := Entries(g, d, i, j - 1);
      forall k | 0 <= k < |es| ensures Before(es[k], i, j - 1) {
        EntriesExact(g, d, i, j - 1, es[k]);
      }
    } else if i > 0 {
      EntriesIncrease(g, d, i - 1, |g[i - 1]|);
    }
  }

  /** Scanning further only appends. */
  lemma {:induction false} EntriesGrow(g: Graph, d: nat, i: nat, j: nat, i': nat, j': nat)
    requires Position(g, i, j) && Position(g, i', j')
    requires i < i' || (i == i' && j <= j')
    ensures Entries(g, d, i, j) <= Entries(g, d, i', j')
    decreases i', j'
  {
    if j' > 0 && (i < i' || j < j') {
      EntriesGrow(g, d, i, j, i', j' - 1);
    } else if j' == 0 && i < i' {
      EntriesGrow(g, d, i, j, i' - 1, |g[i' - 1]|);
    }
  }

  /** The sum, over the nodes below d, of the entries already met. */
  ghost function Met(g: Graph, d: nat, i: nat, j: nat): nat
    requires Position(g, i, j)
    decreases d
  {
    if d == 0 then 0 else Met(g, d - 1, i, j) + |Entries(g, d - 1, i, j)|
  }

  lemma {:induction false} MetStep(g: Graph, d: nat, i: nat, j: nat)
    requires Position(g, i, j) && j > 0
    ensures Met(g, d, i, j) == Met(g, d, i, j - 1) + if g[i][j - 1] < d then 1 else 0
    decreases d
  {
    if d > 0 {
      MetStep(g, d - 1, i, j);
    }
  }

  lemma {:induction false} MetRow(g: Graph, d: nat, i: nat)
    requires 0 < i <= |g|
    ensures Met(g, d, i, 0) == Met(g, d, i - 1, |g[i - 1]|)
    decreases d
  {
    if d > 0 {
      MetRow(g, d - 1, i);
    }
  }

  lemma {:induction false} MetAll(g: Graph, i: nat, j: nat)
    requires Valid(g) && Position(g, i, j)
    ensures Met(g, |g|, i, j) == EntryCount(g, i) + j
    decreases i, j
  {
    if j > 0 {
      MetStep(g, |g|, i, j);
      MetAll(g, i, j - 1);
    } else if i > 0 {
      MetRow(g, |g|, i);
      MetAll(g, i - 1, |g[i - 1]|);
    } else {
      MetNone(g, |g|);
    }
  }

  lemma {:induction false} MetNone(g: Graph, d: nat)
    ensures Met(g, d, 0, 0) == 0
    decreases d
  {
    if d > 0 {
      MetNone(g, d - 1);
    }
  }

  lemma {:induction false} MetOffset(g: Graph, d: nat)
    ensures Met(g, d, |g|, 0) == Offset(g, d)
    decreases d
  {
    if d > 0 {
      MetOffset(g, d - 1);
    }
  }

  /** The child slices together are as long as all the dependency lists together. */
  lemma SlicesTile(g: Graph)
    requires Valid(g)
    ensures Offset(g, |g|) == EntryCount(g, |g|)
  {
    MetAll(g, |g|, 0);
    MetOffset(g, |g|);
  }

  lemma {:induction false} OffsetMonotone(g: Graph, c: nat, d: nat)
    requires c < d
    ensures Offset(g, c) + |ChildEntries(g, c)| <= Offset(g, d)
    decreases d
  {
    if c < d - 1 {
      OffsetMonotone(g, c, d - 1);
    }
  }

  lemma {:induction false} RootsExact(g: Graph, n: nat)
    requires n <= |g|
    ensures forall r: nat :: r in RootsBelow(g, n) <==> r < n && |g[r]| == 0
    ensures forall k, l | 0 <= k < l < |RootsBelow(g, n)| :: RootsBelow(g, n)[k] < RootsBelow(g, n)[l]
    ensures |RootsBelow(g, n)| <= n
  {
    if n > 0 {
      RootsExact(g, n - 1);
      var rs := RootsBelow(g, n - 1);
      assert forall k | 0 <= k < |rs| :: rs[k] in rs;
    }
  }

  lemma {:induction false} RootsGrow(g: Graph, m: nat, n: nat)
    requires m <= n <= |g|
    ensures RootsBelow(g, m) <= RootsBelow(g, n)
    decreases n
  {
    if m < n {
      RootsGrow(g, m, n - 1);
    }
  }
}
