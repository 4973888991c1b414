/** The lock-free pool of ycommon/containers/atomic_mem_pool.cpp, lines 74 to 151.

    Any number of threads run Allocate and Remove; every read or write of shared memory is a step
    of its own. The free list lives inside the items themselves: the first 32-bit word of a free item
    is the index of the next one. Clients may overwrite the items they hold at any time, so a thread
    with a stale head word may read anything from an item it takes for free. */
module AtomicMemPool {
  import opened NumberMask

  const NIL: nat := 0xFFFF_FFFF
  const UINT32: nat := 0x1_0000_0000

  datatype Pc =
    | Idle
    | AllocHead(used: nat)                                     // about to read mNextFreeIndex
    | AllocLink(used: nat, word: nat, seen: nat)               // about to read the head item's link
    | AllocSwap(used: nat, word: nat, seen: nat, next: nat)    // about to swing the head to next
    | AllocFresh(used: nat)                                    // found the free list empty
    | FreeHead(index: nat)                                     // about to read mNextFreeIndex
    | FreeLink(index: nat, word: nat, seen: nat)               // about to write the item's link
    | FreeSwap(index: nat, word: nat, seen: nat)               // about to swing the head to index

  /** Who may use an item: nobody yet, the free list, a client, or the thread that is freeing it. */
  datatype Owner = Unused | Free | Held | Freeing(t: nat)

  datatype State = State(
    links: seq<nat>,        // the first word of every item
    used: nat,              // mUsedIndexes
    head: nat,              // mNextFreeIndex
    threads: seq<Pc>,
    // history
    version: nat,           // how often the head has been swung
    free: seq<nat>,         // the free list, head first
    owner: seq<Owner>)

  /** Begin a call, take the next step of one, or let a client write the first word of an item. */
  datatype Action =
    | BeginAllocate(t: nat)
    | BeginRemove(t: nat, index: nat)
    | Step(t: nat)
    | ClientWrite(index: nat, word: nat)

  function Init(numItems: nat, numThreads: nat, links: seq<nat>): State
    requires |links| == numItems
  {
    State(links, 0, ConstructValue(0, NIL), seq(numThreads, _ => Idle), 0, [], seq(numItems, _ => Unused))
  }

  ghost predicate Typed(s: State) {
    && |s.owner| == |s.links| <= NIL
    && s.head < WORDS
    && (forall i | 0 <= i < |s.links| :: s.links[i] < UINT32)
    && forall t | 0 <= t < |s.threads| :: TypedPc(s, s.threads[t])
  }

  ghost predicate TypedPc(s: State, pc: Pc) {
    match pc
    case AllocLink(_, w, _) => GetNum(w) < |s.links|
    case AllocSwap(_, w, _, next) => GetNum(w) < |s.links| && next < UINT32
    case FreeHead(i) => i < |s.links|
    case FreeLink(i, _, _) => i < |s.links|
    case FreeSwap(i, _, _) => i < |s.links|
    case _ => true
  }

  ghost predicate Enabled(s: State, a: Action) {
    match a
    case BeginAllocate(t) => t < |s.threads| && s.threads[t].Idle?
    case BeginRemove(t, i) => t < |s.threads| && s.threads[t].Idle? && i < |s.owner| && s.owner[i].Held?
    case Step(t) => t < |s.threads| && !s.threads[t].Idle?
    case ClientWrite(i, w) => i < |s.owner| && s.owner[i].Held? && w < UINT32
  }

  /** An Allocate's compare-and-swap comes fewer than 256 swings after its read of the head. Nothing is asked of
      a Remove's. */
  ghost predicate Prompt(s: State, a: Action) {
    a.Step? && a.t < |s.threads| && s.threads[a.t].AllocSwap? ==> s.version < s.threads[a.t].seen + COUNTS
  }

  /** If an Allocate's compare-and-swap succeeds, the link it has read is still that of the first free item. */
  ghost predicate LinkCurrent(s: State, a: Action) {
    a.Step? && a.t < |s.threads| && s.threads[a.t].AllocSwap? && s.head == s.threads[a.t].word && s.free != [] ==>
      s.threads[a.t].next == First(s.free[1..])
  }

  ghost function Next(s: State, a: Action): State
    requires Typed(s) && Enabled(s, a)
  {
    match a
    case BeginAllocate(t) => s.(threads := s.threads[t := AllocHead(s.used)])
    case BeginRemove(t, i) => s.(threads := s.threads[t := FreeHead(i)], owner := s.owner[i := Freeing(t)])
    case Step(t) => ThreadNext(s, t)
    case ClientWrite(i, w) => s.(links := s.links[i := w])
  }

  /** After a failed compare-and-swap, or at the start: look at the head just read. */
  ghost function LookAtHead(s: State, used: nat): Pc {
    if GetNum(s.head) != NIL then AllocLink(used, s.head, s.version) else AllocFresh(used)
  }

  function GoTo(s: State, t: nat, pc: Pc): State
    requires t < |s.threads|
  {
    s.(threads := s.threads[t := pc])
  }

  ghost function ThreadNext(s: State, t: nat): State
    requires Typed(s) && Enabled(s, Step(t))
  {
    match s.threads[t]
    case AllocHead(u) => GoTo(s, t, LookAtHead(s, u))
    case AllocLink(u, w, v) => GoTo(s, t, AllocSwap(u, w, v, s.links[GetNum(w)]))
    case AllocSwap(u, w, v, next) =>
      if s.head == w then
        GoTo(s, t, Idle).(head := ConstructNextValue(GetCnt(w), next), version := s.version + 1,
           free := if s.free == [] then [] else s.free[1..], owner := s.owner[GetNum(w) := Held])
      else GoTo(s, t, AllocHead(u))
    case AllocFresh(u) =>
      if u < |s.links| then
        var s' := GoTo(s, t, Idle).(used := (s.used + 1) % UINT32);
        if s.used < |s.links| then s'.(owner := s.owner[s.used := Held]) else s'
      else GoTo(s, t, Idle)
    case FreeHead(i) => GoTo(s, t, FreeLink(i, s.head, s.version))
    case FreeLink(i, w, v) => GoTo(s, t, FreeSwap(i, w, v)).(links := s.links[i := GetNum(w) % UINT32])
    case FreeSwap(i, w, v) =>
      if s.head == w then
        GoTo(s, t, Idle).(head := ConstructNextValue(GetCnt(w), i), version := s.version + 1,
           free := [i] + s.free, owner := s.owner[i := Free])
      else GoTo(s, t, FreeHead(i))
    case Idle => s
  }

  /** What the call returns at this step, if it returns an index. */
  ghost function Returned(s: State, a: Action): int {
    if !a.Step? || a.t >= |s.threads| then -1
    else match s.threads[a.t]
      case AllocSwap(_, w, _, _) => if s.head == w then GetNum(w) else -1
      case AllocFresh(u) => if u < |s.links| && s.used < |s.links| then s.used else -1
      case _ => -1
  }

  // ----- the invariant -----

  ghost function First(free: seq<nat>): nat {
    if free == [] then NIL else free[0]
  }

  /** The links of the listed items chain them up, ending in NIL. */
  ghost predicate Linked(links: seq<nat>, free: seq<nat>) {
    free == [] || (free[0] < |links| && links[free[0]] == First(free[1..]) && Linked(links, free[1..]))
  }

  lemma {:induction false} LinkedWrite(links: seq<nat>, free: seq<nat>, i: nat, word: nat)
    requires Linked(links, free) && i < |links| && i !in free
    ensures Linked(links[i := word], free)
  {
    if free != [] {
      LinkedWrite(links, free[1..], i, word);
    }
  }

  /** What a thread knows from having read the head word w at version `seen`. */
  ghost predicate ReadWord(s: State, w: nat, seen: nat) {
    && seen <= s.version
    && GetNum(w) < UINT32 && w == ConstructValue(seen, GetNum(w))
    && (seen == s.version ==> w == s.head)
  }

  ghost predicate ThreadOk(s: State, t: nat)
    requires Typed(s) && t < |s.threads|
  {
    match s.threads[t]
    case AllocHead(u) => u <= s.used
    case AllocFresh(u) => u <= s.used
    case AllocLink(u, w, v) => u <= s.used && ReadWord(s, w, v)
    case AllocSwap(u, w, v, next) => u <= s.used && ReadWord(s, w, v) && (v == s.version ==> next == s.links[GetNum(w)])
    case FreeHead(i) => s.owner[i] == Freeing(t)
    case FreeLink(i, w, v) => s.owner[i] == Freeing(t) && ReadWord(s, w, v)
    case FreeSwap(i, w, v) => s.owner[i] == Freeing(t) && ReadWord(s, w, v) && s.links[i] == GetNum(w)
    case _ => true
  }

  predicate IsFreeing(pc: Pc) {
    pc.FreeHead? || pc.FreeLink? || pc.FreeSwap?
  }

  predicate Frees(pc: Pc, i: nat) {
    IsFreeing(pc) && pc.index == i
  }

  ghost predicate ItemOk(s: State, i: nat)
    requires Typed(s) && i < |s.owner|
  {
    && (s.owner[i].Unused? <==> s.used <= i)
    && (s.owner[i].Free? <==> i in s.free)
    && (s.owner[i].Freeing? ==> s.owner[i].t < |s.threads| && Frees(s.threads[s.owner[i].t], i))
  }

  ghost predicate ListOk(s: State)
    requires Typed(s)
  {
    && s.head == ConstructValue(s.version, First(s.free))
    && Linked(s.links, s.free)
    && forall k, l | 0 <= k < l < |s.free| :: s.free[k] != s.free[l]
  }

  /** The threads among the first n that may still add to mUsedIndexes. */
  ghost function Pending(s: State, n: nat): (p: nat)
    requires n <= |s.threads|
    ensures p <= n
  {
    if n == 0 then 0 else Pending(s, n - 1) + if MayAdd(s, s.threads[n - 1]) then 1 else 0
  }

  ghost predicate MayAdd(s: State, pc: Pc) {
    (pc.AllocHead? || pc.AllocLink? || pc.AllocSwap? || pc.AllocFresh?) && pc.used < |s.links|
  }

  ghost predicate UsedOk(s: State) {
    s.used <= |s.links| || s.used + Pending(s, |s.threads|) <= |s.links| + |s.threads|
  }

  ghost predicate Inv(s: State) {
    && Typed(s)
    && |s.links| + |s.threads| < UINT32
    && (forall t | 0 <= t < |s.threads| :: ThreadOk(s, t))
    && (forall i | 0 <= i < |s.owner| :: ItemOk(s, i))
    && ListOk(s)
    && UsedOk(s)
  }

  // ----- preservation -----

  lemma HeadWord(s: State)
    requires Inv(s)
    ensures GetNum(s.head) == First(s.free) && ReadWord(s, s.head, s.version)
    ensures s.free != [] ==> s.free[0] < |s.links| && s.owner[s.free[0]].Free?
  {
    assert s.free != [] ==> s.free[0] in s.free;
    assert s.free != [] ==> ItemOk(s, s.free[0]);
    WordParts(s.version, First(s.free));
  }

  /** A compare-and-swap that is prompt succeeds exactly if nobody has swung the head since. */
  lemma SwapIffCurrent(s: State, w: nat, seen: nat)
    requires Inv(s) && ReadWord(s, w, seen) && s.version < seen + COUNTS
    ensures s.head == w <==> seen == s.version
  {
    HeadWord(s);
    SameWord(s.version, First(s.free), seen, GetNum(w));
    NearCounts(seen, s.version);
  }

  lemma {:induction false} PendingUpdate(s: State, s': State, t: nat, n: nat)
    requires t < |s.threads| == |s'.threads| && n <= |s.threads| && |s.links| == |s'.links|
    requires s'.threads == s.threads[t := s'.threads[t]]
    ensures Pending(s', n) == Pending(s, n)
            + if t >= n || MayAdd(s, s.threads[t]) == MayAdd(s', s'.threads[t]) then 0
              else if MayAdd(s', s'.threads[t]) then 1 else -1
  {
    if n > 0 {
      PendingUpdate(s, s', t, n - 1);
    }
  }

  lemma {:induction false} PendingBelow(s: State, t: nat, n: nat)
    requires t < n <= |s.threads| && !MayAdd(s, s.threads[t])
    ensures Pending(s, n) < n
  {
    if t < n - 1 {
      PendingBelow(s, t, n - 1);
    }
  }

  /** Nothing but the state of thread t changes, and it does not start to hold back a used index. */
  /** The invariant, but for thread t. */
  ghost predicate InvBut(s: State, t: nat) {
    && Typed(s)
    && |s.links| + |s.threads| < UINT32
    && (forall u | 0 <= u < |s.threads| && u != t :: ThreadOk(s, u))
    && (forall i | 0 <= i < |s.owner| :: ItemOk(s, i))
    && ListOk(s)
    && UsedOk(s)
  }

  lemma OnlyThread(s: State, s': State, t: nat)
    requires InvBut(s, t) && t < |s.threads| == |s'.threads|
    requires s' == s.(threads := s.threads[t := s'.threads[t]])
    requires Typed(s') && ThreadOk(s', t)
    requires forall i | 0 <= i < |s.owner| && s.owner[i] == Freeing(t) :: Frees(s'.threads[t], i)
    requires MayAdd(s', s'.threads[t]) ==> MayAdd(s, s.threads[t]) || s.used < |s.links|
    ensures Inv(s')
  {
    forall u | 0 <= u < |s'.threads| ensures ThreadOk(s', u) {
      assert u != t ==> ThreadOk(s, u);
    }
    forall i | 0 <= i < |s'.owner| ensures ItemOk(s', i) {
      assert ItemOk(s, i);
    }
    PendingUpdate(s, s', t, |s.threads|);
  }

  lemma OwnsOnly(s: State, t: nat)
    requires Inv(s) && t < |s.threads|
    ensures forall i | 0 <= i < |s.owner| && s.owner[i] == Freeing(t) :: Frees(s.threads[t], i)
  {
    forall i | 0 <= i < |s.owner| && s.owner[i] == Freeing(t) ensures Frees(s.threads[t], i) {
      assert ItemOk(s, i);
    }
  }

  lemma BeginAllocateKeeps(s: State, t: nat)
    requires Inv(s) && Enabled(s, BeginAllocate(t))
    ensures Inv(Next(s, BeginAllocate(t)))
  {
    OwnsOnly(s, t);
    OnlyThread(s, Next(s, BeginAllocate(t)), t);
  }

  /** The steps of Allocate and Remove that only read shared memory. */
  lemma ReadKeeps(s: State, t: nat)
    requires Inv(s) && t < |s.threads|
    requires s.threads[t].AllocHead? || s.threads[t].AllocLink? || s.threads[t].FreeHead?
    ensures Inv(ThreadNext(s, t))
  {
    HeadWord(s);
    assert ThreadOk(s, t);
    OwnsOnly(s, t);
    OnlyThread(s, ThreadNext(s, t), t);
  }

  lemma FailedSwapKeeps(s: State, t: nat)
    requires Inv(s) && t < |s.threads|
    requires s.threads[t].AllocSwap? || s.threads[t].FreeSwap?
    requires s.head != s.threads[t].word
    ensures Inv(ThreadNext(s, t))
  {
    assert ThreadOk(s, t);
    OwnsOnly(s, t);
    OnlyThread(s, ThreadNext(s, t), t);
  }

  lemma FailedFreshKeeps(s: State, t: nat)
    requires Inv(s) && t < |s.threads| && s.threads[t].AllocFresh? && s.threads[t].used >= |s.links|
    ensures Inv(ThreadNext(s, t))
  {
    OwnsOnly(s, t);
    OnlyThread(s, ThreadNext(s, t), t);
  }

  lemma FreshKeepsThread(s: State, t: nat, u: nat)
    requires Inv(s) && t < |s.threads| && s.threads[t].AllocFresh? && s.threads[t].used < |s.links|
    requires s.used + 1 < UINT32 && u < |s.threads|
    ensures Typed(ThreadNext(s, t)) && |ThreadNext(s, t).threads| == |s.threads| && ThreadOk(ThreadNext(s, t), u)
  {
    assert ThreadOk(s, u);
    assert s.used < |s.links| ==> ItemOk(s, s.used);
  }

  lemma FreshKeepsItem(s: State, t: nat, i: nat)
    requires Inv(s) && t < |s.threads| && s.threads[t].AllocFresh? && s.threads[t].used < |s.links|
    requires s.used + 1 < UINT32 && i < |s.owner|
    ensures Typed(ThreadNext(s, t)) && |ThreadNext(s, t).owner| == |s.owner| && ItemOk(ThreadNext(s, t), i)
  {
    assert ItemOk(s, i);
  }

  /** Taking a never-used index; mUsedIndexes stays far from wrapping around. */
  lemma FreshKeeps(s: State, t: nat)
    requires Inv(s) && t < |s.threads| && s.threads[t].AllocFresh? && s.threads[t].used < |s.links|
    ensures Inv(ThreadNext(s, t)) && s.used + 1 < UINT32
  {
    var s' := ThreadNext(s, t);
    PendingUpdate(s, s', t, |s.threads|);
    PendingBelow(s', t, |s.threads|);
    forall u | 0 <= u < |s'.threads| ensures ThreadOk(s', u) {
      FreshKeepsThread(s, t, u);
    }
    forall i | 0 <= i < |s'.owner| ensures ItemOk(s', i) {
      FreshKeepsItem(s, t, i);
    }
  }

  /** A prompt compare-and-swap that succeeds installs the right link. */
  lemma PromptIsCurrent(s: State, a: Action)
    requires Inv(s) && Enabled(s, a) && Prompt(s, a)
    ensures LinkCurrent(s, a)
  {
    if a.Step? && s.threads[a.t].AllocSwap? && s.head == s.threads[a.t].word {
      assert ThreadOk(s, a.t);
      SwapIffCurrent(s, s.threads[a.t].word, s.threads[a.t].seen);
      HeadWord(s);
      assert s.free != [] ==> Linked(s.links, s.free[1..]);
    }
  }

  /** What the head becomes when an Allocate's compare-and-swap succeeds, prompt or not. */
  lemma AllocSwapHead(s: State, t: nat)
    requires Inv(s) && t < |s.threads| && s.threads[t].AllocSwap? && s.head == s.threads[t].word
    ensures s.free != [] && GetNum(s.head) == s.free[0]
    ensures First(s.free[1..]) <= NIL
    ensures ThreadNext(s, t).head == ConstructValue(s.version + 1, s.threads[t].next) < WORDS
  {
    HeadWord(s);
    assert Linked(s.links, s.free[1..]);
    NextWord(s.version, First(s.free), s.threads[t].next);
    WordParts(s.version + 1, s.threads[t].next);
  }

  lemma AllocSwapKeepsList(s: State, t: nat)
    requires Inv(s) && t < |s.threads| && s.threads[t].AllocSwap? && LinkCurrent(s, Step(t))
    requires s.head == s.threads[t].word
    ensures var s' := ThreadNext(s, t);
            s.free != [] && GetNum(s.head) == s.free[0] && s.threads[t].next == First(s.free[1..])
            && Typed(s') && ListOk(s')
  {
    AllocSwapHead(s, t);
  }

  lemma AllocSwapKeeps(s: State, t: nat)
    requires Inv(s) && t < |s.threads| && s.threads[t].AllocSwap? && LinkCurrent(s, Step(t))
    requires s.head == s.threads[t].word
    ensures Inv(ThreadNext(s, t))
  {
    var s' := ThreadNext(s, t);
    AllocSwapKeepsList(s, t);
    OwnsOnly(s, t);
    PendingUpdate(s, s', t, |s.threads|);
    HeadWord(s);
    forall u | 0 <= u < |s'.threads| ensures ThreadOk(s', u) {
      assert ThreadOk(s, u);
    }
    forall i | 0 <= i < |s'.owner| ensures ItemOk(s', i) {
      assert ItemOk(s, i);
      assert s.free == [s.free[0]] + s'.free;
    }
  }

  /** A wrong link leaves the head naming another item than the first free one. */
  lemma WrongLinkBreaks(s: State, t: nat)
    requires Inv(s) && t < |s.threads| && s.threads[t].AllocSwap? && !LinkCurrent(s, Step(t))
    ensures GetNum(ThreadNext(s, t).head) != First(ThreadNext(s, t).free)
    ensures !Inv(ThreadNext(s, t))
  {
    var s' := ThreadNext(s, t);
    AllocSwapHead(s, t);
    WordParts(s.version + 1, s.threads[t].next);
    WordParts(s.version + 1, First(s.free[1..]));
  }

  lemma FreeSwapKeepsList(s: State, t: nat)
    requires Inv(s) && t < |s.threads| && s.threads[t].FreeSwap?
    requires s.head == s.threads[t].word
    ensures var s' := ThreadNext(s, t);
            s.owner[s.threads[t].index] == Freeing(t) && s.threads[t].index !in s.free
            && Typed(s') && ListOk(s')
  {
    assert ThreadOk(s, t);
    var pc := s.threads[t];
    assert ItemOk(s, pc.index);
    HeadWord(s);
    assert ([pc.index] + s.free)[1..] == s.free;
    NextWord(s.version, First(s.free), pc.index);
  }

  lemma FreeSwapKeeps(s: State, t: nat)
    requires Inv(s) && t < |s.threads| && s.threads[t].FreeSwap?
    requires s.head == s.threads[t].word
    ensures Inv(ThreadNext(s, t))
  {
    var s' := ThreadNext(s, t);
    FreeSwapKeepsList(s, t);
    OwnsOnly(s, t);
    PendingUpdate(s, s', t, |s.threads|);
    forall u | 0 <= u < |s'.threads| ensures ThreadOk(s', u) {
      assert ThreadOk(s, u);
    }
    forall i | 0 <= i < |s'.owner| ensures ItemOk(s', i) {
      assert ItemOk(s, i);
    }
  }

  /** Writing an item that is not in the free list harms neither the list nor other threads. */
  lemma WriteKeepsOthers(s: State, i: nat, word: nat)
    requires Inv(s) && i < |s.owner| && (s.owner[i].Held? || s.owner[i].Freeing?) && word < UINT32
    ensures var s' := s.(links := s.links[i := word]);
            && Typed(s') && ListOk(s') && UsedOk(s')
            && (forall u | 0 <= u < |s.threads| && s.owner[i] != Freeing(u) :: ThreadOk(s', u))
            && (forall k | 0 <= k < |s.owner| :: ItemOk(s', k))
  {
    var s' := s.(links := s.links[i := word]);
    assert ItemOk(s, i);
    HeadWord(s);
    SamePending(s, s', |s.threads|);
    LinkedWrite(s.links, s.free, i, word);
    forall u | 0 <= u < |s.threads| && s.owner[i] != Freeing(u) ensures ThreadOk(s', u) {
      assert ThreadOk(s, u);
      if s.threads[u].AllocSwap? && s.threads[u].seen == s.version {
        assert GetNum(s.head) == s.free[0];
      }
    }
    forall k | 0 <= k < |s.owner| ensures ItemOk(s', k) {
      assert ItemOk(s, k);
    }
  }

  lemma {:induction false} SamePending(s: State, s': State, n: nat)
    requires |s.links| == |s'.links| && s.threads == s'.threads && n <= |s.threads|
    ensures Pending(s, n) == Pending(s', n)
  {
    if n > 0 {
      SamePending(s, s', n - 1);
    }
  }

  lemma ClientWriteKeeps(s: State, i: nat, word: nat)
    requires Inv(s) && Enabled(s, ClientWrite(i, word))
    ensures Inv(Next(s, ClientWrite(i, word)))
  {
    WriteKeepsOthers(s, i, word);
  }

  lemma WriteOwn(s: State, t: nat, i: nat, word: nat)
    requires Inv(s) && t < |s.threads| && i < |s.owner| && s.owner[i] == Freeing(t) && word < UINT32
    ensures InvBut(s.(links := s.links[i := word]), t)
  {
    WriteKeepsOthers(s, i, word);
    assert forall u | 0 <= u < |s.threads| && u != t :: s.owner[i] != Freeing(u);
  }

  lemma FreeLinkKeeps(s: State, t: nat)
    requires Inv(s) && t < |s.threads| && s.threads[t].FreeLink?
    ensures Inv(ThreadNext(s, t))
  {
    var pc := s.threads[t];
    assert ThreadOk(s, t);
    OwnsOnly(s, t);
    WriteOwn(s, t, pc.index, GetNum(pc.word));
    OnlyThread(s.(links := s.links[pc.index := GetNum(pc.word)]), ThreadNext(s, t), t);
  }

  lemma BeginRemoveKeeps(s: State, t: nat, i: nat)
    requires Inv(s) && Enabled(s, BeginRemove(t, i))
    ensures Inv(Next(s, BeginRemove(t, i)))
  {
    var s' := Next(s, BeginRemove(t, i));
    OwnsOnly(s, t);
    PendingUpdate(s, s', t, |s.threads|);
    forall u | 0 <= u < |s'.threads| ensures ThreadOk(s', u) {
      assert ThreadOk(s, u);
    }
    forall k | 0 <= k < |s'.owner| ensures ItemOk(s', k) {
      assert ItemOk(s, k);
    }
  }

  lemma CurrentStepInv(s: State, a: Action)
    requires Inv(s) && Enabled(s, a) && LinkCurrent(s, a)
    ensures Inv(Next(s, a))
  {
    match a
    case BeginAllocate(t) => BeginAllocateKeeps(s, t);
    case BeginRemove(t, i) => BeginRemoveKeeps(s, t, i);
    case ClientWrite(i, w) => ClientWriteKeeps(s, i, w);
    case Step(t) =>
      match s.threads[t]
      case AllocHead(_) => ReadKeeps(s, t);
      case AllocLink(_, _, _) => ReadKeeps(s, t);
      case FreeHead(_) => ReadKeeps(s, t);
      case AllocSwap(_, w, _, _) => if s.head == w { AllocSwapKeeps(s, t); } else { FailedSwapKeeps(s, t); }
      case FreeSwap(_, w, _) => if s.head == w { FreeSwapKeeps(s, t); } else { FailedSwapKeeps(s, t); }
      case AllocFresh(u) => if u < |s.links| { FreshKeeps(s, t); } else { FailedFreshKeeps(s, t); }
      case FreeLink(_, _, _) => FreeLinkKeeps(s, t);
  }

  /** Without any bound on staleness: a step keeps the invariant if and only if it is not an Allocate's successful
      compare-and-swap with a link that is no longer current. */
  lemma StepInvIff(s: State, a: Action)
    requires Inv(s) && Enabled(s, a)
    ensures Inv(Next(s, a)) <==> LinkCurrent(s, a)
  {
    if LinkCurrent(s, a) {
      CurrentStepInv(s, a);
    } else {
      WrongLinkBreaks(s, a.t);
    }
  }

  lemma StepInv(s: State, a: Action)
    requires Inv(s) && Enabled(s, a) && Prompt(s, a)
    ensures Inv(Next(s, a))
  {
    PromptIsCurrent(s, a);
    CurrentStepInv(s, a);
  }
}
