/** Runs of the ring that show where its promises end: a full queue and a race misreported by CurrentSize, and
    a swap that comes exactly 256 laps late. */
module AtomicQueueRuns {
  import opened Arithmetic
  import opened NumberMask
  import opened RingWords
  import opened AtomicQueue
  import opened AtomicQueueSize
  import Runs

  // ----- single steps -----

  /** s is reached from `from`, and the invariant holds in it. */
  ghost predicate Reached(r: Ring, from: State -> bool, s: State) {
    Valid(r) && Inv(r, s) && Runs.Reachable(from, Steps(r), s)
  }

  lemma Take(r: Ring, from: State -> bool, s: State, a: Action, s': State)
    requires Reached(r, from, s) && Enabled(r, s, a) && Prompt(r, s, a) && s' == Next(r, s, a)
    ensures Reached(r, from, s')
  {
    StepInv(r, s, a);
    assert Leads(r, s, a, s');
    Runs.StepReachable(from, Steps(r), s, s');
  }

  /** The producer begins, and finds room. */
  lemma Admit(r: Ring, from: State -> bool, s: State, item: Bytes)
    requires Reached(r, from, s) && s.producer.PIdle? && |item| == r.size && |s.values| < |s.delivered| + r.items
    ensures Reached(r, from, s.(producer := PCopy(item, s.tail, 0)))
  {
    var s2 := s.(producer := PTail(item, s.head, |s.delivered|));
    Take(r, from, s, BeginEnqueue(item), s.(producer := PHead(item)));
    Take(r, from, s.(producer := PHead(item)), ProducerStep, s2);
    FullIff(r, s2);
    Take(r, from, s2, ProducerStep, s.(producer := PCopy(item, s.tail, 0)));
  }

  /** The consumer begins, and finds an item. */
  lemma Look(r: Ring, from: State -> bool, s: State, c: nat)
    requires Reached(r, from, s) && c < |s.consumers| && s.consumers[c].CIdle? && |s.delivered| < |s.values|
    ensures Reached(r, from, s.(consumers := s.consumers[c := CCopy(s.head, |s.delivered|, [])]))
  {
    var s2 := s.(consumers := s.consumers[c := CTail(s.head, |s.delivered|)]);
    Take(r, from, s, BeginDequeue(c), s.(consumers := s.consumers[c := CHead]));
    assert s2.consumers == s.consumers[c := CHead][c := CTail(s.head, |s.delivered|)];
    Take(r, from, s.(consumers := s.consumers[c := CHead]), ConsumerStep(c), s2);
    WordsDecide(r, |s.delivered|, |s.values|);
    var s3 := s.(consumers := s.consumers[c := CCopy(s.head, |s.delivered|, [])]);
    assert s3.consumers == s2.consumers[c := CCopy(s.head, |s.delivered|, [])];
    Take(r, from, s2, ConsumerStep(c), s3);
  }

  // ----- one call at a time, for items of one byte -----

  /** The state after an Enqueue without interruption. */
  ghost function Enqueued(r: Ring, s: State, byte: nat): State
    requires r.items > 0 && Offset(r, |s.values|) < |s.buffer|
  {
    s.(tail := Word(r, |s.values| + 1), values := s.values + [[byte]], buffer := s.buffer[Offset(r, |s.values|) := byte])
  }

  lemma WriteByte(r: Ring, from: State -> bool, s: State, byte: nat, s': State)
    requires Reached(r, from, s) && r.size == 1 && s.producer == PCopy([byte], s.tail, 0)
    requires Offset(r, |s.values|) < |s.buffer|
    requires s' == s.(producer := PCopy([byte], s.tail, 1), buffer := s.buffer[Offset(r, |s.values|) := byte])
    ensures Reached(r, from, s')
  {
    WordAt(r, |s.values|);
    Take(r, from, s, ProducerStep, s');
  }

  lemma EnqueueSolo(r: Ring, from: State -> bool, s: State, byte: nat)
    requires Reached(r, from, s) && r.size == 1 && s.producer.PIdle? && |s.values| < |s.delivered| + r.items
    ensures Offset(r, |s.values|) < |s.buffer| && Reached(r, from, Enqueued(r, s, byte))
  {
    OffsetFits(r, |s.values|);
    AdvanceIsNext(r, |s.values|);
    Admit(r, from, s, [byte]);
    var s2 := s.(producer := PCopy([byte], s.tail, 1), buffer := s.buffer[Offset(r, |s.values|) := byte]);
    WriteByte(r, from, s.(producer := PCopy([byte], s.tail, 0)), byte, s2);
    Take(r, from, s2, ProducerStep, Enqueued(r, s, byte));
  }

  /** The state after a Dequeue without interruption. */
  ghost function Dequeued(r: Ring, s: State): State
    requires r.items > 0 && |s.delivered| < |s.values|
  {
    s.(head := Word(r, |s.delivered| + 1), delivered := s.delivered + [s.values[|s.delivered|]])
  }

  /** A consumer that has found the first item copies its one byte. */
  lemma CopyByte(r: Ring, from: State -> bool, s: State, c: nat, s': State)
    requires Reached(r, from, s) && r.size == 1 && c < |s.consumers| && s.consumers[c] == CCopy(s.head, |s.delivered|, [])
    requires |s.delivered| < |s.values|
    requires s' == s.(consumers := s.consumers[c := CCopy(s.head, |s.delivered|, s.values[|s.delivered|])])
    ensures Reached(r, from, s')
  {
    var p := |s.delivered|;
    WordAt(r, p);
    assert Holds(r, s.buffer, p, s.values[p], r.size);
    var none: Bytes := [];
    assert none + [s.buffer[Offset(r, p)]] == s.values[p];
    Take(r, from, s, ConsumerStep(c), s');
  }

  /** And takes it. */
  lemma SwapIn(r: Ring, from: State -> bool, s: State, c: nat, s': State)
    requires Reached(r, from, s) && c < |s.consumers| && |s.delivered| < |s.values|
    requires s.consumers[c] == CCopy(s.head, |s.delivered|, s.values[|s.delivered|])
    requires s' == s.(head := Word(r, |s.delivered| + 1), consumers := s.consumers[c := CIdle],
                      delivered := s.delivered + [s.values[|s.delivered|]])
    ensures Reached(r, from, s')
  {
    AdvanceIsNext(r, |s.delivered|);
    Take(r, from, s, ConsumerStep(c), s');
  }

  lemma DequeueSolo(r: Ring, from: State -> bool, s: State, c: nat)
    requires Reached(r, from, s) && r.size == 1 && c < |s.consumers| && s.consumers[c].CIdle? && |s.delivered| < |s.values|
    ensures Reached(r, from, Dequeued(r, s))
  {
    var p := |s.delivered|;
    Look(r, from, s, c);
    var s1 := s.(consumers := s.consumers[c := CCopy(s.head, p, [])]);
    var s2 := s.(consumers := s.consumers[c := CCopy(s.head, p, s.values[p])]);
    assert s2.consumers == s1.consumers[c := CCopy(s.head, p, s.values[p])];
    CopyByte(r, from, s1, c, s2);
    assert s.consumers == s2.consumers[c := CIdle];
    SwapIn(r, from, s2, c, Dequeued(r, s));
  }

  /** On an empty queue, n times an Enqueue and then a Dequeue. */
  lemma {:induction false} Rounds(r: Ring, from: State -> bool, s: State, byte: nat, c: nat, n: nat) returns (s': State)
    requires Reached(r, from, s) && r.size == 1 && s.producer.PIdle? && s.delivered == s.values
    requires c < |s.consumers| && s.consumers[c].CIdle?
    ensures Reached(r, from, s') && s'.producer.PIdle? && s'.consumers == s.consumers
    ensures s.delivered <= s'.delivered == s'.values && |s'.values| == |s.values| + n
  {
    s' := s;
    if n > 0 {
      var s1 := Rounds(r, from, s, byte, c, n - 1);
      EnqueueSolo(r, from, s1, byte);
      DequeueSolo(r, from, Enqueued(r, s1, byte), c);
      s' := Dequeued(r, Enqueued(r, s1, byte));
    }
  }

  // ----- a race -----

  /** Three items of one byte, one consumer. */
  const THREE: Ring := Ring(1, 3)

  /** One item enqueued; then it is dequeued and another one enqueued. */
  const BEFORE: State := State(0, 1, [5, 0, 0], PIdle, [CIdle], [[5]], [])
  const AFTER: State := State(1, 2, [5, 6, 0], PIdle, [CIdle], [[5], [6]], [[5]])

  lemma ThreeWords()
    ensures Valid(THREE) && Capacity(THREE) == 3
    ensures Word(THREE, 0) == 0 && Word(THREE, 1) == 1 && Word(THREE, 2) == 2
    ensures Offset(THREE, 0) == 0 && Offset(THREE, 1) == 1
  {
    assert Times(3, 1) == 3 && Times(2, 1) == 2;
  }

  lemma BeforeReached()
    ensures Reached(THREE, Initial(THREE, 1), BEFORE)
  {
    ThreeWords();
    var s := Init(1, [0, 0, 0]);
    InitInv(THREE, 1, [0, 0, 0]);
    Runs.InitReachable(Initial(THREE, 1), Steps(THREE), s);
    EnqueueSolo(THREE, Initial(THREE, 1), s, 5);
    assert s.consumers == [CIdle] && s.buffer[0 := 5] == [5, 0, 0];
    assert Enqueued(THREE, s, 5) == BEFORE;
  }

  lemma AfterReached()
    ensures Later(THREE, BEFORE, AFTER)
  {
    ThreeWords();
    BeforeReached();
    Runs.InitReachable(From(BEFORE), Steps(THREE), BEFORE);
    DequeueSolo(THREE, From(BEFORE), BEFORE, 0);
    EnqueueSolo(THREE, From(BEFORE), Dequeued(THREE, BEFORE), 6);
    AfterIs();
  }

  lemma AfterIs()
    ensures Offset(THREE, 1) == 1 && Enqueued(THREE, Dequeued(THREE, BEFORE), 6) == AFTER
  {
    ThreeWords();
    assert [5, 0, 0][1 := 6] == [5, 6, 0] && [[5]] + [[6]] == [[5], [6]];
  }

  /** A CurrentSize that reads mHead before and mTail after one Dequeue and one Enqueue reports two items, though
      the queue holds one at both moments. */
  lemma RaceMisreported()
    ensures Reachable(THREE, 1, BEFORE) && Later(THREE, BEFORE, AFTER)
    ensures |Content(BEFORE)| == |Content(AFTER)| == 1
    ensures CurrentSize(THREE, BEFORE.head, AFTER.tail) == 2
  {
    BeforeReached();
    AfterReached();
    ThreeWords();
    CurrentSizeOf(THREE, 0, 2);
  }

  // ----- a full queue -----

  /** One item of two bytes. */
  const ONE: Ring := Ring(2, 1)

  /** The first k bytes of the item have been written. */
  function Enqueueing(k: nat): State
    requires k <= 2
  {
    State(0, 0, [5, 6][..k] + [0, 0][k..], PCopy([5, 6], 0, k), [], [], [])
  }

  lemma OneItemAdmitted()
    ensures Reached(ONE, Initial(ONE, 0), Enqueueing(0))
  {
    assert Capacity(ONE) == 2 && Times(1, 2) == 2;
    var s := Init(0, [0, 0]);
    InitInv(ONE, 0, [0, 0]);
    Runs.InitReachable(Initial(ONE, 0), Steps(ONE), s);
    Admit(ONE, Initial(ONE, 0), s, [5, 6]);
    assert s.consumers == [] && [5, 6][..0] + [0, 0][0..] == [0, 0];
  }

  lemma OneByteNext(k: nat)
    requires k < 2 && Typed(ONE, Enqueueing(k))
    ensures ProducerNext(ONE, Enqueueing(k)) == Enqueueing(k + 1)
  {
    var buffer := [5, 6][..k] + [0, 0][k..];
    assert buffer[k := [5, 6][k]] == [5, 6][..k + 1] + [0, 0][k + 1..];
  }

  lemma {:induction false} OneItemCopied(k: nat)
    requires k <= 2
    ensures Reached(ONE, Initial(ONE, 0), Enqueueing(k))
  {
    if k == 0 {
      OneItemAdmitted();
    } else {
      OneItemCopied(k - 1);
      OneByteNext(k - 1);
      Take(ONE, Initial(ONE, 0), Enqueueing(k - 1), ProducerStep, Enqueueing(k));
    }
  }

  /** A queue that is full with one item of two bytes reports two items. */
  lemma FullQueueMisreported()
    ensures exists s ::
              && Reachable(ONE, 0, s) && s.values == [[5, 6]] && s.delivered == []
              && CurrentSize(ONE, s.head, s.tail) == 2
  {
    OneItemCopied(2);
    var s := Enqueueing(2);
    var s' := ProducerNext(ONE, s);
    Take(ONE, Initial(ONE, 0), s, ProducerStep, s');
    WordsTellTheState(ONE, 0, s');
  }

  // ----- a swap that comes 256 laps late -----

  /** One item of one byte, two consumers. */
  const LAP: Ring := Ring(1, 1)

  lemma LapWords(p: nat)
    ensures Valid(LAP) && Capacity(LAP) == 1 && Word(LAP, 0) == 0 && Offset(LAP, p) == 0
  {
    assert Times(1, 1) == 1 && Mod(p, 1) == 0;
  }

  lemma FirstItemEnqueued()
    ensures Reached(LAP, Initial(LAP, 2), State(0, Word(LAP, 1), [5], PIdle, [CIdle, CIdle], [[5]], []))
  {
    LapWords(0);
    var s := Init(2, [0]);
    InitInv(LAP, 2, [0]);
    Runs.InitReachable(Initial(LAP, 2), Steps(LAP), s);
    EnqueueSolo(LAP, Initial(LAP, 2), s, 5);
    assert s.consumers == [CIdle, CIdle] && s.buffer[0 := 5] == [5];
    assert Enqueued(LAP, s, 5) == State(0, Word(LAP, 1), [5], PIdle, [CIdle, CIdle], [[5]], []);
  }

  lemma FirstItemCopied()
    ensures Reached(LAP, Initial(LAP, 2), State(0, Word(LAP, 1), [5], PIdle, [CCopy(0, 0, [5]), CIdle], [[5]], []))
  {
    FirstItemEnqueued();
    var s1 := State(0, Word(LAP, 1), [5], PIdle, [CIdle, CIdle], [[5]], []);
    Look(LAP, Initial(LAP, 2), s1, 0);
    var s2 := s1.(consumers := [CCopy(0, 0, []), CIdle]);
    assert s2.consumers == s1.consumers[0 := CCopy(0, 0, [])];
    assert s2.consumers[0 := CCopy(0, 0, [5])] == [CCopy(0, 0, [5]), CIdle];
    CopyByte(LAP, Initial(LAP, 2), s2, 0, s2.(consumers := [CCopy(0, 0, [5]), CIdle]));
  }

  /** Consumer 0 stalls before its swap, and consumer 1 takes the item. */
  lemma FirstItemTaken() returns (s: State)
    ensures Reached(LAP, Initial(LAP, 2), s) && s.producer.PIdle? && s.consumers == [CCopy(0, 0, [5]), CIdle]
    ensures s.delivered == s.values == [[5]]
  {
    FirstItemCopied();
    var s0 := State(0, Word(LAP, 1), [5], PIdle, [CCopy(0, 0, [5]), CIdle], [[5]], []);
    DequeueSolo(LAP, Initial(LAP, 2), s0, 1);
    s := Dequeued(LAP, s0);
  }

  /** When 256 items have been taken since consumer 0 read the head, its swap succeeds: on an empty queue the first
      item is delivered a second time, and then the empty queue looks full. */
  lemma LateSwapDeliversTwice()
    ensures exists s ::
              && Reachable(LAP, 2, s) && Inv(LAP, s) && AboutToSwap(LAP, s, ConsumerStep(0))
              && |s.delivered| == |s.values| == s.consumers[0].pos + COUNTS * LAP.items
              && s.delivered[0] == [5]
              && var s' := ConsumerNext(LAP, s, 0);
                 s'.consumers[0].CIdle? && s'.delivered == s.delivered + [[5]] && LooksFull(s'.head, s'.tail)
  {
    var s1 := FirstItemTaken();
    var s := Rounds(LAP, Initial(LAP, 2), s1, 6, 1, 255);
    SwapAfterLaps(s);
  }

  lemma SwapAfterLaps(s: State)
    requires Inv(LAP, s) && |s.consumers| > 0 && s.consumers[0] == CCopy(0, 0, [5])
    requires |s.delivered| == |s.values| == 256
    ensures var s' := ConsumerNext(LAP, s, 0);
            s'.consumers[0].CIdle? && s'.delivered == s.delivered + [[5]] && LooksFull(s'.head, s'.tail)
  {
    LapWords(0);
    LapWords(256);
    LapWords(257);
    SameWordParts(LAP, 0, 256);
    DivIsQuotient(256, 1);
    AdvanceIsNext(LAP, 256);
    WordAt(LAP, 256);
    WordAt(LAP, 257);
    NearWords(LAP, 256, 257);
  }
}
