/** The single-producer, multi-consumer ring of ycommon/containers/atomic_queue.cpp, lines 47 to 100.

    Every read or write of shared memory is a step of its own, down to the single bytes that memcpy
    moves into and out of the buffer. Positions count the items ever enqueued or dequeued. */
module AtomicQueue {
  import opened Arithmetic
  import opened NumberMask
  import opened RingWords
  import Runs

  type Bytes = seq<nat>

  datatype Producer =
    | PIdle
    | PHead(item: Bytes)                                    // about to read mHead
    | PTail(item: Bytes, head: nat, headPos: nat)           // about to read mTail and test for full
    | PCopy(item: Bytes, tail: nat, k: nat)                 // about to write byte k, or to publish

  datatype Consumer =
    | CIdle
    | CHead                                                 // about to read mHead
    | CTail(head: nat, pos: nat)                            // about to read mTail and test for empty
    | CCopy(head: nat, pos: nat, got: Bytes)                // about to read a byte, or to swing mHead

  datatype State = State(
    head: nat,                  // mHead
    tail: nat,                  // mTail
    buffer: Bytes,
    producer: Producer,
    consumers: seq<Consumer>,
    // history
    values: seq<Bytes>,         // the items published, in order
    delivered: seq<Bytes>)      // the items dequeued, in the order of the successful swaps

  datatype Action =
    | BeginEnqueue(item: Bytes)
    | ProducerStep
    | BeginDequeue(c: nat)
    | ConsumerStep(c: nat)

  function Init(numConsumers: nat, buffer: Bytes): State {
    State(0, 0, buffer, PIdle, seq(numConsumers, _ => CIdle), [], [])
  }

  ghost predicate Typed(r: Ring, s: State) {
    && Valid(r) && |s.buffer| == Capacity(r)
    && (s.producer.PCopy? ==>
          && s.producer.k <= r.size == |s.producer.item|
          && GetNum(s.producer.tail) + r.size <= |s.buffer|)
    && forall c | 0 <= c < |s.consumers| && s.consumers[c].CCopy? ::
         GetNum(s.consumers[c].head) + r.size <= |s.buffer| && |s.consumers[c].got| <= r.size
  }

  ghost predicate Enabled(r: Ring, s: State, a: Action) {
    match a
    case BeginEnqueue(item) => s.producer.PIdle? && |item| == r.size
    case ProducerStep => !s.producer.PIdle?
    case BeginDequeue(c) => c < |s.consumers| && s.consumers[c].CIdle?
    case ConsumerStep(c) => c < |s.consumers| && !s.consumers[c].CIdle?
  }

  /** A consumer's compare-and-swap comes fewer than 256 laps after its read of the head. */
  ghost predicate Prompt(r: Ring, s: State, a: Action) {
    AboutToSwap(r, s, a) ==> |s.delivered| < s.consumers[a.c].pos + COUNTS * r.items
  }

  predicate AboutToSwap(r: Ring, s: State, a: Action) {
    a.ConsumerStep? && a.c < |s.consumers| && s.consumers[a.c].CCopy? && |s.consumers[a.c].got| == r.size
  }

  /** If this step is a successful compare-and-swap, the bytes copied are the first item of the queue. */
  ghost predicate TakesFirst(r: Ring, s: State, a: Action) {
    AboutToSwap(r, s, a) && s.head == s.consumers[a.c].head ==>
      |s.delivered| < |s.values| && s.consumers[a.c].got == s.values[|s.delivered|]
  }

  predicate LooksFull(head: nat, tail: nat) {
    GetNum(head) == GetNum(tail) && head != tail
  }

  ghost function Next(r: Ring, s: State, a: Action): State
    requires Typed(r, s) && Enabled(r, s, a)
  {
    match a
    case BeginEnqueue(item) => s.(producer := PHead(item))
    case ProducerStep => ProducerNext(r, s)
    case BeginDequeue(c) => s.(consumers := s.consumers[c := CHead])
    case ConsumerStep(c) => ConsumerNext(r, s, c)
  }

  ghost function ProducerNext(r: Ring, s: State): State
    requires Typed(r, s)
  {
    match s.producer
    case PIdle => s
    case PHead(item) => s.(producer := PTail(item, s.head, |s.delivered|))
    case PTail(item, head, _) =>
      s.(producer := if LooksFull(head, s.tail) then PIdle else PCopy(item, s.tail, 0))
    case PCopy(item, tail, k) =>
      if k < r.size then
        s.(buffer := s.buffer[GetNum(tail) + k := item[k]], producer := PCopy(item, tail, k + 1))
      else
        s.(tail := Advance(r, tail), producer := PIdle, values := s.values + [item])
  }

  function GoTo(s: State, c: nat, pc: Consumer): State
    requires c < |s.consumers|
  {
    s.(consumers := s.consumers[c := pc])
  }

  ghost function ConsumerNext(r: Ring, s: State, c: nat): State
    requires Typed(r, s) && c < |s.consumers|
  {
    match s.consumers[c]
    case CIdle => s
    case CHead => GoTo(s, c, CTail(s.head, |s.delivered|))
    case CTail(head, pos) => GoTo(s, c, if head == s.tail then CIdle else CCopy(head, pos, []))
    case CCopy(head, pos, got) =>
      if |got| < r.size then GoTo(s, c, CCopy(head, pos, got + [s.buffer[GetNum(head) + |got|]]))
      else if s.head == head then GoTo(s, c, CIdle).(head := Advance(r, head), delivered := s.delivered + [got])
      else GoTo(s, c, CHead)
  }

  // ----- the invariant -----

  /** Slot p holds the first k bytes of the item. */
  ghost predicate Holds(r: Ring, buffer: Bytes, p: nat, item: Bytes, k: nat)
    requires Valid(r)
  {
    && Offset(r, p) + r.size <= |buffer| && k <= |item|
    && forall j | 0 <= j < k && j < r.size :: buffer[Offset(r, p) + j] == item[j]
  }

  ghost predicate ProducerOk(r: Ring, s: State)
    requires Valid(r)
  {
    match s.producer
    case PIdle => true
    case PHead(item) => |item| == r.size
    case PTail(item, head, pos) =>
      && |item| == r.size && head == Word(r, pos)
      && pos <= |s.delivered| && |s.values| <= pos + r.items
    case PCopy(item, tail, k) =>
      && |item| == r.size && tail == Word(r, |s.values|)
      && |s.values| < |s.delivered| + r.items
      && Holds(r, s.buffer, |s.values|, item, k)
  }

  ghost predicate ConsumerOk(r: Ring, s: State, c: nat)
    requires Valid(r) && c < |s.consumers|
  {
    match s.consumers[c]
    case CTail(head, pos) => pos <= |s.delivered| && head == Word(r, pos)
    case CCopy(head, pos, got) =>
      && pos <= |s.delivered| && head == Word(r, pos)
      && pos < |s.values| && |got| <= r.size
      && (pos == |s.delivered| ==> |s.values[pos]| == r.size && got == s.values[pos][..|got|])
    case _ => true
  }

  ghost predicate Inv(r: Ring, s: State) {
    && Typed(r, s)
    && s.head == Word(r, |s.delivered|) && s.tail == Word(r, |s.values|)
    && |s.delivered| <= |s.values| <= |s.delivered| + r.items
    && s.delivered == s.values[..|s.delivered|]
    && (forall p | 0 <= p < |s.values| :: |s.values[p]| == r.size)
    && (forall p | |s.delivered| <= p < |s.values| :: Holds(r, s.buffer, p, s.values[p], r.size))
    && ProducerOk(r, s)
    && (forall c | 0 <= c < |s.consumers| :: ConsumerOk(r, s, c))
  }

  // ----- preservation -----

  lemma InitInv(r: Ring, numConsumers: nat, buffer: Bytes)
    requires Valid(r) && |buffer| == Capacity(r)
    ensures Inv(r, Init(numConsumers, buffer))
  {
  }

  /** Only consumer c moves. */
  lemma OnlyConsumer(r: Ring, s: State, s': State, c: nat)
    requires Inv(r, s) && c < |s.consumers| == |s'.consumers|
    requires s' == s.(consumers := s.consumers[c := s'.consumers[c]])
    requires Typed(r, s') && ConsumerOk(r, s', c)
    ensures Inv(r, s')
  {
    forall d | 0 <= d < |s'.consumers| ensures ConsumerOk(r, s', d) {
      assert ConsumerOk(r, s, d);
    }
  }

  /** A consumer that finds the words equal, if fewer than 256 laps have passed, looks at an empty queue, at that
      very moment. */
  lemma EmptyIff(r: Ring, s: State, c: nat)
    requires Inv(r, s) && c < |s.consumers| && s.consumers[c].CTail? && |s.values| < s.consumers[c].pos + COUNTS * r.items
    ensures s.consumers[c].head == s.tail <==> s.consumers[c].pos == |s.delivered| == |s.values|
  {
    assert ConsumerOk(r, s, c);
    NearWords(r, s.consumers[c].pos, |s.values|);
  }

  lemma ConsumerReadKeeps(r: Ring, s: State, c: nat)
    requires Inv(r, s) && c < |s.consumers|
    requires s.consumers[c].CHead? || s.consumers[c].CTail?
    ensures Inv(r, ConsumerNext(r, s, c))
  {
    assert ConsumerOk(r, s, c);
    if s.consumers[c].CTail? {
      WordAt(r, s.consumers[c].pos);
      OffsetFits(r, s.consumers[c].pos);
    }
    OnlyConsumer(r, s, ConsumerNext(r, s, c), c);
  }

  /** The next byte read is the right one, unless another consumer has taken the item meanwhile. */
  lemma ConsumerByteKeeps(r: Ring, s: State, c: nat)
    requires Inv(r, s) && c < |s.consumers| && s.consumers[c].CCopy? && |s.consumers[c].got| < r.size
    ensures Inv(r, ConsumerNext(r, s, c))
  {
    var CCopy(head, pos, got) := s.consumers[c];
    assert ConsumerOk(r, s, c);
    WordAt(r, pos);
    if pos == |s.delivered| {
      assert Holds(r, s.buffer, pos, s.values[pos], r.size);
      assert got + [s.values[pos][|got|]] == s.values[pos][..|got| + 1];
    }
    OnlyConsumer(r, s, ConsumerNext(r, s, c), c);
  }

  /** A prompt compare-and-swap succeeds exactly if the head has not moved since it was read. */
  lemma SwapIffCurrent(r: Ring, s: State, c: nat)
    requires Inv(r, s) && c < |s.consumers| && s.consumers[c].CCopy?
    requires |s.consumers[c].got| == r.size && Prompt(r, s, ConsumerStep(c))
    ensures s.head == s.consumers[c].head <==> s.consumers[c].pos == |s.delivered|
  {
    assert ConsumerOk(r, s, c);
    NearWords(r, s.consumers[c].pos, |s.delivered|);
  }

  lemma PromptTakesFirst(r: Ring, s: State, a: Action)
    requires Inv(r, s) && Prompt(r, s, a)
    ensures TakesFirst(r, s, a)
  {
    if AboutToSwap(r, s, a) {
      SwapIffCurrent(r, s, a.c);
      assert ConsumerOk(r, s, a.c);
    }
  }

  lemma ConsumerSwapKeeps(r: Ring, s: State, c: nat)
    requires Inv(r, s) && AboutToSwap(r, s, ConsumerStep(c)) && TakesFirst(r, s, ConsumerStep(c))
    ensures Inv(r, ConsumerNext(r, s, c))
  {
    assert ConsumerOk(r, s, c);
    if s.head == s.consumers[c].head {
      TakingKeeps(r, s, c);
    } else {
      OnlyConsumer(r, s, ConsumerNext(r, s, c), c);
    }
  }

  lemma TakingKeeps(r: Ring, s: State, c: nat)
    requires Inv(r, s) && AboutToSwap(r, s, ConsumerStep(c)) && TakesFirst(r, s, ConsumerStep(c))
    requires s.head == s.consumers[c].head
    ensures Inv(r, ConsumerNext(r, s, c))
  {
    var s' := ConsumerNext(r, s, c);
    AdvanceIsNext(r, |s.delivered|);
    forall d | 0 <= d < |s'.consumers| ensures ConsumerOk(r, s', d) {
      assert ConsumerOk(r, s, d);
    }
  }

  /** The producer's own view of full is exact at the moment it read the head. */
  lemma FullIff(r: Ring, s: State)
    requires Inv(r, s) && s.producer.PTail?
    ensures LooksFull(s.producer.head, s.tail) <==> |s.values| == s.producer.headPos + r.items
  {
    WordsDecide(r, s.producer.headPos, |s.values|);
  }

  lemma ProducerReadKeeps(r: Ring, s: State)
    requires Inv(r, s) && (s.producer.PHead? || s.producer.PTail?)
    ensures Inv(r, ProducerNext(r, s))
  {
    var s' := ProducerNext(r, s);
    if s.producer.PTail? {
      FullIff(r, s);
      WordAt(r, |s.values|);
      OffsetFits(r, |s.values|);
    }
    forall c | 0 <= c < |s'.consumers| ensures ConsumerOk(r, s', c) {
      assert ConsumerOk(r, s, c);
    }
  }

  lemma OtherSlotKept(r: Ring, buffer: Bytes, p: nat, item: Bytes, q: nat, k: nat, byte: nat)
    requires Valid(r) && Holds(r, buffer, p, item, r.size) && p < q < p + r.items
    requires k < r.size && Offset(r, q) + k < |buffer|
    ensures Holds(r, buffer[Offset(r, q) + k := byte], p, item, r.size)
  {
    NearSlotsDiffer(r, p, q);
    SlotsApart(r, p, q);
  }

  /** Writing the new item touches no item that is still to be delivered. */
  lemma ProducerByteKeeps(r: Ring, s: State)
    requires Inv(r, s) && s.producer.PCopy? && s.producer.k < r.size
    ensures Inv(r, ProducerNext(r, s))
  {
    var PCopy(item, tail, k) := s.producer;
    var s' := ProducerNext(r, s);
    var q := |s.values|;
    WordAt(r, q);
    forall p | |s'.delivered| <= p < |s'.values| ensures Holds(r, s'.buffer, p, s'.values[p], r.size) {
      assert Holds(r, s.buffer, p, s.values[p], r.size);
      OtherSlotKept(r, s.buffer, p, s.values[p], q, k, item[k]);
    }
    forall c | 0 <= c < |s'.consumers| ensures ConsumerOk(r, s', c) {
      assert ConsumerOk(r, s, c);
    }
  }

  lemma PublishKeeps(r: Ring, s: State)
    requires Inv(r, s) && s.producer.PCopy? && s.producer.k == r.size
    ensures Inv(r, ProducerNext(r, s))
  {
    var s' := ProducerNext(r, s);
    AdvanceIsNext(r, |s.values|);
    forall p | |s'.delivered| <= p < |s'.values| ensures Holds(r, s'.buffer, p, s'.values[p], r.size) {
      if p < |s.values| {
        assert Holds(r, s.buffer, p, s.values[p], r.size);
      }
    }
    forall c | 0 <= c < |s'.consumers| ensures ConsumerOk(r, s', c) {
      assert ConsumerOk(r, s, c);
    }
  }

  lemma BeginKeeps(r: Ring, s: State, a: Action)
    requires Inv(r, s) && Enabled(r, s, a) && (a.BeginEnqueue? || a.BeginDequeue?)
    ensures Inv(r, Next(r, s, a))
  {
    var s' := Next(r, s, a);
    forall c | 0 <= c < |s'.consumers| ensures ConsumerOk(r, s', c) {
      assert ConsumerOk(r, s, c);
    }
  }

  lemma RightStepInv(r: Ring, s: State, a: Action)
    requires Inv(r, s) && Enabled(r, s, a) && TakesFirst(r, s, a)
    ensures Inv(r, Next(r, s, a))
  {
    match a
    case BeginEnqueue(_) => BeginKeeps(r, s, a);
    case BeginDequeue(_) => BeginKeeps(r, s, a);
    case ProducerStep =>
      if !s.producer.PCopy? { ProducerReadKeeps(r, s); }
      else if s.producer.k < r.size { ProducerByteKeeps(r, s); }
      else { PublishKeeps(r, s); }
    case ConsumerStep(c) =>
      if !s.consumers[c].CCopy? { ConsumerReadKeeps(r, s, c); }
      else if |s.consumers[c].got| < r.size { ConsumerByteKeeps(r, s, c); }
      else { ConsumerSwapKeeps(r, s, c); }
  }

  /** Every step keeps the invariant if and only if it is not a successful swap with bytes other than those of
      the first item. */
  lemma StepInvIff(r: Ring, s: State, a: Action)
    requires Inv(r, s) && Enabled(r, s, a)
    ensures Inv(r, Next(r, s, a)) <==> TakesFirst(r, s, a)
  {
    if TakesFirst(r, s, a) {
      RightStepInv(r, s, a);
    } else {
      WrongItemBreaks(r, s, a);
    }
  }

  lemma WrongItemBreaks(r: Ring, s: State, a: Action)
    requires Inv(r, s) && Enabled(r, s, a) && !TakesFirst(r, s, a)
    ensures !(Next(r, s, a).delivered <= Next(r, s, a).values)
  {
    assert Next(r, s, a).delivered == s.delivered + [s.consumers[a.c].got];
  }

  /** In particular a swap that comes in time keeps it. */
  lemma StepInv(r: Ring, s: State, a: Action)
    requires Inv(r, s) && Enabled(r, s, a) && Prompt(r, s, a)
    ensures Inv(r, Next(r, s, a))
  {
    PromptTakesFirst(r, s, a);
    RightStepInv(r, s, a);
  }

  // ----- runs -----

  ghost predicate Leads(r: Ring, s: State, a: Action, s': State) {
    Typed(r, s) && Enabled(r, s, a) && Prompt(r, s, a) && s' == Next(r, s, a)
  }

  ghost function Initial(r: Ring, numConsumers: nat): State -> bool {
    (s: State) => |s.buffer| == Capacity(r) && s == Init(numConsumers, s.buffer)
  }

  ghost function Steps(r: Ring): (State, State) -> bool {
    (s: State, s': State) => exists a :: Leads(r, s, a, s')
  }

  /** s is reached from an empty queue by one producer and the given number of consumers. */
  ghost predicate Reachable(r: Ring, numConsumers: nat, s: State) {
    Runs.Reachable(Initial(r, numConsumers), Steps(r), s)
  }

  lemma ReachableInv(r: Ring, numConsumers: nat, s: State)
    requires Valid(r) && Reachable(r, numConsumers, s)
    ensures Inv(r, s)
  {
    var inv := (x: State) => Inv(r, x);
    forall x | Initial(r, numConsumers)(x) ensures inv(x) {
      InitInv(r, numConsumers, x.buffer);
    }
    forall x, y | inv(x) && Steps(r)(x, y) ensures inv(y) {
      var a :| Leads(r, x, a, y);
      StepInv(r, x, a);
    }
    Runs.Invariance(Initial(r, numConsumers), Steps(r), inv, s);
  }

  /** In every run, what consumers have received, in the order of their successful swaps, is a prefix
      of what was enqueued: each item once, whole and in order. */
  lemma DeliveredIsPrefix(r: Ring, numConsumers: nat, s: State)
    requires Valid(r) && Reachable(r, numConsumers, s)
    ensures s.delivered <= s.values && |s.values| - |s.delivered| <= r.items
  {
    ReachableInv(r, numConsumers, s);
  }

  /** The words in memory decide empty and full exactly as the numbers of items enqueued and
      dequeued do, however often the 8-bit counters have wrapped. */
  lemma WordsTellTheState(r: Ring, numConsumers: nat, s: State)
    requires Valid(r) && Reachable(r, numConsumers, s)
    ensures s.head == s.tail <==> |s.values| == |s.delivered|
    ensures LooksFull(s.head, s.tail) <==> |s.values| == |s.delivered| + r.items
  {
    ReachableInv(r, numConsumers, s);
    WordsDecide(r, |s.delivered|, |s.values|);
  }

  ghost function Content(s: State): seq<Bytes>
    requires |s.delivered| <= |s.values|
  {
    s.values[|s.delivered|..]
  }

  /** Every step leaves the content of the queue alone, except that the producer's last step appends
      its item, and a consumer's successful swap removes the first item, which is what it received. */
  lemma StepsOnContent(r: Ring, numConsumers: nat, s: State, a: Action)
    requires Valid(r) && Reachable(r, numConsumers, s) && Enabled(r, s, a) && Prompt(r, s, a)
    ensures Inv(r, s) && Inv(r, Next(r, s, a))
    ensures var s' := Next(r, s, a);
            if a.ProducerStep? && s.producer.PCopy? && s.producer.k == r.size then
              |Content(s)| < r.items && Content(s') == Content(s) + [s.producer.item]
            else if AboutToSwap(r, s, a) && s'.consumers[a.c].CIdle? then
              Content(s) != [] && s.consumers[a.c].got == Content(s)[0] && Content(s') == Content(s)[1..]
            else Content(s') == Content(s)
  {
    ReachableInv(r, numConsumers, s);
    StepInv(r, s, a);
    match a
    case ProducerStep => ProducerOnContent(r, s);
    case ConsumerStep(c) => ConsumerOnContent(r, s, c);
    case _ =>
  }

  lemma ProducerOnContent(r: Ring, s: State)
    requires Inv(r, s)
    ensures var s' := ProducerNext(r, s);
            && s'.delivered == s.delivered
            && (if s.producer.PCopy? && s.producer.k == r.size then
                  |s.values| < |s.delivered| + r.items && s'.values == s.values + [s.producer.item]
                else s'.values == s.values)
  {
  }

  lemma ConsumerOnContent(r: Ring, s: State, c: nat)
    requires Inv(r, s) && c < |s.consumers| && Prompt(r, s, ConsumerStep(c))
    ensures var s' := ConsumerNext(r, s, c);
            && s'.values == s.values && |s'.consumers| == |s.consumers|
            && (if AboutToSwap(r, s, ConsumerStep(c)) && s'.consumers[c].CIdle? then
                  && |s.delivered| < |s.values| && s.consumers[c].got == s.values[|s.delivered|]
                  && s'.delivered == s.delivered + [s.consumers[c].got]
                else s'.delivered == s.delivered)
  {
    PromptTakesFirst(r, s, ConsumerStep(c));
  }

  /** A Dequeue that returns false fewer than 256 laps after it read the head has seen an empty queue: the queue is
      empty at its last step. */
  lemma DequeueFailsOnlyWhenEmpty(r: Ring, numConsumers: nat, s: State, c: nat)
    requires Valid(r) && Reachable(r, numConsumers, s) && Typed(r, s)
    requires c < |s.consumers| && s.consumers[c].CTail? && |s.values| < s.consumers[c].pos + COUNTS * r.items
    ensures ConsumerNext(r, s, c).consumers[c].CIdle? ==> s.delivered == s.values
    ensures ConsumerNext(r, s, c).consumers[c].CCopy? ==> s.consumers[c].pos < |s.values|
  {
    DeliveredIsPrefix(r, numConsumers, s);
    EmptyAtTest(r, numConsumers, s, c);
  }

  lemma EmptyAtTest(r: Ring, numConsumers: nat, s: State, c: nat)
    requires Valid(r) && Reachable(r, numConsumers, s)
    requires c < |s.consumers| && s.consumers[c].CTail? && |s.values| < s.consumers[c].pos + COUNTS * r.items
    ensures s.consumers[c].head == s.tail ==> |s.delivered| == |s.values|
    ensures s.consumers[c].head != s.tail ==> s.consumers[c].pos < |s.values|
  {
    ReachableInv(r, numConsumers, s);
    EmptyIff(r, s, c);
    assert ConsumerOk(r, s, c);
  }

  /** At any time, a Dequeue returns false exactly if a multiple of 256 laps, perhaps none, lies between the head
      it read and the tail. */
  lemma DequeueFailsIff(r: Ring, numConsumers: nat, s: State, c: nat)
    requires Valid(r) && Reachable(r, numConsumers, s) && Typed(r, s)
    requires c < |s.consumers| && s.consumers[c].CTail?
    ensures ConsumerNext(r, s, c).consumers[c].CIdle? <==>
            exists k: nat :: |s.values| - s.consumers[c].pos == Times(k * COUNTS, r.items)
  {
    ReachableInv(r, numConsumers, s);
    assert ConsumerOk(r, s, c);
    SameWordIff(r, s.consumers[c].pos, |s.values|);
  }

  /** An Enqueue returns false exactly if the queue was full when it read the head. */
  lemma EnqueueFailsIffFull(r: Ring, numConsumers: nat, s: State)
    requires Valid(r) && Reachable(r, numConsumers, s) && Typed(r, s) && s.producer.PTail?
    ensures ProducerNext(r, s).producer.PIdle? <==> |s.values| - s.producer.headPos == r.items
  {
    ReachableInv(r, numConsumers, s);
    FullIff(r, s);
  }

  /** Lock freedom: a prompt compare-and-swap fails only if another consumer's succeeded in between. */
  lemma FailureMeansProgress(r: Ring, numConsumers: nat, s: State, c: nat)
    requires Valid(r) && Reachable(r, numConsumers, s) && c < |s.consumers| && s.consumers[c].CCopy?
    requires |s.consumers[c].got| == r.size && Prompt(r, s, ConsumerStep(c))
    ensures s.head != s.consumers[c].head <==> |s.delivered| > s.consumers[c].pos
  {
    ReachableInv(r, numConsumers, s);
    assert ConsumerOk(r, s, c);
    SwapIffCurrent(r, s, c);
  }

  lemma StepReachable(r: Ring, numConsumers: nat, s: State, a: Action, s': State)
    requires Reachable(r, numConsumers, s) && Leads(r, s, a, s')
    ensures Reachable(r, numConsumers, s')
  {
    Runs.StepReachable(Initial(r, numConsumers), Steps(r), s, s');
  }
}
