/** AtomicQueue::CurrentSize, lines 102 to 120: it reads mHead and then mTail, and other threads may work in
    between. */
module AtomicQueueSize {
  import opened Arithmetic
  import opened NumberMask
  import opened RingWords
  import opened AtomicQueue
  import Runs

  /** What CurrentSize returns for the two words it has read. */
  function CurrentSize(r: Ring, head: nat, tail: nat): nat
    requires r.size > 0
  {
    SizeBetween(r, GetNum(head), GetNum(tail), head == tail)
  }

  function SizeBetween(r: Ring, headNum: nat, tailNum: nat, same: bool): nat
    requires r.size > 0
  {
    if headNum == tailNum then (if same then 0 else r.size)
    else if tailNum > headNum then (tailNum - headNum) / r.size
    else if tailNum + Capacity(r) >= headNum then (tailNum + Capacity(r) - headNum) / r.size
    else 0
  }

  lemma SizeBetweenSlots(r: Ring, h: nat, t: nat, same: bool)
    requires Valid(r) && h < r.items && t < r.items && h != t
    ensures SizeBetween(r, Times(h, r.size), Times(t, r.size), same) == if h < t then t - h else t + r.items - h
  {
    if h < t {
      SlotCount(r.size, h, t);
    } else {
      TimesLess(t, h, r.size);
      SlotCount(r.size, h, t + r.items);
      TimesAdd(t, r.items, r.size);
    }
  }

  /** The distance of two positions, less whole laps, read off their slots. */
  lemma {:induction false} ModDistance(n: nat, p: nat, q: nat)
    requires n > 0 && p <= q
    ensures Mod(q - p, n) == if Mod(p, n) <= Mod(q, n) then Mod(q, n) - Mod(p, n) else Mod(q, n) + n - Mod(p, n)
    decreases q
  {
    if p < q {
      ModDistance(n, p, q - 1);
      NextInRing(n, q - 1);
      NextInRing(n, q - 1 - p);
    }
  }

  /** Whatever happens between the two reads, the size reported is the distance of the positions read, less
      whole laps; for a distance of whole laps it is 0 or the item size. */
  lemma CurrentSizeOf(r: Ring, h: nat, t: nat)
    requires Valid(r) && h <= t
    ensures CurrentSize(r, Word(r, h), Word(r, t)) ==
            if Mod(t - h, r.items) != 0 then Mod(t - h, r.items)
            else if Word(r, h) == Word(r, t) then 0
            else r.size
  {
    WordAt(r, h);
    WordAt(r, t);
    SameOffset(r, h, t);
    ModDistance(r.items, h, t);
    if Mod(h, r.items) != Mod(t, r.items) {
      SizeBetweenSlots(r, Mod(h, r.items), Mod(t, r.items), false);
    }
  }

  /** When the size reported is right, for the positions h of the head when it was read, and H and t of head and
      tail when the tail was read. */
  predicate SizeIsRight(r: Ring, h: nat, H: nat, t: nat)
    requires r.items > 0 && h <= H <= t
  {
    if Mod(t - h, r.items) != 0 then Mod(H - h, r.items) == 0   // the head stood still, or moved on by whole laps
    else if Word(r, h) == Word(r, t) then t == H                // it looks empty
    else t - H == r.size                                        // it looks full
  }

  lemma {:induction false} ModSplit(n: nat, a: nat, b: nat)
    requires n > 0 && b <= n
    ensures Mod(a + b, n) != 0 ==> (Mod(a + b, n) == b <==> Mod(a, n) == 0)
    decreases a
  {
    if a >= n {
      ModSplit(n, a - n, b);
    }
  }

  lemma PositionsDecide(r: Ring, h: nat, H: nat, t: nat)
    requires Valid(r) && h <= H <= t <= H + r.items
    ensures CurrentSize(r, Word(r, h), Word(r, t)) == t - H <==> SizeIsRight(r, h, H, t)
  {
    CurrentSizeOf(r, h, t);
    ModSplit(r.items, H - h, t - H);
    assert (H - h) + (t - H) == t - h;
  }

  ghost function From(s: State): State -> bool {
    (x: State) => x == s
  }

  /** s' is reached from s by steps of the producer and the consumers. */
  ghost predicate Later(r: Ring, s: State, s': State) {
    Runs.Reachable(From(s), Steps(r), s')
  }

  lemma StepGrows(r: Ring, s: State, s': State)
    requires Steps(r)(s, s')
    ensures s.delivered <= s'.delivered && s.values <= s'.values
  {
  }

  /** What happens later only adds to what was enqueued and delivered. */
  lemma LaterGrows(r: Ring, s: State, s': State)
    requires Later(r, s, s')
    ensures s.delivered <= s'.delivered && s.values <= s'.values
  {
    var inv := (x: State) => s.delivered <= x.delivered && s.values <= x.values;
    forall x, y | inv(x) && Steps(r)(x, y) ensures inv(y) {
      StepGrows(r, x, y);
    }
    Runs.Invariance(From(s), Steps(r), inv, s');
  }

  lemma LaterReachable(r: Ring, numConsumers: nat, s: State, s': State)
    requires Reachable(r, numConsumers, s) && Later(r, s, s')
    ensures Reachable(r, numConsumers, s')
  {
    var inv := (x: State) => Reachable(r, numConsumers, x);
    forall x, y | inv(x) && Steps(r)(x, y) ensures inv(y) {
      Runs.StepReachable(Initial(r, numConsumers), Steps(r), x, y);
    }
    Runs.Invariance(From(s), Steps(r), inv, s');
  }

  /** A CurrentSize that reads mHead in one state of a run and mTail in a later one reports the number of items
      in the queue at the second read exactly in these cases. */
  lemma CurrentSizeExactIff(r: Ring, numConsumers: nat, s: State, s': State)
    requires Valid(r) && Reachable(r, numConsumers, s) && Later(r, s, s')
    ensures |s.delivered| <= |s'.delivered| <= |s'.values|
    ensures CurrentSize(r, s.head, s'.tail) == |Content(s')| <==>
            SizeIsRight(r, |s.delivered|, |s'.delivered|, |s'.values|)
  {
    LaterGrows(r, s, s');
    LaterReachable(r, numConsumers, s, s');
    ReachableInv(r, numConsumers, s);
    ReachableInv(r, numConsumers, s');
    PositionsDecide(r, |s.delivered|, |s'.delivered|, |s'.values|);
  }

  /** If the tail read is less than one lap ahead of the head read, this means that the head has not moved in
      between; if it is just one lap ahead, that the queue holds as many items as an item has bytes. */
  lemma SizeIsRightWithinALap(r: Ring, h: nat, H: nat, t: nat)
    requires Valid(r) && h <= H <= t <= H + r.items && t <= h + r.items
    ensures SizeIsRight(r, h, H, t) <==> if t < h + r.items then h == H else t - H == r.size
  {
    WordsDecide(r, h, t);
    ModDistance(r.items, h, t);
    SameSlotNear(r.items, h, t);
    if t - h < r.items {
      assert Mod(H - h, r.items) == H - h && Mod(t - h, r.items) == t - h;
    }
  }
}
