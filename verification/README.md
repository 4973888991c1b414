# Verified model of the lock-free containers, the command tree and related code

This project models the parts of the repository whose correctness is hardest to see by reading:

* the **command tree** (`ycommon/containers/command_tree.cpp`): the constructor that turns dependency
  lists into a transposed child table, and the counter protocol by which any number of pool threads run
  the nodes in dependency order, alone and put together with the thread pool it runs on;
* the **atomic pool** and the **atomic queue**, whose shared words carry an 8-bit change counter;
* the **thread pool** wake-up protocol (`Start`, `Pause`, `Join`, `EnqueueRun` and the worker loop);
* the **atomic hash table** and its sequential counterpart, and the sequential pool;
* **path normalisation**, joining and relative paths in byte buffers;
* **render keys** and the **device-state cache** of the renderer.

## How the model is built

Sequential code keeps its imperative form: classes with the source's fields (`CommandTree`, `MemPool`,
`HashTable`, `RenderDeviceState`) and methods with loops over arrays (`NormPath`, `RelPath`, `JoinPaths`,
`GetRenderKey`, ...), each proved against a function of its inputs or of the old state.

A Dafny method runs without interruption, so the code that several threads run at once is modelled as a
transition system instead: `State`, `Action`, `Enabled` and `Next` in `CommandTreeRun`, `AtomicMemPool`,
`AtomicQueue`, `ThreadPool`, `AtomicHashTable` and `CommandTreeOnPool`, the product of tree and pool. Each shared read, write or compare-and-swap is one
action, down to the single bytes that `memcpy` moves in the queue and the hash table. A theorem
about `Reachable` states therefore holds in every interleaving of any number of threads. Fields under
the comment "history" are read by no step; they only name what the theorems speak of.
`Runs.Reachable` and `Runs.Invariance` are the common frame.

| file | models |
|---|---|
| `DependencyGraph`, `CommandTree`, `CommandTreeMemory` | `CommandTree::ConstructTree`, lines 66-158, and how the protocol's tree is read from what it leaves in memory |
| `CommandTreeRun`, `CommandTreeInvariant`, `CommandTreeTheorems`, `CommandTreeFailure` | `ExecuteCommands` and `CommandTreeThread`, lines 161-263 |
| `CommandTreeOnPool`, `CommandTreeOnPoolTheorems`, `CommandTreeOnPoolFailure` | the same on the thread pool: worker loop, `EnqueueRun`, `Start`, `Pause` and `Join` included |
| `Arithmetic`, `NumberMask`, `RingWords` | the counter-and-number words; quotients, remainders and products, defined by repeated subtraction and addition and proved equal to the operators |
| `AtomicMemPool`, `AtomicMemPoolTheorems`, `AtomicMemPoolAba`, `AtomicMemPoolFailure` | `AtomicMemPool`, lines 74-166 |
| `MemPoolSpec`, `MemPool` | what a pool is; the sequential `MemPool` |
| `AtomicQueue`, `AtomicQueueCalls`, `AtomicQueueSize`, `AtomicQueueRuns` | `AtomicQueue`, lines 47-120 |
| `ThreadPool`, `ThreadPoolJobs`, `ThreadPoolJoin` | `ThreadPool`, lines 59-189 |
| `Probing`, `AtomicHashTable`, `AtomicHashTableTheorems`, `HashTable` | the two hash tables |
| `PathSpec`, `FilePath`, `RelPathSpec`, `RelPathMatch`, `RelPath` | `FilePath`, lines 17-148 and 181-279 |
| `RenderKey`, `RenderDeviceState` | the two pieces of the renderer |

## Assumptions

* Steps are sequentially consistent; memory barriers do nothing.
* A push to the thread pool's run queue counts as one step, and so does a pop. The queue documents a single
  producer (`ycommon/containers/atomic_queue.h`, line 8) but the workers enqueue too
  (`ycommon/containers/command_tree.cpp`, line 256), so this is an assumption about the caller.
* `CommandTreeRun` leaves out the pool's run state, semaphore, `Pause` and `Join`
  (`ycommon/containers/command_tree.cpp`, lines 172 and 204-206): an idle worker may pop whenever the run queue is not
  empty. Nothing rests on this: `CommandTreeOnPool` adds them, every step of it is at most one step of the tree and one
  of the pool (`StepMoves`), and that calls return is proved again for it (`EveryCallReturns`).
* A command tree has 1 to 256 nodes; the code does not check this, though the array
  `current_children_nodes_array` has 256 entries (line 139). Acyclicity is assumed only where a theorem says so, and
  `CompletesIffAcyclic` shows that it is needed.
* In the pool, fewer than 256 swings of the head lie between an `Allocate`'s read of it and its
  compare-and-swap (`Prompt`). Nothing is assumed of the time `Remove` takes, but it is called only with an index that
  the caller holds (`BeginRemove`). In the queue, fewer than 256 laps lie between a consumer's read of the head and
  its compare-and-swap (`Prompt`). The number of items of a pool is below 2^32 - 1,
  and items and threads together are fewer than 2^32.
* A client may write to an item it holds at any time, so a stale reader of the pool reads anything.
* The hash tables have at least 10 entries and are used with keys other than their marker values. The atomic
  one inserts a key only while it is absent and no other insert of it is under way
  (`ycommon/containers/atomic_hash_table.h`, lines 8-12, leaves concurrent inserts of a key undefined, and a
  present key inserted again would be counted twice, if not stored twice); Removes and lookups may overlap anything.
* The renderer's device writes a constant buffer into as many registers as the cache notes for it.

## Where the code does not keep a promise

For each of these a failing input or run is given, and the exact condition under which the promise is kept.

* `NormPath` on an absolute path: ".." that takes away the first component takes the root away too, so
  "/a/.." becomes the empty relative path (`RootLostExample`; the root is kept if and only if no ".." meets exactly one
  component, `AbsoluteKeptIff`).
* `JoinPaths(dir, RelPath(path, dir))` does not lead back from ".." to "a" (`RoundTripFailsFromDotDot`), nor from "/a" to
  "/b" (`RoundTripFailsAcrossRoot`). It leads back to `path` if and only if (`RelPathRoundTrip`, with `LeadsBack`), for the normal
  forms of both: neither is rooted and that of `dir` has no ".." beyond the components it shares with that of `path`; or both
  are rooted, and they share a component or `dir` is the root itself; or only `dir` is rooted, it is not the root, and
  `path` has no components.
* `HashTable::Insert` of a key that is already stored corrupts the table (`StoreAgainBreaks`); the table stays
  consistent if and only if the key was absent (`HashTable.Insert`).
* A marker value used as a key is found in tables that do not contain it (`MarkerIsFound`); probing is exact if and
  only if the key is neither marker (`FoundExactlyIff`).
* `MemPool::Remove` accepts an index that has been freed already, which ties the free list into a ring
  (`DoubleFreeBreaks`); the pool stays consistent if and only if the index was held (`MemPool.Remove`).
* An `Allocate` whose compare-and-swap comes 256 swings late can hand an index out twice (`LateSwapHandsOutTwice`). Without
  any bound, a step keeps the pool's invariant if and only if it is not an `Allocate`'s successful compare-and-swap
  with a link that is no longer current (`StepInvIff`).
* `AtomicMemPool::Allocate` can return -1 although an index is available at every moment of the call
  (`FailsThoughAvailable`). It fails exactly if the free list is empty when it reads the head for the last time
  (`ListLookedAt`) and no index is left unused at its last step (`AllocateFailsIff`).
* A `Dequeue` whose compare-and-swap comes 256 laps late can deliver an item twice, from an empty queue
  (`LateSwapDeliversTwice`). Without any bound, a step keeps the queue's invariant if and only if it is not a successful
  compare-and-swap with bytes other than those of the first item (`AtomicQueue.StepInvIff`).
* `AtomicQueue::CurrentSize` reports the item size for a full queue (`FullQueueMisreported`), and as it reads head and tail one
  after the other it can report two items though the queue holds one at both moments (`RaceMisreported`). For every two
  moments of a run at which it reads them, `CurrentSizeExactIff` says when it is right: if the tail read is not whole laps
  ahead of the head read, exactly if the head has moved by no items or by whole laps in between; if it is, exactly if the
  queue is empty when the words are equal, and otherwise holds as many items as an item has bytes.
* `Join` on a paused pool can return although a job taken before the pause has still to run
  (`JoinCanReturnBeforeAJobRuns`). At its return nothing runs and nothing will if and only if no worker has an uncounted job or
  is about to take one (`JoinQuietIff`); and pausing and joining with no push meanwhile is always safe in this sense if and only if,
  when `Pause` is called, the queue is empty and every job taken from it has entered its routine
  (`PauseJoinQuietIff`).
* `ExecuteCommands` can therefore return a failure while a worker holds a node, whose routine begins only after the return
  (`RoutineBeginsAfterReturn`). After a return no routine will run until the next call if and only if no worker has taken a
  node or is about to take one from a queue that is not empty (`ReturnIsQuietIff`); after a return of 0 this is always so
  (`SuccessIsQuiet`).
* A constant buffer loaded at one register, then at another and then at the first again is not loaded the third time
  (`MovedBufferIsMissed`), and an ID of all ones is taken for one that is set right after a reset
  (`AllOnesIsMissed`). The device behind the cache agrees with one that receives every call, after each call of a
  sequence, if and only if no call is stale when it comes: all its slots last written with its ID, but not
  all of them from the same first register (`AgreeIff`, for a device that holds no object with an all-ones ID).
* A command tree whose dependencies form a cycle never completes (`CycleNeverCompletes`); one can complete if and only if
  they do not (`CompletesIffAcyclic`).

## Model

| member | source | states |
|---|---|---|
| `DependencyGraph.EntriesExact` | ycommon/containers/command_tree.cpp:140-150 | The child list of node d holds exactly the dependency entries that name d |
| `DependencyGraph.EntriesIncrease` | ycommon/containers/command_tree.cpp:140-150 | Each entry occurs once, in increasing order of node and dependency number |
| `DependencyGraph.SlicesTile` | ycommon/containers/command_tree.cpp:127-135 | The child slices together are as long as all dependency lists together |
| `DependencyGraph.OffsetMonotone` | ycommon/containers/command_tree.cpp:127-135 | Child slices of different nodes do not overlap |
| `DependencyGraph.RootsExact` | ycommon/containers/command_tree.cpp:151-153 | The root list holds exactly the nodes without dependencies, each once, in order |
| `CommandTree.CommandTree.ConstructTree` | ycommon/containers/command_tree.cpp:66-158 | The tree in memory is the exact transpose of the dependency lists: every record has counter 0, as many dependencies as the node's list has, and a slice that lists its dependents, or the null pointer exactly if it has none; the slices fill the children array; the root array holds the roots |
| `CommandTree.InitializeNodes` | ycommon/containers/command_tree.cpp:79-88 | Every record starts with counter 0, the length of its node's dependency list, no children and the null pointer |
| `CommandTree.CountChildren` | ycommon/containers/command_tree.cpp:90-112 | The first pass counts for every node the entries that name it, the total and the roots |
| `CommandTree.AssignSlices` | ycommon/containers/command_tree.cpp:127-135 | Every node with children gets the start of its own stretch, a leaf keeps the null pointer |
| `CommandTree.AssignChildren` | ycommon/containers/command_tree.cpp:137-154 | The third pass fills every slice with the owners of its entries in order, and the root array |
| `CommandTree.AssignToDependencies` | ycommon/containers/command_tree.cpp:145-150 | One node is appended to the slice of each of its dependencies and nothing else changes |
| `CommandTree.SlotInSlice` | ycommon/containers/command_tree.cpp:146-150 | The slot written for an entry lies inside the slice of its source, so inside the array |
| `CommandTreeMemory.ReadIsBuild` | ycommon/containers/command_tree.cpp:66-158 | The dependency counts, child slices, roots and counters that the protocol works with are those read from the memory that the constructor has left |
| `CommandTreeMemory.ConstructedTreeCompletes` | ycommon/containers/command_tree.cpp:66-263 | An execution on the tree in memory is finite, and for an acyclic graph without failures it can end only complete |
| `CommandTreeMemory.ConstructedTreeReturns` | ycommon/containers/command_tree.cpp:66-263 | A call of ExecuteCommands on the tree in memory, on the pool's worker loop, is finite and ends with the caller returned |
| `CommandTreeInvariant.BuildIsWellBuilt` | ycommon/containers/command_tree.cpp:66-158 | A constructed tree has what the protocol relies on: every entry is in its source's child list, once, and nothing else is |
| `CommandTreeInvariant.StepInv` | ycommon/containers/command_tree.cpp:161-263 | Every step of every worker and of the caller keeps the protocol invariant |
| `CommandTreeInvariant.LastHasNoDebt` | ycommon/containers/command_tree.cpp:238-243 | The worker that counts the last node may return without visiting children: there are none |
| `CommandTreeInvariant.BeginOrdered` | ycommon/containers/command_tree.cpp:230-231 | A routine is called only after the routines of all its dependencies returned 0 |
| `CommandTreeInvariant.QueueHasRoom` | ycommon/containers/command_tree.cpp:255-258 | When a node is to be pushed the run queue has a free slot for it |
| `CommandTreeTheorems.RunsOnceAfterDependencies` | ycommon/containers/command_tree.cpp:223-263 | In every interleaving each routine begins at most once per execution, and only after all its dependencies returned 0, duplicate entries included |
| `CommandTreeTheorems.QueueNeverOverflows` | ycommon/containers/command_tree.cpp:47-57 | The 256-slot run queue is never full at a push, so the enqueue assertions hold, and holds each node at most once |
| `CommandTreeTheorems.ReleaseMeansDone` | ycommon/containers/command_tree.cpp:230-243 | A completion release implies that all routines returned 0 or a non-zero value is recorded; on success there is exactly one release |
| `CommandTreeTheorems.ReadyToExecuteAgain` | ycommon/containers/command_tree.cpp:204-209 | After the success release all counters are 0, no job is queued and no worker has an edge left to count or a node to push |
| `CommandTreeTheorems.FailureStopsDependents` | ycommon/containers/command_tree.cpp:230-248 | No node with a direct or indirect dependency that returned non-zero ever starts |
| `CommandTreeTheorems.StepShrinks` | ycommon/containers/command_tree.cpp:223-263 | Every step of an execution strictly lowers a natural-number measure |
| `CommandTreeTheorems.Progress` | ycommon/containers/command_tree.cpp:175-263 | For an acyclic graph without failures a state with no next step is complete |
| `CommandTreeTheorems.EveryExecutionCompletes` | ycommon/containers/command_tree.cpp:161-263 | From every reachable state, after any number of executions, every run is finite and can end only with all routines run and the semaphore released exactly once |
| `CommandTreeTheorems.CompletesIffAcyclic` | ycommon/containers/command_tree.cpp:161-263 | An execution can complete if and only if the dependencies are acyclic |
| `CommandTreeTheorems.CycleNeverCompletes` | ycommon/containers/command_tree.cpp:161-263 | Two nodes that depend on each other pass the constructor's assertions and never complete |
| `CommandTreeFailure.StepKeepsFailures` | ycommon/containers/command_tree.cpp:230-236 | Every failure is recorded and signalled, or a worker is about to do so, and a signal is not lost before the caller returns |
| `CommandTreeFailure.StuckAfterFailure` | ycommon/containers/command_tree.cpp:204-214 | If nothing can go on after a failure, the caller has returned with a non-zero value |
| `CommandTreeFailure.FailedExecutionEnds` | ycommon/containers/command_tree.cpp:161-263 | Whatever the graph, an execution with a failing routine is finite and can end only with the caller returned and a non-zero value |
| `CommandTreeFailure.ReturnsARoutinesValue` | ycommon/containers/command_tree.cpp:230-236 | A non-zero value recorded, which ExecuteCommands returns, is what a routine called in this execution has returned |
| `CommandTreeOnPool.StepMoves` | ycommon/containers/command_tree.cpp:161-263 | Every step of ExecuteCommands, of the worker loop or of a job is at most one step of the tree and at most one of the pool, and keeps the two in step |
| `CommandTreeOnPool.ReachableRefines` | ycommon/containers/command_tree.cpp:161-263 | While tree and pool work together, each is in a state it reaches on its own, so what is proved of either alone holds |
| `CommandTreeOnPoolTheorems.StepShrinks` | ycommon/containers/command_tree.cpp:161-263 | Every step of a call of ExecuteCommands, of workers, pushes, Start, Pause and Join included, lowers a natural-number measure |
| `CommandTreeOnPoolTheorems.EveryCallReturns` | ycommon/containers/command_tree.cpp:161-263 | On the pool's worker loop, from every reachable state, every run of a call is finite; for an acyclic graph, or after a failure, it can end only with the caller returned and all workers at rest, and then every routine has run or the value is not 0 |
| `CommandTreeOnPoolTheorems.SuccessIsQuiet` | ycommon/containers/command_tree.cpp:204-209 | When ExecuteCommands has returned 0, no routine runs, no worker holds a node and none is queued, until it is called again |
| `CommandTreeOnPoolTheorems.ReturnIsQuietIff` | ycommon/containers/command_tree.cpp:204-214 | After any return no job will run before the next call, in any interleaving, if and only if no worker has taken one or is about to take one from a queue that is not empty |
| `CommandTreeOnPoolFailure.RoutineBeginsAfterReturn` | ycommon/containers/command_tree.cpp:204-214 | A run in which ExecuteCommands has returned a failure and then another routine begins |
| `NumberMask.WordParts` | ycommon/headers/atomic_number_mask.h:19-24 | Packing and unpacking a counter and a number are inverse, the counter modulo 256 |
| `NumberMask.NextWord` | ycommon/headers/atomic_number_mask.h:23-26 | Counting on from the stored 8 bits gives the word of the true count plus one |
| `NumberMask.SameWord` | ycommon/headers/atomic_number_mask.h:19-24 | Words are equal exactly if their numbers are and their counts agree modulo 256 |
| `NumberMask.NearCounts` | ycommon/headers/atomic_number_mask.h:6-10 | Fewer than 256 changes apart, equal counters mean equal counts |
| `AtomicMemPool.StepInv` | ycommon/containers/atomic_mem_pool.cpp:74-137 | Every step of any number of threads, any late compare-and-swap of a Remove included, keeps the free list linked, its head word current and every index owned once |
| `AtomicMemPool.StepInvIff` | ycommon/containers/atomic_mem_pool.cpp:84-98 | Without any bound on staleness a step keeps the invariant if and only if it is not an Allocate's successful compare-and-swap with an outdated link |
| `AtomicMemPool.WrongLinkBreaks` | ycommon/containers/atomic_mem_pool.cpp:86-93 | Such a step leaves the head naming another item than the first free one |
| `AtomicMemPool.FreeSwapKeeps` | ycommon/containers/atomic_mem_pool.cpp:120-136 | A Remove's successful compare-and-swap keeps the invariant however late it comes |
| `AtomicMemPool.SwapIffCurrent` | ycommon/containers/atomic_mem_pool.cpp:88-93 | A prompt compare-and-swap succeeds exactly if nobody has swung the head since it was read |
| `AtomicMemPool.FreshKeeps` | ycommon/containers/atomic_mem_pool.cpp:101-108 | Taking a never-used index keeps the invariant even when several threads race past the end |
| `AtomicMemPoolTheorems.IndexesPartitioned` | ycommon/containers/atomic_mem_pool.cpp:74-137 | In every run free, held, in-flight and never-used indexes partition [0, N): none is lost, none is shared |
| `AtomicMemPoolTheorems.HandedOutOnce` | ycommon/containers/atomic_mem_pool.cpp:74-111 | An index returned was free or never used, is then held, and nothing else changes hands |
| `AtomicMemPoolTheorems.ReturnedIsHandedOut` | ycommon/containers/atomic_mem_pool.cpp:74-137 | A step makes exactly the index it returns held, and none if it returns none; only the beginning of a Remove takes one from the held ones |
| `AtomicMemPoolTheorems.ListLookedAt` | ycommon/containers/atomic_mem_pool.cpp:79-99 | An Allocate goes past the free list exactly if it is empty at the moment it reads the head |
| `AtomicMemPoolTheorems.AllocateFailsIff` | ycommon/containers/atomic_mem_pool.cpp:101-110 | It then returns -1 exactly if at its last step every index has been used |
| `AtomicMemPoolTheorems.ListInMemoryIsAcyclic` | ycommon/containers/atomic_mem_pool.cpp:113-137 | Following the links in the buffer from the head visits distinct free items and ends |
| `AtomicMemPoolTheorems.UsedNeverWraps` | ycommon/containers/atomic_mem_pool.cpp:101-108 | The 32-bit count of used indexes exceeds the number of items by at most the number of threads |
| `AtomicMemPoolTheorems.NumIndexesUsedExact` | ycommon/containers/atomic_mem_pool.cpp:164-166 | Exactly the indexes below the number reported have ever been handed out |
| `AtomicMemPoolTheorems.SwapSucceedsIff` | ycommon/containers/atomic_mem_pool.cpp:88-93 | Without any bound a compare-and-swap succeeds exactly if the number is the old one and the swings since are a multiple of 256 |
| `AtomicMemPoolTheorems.FailureMeansProgress` | ycommon/containers/atomic_mem_pool.cpp:84-99 | A compare-and-swap fewer than 256 swings after its read fails exactly if another thread completed a call in between |
| `AtomicMemPoolTheorems.SoloAllocateMatchesMemPool` | ycommon/containers/atomic_mem_pool.cpp:74-111 | An Allocate that nobody interrupts changes the pool as the sequential one does, failure included |
| `AtomicMemPoolTheorems.SoloAllocateReturns` | ycommon/containers/atomic_mem_pool.cpp:74-111 | And it returns, at its last step, the sequential pool's index, or -1 exactly if that has none |
| `AtomicMemPoolTheorems.SoloRemoveMatchesMemPool` | ycommon/containers/atomic_mem_pool.cpp:113-137 | A Remove that nobody interrupts does what the sequential pool does |
| `AtomicMemPoolAba.LateSwapHandsOutTwice` | ycommon/containers/atomic_mem_pool.cpp:84-99 | There is a run in which a compare-and-swap exactly 256 swings late succeeds and an index is handed out twice |
| `AtomicMemPoolFailure.FailsThoughAvailable` | ycommon/containers/atomic_mem_pool.cpp:74-111 | There is a run in which an Allocate returns -1 though an index is free or unused before, during and after the call |
| `MemPoolSpec.AllocateIsFresh` | ycommon/containers/mem_pool.cpp:73-87 | Allocation hands out an index nobody holds and fails only if all are held |
| `MemPoolSpec.RemoveFrees` | ycommon/containers/mem_pool.cpp:103-113 | Removing takes exactly that index from the held ones |
| `MemPoolSpec.RemoveThenAllocate` | ycommon/containers/mem_pool.cpp:73-113 | Allocating after a Remove returns the same index and restores the pool |
| `MemPool.MemPool.constructor` | ycommon/containers/mem_pool.cpp:36-58 | A new pool holds nothing, whatever the buffer contains |
| `MemPool.MemPool.Clear` | ycommon/containers/mem_pool.cpp:68-71 | The pool is as new |
| `MemPool.MemPool.Allocate` | ycommon/containers/mem_pool.cpp:73-87 | The linked list in the buffer behaves as the stack of freed indexes, then the unused part, then failure |
| `MemPool.MemPool.Insert` | ycommon/containers/mem_pool.cpp:89-101 | Allocates and writes exactly the allocated item |
| `MemPool.MemPool.Remove` | ycommon/containers/mem_pool.cpp:103-113 | The pool stays consistent if and only if the caller held the index; then that index is the next to be handed out. No other item changes |
| `MemPool.DoubleFreeBreaks` | ycommon/containers/mem_pool.cpp:103-113 | After freeing a free index again no list of distinct indexes follows the words in the buffer |
| `RingWords.WordsAreQuotients` | ycommon/containers/atomic_queue.cpp:61-67 | The word of position p packs the quotient of p by the item count with the byte offset of its remainder |
| `RingWords.AdvanceIsNext` | ycommon/containers/atomic_queue.cpp:61-67 | The word computed after that of position p is the word of position p + 1, at the end of the buffer too |
| `RingWords.SameWordIff` | ycommon/containers/atomic_queue.cpp:52-57 | Two words agree exactly if their positions are a multiple of 256 laps apart |
| `RingWords.NearWords` | ycommon/containers/atomic_queue.cpp:80-95 | Fewer than 256 laps apart, equal words mean equal positions |
| `RingWords.WordsDecide` | ycommon/containers/atomic_queue.cpp:52-57 | The words decide empty and full exactly as unbounded positions do |
| `AtomicQueue.StepInv` | ycommon/containers/atomic_queue.cpp:47-100 | Every byte-sized step of the producer and the consumers, but for a consumer's swap 256 laps late, keeps the invariant of the ring |
| `AtomicQueue.StepInvIff` | ycommon/containers/atomic_queue.cpp:74-97 | Without any bound on staleness a step keeps the invariant if and only if it is not a successful swap with bytes other than those of the first item |
| `AtomicQueue.DeliveredIsPrefix` | ycommon/containers/atomic_queue.cpp:47-100 | In every run the items received, in the order of the successful swaps, are a prefix of those enqueued: once each, untorn, in order |
| `AtomicQueue.WordsTellTheState` | ycommon/containers/atomic_queue.cpp:52-57 | The shared words show empty and full exactly when the queue is, across any number of counter wraps |
| `AtomicQueue.StepsOnContent` | ycommon/containers/atomic_queue.cpp:47-100 | Only publishing appends and only a successful swap removes, namely the first item, which is what was copied |
| `AtomicQueue.DequeueFailsOnlyWhenEmpty` | ycommon/containers/atomic_queue.cpp:79-81 | A Dequeue that returns false fewer than 256 laps after its read of the head saw an instant at which the queue was empty |
| `AtomicQueue.DequeueFailsIff` | ycommon/containers/atomic_queue.cpp:79-81 | At any time it returns false exactly if a multiple of 256 laps lies between the head it read and the tail |
| `AtomicQueue.EnqueueFailsIffFull` | ycommon/containers/atomic_queue.cpp:55-57 | An Enqueue returns false exactly if the queue was full when it read the head |
| `AtomicQueueCalls.EnqueueAppends` | ycommon/containers/atomic_queue.cpp:47-72 | In every run a call of Enqueue that returns true has appended exactly the bytes it was given; one that returns false has appended nothing, and the queue was full at some moment of it |
| `AtomicQueue.SwapIffCurrent` | ycommon/containers/atomic_queue.cpp:95-96 | A prompt compare-and-swap succeeds exactly if no item was taken since the head was read |
| `AtomicQueue.FailureMeansProgress` | ycommon/containers/atomic_queue.cpp:74-97 | A prompt compare-and-swap fails exactly if another consumer took an item in between |
| `AtomicQueueSize.CurrentSizeOf` | ycommon/containers/atomic_queue.cpp:102-120 | For any two words read, the size reported is the distance of their positions less whole laps, or 0 or the item size for a distance of whole laps |
| `AtomicQueueSize.CurrentSizeExactIff` | ycommon/containers/atomic_queue.cpp:102-120 | For a head word and a tail word read at any two moments of any run, the size reported is the number of items at the second moment if and only if the head moved by whole laps only, or the tail is whole laps ahead and 0 or the item size happens to be right |
| `AtomicQueueSize.SizeIsRightWithinALap` | ycommon/containers/atomic_queue.cpp:102-120 | If the tail read is at most one lap ahead this means that the head did not move and the queue is not full, or that it holds as many items as an item has bytes |
| `AtomicQueueRuns.RaceMisreported` | ycommon/containers/atomic_queue.cpp:102-120 | A run in which one Dequeue and one Enqueue come between the two reads: two items are reported though the queue holds one at both moments |
| `AtomicQueueRuns.FullQueueMisreported` | ycommon/containers/atomic_queue.cpp:111-113 | A reachable queue that is full with one item of two bytes reports two items |
| `AtomicQueueRuns.LateSwapDeliversTwice` | ycommon/containers/atomic_queue.cpp:74-97 | A run in which a swap exactly 256 laps after the read of the head succeeds on an empty queue and delivers an item a second time |
| `ThreadPool.StepInv` | ycommon/containers/thread_pool.cpp:59-189 | Every step of workers, producers and controller keeps the wake-up invariant |
| `ThreadPool.NoWakeUpIsLost` | ycommon/containers/thread_pool.cpp:59-103 | In every Running state with a queued job, no producer before its release and no Start owing its first release, the semaphore is up or a worker will try the queue before it waits |
| `ThreadPool.QueuedJobsRun` | ycommon/containers/thread_pool.cpp:166-189 | Left alone, the workers stop after boundedly many steps and only when the queue is empty and every job taken has returned |
| `ThreadPool.JoinIsWoken` | ycommon/containers/thread_pool.cpp:137-145 | A Join that waits is woken: the workers cannot stop before the parent semaphore is up |
| `ThreadPoolJobs.QueueIsFifo` | ycommon/containers/thread_pool.cpp:59-72 | In every run the jobs taken, followed by those in the queue, are the ones enqueued, in order |
| `ThreadPoolJobs.EachJobRunsOnce` | ycommon/containers/thread_pool.cpp:166-183 | In every run the calls of a job's routine, the workers about to call it and its places in the queue are together as many as its enqueues |
| `ThreadPoolJoin.JoinQuietIff` | ycommon/containers/thread_pool.cpp:135-160 | When Join on a paused pool returns, nothing runs and nothing will if and only if no worker has an uncounted job or is about to take one |
| `ThreadPoolJoin.PauseJoinQuietIff` | ycommon/containers/thread_pool.cpp:96-103 | Pausing and joining without a push meanwhile always ends so if and only if, when Pause is called, the queue is empty and every job taken has entered its routine |
| `ThreadPoolJoin.JoinCanMissAJob` | ycommon/containers/thread_pool.cpp:175-178 | From every other state of a running pool there is such a run at whose end Join returns before a job runs |
| `ThreadPoolJoin.JoinCanReturnBeforeAJobRuns` | ycommon/containers/thread_pool.cpp:175-178 | A concrete run in which Join on a paused pool returns while a job taken from the queue has yet to run |
| `Probing.IndexIsSum` | ycommon/containers/hash_table.cpp:92-93 | The i-th slot tried is (key + i) modulo 2^64, modulo the table size |
| `AtomicHashTable.StepInv` | ycommon/containers/atomic_hash_table.cpp:82-196 | Every step of any number of threads keeps every key reachable by probing and every placeholder with one owner |
| `AtomicHashTableTheorems.LookupFindsInserted` | ycommon/containers/atomic_hash_table.cpp:118-196 | While a key that was in the table when a lookup or Remove of it began has not been taken out, its slot holds it with its whole value, a lookup returns no other slot, neither call stops at an empty slot before it or runs out of tries, and the Remove's swap succeeds |
| `AtomicHashTableTheorems.NotFoundMeansAbsent` | ycommon/containers/atomic_hash_table.cpp:118-196 | A lookup returns null, and a Remove false, only if at some instant of the call the key was not in the table, whatever inserts, Removes and lookups overlap it |
| `AtomicHashTableTheorems.LookupReturnsCurrent` | ycommon/containers/atomic_hash_table.cpp:177-196 | Whatever a lookup returns is, at that moment, in the table with its whole value |
| `AtomicHashTableTheorems.StepsOnModel` | ycommon/containers/atomic_hash_table.cpp:82-141 | The map the table stands for changes only at an insert's last store and at a Remove's successful swap |
| `AtomicHashTableTheorems.PublishAdds` | ycommon/containers/atomic_hash_table.cpp:106-110 | An insert's last store adds the key, absent until then, with its value |
| `AtomicHashTableTheorems.InsertStores` | ycommon/containers/atomic_hash_table.cpp:82-113 | In every run an insert that returns has added its key, absent until its last step, with the value it was called with, and the key's slot holds the value's bytes, whatever overlaps the call |
| `AtomicHashTableTheorems.SwapRemoves` | ycommon/containers/atomic_hash_table.cpp:123-135 | A Remove's swap succeeds exactly if its slot still holds the key, and then takes out exactly this key; otherwise nothing changes and the next slot is tried |
| `AtomicHashTableTheorems.OneRemovePerInsert` | ycommon/containers/atomic_hash_table.cpp:82-141 | In every run the successful Removes of a key are as many as its inserts, less one while the key is in the table: of overlapping Removes one returns true per time the key is there |
| `AtomicHashTableTheorems.FatalMeansBlocked` | ycommon/containers/atomic_hash_table.cpp:92-115 | An insert finds no slot only if each of its ten slots, when it was tried, held another key, was claimed by an insert, or had been claimed and given up since it was read as empty |
| `AtomicHashTableTheorems.CallsAreWaitFree` | ycommon/containers/atomic_hash_table.cpp:82-196 | Every insert, Remove and lookup takes at most 25 steps of its own more than the largest value has bytes, whatever the others do |
| `AtomicHashTableTheorems.CounterIsExact` | ycommon/containers/atomic_hash_table.cpp:97-135 | The counter is the number of published keys, inserts past their increment and Removes before their decrement; at rest it is the size of the map |
| `AtomicHashTableTheorems.SlotsStayUsed` | ycommon/containers/atomic_hash_table.cpp:97-131 | No slot ever becomes EMPTY again |
| `AtomicHashTableTheorems.OneClaimant` | ycommon/containers/atomic_hash_table.cpp:97-110 | At most one thread is between its claim of a slot and its last store there |
| `HashTable.FindExact` | ycommon/containers/hash_table.cpp:162-180 | In a consistent table probing finds a key exactly if it is stored, in its slot |
| `HashTable.FindUsableFails` | ycommon/containers/hash_table.cpp:92-108 | An insert finds no slot exactly if all ten slots hold other keys |
| `HashTable.FindUsableIsFirst` | ycommon/containers/hash_table.cpp:92-103 | The slot an insert takes is the first of the ten that holds the key, a tombstone or nothing |
| `HashTable.StorePlaces` | ycommon/containers/hash_table.cpp:96-103 | Storing an absent key in the slot found keeps every key stored once and reachable |
| `HashTable.RemovePlaces` | ycommon/containers/hash_table.cpp:122-125 | A tombstone keeps all other keys reachable |
| `HashTable.StoreAgainBreaks` | ycommon/containers/hash_table.cpp:96-103 | Inserting a stored key again always leaves the table inconsistent |
| `HashTable.MarkerIsFound` | ycommon/containers/hash_table.cpp:162-180 | Either marker value, used as a key, is found in a consistent table that stores nothing |
| `HashTable.FoundExactlyIff` | ycommon/containers/hash_table.cpp:162-180 | Probing is exact for a 64-bit key on every consistent table if and only if the key is neither marker |
| `HashTable.HashTable.constructor` | ycommon/containers/hash_table.cpp:33-58 | A new table is the empty map |
| `HashTable.HashTable.Clear` | ycommon/containers/hash_table.cpp:67-70 | The table becomes the empty map |
| `HashTable.HashTable.Insert` | ycommon/containers/hash_table.cpp:81-109 | The table stays consistent if and only if the key was absent; then the map gains the entry; it fails exactly if ten other keys are in the way |
| `HashTable.HashTable.Store` | ycommon/containers/hash_table.cpp:96-103 | Writing key and value into the slot found changes that slot only, and keeps the table consistent if and only if the key was absent |
| `HashTable.HashTable.Remove` | ycommon/containers/hash_table.cpp:116-131 | Returns whether the key was there and takes exactly it out of the map |
| `HashTable.HashTable.RemoveAt` | ycommon/containers/hash_table.cpp:133-155 | Removal by the address of a value takes out the key stored there, if any |
| `HashTable.HashTable.GetValue` | ycommon/containers/hash_table.cpp:162-180 | Returns the slot holding the value the map gives the key, or nothing exactly if the key is absent |
| `PathSpec.RelativeIsNormal` | ycommon/platform/file_path.cpp:57-148 | A relative path normalises to a relative path without "." or empty components and with ".." only in front |
| `PathSpec.NormalizeIsNormal` | ycommon/platform/file_path.cpp:57-148 | Any path normalises to components without "." and with ".." only in front, and after the root only as the first |
| `PathSpec.NormalizeIdempotent` | ycommon/platform/file_path.cpp:57-148 | The result for any path, absolute or relative, is a fixed point |
| `PathSpec.NormalizeKeepsMeaning` | ycommon/platform/file_path.cpp:54-58 | The result for a relative path names the same place, followed from any directory |
| `PathSpec.AbsoluteKeptIff` | ycommon/platform/file_path.cpp:95-118 | An absolute path stays absolute if and only if no ".." meets exactly one component; the place it names from the root is kept |
| `PathSpec.RootLostExample` | ycommon/platform/file_path.cpp:95-118 | "/a/.." normalises to the empty path |
| `PathSpec.ComponentsOfJoined` | ycommon/platform/file_path.cpp:122-135 | Splitting undoes joining with single separators |
| `PathSpec.NormalizeNulFree` | ycommon/platform/file_path.cpp:57-148 | The result contains no terminator before its end |
| `FilePath.NormPath` | ycommon/platform/file_path.cpp:57-148 | Writes the rendered normal form, its length and a terminator, inside the buffer; fails exactly if after some component the result so far does not fit, and never if the buffer is longer than the path |
| `FilePath.NormStep` | ycommon/platform/file_path.cpp:77-136 | One round skips the next component, pops the last one or appends, as the component stack does |
| `FilePath.PreviousStart` | ycommon/platform/file_path.cpp:95-109 | Scanning backwards finds where the last component starts, and the three-character test recognises exactly a ".." that must stay |
| `FilePath.CopyComponent` | ycommon/platform/file_path.cpp:122-127 | Copies exactly the component, or fails exactly if it does not fit below the last byte |
| `FilePath.AppendComponent` | ycommon/platform/file_path.cpp:122-130 | Appends the component and a separator, or fails exactly if they do not fit |
| `FilePath.Terminate` | ycommon/platform/file_path.cpp:138-147 | Drops the last separator unless it is the root, and terminates the string |
| `FilePath.RunNormalizes` | ycommon/platform/file_path.cpp:77-136 | If no component overflows, the run over the text gives the normal form of its components |
| `FilePath.RunFits` | ycommon/platform/file_path.cpp:122-130 | A buffer larger than the path never overflows |
| `FilePath.RunFitsIff` | ycommon/platform/file_path.cpp:77-136 | The run overflows exactly if the normal form of some beginning of the components, with its separators, is too long for the buffer |
| `FilePath.JoinPaths` | ycommon/platform/file_path.cpp:17-52 | Succeeds exactly if the joined path and its terminator fit, and writes exactly these |
| `RelPathSpec.JoinMeaning` | ycommon/platform/file_path.cpp:17-52 | The joined path names the place that the path names from the directory, absolute paths and directories included, and is absolute exactly if one of them is |
| `RelPathSpec.JoinRendered` | ycommon/platform/file_path.cpp:28-47 | Joining a rendered directory and rendered components renders them together: one separator is put in, and only where it is needed |
| `RelPathSpec.RelativeReturns` | ycommon/platform/file_path.cpp:204-279 | Following the relative path from the directory arrives at the path, if no ".." lies beyond the common part |
| `RelPathSpec.RelativeStrays` | ycommon/platform/file_path.cpp:238-263 | If a ".." lies beyond the common part it arrives somewhere else |
| `RelPathSpec.RootedLeadsBackIff` | ycommon/platform/file_path.cpp:95-118 | Between two rooted normal forms the way leads back if and only if they share a component or the directory is the root: one that goes up to the root loses it |
| `RelPathSpec.UnrootedLeadsBackIff` | ycommon/platform/file_path.cpp:95-118 | From a rooted directory the way to a relative normal form leads back if and only if this is empty and the directory is not the root |
| `RelPathSpec.PathFromLeadsBackIff` | ycommon/platform/file_path.cpp:95-279 | For any two normal forms, following the components written arrives at the path if and only if the stated condition on roots and components holds |
| `RelPathSpec.JoinRelativeRoundTrip` | ycommon/platform/file_path.cpp:17-279 | For any two strings, joining and normalising leads back under exactly that condition on their normal forms |
| `RelPathSpec.ComponentsOfJoin` | ycommon/platform/file_path.cpp:28-47 | The components of a joined path are those of the directory and then those of the path |
| `RelPathMatch.MatchIsCommon` | ycommon/platform/file_path.cpp:204-236 | The byte-by-byte match leaves exactly the components after the longest common prefix of both paths |
| `RelPathMatch.JoinedSepCount` | ycommon/platform/file_path.cpp:238-262 | Counting separators, and one more for the end, counts the components left |
| `RelPath.RelPath` | ycommon/platform/file_path.cpp:181-279 | Succeeds exactly if both paths are normalised within 256 bytes and the text fits the buffer with its terminator, and one byte more if it ends in ".." and a separator; so always for paths below 256 bytes and a buffer two bytes longer than the text. Then writes that text, its length and a terminator |
| `RelPath.SkipMatching` | ycommon/platform/file_path.cpp:204-236 | The loop and the tests after it stop where the match of the two texts says |
| `RelPath.WriteUps` | ycommon/platform/file_path.cpp:238-263 | Writes one ".." for every directory left, or fails exactly if they do not fit with a byte to spare |
| `RelPath.RelFitsIff` | ycommon/platform/file_path.cpp:241-270 | The test before each ".." and the one before the rest come to this condition on the whole text |
| `RelPath.RelTextIsRelative` | ycommon/platform/file_path.cpp:181-279 | For every mix of absolute and relative paths the text is the stated one: the way over the longest common prefix if both or neither are rooted; otherwise all of the directory left, its root counted once more for a non-empty path |
| `RelPath.RelPathRoundTrip` | ycommon/platform/file_path.cpp:17-279 | The text written, joined to the directory and normalised, is the normal form of the path if and only if the normal forms are both relative with no ".." of the directory beyond the common part, or both rooted with something in common or the directory the root, or only the directory is rooted, not the root, and the path empty |
| `RelPath.RoundTripFailsFromDotDot` | ycommon/platform/file_path.cpp:17-279 | From ".." the text to "a" is "../a", and joined it normalises to "../../a" |
| `RelPath.RoundTripFailsAcrossRoot` | ycommon/platform/file_path.cpp:17-279 | From "/a" the text to "/b" is "../b", and joined it normalises to "b" |
| `RenderKey.ActiveRenderKey.SetupRenderKey` | yengine/renderer/renderer.cpp:909-926 | The active fields are the given ones followed by cleared ones, and the bits in use are the sum of their widths |
| `RenderKey.AppendBits` | yengine/renderer/renderer.cpp:629-638 | Shifting and or-ing loses no bit and overlaps none |
| `RenderKey.GetRenderKey` | yengine/renderer/renderer.cpp:597-639 | Every field of the key, the first on top, holds the object's value of the field's own type, and the bits left hold the key index |
| `RenderKey.PackFields` | yengine/renderer/renderer.cpp:600-631 | After the loop every field holds the value of its own type, in order, and the bits left are those not used |
| `RenderKey.KeyOrder` | yengine/renderer/renderer.cpp:597-639 | Keys compare as their field values do lexicographically, and then as their indexes; equal keys mean equal values and indexes |
| `RenderKey.KindOrder` | yengine/renderer/renderer.cpp:597-639 | Of two keys the smaller is that of the object with the smaller value of the first type, in field order, in which the objects differ |
| `RenderKey.IndexOrder` | yengine/renderer/renderer.cpp:597-639 | Keys of objects that agree in all types of the fields compare as their indexes |
| `RenderKey.KeyExample` | yengine/renderer/renderer.cpp:597-639 | One field of 8 bits with value 3 and index 1 give 3 shifted left by 56 bits, plus 1 |
| `RenderKey.DecodeIndex` | yengine/renderer/renderer.cpp:1887-1895 | Truncating a key to 32 bits and masking recovers its index |
| `RenderKey.DrawOrder` | yengine/renderer/renderer.cpp:1879-1898 | After the sort the loop visits every enqueued object once, in the order of field values and index |
| `RenderKey.Rearranged` | yengine/renderer/renderer.cpp:1882 | However the keys are rearranged, they belong to the same objects rearranged alike |
| `RenderKey.OrDisjoint` | yengine/renderer/renderer.cpp:629 | Setting bits below a shifted number adds them |
| `RenderKey.AndMask` | yengine/renderer/renderer.cpp:1890-1895 | Masking the low bits takes the remainder |
| `RenderDeviceState.RenderDeviceState.constructor` | yengine/renderer/render_device_state.cpp:7-9 | A new cache shows the all-ones ID in every slot, whatever the device holds |
| `RenderDeviceState.RenderDeviceState.Reset` | yengine/renderer/render_device_state.cpp:7-9 | After a reset the cache shows the all-ones ID in every slot |
| `RenderDeviceState.InvalidIsAllOnes` | yengine/renderer/render_device_state.cpp:7-9 | The ID that the reset writes is the largest of each slot's type, 8 or 16 bits of ones |
| `RenderDeviceState.RenderDeviceState.Activate` | yengine/renderer/render_device_state.cpp:11-39 | Skips the call exactly if the cache shows the ID, all ones included; otherwise makes it and notes the ID |
| `RenderDeviceState.RenderDeviceState.ActivateFloatArg` | yengine/renderer/render_device_state.cpp:41-67 | Skips the load exactly if the cache shows the buffer in all its registers; otherwise loads it; and notes it in exactly these registers |
| `RenderDeviceState.RenderDeviceState.NoteRegisters` | yengine/renderer/render_device_state.cpp:43-49 | The loop sets exactly the registers in range and reports whether any ID differed |
| `RenderDeviceState.RenderDeviceState.ActivateAll` | yengine/renderer/render_device_state.cpp:7-127 | Any sequence of calls in bounds leaves cache and device as the sequence of those steps does |
| `RenderDeviceState.CacheShowsLast` | yengine/renderer/render_device_state.cpp:7-127 | The cache shows in every slot the ID of the last call that wrote it, or all ones |
| `RenderDeviceState.SkipsIff` | yengine/renderer/render_device_state.cpp:43-53 | A call is skipped if and only if all its slots were last written with its ID |
| `RenderDeviceState.StaleIff` | yengine/renderer/render_device_state.cpp:11-67 | One more call leaves the device as if it had received it if and only if the call is not stale |
| `RenderDeviceState.AgreeIff` | yengine/renderer/render_device_state.cpp:7-127 | For any sequence of calls in bounds and any device that holds no all-ones ID, the device is, after each call, in the state it would be in had every call reached it, if and only if no call is stale when it comes |
| `RenderDeviceState.ProperAgree` | yengine/renderer/render_device_state.cpp:7-127 | This is so for any device if IDs are not all ones and each constant buffer is always loaded at its own register, overlapping ranges included |
| `RenderDeviceState.MovedBufferIsMissed` | yengine/renderer/render_device_state.cpp:41-53 | A buffer loaded at register 0, at 1 and at 0 again: the third call is skipped and the device is left wrong |
| `RenderDeviceState.AllOnesIsMissed` | yengine/renderer/render_device_state.cpp:11-39 | Right after a reset an ID of all ones is skipped and the device is left wrong |

## Left out

- RenderKey.DrawOrder: `std::sort` is not modelled; its result is any sorted rearrangement of the enqueued keys.
- FilePath.JoinPaths: the two bounds tests that can never fail (lines 32 and 38) are not repeated.
- FilePath.NormPath: a buffer of at least two bytes is required for absolute paths and of at least one for relative paths, because the code writes so much before it tests.
- RenderDeviceState.RenderDeviceState.Activate: stands for the twelve methods that compare and set one field, in lines 11-39 and 69-127.
- HashTable.HashTable.Insert: the value is copied as a whole, not byte by byte, and the abort after ten tries is the result None.
- Update in place by concurrent threads: the six transition systems are on values, because a Dafny method cannot be interrupted.
- Fairness: the theorems bound the number of steps and exclude deadlock; that an enabled thread is scheduled is up to the platform.
- Timeouts of `ExecuteCommands`, of `Join` and of semaphores; `ThreadPool::Stop` and `Join` after it; running a command tree again after a failure or timeout.
- Routine and argument pointers of command nodes, and the layout and size assertions of the caller's buffers.
- `AtomicMemPool::Insert` and `GetIndex`: a copy into an item the caller holds, which the model allows as a client's write, and pointer arithmetic.
- `AtomicHashTable::Remove` by the address of a value, `Clear`, and the 32-bit width of its entry counter.
- `AbsPath`, `DirPath` and `EnsureDirectoryExists`: compositions of the modelled functions with calls into the platform.
- The hash function (CityHash), hashed only before the modelled entry points; the tables take 64-bit keys.
- The renderer's registry, reference counts, and default key fields (24 bits, outside what `PrepareDraw` accepts).
- `UnorderedArray`, `RefPointer`, `MemBuffer`, Direct3D devices, platform code, tools and build scripts.
- The memory model of the hardware.
