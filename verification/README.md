# Nidhugg, verified

Nidhugg is a stateless model checker for concurrent programs. Besides a great deal of plumbing around LLVM it
rests on a number of algorithms whose correctness is not obvious from any one function: lazily propagated
clocks, containers with structural sharing and no reference counts, store buffers that are split into bytes,
the bookkeeping of source-DPOR, a work-stealing scheduler, a loop transformation and an out-of-order
interpreter. This project models these algorithms in Dafny and proves what the rest of the program relies on.

`dafny verify dfyconfig.toml` checks everything.

## The parts

**Clocks** (`Graph`, `FBVClock`). `a += b` makes clock `a` contain clock `b` from then on. Nothing is pushed
along; `update` pulls bits in when a clock is read, guided by two timestamp vectors. Proved: at any time, a bit
of a clock reads true exactly when its owner is reachable in the graph of all additions made so far. The
meaning of the timestamps, which makes every early return safe, is the invariant `Inv`.

**PSO store buffers** (`PSOBuffers`, `PSOInterpreter`, `PSODrains`, `PSOHistory`). Partial Store Order is that of section 8.4.4 of The
SPARC Architecture Manual, Version 9. The specification is a list of whole pending stores in the order of issue; a
queue per byte is its projection. From this it follows that looking at one byte is enough wherever the program
does so, that some store can always be flushed, that the order of flushing does not matter for the result, that
loads return what the thread must see, and that no thread waits for a buffer that has already been flushed. If
only those auxiliary threads run that are marked as available, it is proved exactly when the buffers drain, also with
stores issued in between.

**Source-DPOR** (`TraceEvents`, `RaceReversal`, `VecSets`, `SleepSets`, `SleepReplay`, `PSOTrace`, `PSOTraceRuns`, `ScReplay`).
Race reversal always leaves an initial of the events to be tried first among the branches or the sleepers. The sleep set kept step by step
agrees with the one recomputed from the prefix, through dry runs, replay, merging of events, wake-ups and
`reset`; a replayed event wakes the same threads if its accesses and the dry runs are the same. What `has_cycle`
answers is compared with a definition of sequentially consistent orders that does not mention the replay. `PSOTraces` joins
race reversal and scheduling, which are two views of one object, and `PSOTraceRuns` shows that every run of it ends with a
trace of the kind that `has_cycle` takes for granted.

**Work stealing** (`WorkQueue`, `WorkStealing`, `DecisionTree`). Workers are interleaved at every lock operation and
every access to the flag, the counter, a pruning mark, or the queues under a lock. Proved for every reachable state: the
counter is the number of live nodes and of those that were dropped because they are pruned; halting is announced only
when nothing is left to do or an error stops the run; nobody keeps waiting after that; no two workers touch a queue at
once; no node is lost or handed out twice; a theft takes half of the shallowest deque. When no worker can take a step any more, all have left exactly if no node
was dropped or an error stopped them.

**Containers** (`Heaps`, `Bitmaps`, `GenTrees`, `GenEdits`, `GenWalks`, `GenDepths`, `GenMap`, `GenVector`). The cells live in
an explicit heap that several containers share. A map is proved against a finite map for every hash function, a
vector against a sequence; neither writes a cell it has not allocated, so a copy never disturbs its source; and
each destructor frees exactly the cells that its container has allocated.

**Loop unrolling** (`Programs`, `LoopUnroll`, `LoopUnrollPass`). What the pass does step by step is proved to
produce a program described in one place (`IsUnrolled`), and that program is proved to simulate the original one
until the original enters the header once more than there are copies, at which point it is in the diverge block, and
never before.

**Out-of-order commit** (`PowerCommit`). Whatever the order in which operands arrive, each instruction is committed
once, and commits the value of evaluation in program order.

**Coherence heuristic** (`PrefixHeuristic`). The stores are placed in the order of the execution, each after the last
store to its address that it does not happen before; no guess closes a cycle. The order returned agrees with the total
order of the stores to each address that this makes, and with all edges of the graph.

**Vector bit casts** (`Bitcast`). Packing and unpacking are inverse, for both byte orders, because both keep the bits
of the vector as they lie in memory.

## What the proofs found

- **Pruned nodes and termination.** `RFSCTraceBuilder::reset` drops dequeued nodes that are pruned
  (src/RFSCTraceBuilder.cpp:226-229) without counting them down; the only decrement is at src/DPORDriver.cpp:391. After
  that the counter never reaches zero: unless an error stops the exploration, all workers end up waiting for ever.
  `StuckRun` is such a run of two workers, and `FinishesIff` says exactly when the workers finish.
- **Stores that stay in the buffer.** `PSOTraceBuilder::atomic_store` makes the auxiliary thread unavailable when any queue of
  the store it has flushed becomes empty (src/PSOTraceBuilder.cpp:525-528), even if another store still starts at the byte
  of that thread. `LeftBehindIff` says exactly when that happens, and `DrainsIff` exactly when the buffers drain
  nevertheless; in `StaysForEver` they do not, and a fence would wait for ever. `AlwaysDrainsIff` says for which stores of a
  thread this can happen at all.
- **Merged events in a replay.** Steps that do not conflict are merged into the event before them
  (src/PSOTraceBuilder.cpp:96-106). When such an event is replayed, a join that is one of its later steps adds to the clock of the
  whole event (src/PSOTraceBuilder.cpp:653-655), of which a thread spawned by an earlier step knows nothing. `SeeIsSafeIff` says exactly
  when the clocks still encode a transitive order. In `MergedEventExample` they do not: an access of the spawned
  thread passes for a race with the very event that spawned it, and `add_branch` would try the thread before it exists.
- **A cycle that is missed.** After a call such as that of `printf`, which is no fence but conflicts with all of memory
  (src/Configuration.h:69-94, src/Execution.cpp:4152-4167), the update of a store that was pending sees the call
  (src/PSOTraceBuilder.cpp:502), a later step of its own process. `has_cycle` compares clocks with the progress of other
  processes only. The assertion at src/PSOTraceBuilder.cpp:1246 fails if the replay takes such a store, and where assertions are
  compiled away the cycle that the store and the call form may be missed. `HasCycle` says exactly when,
  and `AheadExample` is a trace.
- **A shift by more than the width.** In `gen::map::mut`, `first_hash >>= depth` (src/GenMap.h:391) has no defined
  result when the depth is 64 or more. That happens exactly if a new key has the hash of another key, and a third one
  agrees with it in the lowest sixty bits only (`Mut`, `DeepIffCrowded`); so never if no two keys have the same hash.
  `ShiftOutExample` has three such keys. The model shifts one bit at a time there, as the algorithm needs; `ShiftedOut`
  shows what a shift modulo the width would do.
- **Values that leave a loop.** The loop unrolling pass repairs uses of the loop's values outside the loop only in PHI nodes
  of exit blocks, and neither it (src/LoopUnrollPass.cpp:45-49) nor the passes before it (src/Transform.cpp:105-113) ask for
  this form of loops by name. It is a condition on the program, part of `Valid`; `EscapingDiffers` is a program that
  computes something else without it.
- The additions of clocks must close no cycle. This is a condition on the caller, part of `Add`.

## Model

| member | source | states |
|---|---|---|
| `FBVClocks.ClockSystem.NewClock` | src/FBVClock.cpp:42-53 | a new clock contains only itself; its index must not have been used before |
| `FBVClocks.ClockSystem.Get` | src/FBVClock.cpp:55-58 | bit `i` of a clock is set exactly when the clock of index `i` is reachable from it through all additions ever made, although bits are only pulled in on demand |
| `FBVClocks.ClockSystem.Add` | src/FBVClock.cpp:60-73 | the graph of additions grows by exactly this one, also when the early return or the lazy copy is taken; requires that no cycle arises |
| `FBVClocks.ClockSystem.Link` | src/FBVClock.cpp:60-73 | an addition that takes effect keeps the timestamp protocol and adds one link |
| `FBVClocks.ClockSystem.LinkTo` | src/FBVClock.cpp:67-71 | the two timestamps and the copy keep the protocol |
| `FBVClocks.ClockSystem.Update` | src/FBVClock.cpp:75-93 | after `update` the clock shows all that it reaches; clocks it does not reach are untouched; terminates because the reachable set shrinks |
| `FBVClocks.ClockSystem.Visit` | src/FBVClock.cpp:84-90 | one turn of the loop leaves one index less to be covered |
| `FBVClocks.ClockSystem.SkipIsSafe` | src/FBVClock.cpp:86 | skipping an unset bit, or a clock that has not changed since the last update, loses nothing |
| `FBVClocks.ClockSystem.Pull` | src/FBVClock.cpp:87-88 | recursive update and copy cover the other clock and everything that came with it |
| `FBVClocks.ClockSystem.Stamp` | src/FBVClock.cpp:92 | the timestamp may be set once everything shown is covered |
| `FBVClocks.AddClock` | src/FBVClock.cpp:95-100 | the loop computes the bitwise or, growing the target |
| `FBVClocks.UpToDateIsComplete` | src/FBVClock.cpp:81-82 | the early return `upd_ts == time` loses nothing |
| `FBVClocks.CoveredIsComplete` | src/FBVClock.cpp:75-93 | a clock that covers all it shows contains the transitive closure |
| `FBVClocks.BelowShrinks` | src/FBVClock.cpp:75-93 | the recursion of `update` goes strictly down in the graph of additions |
| `FBVClocks.PullKeepsInv` | src/FBVClock.cpp:87-88 | copying a complete clock keeps the meaning of both timestamps |
| `FBVClocks.StampKeepsInv` | src/FBVClock.cpp:92 | so does stamping a complete clock |
| `FBVClocks.LinkKeepsInv` | src/FBVClock.cpp:60-73 | so does an addition, which advances the time |
| `FBVClocks.NewKeepsInv` | src/FBVClock.cpp:42-53 | so does a new clock |
| `Graph.AcyclicAdd` | src/FBVClock.cpp:60-73 | an edge whose target does not reach its source closes no cycle |
| `Graph.RedundantEdge` | src/FBVClock.cpp:62-65 | an addition between clocks that are already connected changes nothing, which the early return relies on |
| `PSOBuffers.PushBack` | src/PSOTraceBuilder.cpp:418-424 | a store split into bytes keeps each queue the issue-order projection of the pending stores onto its byte |
| `PSOBuffers.IsAuxAtHead` | src/PSOTraceBuilder.cpp:149-170 | true exactly when some pending store starts at the byte of the auxiliary thread and is oldest on every byte it covers; the assertion about equal locations never fails |
| `PSOBuffers.FlushableUnique` | src/PSOTraceBuilder.cpp:149-170 | there is at most one such store |
| `PSOBuffers.SomeAuxAtHead` | src/PSOTraceBuilder.cpp:149-170 | a thread with pending stores always has an auxiliary thread at head |
| `PSOBuffers.FlushableIsOldest` | src/PSOTraceBuilder.cpp:149-170 | not to be overlapped by an earlier store is to be oldest on every byte |
| `PSOBuffers.PopIsWithout` | src/PSOTraceBuilder.cpp:518-531 | taking the front of every covered queue removes one whole store |
| `PSOBuffers.FlushKeepsView` | src/PSOInterpreter.cpp:89-123 | a flush changes for no byte what its own thread sees |
| `PSOBuffers.DrainIsOrderIndependent` | src/PSOInterpreter.cpp:89-123 | whatever order the auxiliary threads run in, memory ends up with what the thread saw |
| `PSOBuffers.FlushingDrains` | src/PSOTraceBuilder.cpp:149-170 | every run of flushes can be continued until the buffers are empty |
| `PSOBuffers.Readable` | src/PSOInterpreter.cpp:42-51 | true exactly when every queue that the load meets ends with a store to the same location |
| `PSOBuffers.ReadableIsExact` | src/PSOInterpreter.cpp:42-51 | which holds exactly when the newest overlapping store is to the same location, or nothing pending overlaps |
| `PSOBuffers.Load` | src/PSOInterpreter.cpp:279-294 | looking at the first byte only, the load gets all its bytes from one store, the newest overlapping one, or all from memory with nothing pending |
| `PSOBuffers.ExactLoadsView` | src/PSOInterpreter.cpp:279-294 | and that is what the thread must see, byte by byte |
| `PSOBuffers.LoadFromBuffer` | src/PSOInterpreter.cpp:280-287 | the newest bytes of the queues are the data of one store |
| `PSOBuffers.LoadFromMemory` | src/PSOInterpreter.cpp:288-293 | without overlapping pending stores memory is what the thread must see |
| `PSOInterpreters.PSOInterpreter.NewThread` | src/PSOInterpreter.cpp:157-160 | a new thread has empty buffers and waits for nothing, and the others are as before |
| `PSOInterpreters.PSOInterpreter.CheckRefuse` | src/PSOInterpreter.cpp:212-257 | refused exactly for a join of a thread that has not ended, a fence with pending stores, or an unreadable load; in this order, the thread is then the last waiter of the joined thread, or waits for empty buffers, or for the location of its load, and nothing else changes |
| `PSOInterpreters.PSOInterpreter.RefuseJoin` | src/PSOInterpreter.cpp:214-226 | the joined thread gets the thread as its last waiter, and no other list of waiters changes |
| `PSOInterpreters.PSOInterpreter.RefuseForFlush` | src/PSOInterpreter.cpp:228-254 | a fence waits for everything, a load for its own location; a fence comes first |
| `PSOInterpreters.PSOInterpreter.ParkInJoin` | src/PSOInterpreter.cpp:214-226 | the waiter is remembered by the thread it waits for |
| `PSOInterpreters.PSOInterpreter.Park` | src/PSOInterpreter.cpp:228-254 | the kind and location of the wait are recorded |
| `PSOInterpreters.PSOInterpreter.VisitLoad` | src/PSOInterpreter.cpp:259-295 | a load that is not refused returns what the thread must see, from one store or from memory |
| `PSOInterpreters.PSOInterpreter.VisitStore` | src/PSOInterpreter.cpp:297-343 | the store becomes the newest pending one, its auxiliary thread exists and is available, the thread sees its bytes, and nothing else changes |
| `PSOInterpreters.PSOInterpreter.VisitAtomicStore` | src/PSOInterpreter.cpp:297-343 | a store with empty buffers goes to memory: its thread sees it, and others see it where they have nothing pending |
| `PSOInterpreters.PSOInterpreter.Terminate` | src/PSOInterpreter.cpp:200-210 | threads waiting in a join are enabled at once if nothing is pending |
| `PSOInterpreters.PSOInterpreter.RunAux` | src/PSOInterpreter.cpp:89-155 | exactly one issued store is written back whole, what the thread sees stays, exactly those waiters are enabled whose cause is gone, and these only stop waiting |
| `PSOInterpreters.PSOInterpreter.Flush` | src/PSOInterpreter.cpp:89-123 | writing back and popping take the same store; the auxiliary thread becomes unavailable when a covered queue drains |
| `PSOInterpreters.PSOInterpreter.WakeAfterFlush` | src/PSOInterpreter.cpp:125-154 | the wait ends by the tests of the source |
| `PSOInterpreters.PSOInterpreter.EndsWait` | src/PSOInterpreter.cpp:126-145 | when the buffers are empty, or the awaited location has become readable |
| `PSOInterpreters.PSOInterpreter.EmptyBuffers` | src/PSOInterpreter.cpp:125-154 | no queue is left exactly when no store is pending |
| `PSOInterpreters.PopFront` | src/PSOInterpreter.cpp:100-123 | the loop over the bytes collects one store and pops each queue |
| `PSOInterpreters.PopThread` | src/PSOInterpreter.cpp:89-123 | for the store at the front of the auxiliary thread |
| `PSOInterpreters.ParkInJoinKeepsInv` | src/PSOInterpreter.cpp:214-226 | no missed wake-up: parking in a join |
| `PSOInterpreters.ParkForFlushKeepsInv` | src/PSOInterpreter.cpp:228-254 | no missed wake-up: parking for a flush, which has a cause |
| `PSOInterpreters.TerminateKeepsInv` | src/PSOInterpreter.cpp:200-210 | no missed wake-up: the end of a thread |
| `PSOInterpreters.FlushKeepsInv` | src/PSOInterpreter.cpp:125-154 | no missed wake-up: a flush that removes the cause enables the waiter |
| `PSOInterpreters.WokenExactly` | src/PSOInterpreter.cpp:125-154 | a flush enables exactly: its thread if that waits for everything and nothing is left, or for a location that is readable now; and those joining its thread if that has ended and nothing is left |
| `PSOInterpreters.FlushElsewhereKeepsUnreadable` | src/PSOInterpreter.cpp:137-145 | a flush that does not overlap the awaited location cannot make it readable, so not looking is safe |
| `PSOInterpreters.IssueKeepsInv` | src/PSOInterpreter.cpp:297-343 | no missed wake-up: issuing stores |
| `PSOInterpreters.OnlyJoinsBlock` | src/PSOInterpreter.cpp:125-256 | when nothing can run, no store is pending and every thread that is left waits for another one that is left |
| `PSOInterpreters.LeftBehindIff` | src/PSOTraceBuilder.cpp:518-531 | a pending store keeps an unavailable auxiliary thread after a flush exactly when another store starts at the same byte and some covered byte has drained |
| `PSOInterpreters.LeftBehindExample` | src/PSOTraceBuilder.cpp:525-528 | two stores for which that happens |
| `PSODrains.DrainsIff` | src/PSOTraceBuilder.cpp:525-528 | if only available auxiliary threads run, in any order, until none may run, the buffers are empty in the end exactly if all needed ones are available and every store before another one at the same address is covered by later stores |
| `PSOHistories.AlwaysDrainsIff` | src/PSOTraceBuilder.cpp:418-440 | for all stores that a thread issues, in whatever way flushes fall between them: the buffers are always empty once no auxiliary thread may run, exactly if by the last store at each address every byte of the earlier ones there has been stored to again |
| `PSOHistories.CoveredDrains` | src/PSOTraceBuilder.cpp:435 | if so, whoever needs the mark has it or will get it again |
| `PSOHistories.UncoveredRun` | src/PSOTraceBuilder.cpp:525-528 | if not, a run that leaves a store in the buffer for ever |
| `PSOHistories.FlushKeepsMark` | src/PSOTraceBuilder.cpp:518-531 | a flush withdraws no mark that is still needed and will not be set again |
| `PSOHistories.StuckStays` | src/PSOTraceBuilder.cpp:525-528 | without a mark a store stays until another one is issued at its address |
| `PSOHistories.IssueMarks` | src/PSOTraceBuilder.cpp:418-440 | issuing in the histories is what issuing does to the buffers and to the marks of the interpreter |
| `PSODrains.DrainsAllAlong` | src/PSOTraceBuilder.cpp:518-531 | that condition is the same before and after every flush |
| `PSODrains.DrainedIffUncovered` | src/PSOTraceBuilder.cpp:518-531 | a flush withdraws the mark exactly if the store was not covered by later ones |
| `PSODrains.MarkWithdrawn` | src/PSOTraceBuilder.cpp:525-528 | what the flush does to the marks of the auxiliary threads |
| `PSODrains.StaysForEver` | src/PSOTraceBuilder.cpp:525-528 | two stores of which the second one stays in the buffer for ever |
| `PSODrains.OnlyJoinsBlockIff` | src/PSOTraceBuilder.cpp:114-122 | when no thread and no available auxiliary thread can run, exactly the buffers that do not drain are not empty; if all drain, only joins are waited for |
| `WorkQueues.ThreadWorkQueue.Push` | src/RFSCDecisionTree.h:198-209 | the deque of the depth of the node gets it at its back, other depths stay |
| `WorkQueues.ThreadWorkQueue.Pop` | src/RFSCDecisionTree.cpp:134-144 | the deque of the greatest depth loses its first node, other depths stay, and no empty deque does |
| `WorkQueues.ThreadWorkQueue.Steal` | src/RFSCDecisionTree.cpp:146-163 | the deque of the least depth is cut in two, of which the thief gets the back with (n + 1) / 2 of n nodes; other depths stay; fails exactly on an empty queue |
| `WorkQueues.TakeHalf` | src/RFSCDecisionTree.cpp:150-160 | the thief gets (n + 1) / 2 of n nodes, and what stays followed by what is taken is the deque as it was |
| `WorkQueues.TheftTakesHalf` | src/RFSCDecisionTree.cpp:146-163 | the same of the queues before and after |
| `WorkQueues.PushedLast` | src/RFSCDecisionTree.h:198-209 | pushing appends to one deque |
| `WorkQueues.PoppedFirst` | src/RFSCDecisionTree.cpp:134-144 | popping removes the front of one deque, and leaves no empty one |
| `WorkQueues.StealNodes` | src/RFSCDecisionTree.cpp:146-163 | loot and rest are disjoint and together what was there |
| `WorkQueues.PopNodes` | src/RFSCDecisionTree.cpp:134-144 | one node leaves the queue |
| `WorkQueues.PushNodes` | src/RFSCDecisionTree.h:198-209 | one node enters the queue |
| `WorkQueues.Others` | src/RFSCDecisionTree.cpp:112-115 | every other worker, once |
| `WorkStealing.StepKeepsInv` | src/RFSCDecisionTree.cpp:84-132 | every step of every worker keeps the invariant on locks, nodes, counter and halting |
| `WorkStealing.SpuriousKeepsInv` | src/RFSCDecisionTree.cpp:103-108 | so does a spurious wake-up |
| `WorkStealing.RunHasInv` | src/DPORDriver.cpp:360-424 | it holds in every reachable state, also when nodes are pruned and dropped |
| `WorkStealing.QueuesAreExclusive` | src/RFSCDecisionTree.cpp:84-132 | no two workers access the same queue at once |
| `WorkStealing.OtherQueuesAreIgnored` | src/RFSCDecisionTree.cpp:92-126 | no other queues matter: a step neither depends on the content of a queue that it does not access, nor changes it |
| `WorkStealing.PushWakesOne` | src/RFSCDecisionTree.cpp:84-90 | a push wakes exactly one of the waiting workers, if there are any |
| `WorkStealing.LocksAreOrdered` | src/RFSCDecisionTree.cpp:84-132 | every step takes only locks of higher rank than those that the worker holds, so there is no lock cycle |
| `WorkStealing.ZeroIsDetectedRightly` | src/DPORDriver.cpp:383-396 | the counter is at least one when a worker counts down, and the last count means that all queues are empty, no other worker has a node, and none was dropped |
| `WorkStealing.ZeroMeansNothingLeft` | src/DPORDriver.cpp:383-396 | at zero nothing is queued, explored or about to be queued, nothing was dropped, and all that was created is finished |
| `WorkStealing.CounterNotNegative` | src/DPORDriver.cpp:383-396 | the counter never goes below zero |
| `WorkStealing.HandedOutOnce` | src/RFSCDecisionTree.cpp:92-126 | a queued node has never been handed out |
| `WorkStealing.NothingIsForgotten` | src/DPORDriver.cpp:360-424 | when all workers have left without an error, every created node has been finished, none was dropped, and all queues are empty |
| `WorkStealing.NeverStuck` | src/RFSCDecisionTree.cpp:92-132 | as long as no node was dropped, or if an error stops the exploration, some worker can take a step until all have left |
| `WorkStealing.CounterIsExact` | src/DPORDriver.cpp:383-396 | in every reachable state the counter is the number of live nodes and of dropped nodes, all of which are in pruned subtrees |
| `WorkStealing.RestIff` | src/DPORDriver.cpp:383-407 | no worker can take a step exactly when all have left, or when all wait; the latter only after a node was dropped |
| `WorkStealing.FinishesIff` | src/DPORDriver.cpp:383-407 | when no worker can take a step, all have left exactly if an error stopped them or no node was dropped; otherwise all wait and the counter is the number of dropped nodes |
| `WorkStealing.NobodyLeavesAfterDrop` | src/RFSCTraceBuilder.cpp:223-234 | once a node was dropped, nobody leaves any more unless an error stops the exploration, whatever wake-ups there are |
| `WorkStealing.StuckRun` | src/RFSCTraceBuilder.cpp:223-234 | a run of two workers: one prunes the decision above its node while a sibling is queued, the other drops the sibling, and both wait for ever with a counter of one |
| `WorkStealing.DropKeepsLedger` | src/RFSCTraceBuilder.cpp:223-234 | a dropped node stays counted |
| `WorkStealing.CheckedIsOk` | src/RFSCDecisionTree.cpp:233-239 | the walk of a worker is at a node above its own, and a node is dropped only in a pruned subtree, whatever the others prune meanwhile |
| `WorkStealing.JobKeepsTree` | src/RFSCDecisionTree.cpp:228-230 | growing and pruning the tree disturbs no walk |
| `WorkStealing.NotifyAllKeepsHalt` | src/RFSCDecisionTree.cpp:128-132 | after the notification of `halt` nobody waits any more |
| `WorkStealing.CountingKeepsHalt` | src/DPORDriver.cpp:383-396 | the decision to halt is taken by the worker that counts to zero |
| `WorkStealing.HaltStopsTaking` | src/RFSCDecisionTree.cpp:92-130 | once halting is announced, each worker takes at most one more node, and only if it was past the test of the flag by then |
| `WorkStealing.AnnounceKeepsLedger` | src/RFSCDecisionTree.cpp:84-86 | counting before pushing keeps the equation of the counter |
| `WorkStealing.FinishKeepsLedger` | src/DPORDriver.cpp:383-396 | counting down afterwards keeps it as well |
| `WorkStealing.DequeueKeepsNodes` | src/RFSCDecisionTree.cpp:92-126 | popping and stealing conserve nodes |
| `WorkStealing.RobberyKeepsNodes` | src/RFSCDecisionTree.cpp:116-124 | a theft conserves nodes |
| `WorkStealing.OwnNodeTaken` | src/RFSCDecisionTree.cpp:92-126 | the step that takes a node of the worker itself takes the front of its deepest deque, and changes nothing of others |
| `WorkStealing.HalfRobbed` | src/RFSCDecisionTree.cpp:116-124 | the step that steals halves the shallowest deque of the victim, starts with the first node taken, and keeps the others in order |
| `WorkStealing.ChildIsLast` | src/RFSCDecisionTree.cpp:84-86 | the step that pushes appends to the deque of its depth |
| `DecisionTrees.DecisionTree.FindAncestor` | src/RFSCDecisionTree.cpp:40-50 | the node at the wanted depth above the given one |
| `DecisionTrees.AncestorIsUnique` | src/RFSCDecisionTree.cpp:242-249 | there is only one |
| `DecisionTrees.DecisionTree.IsPruned` | src/RFSCDecisionTree.cpp:233-239 | true exactly below a pruned node, the root not counting |
| `DecisionTrees.DecisionTree.PruneDecisions` | src/RFSCDecisionTree.cpp:228-230 | exactly one subtree is pruned in addition, by one mark |
| `DecisionTrees.DecisionTree.TryAllocUnf` | src/RFSCDecisionTree.cpp:211-215 | an event can be claimed once among siblings |
| `DecisionTrees.FirstAttemptSucceeds` | src/RFSCDecisionTree.cpp:211-215 | of all attempts of siblings for one event exactly the first succeeds, and none if it was claimed before |
| `DecisionTrees.NewNode` | src/RFSCDecisionTree.cpp:24-30 | a new node leaves it to everybody else who is above whom |
| `DecisionTrees.DecisionTree.NewDecisionNode` | src/RFSCDecisionTree.cpp:24-30 | a new node is one deeper than its parent, has not been pruned, and claims its event; other nodes stay as they are |
| `TraceEvents.AfterIsLeq` | src/PSOTraceBuilder.cpp:1046-1051 | comparing clocks and looking up one entry are the same test |
| `TraceEvents.AfterTrans` | src/PSOTraceBuilder.cpp:1046-1057 | the relation that the clocks encode is transitive |
| `TraceEvents.BranchesDoNotSleep` | src/PSOTraceBuilder.cpp:981-991 | branches do not change sleep sets |
| `RaceReversal.ComputeSleepSetAt` | src/PSOTraceBuilder.cpp:981-991 | the loop computes the sleep set at an event |
| `RaceReversal.IsAfterCandidate` | src/PSOTraceBuilder.cpp:1048-1054 | the loop over the candidates |
| `RaceReversal.IsCandidate` | src/PSOTraceBuilder.cpp:1040-1055 | an event passes the tests exactly when it is an initial of the events after `i` that do not depend on `i` |
| `RaceReversal.InitialBelow` | src/PSOTraceBuilder.cpp:1033-1069 | every such event has an initial before or at it |
| `RaceReversal.InitialIff` | src/PSOTraceBuilder.cpp:1048-1054 | an event is initial exactly when it is after no other initial, so looking at candidates only is enough |
| `RaceReversal.FindBranch` | src/PSOTraceBuilder.cpp:1021-1073 | no branch is wanted exactly when some initial is already a branch or asleep; otherwise the last initial is found, and the assertion that there is one holds |
| `RaceReversal.Advance` | src/PSOTraceBuilder.cpp:1040-1069 | one turn of the loop |
| `RaceReversal.TraceBuilder.AddBranch` | src/PSOTraceBuilder.cpp:1021-1073 | afterwards an initial is a branch or asleep at `i`; at most one branch is added, for an initial that was neither |
| `RaceReversal.BranchIsForOther` | src/PSOTraceBuilder.cpp:1021-1073 | the new branch is for a thread that neither runs nor sleeps there |
| `RaceReversal.RaceIsBetweenThreads` | src/PSOTraceBuilder.cpp:993-1004 | races are between different threads |
| `RaceReversal.Races` | src/PSOTraceBuilder.cpp:994-1006 | the loop finds exactly the races: seen, not yet happening before, and below no other seen event |
| `RaceReversal.SeenIsBelowRace` | src/PSOTraceBuilder.cpp:994-1006 | every conflicting event is below a race, so dropping the others loses nothing |
| `RaceReversal.RacesAreMaximal` | src/PSOTraceBuilder.cpp:994-1006 | and no race is below another one or below the current event |
| `RaceReversal.StillOneEach` | src/PSOTraceBuilder.cpp:1016-1018 | reversing the races one by one adds at most one branch at each first event, for the last initial |
| `RaceReversal.JoinSeesOneMore` | src/PSOTraceBuilder.cpp:1008-1014 | joining the clocks one by one gives the least clock above all of them |
| `RaceReversal.TraceBuilder.SeeEvents` | src/PSOTraceBuilder.cpp:993-1019 | every race is reversed, by at most one new branch at its first event; other events stay; the clocks of the event and its thread become the least ones above all seen events, and no other clock changes; new branches are for threads that neither run nor sleep there |
| `RaceReversal.TraceBuilder.SeeClock` | src/PSOTraceBuilder.cpp:1008-1014 | the clocks of the event and its thread are joined with the given one; all clocks stay a transitive order, if it is known to every other thread that has seen the event |
| `RaceReversal.TraceBuilder.Start` | src/PSOTraceBuilder.cpp:138-146 | a new event has the clock of its thread, advanced by one, and nothing recorded; an event that is replayed keeps its record; all clocks stay a transitive order |
| `RaceReversal.TraceBuilder.Continue` | src/PSOTraceBuilder.cpp:46-58 | the next step of an event of several steps keeps the clocks a transitive order |
| `RaceReversal.ContinueKeepsValid` | src/PSOTraceBuilder.cpp:57 | the thread gets on, and nobody has seen that |
| `RaceReversal.TraceBuilder.Spawn` | src/PSOTraceBuilder.cpp:404-416 | a new thread starts with the clock of its parent |
| `RaceReversal.StartKeepsValid` | src/PSOTraceBuilder.cpp:138-146 | the clock of a new event is that of its thread |
| `RaceReversal.SeeKeepsValid` | src/PSOTraceBuilder.cpp:1008-1014 | seeing a closed clock keeps all clocks closed |
| `RaceReversal.SeeIsSafeIff` | src/PSOTraceBuilder.cpp:648-657 | that condition is exact: the clocks stay a transitive order if and only if whoever has seen the current event knows the added clock |
| `RaceReversal.MergedEventExample` | src/PSOTraceBuilder.cpp:96-106 | a merged event that spawns a thread and then joins another one: when it is replayed, an access of the spawned thread passes for a race with it, and the spawned thread is to be tried in its place |
| `RaceReversal.AddedFits` | src/PSOTraceBuilder.cpp:1021-1073 | a branch that `add_branch` adds is for a thread that neither runs nor sleeps there, in the whole trace |
| `PSOTraces.NextEventFits` | src/PSOTraceBuilder.cpp:77-89 | with the sleep-set invariant, the next event of the prefix has the number that the clock of its thread asks for |
| `PSOTraces.SameProgress` | src/PSOTraceBuilder.cpp:45-58 | clocks and scheduler agree on whether the current event has more steps |
| `PSOTraces.AddBranchMayInsert` | src/PSOTraceBuilder.cpp:1021-1073 | what `add_branch` does to the trace is nothing, or one insertion that the scheduler allows |
| `PSOTraces.RecordsKeepInv` | src/PSOTraceBuilder.cpp:993-1019 | new branches and clocks leave incremental and recomputed sleep sets in agreement |
| `PSOTraces.SeeEventsKeepsInv` | src/PSOTraceBuilder.cpp:993-1019 | so `see_events` keeps the sleep-set invariant, if the events seen may conflict |
| `PSOTraceRuns.TraceOfRunIsValid` | src/PSOTraceBuilder.cpp:1139-1165 | after every run of the trace builder the trace satisfies what the replay in `has_cycle` takes for granted: clocks count only earlier steps, and every store is updated at most once, by an event that has seen it |
| `PSOTraceRuns.RunHasInv` | src/PSOTraceBuilder.cpp:41-147 | every run keeps clocks, threads, stores and scheduler in agreement |
| `PSOTraceRuns.StepKeepsInv` | src/PSOTraceBuilder.cpp:41-147 | so does every single step |
| `PSOTraceRuns.BeginKeepsInv` | src/PSOTraceBuilder.cpp:77-89 | starting an event, replayed or new |
| `PSOTraceRuns.ContinueKeepsInv` | src/PSOTraceBuilder.cpp:45-58 | the next step of an event |
| `PSOTraceRuns.MergeKeepsInv` | src/PSOTraceBuilder.cpp:95-106 | merging the last two events |
| `PSOTraceRuns.RefusalUndoes` | src/PSOTraceBuilder.cpp:172-184 | a new event that is refused leaves trace, sleepers and step counts as before |
| `PSOTraceRuns.BeginInVainKeepsInv` | src/PSOTraceBuilder.cpp:172-184 | and the invariant holds |
| `PSOTraceRuns.SeeKeepsInv` | src/PSOTraceBuilder.cpp:1008-1014 | the current event takes in a clock |
| `PSOTraceRuns.EventClockFits` | src/PSOTraceBuilder.cpp:1008-1014 | the clock of any executed event may be taken in |
| `PSOTraceRuns.TellKeepsInv` | src/PSOTraceBuilder.cpp:840-843 | another thread is told what the event has seen |
| `PSOTraceRuns.SpawnKeepsInv` | src/PSOTraceBuilder.cpp:404-416 | a new process, or a new auxiliary thread |
| `PSOTraceRuns.IssueKeepsInv` | src/PSOTraceBuilder.cpp:418-424 | a store is put into the buffer with the clock of its thread; no two stores of a process are the same step |
| `PSOTraceRuns.IssuedIsPending` | src/PSOTraceBuilder.cpp:418-424 | the store issued is pending, with the clock of its thread |
| `PSOTraceRuns.EachStepMayIssue` | src/PSOTraceBuilder.cpp:418-424 | each step of a real thread, also within an event that is replayed, may issue a store |
| `PSOTraceRuns.UpdateKeepsInv` | src/PSOTraceBuilder.cpp:460-467 | an auxiliary thread updates memory with a pending store and takes in its clock |
| `PSOTraceRuns.BegunMayUpdate` | src/PSOTraceBuilder.cpp:460-467 | an event of an auxiliary thread may start by updating memory with any pending store of its process |
| `PSOTraceRuns.UpdateIsRecorded` | src/PSOTraceBuilder.cpp:460-467 | the store is no longer pending, the event is recorded as its update, and has the least clock above both |
| `PSOTraceRuns.QuietKeepsInv` | src/PSOTraceBuilder.cpp:1128-1136 | dry runs, wake-ups, marks, branches and the end of the replay leave clocks and steps alone |
| `PSOTraceRuns.SameSteps` | src/PSOTraceBuilder.cpp:1154-1162 | the steps of a process are those of its thread |
| `SleepSets.Scheduler.Schedule` | src/PSOTraceBuilder.cpp:41-147 | replay, dry run or new event as recorded, the last two events first merged, keeping the branches; the new event is that of the first thread awake; when an event starts, the set kept step by step is the one that `sleep_set_at` computes |
| `SleepSets.Scheduler.ScheduleReplay` | src/PSOTraceBuilder.cpp:45-91 | the four cases of a replay |
| `SleepSets.Scheduler.Replay` | src/PSOTraceBuilder.cpp:77-89 | going to the next event of the prefix |
| `SleepSets.Scheduler.FallAsleep` | src/PSOTraceBuilder.cpp:62-76 | the next thread to be put to sleep is dry run, in ascending order of thread |
| `SleepSets.Scheduler.MergeLast` | src/PSOTraceBuilder.cpp:96-106 | exactly under the test of the source the prefix loses its last event, and the one before, otherwise unchanged, gets one step more; then nothing mergeable is left |
| `SleepSets.Scheduler.Extend` | src/PSOTraceBuilder.cpp:108-147 | the first thread in order of priority that is awake gets a new event of one step with nothing recorded, or all are asleep |
| `SleepSets.Scheduler.RefuseSchedule` | src/PSOTraceBuilder.cpp:172-184 | the event is taken back, and with it one step of its thread |
| `SleepSets.Scheduler.NoteAccess` | src/PSOTraceBuilder.cpp:444-453 | a dry run only records the access of the thread that is dry run |
| `SleepSets.Scheduler.Wakeup` | src/PSOTraceBuilder.cpp:1079-1137 | exactly the sleepers whose next access conflicts are woken, recorded at the event and forgotten |
| `SleepSets.Scheduler.InsertBranch` | src/PSOTraceBuilder.cpp:1071-1072 | a branch for another awake thread keeps the invariant |
| `SleepSets.Scheduler.Reset` | src/PSOTraceBuilder.cpp:263-332 | goes back to the last event with a branch, takes the least one and keeps the others, and puts the thread tried before to sleep; ends exactly when no branch is left |
| `SleepSets.SetUp` | src/PSOTraceBuilder.cpp:282-309 | the new event has the branch, the branches left, and a sleep set that stays sorted with the thread tried before in it |
| `VecSets.FindGeq` | src/vecset.tcc:57-73 | the binary search finds where the value belongs |
| `VecSets.Insert` | src/vecset.tcc:94-113 | a value is inserted at its place in the sorted vector, unless it is there, which the answer says |
| `VecSets.Shift` | src/vecset.tcc:101-109 | the loop makes room at the place by moving up what follows |
| `VecSets.InsertedAt` | src/vecset.tcc:94-113 | the place found is the only one at which the vector stays sorted |
| `SleepSets.NextIndex` | src/PSOTraceBuilder.cpp:286-292 | searching backwards gives the number of the next step of the thread |
| `SleepSets.WakesOnConflict` | src/PSOTraceBuilder.cpp:1082-1126 | the tests of `wakeup` mean: the two accesses touch a common byte of memory, one writes it, and they are of different processes |
| `SleepReplay.Perform` | src/PSOTraceBuilder.cpp:1079-1137 | the accesses of an event wake exactly those sleepers that some of them wakes |
| `SleepReplay.PerformFirst` | src/PSOTraceBuilder.cpp:1128-1136 | an event that is executed for the first time records what it wakes |
| `SleepReplay.PerformAgain` | src/PSOTraceBuilder.cpp:77-89 | replayed with the same accesses and after equal dry runs, it wakes the same threads, and the prefix is as before |
| `SleepReplay.SameNotesSameWakes` | src/PSOTraceBuilder.cpp:444-453 | what is woken depends on what the dry runs have noted only |
| `SleepSets.ReplayKeepsInv` | src/PSOTraceBuilder.cpp:77-89 | incremental and recomputed sleep sets agree: next event |
| `SleepSets.DryRunKeepsInv` | src/PSOTraceBuilder.cpp:62-76 | dry run |
| `SleepSets.MergeKeepsInv` | src/PSOTraceBuilder.cpp:96-106 | merging events |
| `SleepSets.NewKeepsInv` | src/PSOTraceBuilder.cpp:138-146 | new event |
| `SleepSets.RefuseKeepsInv` | src/PSOTraceBuilder.cpp:172-184 | refused event |
| `SleepSets.WakeKeepsInv` | src/PSOTraceBuilder.cpp:1128-1136 | wake-ups |
| `SleepSets.BranchKeepsInv` | src/PSOTraceBuilder.cpp:1071-1072 | branches |
| `SleepSets.ResetKeepsInv` | src/PSOTraceBuilder.cpp:282-330 | after `reset` the threads tried before are asleep where the branch is taken, and the new one is not |
| `SleepSets.MergeKeepsMerged` | src/PSOTraceBuilder.cpp:96-106 | only a last event of one step can still be merged |
| `ScReplay.HasCycle` | src/PSOTraceBuilder.cpp:1139-1284 | the assertion at line 1246 holds throughout exactly when no replay comes to a store with an update that has seen a later step of its own process; then, or if there is no such update at all, the answer is yes exactly when no sequentially consistent order exists; with assertions compiled away the answer is wrong exactly when it is no and there is such an update; the update reported is the latest among the stores at which every replay gets stuck |
| `ScReplay.Replay` | src/PSOTraceBuilder.cpp:1186-1262 | terminates with every process finished or unable to take its next step |
| `ScReplay.Turn` | src/PSOTraceBuilder.cpp:1186-1262 | each turn shortens what is left or settles one process |
| `ScReplay.Visit` | src/PSOTraceBuilder.cpp:1189-1261 | one turn of the scheduled process |
| `ScReplay.Advance` | src/PSOTraceBuilder.cpp:1189-1202 | the next event of the process is found, or it has finished |
| `ScReplay.Consider` | src/PSOTraceBuilder.cpp:1204-1221 | the block clock of a step, and of the update if it is a store; the assertions about the position hold |
| `ScReplay.MustWait` | src/PSOTraceBuilder.cpp:1223-1234 | the loop over the other processes |
| `ScReplay.TakeStep` | src/PSOTraceBuilder.cpp:1243-1261 | the counter grows and stops before the next store; the steps taken may be taken; the assertion at line 1246 holds exactly if the store taken has no update ahead of it, that at line 1254 always |
| `ScReplay.BlockClockIsDemand` | src/PSOTraceBuilder.cpp:1207-1234 | the test decides what the replay asks for: no other process is behind what the event, or the update, has seen of it |
| `ScReplay.OwnEntryIsExact` | src/PSOTraceBuilder.cpp:1246 | the own entry of the block clock is the number of the step exactly if the step is not a store with an update ahead of it |
| `ScReplay.StepsAreRun` | src/PSOTraceBuilder.cpp:1248-1260 | the steps skipped over may be taken |
| `ScReplay.CollectStores` | src/PSOTraceBuilder.cpp:1156-1167 | all stores with their updates, by process, in program order |
| `ScReplay.SortStores` | src/PSOTraceBuilder.cpp:1165-1167 | sorting by store index |
| `ScReplay.Trace.StuckMeansNone` | src/PSOTraceBuilder.cpp:1264-1283 | a stuck replay proves that no order of all steps can be replayed |
| `ScReplay.Trace.NoOrderOvertakes` | src/PSOTraceBuilder.cpp:1264-1283 | because no order gets further than it anywhere |
| `ScReplay.SomeStoreIsStuck` | src/PSOTraceBuilder.cpp:1281 | some blocked process is blocked at a store, so the last assertion holds |
| `ScReplay.AllSettled` | src/PSOTraceBuilder.cpp:1186-1283 | blocked processes are left exactly when no order of all steps can be replayed |
| `ScReplay.LatestStuck` | src/PSOTraceBuilder.cpp:1264-1283 | some process is blocked exactly if an update is reported, which is the latest; the assertion at line 1281 holds |
| `ScReplay.Trace.AllowedIff` | src/PSOTraceBuilder.cpp:1223-1234 | what the replay asks for is all that sequential consistency asks for, unless the step is a store with an update ahead of it |
| `ScReplay.Trace.AheadMeansNone` | src/PSOTraceBuilder.cpp:1207-1221 | an update that has seen a later step of its own process is a cycle by itself |
| `ScReplay.RightIff` | src/PSOTraceBuilder.cpp:1139-1284 | an order exists exactly if one can be replayed and no update is ahead |
| `ScReplay.ExactMeansNeverReached` | src/PSOTraceBuilder.cpp:1246 | if the assertion has held until the replay ran out, no other replay can make it fail |
| `ScReplay.ExactMeansRight` | src/PSOTraceBuilder.cpp:1246 | and the replay has not been completed if there is an update ahead |
| `ScReplay.AheadExample` | src/PSOTraceBuilder.cpp:498-504 | a store, a full memory conflict of the same process, and the update: the assertion fails, or the cycle is missed |
| `GenMaps.GenMap.constructor` | src/GenMap.h:131-132 | an empty map |
| `GenMaps.GenMap.Copy` | src/GenMap.h:180-189 | a copy has the same contents and owns no cell |
| `GenMaps.GenMap.Find` | src/GenMap.h:267-289 | the value in the map, for every hash function |
| `GenMaps.GenMap.Mut` | src/GenMap.h:311-420 | contents get the default value if the key is new and stay otherwise; the leaf returned is one's own; only own or new cells are written; for 64-bit hashes, the shift at line 391 exceeds the width exactly if the key is new, another key has its hash, and a third one agrees with it in the lowest sixty bits only |
| `GenMaps.GenMap.Put` | src/GenMap.h:311-420 | assigning through the result of `mut` is updating a finite map |
| `GenMaps.GenMap.Descend` | src/GenMap.h:316-356 | follows the hash, copying shared nodes, to the place of the key |
| `GenMaps.GenMap.StepDown` | src/GenMap.h:322-328 | one node of the descent |
| `GenMaps.GenMap.GrowDown` | src/GenMap.h:329-355 | a slot is made for the key |
| `GenMaps.GenMap.GrowNode` | src/GenMap.h:330-352 | in place or not, the node gets one more empty slot at the right position |
| `GenMaps.GenMap.Shifted` | src/GenMap.h:348-351 | shifting in reverse order is right although both arrays may be the same |
| `GenMaps.GenMap.Enlarge` | src/GenMap.h:449-458 | reallocation |
| `GenMaps.GenMap.UncowNode` | src/GenMap.h:421-431 | a node of one's own with the same children |
| `GenMaps.GenMap.UncowLeaf` | src/GenMap.h:432-435 | a leaf of one's own with the same contents |
| `GenMaps.GenMap.SearchChain` | src/GenMap.h:367-371 | the leaf of the key, or none exactly if the key is not in the map |
| `GenMaps.GenMap.SkipOwn` | src/GenMap.h:375-377 | own leaves form a prefix of the chain |
| `GenMaps.GenMap.UncowUpTo` | src/GenMap.h:378-384 | the leaves up to the wanted one are copied |
| `GenMaps.GenMap.SplitChain` | src/GenMap.h:388-413 | if the hashes differ nodes are put above the chain; whether the hash of the chain is shifted by its width or more |
| `GenMaps.GenMap.SplitApart` | src/GenMap.h:392-413 | nodes are added until the hashes differ; the loop terminates |
| `GenMaps.GenMap.SplitOnce` | src/GenMap.h:394-412 | one more node above the chain |
| `GenMaps.GenMap.InsertLeaf` | src/GenMap.h:415-418 | a new leaf; the size counts distinct keys |
| `GenMaps.GenMap.FreeChild` | src/GenMap.h:246-265 | frees exactly the cells of this map below a pointer |
| `GenMaps.GenMap.Destroy` | src/GenMap.h:191-198 | the destructor frees exactly the cells that this map has allocated |
| `GenMaps.GenMap.ForEach` | src/GenMap.h:460-484 | visits every binding exactly once |
| `GenMaps.CopyAndChange` | src/GenMap.h:133-134 | however a copy is changed, its source stays the same |
| `GenMaps.UseCopy` | src/GenMap.h:180-198 | after the copy is destroyed, all cells are as before |
| `GenMaps.PutAmong` | src/GenMap.h:133-137 | of several maps that share cells, changing one that has not been copied changes no other, and all that could be changed can be changed again |
| `GenMaps.DestroyAmong` | src/GenMap.h:191-198 | nor does destroying it |
| `GenMaps.CopyAmong` | src/GenMap.h:180-189 | a new copy may be changed, its source no longer |
| `GenMaps.OtherKept` | src/GenMap.h:133-137 | a change of one map leaves another one as it is, and does not make it share more cells |
| `GenMaps.StaysApart` | src/GenMap.h:133-137 | a map gets no pointer to a cell that another one has allocated |
| `GenMaps.ChangeInTurns` | src/GenMap.h:133-134 | two copies of one map, changed in turns: each contains its own changes only, and the source none |
| `GenTrees.GetIsHas` | src/GenMap.h:267-289 | look-up along the hash finds exactly the keys in the tree |
| `GenTrees.Put` | src/GenMap.h:311-420 | replacing a subtree at the end of the path keeps everything else |
| `GenTrees.ReplaceGood` | src/GenMap.h:311-420 | hash paths, distinct keys and non-increasing generations are kept |
| `GenTrees.ReplaceGet` | src/GenMap.h:311-420 | look-up elsewhere is unaffected |
| `GenTrees.ReplaceStored` | src/GenMap.h:311-420 | one pointer is enough to be written |
| `GenEdits.CopiedFits` | src/GenMap.h:421-435 | a copied cell may replace the shared one |
| `GenEdits.GrownFits` | src/GenMap.h:330-352 | a grown node may replace the old one |
| `GenEdits.SplitFits` | src/GenMap.h:394-412 | a node above a chain may replace it |
| `GenEdits.NewLeafFits` | src/GenMap.h:415-418 | a chain with a new leaf may replace the old one |
| `GenEdits.Edit` | src/GenMap.h:311-435 | what a change does to look-up, to the other cells, and to what one owns |
| `GenWalks.RestIsShift` | src/GenMap.h:391 | shifting by the depth and dividing once for each node agree, at any depth |
| `GenWalks.OwnComesFirst` | src/GenMap.h:375-384 | before an own leaf there are only own leaves |
| `GenWalks.BindingsAreFound` | src/GenMap.h:467-484 | what is visited is what look-up finds |
| `GenWalks.BindingsDistinct` | src/GenMap.h:467-484 | no key is visited twice |
| `GenDepths.DeepIffCrowded` | src/GenMap.h:391 | a chain without the key is met at a depth of 64 or more exactly if some key has its hash and another one agrees with it in the lowest sixty bits only |
| `GenDepths.KeysBelow` | src/GenMap.h:316-328 | the keys below a node are those that agree with the key in the digits so far |
| `GenDepths.OtherHash` | src/GenMap.h:392-413 | every node tells two hashes apart, so a path is no longer than some two hashes agree |
| `GenDepths.ShiftedOut` | src/GenMap.h:391-392 | the hashes are equal then; a shift by the amount modulo the width would take them for different ones, unless the hash is 0 or 1 |
| `GenMaps.ShiftOutExample` | src/GenMap.h:391 | a map and a third key for which it happens |
| `GenTrees.ReplaceKeepsSharp` | src/GenMap.h:311-420 | a change at the end of the path leaves every node with two hashes to tell apart, counting the key that is searched for |
| `GenTrees.SharpFilled` | src/GenMap.h:415-418 | once the key is there, every node has its two hashes |
| `Bitmaps.Position` | src/GenMap.h:275-277 | a set bit has a place inside the array |
| `Bitmaps.IndexOf` | src/GenMap.h:275-277 | every place belongs to a set bit: the inverse of `Position` |
| `Bitmaps.PositionsDescend` | src/GenMap.h:275-277 | places are distinct, and descend with the index |
| `Bitmaps.SetBit` | src/GenMap.h:332-335 | the new bitmap, and how many set bits are above each index |
| `Bitmaps.ClearBit` | src/GenVector.h:276-278 | clearing one bit |
| `Bitmaps.Ones` | src/GenVector.h:314 | the lowest bits set |
| `Heaps.OthersKept` | src/GenMap.h:133-134 | what another container uses stays as it was |
| `Heaps.NothingIsLeft` | src/GenMap.h:191-198 | with all own cells freed, all cells are as at the start |
| `GenVectors.GenVector.Copy` | src/GenVector.h:179-194 | a copy shares the root and owns nothing |
| `GenVectors.GenVector.At` | src/GenVector.h:395-399 | the element, or an error if the index is out of range |
| `GenVectors.FindPlace` | src/GenVector.h:395-399 | limb and offset of an index |
| `GenVectors.PlaceIs` | src/GenVector.h:395-399 | quotient and remainder count off whole limbs |
| `GenVectors.LimbCountIs` | src/GenVector.h:255-259 | the number of limbs in use, rounded up |
| `GenVectors.GenVector.PushBack` | src/GenVector.h:362-365 | appends; only own or new blocks are written |
| `GenVectors.GenVector.PushBackInternal` | src/GenVector.h:351-361 | room for one more element in a limb of one's own |
| `GenVectors.GenVector.MakeRoom` | src/GenVector.h:356-358 | the last limb is one's own, or there is a new one |
| `GenVectors.GenVector.Mut` | src/GenVector.h:385-394 | the place of the element in a limb of one's own |
| `GenVectors.GenVector.Set` | src/GenVector.h:385-394 | assigning through `mut` is updating a sequence |
| `GenVectors.GenVector.Uncow` | src/GenVector.h:263-279 | a limb of one's own with the same elements, and its bit cleared |
| `GenVectors.GenVector.UncowRoot` | src/GenVector.h:300-320 | a root of one's own in which all limbs are marked as shared |
| `GenVectors.GenVector.Grow` | src/GenVector.h:321-349 | one more limb; accesses stay in range |
| `GenVectors.GenVector.GrowRoot` | src/GenVector.h:325-346 | a bigger root with the same limbs and bits, of half as many places more, or two |
| `GenVectors.GenVector.Destroy` | src/GenVector.h:217-242 | frees exactly the blocks that this vector has allocated |
| `GenVectors.GenVector.ForEach` | src/GenVector.h:401-416 | visits the elements in order |
| `GenVectors.GenVector.AllOf` | src/GenVector.h:417-433 | true exactly if all elements satisfy the predicate |
| `GenVectors.CopyAndChange` | src/GenVector.h:61-62 | however a copy is changed, its source stays the same |
| `GenVectors.UseCopy` | src/GenVector.h:46-49 | after the copy is destroyed, all blocks are as before |
| `GenVectors.MakeAmong` | src/GenVector.h:46-49 | of several vectors that share blocks, changing one that has not been copied changes no other, and all that could be changed can be changed again |
| `GenVectors.DestroyAmong` | src/GenVector.h:217-242 | nor does destroying it |
| `GenVectors.CopyAmong` | src/GenVector.h:179-194 | a new copy may be changed, its source no longer |
| `GenVectors.OtherKept` | src/GenVector.h:46-49 | a change of one vector leaves another one as it is, and does not make it share more blocks |
| `GenVectors.RootIsNoForeigner` | src/GenVector.h:217-242 | a new root refers to no block that the old one did not |
| `GenVectors.ChangeInTurns` | src/GenVector.h:61-62 | two copies of one vector, changed in turns: each contains its own changes only, and the source none |
| `GenVectors.SharedBits` | src/GenVector.h:310-317 | the loops set exactly the first bits |
| `GenVectors.ExtendedBits` | src/GenVector.h:335-341 | the bits of a bigger root are the old ones |
| `GenVectors.ClearCow` | src/GenVector.h:276-278 | one bit of the bitmap is cleared |
| `GenVectors.LimbReplaced` | src/GenVector.h:263-279 | exchanging or adding a limb keeps the elements |
| `GenVectors.LimbReplacedOwns` | src/GenVector.h:217-242 | and makes exactly the new limb one's own |
| `PowerCommit.Interpreter.Fetch` | src/POWERExecution.cpp:2827-2865 | operands are available or registered as dependents |
| `PowerCommit.Interpreter.FetchAll` | src/POWERExecution.cpp:2913-2942 | fetches in order up to the first instruction that has to be waited for |
| `PowerCommit.Interpreter.Commit` | src/POWERExecution.cpp:2963-2995 | commits once, an instruction that was not committed, and tells its dependents |
| `PowerCommit.Interpreter.Tell` | src/POWERExecution.cpp:2980-2993 | the assertions about dependents never fail; an instruction is put on a list exactly when its last operand arrives |
| `PowerCommit.Interpreter.TellDependents` | src/POWERExecution.cpp:2979-2994 | all dependents are told, in any order |
| `PowerCommit.Interpreter.CommitAllLocal` | src/POWERExecution.cpp:2944-2955 | in the end every instruction has the value of evaluation in program order, as far as the committed events determine it |
| `PowerCommit.Interpreter.CommitEvent` | src/POWERExecution.cpp:3008-3031 | the event takes its value and comes first in the log, all other values are those of program order, and the answer is whether an instruction committed after it ends the fetching |
| `PowerCommit.State.ComputedIsValue` | src/POWERExecution.cpp:2963-2979 | operands that arrived in any order give the value in program order |
| `PowerCommit.State.AllDetermined` | src/POWERExecution.cpp:2944-2955 | with no local work left, what is committed does not depend on the order |
| `PowerCommit.State.TellIsDue` | src/POWERExecution.cpp:2981-2982 | a dependent is uncommitted and its operand missing |
| `PowerCommit.ValueStays` | src/POWERExecution.cpp:2913-2955 | more code and more events do not change known values |
| `PrefixHeuristic.TryGeneratePrefix` | src/PrefixHeuristic.cpp:40-98 | for the known events in the order of the execution: each store is placed in the coherence order of its address after the last one that it does not happen before, with edges to its neighbours only, and the graph is saturated; the order lists these events and their predecessors once, after their predecessors, otherwise in turn, and the stores to each address in coherence order; fails only if a saturation on the way does, of an acyclic graph |
| `PrefixHeuristic.KnownIsFiltered` | src/PrefixHeuristic.cpp:41-44 | what is left of the execution keeps its order |
| `PrefixHeuristic.GuessNext` | src/PrefixHeuristic.cpp:46-93 | one turn of the loop places one store and saturates, or does nothing for an event that is no store |
| `PrefixHeuristic.FindPlace` | src/PrefixHeuristic.cpp:62-71 | after the last store that the new one does not happen before |
| `PrefixHeuristic.InsertStore` | src/PrefixHeuristic.cpp:57-83 | the store goes after the last one that it does not happen before; it is joined with its neighbours and no other edge is added; other addresses are left alone |
| `PrefixHeuristic.GuessIsAcyclic` | src/PrefixHeuristic.cpp:73-82 | the guessed edges alone never close a cycle |
| `PrefixHeuristic.InsertKeepsChained` | src/PrefixHeuristic.cpp:73-83 | insertion keeps the chain |
| `PrefixHeuristic.TopoSort` | src/PrefixHeuristic.cpp:110-122 | exactly the given events and all that precede them, once each, after their predecessors, and before whatever only later ones need |
| `PrefixHeuristic.Visit` | src/PrefixHeuristic.cpp:100-108 | one event, right after its predecessors that were not listed yet, these in turn |
| `PrefixHeuristic.SortedAgrees` | src/PrefixHeuristic.cpp:97-122 | the order agrees with every coherence order |
| `LoopUnroll.Source.Simulates` | src/LoopUnrollPass.cpp:63-215 | within the bound, both programs visit the same blocks up to the copy, with the same memory and the same values as far as they may be used |
| `LoopUnroll.Source.DivergesAtBound` | src/LoopUnrollPass.cpp:108-118 | when the original enters the header once more than there are copies, the unrolled program enters the diverge block with the same memory |
| `LoopUnroll.Source.DivergesOnlyAtBound` | src/LoopUnrollPass.cpp:108-118 | it is in the diverge block exactly then |
| `LoopUnroll.Source.StepRelates` | src/LoopUnrollPass.cpp:98-215 | one block of each program |
| `LoopUnroll.Source.StartsRelated` | src/LoopUnrollPass.cpp:156-166 | before the loop both may be in the same state |
| `LoopUnroll.Source.PhisAgree` | src/LoopUnrollPass.cpp:130-167 | PHI nodes in a copy read the values of the right copy, all at once |
| `LoopUnroll.Source.FixedPhiAgrees` | src/LoopUnrollPass.cpp:180-215 | PHI nodes in exit blocks read the values of the copy that is left |
| `LoopUnroll.Source.BodyAgrees` | src/LoopUnrollPass.cpp:168-175 | instructions in a copy compute what the original does |
| `LoopUnroll.EscapingDiffers` | src/LoopUnrollPass.cpp:180-215 | a program that uses a value of the loop directly after it, within the bound, and computes something else once unrolled |
| `LoopUnroll.EscapingIsOtherwiseValid` | src/LoopUnrollPass.cpp:180-215 | everything else that is assumed holds for it |
| `LoopUnroll.ClosedIsValid` | src/LoopUnrollPass.cpp:180-215 | a program whose values flow within a block, between blocks, round the loop, and out of it through a PHI node, meets all that is assumed |
| `LoopUnrollPasses.LoopUnrollPass.RunOnLoop` | src/LoopUnrollPass.cpp:63-215 | the steps of the pass make exactly the unrolled program, with its diverge block and no blocks but versions of those there were |
| `LoopUnrollPasses.LoopUnrollPass.CloneBodies` | src/LoopUnrollPass.cpp:80-96 | clones with new names for what they define |
| `LoopUnrollPasses.LoopUnrollPass.RedirectBodies` | src/LoopUnrollPass.cpp:98-178 | every version of every block is redirected |
| `LoopUnrollPasses.LoopUnrollPass.FixExits` | src/LoopUnrollPass.cpp:180-215 | every exit block is fixed, once |
| `LoopUnrollPasses.RedirectTargets` | src/LoopUnrollPass.cpp:103-126 | edges to the header go to the next copy or to the diverge block, the others stay in the copy or leave |
| `LoopUnrollPasses.RedirectIncoming` | src/LoopUnrollPass.cpp:128-167 | entries are redirected or removed in place |
| `LoopUnrollPasses.RenameOperands` | src/LoopUnrollPass.cpp:168-175 | operands of the loop are those of the copy |
| `LoopUnrollPasses.MultiplyIncoming` | src/LoopUnrollPass.cpp:187-212 | entries from the loop are repeated for every copy |
| `Bitcast.Cast` | src/Execution.cpp:2543-2667 | the result has the same bits in the byte order of the machine, and elements of the other width |
| `Bitcast.RoundTrip` | src/Execution.cpp:2543-2667 | casting back is the identity, in both byte orders |
| `Bitcast.Pack` | src/Execution.cpp:2633-2643 | the shift-and-or loop computes the number with the given digits |
| `Bitcast.Unpack` | src/Execution.cpp:2653-2665 | the shift-and-truncate loop computes the digits of the number |
| `Bitcast.PackAll` | src/Execution.cpp:2623-2646 | every element of the result is packed from consecutive ones |
| `Bitcast.UnpackAll` | src/Execution.cpp:2647-2667 | every element of the source is unpacked to consecutive ones |
| `Bitcast.PackStep` | src/Execution.cpp:2634-2643 | one turn of the packing loop, for either byte order |
| `Bitcast.UnpackStep` | src/Execution.cpp:2654-2665 | one turn of the unpacking loop |
| `Bitcast.GroupedImage` | src/Execution.cpp:2622-2667 | grouping digits does not change the bits |
| `Bitcast.ImageInjective` | src/Execution.cpp:2622-2667 | a vector is determined by its bits, its length and its width |
| `Bitcast.OrOfDisjoint` | src/Execution.cpp:2642 | or of numbers without common bits is their sum |
| `Bitcast.Widths` | src/Execution.cpp:2581-2595 | the ratio of the numbers of elements is that of the widths |

## Left out

- FBVClocks.ClockSystem.Add: additions that close a cycle are excluded by a precondition; what the source does with them, which it neither checks for nor excludes, is not part of this model; clock systems are independent, so there is only one, and discarding systems is not modelled.
- PSOInterpreters.PSOInterpreter.RunAux: the trace builder's and the interpreter's buffers are one; the symbolic events and clocks carried by pending bytes are not part of it.
- PSOInterpreters.PSOInterpreter.CheckRefuse: dry runs, and joins of threads that are blocked in an assume, are not modelled.
- PSOInterpreters.OnlyJoinsBlock: does not look at the marks of auxiliary threads; `PSODrains.OnlyJoinsBlockIff` does.
- PSODrains.DrainsIff: speaks about flushes alone; `PSOHistories.AlwaysDrainsIff` has stores issued in between.
- RaceReversal.TraceBuilder.SeeEvents: memory accesses are given as the set of seen events; which events a load, a store or a full memory conflict sees, and mutexes, condition variables, fences and joins, are not modelled.
- RaceReversal.TraceBuilder.Start: this class and `SleepSets.Scheduler` model different fields of one object; no class has all of them, `PSOTraces` shows that they fit together and `PSOTraceRuns` runs them as one state.
- RaceReversal.TraceBuilder.SeeClock: requires that the clock is known to every other thread that has seen the current event, which replayed merged events need not meet (`RaceReversal.MergedEventExample`).
- PSOTraceRuns.TraceOfRunIsValid: a step issues at most one store, an event of an auxiliary thread updates memory before the next one starts, a thread that is to run exists, and a thread that is joined knows no later step of the joining event; these are conditions on the steps of a run.
- RaceReversal.FindBranch: alternatives (`alt` other than 0, `register_alternatives`) are left out; they mix branches of the same thread with sleep sets.
- SleepSets.Scheduler.Schedule: which threads may run (availability, search depth, `is_aux_at_head`) is given as a list in order of priority; `cancel_replay` and `estimate_trace_count` are left out.
- SleepSets.Scheduler.ScheduleReplay: requires that the current event has woken what it woke before; that this follows from equal accesses and equal dry runs is `SleepReplay.PerformAgain`, and that a deterministic program has equal ones is assumed.
- SleepSets.Scheduler.Reset: the program state, which is built anew by replaying, is not part of it.
- SleepSets.Scheduler.InsertBranch: the thread must neither run nor sleep there, which `PSOTraces.AddBranchMayInsert` shows.
- PSOTraces.SeeEventsKeepsInv: that the events seen may conflict is a condition, because which events an access sees is left open.
- WorkStealing.NeverStuck: exploring a node is abstracted to announcing new nodes and finishing; atomic operations are interleaved steps, so the relaxed memory orders of C++ are not modelled; what the exploration prunes is left open, but for the root, which the walk never finds pruned; that every run comes to rest needs a finite exploration and a fair scheduler, and is not claimed.
- WorkStealing.NothingIsForgotten: `halt` after an error ends the run early and is excluded by the condition on the run.
- DecisionTrees.DecisionTree.TryAllocUnf: events are numbers; the cached graphs and the locking of a node are left out.
- GenMaps.GenMap.Copy: generation numbers are unbounded, where the source has 32 bits; that the source is not changed while copies exist, which the debug reference count checks, appears as the ownership of cells.
- GenMaps.GenMap.SplitChain: shifts by the width of a hash or more are taken as division; exactly when that happens is in the contract of `GenMaps.GenMap.Mut`.
- GenMaps.GenMap.Mut: the cells live in an explicit heap, pointers are numbers, and the place `child` points to is a datatype; move, swap and assignment, which combine what is there, are left out.
- GenMaps.GenMap.ForEach: the function applied is to record the binding.
- GenVectors.GenVector.Mut: the result is the limb and the place in it; a capacity is unbounded, where the source has `size_t`.
- GenVectors.GenVector.ForEach: the function applied is to record the element; iterators, move and assignment are left out.
- PowerCommit.Interpreter.Fetch: there is one thread; operands without a value (labels, metadata, inline assembly), address and data dependencies and the calls into the trace builder are left out.
- PowerCommit.Interpreter.CommitEvent: which event is committed next, and the value of a load, come from outside; the axioms of POWER and ARM are not modelled.
- PrefixHeuristic.TryGeneratePrefix: which acyclic graphs can be saturated is left open, so a failure is only traced to such a graph on the way; the saturated graph is its set of edges; saturation and the vector clocks of a saturated graph are functions of the edges, of which `Valid` and `Saturated` say what is used; the command-line switch is left out.
- LoopUnroll.Source.Simulates: what instructions and terminators compute is left open; it requires that values of the loop are used outside only by PHI nodes in exit blocks, because the pass repairs no other use there (src/LoopUnrollPass.cpp:180-215), and an unroll depth of at least one, because with depth zero nothing is redirected.
- LoopUnrollPasses.LoopUnrollPass.RunOnLoop: the loop's blocks and exits are given by LLVM's loop information; updating that information is left out.
- Bitcast.Cast: elements are integers, and one width must divide the other; floating point elements are converted bit for bit in the source.
- `DryRunLoadValueFromMemory`, the POWER, ARM, RFSC and view-equivalence trace builders, `PriorityQueueScheduler`, and everything that concerns LLVM types, parsing, external calls, printing and the command line are not part of this model.
- That source-DPOR explores every trace is not claimed; the invariants it rests on are.
