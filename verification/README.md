# Verification of the collector core

This project models, in Dafny, the core of the Boehm-Demers-Weiser collector 7.2 that hintgc carries in
`boehm-gc-7.2/src`, and proves what that code is for.  The code works by changing things in place, and so does the
model: classes with the fields of the source, methods with its loops, each proved against a specification on values.

| module | source | subject |
|---|---|---|
| Common, Arithmetic, Ranges | | constants, sets, and ranges of addresses that several modules use |
| MarkDefs, Marker, Collector | mark.c, alloc.c, gc_pmark.h | the mark state machine with its bounded stack, overflow and recovery, incremental and mostly-concurrent marking |
| ParallelMark, ParallelProgress | mark.c | parallel marking as a transition system over any schedule of any number of threads, with its sleeping and waking, and that it ends under every fair one |
| CollectInParallel | mark.c, alloc.c | collections in which parallel marking does the work |
| WriteBarrier | mark.c, os_dep.c | mostly-concurrent marking over the dirty bits of DirtyBits |
| RangeScan | mark.c | how an area is taken apart and scanned, byte by byte |
| HashChains, Finalize, FinalizeOrder, DisappearingLinks | finalize.c | the hash tables, the passes of GC_finalize, where every registration is, and what becomes ready when |
| Cycle | alloc.c, finalize.c | a full collection followed by finalization |
| FreeLists, HeapBlocks, BlackList, Allocator | allchblk.c, blacklst.c, alloc.c | the heap block allocator, with and without USE_MUNMAP |
| Mapping, Unmap | os_dep.c, allchblk.c | giving memory of free blocks back, getting it again, and merging |
| HeaderIndex | headers.c, misc.c | the two-level header table with forwarding counts, and GC_base |
| SizeMap, ObjectLists | misc.c, new_hblk.c | size classes, and free lists in new blocks |
| Exclusions, Roots, Segments | mark_rts.c, dyn_load.c | static roots, exclusions, and the data segments of libraries |
| DirtyBits | os_dep.c | dirty bits by write protection |
| BackWalks, BackGraph | backgraph.c | the backward points-to graph and its heights |

`dafny verify dfyconfig.toml` checks all of it.

## Main results

* Marking is complete and exact.  A full collection ends for every heap, every size of the mark stack and every failure
  to grow it, and marks exactly what is reachable from the roots and from uncollectable objects, if there are no more
  root segments than three quarters of the smallest mark stack has entries.  That is 3072; the default tables of 2048
  root sets and 512 exclusions make no more than 2560 segments.  Overflow may drop any number of entries.  With fewer
  than 512 root segments, incremental collection, a little with every allocation, brings each cycle to its end,
  whatever the program writes in between, and mostly-concurrent marking ends with everything reachable marked after any
  interleaving of writes and starts of partial and full collections, also over dirty bits that are shared between
  blocks and kept for large pages by the fault handler.  When a step aborts is known exactly, for any number of them.
* Parallel marking loses no work and marks nothing unreachable, under every schedule of loads, stores, compare-and-swap
  and lock operations; when it returns no thread is marking.  No wakeup is lost, and it returns under every schedule
  that gives each thread turns again and again and does not wake threads for no reason for ever.  Collections that mark
  in parallel get done unless the threads drop entries in one mark phase after another, and are exact then.
* The heap stays divided into blocks, in use or free, with right lists and right counts, and without USE_MUNMAP with no
  two free neighbours; nothing is lost.  With USE_MUNMAP the account of unmapped bytes is right over every sequence of
  operations, and no block in use lacks memory.  Allocation finds a block if and only if a free one can serve, which
  depends on its size, its list and the black lists; on which list that is, which block of the list is taken and where
  in it are known exactly.  Merging unmapped blocks ends, and which blocks have memory then is known exactly.
* The header index stands for a plain map; GC_base finds exactly the slots.
* A full collection and GC_finalize together queue an object registered in the ordinary way if and only if it is
  unreachable and no registered object leads to it.  Every registration is in one place over all runs, also where Java
  mode has put two records of one object into the table, and disappearing links are cleared exactly when their objects
  die.

## Where the code and its words differ

The code was followed.

* mark.c:887-892 says that the count of active markers stays zero once it has returned to zero.  A helper that arrives
  late raises it again; the proof does without that claim.
* GC_push_selected is said not to overflow the mark stack if single entries are pushed.  It does when there are many
  root segments, and then the collector aborts: `Marker.Marker.MarkSome` says exactly when,
  `Marker.Marker.FewRootsFit` when there are few enough, and `Collector.PartialAborts` is a run.  Not even a full
  collection gets done with more segments than the stack has entries in the end.
* GC_MARK_FO marks the object itself when the mark stack overflows, and it is then not queued in this collection.
  `FinalizeOrder.ReadyIsExpected` says exactly when this matters, `Marker.Marker.MarkFo` and `Cycle.CollectAndFinalize`
  that it cannot happen while there are fewer dead objects than entries in the smallest stack, and `Cycle.OverflowLoses`
  is a run in which it does.
* Outside Java mode what is reachable from a queued object survives, unless an object registered without order points
  to something that nothing else keeps: `FinalizeOrder.QueuedSurvive` has the condition, `FinalizeOrder.LooseEndLost` a
  heap, and `FinalizeOrder.OrdinarySurvive` the case without such objects.
* In Java mode a record that waits can go back to the table although its object was registered again
  (`FinalizeOrder.KeysStayUnique`, `FinalizeOrder.DoubleKey`).
* The comment of GC_enough_large_bytes_left says "more than"; the code compares with "at least".
* The check in GC_exclude_static_roots_inner is called incomplete; on a sorted table it finds every overlap
  (`Exclusions.MeetsFirst`).  When the table is full, ranges that have to move are moved one place beyond its end before
  the collector aborts: `Exclusions.Table.Exclude` says exactly when, `Exclusions.Overrun` is a run.  The array of the
  model is one place longer than the table, so that the write can be seen.
* A range of roots that is registered for good over a temporary one with the same start stays temporary
  (`Roots.PermanentStays`).
* GC_remove_protection promises that no page of the blocks is protected afterwards.  `DirtyBits.ProtectionGone` says
  exactly when this holds: it fails for a single page that is protected and whose bit is set, which bits shared between
  blocks bring about (`DirtyBits.TwinStaysGuarded`).  The fault handler then does the work at the first write.
* The age test of GC_unmap_old overlooks old blocks after the low order bits of the collection number have started over
  (`Unmap.AgeTest`).
* backgraph.c:378 asks for the flag of p where that of q seems meant.  Where it is asked p has the flag, so the check
  for bogus pointers never applies, and `BackGraph.Graph.HeightOfMany` takes the height of every predecessor.
* GC_unregister_disappearing_link reads the table although it need not exist: `NullRead` in
  `DisappearingLinks.LinkTable.Unregister`, exactly for aligned links before the first registration.

## Model

| member | source | states |
|---|---|---|
| MarkDefs.MarkedIsReachClosed | boehm-gc-7.2/src/mark.c:321-442 | once the mark stack is empty in MS_NONE or MS_ROOTS_PUSHED and nothing was written since the dirty bits were read, all that the roots and the marked objects lead to is marked |
| MarkDefs.ClosedContainsReachable | boehm-gc-7.2/src/mark.c:321-442 | a set that holds the seeds and is closed under pointers holds all that is reachable from them |
| MarkDefs.InvMarkPush | boehm-gc-7.2/src/mark.c:1363-1393 | marking an object and pushing all its words keeps the marker's invariant in every mark state |
| Marker.Marker.PushEntry | boehm-gc-7.2/src/mark.c:597-606 | with room the entry is pushed; without room the upper entries are dropped, the stack is wanted larger and the state becomes MS_INVALID |
| Marker.Marker.ScanRange | boehm-gc-7.2/src/mark.c:789-877 | scanning a range in the order of the two-ended loop keeps the invariant: every word of it is resolved or the state is MS_INVALID |
| Marker.Marker.MarkFrom | boehm-gc-7.2/src/mark.c:622-880 | keeps the invariant; takes no mark away; if nothing new was marked there is less work on the stack and no overflow happened; it stops when the stack is empty or as soon as more than a block's worth of memory was seen; after an overflow, and then only, the state is MS_INVALID and a larger stack is wanted; marks only inside any closed bound |
| Marker.Marker.PushMarked | boehm-gc-7.2/src/mark.c:1716-1763 | pushing the marked objects of a block makes them pending again, so that the scan may move past the block; GC_objects_are_marked is set exactly if there are some |
| Marker.Marker.PushNext | boehm-gc-7.2/src/mark.c:1787-1852 | the three block scans skip only blocks that the current phase does not want, never move back, and report the end of the heap only when all blocks are done |
| Marker.Marker.PushAll | boehm-gc-7.2/src/mark.c:1262-1283 | one entry for a range that is not empty; the collector aborts if and only if such a range finds the stack full |
| Marker.Marker.PushSelected | boehm-gc-7.2/src/mark.c:1293-1333 | a static segment pushed page by page ends with all of its words pending or resolved; how many entries this takes, and the collector aborts if and only if the stack has no room for them |
| Marker.Marker.PushRoots | boehm-gc-7.2/src/mark_rts.c:718-785 | after all roots are pushed, everything that the roots point to is marked or pending, unless the state is MS_INVALID; the collector aborts if and only if the stack has no room for the segments |
| Marker.Marker.GrowStack | boehm-gc-7.2/src/mark.c:1195-1248 | a new stack has twice the size, or the old one is kept; either way it is no longer wanted larger |
| Marker.Marker.MarkSome | boehm-gc-7.2/src/mark.c:321-442 | one step without GC_parallel keeps the invariant of the resulting mark state; when it reports completion the invariant of MS_NONE holds with an empty stack; every other step makes the lexicographic measure of unmarked objects, phase, blocks left and stack content smaller, however many entries are dropped; the collector aborts if and only if the step is to push the roots, no block is left to be scanned, and the root segments need more entries than the stack has; a larger stack is wanted exactly after an overflow and when the scan for rescuers finds the stack nearly full, and at the end of the phase, or when a scan for marked objects begins, the stack is doubled if one is wanted and can be had |
| Marker.Marker.FewRootsFit | boehm-gc-7.2/src/mark_rts.c:737-742 | no step aborts with as many root segments as three quarters of the smallest stack has entries, unless it pushes them page by page; and none at all with an eighth |
| Marker.AnEntryEach | boehm-gc-7.2/src/mark.c:1262-1283 | every root segment that is not empty needs an entry, so that with more of them than the stack has entries the roots can never be pushed |
| Marker.RescuersInv | boehm-gc-7.2/src/mark.c:253-272 | reading the dirty bits turns the exemption of dirty blocks into that of grungy blocks that the scan for rescuers has still to visit |
| Marker.Marker.InitiateGc | boehm-gc-7.2/src/mark.c:253-272 | the dirty blocks become the grungy ones and the state becomes MS_PUSH_RESCUERS, or stays MS_INVALID; the invariant of that state holds |
| Marker.Marker.ClearMarks | boehm-gc-7.2/src/mark.c:239-249 | exactly the marks of uncollectable objects stay, and the state is MS_INVALID |
| Marker.Marker.InvalidateMarkState | boehm-gc-7.2/src/mark.c:591-595 | empty stack and MS_INVALID |
| Marker.WriteInv | boehm-gc-7.2/src/os_dep.c:3190-3206 | a mutator write keeps the invariant of every mark state if the block written is recorded as dirty |
| Marker.Marker.Write | boehm-gc-7.2/src/os_dep.c:3104-3214 | a write changes one word, records the block as dirty when dirty bits are kept, and leaves the marker ready to go on |
| Marker.Marker.DoneIsComplete | boehm-gc-7.2/src/mark.c:321-442 | completion without writes since the dirty bits were read means that everything reachable is marked |
| Marker.Marker.QuietIffClosed | boehm-gc-7.2/src/finalize.c:563-565 | between mark phases the marker is settled if and only if the marks hold what the roots point to and are closed under pointers |
| Marker.Marker.RunMarkProc | boehm-gc-7.2/src/finalize.c:248-295 | the four mark procedures of finalization keep the marker's invariant and mark only what a trace from the object may mark |
| Marker.Marker.Drain | boehm-gc-7.2/src/include/private/gc_pmark.h:432-432 | marking until the stack is empty ends, and keeps the invariant |
| Marker.Marker.MarkFo | boehm-gc-7.2/src/include/private/gc_pmark.h:429-437 | afterwards the marks are the old ones, all that is reachable from what the mark procedure pushes, and the object itself exactly when the mark stack overflowed; with room for all objects and words it does not overflow |
| Collector.Collector.StoppedMark | boehm-gc-7.2/src/alloc.c:579-646 | the stop function is asked before each unit of work, and the phase ends when it says so for the first time or is complete, with the exact number of units done and owed; if it is not stopped, everything reachable is marked and the marker is settled in MS_NONE; if it is, the phase can be taken up again; it aborts in neither case if there are few root segments, and completes with no more of them than the stack has entries; no mark is lost, and marks stay inside any closed bound |
| Collector.Collector.FullCollection | boehm-gc-7.2/src/alloc.c:451-468 | unless the stop function says otherwise it gets done, for every heap, stack size and failure to grow the stack, if there are few root segments; then the marked objects are exactly those reachable from the roots and from uncollectable objects that were marked before, and the marker is settled for finalization |
| Collector.Collector.Continue | boehm-gc-7.2/src/alloc.c:506-537 | a call in a collection in progress does n times GC_RATE units of marking less the deficit, and takes them off the deficit, unless the cycle comes to its end before or the first attempt to finish it is stopped by the timeout; in each case attempts, marking work or deficit get less; the cycle ends with everything reachable marked |
| Collector.Collector.TryToCollect | boehm-gc-7.2/src/alloc.c:410-468 | a collection in progress is finished first, in turns of one call each, and what is marked then is closed under reachability; then a full collection leaves exactly what is reachable from the roots and the uncollectable objects marked then; it is stopped only by the stop function, at the first time it says so if no collection was in progress; with few root segments it does not abort |
| Collector.Collector.CollectALittle | boehm-gc-7.2/src/alloc.c:500-542 | in a collection in progress: the exact number of units done, less of the measure after each call, and everything reachable marked when the cycle ends; otherwise, if a collection is due, what MaybeGc leaves, and if not, nothing changes; with few root segments it does not abort |
| Collector.Collector.CollectInTurns | boehm-gc-7.2/src/alloc.c:500-542 | called again and again for at least one unit, with any writes of the program before each call, it brings the collection in progress to its end, with everything reachable marked then |
| Collector.Collector.MaybeGc | boehm-gc-7.2/src/alloc.c:348-402 | a full collection that gets done leaves exactly what is reachable from the roots and the uncollectable objects that were marked, a partial one exactly what is reachable from the roots and all that was marked; one that the timeout has stopped leaves no more than that marked, and counts as an attempt unless it is full; without incremental collection it is always a full one; with few root segments it does not abort |
| Collector.Collector.MostlyConcurrent | boehm-gc-7.2/src/alloc.c:500-542 | after any interleaving of mutator writes and marking steps, all of them done, the final phase with the world stopped ends with everything reachable marked; with very few root segments it does not abort |
| Collector.PartialAborts | boehm-gc-7.2/src/mark.c:1293-1333 | for every number of root segments of two pages between half and three quarters of the entries of the initial stack: a full collection gets done and the incremental one after it aborts |
| WriteBarrier.Barrier.Write | boehm-gc-7.2/src/os_dep.c:3104-3214 | a write through the fault handler keeps the marker's invariant and the link between the blocks it takes for dirty and the pages written |
| WriteBarrier.Barrier.BlockWasDirty | boehm-gc-7.2/src/mark.c:1767-1782 | some page of the block is reported |
| WriteBarrier.Barrier.Begin | boehm-gc-7.2/src/mark.c:253-272 | the blocks that the dirty bits report, with shared bits and large pages, include all blocks with pointers that were written; a partial collection starts with the invariant of the scan for rescuers, a full one in MS_INVALID with the marks of uncollectable objects only |
| WriteBarrier.Barrier.MostlyConcurrent | boehm-gc-7.2/src/alloc.c:500-542 | with the dirty bits of the write protection: after any interleaving of writes, marking steps and starts of partial and full collections, one more phase without writes ends with everything reachable marked; with very few root segments it gets there; all the steps are done, and memory is what the writes make it |
| ParallelMark.MoveKeeps | boehm-gc-7.2/src/mark.c:907-1124 | no move of any thread loses a pending range: what was pending still is, or has been followed, and newly marked objects are pending |
| ParallelMark.ZeroKeeps | boehm-gc-7.2/src/mark.c:907-936 | stealing by a load and a later zeroing store, possibly by two threads, keeps every range in some thread's hands |
| ParallelMark.LocalKeeps | boehm-gc-7.2/src/mark.c:974-1014 | taking the top of the local stack, or its first words, loses nothing |
| ParallelMark.ScanKeeps | boehm-gc-7.2/src/mark.c:789-877 | looking at a word and deciding by its mark bit loses nothing, even if another thread marks the object meanwhile |
| ParallelMark.MarkKeeps | boehm-gc-7.2/src/mark.c:1363-1393 | setting the mark bit and pushing the object loses nothing, even if two threads do it |
| ParallelMark.ReturnKeeps | boehm-gc-7.2/src/mark.c:940-968 | returning entries under the lock makes them live at or above the first nonempty place, or sets MS_INVALID |
| ParallelMark.StealGood | boehm-gc-7.2/src/mark.c:907-936 | a steal keeps the first nonempty index below all live entries that no thread holds |
| ParallelMark.RunKeeps | boehm-gc-7.2/src/mark.c:907-1189 | the invariant of counters, lock, sleeping threads, stacks and pending work holds after every schedule of any number of threads |
| ParallelMark.HelpersBounded | boehm-gc-7.2/src/mark.c:1167-1194 | under every schedule GC_helper_count is the number of threads that take part in marking, and never more than GC_markers, or only the initiator |
| ParallelMark.NoWorkLost | boehm-gc-7.2/src/mark.c:907-1189 | under every schedule a word still to be followed is in a live entry at or above GC_first_nonempty, or with a thread counted as active, or MS_INVALID is set |
| ParallelMark.ParallelMarkDone | boehm-gc-7.2/src/mark.c:1130-1162 | when GC_do_parallel_mark returns, no thread marks, no entry is live, no local stack holds work, and every word of a marked object has been followed unless MS_INVALID is set |
| ParallelMark.ParallelMarkClosed | boehm-gc-7.2/src/mark.c:1130-1162 | with the world stopped the marks are then closed under reachability |
| ParallelMark.OnlyReachableMarked | boehm-gc-7.2/src/mark.c:907-1189 | under no schedule anything outside a closed set that holds the roots' targets and the pending work gets marked |
| ParallelProgress.MoveDescends | boehm-gc-7.2/src/mark.c:907-1162 | every turn of a thread, whatever it chooses, either changes nothing or makes a lexicographic measure smaller: room on the global stack, efforts, unmarked objects, stale marks, entries not passed, words held, wakeups owed, the first nonempty index, the order of the steps of the loop; a thread that can move does |
| ParallelProgress.SomeMoves | boehm-gc-7.2/src/mark.c:1018-1162 | no wakeup is lost: as long as GC_do_parallel_mark has not returned, some thread can move that neither sleeps nor waits for the lock |
| ParallelProgress.FairScheduleEnds | boehm-gc-7.2/src/mark.c:1130-1162 | GC_do_parallel_mark returns under every endless schedule that gives each thread turns again and again, if from some time on no thread wakes up that was not notified |
| ParallelProgress.DoParallelMark | boehm-gc-7.2/src/mark.c:1130-1162 | the threads take the turns of such a schedule until GC_do_parallel_mark returns, which is its first return, and it does; the state is what these turns come to |
| CollectInParallel.ParallelCollector.MarkInParallel | boehm-gc-7.2/src/mark.c:385-398 | the GC_parallel branch of MS_ROOTS_PUSHED ends under every fair schedule; the invariant of MS_NONE holds and the phase is complete if and only if the threads drop no entries under that schedule, otherwise the state is MS_INVALID and the drop is counted; the stack is doubled if entries were dropped or a larger one was wanted, and one can be had; nothing outside a closed bound is marked |
| CollectInParallel.ParallelCollector.MarkSome | boehm-gc-7.2/src/mark.c:321-442 | every step with GC_parallel keeps the invariant of the resulting mark state; all but the parallel phase make the marker's measure smaller, and that one completes the mark phase if and only if no entries are dropped; the stack is wanted larger, or is larger, as without GC_parallel and when the scan for uncollectable objects has filled a quarter of it; the collector aborts exactly when it would without GC_parallel |
| CollectInParallel.ParallelCollector.StoppedMark | boehm-gc-7.2/src/alloc.c:579-646 | marking with the world stopped ends under any fair schedules: either it is complete, or in n mark phases entries were dropped, for any n |
| CollectInParallel.ParallelCollector.FullCollection | boehm-gc-7.2/src/alloc.c:451-468 | with parallel marking under any fair schedules a full collection gets done unless entries are dropped in n mark phases, for any n, with few root segments it does not abort, and when it is done exactly what is reachable is marked |
| RangeScan.ScanRange | boehm-gc-7.2/src/mark.c:789-877 | byte by byte, for every ALIGNMENT: the words handed on are exactly those at aligned positions of the range that look like pointers, each once, in whatever order |
| RangeScan.SplitOnce | boehm-gc-7.2/src/mark.c:692-706 | cutting off 127 words, with the bytes of words that reach over the end, puts every position into exactly one of the two parts |
| RangeScan.SplitShared | boehm-gc-7.2/src/mark.c:670-691 | halving for other markers puts every position into at least one half, and the one at the cut into both |
| RangeScan.Round | boehm-gc-7.2/src/mark.c:640-788 | what one round hands on and what it leaves on the stack together are the positions of the entry, and the work left is smaller; short entries are scanned as wholes, of long ones 127 words, and only those above SHARE_BYTES are halved, if at all |
| RangeScan.ScanAll | boehm-gc-7.2/src/mark.c:640-877 | however a range is taken apart and in whatever order the pieces are scanned, each position is handed on once, and once more for every time the range was halved there |
| HashChains.Table.Find | boehm-gc-7.2/src/finalize.c:328-370 | the search finds the first record with the key and its predecessor, or there is none in the whole table |
| HashChains.Table.Unlink | boehm-gc-7.2/src/finalize.c:339-345 | exactly the one record leaves the table, and the count follows |
| HashChains.Table.Insert | boehm-gc-7.2/src/finalize.c:419-421 | the record becomes the first of the chain of its key |
| HashChains.Table.Grow | boehm-gc-7.2/src/finalize.c:99-134 | the records in the table are the same after it was doubled in place, each in the chain of its new hash value; it aborts exactly if there is no memory and no table |
| Finalize.NormalTraceLeads | boehm-gc-7.2/src/finalize.c:248-254 | the ordinary mark procedure marks exactly what one or more pointers lead to |
| Finalize.ExpectedIffNotLed | boehm-gc-7.2/src/finalize.c:563-578 | with ordinary registration an object is meant to be queued if and only if it is unmarked and no registered object, itself included, leads to it |
| Finalize.CycleNotExpected | boehm-gc-7.2/src/finalize.c:573-575 | an object on a cycle is never meant to be queued |
| Finalize.QueuedIsExpected | boehm-gc-7.2/src/finalize.c:563-616 | what is queued differs from what is meant to be queued by the objects that mark stack overflows marked, and agrees with it if and only if none of those was meant to be queued |
| Finalize.QueuedSafe | boehm-gc-7.2/src/finalize.c:563-616 | what a queued object points to is marked if its pointers were traced |
| Finalize.MarkPass | boehm-gc-7.2/src/finalize.c:563-578 | the first pass leaves the marks at the old ones, the traces of all unmarked registered objects, and those that overflows marked |
| Finalize.Finalizers.EnqueuePass | boehm-gc-7.2/src/finalize.c:579-616 | the second pass moves records of unmarked objects to the queue: all of them in Java mode, otherwise one for each such object, which it marks |
| Finalize.PickedAll | boehm-gc-7.2/src/finalize.c:579-616 | where no object has two records, and in Java mode in any case, these are all the records of unmarked objects |
| Finalize.PostPass | boehm-gc-7.2/src/finalize.c:618-633 | the third pass marks what queued objects registered without order lead to, and the objects of all but those registered to be finalized when unreachable |
| Finalize.Finalizers.RevivePass | boehm-gc-7.2/src/finalize.c:636-666 | records of objects reachable from others that wait go back to the table, and of the records of one object all but the first; exactly those |
| Finalize.Finalizers.JavaPasses | boehm-gc-7.2/src/finalize.c:618-667 | the two passes of Java mode together |
| Finalize.Finalizers.Register | boehm-gc-7.2/src/finalize.c:302-423 | a finalizer is attached, replaced or removed, the old one is reported, keys stay unique if they were, and no other record changes; nothing changes if a record is needed and there is no memory for it; need_unreachable_finalization is set exactly if the record is of that kind or it was set |
| Finalize.Finalizers.Change | boehm-gc-7.2/src/finalize.c:326-422 | the search and what follows, also for the second attempt after others had the lock: the first record of the object is replaced or removed, or a new one is made |
| Finalize.Finalizers.GcFinalize | boehm-gc-7.2/src/finalize.c:525-667 | all passes together, also for tables with several records of one object: which records are in the table, which on the queue and in what order, and what is marked; every record is in exactly one place; it completes with few root segments |
| Finalize.RunOnce | boehm-gc-7.2/src/finalize.c:790-832 | over every run of operations no record is lost, and one that was handed out is never in the table or on the queue again |
| Finalize.Finalizers.RunNext | boehm-gc-7.2/src/finalize.c:805-817 | the first record leaves the queue and its object, function and data are handed out; the record keeps the object and the function, not the data |
| Finalize.Finalizers.InvokeFinalizers | boehm-gc-7.2/src/finalize.c:790-832 | the whole queue is run in its order and counted |
| Finalize.Finalizers.EnqueueAll | boehm-gc-7.2/src/finalize.c:705-744 | the whole table goes to the front of the queue and the count is 0 |
| FinalizeOrder.FinalizationOrder | boehm-gc-7.2/src/finalize.c:563-616 | ordinary registration and no overflow: an object becomes ready if and only if the collection left it unmarked and no registered object leads to it; with one record for each object, or in Java mode, this holds of every record |
| FinalizeOrder.ReadyIsExpected | boehm-gc-7.2/src/finalize.c:563-616 | in general: the object of what becomes ready is meant to be ready, and all that is meant to be becomes ready if and only if no overflow marked such an object; of records likewise with one for each object, or in Java mode |
| FinalizeOrder.QueuedSurvive | boehm-gc-7.2/src/finalize.c:563-616 | outside Java mode the marks are closed under pointers in the end, so that all that queued objects lead to survives, if and only if, before the call, every target of an expected object registered without order was marked, traced by the first pass, itself expected, or marked by an overflow |
| FinalizeOrder.OrdinarySurvive | boehm-gc-7.2/src/finalize.c:563-616 | outside Java mode with no object registered without order the marks are closed under pointers, and everything that a queued object leads to is marked |
| FinalizeOrder.LooseEndLost | boehm-gc-7.2/src/finalize.c:274-282 | a heap in which an object registered without order is queued and what it points to is not marked |
| FinalizeOrder.UnreachableYields | boehm-gc-7.2/src/finalize.c:636-666 | in Java mode a finalizer registered to run when unreachable stays queued if and only if no queued object registered without order leads to its object |
| FinalizeOrder.KeysStayUnique | boehm-gc-7.2/src/finalize.c:636-666 | keys stay unique outside Java mode, and in Java mode if and only if they are unique among the table and the waiting records that may go back |
| FinalizeOrder.DoubleKey | boehm-gc-7.2/src/finalize.c:636-666 | a waiting record whose object was registered again meanwhile goes back to the table, which then has two records of the object |
| Cycle.CollectAndFinalize | boehm-gc-7.2/src/alloc.c:451-468 | a full collection and then finalization: with ordinary registration and fewer dead objects than the smallest mark stack has entries, an object has a record on the queue if and only if it is not reachable from the roots or uncollectable objects and no registered object leads to it, and with unique keys or in Java mode every record; what was live stays marked, and outside Java mode what queued objects lead to survives; with few root segments it completes |
| Cycle.OverflowLoses | boehm-gc-7.2/src/include/private/gc_pmark.h:429-437 | for every number of objects above the size of the initial stack, a run of registration, collection and finalization that completes, and in which an object that should be queued is marked by the overflow and is not queued |
| DisappearingLinks.LinkTable.Register | boehm-gc-7.2/src/finalize.c:146-210 | the link is registered for the object, and is reported as a duplicate exactly if it was registered before; no other link changes; nothing changes if a record is needed and there is no memory for it |
| DisappearingLinks.LinkTable.Put | boehm-gc-7.2/src/finalize.c:169-209 | the search and what follows, also for the second attempt after others had the lock: the link is a duplicate exactly if it is there now, and the only one that changes |
| DisappearingLinks.LinkTable.Unregister | boehm-gc-7.2/src/finalize.c:212-245 | true exactly for a registered link, which is then the only one gone; a table that does not exist is read exactly if the link is aligned and none was ever registered |
| DisappearingLinks.LinkTable.Disappear | boehm-gc-7.2/src/finalize.c:539-562 | links to unmarked objects are cleared and forgotten, and no other word of memory and no other link changes |
| DisappearingLinks.LinkTable.Dangle | boehm-gc-7.2/src/finalize.c:669-690 | exactly the links inside unmarked objects are forgotten, and memory is not touched |
| HeapBlocks.BinMonotone | boehm-gc-7.2/src/allchblk.c:98-105 | larger blocks are on later lists |
| HeapBlocks.BinSizes | boehm-gc-7.2/src/allchblk.c:37-48 | which sizes are on which list: one size to a list below 32 blocks, eight sizes to a list up to 255, the last one for the rest |
| HeapBlocks.UsedPlusFree | boehm-gc-7.2/src/checksums.c:160-175 | pages in use and free pages together are the pages of the heap |
| FreeLists.FreeLists.AddFront | boehm-gc-7.2/src/allchblk.c:382-391 | hb_next and hb_prev are right again with the block in front |
| FreeLists.FreeLists.Remove | boehm-gc-7.2/src/allchblk.c:306-328 | the block leaves its list, whether first, last or in between, and no other list changes |
| FreeLists.FreeLists.Replace | boehm-gc-7.2/src/allchblk.c:547-562 | the new block takes the place of the old one in the list |
| Allocator.Heap.Conserved | boehm-gc-7.2/src/checksums.c:160-175 | bytes in use and GC_large_free_bytes together are GC_heapsize |
| Allocator.Heap.RemoveFromFl | boehm-gc-7.2/src/allchblk.c:293-329 | the block is off its list and GC_free_bytes is right for every list |
| Allocator.Heap.AddToFl | boehm-gc-7.2/src/allchblk.c:365-392 | the block is on the list for its size and GC_free_bytes is right for every list |
| Allocator.Heap.FreeBlockEndingAt | boehm-gc-7.2/src/allchblk.c:334-360 | the free block that ends there, or there is none; over the plain map |
| Allocator.Heap.FreeHblk | boehm-gc-7.2/src/allchblk.c:835-896 | with and without USE_MUNMAP: the pages of the block join the free pages; it is merged with its successor and then with its predecessor, each exactly if that is free, has memory, and the sizes together do not overflow, so that without USE_MUNMAP no two free blocks are neighbours and GC_unmapped_bytes stays right; the block is touched in this collection; lists and counts are right; it aborts exactly if the block is free already |
| Allocator.Heap.RemapBlock | boehm-gc-7.2/src/allchblk.c:783-789 | a block to be used has all its memory again, and the account is right |
| Allocator.Heap.InUseHasMemory | boehm-gc-7.2/src/allchblk.c:819-825 | no page with a byte of a block in use is without memory |
| Allocator.Heap.AddToHeap | boehm-gc-7.2/src/alloc.c:1041-1088 | the new pages that can be addressed join the heap as free ones; it aborts exactly if the table of sections is full |
| Allocator.Heap.SplitBlock | boehm-gc-7.2/src/allchblk.c:542-571 | dividing a free block changes no free page; the second part is on the list of the whole, which may be the wrong one for its size; both parts are touched in this collection |
| Allocator.Heap.GetFirstPart | boehm-gc-7.2/src/allchblk.c:501-526 | exactly the first pages needed leave the free pages, and the rest, touched in this collection, is on the list for its size |
| Allocator.Heap.DropBlock | boehm-gc-7.2/src/allchblk.c:739-779 | each page of a dropped block is a pointer-free block in use of its own, and no other block changes |
| Allocator.Heap.Place | boehm-gc-7.2/src/allchblk.c:690-779 | a place is found if and only if the block can serve: checks do not apply, or it is so large that they are given up, or some start is not black listed; the place is the first that is not black listed; otherwise, if one page is needed and memory leaks are not looked for, every fourth mapped block black listed throughout is dropped, and no other |
| Allocator.Heap.Better | boehm-gc-7.2/src/allchblk.c:672-688 | a block is passed over exactly if the next one is smaller, large enough and not black listed, and then the next one can serve |
| Allocator.Heap.AllocNth | boehm-gc-7.2/src/allchblk.c:652-830 | the block returned is the wanted size, was part of a free block of list n that could serve, and is in use with the right header; it is the first block of the list, as it was, that can serve and is not passed over for the next one, and none is returned exactly if there is none; the start in it is the first that is not black listed; if none is returned, no block of the list could serve; no block that could serve is dropped |
| Allocator.Heap.EnoughLargeBytesLeft | boehm-gc-7.2/src/allchblk.c:73-85 | the greatest list from which on the free bytes with the allocated ones make up the maximum |
| Allocator.Heap.Alloc | boehm-gc-7.2/src/allchblk.c:587-640 | with and without USE_MUNMAP the heap stays divided, listed and counted, and GC_unmapped_bytes right; the result is part of a block that was free, at the first start in it that is not black listed unless the black lists do not count; a block is found if and only if the request does not overflow and a free block of exactly the size, or on a list up to the split limit, can serve: it is large enough and some start in it is not black listed, or the black lists do not count for it; it comes from a block of exactly the size if one can serve, otherwise from the first list with one that can; the split limit for GC_enough_large_bytes_left is the greatest list from which on the free blocks, with what is allocated, make up the maximum, or 0, and what was dropped before it is computed could not serve; with nothing black listed and all lists allowed, 0 means that no free block is large enough |
| BlackList.HashAhead | boehm-gc-7.2/src/blacklst.c:244-252 | the bits of the blocks within a table word follow each other |
| BlackList.BlackLists.SkipWord | boehm-gc-7.2/src/blacklst.c:239-246 | two empty words say that no block up to the next word boundary is black listed |
| BlackList.BlackLists.IsBlackListed | boehm-gc-7.2/src/blacklst.c:228-257 | 0 exactly if no relevant bit of the run is set; otherwise the place after the start if that is on the normal list, or after the first block on the stack list, so that every start up to it is black listed too |
| BlackList.BlackLists.FirstUsable | boehm-gc-7.2/src/allchblk.c:700-708 | the caller's search finds the least start that is not black listed, or there is none up to the end |
| BlackList.BlackLists.Promote | boehm-gc-7.2/src/blacklst.c:130-161 | what was found since the last promotion counts, what was found before it is forgotten, and the new lists start empty; the normal lists are only swapped if all interior pointers are recognized |
| BlackList.BlackLists.AddStack | boehm-gc-7.2/src/blacklst.c:200-218 | the hash class of the block is found again, and no other, exactly if it has no header or was listed before the last promotion, which decides what the next promotion keeps; black listed is what was and that class |
| Mapping.InteriorMeans | boehm-gc-7.2/src/os_dep.c:2349-2364 | the pages from the rounded start to the rounded end are exactly those that lie entirely in the block |
| Mapping.GapExact | boehm-gc-7.2/src/os_dep.c:2481-2521 | the whole pages of two neighbours and of the gap are disjoint and together those of the merged block |
| Mapping.Memory.Unmap | boehm-gc-7.2/src/os_dep.c:2376-2409 | the whole pages of the block go and GC_unmapped_bytes counts them |
| Mapping.Memory.Remap | boehm-gc-7.2/src/os_dep.c:2411-2475 | they come back: it undoes GC_unmap |
| Mapping.Memory.UnmapGap | boehm-gc-7.2/src/os_dep.c:2481-2521 | after it two unmapped neighbours are as one unmapped block, in all four cases of blocks without a whole page |
| Unmap.AgeTest | boehm-gc-7.2/src/allchblk.c:418-419 | for all collection numbers: the test on their low order bits finds the block old if and only if more collections than the threshold and 65536 for every new start of the low order bits have passed; within 65536 collections it is right if and only if these have not started over |
| Unmap.Pages.UnmapOld | boehm-gc-7.2/src/allchblk.c:404-425 | exactly the old mapped blocks on the free lists lose their memory |
| Unmap.Pages.MergeTwo | boehm-gc-7.2/src/allchblk.c:445-481 | two free neighbours become one block on the list for its size; it is without memory exactly if both were, or if one was and it is larger, or as large and the second; it was touched last when the first was, or when the second was if only that one had memory and the merged block has it; all other blocks keep both, and GC_unmapped_bytes stays the size of the whole pages of blocks marked as unmapped |
| Unmap.Pages.MergeUnmapped | boehm-gc-7.2/src/allchblk.c:430-488 | it ends; sizes, markings and times are what merging a sequence of mergeable neighbours one after the other makes of them; no free page is lost; no free block can be merged with its successor, so without size overflow no two free blocks are neighbours; the account stays right |
| Unmap.OthersKeepMarks | boehm-gc-7.2/src/allchblk.c:430-488 | whatever is merged, a block that keeps its size keeps its marking and the time it was last touched |
| Unmap.Pages.Steps | boehm-gc-7.2/src/allchblk.c:404-896 | over every sequence of allocations, frees, heap growth, unmapping, merging and collections: GC_unmapped_bytes is the size of the pages without memory, which are the whole pages of the free blocks marked as unmapped, and pages in use and free make up the heap; all of them are done unless the collector aborts for want of room in the table of sections |
| HeaderIndex.Index.GetIndex | boehm-gc-7.2/src/headers.c:211-257 | afterwards there is a bottom index for the key, linked in ascending order, and no entry changed |
| HeaderIndex.Index.NewBlock | boehm-gc-7.2/src/headers.c:262-275 | the index stands for the map of headers with the new block |
| HeaderIndex.Index.Split | boehm-gc-7.2/src/allchblk.c:501-571 | the same for a divided free block |
| HeaderIndex.Index.Merge | boehm-gc-7.2/src/headers.c:295-301 | the same for two merged free blocks, of which one header goes |
| HeaderIndex.Index.Use | boehm-gc-7.2/src/headers.c:278-292 | every further page of the block gets its count, also across several bottom indices |
| HeaderIndex.Index.Unuse | boehm-gc-7.2/src/headers.c:304-310 | the counts are gone |
| HeaderIndex.Index.FindStart | boehm-gc-7.2/src/misc.c:396-401 | following counts from any page of a block in use ends at its start; it fails exactly on pages of no block and on later pages of free ones |
| HeaderIndex.Index.PrevBlock | boehm-gc-7.2/src/headers.c:378-407 | the last block that starts at or before the page, or there is none |
| HeaderIndex.Index.NextUsedBlock | boehm-gc-7.2/src/headers.c:342-373 | the first block in use that starts at or after the page, or there is none |
| HeaderIndex.Index.FreeBlockEndingAt | boehm-gc-7.2/src/allchblk.c:334-360 | over the index: the free block that ends where the given one starts, or there is none |
| HeaderIndex.Index.ApplyToAllBlocks | boehm-gc-7.2/src/headers.c:314-338 | the function is called on each block in use exactly once, and on nothing else |
| HeaderIndex.Index.Base | boehm-gc-7.2/src/misc.c:379-416 | the start of the object slot that the byte lies in, and 0 if it lies in none: in a free block, in the unusable tail of a page, beyond the end of a large object |
| HeaderIndex.BaseUnique | boehm-gc-7.2/src/misc.c:379-416 | a byte lies in at most one slot, and the start of a slot lies in it |
| HeaderIndex.BaseIdempotent | boehm-gc-7.2/src/misc.c:379-416 | the base of a base is that base |
| SizeMap.WidenedKeepsCount | boehm-gc-7.2/src/misc.c:238-244 | the final rounding keeps the number of objects in a block, and no larger even size has as many |
| SizeMap.SizeBound | boehm-gc-7.2/src/misc.c:206-252 | entry i is filled, and the size is at most twice the lowest entry filled plus 8 bytes |
| SizeMap.StillLong | boehm-gc-7.2/src/misc.c:204-205 | a filled section that ends at n stays at least n/4 long |
| SizeMap.Sizes.constructor | boehm-gc-7.2/src/misc.c:185-200 | the entries of the tiny sizes are the sizes rounded up to granules, that of 0 is 1, all others are empty |
| SizeMap.Sizes.Extend | boehm-gc-7.2/src/misc.c:206-252 | the entries from the first empty one after a quarter, or an eighth, less than the request up to the size itself get that size, and no other changes; it is the largest even one of which a block holds as many as of the size aimed at: that of the request or, if sizes an eighth less are filled, at least one eighth more than the lowest entry; every filled entry holds its bytes and the extra one; sections stay long |
| SizeMap.Sizes.Lookup | boehm-gc-7.2/src/malloc.c:103-128 | the second look at the latest finds an adequate size, so the call of itself happens at most once |
| Exclusions.MeetsFirst | boehm-gc-7.2/src/mark_rts.c:423-427 | a new range meets an old one if and only if it meets the first that ends after its start: the check called incomplete is complete |
| Exclusions.Table.Next | boehm-gc-7.2/src/mark_rts.c:389-406 | the search by halving finds the first range that ends after the address |
| Exclusions.Table.Exclude | boehm-gc-7.2/src/mark_rts.c:410-444 | it aborts for overlap exactly if the range meets an old one, and for a full table exactly if then no place is left and the range does not touch the next one; the place beyond the table is written exactly if it aborts so and ranges had to be moved; otherwise the table stays ascending and disjoint and excludes exactly the range in addition |
| Exclusions.Overrun | boehm-gc-7.2/src/mark_rts.c:410-444 | for every size of the table, a run of calls that writes beyond it |
| Exclusions.Table.PushConditional | boehm-gc-7.2/src/mark_rts.c:462-477 | the ranges handed on are ascending, disjoint, not empty, and cover exactly the range without what is excluded |
| Roots.StaticRoots.Present | boehm-gc-7.2/src/mark_rts.c:114-124 | the place of the range with that start, or no range has it |
| Roots.StaticRoots.AddRoots | boehm-gc-7.2/src/mark_rts.c:155-241 | the range is registered, or the one with the same start extended and its kind kept; index and GC_root_size are right; it aborts only if the table is full |
| Roots.StaticRoots.RemoveTmp | boehm-gc-7.2/src/mark_rts.c:283-297 | exactly the temporary ranges go, and the index is right again |
| Roots.StaticRoots.RemoveRoots | boehm-gc-7.2/src/mark_rts.c:318-330 | exactly the ranges that lie in the given one go, and the index is right again |
| Roots.AddedRooted | boehm-gc-7.2/src/mark_rts.c:155-165 | registering makes roots of all the words of the range, and takes none away |
| Roots.PermanentStays | boehm-gc-7.2/src/mark_rts.c:219-227 | a range registered for good survives the removal of temporary ones if and only if no temporary one with its start was there, or other permanent ones contain it |
| Roots.StaticRoots.PushStatic | boehm-gc-7.2/src/mark_rts.c:737-742 | what is pushed for static data is exactly what is registered and not excluded |
| Segments.Sort | boehm-gc-7.2/src/dyn_load.c:249-271 | the array is sorted in place and holds the same elements |
| Segments.AddSegment | boehm-gc-7.2/src/dyn_load.c:339-366 | the ranges registered cover exactly the segment without the collector's own memory, and none is empty |
| DirtyBits.Vdb.Write | boehm-gc-7.2/src/os_dep.c:3104-3214 | a write to a block in use, through the fault handler if need be, keeps every page with pointers protected or dirty, and every one written since the last reading dirty; the bits it sets are exactly those of the system page |
| DirtyBits.Vdb.RemoveProtection | boehm-gc-7.2/src/os_dep.c:3238-3264 | protection goes from the pages of the blocks, and exactly the bits of blocks on them that may have pointers are set, unless the only block seems dirty already, and then nothing changes |
| DirtyBits.SharedBit | boehm-gc-7.2/src/os_dep.c:3251-3255 | blocks as far apart as the table has bits share their bit |
| DirtyBits.ProtectionGone | boehm-gc-7.2/src/os_dep.c:3238-3264 | afterwards no page of the blocks is protected if and only if it was not the case that they are one single page which was protected and whose bit was set |
| DirtyBits.ProtectionDirty | boehm-gc-7.2/src/os_dep.c:3238-3264 | in every case all pages of blocks that may have pointers are dirty afterwards |
| DirtyBits.TwinStaysGuarded | boehm-gc-7.2/src/os_dep.c:3238-3264 | for every size of the table, a run after which a block that has just come into use is still protected |
| DirtyBits.Vdb.Allocate | boehm-gc-7.2/src/allchblk.c:808-817 | a block that comes into use keeps the account whatever it held before |
| DirtyBits.Vdb.ReadDirty | boehm-gc-7.2/src/os_dep.c:3429-3441 | every page with pointers written since the last reading is reported as dirty, and the account starts anew |
| DirtyBits.Vdb.ProtectHeap | boehm-gc-7.2/src/os_dep.c:3367-3425 | exactly the pages of blocks with pointers are protected in addition, or the whole heap if system pages are larger, blocks across sections included |
| BackGraph.Graph.NewStruct | boehm-gc-7.2/src/backgraph.c:86-105 | the structure freed last or, if there is none, the next of the array, which no object has; it fails exactly if all are in use |
| BackGraph.Graph.EachPred | boehm-gc-7.2/src/backgraph.c:174-194 | each predecessor once, in the order added, in all three forms |
| BackGraph.Graph.EnsureStruct | boehm-gc-7.2/src/backgraph.c:197-215 | the object has a structure and its predecessors are the same; a new one says that the height was unknown at the last collection; the heights that others remember stay; it fails exactly if one is needed and all are in use |
| BackGraph.Graph.AddEdge | boehm-gc-7.2/src/backgraph.c:217-263 | exactly the edge is added, if it was not there; every structure is free or in exactly one chain, and those in use keep the heights they remember; an object with its first predecessor gets a structure exactly every 128th time; it fails only if none is left |
| BackGraph.Graph.Deallocate | boehm-gc-7.2/src/backgraph.c:108-115 | the structures of the rest of a chain become free, and no other changes its place |
| BackGraph.Graph.Reset | boehm-gc-7.2/src/backgraph.c:287-320 | the predecessors are forgotten and the structures freed, or the first kept with its height if it was to be retained |
| BackGraph.Graph.BackwardsHeight | boehm-gc-7.2/src/backgraph.c:353-392 | it ends on every graph; the result is 0 exactly on an object in progress, otherwise the length of some chain that leads to the object, where a height saved by the last collection counts as the base of a chain, and that of the longest if no object leads back to itself; nothing stays in progress |
| BackGraph.Graph.MaxHeight | boehm-gc-7.2/src/backgraph.c:404-431 | the greatest of the height remembered for the object and those of its unmarked predecessors, and a predecessor that has it if it is greater than the remembered one |
| BackWalks.BoundedNext | boehm-gc-7.2/src/backgraph.c:376-388 | an object is no higher than its own base and its predecessors allow |
| ObjectLists.Build | boehm-gc-7.2/src/new_hblk.c:109-165 | the block is one list of all its objects, from the last to the first and on to the old list, cleared if asked for |
| ObjectLists.BuildAny | boehm-gc-7.2/src/new_hblk.c:142-164 | the general loop builds the same words as the ones written out |
| ObjectLists.BuildClear2 | boehm-gc-7.2/src/new_hblk.c:30-47 | the loop written out builds the same words |
| ObjectLists.BuildClear4 | boehm-gc-7.2/src/new_hblk.c:50-66 | the loop written out builds the same words |
| ObjectLists.Build2 | boehm-gc-7.2/src/new_hblk.c:70-83 | the loop written out builds the same words |
| ObjectLists.Build4 | boehm-gc-7.2/src/new_hblk.c:86-100 | the loop written out builds the same words |
| ObjectLists.WholeChain | boehm-gc-7.2/src/new_hblk.c:109-165 | the list meets every object of the block once and then the old list |

## Left out

- Marker: descriptors are "pointer-free" or "every word may be a pointer"; the unrolled GC_push_marked1, 2 and 4 and header caches are not modelled; the heap layout is fixed during a mark phase.
- Marker.Marker.MarkFrom: does not model bitmap, procedure and per-object descriptors; the mark stack entries of the model are ranges of words.
- Marker.Marker.PushRoots: does not model the pushing of free list headers, of the collector's own structures and of other roots by GC_push_other_roots; registers are part of the area of the stacks.
- Marker.Marker.GrowStack: does not model that the old stack is recycled into the heap.
- Marker.Marker.MarkSome: does not model the GC_parallel branch, which is CollectInParallel.ParallelCollector.MarkSome.
- Marker.Marker.InitiateGc: dirty bits are exact here; WriteBarrier.Barrier.Begin reads those of the write protection.
- Marker.Marker.PushSelected: only root segments are pushed by it, whose pages have no header and so are always taken for dirty.
- Marker.Marker.Write: dirty bits are kept by block and exact; WriteBarrier.Barrier.Write goes through the fault handler and the shared bits.
- Collector.Collector.FinishCollection: clearing the marks of free lists, sweeping and statistics are not modelled.
- Collector.Collector.MaybeGc: when to collect, and the count of partial collections that decides about full ones, are parameters.
- Collector.Collector.MostlyConcurrent: does not model allocation between the steps; the layout of the heap is fixed during a cycle.
- ParallelMark: memory is sequentially consistent; a thread may stop scanning at any word, and may give entries back at any time, where the source asks counters.
- CollectInParallel.ParallelCollector.FullCollection: the number of mark phases in which the threads drop entries is not bounded, so it speaks of every number of such phases: entries may be dropped for want of room in the global stack although no object was marked, since two threads can take the same entry and both give it back, and the source does not bound how often.
- ParallelProgress.FairScheduleEnds: does not speak of schedules in which threads go on waking up for no reason for ever; one of those can keep the lock from the thread that has work.
- WriteBarrier: blocks neither come nor go during a cycle; that blocks come into use safely is DirtyBits.Vdb.Allocate.
- Finalize.Finalizers.Register: addresses of records are never used again; what GC_oom_fn does between the two attempts is a run of other calls.
- Finalize.Finalizers.GcFinalize: requires a settled marker, which the collector leaves; the passes over disappearing links are in DisappearingLinks; memory does not change while GC_MARK_FO runs; does not model GC_bytes_finalized.
- Finalize.Finalizers.EnqueueAll: does not model the marking of the objects it enqueues, which starts outside a collection from the marks of the last one.
- Finalize.Finalizers.InvokeFinalizers: finalizers do not call back; RunNext and RunOnce hold for runs in which they do.
- Allocator: sizes and addresses are counted in heap blocks; headers and counts can always be had; the recursive call after dropping the first block of a list is another turn of the loop; headers are a plain map, which HeaderIndex justifies.
- Allocator.Heap.FreeBlockEndingAt: searches the plain map; HeaderIndex.Index.FreeBlockEndingAt is the search over the index.
- Unmap: the system always grants GC_unmap and GC_remap; GC_free_bytes is kept with USE_MUNMAP too, where the source has no use for it; the limit for splitting is a parameter in both builds.
- HeaderIndex: BOTTOM_SZ is 1024.
- HeaderIndex.Index.GetIndex: does not model the hash chains of the top level table and the two links of bottom indices; they are a map from keys and a sorted list.
- HeaderIndex.Index.Base: requires that the size of objects is a multiple of two words and that blocks have the pages one object needs, as setup_header makes them.
- SizeMap: constants of 64-bit words; EXTRA_BYTES is 0 or 1 and does not change.
- RangeScan: the words do not change during the scan, and nothing else is pushed in between.
- Exclusions.Table.PushConditional: requires an entry, as the search does; the collector always has one.
- Roots: the Windows variant that merges intervals.
- Segments: parsing /proc, stack segments and thread stacks; stretches of the collector's memory are disjoint.
- DirtyBits: the spin lock of the fault handler, other handlers, and faults outside the heap; the protection of every page is a set.
- BackGraph: addresses are object numbers and all objects have debug information, except in AddEdge; growing the table of objects in progress; saving heights in update_max_height.
- BackGraph.Graph.BackwardsHeight: on graphs with cycles only the chain that is found is stated, since the source promises an approximation there.
- reclaim.c, pthread_support.c, hintgc itself, the typed, debug and C++ interfaces, stack-base discovery, thread stopping and heap growth policy are not part of this model.
