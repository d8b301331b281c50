# Verified models of PMDK's mapping tracker, shutdown detection and benchmark protocols

The project models the parts of PMDK where correctness depends on more than one
function, and proves what those parts promise. All statements hold for every
input, every run and every interleaving of the model unless a condition is
named.

**Mapping tracker.** `CircularQueue` is the pointer-level circular queue,
`TrackerList` the sequences of trackers it holds and the map from byte address to
mapping kind they stand for, `MapTracker` the operations on the heap list,
`MappingRuns` whole runs of register and unregister calls (sequential, and with
the two separately locked halves of register interleaved), `DeepFlush` the walk
that makes a range durable piece by piece, `MapHint` the first-fit search for an
address.

**Unsafe-shutdown detection.** `Fletcher64` is the checksum, `ShutdownState` the
record and its operations, `ShutdownRuns` a step system of sessions, crashes and
rising unsafe-shutdown counts.

**Protocols.** `WorkerHandshake` (mutex and condition variable, any number of
workers, spurious wakeups), `OnceProtocol` and `RunIdLock` (compare-and-swap, any
number of threads).

**Bad blocks.** `BadBlocks` clips region bad blocks to a namespace,
`FileBadBlocks` maps them through file extents.

**Option vectors.** `CloExpand` and `CloVec` multiply an option vector by value
lists, `CloRange` evaluates ranges, `SumRange` says when sum ranges end. `Arith` and `Wrappers` hold shared helpers.

Check everything with `dafny verify dfyconfig.toml`.

## Assumptions

- In runs of the tracker, mappings are non-empty, do not wrap and lie below 2^63
  (`MapTracker.Mappings.Register` says what happens otherwise); page sizes and
  block sizes are powers of two, for which the masks of the source are remainders
  (`Arith.RoundUpFormula`). `Mmap_align` equals `Pagesize`.
- Allocation outcomes, the outcomes of msync and deep_flush, region ids, hardware
  counters, the list of mapped regions, file extents and the outcome of a lock
  initialiser are parameters.
- Persistence: stores before the last `FLUSH_SDS` are durable; of the field
  stores since then any subset may survive a crash; the `memset` of
  `shutdown_state_init` is one store; the unsafe-shutdown count never falls; it
  rises only together with the end of the running session.
- Callbacks of the benchmark workers and the function passed to `os_once` return.
  A signal wakes the one thread that can be waiting; waiters may also wake up
  without one.

## Where the code does not do what one would expect

Each of these has a condition under which the property holds and a proof that it
fails otherwise.

- The tracker comparer subtracts as signed: it orders two addresses exactly while
  they are less than 2^63 apart (`TrackerList.ComparerOrdersIff`).  From a list
  below 2^63, a successful registration keeps the list sorted, disjoint and free of
  empty trackers if and only if its range is not empty, does not wrap, and starts
  at most 2^63 above the first tracker (`MapTracker.Mappings.Register`,
  `MapTracker.UpperHalfGoesFirst`).  In the model "well formed" means sorted,
  disjoint, free of empty trackers and below 2^63.
- `util_range_register` checks under one lock and inserts under another: two
  overlapping registrations in flight at once, or the same one twice, break the list
  (`MappingRuns.RaceBreaksList`); while ranges in flight are disjoint every
  interleaving is safe.
- A verdict of 1 does not need a `shutdown_state_set_dirty` that returned, only one
  that had issued its last store (`ShutdownRuns.AlarmWithoutOpen`); with
  "outstanding" read this way there is no false alarm, except for the next point.
- A half-finished `shutdown_state_reinit` can make an abandoned dirty mark look
  complete, and so cause a false alarm, exactly when the Fletcher64 checksum of
  the dirty record is zero for an identity that another one can follow
  (`ShutdownRuns.NoFalseAlarmIff`); count 1 with identity 2^32 - 2 is such a
  record.
- `util_map_hint_unused` starts below the requested address exactly when rounding
  that address up wraps (`MapHint.StartNotBelowIff`).
- `SEC2B` shifts the 32-bit sector count of a region bad block in 32 bits (the
  count is printed with `%u`): clipping a block is exact if and only if the part
  the shift loses lies outside the namespace (`BadBlocks.ExactIff`,
  `BadBlocks.ShiftLosesBadBytes`).  A block at sector 0 of which the shift leaves
  nothing makes the namespace bad from its beginning, with its size cut to 32 bits
  (`BadBlocks.WrapReportsGoodBytes`).  When nothing is left of the size either, an
  empty block results, which `os_badblocks_get` takes for the whole address space
  (`FileBadBlocks.EmptyBlockExample`).
- `os_badblocks_get` narrows the bounds of a bad block inside its extent loop and
  cuts the widened length to 32 bits, so a block's bad file bytes are all reported
  if and only if it meets at most one extent and the widened length fits
  (`FileBadBlocks.CoveredIff`, `FileBadBlocks.SecondExtentExample`).
- `util_checksum` steps over the end of the range when the skipped tail has an odd
  word count, or an even one with the checksum straddling its beginning
  (`Fletcher64.ClosedFormIff`, `Fletcher64.OddTailExample`).
- `get_lock` needs more of a stored id than that it differs from the run id minus
  1: no advance of the run id may reach an id ahead of it.  When one does, an even
  id is taken for an initialised lock and an odd one blocks every thread
  (`RunIdLock.InitialisedOnce`, `RunIdLock.ReachingFails`).
- Unsigned range evaluation does not give the range when the first value past it
  wraps back below the last (`CloRange.ExactIff`; in closed form for sums,
  `CloRange.SumStopsIff`).  A sum range returns if and only if the greatest 64-bit
  value with the remainder of the first by the greatest power of two dividing the
  step is past the last (`SumRange.SumReturnsIff`).  Products up to 2^64 - 1
  (`CloRange.FullRangeNeverReturns`), product ranges from zero and quotient ranges
  down to zero (`CloRange.ZeroNeverReturns`) never return.

## Model

| member | source | states |
|---|---|---|
| CircularQueue.Queue.LinksAreInverse | src/common/queue.h:497-510 | next and prev are mutually inverse on every node of the queue, and exactly the last (first) node closes the circle at the head |
| CircularQueue.Queue.NodesDistinct | src/common/queue.h:497-510 | no node occurs twice in a queue, as a consequence of the links alone |
| CircularQueue.Queue.Init | src/common/queue.h:515-518 | an initialised queue is valid and empty |
| CircularQueue.Queue.InsertAfter | src/common/queue.h:520-528 | the node sequence gains the element right after the given one, links stay consistent, nodes outside the queue are untouched |
| CircularQueue.Queue.InsertBefore | src/common/queue.h:530-538 | the node sequence gains the element right before the given one, links stay consistent, nodes outside the queue are untouched |
| CircularQueue.Queue.InsertHead | src/common/queue.h:540-548 | the element becomes the first of the sequence, also in an empty queue |
| CircularQueue.Queue.InsertTail | src/common/queue.h:550-558 | the element becomes the last of the sequence, also in an empty queue |
| CircularQueue.Queue.Remove | src/common/queue.h:560-571 | exactly the given element leaves the sequence, and its own links keep their values |
| CircularQueue.Queue.SortedInsert | src/common/queue.h:608-620 | the element goes before the first one not below it, or to the tail; everything else keeps its order |
| CircularQueue.SortedInsertKeepsOrder | src/common/queue.h:608-620 | for any total comparer, insertion at that place keeps a sorted sequence sorted and adds exactly the new element |
| TrackerList.ComparerOrdersIff | src/common/mmap.c:293-297 | the signed difference orders two base addresses if and only if they are less than 2^63 apart |
| TrackerList.WellFormedIff | src/common/mmap.c:373-380 | the list invariant is being sorted by address, pairwise disjoint, free of empty trackers and below 2^63 |
| TrackerList.NoOverlapMeansUntracked | src/common/mmap.c:314-323 | the overlap test finds no tracker for a non-empty range exactly when no byte of it is tracked |
| TrackerList.NothingBeyond | src/common/mmap.c:319-321 | the early exit is right: behind a tracker that starts beyond the range nothing overlaps it |
| TrackerList.RegisteredRefines | src/common/mmap.c:351-387 | register fails exactly on a tracked byte or without memory, then changes nothing; otherwise it adds exactly its range with its kind and keeps the list well formed |
| TrackerList.CutAt | src/common/mmap.c:409-447 | the pieces left by a split hold exactly the tracker's bytes outside the range, with its kind |
| TrackerList.CutChain | src/common/mmap.c:409-447 | the pieces lie in order inside the old tracker, and none overlaps the removed range |
| TrackerList.SplitAllocsCount | src/common/mmap.c:420-447 | a split makes one allocation for each piece it leaves, and fails at the first that fails |
| TrackerList.SweepAt | src/common/mmap.c:472-513 | unregister removes exactly the bytes of the page-rounded range below the base of the tracker whose split failed, which is all of them on success, and no other byte changes |
| TrackerList.StopBound | src/common/mmap.c:503-509 | the place where unregister stopped is the end of the lower half exactly when it succeeded |
| TrackerList.SweepChain | src/common/mmap.c:472-513 | the list is sorted and disjoint after unregister, also after a split failed half way |
| TrackerList.SweepFailure | src/common/mmap.c:399-403 | unregister fails exactly when something overlaps and the range is empty or unaligned, or when an allocation it made failed; the first case changes nothing |
| TrackerList.RefusedIff | src/common/mmap.c:400-404 | of the page-rounded ranges, those of length zero and those that do not start at a page are refused, and no others |
| TrackerList.UnregisterOutcome | src/common/mmap.c:479-513 | unregister fails exactly when something overlaps the pages and the length is zero, the address is not page aligned, or an allocation failed; the first two leave the list alone, a success untracks every page of the range, and no byte outside changes |
| MapTracker.Mappings.constructor | src/common/mmap.c:54-55 | the tracker list starts empty |
| MapTracker.Mappings.FindUnlocked | src/common/mmap.c:307-329 | returns the lowest overlapping tracker, or none exactly when none overlaps |
| MapTracker.Mappings.Find | src/common/mmap.c:335-346 | the same for the locked variant |
| MapTracker.Mappings.Register | src/common/mmap.c:351-387 | for every range, with its end computed in 64 bits: -1 and no change exactly on an overlap or without memory, otherwise the tracker goes where sorted insertion stops; the list is then sorted, disjoint and free of empty trackers if and only if the range is not empty, does not wrap and starts at most 2^63 above the first tracker, and well formed if and only if it is not empty and ends by 2^63, when it follows the register specification |
| MapTracker.InsertionOrderedIff | src/common/mmap.c:371-382 | sorted insertion of a tracker that overlaps nothing keeps a well-formed list sorted, disjoint and free of empty trackers if and only if the tracker is not empty and starts at most 2^63 above the first one |
| MapTracker.UpperHalfGoesFirst | src/common/mmap.c:293-297 | registering [2^63 + 4096, 2^63 + 8192) beside [0, 4096) overlaps nothing, goes first and leaves the list out of order |
| MapTracker.Mappings.Split | src/common/mmap.c:392-470 | one tracker is replaced in place by its pieces, or nothing changes; -1 exactly for an empty range, an unaligned end of it, or a failed allocation |
| MapTracker.Mappings.Replace | src/common/mmap.c:449-463 | taking the tracker out and inserting the pieces by address puts them exactly at its place |
| MapTracker.StopIsInsertByBase | src/common/mmap.c:293-297 | below 2^63 the place where sorted insertion stops under the signed comparer is the place by base address |
| MapTracker.PiecesGoBack | src/common/mmap.c:449-463 | sorted insertion of both pieces restores the position of the removed tracker |
| MapTracker.Mappings.Unregister | src/common/mmap.c:479-513 | the heap list follows the removal specification for the page-rounded range; -1 exactly when something overlaps and the length is zero, the address unaligned or an allocation failed; the first two change nothing; the loop terminates |
| Arith.RoundUpFormula | src/common/util.h:62-68 | the least multiple of the page size that is not below the length is the source's round-up formula |
| MapTracker.Mappings.RemoveRange | src/common/mmap.c:498-509 | the find-and-split loop reaches the outcome of one sweep over the sorted list, stops at the first failure, and terminates |
| MapTracker.Mappings.IsPmem | src/common/mmap.c:519-559 | returns 1 exactly when the address and every byte of the range are tracked, across any number of trackers and for length 0 |
| MappingRuns.ExecRefines | src/common/mmap.c:351-513 | one call on the map from byte to kind: the result of a registration, and for every byte either what the call decides about it or its former kind |
| MappingRuns.SettlesByReturn | src/common/mmap.c:351-513 | a successful call decides the bytes it covers, a failed registration and a refused removal change nothing, and a removal that failed half way only drops bytes it covers |
| MappingRuns.PagesUnregistered | src/common/mmap.c:479-513 | with memory, unregistering a non-empty page-aligned range succeeds and leaves none of its bytes tracked |
| MappingRuns.RunRefines | src/common/mmap.c:351-513 | over every run the list stays sorted, disjoint and below 2^63, and every byte has exactly the kind given by the last call that decided about it, also after removals that failed half way |
| MappingRuns.RunStaysWellFormed | src/common/mmap.c:351-513 | every run of legal calls keeps the list well formed, whatever allocations fail |
| MappingRuns.RunOnHeap | src/common/mmap.c:351-513 | the heap list and all return values of a run are those of the specification run |
| MappingRuns.InsertSafeIff | src/common/mmap.c:358-382 | the insertion half of register keeps the list well formed if and only if nothing overlaps the range at that moment |
| MappingRuns.NextKeepsInv | src/common/mmap.c:358-382 | each locked step, with any number of equal registrations in flight, keeps the list well formed and clear of every range in flight, while ranges in flight are disjoint |
| MappingRuns.InterleavedRunSafe | src/common/mmap.c:358-382 | every interleaving of check, failed allocation, insert and unregister steps keeps the list well formed while ranges in flight are disjoint and no registration is in flight twice |
| MappingRuns.InterleavedRunAt | src/common/mmap.c:358-513 | after every such interleaving a byte is tracked, with its kind, exactly when the last step that decided about it was an insertion; a removal that failed half way decides the bytes below the place where it stopped |
| MappingRuns.HalvesMakeRegister | src/common/mmap.c:351-387 | check and insert with nothing in between are the whole register call, and a failed allocation in between changes nothing |
| MappingRuns.RaceBreaksList | src/common/mmap.c:358-382 | any two overlapping registrations, equal ones included, checked before either is inserted leave a list that is not sorted and disjoint |
| DeepFlush.DeepType | src/common/os_deep_linux.c:85-111 | each mapping type gets its own action, an unknown type none and -1 |
| TrackerList.GapUntracked | src/common/os_deep_linux.c:135-143 | nothing between the current address and the found tracker is tracked, so msync is the right action there |
| DeepFlush.CrossTracker | src/common/os_deep_linux.c:135-156 | at a found tracker: msync up to it, its own action inside it, and the rest of the range stays to be done |
| DeepFlush.RangeDeepCommon | src/common/os_deep_linux.c:116-159 | returns 0 exactly when all actions succeeded and the log reaches the end of the range; -1 only for a failed last action or a type without action; the loop terminates |
| DeepFlush.ProgressMeans | src/common/os_deep_linux.c:116-159 | the logged actions partition the range covered so far in ascending order; every byte of a piece is untracked or synchronously mapped and the piece was synced, or device DAX and its own region was flushed |
| DeepFlush.PartitionCoversOnce | src/common/os_deep_linux.c:116-159 | every byte of a partitioned range belongs to exactly one action |
| MapHint.StartNotBelowIff | src/common/mmap_posix.c:83-88 | the search starts at or above the requested address if and only if rounding it up does not wrap |
| MapHint.StartLeast | src/common/mmap_posix.c:83-88 | unless it wraps, the search starts at the least aligned address not below the requested one, or not below the page size for address 0 |
| MapHint.ConflictIff | src/common/mmap_posix.c:94-111 | a range conflicts with a region exactly when they share a byte |
| MapHint.WrappedStartGoesBelow | src/common/mmap_posix.c:88-109 | after a wrap every address with the required alignment is below the requested one |
| MapHint.Scan | src/common/mmap_posix.c:90-116 | the scan ends at the lowest free aligned address from the start, or past the end of the address space with none left |
| MapHint.HintUnused | src/common/mmap_posix.c:68-131 | a proper result is aligned, free with room for the length, and the lowest such address not below the requested one (the page size for address 0; any address when rounding that up wraps); for alignments that divide 2^64, a result of 0 or MAP_FAILED means that there is none; after a wrap the answer is 0 if that is free |
| MapHint.WrapExample | src/common/mmap_posix.c:83-131 | a request just below 2^64 is answered with an address far below it |
| Fletcher64.Compute | src/common/util.c:113-138 | the loop computes the weighted-sum checksum with the slot and the tail read as zero |
| Fletcher64.AccumulatorsAreSums | src/common/util.c:126-136 | the two 32-bit accumulators are the sum and the weighted sum of the words seen so far, modulo 2^32 |
| Fletcher64.ThreeWords | src/common/util.c:126-138 | the checksum of any three words, written out |
| Fletcher64.WordMattersIff | src/common/util.c:118-136 | a change of one word is seen if and only if the word lies before the skip point and outside the two words of the checksum |
| Fletcher64.ClosedFormIff | src/common/util.c:118-138 | the result is the Fletcher64 closed form over the range if and only if the tail is even (odd when the slot straddles its beginning) and the slot is not cut by the end, or the words sum to zero |
| Fletcher64.OddTailExample | src/common/util.c:118-136 | two words of which the second is skipped have another checksum than the closed form |
| Fletcher64.UtilChecksum | src/common/util.c:107-148 | checksum location inside the range: insert writes the low word and then the high word of the checksum there, changes nothing else and makes verify succeed; verify changes nothing and compares the slot with the checksum of the rest |
| Fletcher64.UtilChecksumApart | src/common/util.c:107-148 | checksum location outside the range: every word before the skip point counts, insert writes the location and verify compares it, and the range never changes |
| Fletcher64.InsertVerifies | src/common/util.c:140-147 | verifying after inserting succeeds for every range |
| Fletcher64.OneWordDetected | src/common/util.c:126-138 | changing any one counted word changes the checksum |
| Fletcher64.TwoWordsDetected | src/common/util.c:126-138 | any change confined to two adjacent counted words changes the checksum |
| Fletcher64.SwapDetectedIff | src/common/util.c:126-138 | swapping two counted words is detected if and only if their distance times their difference is not a multiple of 2^32 |
| Fletcher64.InsertThenCorruptFails | src/common/util.c:140-147 | a verified range stops verifying after any change inside two adjacent counted words |
| Fletcher64.InsertThenFlipFails | src/common/util.c:140-147 | a verified range stops verifying after a change of any one counted word |
| ShutdownState.DigestIsChecksum | src/common/shutdown_state.c:53-60 | the checksum of the 64-byte record in closed form over its fields |
| ShutdownState.WordsLayout | src/common/shutdown_state.h:43-49 | the 16 words of the record: count, identity, flag, zeros and checksum, low words first |
| ShutdownState.DigestExample | src/common/shutdown_state.c:53-60 | the checksum of one record in numbers |
| ShutdownState.IntactIsVerify | src/common/shutdown_state.c:205-206 | a record counts as intact exactly when verifying its 16 words succeeds |
| ShutdownState.DirtyChangesDigest | src/common/shutdown_state.c:136-141 | setting the dirty flag always changes the checksum |
| ShutdownState.FieldsDetected | src/common/shutdown_state.c:205-206 | an intact record with another count, identity or flag is no longer intact |
| ShutdownState.IsZeroedIff | src/common/util.c:82-94 | comparing a range with itself shifted by one byte says exactly that all bytes are zero |
| ShutdownState.CheckMeaning | src/common/shutdown_state.c:189-239 | the verdict is 1 exactly for an intact dirty record of another identity, which is left alone; every 0 leaves the current identity, a clear flag and a correct checksum |
| ShutdownState.ShutdownRecord.StoreChecksum | src/common/shutdown_state.c:53-60 | the checksum becomes correct for the current fields, which stay as they are; one store and one flush |
| ShutdownState.ShutdownRecord.Init | src/common/shutdown_state.c:65-77 | the record is zero with a correct checksum, which is what the logged stores make of any record; the stores and the flush in order |
| ShutdownState.ShutdownRecord.SetDirty | src/common/shutdown_state.c:131-142 | the flag is set, the checksum correct, the part remembers it; replaying the logged stores on the old record gives the new one |
| ShutdownState.ShutdownRecord.ClearDirty | src/common/shutdown_state.c:147-166 | nothing happens in a session that did not set the flag; otherwise the flag is cleared with a correct checksum as the logged stores say, and the part keeps its mark |
| ShutdownState.ShutdownRecord.Reinit | src/common/shutdown_state.c:171-184 | the record gets the current identity, a clear flag and a correct checksum, which is what the logged stores make of any record |
| ShutdownState.ShutdownRecord.CheckAgainst | src/common/shutdown_state.c:189-239 | the verdict and the stores are those of the check specification; a verdict of 1 changes nothing |
| ShutdownState.ShutdownRecord.AddPart | src/common/shutdown_state.c:82-126 | fails without any store exactly when the count, the length or the text of the identity cannot be read or there is no memory; otherwise count and identity grow by the part's count and the checksum of its text, modulo 2^64, and the checksum is correct again |
| ShutdownState.UidChecksum | src/common/shutdown_state.c:119-120 | the identity added for a part has the sum of the text's words in its low half and their weighted sum in its high half |
| ShutdownState.PaddingFits | src/common/shutdown_state.c:103 | the buffer for the identity text has one to four bytes to spare |
| ShutdownState.CurrentRecord | src/common/set.c:2559-2565 | given up exactly when a part cannot be read; otherwise the record holds the totals of all parts modulo 2^64, a clear flag and a correct checksum |
| ShutdownRuns.MarkSafe | src/common/shutdown_state.c:131-142 | at every crash point of set_dirty what survives is clean, damaged, or marked with its last store issued |
| ShutdownRuns.ClearSafe | src/common/shutdown_state.c:160-165 | every crash image of clear_dirty is judged rightly, also when it runs twice in a session |
| ShutdownRuns.ReinitSafe | src/common/shutdown_state.c:171-184 | every crash image of reinit is judged rightly, from any record a crash can leave |
| ShutdownRuns.ActKeepsInv | src/common/shutdown_state.c:131-239 | every session step and every crash keeps the invariant |
| ShutdownRuns.CheckedRecordIsCurrent | src/common/shutdown_state.c:195-235 | in every run a finished 0 verdict leaves a durable clean record of the current hardware |
| ShutdownRuns.MarkOpens | src/common/shutdown_state.c:131-142 | a set_dirty that runs to its end leaves the pool open with a durable mark of the current identity |
| ShutdownRuns.CloseClears | src/common/shutdown_state.c:147-166 | closing an open pool, run to its end, leaves a durable clean record on which no check says 1, whatever the identity |
| ShutdownRuns.ClosedPoolNeverReported | src/common/shutdown_state.c:147-239 | in every run, after a finished close every check says 0 until the next set_dirty, however the identity changes and however many sessions are interrupted |
| ShutdownRuns.RunKeepsInv | src/common/shutdown_state.c:131-239 | the invariant holds in every state of every run of sessions and crashes |
| ShutdownRuns.TaintedStays | src/common/shutdown_state.c:226-239 | once the count has risen over a completed set_dirty, a check says 1 and no step changes the record |
| ShutdownRuns.TaintedForever | src/common/shutdown_state.c:153-158 | once the count has risen over a completed set_dirty, no later session or crash changes the record |
| ShutdownRuns.UnsafeShutdownReported | src/common/shutdown_state.c:131-239 | if the count rises while the pool is open, every later check in the run says 1 and the record is unchanged |
| ShutdownRuns.NoFalseAlarm | src/common/shutdown_state.c:189-239 | over every run with crashes, a verdict of 1 means that the identity changed while a set_dirty that had issued its last store was outstanding, if no earlier, different identity of the run has a collision |
| ShutdownRuns.FalseAlarmMeansCollision | src/common/shutdown_state.c:53-76 | every false alarm in a run is due to an identity that the hardware had earlier and no longer has, and whose dirty checksum is zero |
| ShutdownRuns.AlarmWithoutOpen | src/common/shutdown_state.c:131-142 | a set_dirty that never returned counts too: if its checksum store survives a crash under another identity, the next check says 1 although no session had the pool open |
| ShutdownRuns.MaybeMeansMarked | src/common/shutdown_state.c:58 | the outstanding identity is one under which set_dirty issued its checksum store earlier in the run, and no flush of a check or a close has come since |
| ShutdownRuns.CollisionGivesFalseAlarm | src/common/shutdown_state.c:72-76 | for every identity whose dirty checksum is zero there is a run that ends in a false alarm |
| ShutdownRuns.NoFalseAlarmIff | src/common/shutdown_state.c:53-76 | for hardware with any set of identities, false alarms are impossible if and only if no identity that another one of the set can follow has a zero dirty checksum |
| ShutdownRuns.CollisionExists | src/common/shutdown_state.c:53-60 | such an identity exists |
| WorkerHandshake.StepKeepsInv | src/benchmarks/benchmark_worker.cpp:46-221 | every step of every thread and every spurious wakeup keeps the handshake invariant, for any number of workers |
| WorkerHandshake.AssertsHold | src/benchmarks/benchmark_worker.cpp:53-64 | no assert of the two transition helpers fails in any run |
| WorkerHandshake.NoLostWakeup | src/benchmarks/benchmark_worker.cpp:51-66 | the mutex excludes, and whoever sleeps still has its wait condition |
| WorkerHandshake.ResultsAfterAllFuncs | src/benchmarks/pmembench.cpp:1187-1195 | results are stored only when every worker has run init and func once and is at the end state |
| WorkerHandshake.ResultsComeFirst | src/benchmarks/pmembench.cpp:1195-1202 | the results are stored in every run before any worker is told to exit |
| WorkerHandshake.StagesInOrder | src/benchmarks/pmembench.cpp:1177-1202 | no worker runs func before every worker has run init, and none runs exit before every worker has run func |
| WorkerHandshake.DoneMeansAllCalled | src/benchmarks/pmembench.cpp:1197-1202 | at the end every worker thread has finished and called init, func and exit exactly once, in this order |
| WorkerHandshake.NoDeadlock | src/benchmarks/benchmark_worker.cpp:46-221 | in every reachable unfinished state some thread can take a step that is not a spurious wakeup |
| WorkerHandshake.RunsAreBounded | src/benchmarks/pmembench.cpp:1177-1202 | every run has at most 120 steps per worker plus 60 plus three per spurious wakeup |
| OnceProtocol.StepKeepsInv | src/common/os_thread_windows.c:399-422 | every atomic step of any thread keeps the protocol invariant, for any initial value but 1 and 2 |
| OnceProtocol.CalledExactlyOnce | src/common/os_thread_windows.c:399-422 | func is entered at most once; any return means it was called once and has finished; the error is never returned |
| OnceProtocol.AloneCallsOnce | src/common/os_thread_windows.c:399-422 | a thread that is alone calls func once and returns 0, and calls nothing when it has been called before |
| OnceProtocol.OneCaller | src/common/os_thread_windows.c:410-414 | at most one thread is inside func |
| OnceProtocol.SomeoneAdvances | src/common/os_thread_windows.c:405-408 | while a thread has not returned, some thread can do better than spin |
| OnceProtocol.AdvancesBounded | src/common/os_thread_windows.c:399-422 | n threads take at most 9 n steps that are not spins |
| OnceProtocol.StartedAtOneNeverReturns | src/common/os_thread_windows.c:405-407 | from the value 1 without a caller nothing ever changes |
| RunIdLock.StepKeepsInv | src/benchmarks/obj_locks.cpp:178-201 | every step keeps the protocol invariant, and so does every advance of the run id while nobody is inside that does not reach the stored id |
| RunIdLock.InitialisedOnce | src/benchmarks/obj_locks.cpp:178-201 | over any number of run ids, while no advance reaches the stored id: one thread inside the initialiser, one success per run id, a lock is returned only when initialised under the current one; a stored id not ahead of the run id is always enough |
| RunIdLock.DoneMeansSuccess | src/benchmarks/obj_locks.cpp:187-196 | a lock counts as initialised only after an initialiser has succeeded under the current run id |
| RunIdLock.NullMeansFailure | src/benchmarks/obj_locks.cpp:187-196 | a thread gets null only when its own initialiser has failed since it entered |
| RunIdLock.AloneGetsLock | src/benchmarks/obj_locks.cpp:178-201 | a thread that is alone gets the lock, initialised under the current run id and not again if it was already, or null and a stored id of 0 when the initialiser fails |
| RunIdLock.SoundNeverReaches | src/benchmarks/obj_locks.cpp:450-451 | from a stored id that is not ahead of the run id no advance reaches the stored id, in any run |
| RunIdLock.SomeoneAdvances | src/benchmarks/obj_locks.cpp:181-200 | while a thread is inside get_lock, some thread can do better than spin |
| RunIdLock.PublishSucceeds | src/benchmarks/obj_locks.cpp:192-196 | the second compare-and-swap never fails |
| RunIdLock.FailureLeavesClaimable | src/benchmarks/obj_locks.cpp:187-190 | a failed initialiser stores 0 and returns null, and the next thread gets to initialise |
| RunIdLock.AdvanceRestarts | src/benchmarks/obj_locks.cpp:450-451 | advancing the run id by two while idle, without reaching the stored id, re-establishes the start condition with the lock uninitialised |
| RunIdLock.ReachingFails | src/benchmarks/obj_locks.cpp:183-200 | an advance that reaches the stored id leaves every thread blocked, or hands out the lock uninitialised |
| RunIdLock.OrphanedForever | src/benchmarks/obj_locks.cpp:183-184 | a stored id of run id minus 1 without an owner keeps every thread inside for good |
| RunIdLock.AheadEvenHandsOutRaw | src/benchmarks/obj_locks.cpp:183-200 | from an even stored id ahead of the run id some run returns a lock never initialised |
| RunIdLock.AheadOddBlocks | src/benchmarks/obj_locks.cpp:183-200 | from an odd stored id at or ahead of run id minus 1 some run blocks every thread |
| BadBlocks.NamespaceBadBlocks | src/common/os_dimm_ndctl.c:342-377 | the loop returns the clipped blocks in order |
| BadBlocks.ClipExact | src/common/os_dimm_ndctl.c:348-371 | a namespace byte is in a returned block if and only if its region byte is in a region bad block, when the 32-bit shift is harmless for each |
| BadBlocks.ClipWithin | src/common/os_dimm_ndctl.c:359-365 | returned blocks fit their length field and lie in the namespace, for all bad blocks |
| BadBlocks.ShortIsProper | src/common/os_dimm_ndctl.c:349-365 | bad blocks of less than 2^32 bytes are clipped exactly and not to an empty block |
| BadBlocks.EmptyBlockIff | src/common/os_dimm_ndctl.c:349-365 | a non-empty bad block whose shift is harmless gives the empty block exactly when nothing is left of it at sector 0 and the namespace size is a multiple of 2^32 |
| BadBlocks.ExactIff | src/common/os_dimm_ndctl.c:349-365 | for any namespace and any bad block of the address space, clipping is exact if and only if its byte length is below 2^32, it misses the namespace, or what the shift leaves still reaches the namespace's end; when nothing is left of a block at sector 0, if and only if the namespace size modulo 2^32 is the number of its bad bytes |
| BadBlocks.WrapReportsGoodBytes | src/common/os_dimm_ndctl.c:350-357 | a bad block of 2^32 bytes at sector 0 makes good bytes of every namespace behind it bad, unless its size is a multiple of 2^32 |
| BadBlocks.ShiftLosesBadBytes | src/common/os_dimm_ndctl.c:349-357 | a bad block of 2^32 bytes at sector 1 is not reported |
| FileBadBlocks.ScanExtents | src/common/badblock_linux.c:124-165 | one record for each extent met under the narrowed bounds |
| FileBadBlocks.BadBlocksGet | src/common/badblock_linux.c:117-166 | the records of all bad blocks in order, and their number |
| FileBadBlocks.HullLeast | src/common/badblock_linux.c:141-149 | the widened range is block aligned, covers the overlap and lies in every aligned range that does |
| FileBadBlocks.OneRecord | src/common/badblock_linux.c:124-165 | for disjoint extents a bad block yields nothing or exactly the least aligned range over its overlap with the first extent it meets |
| FileBadBlocks.RecordIsHull | src/common/badblock_linux.c:140-157 | shifting, aligning down and rounding up gives exactly the least aligned range, cut to the 32-bit length field |
| FileBadBlocks.CoveredIff | src/common/badblock_linux.c:129-157 | for files of whole blocks a bad block's record covers all file bytes it makes bad if and only if it meets at most one extent and the widened length is below 2^32 |
| FileBadBlocks.SecondExtentExample | src/common/badblock_linux.c:129-139 | a bad block over two extents that are adjacent on the medium only loses the bytes of the second |
| FileBadBlocks.BadFileBytesReported | src/common/badblock_linux.c:78-166 | both stages together: a file byte on a bad region byte is in a returned block when every clipped block meets at most one extent and fits |
| FileBadBlocks.ReportExact | src/common/badblock_linux.c:78-166 | both stages together are exact to the file-system block, under that condition and for bad blocks that are clipped exactly and not to an empty block: a byte is in a returned block if and only if its file-system block has a bad file byte |
| FileBadBlocks.EmptyBlockReportsFirst | src/common/badblock_linux.c:121-139 | an empty block at offset 0 has the last address as its end, so the first extent of any file is reported whole |
| FileBadBlocks.EmptyBlockExample | src/common/badblock_linux.c:78-166 | a bad block of 2^32 bytes before a namespace of 2^32 good bytes has this effect on every file |
| CloVec.CloVec.constructor | src/benchmarks/clo_vec.cpp:44-73 | one cleared structure |
| CloVec.CloVec.GetArgs | src/benchmarks/clo_vec.cpp:105-120 | the i-th buffer, or null beyond the count |
| CloVec.CloVec.Grow | src/benchmarks/clo_vec.cpp:142-166 | the present buffers stay, new ones are fresh, and entry j is a copy of entry j modulo the old count |
| CloVec.CloVec.Memcpy | src/benchmarks/clo_vec.cpp:229-243 | the value is written into the field of every entry, or -1 and no change when it does not fit |
| CloVec.CloVec.MemcpyList | src/benchmarks/clo_vec.cpp:253-279 | the vector becomes its expansion by the value list, or -1 and no change when the field does not fit |
| CloVec.ProcessOptions | src/benchmarks/clo_vec.cpp:253-279 | processing options on the heap gives the expansion of all of them |
| CloExpand.EntryCount | src/benchmarks/clo_vec.cpp:260-262 | the number of entries is the product of the value counts |
| CloExpand.EntryField | src/benchmarks/clo_vec.cpp:264-276 | entry i carries in field j the value number (i / product of earlier counts) mod count |
| CloExpand.TwoOptions | src/benchmarks/clo_vec.cpp:253-279 | with two options, entry i carries value i mod n of the first and value i / n of the second, n being the first one's count |
| CloExpand.OutsideUntouched | src/benchmarks/clo_vec.cpp:270-274 | bytes outside all fields stay as allocated |
| CloExpand.DigitsDetermine | src/benchmarks/clo_vec.cpp:264-276 | the value numbers of an entry determine its index |
| CloExpand.EveryCombinationOnce | src/benchmarks/clo_vec.cpp:253-279 | for every choice of value numbers there is exactly one entry that carries it |
| CloExpand.OnlyEntryWith | src/benchmarks/clo_vec.cpp:253-279 | when no option has a value twice, an entry holds the chosen values in all fields if and only if it is the one at the choice's index |
| CloRange.EvalRangeUint | src/benchmarks/clo.cpp:252-292 | whenever the loop ends: the emitted values are those of its rounds, -1 exactly for an unknown step type, and the ideal range when the first value past it is still seen as past it after truncation |
| CloRange.EmitsTerms | src/benchmarks/clo.cpp:260-289 | whatever the parameters, a loop that ends has emitted the terms of the progression modulo 2^64, none but the first past the last value, up to the first term that is |
| CloRange.NextIsBeyond | src/benchmarks/clo.cpp:262-288 | inside the range a round computes the true next value; at its end it stops exactly if truncation does not hide that the next value is past the last |
| CloRange.AcceptedIff | src/benchmarks/clo.cpp:340-367 | the parameter check accepts exactly the steps that move every positive value strictly on |
| CloRange.IdealIsMaximal | src/benchmarks/clo.cpp:263-286 | the ideal range is the maximal arithmetic or geometric continuation that does not pass the last value |
| CloRange.ExactIff | src/benchmarks/clo.cpp:260-289 | the loop returns with exactly the ideal range if and only if the first value past it survives truncation |
| CloRange.NoWrapStopsInTime | src/benchmarks/clo.cpp:264-279 | a range from first up to last whose last value plus (times) the step fits in 64 bits is evaluated exactly |
| CloRange.SumStopsIff | src/benchmarks/clo.cpp:264-268 | a sum range is evaluated exactly if and only if first + ((last - first) / step + 1) * step is below 2^64 |
| CloRange.ReturnsIff | src/benchmarks/clo.cpp:260-289 | the loop ends if and only if some later term of the progression, modulo 2^64, is past the last value |
| SumRange.SumReturnsIff | src/benchmarks/clo.cpp:260-268 | a sum range ends if and only if 2^64 - g + first mod g is past the last value, g being the greatest power of two dividing the step |
| SumRange.GreatestIsReached | src/benchmarks/clo.cpp:264-266 | adding the step over and over reaches that value |
| CloRange.ZeroNeverReturns | src/benchmarks/clo.cpp:276-285 | a product range from zero and a quotient range down to zero never return |
| CloRange.FullRangeNeverReturns | src/benchmarks/clo.cpp:264-279 | a sum or product range up to 2^64 - 1 never returns |
| CloRange.FullRangeExample | src/benchmarks/clo.cpp:252-367 | such a range passes the parameter check |

## Left out

- MapTracker.Mappings.Register: the region lookup for device DAX, which is a parameter; Windows-only tracker fields.
- MapTracker.Mappings.Unregister: wrap-around of address plus length at 2^64; the read-write lock itself; calls are atomic steps, except for the two halves of register in `MappingRuns`.
- Fletcher64.UtilChecksum: a checksum location that the end of the range cuts in two.
- ShutdownRuns.NoFalseAlarm: a `memset` that is torn between fields at a crash; records of several replicas, which are independent; pool creation, which ends in the same set_dirty.
- WorkerHandshake.RunsAreBounded: thread affinity errors and failed allocations in `pmembench_init_workers`, which leave the driver early.
- FileBadBlocks.BadBlocksGet: the paths without bad blocks or without extents, and allocation failure.
- CloRange.EvalRangeUint: ranges whose loop does not end; division by a zero step, which the parameter check excludes; truncation of values to the option's size; signed ranges and parsing.
- CloVec.CloVec.Grow: allocation failure, which the source asserts away.
- Opening and parsing of pool sets, the object, block and log libraries and their allocators: not part of this model.
- Operating-system wrappers, Windows and FreeBSD variants, logging, configuration files, statistics and the benchmark bodies: they add only easy members.
