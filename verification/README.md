# OrdaDB kernels: a Dafny model

This project models the kernels of OrdaDB in Dafny and proves what they promise. `dafny verify
dfyconfig.toml` checks all of it.

Where the program changes an object in place, the project has a class whose methods do the same
and are proved equal to specification functions; the properties below are then proved about those
functions, mostly over every run of a state machine. Errors are the SQLSTATE strings the program
reports. Libraries (checksums, distances, JSON, dates, costs, the scalar functions of SQL) are
function-valued parameters, constrained only by the laws named `Lawful`.

## The components

- **Serializable snapshot isolation** (`PredicateLocks`, `Ssi`, `SsiManager`, `SsiRuns`,
  `SsiHistory`). Runs
  of begin, read, write, refresh, commit, rollback, abort and cleanup. Ids are new when `begin`
  is called, because they come from a counter, and nothing is recorded for a transaction after
  its commit; these two are the guards of a step. A failing commit removes only the node, so
  symmetry of the stored edges is stated for pairs that are both registered. Serializability
  itself is not claimed: only read/write edges are tracked, and a pivot that commits before its
  incoming reader is let through (`CommittedPivotWasNotLast` says exactly what is excluded), and a
  commit may be refused for an edge to a transaction that is gone (`RefusedByDanglingAloneIff` says
  exactly when, `DanglingEdgeRefusesCommit` that it happens).
- **Locks and deadlocks** (`Deadlock`, `Locks`, `LockRuns`, `LockAborts`, `LockCycles`,
  `LockHistory`, `LockManager`). Each critical section of an acquire is one atomic step; wake-ups, cancellation
  and time-outs are nondeterministic.
  The victim search is the program's enumeration of simple paths with an explicit stack, proved
  to end and to return the largest transaction on any cycle. Aborting it breaks every cycle only
  if it lies on every cycle (`AbortBreaksAllIffOnEvery`, with a run in which it does not).
- **Pages, the recovery file and the buffer pool** (`LittleEndian`, `Page`, `PageEdits`,
  `SlottedPage`, `PageFile`, `Recovery`, `Buffer`, `BufferRuns`, `BufferWrites`, `BufferWorld`,
  `BufferEviction`, `BufferAnswers`, `BufferPool`). A file is a byte sequence. A failed write may leave any bytes, up to a page of
  them, in place of its page; a crash during recovery may leave any planned pages torn. The pool
  is stated over pages with an identity, an LSN, a check and an insert; slotted pages are shown to
  be such pages. The durability barrier is asked for an LSN and refuses, or answers an LSN the log
  is durable through, no less than it was asked for.
- **The write-ahead log and stored rows** (`WalRecord`, `WalValidity`, `WalRoundTrip`,
  `WalCanonical`, `WalExceptions`, `WalSizes`, `LogCodec`, `Utf8`, `Tuple`, `TupleRoundTrip`,
  `TupleAcceptance`, `TupleSizes`).
- **The vector index** (`Hnsw`, `HnswGraph`, `HnswNearest`, `HnswIndex`). A distance is a finite 32-bit float
  given by its place in the total order of floats, so that the two zeros are distinct for the
  heaps and equal for `<` and `==`, as in the program. A metric may refuse a pair.
- **The wire reader** (`Wire`, `WireRoundTrip`, `Frames`, `Conversation`, `PayloadDecoder`,
  `FrontendMessageReader`). A connection is the bytes sent and, for each read, whether nothing
  has arrived, the transport fails, or some bytes are handed over.
- **The optimizer** (`Optimizer`, `OptimizerMeaning`, `Comparisons`, `PlanPaging`). Costs are an arbitrary choice
  between the index and the sequential scan. What a plan yields is taken from the execution
  cursor: the index key is evaluated and coerced once, the index has its own order of keys, and
  rows stream in chunks through frames that count OFFSET and LIMIT down.
- **The memory grant** (`Memory`). Every load, compare-and-exchange and credit is a step of its
  own, interleaved in any order.

## Claims of the program that fail, and exactly when

- Constant folding treats NULL as false before it negates, so `WHERE NOT NULL` is folded to true
  and every row comes through, though three-valued logic lets none through
  (`NotNullLetsEverythingThrough`). It can be read off the filter's text; a filter without NULL
  beneath NOT is never affected (`NoNullBeneathNotFoldsRight`).
- An index scan can lose rows. Operators take the two float zeros as equal, the index keeps them
  apart, so a row holding the negative zero is not found by `column = 0.0`
  (`IndexMissesNegativeZero`). Over floats that is all: a plan yields other rows than were asked for
  exactly if the key is a zero and the column holds the opposite one, on the side that the range of
  `=`, `<=` or `>=` leaves out, beside the folding above and keys that do not evaluate
  (`FloatPlanYieldsUnlessOppositeZero`). Over any values whose index order refines the comparison
  exactly the ties are lost (`PlanYieldsUnlessTied`), and none where the order agrees with it
  (`AgreeingIndexLosesNothing`). A key that cannot be evaluated or coerced to the column's type fails
  an index scan even over an empty table (`UnboundKeyFailsOverNothing`).
- Rolling back to a savepoint just taken does not always restore the dependency edges. It does if
  and only if no overlap of what the transaction read with a committed writer visible to it lacks
  its edge and it names no transaction that is gone (`SavepointRoundTrip`); there are runs for both
  (`ExcusedReadGainsEdge`, `RefusedPivotDangles`).
- A page installed as clean that the disk does not hold is lost when it is evicted
  (`CleanPageIsForgotten`). The pool behaves as a plain page map if and only if no such page is
  dropped before it is dirtied (`RefinesIffNothingForgotten`); it is enough that every clean install
  agrees with the disk at the call (`PoolRefinesPageMap`).
- Log bytes can be accepted without being an encoding: exactly checkpoints with entries out of key
  order or with a horizon written as zero (`AcceptedIsEncodingIffCanonical`,
  `UnsortedEntriesAreAccepted`, `ZeroHorizonIsAccepted`).
- A deadlock flag outlives its cycle: the flagged transaction is aborted at its next poll even if
  another member has timed out since (`StaleAbort`). It is aborted exactly if a search of the run
  named it and the flag was kept since (`AbortIffNamedAndKept`). The abort is stale exactly if every
  ring of blocked requests through it that any search saw has since lost a request, refused at its
  poll or released (`LaterAbortIsStaleIff`). As long as one ring seen when the flag was raised loses
  none, the abort is genuine (`FlagIsGenuineWhileRingStays`), also when it meets another request of
  the transaction on entering, where the only other way to be genuine is that this request closes
  a ring itself (`EnteringAbortIsGenuineIff`).
- The overlap test reports ranges with crossing bounds as overlapping though they cover nothing
  (`CrossingBoundsOverlapNothingInCommon`).

## Model

| member | source | states |
|---|---|---|
| Base.BytesLessIff | crates/ordadb-transaction/src/ssi.rs:477-500 | keys and bounds compare as byte strings do: a proper prefix first, otherwise by the first byte that differs |
| PredicateLocks.OverlapsIffCommonItem | crates/ordadb-transaction/src/ssi.rs:11-77 | some row, index entry or table falls under both locks exactly when the test reports an overlap and neither is a range with crossing bounds |
| PredicateLocks.CrossingBoundsOverlapNothingInCommon | crates/ordadb-transaction/src/ssi.rs:477-500 | a range with crossing bounds is reported to overlap the range of all keys though it covers none |
| SsiTracker.SsiManager.Begin | crates/ordadb-transaction/src/ssi.rs:148-181 | registers before it detects a duplicate; refuses past the capacity |
| SsiTracker.SsiManager.AddDependency | crates/ordadb-transaction/src/ssi.rs:443-461 | records an edge on the reader first, and fails halfway when the writer is not registered |
| SsiTracker.SsiManager.RecordRead | crates/ordadb-transaction/src/ssi.rs:183-219 | adds the predicate and an edge to every overlapping writer the snapshot does not contain |
| SsiTracker.SsiManager.RecordWrite | crates/ordadb-transaction/src/ssi.rs:253-282 | adds the predicate and an edge from every overlapping reader |
| SsiTracker.SsiManager.RefreshSnapshot | crates/ordadb-transaction/src/ssi.rs:221-251 | changes the snapshot only before the first recorded predicate and before commit |
| SsiTracker.SsiManager.Commit | crates/ordadb-transaction/src/ssi.rs:284-309 | refuses and removes a pivot with a committed incoming edge |
| SsiTracker.SsiManager.TakeSavepoint | crates/ordadb-transaction/src/ssi.rs:311-327 | copies both predicate sets of an uncommitted transaction |
| SsiTracker.SsiManager.RollbackTo | crates/ordadb-transaction/src/ssi.rs:329-371 | restores the predicates and rebuilds the edges from overlaps alone |
| SsiTracker.SsiManager.RemoveTransaction | crates/ordadb-transaction/src/ssi.rs:463-469 | removes a transaction and every mention of it |
| SsiTracker.SsiManager.CleanupBefore | crates/ordadb-transaction/src/ssi.rs:379-395 | removes, one by one, every committed transaction behind the horizon, with all mentions |
| Ssi.BeginningAgainForgets | crates/ordadb-transaction/src/ssi.rs:148-181 | a transaction that begins again loses what it had recorded although the call fails |
| Ssi.HalfAnEdgeStays | crates/ordadb-transaction/src/ssi.rs:443-461 | an edge to an unregistered writer fails but stays on the reader |
| Ssi.RefusalsAre | crates/ordadb-transaction/src/ssi.rs:148-371 | what each refused call reports, and that it changes nothing, a refused commit excepted |
| SsiHistory.KnownIffStands | crates/ordadb-transaction/src/ssi.rs:148-395 | over every run, who is registered or committed, with which snapshot, and every predicate a transaction reads or writes, is exactly what an answered call said and no later call took back; a committed transaction leaves by cleanup exactly when its id and its xmax are below the horizon |
| SsiHistory.AnsweredIff | crates/ordadb-transaction/src/ssi.rs:148-371 | when each call succeeds, over every run: reads and writes of a registered transaction until its predicates are full, a change of snapshot while nothing was recorded and before commit, a rollback before commit |
| SsiHistory.OnlyCallsRecord | crates/ordadb-transaction/src/ssi.rs:311-371 | when every rollback goes to a savepoint taken before, nothing is recorded that an answered read or write did not record |
| SsiHistory.EdgesAreRecordedConflicts | crates/ordadb-transaction/src/ssi.rs:183-282 | in every reachable state an edge joins only a reader and a writer that recorded overlapping predicates, and every two such unless the reader's snapshot has the writer |
| SsiHistory.PivotIsRefused | crates/ordadb-transaction/src/ssi.rs:284-309 | a transaction missed by a committed reader that itself missed a writer cannot commit and is removed |
| SsiHistory.NoRecordedCycleCommits | crates/ordadb-transaction/src/ssi.rs:284-309 | over every run no committed registered transactions form a ring in which each recorded a read of what the next recorded as written and its snapshot lacks |
| SsiHistory.WriteSkewIsRefused | crates/ordadb-transaction/src/ssi.rs:284-309 | of two registered transactions that each missed what the other wrote not both have committed |
| SsiRuns.ReachableInv | crates/ordadb-transaction/src/ssi.rs:148-395 | every run keeps the edge agreement, the issued ids and the pivot rule |
| SsiRuns.EdgesAreExactlyConflicts | crates/ordadb-transaction/src/ssi.rs:183-282 | in every reachable state edges are stored on both ends, imply an overlap, and are implied by one unless the writer is visible to the reader |
| SsiRuns.CommittedGraphIsAcyclic | crates/ordadb-transaction/src/ssi.rs:284-309 | in every reachable state the committed registered transactions form no dependency cycle |
| SsiRuns.CycleHasLastPivot | crates/ordadb-transaction/src/ssi.rs:284-309 | the last committer of a cycle would be a pivot that commit refuses |
| SsiRuns.CommittedPivotWasNotLast | crates/ordadb-transaction/src/ssi.rs:284-309 | of three committed transactions joined by two edges the middle one did not commit last |
| SsiRuns.RollbackIsExact | crates/ordadb-transaction/src/ssi.rs:329-371 | after a rollback the edges at the transaction are exactly its overlaps and edges between others are untouched |
| SsiRuns.SavepointRoundTrip | crates/ordadb-transaction/src/ssi.rs:311-371 | rolling back to a fresh savepoint restores the state if and only if no read overlaps a visible committed writer without an edge and no edge dangles; otherwise it adds the former and drops the latter |
| SsiRuns.RefusedByDanglingAloneIff | crates/ordadb-transaction/src/ssi.rs:284-309 | in every reachable state a refusal of commit is owed to ids that are gone exactly if the transaction has a committed reader and names writers none of which is registered; otherwise it lies between two registered ones |
| SsiRuns.DanglingEdgeRefusesCommit | crates/ordadb-transaction/src/ssi.rs:284-309 | a run in which a commit is refused for the edge to a transaction that was itself refused and removed |
| SsiRuns.ExcusedReadGainsEdge | crates/ordadb-transaction/src/ssi.rs:329-371 | a run in which the rollback adds the edge from a reader to a writer committed before its snapshot |
| SsiRuns.RefusedPivotDangles | crates/ordadb-transaction/src/ssi.rs:297-371 | a run in which the refused commit of a pivot leaves a dangling edge, which the rollback drops |
| Deadlock.SearchFrom | crates/ordadb-transaction/src/locks.rs:465-483 | the path enumeration from one transaction ends, adds only cycle members, and adds the origin if it is on a cycle |
| Deadlock.DeadlockVictim | crates/ordadb-transaction/src/locks.rs:462-487 | the search returns the largest transaction on any cycle |
| Deadlock.NoVictimIffAcyclic | crates/ordadb-transaction/src/locks.rs:462-487 | there is no victim exactly when the wait-for graph has no cycle, and a victim lies on one and bounds all members |
| Locks.EdgeIffWaitsFor | crates/ordadb-transaction/src/locks.rs:431-460 | the graph has an edge exactly when some waiter conflicts with a holder or an earlier waiter of its key |
| Locks.CanRunIffContributesNothing | crates/ordadb-transaction/src/locks.rs:390-406 | a waiter may run exactly when it contributes no wait-for edge |
| Locks.RetainKeepsOrder | crates/ordadb-transaction/src/locks.rs:422-429 | removing waiters keeps the order of the rest |
| LockService.LockManager.BuildWaitForGraph | crates/ordadb-transaction/src/locks.rs:431-460 | the nested loops over the queues build exactly the wait-for graph |
| LockService.LockManager.WaiterCanRun | crates/ordadb-transaction/src/locks.rs:390-406 | the scan ahead in the queue and over the holders decides whether the waiter may run |
| LockService.LockManager.Enter | crates/ordadb-transaction/src/locks.rs:162-235 | the first critical section of an acquire: immediate grant, capacity, queueing, victim flag and first poll |
| LockService.LockManager.Poll | crates/ordadb-transaction/src/locks.rs:186-235 | one turn of the waiting loop, with its four exits in order |
| LockService.LockManager.ReleaseTransaction | crates/ordadb-transaction/src/locks.rs:237-251 | drops the transaction's locks, requests and flag, and empty queues |
| LockService.LockManager.ReleaseRequest | crates/ordadb-transaction/src/locks.rs:292-303 | drops one granted request |
| LockRuns.ReachableInv | crates/ordadb-transaction/src/locks.rs:135-303 | every run keeps holders compatible, queues in arrival order, and flags on waiting transactions |
| LockRuns.OnlyQueueingAddsEdges | crates/ordadb-transaction/src/locks.rs:163-251 | only queueing a request adds wait-for edges, and only out of the requester |
| LockRuns.NewCycleIsCaught | crates/ordadb-transaction/src/locks.rs:163-185 | a cycle that appears runs through the requester and the search made then names a victim that bounds it |
| LockRuns.EveryDeadlockWasCaught | crates/ordadb-transaction/src/locks.rs:163-251 | every cycle in any reachable state was caught at the step that closed it, so searching at enqueue alone misses none |
| LockRuns.HoldersAlwaysCompatible | crates/ordadb-transaction/src/locks.rs:42-51 | in every reachable state an exclusive holder shares its key with no other transaction and no two transactions hold update locks |
| LockRuns.NoOvertaking | crates/ordadb-transaction/src/locks.rs:162-235 | while a request waits, a conflicting one is granted on its key only if it was queued earlier |
| LockRuns.NewcomerNeverOvertakes | crates/ordadb-transaction/src/locks.rs:162-201 | a request is not granted past a conflicting waiter at the moment it is queued |
| LockRuns.FlagsNeverOutliveTheirWait | crates/ordadb-transaction/src/locks.rs:186-251 | every flagged victim has a request in some queue in every reachable state |
| LockRuns.DeadlockAbortIsDeserved | crates/ordadb-transaction/src/locks.rs:163-201 | a transaction aborted as victim on entering, with no other request waiting, lies on a cycle of that moment's graph |
| LockAborts.FlaggedIffNamedAndKept | crates/ordadb-transaction/src/locks.rs:177-251 | over every run a transaction is flagged exactly if some search named it and since then none of its requests was polled and it was not released |
| LockAborts.AbortIffNamedAndKept | crates/ordadb-transaction/src/locks.rs:186-201 | any later poll ends in a deadlock abort exactly in that case |
| LockAborts.NamedWasOnCycle | crates/ordadb-transaction/src/locks.rs:462-487 | at the search that flagged it the transaction lay on a cycle, as the largest on any |
| LockAborts.StaleAbort | crates/ordadb-transaction/src/locks.rs:186-235 | a run in which the flagged transaction is aborted after its cycle is gone |
| LockCycles.OnCycleIffRing | crates/ordadb-transaction/src/locks.rs:431-487 | a transaction lies on a wait-for cycle exactly if a ring of waiting requests, each blocked by a holder or earlier waiter of the next transaction, passes through it |
| LockCycles.StepOnBlock | crates/ordadb-transaction/src/locks.rs:162-303 | after any step a request is blocked by another exactly if it was, once the step's own request is queued, and neither was refused or released at that step |
| LockCycles.RingIffSeenAndStays | crates/ordadb-transaction/src/locks.rs:162-303 | over every run the rings of blocked requests are exactly those that some search saw and that lost no request since |
| LockCycles.DeadlockedIffRingStays | crates/ordadb-transaction/src/locks.rs:162-303 | so a transaction is deadlocked exactly if such a ring passes through it |
| LockCycles.LaterAbortIsStaleIff | crates/ordadb-transaction/src/locks.rs:186-201 | a deadlock abort at a later poll hits a transaction on no cycle exactly if every ring through it that any search saw has lost a request since |
| LockCycles.FlagIsGenuineWhileRingStays | crates/ordadb-transaction/src/locks.rs:162-201 | the search that flagged a transaction saw a ring through it, and while one such ring loses no request it stands, at any later poll and when a further request of the transaction is queued |
| LockCycles.EnteringAbortIff | crates/ordadb-transaction/src/locks.rs:162-201 | an acquire ends in a deadlock abort on entering exactly if it queued and its transaction was flagged and kept before or is named now |
| LockCycles.EnteringAbortIsGenuineIff | crates/ordadb-transaction/src/locks.rs:162-201 | the entering transaction lies on a cycle exactly if a ring seen before has lost no request or its own request closes one |
| LockHistory.HeldIffStands | crates/ordadb-transaction/src/locks.rs:162-303 | over every run a request holds a lock exactly from the call that was granted it to its release or its transaction's, and waits exactly from being told to wait to its next other answer or release |
| LockHistory.WakeIsAnswered | crates/ordadb-transaction/src/locks.rs:186-235 | what a later turn of a call is answered, by the run alone: victim, cancelled, gone, granted if no standing lock or earlier wait is in its way, timed out, or waiting |
| LockHistory.EnterIsAnswered | crates/ordadb-transaction/src/locks.rs:162-235 | what a new call is answered, by the run alone: granted at once if nobody waits and no lock is in its way, else refused past the capacity, else as at a later turn |
| LockHistory.FreshRequestIsGrantedIff | crates/ordadb-transaction/src/locks.rs:162-171 | where nobody waits for the key a new request is granted exactly if no lock still held is in its way, so always once all were released |
| LockHistory.WaitersAreCountedOnce | crates/ordadb-transaction/src/locks.rs:163-176 | the capacity counts every waiting call once |
| LockAborts.ReleaseDropsOwnEdges | crates/ordadb-transaction/src/locks.rs:237-251 | releasing a transaction takes away the wait-for edges at it and no others |
| LockAborts.AbortBreaksAllIffOnEvery | crates/ordadb-transaction/src/locks.rs:237-251 | releasing a victim leaves no deadlock if and only if it lies on every cycle |
| LockAborts.SecondCycleSurvives | crates/ordadb-transaction/src/locks.rs:462-487 | a run in which two cycles share only the requester and one survives the abort of the victim |
| PageEdits.NewPageIsValid | crates/ordadb-storage/src/page.rs:76-89 | a new page is valid, empty, with LSN zero and all space free |
| PageEdits.InsertKeepsRecords | crates/ordadb-storage/src/page.rs:144-167 | an insert keeps validity, identity, LSN and every earlier record byte for byte and returns the new one; a misfit changes nothing |
| PageEdits.SetLsnKeepsRecords | crates/ordadb-storage/src/page.rs:180-184 | stamping an LSN changes the LSN and the checksum alone |
| PageEdits.InsertAllKeepsRecords | crates/ordadb-storage/src/page.rs:144-167 | the same over any sequence of inserts, with the total of header, slots, gap and records unchanged |
| PageEdits.NewPageAccountsForEveryByte | crates/ordadb-storage/src/page.rs:76-167 | on a page made by new and insert these totals are 8192 and the records are the accepted ones in order |
| PageEdits.RecordGoesInIff | crates/ordadb-storage/src/page.rs:144-167 | on a page built by new and inserts a record goes in exactly if header, a slot each, the records and this one make at most 8192 bytes, and otherwise nothing changes |
| PageEdits.ValidPageIff | crates/ordadb-storage/src/page.rs:106-142 | a page is valid exactly if its raw fields say so: magic, version, type, id, bounds, slots in the page with no byte in two of them, and the checksum |
| PageEdits.VerdictIff | crates/ordadb-storage/src/page.rs:106-142 | a valid page is accepted, one of another version is reported as unsupported, anything else as corrupt |
| Page.SealMatches | crates/ordadb-storage/src/page.rs:291-295 | a sealed page carries its own checksum whatever the field held |
| SlottedPages.SlottedPage.Insert | crates/ordadb-storage/src/page.rs:144-167 | the in-place writes of record, slot and bounds make the specified page |
| SlottedPages.SlottedPage.SetLsn | crates/ordadb-storage/src/page.rs:180-184 | the same for the LSN |
| SlottedPages.SlottedPage.Record | crates/ordadb-storage/src/page.rs:169-172 | reads a record, or fails on an unknown slot |
| SlottedPages.CheckSlots | crates/ordadb-storage/src/page.rs:253-278 | the loop over occupied bytes decides whether slots are sound and records disjoint |
| SlottedPages.Validate | crates/ordadb-storage/src/page.rs:215-289 | check by check, the verdict of the page specification |
| PageFile.PagesDetermineFile | crates/ordadb-storage/src/recovery.rs:199-222 | whole files with the same pages are equal |
| Recovery.RecoveryDataFile.Read | crates/ordadb-storage/src/recovery.rs:92-124 | a missing or corrupt page is tolerated only when the plan rewrites it |
| Recovery.RecoveryDataFile.Apply | crates/ordadb-storage/src/recovery.rs:126-149 | writes a valid planned page that is not beyond the end of the file |
| Recovery.OpensAndReadsIff | crates/ordadb-storage/src/recovery.rs:65-124 | a file is refused if its partial tail lies in a page that is wanted but not planned; a valid page is read as it is, a missing or damaged one as absent if planned and refused otherwise |
| Recovery.AppliesIff | crates/ordadb-storage/src/recovery.rs:126-149 | a page is applied exactly if it is valid, planned and not beyond the end of the file; then it stands in its place and no other byte has changed |
| Recovery.ResizesIff | crates/ordadb-storage/src/recovery.rs:151-161 | resizing keeps the bytes up to the shorter length, adds zeros, and fails only past the machine word |
| Recovery.RecoveryDataFile.Finish | crates/ordadb-storage/src/recovery.rs:163-191 | succeeds exactly on the target number of valid pages that carry their own positions |
| Recovery.RecoveryConverges | crates/ordadb-storage/src/recovery.rs:65-191 | from any file whose unplanned pages are sound, any number of crashes, each leaving any planned pages torn and any growth of the file lost, and restarts under the plan end in the same valid file |
| Recovery.RecoverySucceedsIffUnplannedSound | crates/ordadb-storage/src/recovery.rs:65-191 | opening, replaying and finishing succeed if and only if every unplanned page below the target is complete and valid |
| BufferService.BufferPool.constructor | crates/ordadb-storage/src/buffer.rs:81-102 | a new pool over a file satisfies the pool's invariant |
| BufferService.BufferPool.ReadPage | crates/ordadb-storage/src/disk.rs:72-89 | reads a valid page inside a file without a partial tail |
| BufferService.BufferPool.WriteBack | crates/ordadb-storage/src/buffer.rs:385-399 | barrier, checks, then the write, which may tear |
| BufferService.BufferPool.ChooseVictim | crates/ordadb-storage/src/buffer.rs:355-373 | the pass over the frames finds the LRU-2 victim, or that all are pinned |
| BufferService.BufferPool.EnsureCapacity | crates/ordadb-storage/src/buffer.rs:333-353 | evicts the victim, and puts it back when its flush fails |
| BufferService.BufferPool.Fetch | crates/ordadb-storage/src/buffer.rs:104-132 | pins a resident page or reads it into a freed frame |
| BufferService.BufferPool.Install | crates/ordadb-storage/src/buffer.rs:134-163 | places a new unpinned frame unless the page is resident |
| BufferService.BufferPool.FlushPage | crates/ordadb-storage/src/buffer.rs:375-392 | writes a dirty resident page back and cleans it |
| BufferService.BufferPool.FlushAll | crates/ordadb-storage/src/buffer.rs:170-177 | flushes in ascending page order up to the first failure |
| BufferService.BufferPool.Replace | crates/ordadb-storage/src/buffer.rs:274-290 | replaces a page by a valid one of the same identity |
| BufferService.BufferPool.InsertRecord | crates/ordadb-storage/src/buffer.rs:292-303 | inserts into the resident page and marks it dirty when it fits |
| BufferService.BufferPool.Unpin | crates/ordadb-storage/src/buffer.rs:323-331 | dropping a guard takes back one pin |
| BufferRuns.StepRefinesPageMapUnlessForgotten | crates/ordadb-storage/src/buffer.rs:104-177 | a step changes what a client sees as id exactly as a plain page map would, unless it drops a page installed as clean, never dirtied since, that the disk does not hold |
| BufferRuns.FlushAllSucceedsIffContiguous | crates/ordadb-storage/src/disk.rs:91-108 | flushing all on a healthy device succeeds exactly when the dirty new pages continue the file without a gap; then all is clean and a page is on disk exactly if it was dirty or was there before |
| BufferWrites.StepAccounts | crates/ordadb-storage/src/buffer.rs:333-400 | a step hands only dirty frames to the disk, as they are, when the barrier answered for their LSN, and these writes explain every byte of the file |
| BufferWrites.ChangedBytesWereWritten | crates/ordadb-storage/src/buffer.rs:375-400 | a step that changes any byte of a page on disk wrote the dirty frame of that page, behind the log |
| BufferWorld.RefinesIffNothingForgotten | crates/ordadb-storage/src/buffer.rs:134-163 | over every run a client sees the plain page map throughout if and only if no page installed as clean is dropped undirtied while the disk does not hold it |
| BufferWorld.PoolRefinesPageMap | crates/ordadb-storage/src/buffer.rs:104-177 | with failures and torn writes, a client sees the page map that only replace, insert and install change, whenever each clean install agrees with the disk at the call |
| BufferWorld.CleanPageIsForgotten | crates/ordadb-storage/src/buffer.rs:134-163 | a run of two clean installs into a pool of one frame after which the first page is gone |
| BufferWorld.GuardedPagesStayResident | crates/ordadb-storage/src/buffer.rs:333-353 | over every run frames stay within capacity, pins equal live guards, and a guarded page is resident and valid |
| BufferWorld.WalBeforeData | crates/ordadb-storage/src/buffer.rs:375-400 | over every run, wherever a byte of the file differs from the start the pool wrote that page when the barrier had answered for its LSN, and after a whole write the page on disk is the one written |
| BufferWorld.ChangedPagesAreLogged | crates/ordadb-storage/src/buffer.rs:375-400 | unless a write failed, every page on disk that is not as it was has an LSN the log is durable through |
| BufferWorld.TrimmedHistoriesPickTheSameVictim | crates/ordadb-storage/src/buffer.rs:355-407 | the victim from the trimmed histories is the one the full access traces and the live guards determine |
| BufferEviction.VictimIsLeastRecent | crates/ordadb-storage/src/buffer.rs:355-407 | over every run the victim is, of the unguarded pages, one accessed fewer than twice since it became resident with the earliest first access, or if there is none the one with the earliest last access but one; equal moments go to the smaller id |
| BufferEviction.VictimIsLeastRecentlyUsed | crates/ordadb-storage/src/buffer.rs:355-407 | the same by the order of the calls that accessed the pages, over every run shorter than the clock is wide |
| BufferEviction.EvictionIsForced | crates/ordadb-storage/src/buffer.rs:333-353 | a page leaves only a full pool, for a page that is not resident, alone, and as the least recently used |
| BufferAnswers.AnsweredIff | crates/ordadb-storage/src/buffer.rs:104-177 | when fetch, install, replace and flush succeed, by the pool before the call: residence, room or a victim that can be written back, and a readable valid page |
| BufferAnswers.RefusalsAre | crates/ordadb-storage/src/buffer.rs:104-177 | what each refusal is reported as: pinned full pool, page past the end or invalid, already resident, foreign identity, barrier, gap, failed write |
| BufferAnswers.DirtyAfterStepIff | crates/ordadb-storage/src/buffer.rs:274-313 | over every run, which pages owe a write after a call: replacing, a record that goes in and an explicit mark make a page dirty, only a flush that succeeds makes it clean, and a page that comes in is dirty only if installed so |
| BufferAnswers.FlushAllStopsAtFirst | crates/ordadb-storage/src/buffer.rs:170-177 | over every run a flush of all goes up the page ids and stops at the first page that cannot be written: those below are clean, from it on none became so |
| BufferWorld.SlottedPagesAreLawful | crates/ordadb-storage/src/page.rs:106-193 | slotted pages are pages in the pool's sense |
| LogCodec.EncodeRecord | crates/ordadb-transaction/src/record.rs:152-186 | the field-by-field writes and the final checksum make the specified bytes |
| LogCodec.PushEntries | crates/ordadb-transaction/src/record.rs:404-414 | the loop writes the map's entries in key order |
| LogCodec.Decoder.ReadEntries | crates/ordadb-transaction/src/record.rs:466-490 | the loop reads entries, refusing zero ids and duplicates |
| LogCodec.ReadPayload | crates/ordadb-transaction/src/record.rs:436-512 | the decoder of every record kind |
| LogCodec.ReadRecord | crates/ordadb-transaction/src/record.rs:188-218 | header, length, checksum, payload and validation in the program's order |
| WalValidity.ValidIff | crates/ordadb-transaction/src/record.rs:220-310 | field by field which records are valid; a page update's later image bears the record's LSN, its earlier one need not |
| WalSizes.EncodesUnlessCheckpointTooLarge | crates/ordadb-transaction/src/record.rs:152-186 | the only valid record that cannot be encoded is a checkpoint of over 1024 entries, or over 1023 beside a horizon; what is encoded has its payload's size and is within the reader's bound |
| WalRoundTrip.DecodeInvertsEncode | crates/ordadb-transaction/src/record.rs:152-218 | every encoded record is read back, whatever the checksum function |
| WalRoundTrip.ChecksumField | crates/ordadb-transaction/src/record.rs:182-200 | clearing the checksum field restores exactly the bytes that were summed |
| WalCanonical.AcceptedIsEncodingIffCanonical | crates/ordadb-transaction/src/record.rs:188-218 | accepted bytes are the encoding of the record read from them if and only if checkpoint entries ascend and no horizon is written as zero |
| WalExceptions.ZeroHorizonIsAccepted | crates/ordadb-transaction/src/record.rs:491-495 | a checkpoint with an explicit zero horizon is accepted though no record encodes to it |
| WalExceptions.UnsortedEntriesAreAccepted | crates/ordadb-transaction/src/record.rs:466-490 | so is a checkpoint whose active transactions are written out of key order |
| WalCanonical.SlottedImagesAreLawful | crates/ordadb-transaction/src/record.rs:514-540 | sealing a valid page image changes nothing, so images survive the log as they are |
| TupleRoundTrip.DecodeRowInvertsEncodeRow | crates/ordadb-storage/src/tuple.rs:68-87 | a plain row is read back exactly |
| TupleRoundTrip.DecodeRowV2InvertsEncodeRowV2 | crates/ordadb-storage/src/tuple.rs:89-140 | a versioned row is read back exactly, header and all |
| TupleRoundTrip.BodyIsRead | crates/ordadb-storage/src/tuple.rs:164-361 | every kind of value is read back from its encoding and nothing past it is taken |
| TupleAcceptance.AcceptedRowIff | crates/ordadb-storage/src/tuple.rs:68-87 | bytes are accepted as a plain row exactly if they are its count and its values spelled out, with nothing left over; a document may be any text its library reads |
| TupleAcceptance.AcceptedRowV2Iff | crates/ordadb-storage/src/tuple.rs:89-140 | bytes are accepted as a versioned row exactly if they are a sound header and as many values as it says, spelled out |
| TupleSizes.StoredIffValuesFit | crates/ordadb-storage/src/tuple.rs:68-109 | a row is stored exactly if each value fits its length prefix and the count and header are sound, and takes 2 or 32 bytes beside the sizes of its values |
| VectorIndex.HnswIndex.Improve | crates/ordadb-search/src/hnsw.rs:253-262 | one pass over the links finds a better one, or that the node is locally optimal |
| VectorIndex.HnswIndex.GreedyClosest | crates/ordadb-search/src/hnsw.rs:250-268 | greedy descent ends, at a local optimum no worse than its start |
| VectorIndex.HnswIndex.Expand | crates/ordadb-search/src/hnsw.rs:292-308 | measuring a node's new links keeps the bounded heap the nearest of all measured nodes |
| VectorIndex.HnswIndex.SearchLayer | crates/ordadb-search/src/hnsw.rs:270-313 | the search ends and returns, in order, the ef nearest of the nodes it measured, having looked at every link of every node it returns |
| Hnsw.OfferKeepsNearest | crates/ordadb-search/src/hnsw.rs:300-307 | one offer to the bounded heap keeps it the k nearest |
| Hnsw.BeamIsLocallyOptimal | crates/ordadb-search/src/hnsw.rs:284-291 | a link leading out of the result leads to a node farther than everything returned |
| Hnsw.ShortBeamIsEverythingReachable | crates/ordadb-search/src/hnsw.rs:284-313 | a result shorter than ef is exactly the set reachable at that level |
| HnswNearest.LocalOptimumIff | crates/ordadb-search/src/hnsw.rs:250-268 | descent stops at a node exactly when each of its links is farther, or as far with no smaller index; the two zeros are equally far |
| HnswNearest.FrontKeepsNearest | crates/ordadb-search/src/hnsw.rs:227-232 | the front of a sorted list of measured nodes is as many as fit, nearest first, each nearer by distance and then index than all that are dropped |
| HnswNearest.InsertedIsNearest | crates/ordadb-search/src/hnsw.rs:220-242 | every level of an insertion links to the nearest nodes its search found, each linked node keeps the nearest of its links and the new one, and each search below the top starts at the nearest found above |
| VectorIndex.HnswIndex.PruneNeighbors | crates/ordadb-search/src/hnsw.rs:347-369 | a list becomes min(m, all) of its distinct links, nearest first by the metric, each nearer than every link dropped |
| VectorIndex.HnswIndex.LinkBack | crates/ordadb-search/src/hnsw.rs:234-237 | each chosen node keeps the m nearest of its links and the new node, each nearer than those dropped |
| VectorIndex.HnswIndex.ConnectLevel | crates/ordadb-search/src/hnsw.rs:220-242 | one level: the new node links to the m nearest nodes a sound search found, those keep the nearest of their links and it, the nearest found is handed on, nothing else changes, the graph stays sound |
| VectorIndex.HnswIndex.Insert | crates/ordadb-search/src/hnsw.rs:205-248 | an insertion keeps the graph invariant; on each level the new node and those it links to keep their nearest, as a sound search of the graph before found them, with each search starting at the nearest found one level up; it fails only on a refused distance |
| HnswGraph.LinkingKeepsGraphSound | crates/ordadb-search/src/hnsw.rs:233-238 | linking a node into a level keeps at most m distinct links to other present nodes in every list |
| HnswGraph.BeamOnGraphBefore | crates/ordadb-search/src/hnsw.rs:221-226 | a search during an insertion is a search of the graph before it |
| VectorIndex.HnswIndex.ValidateGraph | crates/ordadb-search/src/hnsw.rs:371-406 | the final check tests exactly its listed conditions |
| VectorIndex.BuiltGraphIsChecked | crates/ordadb-search/src/hnsw.rs:108-109 | after a build the final check cannot fail |
| VectorIndex.BuildableIff | crates/ordadb-search/src/types.rs:250-280 | a build demands dimensions and ef_search from 1 to their limits, m from 2 to 64, ef_construction from m to 4096, no more records than allowed, each of the right dimension and acceptable, no row twice |
| VectorIndex.Build | crates/ordadb-search/src/hnsw.rs:72-110 | a build holds the records in row order; it succeeds only on sound settings, distinct rows and acceptable vectors, and always does then if all distances are finite |
| WireRoundTrip.DecodeInvertsEncode | crates/ordadb-protocol/src/codec.rs:247-344 | every message within the limits is read back from its payload |
| WireRoundTrip.DecodedWasEncoded | crates/ordadb-protocol/src/codec.rs:247-344 | an accepted payload is exactly the encoding of the message returned |
| WireRoundTrip.DecodesIffEncoding | crates/ordadb-protocol/src/codec.rs:247-344 | a payload is accepted if and only if it encodes some message within the limits |
| Utf8.ValidIffText | crates/ordadb-protocol/src/codec.rs:643-657 | text is accepted exactly if it encodes a sequence of Unicode scalar values |
| PayloadDecoder.Cursor.Text | crates/ordadb-protocol/src/codec.rs:643-657 | the scan for the terminator, the limit and the UTF-8 check |
| PayloadDecoder.Cursor.Parameters | crates/ordadb-protocol/src/codec.rs:274-285 | the loop over length-prefixed parameters |
| PayloadDecoder.DecodeFrontend | crates/ordadb-protocol/src/codec.rs:247-344 | the cursor-driven decoder of every message kind |
| FrontendPolling.ReadFrontendMessage | crates/ordadb-protocol/src/codec.rs:229-245 | the one-shot reader over a connection |
| FrontendPolling.FrontendMessageReader.PollOnce | crates/ordadb-protocol/src/codec.rs:76-123 | one poll over the reader's own buffers |
| FrontendPolling.FrontendMessageReader.TakeWhole | crates/ordadb-protocol/src/codec.rs:147-163 | delivers a complete frame and resets the reader before decoding |
| FrontendPolling.FrontendMessageReader.PrepareBuffer | crates/ordadb-protocol/src/codec.rs:125-145 | allocates the payload once the header is complete and its length sound |
| Frames.FrameIsWholeIff | crates/ordadb-protocol/src/codec.rs:229-245 | a frame is whole exactly if its big-endian length is from 4 up to the limit and that many bytes follow the tag |
| Frames.ReadTakesIff | crates/ordadb-protocol/src/codec.rs:229-245 | what a blocking read takes and answers: a whole frame and what it decodes to, five bytes and 08P01 on a bad length, otherwise all there is, a clean end if that is nothing and 08006 if it is part of a frame |
| Frames.ReadDeliversNextEvent | crates/ordadb-protocol/src/codec.rs:229-245 | a blocking read delivers the first of the events of the stream and leaves exactly the rest of them |
| Frames.PollAgrees | crates/ordadb-protocol/src/codec.rs:76-163 | one poll either keeps the undelivered bytes or delivers the next event of the one-shot reader, taking no byte past the frame |
| Frames.ChunkingMakesNoDifference | crates/ordadb-protocol/src/codec.rs:75-164 | for any split into reads with any time-outs and failures between, polls deliver a prefix of the one-shot reader's events, and all of them once enough reads came through |
| Frames.ClosedExactlyOnBoundary | crates/ordadb-protocol/src/codec.rs:95-103 | a close is reported exactly at the end of the stream on a frame boundary |
| Frames.BadLengthIsFinal | crates/ordadb-protocol/src/codec.rs:125-133 | after a bad length every poll fails and takes nothing |
| Conversation.SentIsReceived | crates/ordadb-protocol/src/codec.rs:75-245 | framed messages come out in order, once each, followed by the close |
| Optimizer.BuildPlan | crates/ordadb-optimizer/src/lib.rs:99-218 | the rebinding of the plan builds the specified tree |
| OptimizerMeaning.FoldingAgreesUnlessUnknown | crates/ordadb-optimizer/src/lib.rs:313-332 | a folded filter evaluates to the folded truth unless it is unknown |
| OptimizerMeaning.NoNullBeneathNotFoldsRight | crates/ordadb-optimizer/src/lib.rs:313-332 | without NULL beneath NOT no unknown filter is folded to true |
| OptimizerMeaning.NotNullLetsEverythingThrough | crates/ordadb-optimizer/src/lib.rs:316-320 | the folding of NOT NULL lets every row through though none passes |
| OptimizerMeaning.ReverseMeansSwapped | crates/ordadb-optimizer/src/lib.rs:334-342 | reversing an operator swaps its operands |
| OptimizerMeaning.IndexFindsPassing | crates/ordadb-execution/src/execution_parts/cursor_and_pipeline.rs:516-575 | an index scan finds only rows that pass the filter, and all of them exactly if none lies outside the range of the key in the index's own order |
| OptimizerMeaning.IndexMissesOnlyTies | crates/ordadb-index/src/index/types.rs:170-260 | where the index order refines the comparison, a row is missed exactly if it ties with the key on the side the operator's range leaves out |
| OptimizerMeaning.PlanYieldsUnlessTied | crates/ordadb-optimizer/src/lib.rs:99-218 | then the plan yields exactly the rows asked for, if and only if no unknown is folded to true over rows, the key is usable, and no row ties with it |
| OptimizerMeaning.AgreeingIndexLosesNothing | crates/ordadb-optimizer/src/lib.rs:99-218 | an index whose order agrees with the comparison never loses a row: the plan yields exactly the rows asked for unless an unknown is folded to true over rows or the key is unusable |
| OptimizerMeaning.FloatsRefine | crates/ordadb-index/src/index/types.rs:193-198 | the index order of floats refines their comparison |
| OptimizerMeaning.FloatIndexMissesOppositeZero | crates/ordadb-index/src/index/types.rs:193-198 | over floats a row is missed exactly if it holds the opposite zero of the key: either for `=`, the positive one for `<=`, the negative one for `>=` |
| OptimizerMeaning.FloatPlanYieldsUnlessOppositeZero | crates/ordadb-optimizer/src/lib.rs:99-218 | over floats a plan yields exactly the rows asked for, if and only if no unknown is folded to true over rows, the key evaluates, and no row holds its opposite zero in that way |
| OptimizerMeaning.IndexMissesNegativeZero | crates/ordadb-index/src/index/types.rs:193-198 | an index scan for zero does not find the negative zero, which passes the filter |
| OptimizerMeaning.UnboundKeyFailsOverNothing | crates/ordadb-execution/src/execution_parts/cursor_and_pipeline.rs:530-535 | an unbound key fails an index scan of an empty table, which a sequential scan passes |
| OptimizerMeaning.PlanYieldsWhatIsAsked | crates/ordadb-optimizer/src/lib.rs:99-218 | whichever access path is picked the plan yields exactly the rows the filter asks for, if and only if it is not an unknown folded to true over a non-empty table, and an index scan has a usable key and misses no row |
| Comparisons.ComparisonPassesIff | crates/ordadb-execution/src/execution_parts/expression_evaluation.rs:123-142 | a comparison with a literal, on either side, lets a row through exactly if neither side is NULL and the column is below, at most, equal to, unequal to, at least or above the literal, as the operator says |
| Comparisons.ScanReachesIff | crates/ordadb-execution/src/execution_parts/cursor_and_pipeline.rs:556-575 | an index scan reaches exactly the rows on the named side of its key, with the bound excluded for `<` and `>` |
| Comparisons.IndexIsUsedIff | crates/ordadb-optimizer/src/lib.rs:220-266 | an index is used exactly if the costs prefer it, the operator has a range, and a tree index on the column alone exists, and then the first such |
| Comparisons.ComparisonPlanYields | crates/ordadb-optimizer/src/lib.rs:99-218 | the plan of a comparison yields exactly the bag of rows of which it is true, if and only if an index scan, where used, has a usable key and leaves no such row outside the range written out per operator |
| OptimizerMeaning.PlanOfFailingQuery | crates/ordadb-optimizer/src/lib.rs:99-218 | where the query fails, a plan succeeds exactly if its index has a usable key and leaves out every failing row, and then yields only rows that pass |
| OptimizerMeaning.SequentialPlanFailsAlike | crates/ordadb-optimizer/src/lib.rs:122-155 | a plan without an index fails exactly where the query does |
| OptimizerMeaning.EvalReadsOnlyItsColumns | crates/ordadb-optimizer/src/lib.rs:268-311 | an expression means the same on rows that agree on the columns collected from it |
| OptimizerMeaning.RequiredColumnsSuffice | crates/ordadb-optimizer/src/lib.rs:107-121 | blanking every column outside the required ones changes neither the rows nor the outputs nor any row's sort keys |
| OptimizerMeaning.SortKeysOfBlanked | crates/ordadb-optimizer/src/lib.rs:114-120 | nor do other columns matter to the keys rows are sorted by |
| OptimizerMeaning.SortKeysAre | crates/ordadb-execution/src/execution_parts/cursor_and_pipeline.rs:590-646 | a row is sorted by the value of each ORDER BY item in order: its expression, or else its column |
| PlanPaging.RunPipeline | crates/ordadb-execution/src/execution_parts/cursor_and_pipeline.rs:83-160 | the loop over chunks, with the counters kept in the frames |
| PlanPaging.PipelineOfPlan | crates/ordadb-execution/src/execution_parts/cursor_and_pipeline.rs:430-514 | a plan's pipeline filters, skips, limits and projects in that order; a LIMIT or OFFSET that is no count fails it, LIMIT first |
| PlanPaging.CountsAre | crates/ordadb-execution/src/execution_parts/expression_evaluation.rs:276-310 | OFFSET and LIMIT may be NULL, for none and no limit, or a non-negative 64-bit integer; anything else fails |
| PlanPaging.ProjectedRowIs | crates/ordadb-execution/src/execution_parts/cursor_and_pipeline.rs:320-349 | a row is projected to the values of the outputs in order, and fails if one has none |
| PlanPaging.ChunksMakeNoDifference | crates/ordadb-execution/src/execution_parts/cursor_and_pipeline.rs:278-381 | however rows are cut into chunks the pipeline yields the same rows and ends in the same counters |
| PlanPaging.FilterRearranged | crates/ordadb-execution/src/execution_parts/cursor_and_pipeline.rs:285-323 | filtering rows in another order fails where filtering them does, and else keeps the same bag |
| PlanPaging.StreamedPlanYieldsPage | crates/ordadb-optimizer/src/lib.rs:190-217 | a plan without ORDER BY, over a scan that hands on its rows in any order, yields the projection of the slice OFFSET and LIMIT make of the filtered rows in that order, an arrangement of the plan's bag of rows, and fails exactly if a row below cannot be filtered or one of the slice projected |
| PlanPaging.SortedPlanYieldsPage | crates/ordadb-optimizer/src/lib.rs:176-217 | the same of a plan with ORDER BY, for whatever arrangement its sort makes of that bag; it fails where its filter does, where the sort does, or on a row of the slice, and nowhere else |
| PlanPaging.PageOfProjection | crates/ordadb-optimizer/src/lib.rs:190-217 | projecting commutes with OFFSET and LIMIT |
| Memory.CounterAccountsForReservations | crates/ordadb-execution/src/memory.rs:77-134 | over every interleaving the counter is what reservations and pending calls account for, within the hard limit, and at rest the sum of the reservations and no higher than the peak |
| Memory.CreditStaysWithinLimit | crates/ordadb-execution/src/memory.rs:148-155 | the second addition of a growth cannot overflow |
| Memory.TransferStaysWithinLimit | crates/ordadb-execution/src/memory.rs:169-187 | nor can a transfer overflow its target |
| Memory.ReturnNeverSaturates | crates/ordadb-execution/src/memory.rs:112-133 | a returning exchange always observed at least the bytes it returns |
| Memory.RefusedOnlyIfFull | crates/ordadb-execution/src/memory.rs:77-111 | over every interleaving bytes are refused only if at some moment they did not fit under the hard limit, and with nobody else at the counter exactly if they do not fit now |
| Memory.PeakIsHighest | crates/ordadb-execution/src/memory.rs:97-106 | over every interleaving the recorded peak is at most the highest the counter ever was, and exactly that whenever no exchange has yet to note what it reached |
| Memory.EverythingIsReturned | crates/ordadb-execution/src/memory.rs:199-204 | when no reservation is left the counter is zero |

## Left out

- Serializability: only read/write dependencies are tracked by the program, so no such claim is made.
- Exact nearest neighbours and `search`: level-0 exploration stops at its visit limit and drops nodes it has measured, so its result is a heuristic; only building, greedy descent and the layer search are modelled.
- Search limits of queries, results and text documents: only the limits a vector build goes by are modelled.
- The level a node is drawn to: any function of the row id; the bit mixing behind it would add nothing to the claims.
- Pool storage resets: `reset_storage`, `invalidate_pages` and `resize_pages` of the buffer pool are not steps of the runs.
- Pin counts: unbounded in the model, saturating at the machine word in the program.
- Lock and pool mutex poisoning, condition variables and wall-clock time: a wake-up, a time-out or a cancellation may come at any step.
- Read-only database files, file creation and `sync`: the model has the bytes only.
- Optimizer costs, row estimates and `choose_join_strategy`: floating point whose only effect is the choice the model leaves open.
- The order a sort or an index brings rows into: `RowsOf` lists the bag in table order; paging is stated for every order in which a scan may hand on its rows and every arrangement a sort may make of them.
- The columnar fast path of a filter: taken to mean what evaluating the filter means.
- Which coercions succeed: any function from values and types to keys that maps only NULL to NULL.
- Value decoding in place: stored rows are encoded and decoded as values; the decoder's cursor is not a class as the log's is.
- Soft memory limit: it is only reported, nothing depends on it.
- Startup packets and the backend's message writers: easy members next to the frontend reader.
- Allocation failure of a frame's payload: memory is unbounded.
- Recovery of the log itself, versions, the catalog, SQL binding, execution operators, cluster, migration, tools and the console: outside the modelled files.
