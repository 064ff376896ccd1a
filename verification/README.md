# DBx1000 concurrency control, verified

DBx1000 is a collection of in-memory concurrency-control algorithms.  Each is a state machine
per row plus a commit routine per transaction, and each is meant to make every interleaving of
its transactions equivalent to running them one after the other.  This project models six of
them in the default configuration (atomic words, serializable isolation, no-wait validation,
pre-abort) and proves what they are for:

* **TicToc**: the committed transactions, ordered by commit timestamp, replay serially with every
  value their bodies were given and the same final rows, in every run of every number of threads
  in which no retried renewal shortens a lease; one that does breaks this.  A transaction that
  nobody disturbs commits, at the least timestamp its accesses allow.
* **Silo**: the same, ordered by the moment each transaction held its last write lock, and with the
  least tid.
* **MVCC**: on every row a read is served the newest version below its timestamp among all
  versions ever committed, whatever is buffered, aborted, collected or evicted, and its buffer is
  that version's exactly until the row forgets the version; over a whole database, as long as no
  old read is misled and nobody looks at a forgotten version's buffer, the committed transactions
  replay serially in timestamp order; and the transaction with the smallest timestamp never waits
  and reaches its end alone.
* **OCC** with per-row validation: the order of the end timestamps is a serial order, and sorted
  latching closes no circle.
* **Strict two-phase locking** (NO_WAIT, WAIT_DIE, DL_DETECT): the order of commits is a serial
  order, an abort leaves no trace, WAIT_DIE never deadlocks, and every deadlock of DL_DETECT
  whose waits have been published is one the detector reports.
* **The deadlock detector**: it reports a cycle exactly when one can be reached, and tells the
  transaction on it with the fewest locks to abort.

## How the project is laid out

`Serial.dfy` says what a serial history is; every protocol is proved against it.
`SerialOrder.dfy` puts such a history beside the version histories of the rows, for the three
protocols that order transactions by timestamp; `Versions.dfy` and `AccessList.dfy` hold what
the optimistic protocols share, and `Bits.dfy` what masks and shifts do to a word.  `Ledger.dfy`
keeps an account of what the body of every transaction is handed and sets in a run, read off the
steps alone; the serializability theorems of TicToc, Silo, OCC and two-phase locking include that
the commit log reports exactly these accounts (`TicTocReports.dfy`, `SiloReports.dfy`,
`OccReports.dfy`, `TwoPhaseReports.dfy`); `MvccDbLooks.dfy` does the same for what the bodies of
multi-version transactions look at.

A protocol whose threads interleave is a transition system: one step per atomic access to a
shared word, per copied cell, or per latched section (`TicToc.dfy`, `Silo.dfy`, `Mvcc.dfy` for
one row and `MvccDb.dfy` for a database, `Occ.dfy`, `TwoPhase.dfy`), with its proof beside it
(`TicTocProof.dfy`, `SiloProof.dfy`, `MvccDbSys.dfy` for what holds of every run of the
database and `MvccDbProof.dfy` for what its transactions see, `OccProof.dfy`,
`TwoPhaseProof.dfy`, `LockWaits.dfy`, and `LockDeadlocks.dfy` for two-phase locking together with
the detector's table).  What a thread achieves when nobody disturbs it is in
`TicTocAlone.dfy`, `SiloAlone.dfy` and `OccAlone.dfy`.  Runs that show what the code does not
promise are in `TicTocRetry.dfy`, `MvccRuns.dfy` and `MvccDbRuns.dfy`.  History variables (the versions ever committed, the serial order, the commit
log) exist only for the proofs and guard no step; the timestamps handed out are recorded so that
each is handed out once.

What one thread does between two such points changes fields and arrays in place, and is a class
with methods and loops proved against the functions the transition systems use: `RowTicToc`,
`RowSilo`, `RowMvcc`, `RowOcc`, `RowLock`, `DlDetect`, `TxnMan`, `CommitLocks` and `TicTocSets`.

Throughout, transaction timestamps are unique, one transaction touches a row at most once, and
an access is a read or a write.  Atomic accesses are sequentially consistent.

## What turned out not to hold as documented

* A TicToc renewal that loses its compare-and-swap compares an absolute timestamp with a lease
  length before it tries again (`row_tictoc.cpp:159-162`).  `TicTocWord.RetryShortens` is an
  input on which it takes a granted lease back, `TicTocWord.RetryShortensWhen` says exactly when
  it does, and `TicTocRetry.RetryBreaksSerializability` is a run of three threads from the start,
  over two rows, after which no order of the committed transactions explains what they have read.
  The run theorems follow a retry only where it cannot shorten a lease.
* The lookup of an old version keeps its best candidate in 32 bits (`row_mvcc.cpp:169`).
  `MvccRuns.LookupGoesWrong` is a run in which a read is given the wrong version;
  `MvccHistory.ScanFindsNewest` and `Mvcc.LookupIsRight` say exactly when the right one is found.
  Timestamps taken from a clock in nanoseconds are in that range.
* Forced eviction ignores the smallest active timestamp and hands the oldest version's buffer to
  the new reservation, under whoever still reads it (`row_mvcc.cpp:305-351`).
  `MvccDbRuns.ReaderIsOverwritten` is a run from the start in which two looks of one committed
  transaction at one row show different values.  `Mvcc.BufferStays` says exactly how long a
  buffer is its version's, `Mvcc.OnlyEvictionForgets` that nothing but a forced eviction takes a
  version from an active read, `Mvcc.EvictForgets` which reads are turned away by it, and
  `MvccDbProof.Serializable` asks of a run that no read looks at a forgotten version.
* Without pre-abort, a commit whose bounded back-off gives up releases locks it has released
  already (`silo.cpp:88-113`, `tictoc.cpp:127-164`).  `CommitLocks.Validation.Commit` says
  exactly when, and `CommitLocks.UnheldRelease` is such a commit.
* The deadlock detector casts the ids on its search path to 32 bits (`dl_detect.cpp:88`).
  `WaitsFor.WideDeadlock` is a deadlock it cannot see; `WaitsFor.CastAgrees` says for which ids
  the comparison is right, and below 2^31 `DlDetect.DlDetect.DetectCycle` is exact.
* If every thread on a cycle holds at least 1000 locks there is no victim, and the missing id is
  reduced to a thread all the same (`dl_detect.cpp:141-152`): the last case of
  `DlDetect.Sentenced`.
* The comment at `row_lock.h:37` says that the oldest waiter comes first.  Under WAIT_DIE the
  code keeps the youngest first, and the proofs follow the code.

## Model

| member | source | states |
|---|---|---|
| TicTocProof.Serializable | concurrency_control/tictoc/tictoc.cpp:61-267 | after any run the commit log reports, for every commit, exactly the values that were handed to the transaction's body and those it has set; sorted by commit timestamp it replays serially with exactly these values, and once nothing is being installed every row holds the result of that replay |
| TicTocProof.RunReports | concurrency_control/tictoc/tictoc.cpp:12-24 | in every run, no access is lost or invented between the access list, the write set and read set, and the commit |
| TicTocProof.ReadsAreNewest | concurrency_control/tictoc/tictoc.cpp:189-205 | every value handed to the body of a committed transaction is the version with the largest write timestamp not above its commit timestamp, or the one right before its own where it writes the row, among all versions committed by the end of any continuation of the run |
| TicTocProof.StepKeeps | concurrency_control/tictoc/tictoc.cpp:109-267 | every step of every thread keeps the invariant: locks belong to the thread and write-set position that took them, leases promise what no later commit breaks, the order is serial |
| TicTocProof.AcceptedCopy | concurrency_control/row_tictoc.cpp:37-56 | a copy taken cell by cell that the final comparison accepts is the contents of exactly the one version the word names |
| TicTocProof.CommitReadsHistory | concurrency_control/tictoc/tictoc.cpp:182-205 | when a thread commits, every value its body was handed is what the serial history holds at its commit timestamp |
| TicTocProof.CommitIsUntouched | concurrency_control/tictoc/tictoc.cpp:182-186 | no transaction already placed after the new one has read or written a row it writes |
| TicTocProof.SwapExtends | concurrency_control/row_tictoc.cpp:153-157 | a successful swap gives the read a lease that ends at the commit timestamp and fixes the value it copied there; no value that was fixed on any row before, by any lease, is given up |
| TicTocAlone.CommitsAlone | concurrency_control/tictoc/tictoc.cpp:61-267 | from any state in which nobody has locked or changed the rows since a thread read them, that thread alone reaches a commit, for any number of reads and writes: its timestamp is the least one its accesses allow, its rows hold what it has set, its reads are renewed, nothing else changes |
| TicTocAlone.Reading | concurrency_control/row_tictoc.cpp:37-56 | any row that is not locked can be read, whatever the thread has read before |
| TicToc.CommitTs | concurrency_control/tictoc/tictoc.cpp:63-76 | no smaller than the write timestamp of any version read and larger than the lease of any version to be overwritten |
| TicTocSets.ChooseCommitTs | concurrency_control/tictoc/tictoc.cpp:63-76 | the two running maxima and their join give the least such timestamp |
| TicTocSets.SplitSets | concurrency_control/tictoc/tictoc.cpp:12-24 | the two index lists pick exactly the writes and exactly the reads, in access order |
| TicTocWord.Renewal | concurrency_control/row_tictoc.cpp:118-152 | for every gap, also beyond 15 bits: early success means the lease already covers the request, failure means the version is locked or replaced, and a planned swap is unlocked, fits 15 bits, moves wts by whole multiples of 2^15 and not beyond rts, and decodes to exactly the requested rts |
| TicTocWord.PackIsLossless | concurrency_control/row_tictoc.h:18-23 | decoding an encoded word gives back lock bit, lease length and write timestamp |
| TicTocWord.MasksUnpack | concurrency_control/row_tictoc.cpp:207-215 | the three masks and the shift take any 64-bit word apart into exactly its lock bit, write timestamp and lease length |
| TicTocWord.MaskCompares | concurrency_control/row_tictoc.cpp:37-37 | two words agree under the lease mask exactly when they agree in lock bit and write timestamp |
| TicTocWord.MaskStores | concurrency_control/row_tictoc.cpp:80-81 | clearing both timestamps with the complemented mask and or-ing in the new one gives the encoding of an empty lease at it, lock bit kept |
| TicTocWord.MaskRenews | concurrency_control/row_tictoc.cpp:150-152 | the word put together for a renewal is the encoding of the two timestamps, unlocked |
| TicTocWord.MaskSplits | concurrency_control/row_tictoc.cpp:144-148 | the two masks of a rebase split the lease length at its 15th bit |
| TicTocWord.UnpackIsLossless | concurrency_control/row_tictoc.h:18-23 | encoding what was decoded gives back the word |
| TicTocWord.RetryShortensWhen | concurrency_control/row_tictoc.cpp:153-162 | a retried swap takes a lease back if and only if the lease it found ends after the requested end by no more than the version's timestamp |
| TicTocWord.RetryShortens | concurrency_control/row_tictoc.cpp:159-162 | a concrete lease up to 18 is cut to 15, below which a writer may then commit |
| TicTocRetry.RetryBreaksSerializability | concurrency_control/row_tictoc.cpp:153-162 | a run of three threads from the initial state, with the retry as it is written, after which no permutation of the commit log replays serially |
| TicTocRetry.NoOrder | concurrency_control/tictoc/tictoc.cpp:182-205 | two transactions that have read the first values of two rows and have each changed one of them have no serial order among transactions that read only first values |
| RowTicToc.RowTicToc.TryRenew | concurrency_control/row_tictoc.cpp:114-166 | without interference the word is untouched or holds exactly the requested lease unlocked; success means it covers the request; a spurious failure of a rebasing swap is a failure |
| RowTicToc.RowTicToc.WriteData | concurrency_control/row_tictoc.cpp:67-96 | the data is replaced, the lock kept, and the decoded word then says wts = rts = the commit timestamp |
| RowTicToc.RowTicToc.TryLock | concurrency_control/row_tictoc.cpp:245-257 | succeeds exactly on an unlocked word and changes nothing but the lock bit |
| RowTicToc.RowTicToc.Release | concurrency_control/row_tictoc.cpp:259-268 | clears the lock bit and nothing else |
| RowTicToc.RowTicToc.GetTsWord | concurrency_control/row_tictoc.cpp:207-215 | lock bit, write timestamp and absolute end of the lease of the stored word |
| CommitLocks.Validation.Commit | concurrency_control/silo/silo.cpp:69-176 | through every retry and abort jump each acquired lock is released exactly once, and all are held while the reads are validated; a lock is released that is not held if and only if pre-abort is off and the bounded back-off gives up after a round that took some |
| CommitLocks.UnheldRelease | concurrency_control/tictoc/tictoc.cpp:127-164 | a commit of two rows that releases a lock it no longer holds |
| CommitLocks.EndingIs | concurrency_control/silo/silo.cpp:69-121 | the loop over the rounds ends as the first round does that is not repeated after meeting a locked row: with every lock if no row is locked or changed, else as the first such row says |
| CommitLocks.Validation.LockRound | concurrency_control/tictoc/tictoc.cpp:112-123 | a round holds exactly the locks before the first row that is locked or has changed |
| SiloProof.Serializable | concurrency_control/silo/silo.cpp:69-176 | after any run the commit log reports, for every commit, exactly the values that were handed to the transaction's body and those it has set; sorted by lock point it replays serially with exactly these values, and once nothing is being installed every row holds the result |
| SiloProof.RunReports | concurrency_control/silo/silo.cpp:26-31 | in every run, no access is lost or invented between the access list, the write set and read set, and the commit |
| SiloProof.StepKeeps | concurrency_control/silo/silo.cpp:69-176 | every step of every thread keeps the invariant |
| SiloProof.AcceptedCopy | concurrency_control/row_silo.cpp:28-43 | a copy taken cell by cell that the final comparison accepts is the contents of exactly the one version its tid names, though writers copy cells under the old tid |
| SiloProof.WriteRow | concurrency_control/silo/silo.cpp:145-158 | after validation every row of the write set is held, unchanged since it was read, and its tid does not exceed the largest tid met; the tid chosen next exceeds both that and the thread's own last one |
| SiloProof.CommitReadsHistory | concurrency_control/silo/silo.cpp:134-154 | when a thread commits, every value its body was handed is what the serial history holds at its lock point |
| SiloAlone.CommitsAlone | concurrency_control/silo/silo.cpp:69-176 | from any state in which nobody has locked or changed the rows since a thread read them, that thread alone reaches a commit, for any number of reads and writes: its tid is the least one above all it met and its own last one, its rows hold what it has set, nothing else changes |
| SiloProof.CommitIsUntouched | concurrency_control/silo/silo.cpp:134-143 | no transaction with a later lock point that committed first has read or written a row the new one writes |
| RowSilo.RowSilo.Validate | concurrency_control/row_silo.cpp:59-72 | a read row passes exactly when it is unlocked and still the version read, a written row exactly when it is still the version read |
| RowSilo.RowSilo.Write | concurrency_control/row_silo.cpp:89-99 | the data is replaced, the tid grows, the lock is kept |
| RowSilo.RowSilo.TryLock | concurrency_control/row_silo.cpp:126-137 | succeeds exactly on an unlocked word, which is locked afterwards with its tid unchanged |
| RowSilo.RowSilo.Release | concurrency_control/row_silo.cpp:116-124 | unlocks and keeps the tid |
| MvccDbProof.Serializable | storage/row.cpp:101-120 | over a whole database, with transactions looking through the buffers they were handed, after any run in which no old lookup is misled and no read looks at a forgotten version the committed transactions, sorted by timestamp, are a permutation of the commit log and replay serially; the log has an entry for every commit that has seen exactly what every single look of its body has shown; and once no committed transaction has rows to return the latest versions are the result |
| MvccDbLooks.RunLooks | storage/row.cpp:101-120 | in every run, careful or not, the accesses of every thread, and the record of the committed transactions, list exactly the looks their bodies have taken |
| MvccDbProof.RememberedMeans | concurrency_control/row_mvcc.cpp:305-351 | a granted read's buffer is where its version is stored if and only if the row's oldest version is older than the read |
| MvccDbProof.StepSees | storage/row.cpp:101-120 | through every careful step of any thread every look of every transaction stays equal to the newest version before it, and every read's buffer stays the one of that version |
| MvccDbRuns.ReaderIsOverwritten | concurrency_control/row_mvcc.cpp:305-351 | a run from the initial state after which the outcome is not serial: four commits fill the slots, a fifth write takes the buffer of an active read, and the two looks of that committed read differ |
| MvccDbSys.StepKeepsSys | concurrency_control/row_mvcc.cpp:119-232 | every step of every run, careful or not, keeps the correspondence between pending writes, buffered requests and the accesses and waits of the threads |
| MvccDbSys.SomebodyRuns | concurrency_control/row_mvcc.cpp:150-193 | in every reachable state of every run with an active transaction, the one with the smallest timestamp waits for nobody, and running alone it commits, unless it has been aborted already, and returns all its rows |
| MvccDbSys.WaitsForEarlier | concurrency_control/row_mvcc.cpp:150-193 | a waiting transaction waits for the pending write of an active transaction with a smaller timestamp |
| MvccDbProof.CommitFits | system/txn.cpp:233-263 | at its commit, a transaction has read the serial history as of its timestamp, and no later transaction has read or written a row it writes |
| MvccDbProof.ReturnOrder | storage/row.cpp:158-176 | returning a written row, with everything it wakes, changes no row's history and keeps the serial order |
| MvccDbSys.RequestKeeps | storage/row.cpp:101-120 | a granted, buffered or refused request keeps the correspondence |
| Mvcc.ReadsStaySafe | concurrency_control/row_mvcc.cpp:146-221 | a version served to a read at ts is the newest below ts among all versions ever committed, then and in every later state of the run, through buffering, aborts, collection and eviction |
| Mvcc.BufferStays | concurrency_control/row_mvcc.cpp:234-352 | the buffer handed to a read is where its version is stored, intact, in every later state of the run if and only if the row's oldest version is not newer than it |
| Mvcc.OnlyEvictionForgets | concurrency_control/row_mvcc.cpp:239-322 | with an honest smallest active timestamp, a reservation takes the version of an active read away if and only if it is forced to evict one no older than the read |
| Mvcc.EvictOverwrites | concurrency_control/row_mvcc.cpp:305-351 | the reservation behind a forced eviction overwrites the buffer of the oldest remembered version with a copy of the latest one |
| Mvcc.LookupIsRight | concurrency_control/row_mvcc.cpp:166-185 | above the oldest version a lookup hands out the buffer of the newest version below ts if and only if no stored version misleads it |
| Mvcc.StepKeeps | concurrency_control/row_mvcc.cpp:119-232 | every request keeps the row invariant, and neither committed versions nor served reads are ever forgotten by the history |
| Mvcc.SlotsAccounted | concurrency_control/row_mvcc.cpp:234-352 | in every reachable state the version count is exact, the reserved slots are the valid ones plus the one pending write, and its buffer aliases neither the latest row nor any version |
| Mvcc.BufferedWait | concurrency_control/row_mvcc.cpp:139-145 | whatever waits in the buffer of a reachable row waits for a pending write with _latest_wts < _prewrite_ts < its timestamp |
| Mvcc.ReadKeeps | concurrency_control/row_mvcc.cpp:146-185 | a read aborts exactly when its version is recycled, waits exactly when an older write is pending, and otherwise gets the buffer of the newest version below its timestamp if and only if it asks for the latest one or its lookup is not misled |
| Mvcc.PrewriteKeeps | concurrency_control/row_mvcc.cpp:186-202 | a prewrite aborts, waits or is reserved exactly as the timestamps demand; a reserved buffer starts as a copy of the latest version |
| Mvcc.UpdateKeeps | concurrency_control/row_mvcc.cpp:354-388 | a finish answers exactly the reads below the next pending write, with the latest version, and promotes exactly that write; every request is answered once or still waits; the largest timestamp served is the old one or that of a read it answers |
| Mvcc.WakeConserves | concurrency_control/row_mvcc.cpp:366-387 | the waiting requests before are those still waiting plus those woken, as multisets |
| Mvcc.InstallKeeps | concurrency_control/row_mvcc.cpp:203-214 | committing the reserved buffer changes no version a served read may have got |
| Mvcc.DropKeeps | concurrency_control/row_mvcc.cpp:215-221 | dropping the reservation leaves every version where it is |
| Mvcc.CollectKeeps | concurrency_control/row_mvcc.cpp:239-272 | collection keeps the row invariant and forgets only versions below the smallest active timestamp |
| Mvcc.CollectFrees | concurrency_control/row_mvcc.cpp:239-272 | of a full row with a version below the smallest active timestamp, the newest such version becomes the base, the slots of all versions up to it are freed and all newer ones stay; any other row is left alone |
| Mvcc.PromoteMakesRoom | concurrency_control/row_mvcc.cpp:234-352 | the four ways a reservation finds its slot, in order: by collecting, in a free slot, by evicting the oldest version when there are as many slots as threads, in the first of as many new slots |
| Mvcc.CollectKeepsLookups | concurrency_control/row_mvcc.cpp:239-272 | collection and doubling change the answer of no lookup at or after the smallest active timestamp that was right before |
| Mvcc.EvictKeeps | concurrency_control/row_mvcc.cpp:305-322 | forced eviction keeps the row invariant and forgets exactly the oldest stored version, never the latest |
| Mvcc.EvictForgets | concurrency_control/row_mvcc.cpp:305-322 | of the reads that could be answered before a forced eviction exactly those before the evicted timestamp are turned away after it, the others find the same version |
| Mvcc.DoubleKeeps | concurrency_control/row_mvcc.cpp:72-94 | doubling keeps the row invariant, changes no lookup and leaves the slot behind the old ones free |
| Mvcc.PlaceKeeps | concurrency_control/row_mvcc.cpp:336-351 | the reserved buffer holds a copy of the latest version and is the buffer of no version |
| MvccHistory.ScanFindsNewest | concurrency_control/row_mvcc.cpp:169-183 | the lookup finds the newest stored version below ts if and only if no later slot holds an older one that exceeds the newest one's timestamp modulo 2^32 |
| MvccRuns.LookupGoesWrong | concurrency_control/row_mvcc.cpp:166-185 | a run of a row from its initial state, with commits at 7, 2^32 + 5 and 2^32 + 10, in which a read at 2^32 + 8 is given the version of 7 |
| RowMvcc.RowMvcc.ReadRow | concurrency_control/row_mvcc.cpp:146-185 | the in-place read request does to the row what Mvcc.Read says, with the same answer |
| RowMvcc.RowMvcc.PrewriteRow | concurrency_control/row_mvcc.cpp:186-202 | the in-place prewrite request does what Mvcc.Prewrite says |
| RowMvcc.RowMvcc.Write | concurrency_control/row_mvcc.cpp:203-214 | the in-place commit installs the buffer and wakes what Mvcc.Update says |
| RowMvcc.RowMvcc.Cancel | concurrency_control/row_mvcc.cpp:215-221 | the in-place abort drops the reservation and wakes what Mvcc.Update says |
| RowMvcc.RowMvcc.ReserveRow | concurrency_control/row_mvcc.cpp:234-352 | collecting, scanning, evicting or doubling in the arrays refines Mvcc.Promote, makes room in the one way the slots and the smallest active timestamp call for, and leaves a copy of the latest version in the reserved buffer |
| RowMvcc.RowMvcc.UpdateBuffer | concurrency_control/row_mvcc.cpp:354-388 | the two scans of the request array refine Mvcc.Update |
| RowMvcc.RowMvcc.BufferReq | concurrency_control/row_mvcc.cpp:45-66 | the first free entry takes the request, after at most one doubling |
| RowMvcc.RowMvcc.Find | concurrency_control/row_mvcc.cpp:169-179 | the scan of the slot array with its truncated candidate is MvccHistory.Scan |
| RowMvcc.RowMvcc.FindBelow | concurrency_control/row_mvcc.cpp:244-254 | the newest valid version below the limit |
| RowMvcc.RowMvcc.FindOldest | concurrency_control/row_mvcc.cpp:308-314 | the oldest valid version |
| RowMvcc.RowMvcc.FindFree | concurrency_control/row_mvcc.cpp:287-303 | the first unused slot that has a buffer, else the last unused one |
| RowMvcc.RowMvcc.FindNextPre | concurrency_control/row_mvcc.cpp:359-364 | the smallest timestamp of a waiting write after ts |
| OccProof.Serializable | concurrency_control/occ/occ.cpp:35-112 | after any run the commit log reports, for every commit, exactly the values that were handed to the transaction's body and those it has set; its end timestamps ascend, it replays serially with exactly these values, and once nothing is being written back the rows hold its result |
| OccAlone.CommitsAlone | concurrency_control/occ/occ.cpp:35-112 | from any state in which nobody has latched or written the rows since a thread began, that thread alone reaches a commit, in whatever order it latches them: its rows hold what it has set, nothing else changes |
| OccProof.ValidIsCurrent | concurrency_control/occ/occ.cpp:74-93 | a row that is latched and validated is held by the transaction and its copy is the committed contents |
| OccProof.StepKeeps | concurrency_control/occ/occ.cpp:35-112 | every step of every thread keeps the invariant: a copy that has gone stale is bound to fail validation, and a version that is owed is newer than the row |
| OccProof.NoLatchCircle | concurrency_control/occ/occ.cpp:40-53 | in every run whose validations sort the accesses, no chain of threads waiting for each other's latches closes into a circle |
| RowOcc.SortAccesses | concurrency_control/occ/occ.cpp:43-53 | the in-place bubble sort makes of the accesses the sorted version that the validations of such a run latch: only reordered, and strictly ascending when distinct |
| RowOcc.RowOcc.Access | concurrency_control/row_occ.cpp:19-42 | a copy is given exactly to transactions that started no earlier than the last write |
| RowOcc.RowOcc.Write | concurrency_control/row_occ.cpp:50-57 | the data is replaced and the write timestamp grows |
| TwoPhaseProof.Serializable | system/txn.cpp:81-108 | after any run the commit log reports, for every commit, exactly the values that were handed to the transaction's body and those it has set in place; it replays serially with exactly these values, and every row no live transaction is changing holds its result: aborts have left no trace |
| TwoPhaseProof.OthersUndisturbed | system/txn.cpp:134-206 | what a transaction has set in place no step of another one changes before it ends |
| TwoPhaseProof.ReadsRepeat | storage/row.cpp:13-23 | a row that is only read does not change while its reader lives |
| TwoPhaseProof.StepKeepsLocks | system/txn.cpp:134-206 | every step keeps the correspondence between lock entries and the accesses and requests of the threads, over all rows |
| TwoPhaseProof.StepKeepsContents | system/txn.cpp:81-108 | every step keeps each row equal to its committed value unless the transaction that owns it exclusively has changed it, and every undo copy equal to the committed value |
| TwoPhaseProof.Exclusive | concurrency_control/row_lock.cpp:136-146 | whoever owns a row next to an exclusive owner is that owner |
| LockWaits.NoCircle | concurrency_control/row_lock.cpp:94-134 | under WAIT_DIE no chain of waits over any number of rows closes into a circle |
| LockWaits.WaitDieProgress | concurrency_control/row_lock.cpp:94-134 | under WAIT_DIE, in every reachable state with an active transaction, one that waits for nobody exists and has an enabled step |
| LockWaits.WaitsForLater | concurrency_control/row_lock.cpp:70-134 | under WAIT_DIE a transaction waits only for transactions with a later timestamp |
| LockWaits.RecordStaysSufficient | concurrency_control/row_lock.cpp:149-167 | as long as a transaction waits, one of those recorded when it started to wait still owns the row or precedes it in a conflicting mode |
| LockDeadlocks.DeadlockIsRecorded | storage/row.cpp:34-74 | in every run in which threads publish their waits and clear them at the end, transactions that block each other in a circle and have published are each one for which the detector's search condition holds |
| LockDeadlocks.StuckIsDetected | storage/row.cpp:34-74 | the same for every member of a set of published waits that can only be ended from within the set |
| LockDeadlocks.NextKeeps | storage/row.cpp:34-74 | every step of the locking protocol, every publication and every clearing keeps what has been published in the table |
| LockDeadlocks.RecordsOnlyTold | concurrency_control/dl_detect/dl_detect.cpp:20-43 | in every run, every id in a thread's entry was told to the transaction it is running, in this wait or an earlier one, and an idle thread's entry is empty |
| LockDeadlocks.EdgesWereTold | concurrency_control/dl_detect/dl_detect.cpp:20-43 | every edge leads to a transaction its source was told to wait for, and an entry published for a single wait has exactly the ids told |
| LockDeadlocks.WaiterPublishes | storage/row.cpp:54-60 | a transaction that waits and has not published can do so in any reachable state |
| LockTable.GetAnswers | concurrency_control/row_lock.cpp:70-146 | by the modes alone: a request is granted exactly if nobody owns the row or only readers do and it is a read, and nobody waits (DL_DETECT) or nobody younger heads the waiters (WAIT_DIE); else it waits under DL_DETECT, waits under WAIT_DIE exactly if no owner is older, and is refused otherwise; and where a new waiter is put |
| LockTable.GetKeeps | concurrency_control/row_lock.cpp:70-146 | a request keeps the lock invariant: compatible owners, a blocked head, under WAIT_DIE waiters from youngest to oldest and all older than every owner |
| LockTable.GrantKeeps | concurrency_control/row_lock.cpp:232-242 | after the grant loop the head conflicts again, and exactly a prefix of the waiters has become owners |
| LockTable.GrantTakes | concurrency_control/row_lock.cpp:232-242 | by the modes alone: the waiter that stays first is a writer or meets one, and readers at the head all join when no writer owns the row |
| LockTable.BlockersAreExact | concurrency_control/row_lock.cpp:149-165 | the recorded ids are exactly those of the conflicting owners and earlier waiters |
| LockTable.BlockersNotEmpty | concurrency_control/row_lock.cpp:166-166 | a transaction that has to wait under deadlock detection is always told to wait for somebody |
| RowLock.RowLock.LockGet | concurrency_control/row_lock.cpp:30-177 | the in-place request refines LockTable.Get, is granted exactly when the modes and waiters allow it, lowers the ready flag of exactly a new waiter and returns a non-empty exact list of blockers under deadlock detection |
| RowLock.RowLock.LockRelease | concurrency_control/row_lock.cpp:180-253 | the in-place release refines LockTable.Release and raises the ready flags of exactly the waiters that became owners |
| RowLock.RowLock.InsertWaiter | concurrency_control/row_lock.cpp:113-128 | the waiter goes behind every waiter with a later timestamp |
| TxnMan.TxnMan.Cleanup | system/txn.cpp:81-128 | the backward loop restores every written row of an abort from its copy, keeps the rows of a commit, and releases every lock exactly as LockTable.Release says |
| TxnMan.TxnMan.GetRow | system/txn.cpp:170-205 | an access is taken down, with the row's contents as its copy, exactly when the lock was granted at once; a wait leaves the transaction in the queue with its flag down |
| TxnMan.TxnMan.AfterWait | storage/row.cpp:76-81 | when the wait ends with the lock the access is taken down, otherwise the thread leaves the lock exactly as LockTable.Release says, even if it was granted in the meantime |
| DlDetect.DlDetect.DetectCycle | concurrency_control/dl_detect/dl_detect.cpp:121-162 | on a fixed table with ids below 2^31 the result is 1 if and only if a cycle of live edges can be reached from the caller; the search terminates, and exactly the thread on the found cycle with the fewest locks, if it has under 1000, is told to abort |
| DlDetect.DlDetect.NextNode | concurrency_control/dl_detect/dl_detect.cpp:45-113 | a node that is left without success reaches no cycle; a success reports a cycle and the fewest locks on the part of it already left |
| DlDetect.DlDetect.AddDep | concurrency_control/dl_detect/dl_detect.cpp:20-43 | the caller's list becomes the old one followed by the new ids, its id and lock count are set, every other entry stays |
| DlDetect.DlDetect.ClearDep | concurrency_control/dl_detect/dl_detect.cpp:164-181 | the caller's list is emptied, its id becomes -1 and its lock count 0, every other entry stays |
| WaitsFor.ClearedIsIsolated | concurrency_control/dl_detect/dl_detect.cpp:164-181 | clearing an entry takes away every edge from and to it and no other |
| WaitsFor.OrderedIsAcyclic | concurrency_control/dl_detect/dl_detect.cpp:83-101 | from a node whose edges all lead to nodes finished before it, and so on, no cycle can be reached |
| WaitsFor.CastAgrees | concurrency_control/dl_detect/dl_detect.cpp:88-88 | comparing the id cast to 32 bits agrees with comparing the id for every published value if and only if the id is below 2^31 |
| WaitsFor.WideDeadlock | concurrency_control/dl_detect/dl_detect.cpp:87-93 | a concrete deadlock of two transactions with ids from 2^31 on that no comparison on the search path sees |

## Left out

- RowTicToc.RowTicToc.TryRenew: does not model other threads between the load and the swap, because those interleavings are the steps Renew, SwapWord and SwapFails of TicToc; it takes timestamps below 2^48, which is what the word can hold.
- TicTocProof.Serializable: follows a retried swap only where it cannot take a lease back, because the retry that does breaks the property (TicTocWord.RetryShortens); timestamps in the run are unbounded, the word holds 48 bits.
- MvccDbProof.Serializable: asks that every step is careful, because a misled lookup (MvccRuns.LookupGoesWrong) or an overwritten buffer (MvccDbRuns.ReaderIsOverwritten) breaks the property; one look takes a whole row at one moment, a longer look is several of them.
- Mvcc.ReadsStaySafe: counts an old read as served only where its lookup is not misled, because it is given another version otherwise (Mvcc.LookupIsRight); timestamps are below 2^64 - 1.
- DlDetect.DlDetect.DetectCycle: is exact for ids below 2^31 on a table that does not change during the search, because the source takes each entry's latch separately.
- LockDeadlocks.StuckIsDetected: speaks of waits that have been published, with detection switched on, because the source publishes them only after a delay; that a waiting thread gets to it is scheduling.
- TxnMan.TxnMan.Cleanup: one thread's view; how cleanups interleave is TwoPhase.
- The pre-abort checks of TicToc and Silo are an abort that may happen at any time before the first lock; they only save work.
- The waiting mode lock() of TicToc and Silo: its loop condition ends in a comma expression, so it does not test the compare-and-swap.
- Memory orderings, fences, back-off delays and latches: atomic steps are sequentially consistent.
- Linked lists are sequences, row buffers of MVCC are indices into a memory: pointer surgery and reuse of freed entries are not modelled.
- The sort of the write set by primary key: with no-wait locking the order of the locks matters to no property stated here.
- OccProof.Serializable: takes start and end timestamps from one counter that never goes back, as the mutex and the atomic allocator do; the clock of each thread, which the default allocator uses, promises no such order between threads.
- OccProof.NoLatchCircle: covers the configuration that sorts, not the one with bounded spinning; it takes the order of the row ids for the order of table names and keys.
- OCC's central validation, which compares timestamps from two different counters; Row_ts, VLL, Hekaton, HSTORE partition locks, the B+-tree, the hash indexes, index maintenance and inserted rows.
- The multi-version and write-permission variants of TicToc, other isolation levels, clocks, statistics, NUMA placement, and the TPC-C and YCSB workloads.
