# RyuDB in Dafny

RyuDB is a small transactional key-value store: a page-based B-tree with multi-version
concurrency control on top of a buffer pool, a write-ahead log and ARIES-style recovery. This
project models its storage engine and proves what it keeps over every run, and exactly where it
falls short of what its documentation says.

`dafny verify dfyconfig.toml` checks everything. Lemmas are proved without automatic induction
(`{:induction false}`), so that every proof is written out and cheap to check.

## Layout

| files | part of the system |
|---|---|
| `Bytes`, `MvccKeys`, `Cells` | byte order, integer codecs, version keys, cell lists of a page |
| `SlottedPage` | the 4096 bytes of a page, the cell codecs, uint16 arithmetic |
| `Wal`, `LogFile`, `PageImage` | the bytes of the log: records, append, read, scan of a truncated file, checkpoint payload; the log of the machine as such a file, with its page images |
| `Log`, `Redo`, `Undo` | the log as records; analysis, redo and undo as functions |
| `Engine`, `EngineInvariant` | log, pool and disk as one machine with crashes; the invariant of every step |
| `CrashSafety`, `Durability`, `Atomicity` | the recovery theorems for every run |
| `CrashLimits`, `CrashRuns`, `FuzzyCheckpoint` | exactly where recovery falls short: compensation records, runs that show it, checkpoints with an older table |
| `Recovery` | `Recover` and `Rollback` as loops over log and pages |
| `RecoveryRun`, `UndoRestart` | undo as a run of the machine; crashes after and during undo |
| `BufferPool` | the buffer manager as an object; each call is a run of machine steps |
| `IdealStore`, `Mvcc`, `MvccRefinement`, `MvccEngine` | transactions on a leaf with vacuum, against a plain versioned map |
| `History`, `Isolation` | the read rule, non-interference and commit order in terms of the operations alone; repeatable reads and lost updates |
| `DeleteFirst` | what a rolled-back Delete leaves behind |
| `Splits`, `TreeShape`, `BTree`, `TreeLookup` | the B-tree: splits by count, order of the tree, the operations, lookup in one leaf |
| `Overflow` | overflow chains and the free-page list |
| `Folding` | keeps large quantified invariants folded in method contracts |

## How to read it

*Machine.* `Engine.State` holds the synced log, the disk, and the volatile pool and last-LSN
table. Its steps are the atomic actions of the source: fetch (with the full-page record for a
clean page), upsert, after-images of a split, compensation, unpin, evict, flush, commit, abort,
checkpoint, publication of `checkpoint.meta`, and crash followed by analysis and redo. Leaves are
compared as sets of cells, since redo does not restore the slot order.

*Clean runs.* `Mvcc.Clean` spells out the hypotheses of the MVCC theorems: one leaf that does
not split, inline values, NUL-free user keys, fresh increasing IDs, and every transaction that
rolls back wrote each of its keys first by Set.

*Where the documentation promises more than the code does.* The code is followed, and the exact
condition is proved:

- Repeatable reads (`docs/anomalies.md`, section 3) hold for the oldest running transaction and, as
  far as the leaf has room, for no other (`RepeatableExactly`): visibility looks at the status at
  read time.
- Lost updates (`docs/anomalies.md`, section 5) are prevented exactly for the writer with the
  smaller ID (`OverwriteRefusedExactly`).
- Redo does not repeat compensation records. A rollback survives a crash exactly when it made no
  difference (`RollbackLostExactly`, `RolledBackWriteReturns`), and a later committed write to the
  page exactly when it fits beside what comes back (`LaterWriteKeptExactly`, `CommittedWriteDropped`).
- Recovery undoes losers by compensations too, and logs their aborts. A crash right after recovery finds
  no losers any more and brings their writes back on every page that was only backed up and compensated
  since the first crash (`SecondRecovery`).
- Recovery does not cut a torn record off the log. What is appended behind it is never scanned
  (`TornRecordHidesLater`).
- The dirty-page table of a checkpoint is read before its record is appended. A page keeps its
  logged changes exactly when it was dirty at the reading or the disk has them already
  (`CheckpointSafeExactly`, `LoggedChangeLost`).
- A checkpoint stores no transaction table, whatever `docs/aries_recovery_architecture.md` says: the
  losers are exactly the transactions left open since the checkpoint (`LosersExactly`), and recovery
  leaves no open transaction's cell exactly when they all logged something since then
  (`OnlyEndedSurvive`, `UncommittedSurvivesCheckpoint`).
- Rolling back a key whose first write was a Delete leaves a live empty cell
  (`RollbackErasesExactly`). The next vacuum drops the committed value below it and shows readers
  the empty one exactly when the transaction is older than all running ones
  (`RolledBackDeleteAfterRun`, `CommittedValueLost`).
- `FindLatest` looks at one leaf. It finds the newest visible version exactly when that leaf shows
  one or none exists (`SingleLeafLookupExact`, `SplitHidesCommittedVersion`).
- Splitting by count keeps every cell exactly when both halves fit (`LostNothingIff`); cells of at most
  199 bytes, slot included, are always kept, and the bound is tight (`BoundIsTight`).
- The order of version keys is the order of (user key, ID) pairs except for pairs of keys where one
  extends the other by a NUL byte and not by eight bytes 0xFF after it (`KeyOrderEmbedsExactly`).
- The log record layout is that of the code (internal/storage/wal.go:39-59): an 8-byte transaction ID and
  an 8-byte PrevLSN, which the comment above `Serialize` does not show.
- The uint16 space test of `Insert` is right exactly when the sum does not wrap, or wraps to
  something that does not fit either (`SpaceTestExactIff`).

## Model

| member | source | states |
|---|---|---|
| `CrashSafety.RepeatingHistory` | internal/storage/recovery.go:52-156 | For every run and a crash between any two steps: analysis and redo give every page the contents its clients saw at the crash, unless a compensation of the page would have to be repeated |
| `CrashSafety.FastRedoRefinesReplay` | internal/storage/recovery.go:87-141 | In every reachable state and from whichever checkpoint: redo from MinLSN with the three skip rules equals replay of every record from byte 4 |
| `CrashSafety.WriteAheadRule` | internal/storage/wal.go:138-172 | In every reachable state each page on disk carries an LSN below the synced end of the log, and the record with that LSN can be read |
| `BufferPool.RedoInterrupted` | internal/storage/recovery.go:100-156 | In every reachable state: a crash at any point of the redo loop, with any page written back at any point of it, changes nothing; the next recovery gives each page exactly what undisturbed redo gives it |
| `BufferPool.RedoRestartable` | internal/storage/recovery.go:100-156 | After redo, any evictions, flushes and fetches and a second crash, every page has the contents clients saw before the first crash, unless a compensation of it would have to be repeated |
| `CrashLimits.CompensationLostExactly` | internal/storage/recovery.go:145-152 | With no earlier compensation of the page waiting to be repeated: a crash right after one, erasing or restoring, gives the page's contents back if and only if the compensation had no effect on it (no leaf, nothing to erase, the cell already there, or no room for it) |
| `CrashLimits.CrashForgets` | internal/storage/recovery.go:145-152 | However many compensations of a page are waiting to be repeated, a crash gives back the contents from before the first of them |
| `CrashLimits.RollbackLostExactly` | internal/storage/btree.go:400-436 | Over every run and every continuation that only compensates the page: the rollback survives a crash if and only if it made no difference to the page |
| `CrashLimits.LaterWriteKeptExactly` | internal/storage/recovery.go:145-152 | A write to a page with waiting compensations: after a crash the page holds exactly its old cells with the new one if and only if they fit together with the cells the compensations erased |
| `CrashRuns.RolledBackWriteReturns` | internal/storage/btree.go:400-436 | A run from the empty state: a write is stored and rolled back, its abort logged; after a crash and whole recovery, undo included, it is there again |
| `CrashRuns.CommittedWriteDropped` | internal/storage/recovery.go:145-152 | A run from the empty state: a later committed write that fits only without the rolled-back one is gone after recovery, and the rolled-back one is there |
| `CrashRuns.UncommittedSurvivesCheckpoint` | internal/storage/wal.go:206-218 | A run from the empty state: a transaction writes and stays open, a checkpoint is published; after recovery the uncommitted write is still there |
| `FuzzyCheckpoint.StaleTableExactly` | internal/storage/btree.go:137-138 | The dirty-page table is read in one state and appended in any later one: after a crash a page holds everything logged if it was dirty when the table was read, else what is on disk |
| `FuzzyCheckpoint.CheckpointSafeExactly` | internal/storage/btree.go:137-138 | Over every run, for pages with no compensation waiting to be repeated: nothing of a page is lost if and only if it was dirty when the table was read, or the disk has what clients see when it is appended |
| `FuzzyCheckpoint.LoggedChangeLost` | internal/storage/btree.go:137-138 | A run from the empty state: a page is changed, logged and unpinned dirty between the two, and the change is lost |
| `FuzzyCheckpoint.UnpinWindowLosesChange` | internal/storage/buffer_manager.go:116-134 | Even with both at once, exactly the pages between their change and the unpin that marks them dirty fall back to the disk |
| `EngineInvariant.StepKeepsInv` | internal/storage/buffer_manager.go:61-198 | Every step keeps: page LSN and RecLSN bound what is on disk, clean frames equal the disk page, log chains are sound, redo from any checkpoint agrees with replay and with the view |
| `EngineInvariant.ReachableInv` | internal/storage/recovery.go:52-156 | The invariant holds after every run from the empty state |
| `Atomicity.RecoveryOfPlainRuns` | internal/storage/recovery.go:12-213 | For every run without leaf splits and compensations in which no transaction continues across a crash, with evictions, checkpoints and crashes at which nothing was undone: after a crash, recovery leaves in a leaf exactly the cells of transactions that are not losers if and only if each Delete a loser logged for the page has an earlier Set of its key there |
| `Atomicity.OthersSurvive` | internal/storage/recovery.go:12-213 | On the same runs, set-first or not: a cell that belongs to no loser, or whose key is not a built one, is never undone |
| `Atomicity.OnlyEndedSurvive` | internal/storage/recovery.go:12-213 | On such runs with set-first losers exactly the cells of transactions that are not open remain if and only if every open owner of a cell in the leaf logged something since the checkpoint |
| `Atomicity.RunKeepsRunInv` | internal/storage/btree.go:537-569 | Over such runs the keys of a leaf are exactly the keys logged for its page, and each transaction's records are all on its PrevLSN chain |
| `Durability.RecoveryLeavesNonLosers` | internal/storage/recovery.go:12-213 | For every run, whatever its steps, at whose end the losers' writes are in place and no compensation is waiting: recovery leaves exactly the cells of transactions that are not losers if and only if each loser's cell in the leaf was logged and first written by a Set |
| `Durability.LosersExactly` | internal/storage/recovery.go:75-82 | A transaction is found active if and only if its last record since the start of analysis is neither commit nor abort, and its table entry is that record |
| `Durability.DirtyPagesExactly` | internal/storage/recovery.go:57-73 | A page is found dirty if and only if some record since the start of analysis is for it or some checkpoint lists it; its recovery LSN is that of the last checkpoint that lists it, else the LSN of the first record for it |
| `Durability.OnlyBuiltKeysUndone` | internal/storage/recovery.go:75-82 | In every reachable state recovery undoes a write only if its key was built for a transaction other than 0 |
| `Durability.OthersUntouched` | internal/storage/recovery.go:187-194 | With the losers' writes in place and no compensation waiting: a cell that belongs to no loser, or whose key is not a built one, is in its leaf after recovery if and only if it was before |
| `Durability.CheckpointHidesOpenTransaction` | internal/storage/wal.go:206-218 | A transaction that logged nothing since the checkpoint is never undone |
| `Durability.RecoveryCanRun` | internal/storage/recovery.go:28-49 | In every state with the invariant the preconditions of Recover hold: start at a record boundary, table entries name records and existing pages |
| `Recovery.RecoveryManager.Recover` | internal/storage/recovery.go:12-213 | The three loops leave page contents equal to redo of the surviving disk followed by undo of the list of work. Log, page LSNs and dirty frames are those of undoing the list in turn: one compensation for each write, after a backup of its page if that was clean, one abort for each loser; analysis of the new log finds no loser. It fails exactly when a record in range is for a page that does not exist, and then the log is unchanged |
| `Recovery.RecoveryManager.Analyze` | internal/storage/recovery.go:39-85 | The scan yields the dirty page table and the transaction table of the log suffix and stops at the end of the log |
| `Recovery.RecoveryManager.MinLsn` | internal/storage/recovery.go:87-96 | The result is a lower bound of all recovery LSNs and one of them, or the end, or the checkpoint for an empty table |
| `Recovery.RecoveryManager.RedoPhase` | internal/storage/recovery.go:100-156 | Each page ends as fast redo of that page alone, although the loop interleaves pages and starts at MinLSN; exactly the pages whose LSN changed become dirty; it fails exactly at a record in range for a page that does not exist, with the records before it redone |
| `Recovery.RecoveryManager.RedoRecord` | internal/storage/recovery.go:130-153 | One in-range record changes one page, by skip rule 3 or by applying it; the page becomes dirty exactly when the record is applied |
| `Recovery.RecoveryManager.PickMax` | internal/storage/recovery.go:169-176 | The transaction with the largest LSN |
| `Recovery.RecoveryManager.UndoWrite` | internal/storage/recovery.go:187-201 | The new records are exactly the compensation, which skips the undone record, preceded by a full-page record with the page as it was if and only if its frame was clean; the page holds the inverse with the LSN of the compensation and is dirty; no other page changes |
| `Recovery.RecoveryManager.UndoRound` | internal/storage/recovery.go:168-209 | One round undoes the record with the largest LSN and advances its transaction, or ends it with an abort record; the log grows by exactly these records |
| `Recovery.RecoveryManager.UndoPhase` | internal/storage/recovery.go:168-209 | The loop terminates with an empty table; it undoes exactly the list of work in turn, logs exactly the compensations, backups and aborts of its rounds, counts the writes, and leaves a log in which analysis finds no loser |
| `Recovery.UndoListExact` | internal/storage/recovery.go:168-209 | The list of work holds each record on a loser's chain exactly once, in strictly increasing LSN order (undo takes it from the back) |
| `Recovery.UndoListStep` | internal/storage/recovery.go:203-208 | Following PrevLSN of the largest LSN takes exactly the last record off the list of work |
| `Recovery.RecoveryManager.Rollback` | internal/storage/btree.go:400-436 | Walking the PrevLSN chain undoes exactly the transaction's chain, newest first, with a compensation logged for each write, and ends with an abort record |
| `Recovery.UndoneBodies` | internal/storage/recovery.go:168-209 | Undoing records in turn, with all that is logged for it, has the effect of undoing the list on the page contents |
| `RecoveryRun.RedoStands` | internal/storage/recovery.go:100-156 | What redo leaves in pages and dirty frames is what the crash step of the machine leaves, with no pins, no recovery LSNs and no last-LSN table |
| `RecoveryRun.UndoWriteRuns` | internal/storage/recovery.go:187-201 | Whatever UndoWrite leaves in log, pages and dirty frames, write-backs, a fetch for write, a compensation and an unpin of the machine lead there |
| `RecoveryRun.RecoverRuns` | internal/storage/recovery.go:12-213 | Whatever Recover leaves behind after a crash is a state that the machine reaches from the redone one, so the invariant and all crash theorems hold after recovery |
| `RecoveryRun.RollbackRuns` | internal/storage/btree.go:400-436 | The same for Rollback in a running system |
| `RecoveryRun.SecondRecovery` | internal/storage/recovery.go:12-213 | A crash after recovery: the next recovery finds no losers and gives each page the contents the first one left, unless a compensation of it would have to be repeated; a page that was only backed up and compensated since the first crash gets back what clients saw before it, losers' writes included |
| `UndoRestart.UndoInterrupted` | internal/storage/recovery.go:168-209 | A crash after any number of rounds of undo: the next recovery has exactly the writes to undo that the first had left, in the same order |
| `Recovery.RedoUpsertOnPage` | internal/storage/recovery.go:216-260 | Extraction with swap or erase, then refill of the wiped page: the cells that find room, in order |
| `Undo.UndoAllExact` | internal/storage/recovery.go:216-260 | Undoing any list of losers' writes: a key disappears exactly when its oldest write was an insert, else it stays as a live empty cell; other cells keep bytes and order |
| `Undo.RollbackErasesExactly` | internal/storage/btree.go:400-436 | The transaction's cell for a key is erased if and only if its first logged write to the key was a Set; all other cells keep bytes and relative order |
| `Undo.LosersErasedIff` | internal/storage/recovery.go:187-194 | Undo leaves exactly the others' cells if and only if each loser's cell was logged and first written by an insert |
| `Undo.UndoErasesLosers` | internal/storage/recovery.go:187-194 | With set-first losers the page ends as the same list without the losers' cells |
| `Log.ReadFinds` | internal/storage/wal.go:175-195 | Reading at a record's offset yields that record, at the end of the log nothing |
| `Redo.SameAfterWrite` | internal/storage/recovery.go:216-260 | The same write on two leaves with the same cells in different order gives the same cells again |
| `BufferPool.PoolRefinesPageMap` | internal/storage/buffer_manager.go:84-198 | Over every run without a crash, pool over disk shows exactly a plain store that only the writers change |
| `BufferPool.PoolStepKeepsViews` | internal/storage/buffer_manager.go:84-198 | Fetching, unpinning, evicting and flushing change the contents of no page |
| `BufferPool.PinsBalance` | internal/storage/buffer_manager.go:84-145 | Over every run a page has as many pins as fetches since the last crash that were not unpinned yet, through all evictions and reloads |
| `BufferPool.UpsertExactly` | internal/storage/btree.go:508-572 | In every reachable state an upsert that fits leaves its leaf in strict key order with the new cell in place of what the key had and all other cells, logs exactly one record under the key's transaction with its last LSN as PrevLSN, and changes no other frame |
| `BufferPool.BufferManager.GetFrame` | internal/storage/buffer_manager.go:84-113 | Pool never above its size; pinned frames stay; fails for space if and only if the page is absent, the pool is full and every frame is pinned; one unpinned frame is evicted exactly when the page is absent and the pool full; then exactly a fetch step |
| `BufferPool.BufferManager.FetchPageForRead` | internal/storage/buffer_manager.go:51-58 | One pin more on the page; a resident frame otherwise unchanged, a loaded one clean and equal to the disk; other frames unchanged but for one unpinned victim of a full pool; log and contents of all pages unchanged; exact error cases |
| `BufferPool.BufferManager.FetchPageForWrite` | internal/storage/buffer_manager.go:61-81 | One pin more and the latch; a dirty page is as it was and nothing is logged; a clean page gets exactly one full-page record with the page, whose LSN becomes page LSN and RecLSN; other frames and error cases as for reading |
| `BufferPool.BufferManager.UnpinPage` | internal/storage/buffer_manager.go:116-145 | One pin less, dirty bit joined, a writer's latch released; page, RecLSN and all other frames unchanged; exact error cases |
| `BufferPool.BufferManager.EvictFrame` | internal/storage/buffer_manager.go:148-172 | Exactly one unpinned frame goes, written to disk if dirty; contents of all pages unchanged; fails exactly when all frames are pinned |
| `BufferPool.BufferManager.FirstFind` | internal/storage/buffer_manager.go:174-181 | An unpinned frame, or none exists |
| `BufferPool.BufferManager.FlushAll` | internal/storage/buffer_manager.go:184-198 | Exactly the dirty frames are written to disk and become clean with RecLSN 0, nothing else of any frame changes; the disk alone then holds what pool over disk showed, except for pages still being changed |
| `BufferPool.BufferManager.GetDirtyPageTable` | internal/storage/buffer_manager.go:209-220 | Exactly the dirty frames with their RecLSN |
| `BufferPool.BufferManager.StoreImage` | internal/storage/btree.go:614-619 | A writer stores and logs an after-image: exactly one full-page record, the contents of its page change to it and of no other, page LSN is the record's |
| `BufferPool.BufferManager.WriteCheckpoint` | internal/storage/btree.go:132-141 | In every state: one checkpoint record with the dirty page table of the pool; a state of the machine again if no writer is between change and unpin |
| `MvccRefinement.EngineRefinesIdealStore` | internal/storage/vacuum.go:29-38 | Every clean run, with vacuums and prunes anywhere, answers every operation exactly as a plain versioned map without them |
| `MvccRefinement.VacuumInvisible` | internal/storage/vacuum.go:29-38 | The answers of a clean run are those that the reference store gives to the run with the vacuums left out (on a page of its own size that run might not fit) |
| `MvccRefinement.VacuumChangesNothing` | internal/storage/vacuum.go:73-136 | After any clean run a vacuum changes no Get and no conflict verdict, for running and future transactions |
| `MvccRefinement.DroppedIsObsolete` | internal/storage/vacuum.go:88-119 | The test on the next slot equals the test on all newer versions of the key in the leaf |
| `MvccRefinement.StoredFirstUpdaterWins` | internal/storage/btree.go:483-505 | After any clean run a running writer's version is the newest of its key and all others are committed |
| `MvccRefinement.GetRefines` | internal/storage/btree.go:293-357 | In related states FindLatest on the leaf answers as the versioned map |
| `MvccRefinement.ConflictRefines` | internal/storage/btree.go:483-505 | In related states the conflict scan gives the verdict of the versioned map |
| `DeleteFirst.RolledBackDeleteAfterRun` | internal/storage/btree.go:414-418 | After any clean run a transaction that deleted a key first rolls back, and a vacuum follows: its empty cell becomes visible if and only if it is below every running ID; then every later reader is told the empty value, and in a leaf in order all older versions of the key are gone |
| `DeleteFirst.CommittedValueLost` | internal/storage/vacuum.go:29-38 | From the empty state: a value is committed, deleted by the next transaction, which rolls back, and vacuumed; readers got the value before and the empty value after |
| `Mvcc.FindBestCorrect` | internal/storage/btree.go:330-342 | The scan finds the visible cell with the largest key, if any is visible |
| `MvccEngine.TransactionManager.GetMinActiveTxID` | internal/storage/txn.go:78-91 | The smallest running ID, or the largest ID when nothing runs |
| `MvccEngine.TransactionManager.PruneTables` | internal/storage/txn.go:93-103 | A transaction stays in the table, with its status, if and only if it runs or is at or above the watermark |
| `MvccEngine.LeafTable.Get` | internal/storage/btree.go:323-357 | The scan loop answers as the step function of the model, to which the refinement theorems apply |
| `MvccEngine.LeafTable.FindRival` | internal/storage/btree.go:483-505 | True exactly when some cell of the leaf is a conflicting version |
| `MvccEngine.LeafTable.Write` | internal/storage/btree.go:453-576 | Rollback on conflict, otherwise the cell is upserted and the chain extended; no answer and no change exactly when there is no conflict and the rewritten leaf overflows, where upsertCell goes on to split |
| `MvccEngine.LeafTable.Rollback` | internal/storage/btree.go:400-436 | The leaf after undoing the whole chain; status rolled back |
| `MvccEngine.LeafTable.Vacuum` | internal/storage/vacuum.go:73-136 | The loop with look-ahead keeps exactly the undropped cells, then prunes: a chain is forgotten exactly for finished transactions below the watermark |
| `IdealStore.StepKeepsInv` | internal/storage/btree.go:483-505 | Every operation keeps: at most one running writer per key, whose version is the newest, all others committed |
| `History.CommitOrder` | internal/storage/btree.go:439-450 | Over every clean run, transactions that wrote the same key commit in strictly increasing ID order |
| `History.ReadRule` | internal/storage/btree.go:293-357 | Over every clean run, in terms of the operations alone: a Get returns the reader's own last write, else what the committed writer with the largest smaller ID last wrote, never anything uncommitted |
| `History.NoInterference` | internal/storage/btree.go:302-319 | Over every clean run, no vacuum and no operation of a larger ID changes what a running transaction reads |
| `IdealStore.LargerIdsDoNotInterfere` | internal/storage/btree.go:302-305 | No step of a larger ID changes what a running transaction reads |
| `Isolation.RepeatableExactly` | internal/storage/btree.go:312-317 | After every clean run: the oldest running transaction reads repeatably over every clean continuation; any other does not, if the smaller running ones have stored something or the leaf has 19 bytes left |
| `IdealStore.RepeatableIffOldest` | internal/storage/btree.go:312-317 | On the reference store, where room is no question: reads are repeatable if and only if the reader is the oldest running transaction |
| `Isolation.OverwriteRefusedExactly` | internal/storage/btree.go:483-505 | After every clean run with two running transactions, one of which writes a key and commits: the conflict scan of the leaf refuses the other if and only if it has the smaller ID |
| `MvccKeys.ExtractInvertsBuild` | internal/storage/txn.go:112-131 | Extract inverts Build for every key and ID |
| `MvccKeys.ExtractExactly` | internal/storage/txn.go:120-131 | Every byte string is either a built key, and Extract gives the parts it was built from, or is no built key and belongs as a whole to transaction 0 |
| `MvccKeys.KeyOrderEmbedding` | internal/storage/txn.go:112-131 | For NUL-free keys, byte order of built keys is the order of (user key, ID) pairs |
| `MvccKeys.KeyOrderEmbedsExactly` | internal/storage/txn.go:112-131 | For any two user keys: the order embeds for all IDs if and only if the pair is not confusable |
| `MvccKeys.NulBreaksOrder` | internal/storage/txn.go:112-118 | A concrete pair of keys with a NUL byte that sorts the wrong way |
| `BTree.RunThenFind` | internal/storage/btree.go:360-397 | For every sequence of inserts and deletes of inline cells, through all splits: Find returns exactly the last value written, or nothing if it was deleted, never written or dropped by the split of its leaf, as the trace of trees shows step by step; with cells of at most 199 bytes it returns exactly the last value written |
| `BTree.BTree.Upsert` | internal/storage/btree.go:453-576 | The tree stays in order and stores exactly the new cell and the old cells of other keys, minus those that the split of the covering leaf drops |
| `BTree.BTree.Find` | internal/storage/btree.go:360-386 | The value of the live cell with the key anywhere in the tree; nothing exactly when there is none |
| `BTree.BTree.FindLeaf` | internal/storage/btree.go:232-290 | Reaches the leaf whose range covers the key, with the path of parents; terminates |
| `BTree.ScanSlots` | internal/storage/btree.go:256-277 | The slot scan finds the child of the largest key that is at most the search key |
| `BTree.BTree.SplitLeaf` | internal/storage/btree.go:579-627 | Leaf split: order kept, nothing added, and lost is exactly what finds no room in its half |
| `BTree.BTree.InsertIntoParent` | internal/storage/btree.go:630-718 | Routing the right half restores order, through as many levels as overflow |
| `BTree.BTree.SplitInternal` | internal/storage/btree.go:721-783 | Internal split: order kept, no cell lost or added, the middle key moves up |
| `BTree.BTree.NewRoot` | internal/storage/btree.go:631-661 | Root growth: order kept, no cell lost or added |
| `TreeShape.RoutesIntoRange` | internal/storage/btree.go:256-285 | In an ordered tree the chosen child covers the key |
| `TreeShape.LeafDecides` | internal/storage/btree.go:360-386 | A cell whose key a leaf covers is stored in the tree exactly when it is in that leaf |
| `TreeShape.StoredOnce` | internal/storage/btree.go:537-541 | No key is stored twice in a tree in order |
| `TreeShape.SplitLeafOk` | internal/storage/btree.go:587-612 | After a leaf split the tree is in order but for the pending routing cell |
| `TreeShape.SplitInternalOk` | internal/storage/btree.go:745-772 | After an internal split by count the tree is in order but for the pending routing cell; the middle key separates the halves |
| `TreeShape.SplitStores` | internal/storage/btree.go:600-607 | A leaf split stores the same cells except exactly those that find no room in their half |
| `TreeShape.RouteOk` | internal/storage/btree.go:663-709 | Adding the routing cell to the parent completes the order; stored cells are the same |
| `TreeShape.GrowOk` | internal/storage/btree.go:631-661 | A new root above both halves of the old one puts the tree in order |
| `Splits.LeafSplitLosesNothingIff` | internal/storage/btree.go:600-607 | Splitting by count keeps every cell if and only if both halves pass the space test |
| `Splits.HalfFitsIfOtherIsLarge` | internal/storage/btree.go:600-607 | A half fits whenever the other takes at least the space of the incoming cell |
| `Splits.LostNothingIff` | internal/storage/btree.go:600-607 | A rewritten leaf loses nothing if and only if it fits or both of its halves do |
| `Splits.SmallCellsSplit` | internal/storage/btree.go:600-607 | With cells of at most 199 bytes, slot included, both halves fit |
| `Splits.BoundIsTight` | internal/storage/btree.go:600-607 | With one byte more there is a leaf and an incoming cell on which the split drops a cell |
| `Splits.SmallKeysSplit` | internal/storage/btree.go:745-770 | With routing keys of at most 190 bytes both halves of an internal node fit |
| `TreeLookup.SingleLeafLookupExact` | internal/storage/btree.go:323-357 | Looking into the one covering leaf finds the newest visible version of the whole tree if and only if that leaf shows one or no leaf does |
| `TreeLookup.OutsideIsEarlier` | internal/storage/btree.go:323-357 | Visible versions outside that leaf lie in earlier leaves |
| `TreeLookup.SomeKeyIsWide` | internal/storage/btree.go:535-535 | There is such a key: 2015 bytes with an empty value |
| `TreeLookup.SecondVersionSplits` | internal/storage/btree.go:535-607 | For a key of which one version fits a page and two do not, upserting the second version splits the leaf between them, and no page drops a cell |
| `TreeLookup.SplitHidesCommittedVersion` | internal/storage/btree.go:333-342 | After that split a reader finds nothing although a committed version is visible to it |
| `Overflow.StoreAndRead` | internal/storage/btree.go:787-868 | Over any sequence of creations and frees every value that was not freed is read back unchanged |
| `Overflow.PageFile.CreateOverflowChain` | internal/storage/btree.go:787-836 | A new chain of ceil(len/4060) pages that reads as the value; free pages are used first, the file grows by the rest; all other chains and pages untouched |
| `Overflow.PageFile.ReadOverflowChain` | internal/storage/btree.go:839-868 | The loop reads the concatenated chunks up to the length |
| `Overflow.PageFile.FreeOverflowChain` | internal/storage/vacuum.go:138-159 | All pages of the chain go to the free list, the file does not grow, other pages untouched |
| `Overflow.PageFile.AllocatePage` | internal/storage/btree.go:173-205 | Pops the free list, or appends to the file exactly when it is empty; every page keeps exactly one use |
| `Overflow.PageFile.DeallocatePage` | internal/storage/btree.go:208-228 | Pushes onto the acyclic, 0-terminated free list; every page keeps exactly one use |
| `Wal.ScanAfterCut` | internal/storage/wal.go:175-195 | However the file is cut behind its header, the scan yields exactly the records wholly before the cut |
| `Wal.WholeIsLongestPrefix` | internal/storage/recovery.go:52-85 | Those records are the longest prefix that ends at or before the cut |
| `Wal.RecordRoundTripIff` | internal/storage/wal.go:38-101 | A record that fits its other fields is read back if and only if its key is shorter than 64 KiB |
| `Wal.ReadableExactly` | internal/storage/wal.go:64-82 | Bytes are read as a record if and only if the size field is their length, the last four bytes are the checksum of what lies between, and the two lengths stay inside; anything else is refused |
| `Wal.ReadableIsSerialized` | internal/storage/wal.go:38-101 | Bytes are read as a record of their own length if and only if they are what Serialize makes of it and it fits its fields |
| `Wal.ReadExactly` | internal/storage/wal.go:175-195 | Whatever the file holds, a read at any offset succeeds if and only if an intact record starts there and ends inside the file |
| `Wal.ScanStopsAtDamage` | internal/storage/recovery.go:52-57 | Whatever follows the records of a log, if it does not begin with an intact record a scan yields exactly the records before it |
| `Wal.ScanStopsAtBadChecksum` | internal/storage/wal.go:76-82 | In particular a complete record with a wrong checksum ends the scan, whatever comes after it |
| `Wal.TornRecordHidesLater` | internal/storage/wal.go:109-136 | A log cut inside a record, reopened at its length and appended to: as long as no intact record starts at the tear, a scan never reaches the later records |
| `Wal.Log.Append` | internal/storage/wal.go:138-172 | The record's bytes go to the old end of file, which is its LSN; it can be read back if and only if its key is shorter than 64 KiB, and then the file stays a sequence of complete records at their LSNs |
| `Wal.EncodeTable` | internal/storage/wal.go:206-218 | The checkpoint payload decodes, by the loop of analysis, to the table it was made from, whatever order the map is walked in |
| `PageImage.FileScansToLog` | internal/storage/recovery.go:52-85 | With the real page and table formats: the file of a machine log, cut anywhere behind its header, scans to the longest prefix of the log that ends at or before the cut, each record decoding to the one logged |
| `PageImage.ImageDetermines` | internal/storage/page.go:183-197 | The bytes of a page determine its LSN and its cells, or its other contents |
| `PageImage.LayoutExists` | internal/storage/page.go:153-181 | Every cell list that fits has a page that holds exactly it |
| `LogFile.ScanYieldsLog` | internal/storage/recovery.go:52-85 | The same for any codecs of page images and tables that can be inverted on the records of the log |
| `LogFile.ReadAgrees` | internal/storage/wal.go:175-195 | With such codecs: reading at a record's LSN finds the same record in the file as in the log, with the size the machine charges |
| `LogFile.OffsetIsLsn` | internal/storage/wal.go:138-172 | With such codecs: LSNs are byte offsets in the file |
| `SlottedPage.Page.Insert` | internal/storage/page.go:153-181 | Stored cells survive, the new one is appended; exact outcome for every input including wrap-around and wrong page types; all header fields but the two counts and the reserved bytes stay; otherwise the page is unchanged |
| `SlottedPage.Page.Get` | internal/storage/page.go:183-197 | Exactly the stored slots can be read, each with the bytes inserted |
| `SlottedPage.Page.Init` | internal/storage/page.go:79-85 | Magic number, empty directory and LSN 0; checksum field, page ID, reserved bytes and data area unchanged |
| `SlottedPage.Page.Refill` | internal/storage/btree.go:544-547 | For cells of any size: what wiping and re-inserting leaves in uint16 arithmetic, cell by cell, or that an insert panics |
| `SlottedPage.SafeRefill` | internal/storage/btree.go:544-547 | For cells of up to 61435 bytes that is exactly the cells that find room in turn |
| `SlottedPage.Page.RewriteLeaf` | internal/storage/btree.go:477-547 | On the bytes: the rewrite is done exactly when the rewritten list passes the space test, and then the page holds every cell of it, sorted, with its page ID; else the page is unchanged |
| `SlottedPage.Page.ReadCells` | internal/storage/btree.go:482-486 | Reading and decoding every slot gives back the cell list |
| `SlottedPage.CellsDisjoint` | internal/storage/page.go:153-181 | Cells overlap neither each other nor the slot directory |
| `SlottedPage.LayoutUnique` | internal/storage/page.go:183-197 | The bytes of a page determine its cells |
| `SlottedPage.SpaceTestExactIff` | internal/storage/page.go:160-168 | The truncated test is right if and only if the sum does not wrap or wraps to something too large as well |
| `SlottedPage.LargeCellPanics` | internal/storage/page.go:160-169 | A cell that wraps: 65500 bytes pass the test of an empty page and the copy panics |
| `SlottedPage.SafeCellNeverWraps` | internal/storage/page.go:160-168 | For cells of up to 61435 bytes the sum never wraps and the test is exact |
| `SlottedPage.InsertExact` | internal/storage/page.go:153-181 | For such cells Insert stores exactly those that fit |
| `SlottedPage.CellRoundTripIff` | internal/storage/cell.go:46-74 | A leaf cell is read back if and only if it is shorter than 64 KiB |
| `SlottedPage.CellReadIff` | internal/storage/cell.go:46-74 | Bytes are read as a leaf cell of their own length if and only if they are that cell's serialised form and shorter than 64 KiB |
| `SlottedPage.KeyCellRoundTripIff` | internal/storage/cell.go:22-43 | A routing cell is read back if and only if it is shorter than 64 KiB and its child fits 32 bits |
| `SlottedPage.KeyCellReadIff` | internal/storage/cell.go:22-43 | The same for routing cells, with a child that fits 32 bits |
| `SlottedPage.FillAgrees` | internal/storage/btree.go:544-547 | Filling a page with serialised cells is filling it with cells, so all results on cell lists hold of the bytes |
| `SlottedPage.KeyFillAgrees` | internal/storage/btree.go:752-767 | The same for routing cells |
| `Cells.FillKeepsAllIffFits` | internal/storage/btree.go:535-547 | All re-inserts succeed if and only if the space test of upsert holds |
| `Cells.RewriteSet` | internal/storage/btree.go:508-534 | As a set, the rewritten list replaces what the key had and touches nothing else |
| `Cells.SortCorrect` | internal/storage/btree.go:538-542 | The sorted list is strictly ascending and a permutation |
| `Bytes.BigEndianOrder` | internal/storage/txn.go:112-118 | Fixed-width big-endian encoding preserves order |

## Left out

- Server, sessions, command line and text protocol: only the order of Begin, Set, Get, Delete, Commit and Rollback matters here.
- Go latches, goroutines, tickers and clocks: steps are atomic; the window between the two latches of `findLeafPage` (internal/storage/btree.go:244-249) is not modelled, those of the checkpoint are (`FuzzyCheckpoint`).
- File I/O errors and the pager: the disk is a sequence of pages; reading beyond its end is the one error kept.
- CRC32 values and page checksums: the record CRC is an arbitrary function; page checksums are never used on the read or write path.
- Recovery of overflow pages, vacuumed pages and the free list, and the overflow flag that redo drops: these changes are unlogged or not replayed, so the machine works on inline values.
- Page contents after a crash in the middle of undo, in closed form: what is left to undo is exact (`UndoInterrupted`), the pages follow from `CrashForgets` and `RepeatingHistory` on the state reached.
- Multi-page atomicity of a split: a crash between its two images is a crash between two machine steps, each page is restored, the tree order across pages at that point is not stated.
- The write that triggers a split is logged only as page images and is therefore not undone: `RecoveryOfPlainRuns` is about runs without leaf splits.
- LSNs in the MVCC model: `Mvcc.Db` keeps each transaction's chain of writes directly; `Recovery.RecoveryManager.Rollback` follows PrevLSN.
- Paths with a nil transaction manager or a nil log, error texts, statistics and printing.
- Page IDs and LSNs are unbounded in the machine; their field widths appear in `Wal` and `SlottedPage`.
- BTree.BTree.Upsert: for keys of at most 190 bytes, which routing cells can always take, and values of at most 1024 bytes, which upsertCell stores inline; larger values are replaced by 8 bytes of overflow metadata first. Conflicts are left to the MVCC part.
- BTree.RunThenFind: the same cells.
- Isolation.RepeatableExactly: says nothing of a reader behind a smaller running transaction that has stored nothing while the leaf has less than 19 bytes left.
- Wal.Log.Append: for records whose numbers and sizes fit their 32-bit and 64-bit fields.
- Overflow metadata (the first page and length, stored in the cell) is a pair of parameters here.
- The conflict check across leaves: like `FindLatest` it looks at one leaf only, and the MVCC theorems are about one leaf.
- `StartCheckpointRoutine`, `StartVacuumRoutine` and the traversal of `vacuumNode`: vacuum is modelled on one leaf.
