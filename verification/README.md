# Verified model of a small relational engine with write-ahead logging

The project models the three connected cores of the engine in Dafny and proves properties of them.
`dafny verify dfyconfig.toml` checks everything; nothing in it is executed.

**Write-ahead log and crash recovery.** `Engine` and `Pool` give the running engine as a value: what
is durable (wal.log as a sequence of records, data files as sequences of pages, the master record),
what is volatile (log buffer, transaction table, dirty page table, frames, page counts), and what each
operation does to it. The value also lists every durable state passed through, one after each record
append, page write, file creation and opening or write of master.rec, so that a crash can be put
between any two of them. `CoreInvariant`, `PoolInvariant` and `Runs` hold the invariants over whole runs; `Analysis`,
`Redo`, `Undo` and `Recovery` the three phases against a small specification, the replay of a page's
logged updates over a zero page; `LostUpdate` and `FullRecovery` the one case where redo loses an update,
`AfterRecovery` and `SecondRestart` what the restart after a recovery does, `CutRecovery` what recoveries
cut off anywhere leave, `PageLsns` and `LostCommit` what the pageLSNs left by undo mean for later updates.
`Checkpoints` says which checkpoint the master record names and what start-up finds there, `DirtyPages` what the dirty
page table lists, `FileLengths` and `FileTails` how long the files are.
`DiskSpaceManager`, `RecoveryManager` and `BufferManager` are the
classes of the source with their loops and in-place updates; each method is proved to take the engine
from one value of the state machine to the next, so the invariants and theorems apply to them.

**Buffer pool.** `PoolSize` runs two engines with different pools side by side: size and policy are
invisible to the client, and a larger pool of the same policy never has fewer hits.

**B+ tree, hash index, heap, and the manager over them.** `Entries` is the abstract content of an index, `BTree` and
`BTreeShape` the tree as a value, `BTreePages` a tree laid out on pages with its leaf chain, `BPlusTree`
the class that works on the pages. `HashIndex` and `HeapScan` do the same for overflow chains and the
heap. `SlottedPages` is what the page formats share. `FileIndexManager` puts one relation under each of the three strategies: its methods have one
contract for all of them. `PageLayout`, `NodeLayout`, `Values` and `LogText` are the byte and text
formats.

## What the code does differently from what one would expect

- An update with LSN 0 is skipped by redo when its page is already on disk as a hole of zeros, since a
  zero page reads as pageLSN 0. `LostUpdate.RedoExactly` says exactly when this shows, and
  `FullRecovery.CrashAtomicity` gives crash atomicity with it taken into account.
- Undo puts the pageLSN back together with the other bytes, logs nothing and ends the transaction. A
  later restart can therefore redo a loser's update and no longer undo it (`SecondRestart.LosersReturn`,
  `SecondRestart.LoserReturns`); `SecondRestart.SecondRecoveryPage` and `SecondRestart.SecondRecoveryByte`
  say exactly what it changes, and `CutRecovery.CutAnywhere` what is left of the losers when the recovery
  itself is cut off in Undo. Runs therefore contain any number of crashes whose recovery found no losers, that
  recovery cut off as often as one likes, and the end-to-end theorems add one final crash with any losers.
- Undo restores the pageLSN byte by byte too, and so can leave one mixed from several updates
  (`PageLsns.RecoveredLsn`). It may then not be below the next LSN, exactly under the condition of
  `PageLsns.LsnsExceed`, and redo passes over later updates of that page (`PageLsns.LaterUpdates`): a transaction
  that commits after such a recovery can be lost in the next crash (`LostCommit.CommitLost`,
  `LostCommitExample.CommitGone`).
- A file id may contain the character that separates the entries of a serialised dirty page table; the
  entry then comes back as another page (`LogText.DptMisread`, `LogText.DptRoundTrip`) and redo can lose a
  committed update (`LogText.MisreadLosesUpdate`). The invariants of logs and runs are about logged files whose
  ids do not contain it, and there every checkpoint reads back as written (`LogText.CheckpointReadsBack`).
- Allocating a page id for which a frame is already cached overwrites that frame with zeros
  (`PoolInvariant.AllocatePageInv`), as happens to a page written just past the end of a file
  (`PoolInvariant.WriteThenAllocate`).
- A record whose slot reaches past the end of its page makes the buffer manager refuse the write
  (`buffer_manager.py:95`), so `create_record` fails as long as that slot is the first free one
  (`FileIndexManager.Manager.CreateRecord`, `HeapScan.TargetFits`).
- max_keys is never below four, so on a page below 80 bytes (192 with text keys) a full leaf does not fit, and
  neither do ten hash entries on a page below 432 bytes (`FileIndexManager.PageSizes`). There the index insert
  can fail after the heap insert (`file_index_manager.py:157-172`) and leaves a row without an index entry,
  exactly when `FileIndexManager.Manager.CreateRecord` says (`FileIndexManager.SmallTree`,
  `FileIndexManager.FourthRow`); on larger pages it never does (`FileIndexManager.RoomyIndex`).
- A write just past the end of a file moves the page count only when its frame is written back, so the next
  allocation depends on the size of the pool (`PoolSize.PastEndShows`).
- A byte that a winner changed after a loser had changed it gets the value from before the loser's change;
  atomicity holds byte by byte exactly where `Undo.Survives` does.
- Analysis from a checkpoint and from the start of the log can disagree on a committed transaction without
  updates (`Analysis.UpdatelessCommitDiffers`), exactly when the checkpoint names one that has no end record yet
  (`Analysis.CheckpointAgreesWithFullScan`); this only changes whether it gets an end record, and recovery ends in
  the same pages all the same (`FullRecovery.CheckpointIrrelevant`).

## Model

| member | source | states |
|---|---|---|
| `Runs.EndToEnd` | recovery_manager/recovery_manager.py:264-405 | after any run from an empty directory (begin, logged write, commit, read, allocate, flush, checkpoints, evictions, crashes inside any operation, restarts that find no losers and may themselves be cut off anywhere), and one last crash at any durable state followed by recoveries cut off in Redo that start outside the zero-LSN case, the recovery that completes, from any state, leaves a byte as the winners alone would have made it if and only if it is restored: no winner changed it after a loser first did, or the last such winner wrote the old value, and no lost zero-LSN update shows in it; for recoveries cut off in Undo see CutRecovery.EndToEndCuts |
| `CutRecovery.EndToEndCuts` | recovery_manager/recovery_manager.py:264-405 | after any such run, a last crash, and recoveries cut off in Redo, in Undo or while closing transactions, any number of them, the recovery that completes leaves exactly these pages: each cut-off recovery ran redo over the page up to some record or, after all of it, undid the open losers from the end of the log down to some record, and the last one undoes the losers that have no end record yet |
| `Runs.CommitIsDurable` | recovery_manager/recovery_manager.py:133-143 | once commit has returned, every record emitted before it is durable at every later crash point and the transaction is never a loser again |
| `Runs.WalOne` | recovery_manager/recovery_manager.py:198-202 | WAL rule 1 in every reachable state: a page on disk is all zeros or has its pageLSN at or below flushedLSN |
| `Runs.BufferOrdered` | recovery_manager/recovery_manager.py:422-455 | the log buffer holds strictly increasing LSNs above flushedLSN and below the next one |
| `Runs.CutsInv` | recovery_manager/recovery_manager.py:264-280 | recoveries of a database without losers may be cut off at any durable state, any number of times: what they leave is a crash state of the invariant, and wal.log loses nothing |
| `Runs.RedoCutsInv` | recovery_manager/recovery_manager.py:339-357 | recoveries with losers may be cut off anywhere in Redo, any number of times, with the same log and a crash state of the invariant left behind |
| `Runs.RestartLsns` | recovery_manager/recovery_manager.py:97-100 | after a restart from a crash state of a run new LSNs exceed the pageLSN of every page found on disk, before redo and undo touch it; for the pages undo leaves see PageLsns.LsnsExceed |
| `Runs.ApplyInv` | recovery_manager/recovery_manager.py:126-225 | every client operation keeps the engine and pool invariant and only grows the durable history |
| `Runs.CrashPointOk` | buffer_manager/buffer_manager.py:64-88 | at every durable state an operation passes through, each page is the replay of a prefix of its logged updates and the checkpoint tables cover the missing ones |
| `Runs.RestartInv` | recovery_manager/recovery_manager.py:264-280 | a restart that finds no losers re-establishes the running invariant |
| `Runs.RunGrows` | recovery_manager/recovery_manager.py:444-455 | wal.log is only ever extended, over whole runs with crashes |
| `FullRecovery.CrashAtomicity` | recovery_manager/recovery_manager.py:264-405 | crash atomicity of one recovery, from every crash state: a byte is the winners-only one if and only if it survives undo and is not an untouched byte in which a lost zero-LSN update shows |
| `FullRecovery.RecoveredAlways` | recovery_manager/recovery_manager.py:264-405 | from every crash state recovery leaves each page as its replayed history, less the one update the zero-LSN test loses, with the losers undone newest first |
| `FullRecovery.CheckpointIrrelevant` | recovery_manager/recovery_manager.py:217-225 | with the checkpoint of the master record, with another one or with none, and in any order of closing records, recovery ends in the same pages |
| `Recovery.RecoveredPage` | recovery_manager/recovery_manager.py:264-405 | recovery leaves each page as the replay of its whole durable history with the losers undone, newest first |
| `Analysis.CheckpointsLoseNothing` | recovery_manager/recovery_manager.py:283-318 | from any two master records Analysis finds the same losers, exactly the updaters without a commit record, and the same entry for every transaction with updates that has not ended; for the others see the next three rows |
| `Analysis.CheckpointAgreesWithFullScan` | recovery_manager/recovery_manager.py:283-318 | the scan from the checkpoint and the scan of the whole log agree on every entry with an LSN if and only if each transaction of the checkpoint without updates that has a commit record also has an end record |
| `Analysis.TablesAgree` | recovery_manager/recovery_manager.py:283-318 | the same for any two master records: their snapshots name the same committed, unended transactions without updates |
| `Analysis.WholeTablesAgree` | recovery_manager/recovery_manager.py:283-318 | two scans give equal tables, entries without an LSN included, if and only if their snapshots name the same unended transactions without updates |
| `Analysis.TablesName` | recovery_manager/recovery_manager.py:283-318 | the table names exactly the unended transactions that have updates or stand in the snapshot of the checkpoint |
| `Analysis.AnalysisTx` | recovery_manager/recovery_manager.py:283-318 | wherever the scan starts, each table entry has the status and lastLSN the whole log gives it |
| `Analysis.AnalysisDpt` | recovery_manager/recovery_manager.py:303-318 | each page missing a durable update is in the dirty page table with recLSN at or below the first missing one |
| `Analysis.CheckpointEndIs` | recovery_manager/recovery_manager.py:283-301 | Analysis starts from record e if and only if e is the first end record after a begin record whose LSN is the one in master.rec |
| `Analysis.AnalysisDptIs` | recovery_manager/recovery_manager.py:283-318 | the dirty page table exactly: a page listed by that checkpoint has the recLSN given there, any other is listed if and only if it was updated after the end record, with the LSN of the first such update; without such a checkpoint the same over the whole log |
| `Analysis.StartTxIs` | recovery_manager/recovery_manager.py:283-301 | the transactions the scan starts with are those of that checkpoint, or none |
| `Analysis.UndoLosersAre` | recovery_manager/recovery_manager.py:360-370 | the losers of undo are exactly the transactions with logged updates and no commit record |
| `Analysis.OnlyUpdatelessDiffer` | recovery_manager/recovery_manager.py:283-318 | an entry two tables disagree on belongs to a transaction without updates that only one snapshot names, and it has no LSN or a commit record |
| `Analysis.UpdatelessCommitDiffers` | recovery_manager/recovery_manager.py:311-318 | a concrete log on which the checkpoint scan and the full scan give different tables, for a committed transaction without updates |
| `Redo.RedoRepeatsHistory` | recovery_manager/recovery_manager.py:321-357 | from any crash state outside the zero-LSN case, Redo ends with every page equal to the replay of all its durable updates, pages that never reached disk included |
| `FullRecovery.RedoInterrupted` | recovery_manager/recovery_manager.py:339-357 | Redo that starts outside the zero-LSN case, stopped after any of its page writes and started over, reaches the same pages if and only if no lost zero-LSN update shows on the state it was stopped in, which its own zero pages can bring about |
| `Redo.RedoStep` | recovery_manager/recovery_manager.py:332-357 | the loop invariant of Redo: after m records each page holds at least its updates among them, so every skip is justified |
| `FileLengths.RecoveredLengths` | recovery_manager/recovery_manager.py:329-357 | after start-up a file is as long as it was found or as its updates that redo looks at need, whichever is more, a missing file is created only for such an update, and the page counts agree |
| `FileLengths.FirstAllocation` | disk_space_manager/disk_space_manager.py:147-167 | so the first allocation after start-up hands out exactly the page after those |
| `LostUpdate.RedoExactly` | recovery_manager/recovery_manager.py:339-345 | Redo repeats history if and only if either no update with LSN 0 meets a zero page already on disk, or none of its bytes shows through the later updates |
| `LostUpdate.LostUpdateExample` | recovery_manager/recovery_manager.py:343-344 | a concrete crash state from which Redo loses the update with LSN 0 |
| `LostUpdate.AllButFirst` | recovery_manager/recovery_manager.py:321-357 | in the zero-LSN case Redo still repeats history on every other page, and on that page all updates but the first |
| `SecondRestart.SecondRecoveryPage` | recovery_manager/recovery_manager.py:264-405 | the restart after any recovery, losers or not: every page is the one that recovery left, with the redo test and patch run over its logged updates once more if the dirty page table lists it, and nothing is undone |
| `SecondRestart.SecondRecoveryByte` | recovery_manager/recovery_manager.py:329-357 | that restart keeps a byte if and only if redo applies no update over it or the last one it applies writes the value already there |
| `SecondRestart.SecondAtomicByte` | recovery_manager/recovery_manager.py:264-405 | after the two restarts a byte is the winners-only one if and only if the last update redo applied over it the second time wrote it so, or, where there is none, the first recovery restored it |
| `SecondRestart.LosersReturn` | recovery_manager/recovery_manager.py:391-403 | where the losers' updates end a page's history and the dirty page table lists the page from the first of them, recovery removes them all and the next restart brings them all back |
| `SecondRestart.RedoTouchesNothing` | recovery_manager/recovery_manager.py:329-345 | Redo issues no write at all if and only if the page of every record it looks at is on disk with a pageLSN at or above the record |
| `PageLsns.RecoveredLsn` | recovery_manager/recovery_manager.py:391-396 | the pageLSN every recovery leaves, from the log alone and in the zero-LSN case too: each of its eight bytes is that of the LSN of the update before the first one by which a loser altered that byte |
| `PageLsns.LsnsExceed` | recovery_manager/recovery_manager.py:97-100 | after a recovery a pageLSN is below the next LSN if and only if that mixed LSN is below the LSN after the log plus one for each loser and each closing record; a start after it goes on from the same next LSN |
| `PageLsns.NextRedo` | recovery_manager/recovery_manager.py:321-357 | what the next redo makes of a page that is still as a recovery left it, whatever was logged since: the pageLSN test and patch for the updates from before and after that recovery, starting at the mixed LSN |
| `PageLsns.UpdateApplied` | recovery_manager/recovery_manager.py:329-357 | that redo applies a logged update of the page if and only if the page is listed, the update is not below its recLSN and above the pageLSN redo has reached, starting from the mixed LSN; otherwise it does nothing with it |
| `PageLsns.LaterUpdates` | recovery_manager/recovery_manager.py:343-345 | where no earlier update in reach of redo lies above the mixed LSN, the next redo applies all updates of the page logged after that recovery if and only if the mixed LSN is below the first of them, and passes over each one that is not above it |
| `PageLsns.ShieldedExactly` | recovery_manager/recovery_manager.py:343-345 | redo applies no update of a history to a page if and only if every one at or above its recLSN has an LSN up to the pageLSN |
| `LostCommit.CommitLost` | recovery_manager/recovery_manager.py:343-345 | wherever a recovery leaves a mixed LSN not below the next LSN, a transaction that begins, writes that page and commits is gone from it after the next crash and recovery, unless the page was written back |
| `LostCommit.CommitKept` | recovery_manager/recovery_manager.py:343-345 | where the mixed LSN is below the next LSN and no update from the recLSN on lies above it, the next recovery leaves the page as that transaction wrote it |
| `LostCommitExample.UndoneLsnTooHigh` | recovery_manager/recovery_manager.py:391-396 | a crash state of a log without gaps from LSN 0 to 257 after whose recovery the next LSN is 260 and a page has pageLSN 510 |
| `LostCommitExample.CommitGone` | recovery_manager/recovery_manager.py:343-345 | from there a transaction sets a byte of the page and commits, and the next recovery leaves the byte as it was |
| `CutRecovery.FirstStop` | recovery_manager/recovery_manager.py:360-405 | a recovery cut off after Redo leaves every page with the losers undone from some record on, end records only in the log, and each transaction they close undone whole |
| `CutRecovery.StopPoint` | recovery_manager/recovery_manager.py:264-405 | a recovery of such a state, cut off at any durable state or complete: redo up to some record, or all of redo and then the open losers undone from some record on, on every page alike |
| `CutRecovery.ResumedPage` | recovery_manager/recovery_manager.py:264-405 | a recovery of such a state that completes: redo over the page if Analysis lists it, then the losers without an end record undone |
| `CutRecovery.ResumedByte` | recovery_manager/recovery_manager.py:391-396 | the same by bytes: one that an open loser altered gets its value before the first such change, any other is what the last update redo applies over it writes, or as it was |
| `CutRecovery.OpenTables` | recovery_manager/recovery_manager.py:283-318 | after any cut Analysis finds the same dirty page table, and as losers exactly those without an end record |
| `CutRecovery.CutAnywhere` | recovery_manager/recovery_manager.py:264-405 | a crash, a recovery cut off in Undo, any number of recoveries cut off anywhere, and one that completes: the content of every page |
| `AfterRecovery.FirstLeaves` | recovery_manager/recovery_manager.py:264-280 | a recovery adds only end records to the log, at least one for each loser, keeps master.rec, and leaves every updated page in its file |
| `AfterRecovery.SecondTables` | recovery_manager/recovery_manager.py:283-318 | the next Analysis finds the same dirty page table and no losers |
| `SecondRestart.LoserReturns` | recovery_manager/recovery_manager.py:391-403 | a concrete crash state where recovery undoes and ends the loser, and a second restart, finding no losers, redoes its update |
| `Undo.AtomicByte` | recovery_manager/recovery_manager.py:373-405 | after Redo, undo gives a byte its winners-only value if and only if it survives |
| `Undo.UndoneByte` | recovery_manager/recovery_manager.py:391-396 | undo gives each byte the value it had before the first loser change to it, and the replayed value where no loser changed it |
| `Undo.UndoTail` | recovery_manager/recovery_manager.py:373-405 | where the losers' updates are the tail of a page's history, undo returns the earlier page exactly, pageLSN included |
| `RecoveryManager.UndoOrder` | recovery_manager/recovery_manager.py:373-405 | the updates undo handles are each loser update once, in strictly decreasing LSN order |
| `RecoveryManager.RunStartable` | recovery_manager/recovery_manager.py:84-121 | every crash state of a run meets what start-up relies on: LSNs increase, windows fit their page, and the table leads to the linked updates of every loser |
| `RecoveryManager.RecoveryStartable` | recovery_manager/recovery_manager.py:84-121 | so does what recovery leaves of such a crash state: a log of a run with the end records of the losers it undid |
| `RecoveryManager.ChainRecord` | recovery_manager/recovery_manager.py:422-442 | the chain heads of undo always name the latest unhandled record of their transaction, so prev_lsn visits exactly its records |
| `RecoveryManager.Recoverer.PhaseUndo` | recovery_manager/recovery_manager.py:360-405 | over a log with increasing LSNs and linked loser records, the undo loop equals undoing all losers' records from the end of the log, handles exactly the loser updates in that order, and terminates |
| `RecoveryManager.Recoverer.PhaseRedo` | recovery_manager/recovery_manager.py:321-357 | the redo loop, with its recLSN cut-off, equals redoing every record in order |
| `RecoveryManager.Recoverer.PhaseAnalysis` | recovery_manager/recovery_manager.py:283-318 | the two loops of Analysis compute the tables of the specification, from snapshot tables that LogText.CheckpointReadsBack shows to be the ones written |
| `RecoveryManager.Recoverer.RunRecovery` | recovery_manager/recovery_manager.py:264-280 | start-up recovery equals the specified recovery for some order of closing records, whatever run or recovery left the log |
| `RecoveryManager.Recoverer.constructor` | recovery_manager/recovery_manager.py:84-121 | start-up takes whatever a run or an earlier recovery left durable to the recovered engine |
| `RecoveryManager.Recoverer.LogPageUpdate` | recovery_manager/recovery_manager.py:148-189 | stamping, diffing, logging and the dirty page table entry, as the specified transition |
| `RecoveryManager.Recoverer.Commit` | recovery_manager/recovery_manager.py:133-143 | commit as the specified transition |
| `RecoveryManager.Recoverer.BeginTransaction` | recovery_manager/recovery_manager.py:126-131 | a new active transaction and the checkpoint that may be due |
| `RecoveryManager.Recoverer.Checkpoint` | recovery_manager/recovery_manager.py:217-225 | the fuzzy checkpoint as the specified transition: the current tables in the end record, master.rec last |
| `RecoveryManager.Recoverer.EmitWithLsn` | recovery_manager/recovery_manager.py:422-442 | a record linked to its transaction's previous one, and the flush of a full buffer |
| `RecoveryManager.Recoverer.FlushLog` | recovery_manager/recovery_manager.py:444-455 | the buffer reaches wal.log record by record, every prefix being a durable state |
| `RecoveryManager.Recoverer.FlushLogUpTo` | recovery_manager/recovery_manager.py:198-202 | nothing happens when the LSN is already durable, else the whole buffer is flushed |
| `RecoveryManager.Recoverer.EnsurePageExists` | recovery_manager/recovery_manager.py:407-412 | a missing file is created and zero pages are appended up to the page |
| `RecoveryManager.Recoverer.UndoRecord` | recovery_manager/recovery_manager.py:379-405 | one pass of the undo loop body |
| `RecoveryManager.RestoreBytes` | recovery_manager/recovery_manager.py:393-396 | undo's byte loop restores exactly the bytes the change altered |
| `CoreInvariant.CommitInv` | recovery_manager/recovery_manager.py:133-143 | commit keeps the invariant, and its records are durable when it returns |
| `CoreInvariant.CheckpointInv` | recovery_manager/recovery_manager.py:217-225 | a checkpoint taken at any time keeps the invariant, its tables valid for every later crash |
| `Checkpoints.CheckpointFound` | recovery_manager/recovery_manager.py:217-225 | right after a checkpoint Analysis, from the LSN just written to master.rec, gives exactly the two tables it was taken of |
| `Checkpoints.MasterSound` | recovery_manager/recovery_manager.py:493-509 | in every durable state of every run, with crashes and restarts in it, master.rec names nothing or a complete checkpoint of wal.log |
| `Checkpoints.MasterCurrent` | recovery_manager/recovery_manager.py:217-225 | where no crash of the run fell between the end record of a checkpoint and its master record, master.rec names the last complete checkpoint in every state outside such a window |
| `Checkpoints.StartsAtLast` | recovery_manager/recovery_manager.py:283-301 | and then Analysis starts from it, or scans the whole log when there is none |
| `Checkpoints.NothingOverdue` | recovery_manager/recovery_manager.py:211-215 | in every reachable state the log buffer is below its limit and the operations counted are below the checkpoint interval |
| `Checkpoints.BeginDue` | recovery_manager/recovery_manager.py:126-131 | a begin enters the transaction under the next id, and counts towards the next checkpoint, taken exactly when it is due and of the tables at that moment |
| `Checkpoints.UpdateDue` | recovery_manager/recovery_manager.py:148-189 | so does a logged write, whose page enters the dirty page table first unless it is in it |
| `Checkpoints.EmitFlushes` | recovery_manager/recovery_manager.py:422-442 | a record flushes the log exactly when it fills the buffer |
| `CoreInvariant.LogPageUpdateInv` | recovery_manager/recovery_manager.py:148-189 | a logged write keeps the invariant and extends the page's history by an update that turns its current content into the stamped page |
| `CoreInvariant.CrashDuringFlush` | recovery_manager/recovery_manager.py:444-455 | a crash after any number of appended records leaves a state recovery can start from |
| `CoreInvariant.EveryPrefixDurable` | recovery_manager/recovery_manager.py:444-455 | a flush passes through one durable state per buffered record, the log having grown by exactly the records up to it |
| `Pages.DiffWindow` | recovery_manager/recovery_manager.py:67-79 | patching the before-image with the logged window gives the stamped page exactly, and the window starts and ends at bytes that differ |
| `Pages.ComputeDiffRange` | recovery_manager/recovery_manager.py:67-79 | the two scanning loops find the first and the last differing byte |
| `Pages.StampedLsn` | recovery_manager/recovery_manager.py:46-55 | the pageLSN read back is the one stamped |
| `Pages.LeBytesAt` | recovery_manager/recovery_manager.py:46-55 | numbers are stored least significant byte first |
| `LogText.DptRoundTrip` | recovery_manager/recovery_manager.py:233-259 | a dirty page table survives serialising and parsing if and only if no file id in it contains the entry separator |
| `LogText.DptMisread` | recovery_manager/recovery_manager.py:249-259 | a valid file id with the separator in it is read back as a page of another file |
| `LogText.CheckpointReadsBack` | recovery_manager/recovery_manager.py:227-259 | in a log of the engine's invariant both tables of every checkpoint come back from their text exactly as they were |
| `LogText.MisreadLosesUpdate` | recovery_manager/recovery_manager.py:249-259 | a concrete log with such a file id from which recovery loses a committed update |
| `LogText.TxRoundTrip` | recovery_manager/recovery_manager.py:227-247 | a transaction table always survives serialising and parsing |
| `LogText.PageKeyRoundTrip` | recovery_manager/recovery_manager.py:512-521 | page keys survive, colons in the file id included |
| `LogText.HexRoundTrip` | recovery_manager/recovery_manager.py:58-64 | byte images survive hex coding |
| `LogText.HexAt` | recovery_manager/recovery_manager.py:58-60 | two lower-case digits for each byte, the high one first |
| `LogText.DptText` | recovery_manager/recovery_manager.py:233-237 | the text of a dirty page table of two pages |
| `LogText.TxText` | recovery_manager/recovery_manager.py:227-231 | the text of a transaction table of two transactions |
| `LogText.IdsConfined` | disk_space_manager/disk_space_manager.py:99-109 | the accepted file ids are exactly those that, resolved as a path, name an entry of the data directory itself |
| `PoolSize.PoolIsInvisible` | buffer_manager/buffer_manager.py:64-222 | over any run on allocated pages, two engines that differ in pool size and policy give the same answers and keep equal logical stores |
| `PoolSize.PastEndShows` | buffer_manager/buffer_manager.py:97-103 | without that restriction pools can be told apart: after a write just past the end of a file and one read, a pool of one frame hands out the page after the written one and a pool of two the written one again |
| `PoolSize.StackProperty` | buffer_manager/buffer_manager.py:56-88 | over any such run a smaller LRU or MRU pool holds a subset of what a larger one of that policy holds, and has no more hits |
| `PoolSize.NestedAfter` | buffer_manager/buffer_manager.py:56-62 | one use of a page keeps the small pool inside the large one, for LRU and for MRU |
| `PoolSize.StepAlike` | buffer_manager/buffer_manager.py:108-251 | one operation gives two such engines the same answer and leaves them indistinguishable |
| `PoolSize.FreshInside` | buffer_manager/buffer_manager.py:19-55 | two empty databases with pools of any two sizes start so |
| `PoolInvariant.WalFirst` | buffer_manager/buffer_manager.py:256-260 | flushing the log up to a page's pageLSN makes the page's whole history durable |
| `PoolInvariant.WriteBackInv` | buffer_manager/buffer_manager.py:76-84 | writing back a current page succeeds, changes no other page, takes exactly that page out of the dirty page table and keeps the invariant |
| `PoolInvariant.ForcedWhenNeeded` | buffer_manager/buffer_manager.py:256-260 | a write-back forces the log exactly when an update of the page is not durable, or when the page has none and nothing is durable yet |
| `PoolInvariant.WriteAccepted` | buffer_manager/buffer_manager.py:90-103 | the buffer manager accepts a write exactly when the disk manager would: a whole page of a safe file, all pages before which can be read |
| `PoolInvariant.UnloggedWrite` | buffer_manager/buffer_manager.py:153-204 | a write outside a transaction replaces the page unstamped and logs nothing, and the invariant survives it if and only if it changes nothing |
| `DirtyPages.DirtyTableExact` | recovery_manager/recovery_manager.py:204-206 | in every run without a restart the dirty page table lists exactly the pages whose disk version lacks an update, each with the LSN of the first one it lacks; they are dirty frames, and any other dirty frame is that of a page for which nothing was logged |
| `DirtyPages.FlushedTableEmpty` | buffer_manager/buffer_manager.py:241-251 | and a flush empties it |
| `DirtyPages.FlushFramesExact` | buffer_manager/buffer_manager.py:241-251 | a flush takes the pages it writes out of the table and leaves every other entry as it was |
| `FileTails.FlushedLengths` | buffer_manager/buffer_manager.py:209-251 | after any run, restarts included, and a flush every file has as many pages on disk as the engine says, allocated ones included |
| `PoolInvariant.MakeRoomInv` | buffer_manager/buffer_manager.py:64-88 | an eviction frees a frame, loses no write and changes nothing the client sees |
| `PoolInvariant.GetPageInv` | buffer_manager/buffer_manager.py:108-148 | a read returns the logical page, and changes no page the client can see |
| `PoolInvariant.WritePageInv` | buffer_manager/buffer_manager.py:153-204 | a valid write stamps its page with a fresh LSN, replaces it in the logical store and touches no other page; an invalid one changes nothing |
| `PoolInvariant.AllocatePageInv` | buffer_manager/buffer_manager.py:209-222 | allocation hands out the next page id, whose page then reads as zeros, and changes no other page; the invariant and the store are kept if and only if that page read as zeros before, as it does unless a frame for it is cached |
| `PoolInvariant.WriteThenAllocate` | buffer_manager/buffer_manager.py:153-222 | a write of the page just past the end of a file, kept in a frame, is overwritten with zeros by the next allocation in that file |
| `PoolInvariant.FlushInv` | buffer_manager/buffer_manager.py:241-251 | after flush the disk equals the logical store |
| `PoolInvariant.BeforeIsCurrent` | buffer_manager/buffer_manager.py:262-272 | the before-image handed to the log is the current page |
| `BufferManager.Buffer.MakeRoom` | buffer_manager/buffer_manager.py:64-88 | eviction in place equals the specified transition |
| `BufferManager.Buffer.GetPage` | buffer_manager/buffer_manager.py:108-148 | the read path in place equals the specified transition |
| `BufferManager.Buffer.WritePage` | buffer_manager/buffer_manager.py:153-204 | the write path in place equals the specified transition |
| `BufferManager.Buffer.AllocatePage` | buffer_manager/buffer_manager.py:209-222 | allocation in place equals the specified transition |
| `BufferManager.Buffer.Flush` | buffer_manager/buffer_manager.py:241-251 | the flush loop equals flushing the frames in order |
| `DiskSpaceManager.Disk.WritePage` | disk_space_manager/disk_space_manager.py:205-237 | a page write succeeds exactly for a valid id, a whole page and a page id up to the end of the file |
| `DiskSpaceManager.Disk.ReadPage` | disk_space_manager/disk_space_manager.py:180-203 | a page below the page count reads as stored, or as zeros past the end of the file |
| `DiskSpaceManager.Disk.AllocatePage` | disk_space_manager/disk_space_manager.py:147-167 | the next page id is reserved without touching the disk |
| `DiskSpaceManager.Disk.WriteMaster` | recovery_manager/recovery_manager.py:493-503 | master.rec is empty, which reads as no checkpoint, before it holds the new LSN |
| `DiskSpaceManager.Disk.RawWrite` | disk_space_manager/disk_space_manager.py:239-248 | a write past the end leaves a hole of zeros and moves the page count |
| `BTreeShape.ReachableTree` | file_index_manager/bplus_tree.py:67-319 | every tree that checked inserts and deletes can build holds exactly the map of its run, keeps separators bounding subtrees, one leaf depth and the key limits, and a height of h >= 2 needs 2 * (m/2+1)^(h-2) leaves, at most one more than the inserts performed |
| `BTree.InsertCorrect` | file_index_manager/bplus_tree.py:240-293 | inserting an absent key, with leaf and inner splits, adds exactly that entry and keeps the order bounds |
| `BTree.SplitsHalve` | file_index_manager/bplus_tree.py:270-293 | both kinds of split halve: the two nodes differ by one key at most and the lower one is not the smaller |
| `BTreeShape.InsertShape` | file_index_manager/bplus_tree.py:240-293 | insertion keeps leaf depth and key limits and adds at most one leaf |
| `BTreeShape.InsertRootInv` | file_index_manager/bplus_tree.py:218-238 | a root split grows the tree by one level and keeps its invariant |
| `BTreeShape.DeleteCorrect` | file_index_manager/bplus_tree.py:296-319 | lazy deletion removes exactly that key and keeps the order bounds |
| `BTreeShape.DeleteShape` | file_index_manager/bplus_tree.py:296-319 | lazy deletion keeps the shape and the number of leaves |
| `BTreeShape.HeightNeedsLeaves` | file_index_manager/bplus_tree.py:171-192 | a search that visits h >= 2 nodes implies at least 2 * (m/2+1)^(h-2) leaves |
| `BTree.LeafHasKey` | file_index_manager/bplus_tree.py:171-192 | the leaf the separators lead to answers for the whole tree |
| `BTree.TreeSorted` | file_index_manager/bplus_tree.py:270-293 | the entries of an ordered tree are strictly increasing and within its bounds |
| `BTreePages.InsertPages` | file_index_manager/bplus_tree.py:240-293 | insertion uses the old pages and the freshly allocated ones, each once, and keeps page and first leaf of the subtree |
| `BTreePages.StoredChain` | file_index_manager/bplus_tree.py:270-281 | in a stored tree the leaf links visit all leaves in key order |
| `BTreePages.DeleteStored` | file_index_manager/bplus_tree.py:296-319 | deletion rewrites one leaf page and nothing else |
| `BTreePages.SplitStored` | file_index_manager/bplus_tree.py:283-293 | an inner split leaves both halves stored, the old page holding the lower one |
| `BPlusTree.BPlusTree.Search` | file_index_manager/bplus_tree.py:171-192 | search is exact lookup, and visits one node per level |
| `BPlusTree.BPlusTree.Insert` | file_index_manager/bplus_tree.py:218-238 | on its pages insert refines the tree insertion: content, root page, allocated pages and visited nodes; it fails, with nothing stored changed, exactly when the leaf is not full and its page has no room for one more entry |
| `BPlusTree.BPlusTree.InsertRecursive` | file_index_manager/bplus_tree.py:240-268 | the recursive step refines the insertion into the subtree and changes no page outside it |
| `BPlusTree.BPlusTree.SplitLeafPage` | file_index_manager/bplus_tree.py:270-281 | the old leaf keeps the lower half and links to the new one, which takes over its link |
| `BPlusTree.BPlusTree.SplitInternalPage` | file_index_manager/bplus_tree.py:283-293 | the middle key moves up and the new page takes the keys and children above it |
| `BPlusTree.RoomyFits` | file_index_manager/bplus_tree.py:62-67 | where four leaf entries fit a page, every node of up to max_keys keys does, so that no split half and no inner node is ever refused |
| `BPlusTree.MaxKeysIs` | file_index_manager/bplus_tree.py:62-67 | max_keys is the largest number up to 50 for which both kinds of node fit, and four where four leaf entries do not |
| `BPlusTree.BPlusTree.Delete` | file_index_manager/bplus_tree.py:296-319 | delete is exact removal and reports whether the key was there |
| `BPlusTree.BPlusTree.RangeSearch` | file_index_manager/bplus_tree.py:322-362 | the walk along the leaf links returns exactly the pointers of the keys in the range, ascending, empty leaves included, terminates, and counts the leaves it reads: from the leaf of the lower end up to the first with a key past the upper end |
| `BPlusTree.ScanLeaf` | file_index_manager/bplus_tree.py:349-360 | the hits of one leaf, stopping exactly at the first key past the range |
| `BPlusTree.RootInserted` | file_index_manager/bplus_tree.py:218-238 | the whole-tree invariant on pages after an insertion, with or without a root split |
| `Entries.LookupIsMap` | file_index_manager/bplus_tree.py:171-192 | lookup on the entry list is lookup in its map |
| `Entries.RangeIsMap` | file_index_manager/bplus_tree.py:322-362 | a pointer is in the range result if and only if a key of the range maps to it |
| `HashIndex.HashIndex.Insert` | file_index_manager/hash_index.py:117-158 | inserting a new key is the map update and goes into the first free slot in chain order, into one fresh overflow page only when there is none; every page up to it is counted; chains stay acyclic and disjoint; it is refused, with nothing changed, exactly when the slot reaches past the end of its page, which no overflow page ever causes |
| `HashIndex.HashIndex.LookupPointer` | file_index_manager/hash_index.py:164-194 | lookup along the chain is exact, terminates, and counts the pages read: up to the one holding the key, or all of the bucket |
| `HashIndex.HashIndex.DeleteKey` | file_index_manager/hash_index.py:226-255 | deletion is map removal, frees exactly the slot of the key, keeps the chains and counts the pages read |
| `HashIndex.HashIndex.BuildEmpty` | file_index_manager/hash_index.py:101-111 | exactly one page per bucket, holding the empty map |
| `HashIndex.PutHolds` | file_index_manager/hash_index.py:138-158 | a new entry in a free slot of its own chain keeps each key at one place in its own bucket |
| `HashIndex.GrownLayout` | file_index_manager/hash_index.py:148-158 | linking a fresh page after the last one keeps the chains acyclic and pairwise disjoint |
| `HashIndex.HomeIsHash` | file_index_manager/hash_index.py:83-86 | the blob of a key is at home in the bucket the key hashes to |
| `Values.HashSteps` | file_index_manager/hash_index.py:83-86 | consecutive integers hash to consecutive buckets in turn, 0 to the first, and each character of a text moves on by its code |
| `Values.KeyRoundTrip` | file_index_manager/hash_index.py:64-80 | a key blob decodes to the key it was made from |
| `Values.DigitAt` | file_index_manager/hash_index.py:64-68 | an integer key is written in decimal by place value, without leading zeros |
| `Values.RankOrder` | file_index_manager/bplus_tree.py:72-81 | integers, and padded ASCII strings read as numbers, compare as the keys do, so the tree over integers stands for both key types |
| `HeapScan.Heap.Insert` | file_index_manager/heap_scan.py:42-79 | the row goes into the first free slot within the cap, else onto a fresh page, and no other slot changes; it is refused exactly when that slot reaches past the end of its page |
| `HeapScan.TargetFits` | file_index_manager/page.py:158-176 | where the last slot under the cap fits, no insertion is refused |
| `HeapScan.Heap.FindLocation` | file_index_manager/heap_scan.py:163-190 | the first slot holding the key, or none when no slot does |
| `HeapScan.Heap.SearchByPk` | file_index_manager/heap_scan.py:111-160 | a row with the key, or none when no slot holds one |
| `HeapScan.Heap.RangeSearch` | file_index_manager/heap_scan.py:193-248 | every row in the range once, in heap order |
| `HeapScan.Heap.DeleteAt` | file_index_manager/heap_scan.py:95-105 | an occupied slot becomes free and no other slot changes |
| `FileIndexManager.Manager.CreateRecord` | file_index_manager/file_index_manager.py:120-193 | under each strategy a row is added to the relation if and only if it is well formed, its key is unused, the slot it would get lies inside its page and the index has room for the key; where only the index has no room the row stays in its slot without an index entry, and anything else leaves the relation as it was; the row is in the first free slot of the heap, and no other row moves |
| `FileIndexManager.RoomyIndex` | file_index_manager/file_index_manager.py:157-172 | on pages that ten hash entries or four tree entries fit the index has room for every key, whatever is stored |
| `FileIndexManager.PageSizes` | file_index_manager/bplus_tree.py:62-67 | those page sizes: 432 bytes for the hash index, and for the tree 80 with integer and 192 with text keys, exactly the sizes at which every slot of a bucket and every node up to max_keys fits |
| `FileIndexManager.SmallTree` | file_index_manager/bplus_tree.py:240-251 | on smaller pages the tree is a single leaf, and has room for one more key if and only if that many entries fit the page |
| `FileIndexManager.FourthRow` | file_index_manager/file_index_manager.py:157-186 | on pages of 191 bytes the fourth row with a text key ends up in the heap without an index entry |
| `FileIndexManager.Manager.DeleteRecord` | file_index_manager/file_index_manager.py:198-274 | under each strategy exactly that key leaves the relation, and the answer says whether it was there |
| `FileIndexManager.Manager.SearchRecord` | file_index_manager/file_index_manager.py:279-303 | under each strategy the row of the key, or not found |
| `FileIndexManager.Manager.RangeSearch` | file_index_manager/file_index_manager.py:314-378 | under each strategy the rows of the relation in the range, never downwards in the searched field and upwards by key where it is the same; refused for unknown or non-integer fields |
| `FileIndexManager.Manager.LookupPointer` | file_index_manager/file_index_manager.py:471-487 | under each strategy the slot the directory gives the key |
| `FileIndexManager.Manager.constructor` | file_index_manager/file_index_manager.py:56-115 | a new relation is empty under each strategy, for every page size from the header up |
| `FileIndexManager.AnswerUnique` | file_index_manager/file_index_manager.py:422-425 | the ordered answer of a range search is determined by the relation, so all strategies return the same rows in the same order |
| `FileIndexManager.AnswerAscends` | file_index_manager/file_index_manager.py:422-425 | the answer never goes down in the searched field, and goes up in the primary key where that stays the same |
| `FileIndexManager.AcceptedFits` | file_index_manager/file_index_manager.py:427-458 | a value is accepted for a field exactly when the field can hold it |
| `FileIndexManager.OrderRangeOrdered` | file_index_manager/file_index_manager.py:422-425 | sorting rows with distinct keys gives a strictly increasing list |
| `FileIndexManager.ScanAnswers` | file_index_manager/heap_scan.py:193-248 | the sorted rows of all occupied slots in the range are the answer |
| `FileIndexManager.TreeRangeHits` | file_index_manager/file_index_manager.py:353-371 | a tree range search names exactly the slots whose rows are in the range |
| `PageLayout.WriteRecordSlots` | file_index_manager/page.py:158-176 | a written record is in its slot, no other slot, header field or pageLSN changes, and record_count stays the number of occupied slots |
| `PageLayout.ClearSlotSlots` | file_index_manager/page.py:179-195 | a cleared slot is free, nothing else changes, and record_count follows |
| `PageLayout.SetNextOnly` | file_index_manager/page.py:204-207 | linking a page changes its next field only |
| `PageLayout.StampKeepsSlots` | recovery_manager/recovery_manager.py:53-55 | stamping the pageLSN changes no header field and no slot |
| `PageLayout.WriteRecordFits` | file_index_manager/page.py:158-176 | the page keeps its size if and only if the slot lies inside it |
| `PageLayout.StorableInts` | file_index_manager/page.py:89-94 | the storable integers are exactly those some four bytes decode to |
| `NodeLayout.WriteLeaf` | file_index_manager/bplus_tree.py:86-98 | the page reads as this leaf, page type and page id included, and has the configured size if and only if the entries fit |
| `NodeLayout.EntryAt` | file_index_manager/bplus_tree.py:91-97 | entry i, key then page id then slot, lies i entry sizes into the body of the leaf |
| `NodeLayout.ReadLeaf` | file_index_manager/bplus_tree.py:100-111 | a leaf page reads back to the same keys, values and link |
| `NodeLayout.WriteInternal` | file_index_manager/bplus_tree.py:113-127 | the page reads as this inner node, page type and page id included, and has the configured size if and only if the entries fit |
| `NodeLayout.ReadInternal` | file_index_manager/bplus_tree.py:129-141 | an inner node page reads back to the same keys and children |
| `NodeLayout.StampKeepsLeaf` | recovery_manager/recovery_manager.py:41-55 | the pageLSN in the reserved bytes disturbs neither the type, the id nor the content of a leaf |
| `NodeLayout.StampKeepsInner` | recovery_manager/recovery_manager.py:41-55 | nor an inner node |
| `NodeLayout.NodesFit` | file_index_manager/bplus_tree.py:62-67 | every node within max_keys fits its page if and only if the page has room for four leaf entries |
| `NodeLayout.DecodeRecord` | file_index_manager/page.py:123-133 | a record reads back to the values it was encoded from |
| `NodeLayout.FieldAt` | file_index_manager/page.py:116-120 | each field lies where the sizes of the fields before it add up to |
| `NodeLayout.FieldBytes` | file_index_manager/page.py:88-113 | an integer is its four bytes, a text is its characters and then zeros up to the field size |
| `NodeLayout.RowWritten` | file_index_manager/heap_scan.py:42-79 | writing a record's bytes is the slot update the heap works with |
| `NodeLayout.RowCleared` | file_index_manager/heap_scan.py:95-105 | clearing a record's bytes is the slot update the heap works with |

## Left out

- Real files, fsync, directories, CSV quoting and partial log lines: wal.log is a sequence of records, data files are sequences of pages, master.rec is a number.
- Records are values in the engine: the text of a record and of the checkpoint tables is modelled apart in `LogText`. Updates of files whose id contains the entry separator are outside the log invariant and so outside the crash theorems; `LogText.MisreadLosesUpdate` shows why.
- `query_processor/`, `archive.py` and the audit log: only that each write runs under one current transaction is kept, as the transaction argument of a write.
- `file_index_manager/catalog.py`: the fields and the primary key of a relation are constants of its manager; the catalog's page chain would be a simpler copy of the hash overflow chain.
- Writes outside a transaction, which the source does not log, and page ids below zero.
- Disk errors: page writes fail only for the reasons the source checks (file id, page size, page id).
- `deallocate_page` and the free lists: no caller uses them.
- Statistics, `estimate_io` and the pages_accessed and records_scanned counters; pool hits and the pages visited by both indexes are kept.
- Runs after a recovery that found losers, for the reason above; `SecondRestart` says exactly what the next restart makes of every page.
- Runs.EndToEnd: gives bytes for recoveries cut off in Redo; where one is cut off in Undo, `CutRecovery.EndToEndCuts` gives the pages as redo and undo make them and not a condition against the winners-only page. Cut-off Redo runs have to start outside the zero-LSN case, since redo then builds pages that are no prefix of their history.
- PageLsns.LaterUpdates: the exact condition is for pages on which redo does not apply earlier updates again; with those `PageLsns.NextRedo` gives the page as redo makes it.
- LostCommit.CommitLost: one write and no checkpoint between begin and commit; `PageLsns.NextRedo` is about any log that follows.
- PoolSize.PoolIsInvisible: covers writes to allocated pages; `PoolSize.PastEndShows` is why.
- FileIndexManager.Manager.CreateRecord: what later operations do once a row has been left without an index entry is not modelled.
- FileIndexManager.Manager.constructor: asks for pages of at least the 32 header bytes, since on smaller ones the empty index page is refused and `create_type` fails.
- FileIndexManager.Manager.CreateRecord: values arrive as integers or strings; turning raw tokens into them is not part of the model, and neither are integers beyond 32 bits, non-ASCII text and text with trailing NULs.
- BPlusTree.BPlusTree.Insert: works on decoded nodes, a page per node; `NodeLayout` relates nodes to bytes, and `PoolSize.PoolIsInvisible` is why reading and writing pages through the pool may be taken as reading and writing a store.
- HashIndex.HashIndex.Insert: works on decoded bucket pages of ten slots; `PageLayout` relates slots to bytes.
- LSNs of 2^64 and above do not fit the page header: a logged write requires a smaller next LSN.
