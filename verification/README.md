# BusTub storage and recovery, modelled and proved in Dafny

BusTub is a disk-oriented teaching database. This project models the part of it that
has to be right for data to survive: the slotted table page, the write-ahead log and crash
recovery, the buffer pool with its clock replacer, the linear-probe hash table, the
reader-writer latch, the table heap with its iterator, transaction commit and abort, and
the tuple layout. `dafny verify dfyconfig.toml` checks everything.

## How the model is built

Code that works in place stays in place: the table page, the log buffers, the frames of the
buffer pool, the clock and a tuple under construction are arrays; the managers are classes
whose methods update their fields. Each such class has a plain value it stands for, and the
theorems are about that value:

| part | files | stands for |
|---|---|---|
| table page | `Bytes`, `TablePage`, `Tiling`, `LoggedPage` | a slot map: one entry per slot, empty or (bytes, delete mark) (`SlotMap`) |
| log | `LogCodec`, `LogManager` | the sequence of records appended, and how many are in the file |
| log with threads | `LogProtocol` | runs of appends, waits and flush rounds by any number of threads |
| recovery | `Replay`, `RedoPass`, `UndoPass`, `UndoCases`, `LogRecovery`, `CrashRun`, `CrashCases` | the replay of the log on slot maps, with or without the losers' records |
| buffer pool | `ClockReplacer`, `BufferPool` | a map from page id to the last bytes written |
| hash table | `BlockPage`, `ProbeTable`, `HashTable` | a multiset of pairs |
| latch | `RWLatch` | runs of lock and unlock steps by any number of threads |
| table heap | `TableHeap`, `TableScan`, `Rollback`, `TransactionRuns` | a map from page id to slot map, and the list of pages in chain order |
| tuple | `TupleLayout` | a list of values |

Words are 32 bits, little-endian; offsets and sizes are the page's own. Integers in the model
are unbounded, so the places where C++ subtracts unsigned words or wraps are written out or
proved not to happen (`FreeSpaceExact`, `Allotted`). `hide` statements only keep definitions
out of a proof that does not need them.

What the code does not receive as an argument but takes from outside is a parameter here: the
hash function, whether the buffer pool had a frame, the id it gave to a new page, which sleeper
a notification reached, how much of the log a crash left, the iteration order of the active table.
Where the code asserts, the model returns failure.

## Where the code falls short of what one would expect

Each of these is a theorem with a concrete input or run, and with the exact condition.

- **Abort can lose a tuple.** A transaction that shrinks a tuple on a full page and inserts
  another into a new slot cannot be taken back: the slot's directory entry outlives the abort,
  the old tuple no longer fits, and the failed restore is not noticed (`AbortLosesTuple`).
  Updates are all taken back exactly when each page, with the slots it has at the end, has room
  for what it held before each update (`AbortRestores`).
- **Abort can clear a mark it did not set, or fail.** The table heap records a delete even when
  the page refused it (`AbortClearsForeignMark`, `AbortFailsOnMissingSlot`). With room, every slot
  is as before exactly when no delete met a mark set before the transaction (`AbortRestores`);
  no assertion fails exactly when no delete named a slot the page lacks (`AbortDefinedIff`).
- **Commit can fail or free the wrong tuple**, for the same reason (`CommitFailsOnSecondDelete`,
  `CommitDropsOwnInsert`). It is defined exactly when no slot is recorded as deleted twice and each
  holds a tuple (`CommitDefinedIff`), and frees what the transaction deleted and nothing else
  exactly when no delete was refused (`CommitSoundIff`).
- **Undo can fail, depending on the iteration order of the active table.** Two losers on one
  full page, one that shrank a tuple and one that grew one: undo fails an assertion if it takes
  the first one first (`OrderDecides`). If no loser had applied a delete, it completes exactly when
  every stop has room (`OkIffFine`); in every order if no loser shrank a tuple or had begun to
  compensate (`NoShrinkIsFine`). With applied deletes, every stop is fine exactly when no assertion
  fails and the pages are right throughout (`AllFineIff`).
- **A crash in the middle of an abort can make the restart fail**, in every order. The abort takes
  an inserted tuple out and keeps its directory entry; undo of that is refused on a full page, and
  undo of the insert then fails on the empty slot (`MidAbortFails`). It completes exactly when the
  insert had reused a free slot or the page has room for one more entry (`MidAbortCompletesIff`).
- **A crash in the middle of a commit can move or lose the deleted tuple.** Undo of an applied
  delete inserts anew. The tuple comes back exactly when its slot is the first empty one and the page
  has room for it and a directory entry (`MidCommitRestoredIff`, `DeletedTupleMoves`,
  `DeletedTupleIsLost`).
- **A record larger than a page cannot be undone.** Undo reads one page and the deserializer checks
  no end; it stays inside what was read exactly when the record is at most a page (`InWindowIff`).
  Of the records the table heap causes only updates can be larger (`SmallUnlessUpdate`,
  `LargeUpdateRecord`).
- **A page can be ahead of the log.** The buffer pool checks the log only when it evicts for a new
  page. After a crash redo brings a page to the last durable record exactly when the page on disk
  is not newer or has not changed since (`RedoneIffWriteAhead`, `PageAheadOfLog`).
- **A scan can miss the whole table.** `Begin` looks at the first page only. A scan misses a tuple
  exactly when the first page holds none and another does (`Scan`, `ScanMissesTuple`). At a tuple
  marked deleted the iterator shows the bytes of the tuple before it (`Scan`).
- **The record with LSN 0 is never redone** on a page that was never written back, because such
  a page reads LSN 0 (`FirstRecordMustTouchNoPage`, `RecordZeroIsSkipped`). A BEGIN record takes
  LSN 0 in every normal run.
- **A spurious wake-up loses a commit.** `Flush(false)` waits on its condition variable without a
  predicate (`SpuriousWakeLosesCommit`).
- **The hash table can hold a pair twice** once pairs have been removed (`SecondCopyIff`,
  `RemoveAllowsSecondCopy`), and a table that does cannot be resized (`Resize`).
- **The latch can forget sleepers.** `RUnlock` wakes one sleeper of the readers' queue when the
  count leaves its limit; with two threads more than the limit, others sleep on although
  nothing keeps them out (`OneThreadTooMany`); with fewer nobody is forgotten (`RunForgetsNone`).
- **The 32-bit tuple size can wrap.** A null VARCHAR is given three bytes and writes four; two
  VARCHARs of 2 GiB are given 32 bytes (`TwoHugeVarchars`). The layout is sound exactly when no
  VARCHAR is null, no length wraps and the tuple stays below 4 GiB (`SoundIffSmall`).
- **A column far into a tuple cannot be read.** The offset of a payload is read back as a signed
  word; a column reads back exactly when its payload starts below 2 GiB (`MakeTuple`,
  `SecondPayloadUnreadable`).
- **The size guard of the table heap wraps.** It adds 32 in 32 bits, so it passes the tuples of the
  last 32 sizes below 4 GiB, which fit no page (`GuardIsExact`, `HugeTuplePasses`). The insert loop
  then links every new page the buffer pool will give, and ends only when it gives no more
  (`InsertAlong`).

## Model

| member | source | states |
|---|---|---|
| `Bytes.StoreU32` | src/include/storage/page/table_page.h:150-189 | a 32-bit store reads back, and every load that does not overlap it is unchanged |
| `Bytes.Copy` | src/storage/page/table_page.cpp:183-186 | `memcpy`/`memmove`: the bytes land at the position, overlapping or not, and no other byte changes |
| `TablePageModel.FreeSpaceExact` | src/include/storage/page/table_page.h:167-169 | on every valid page the unsigned free-space computation does not wrap and is the free space of the slot map |
| `TablePageModel.ReadSlot` | src/include/storage/page/table_page.h:181-198 | the size word alone tells free, live and marked slots apart, and gives the tuple's length |
| `TablePageModel.OneSlotChanged` | src/storage/page/table_page.cpp:37-265 | if one slot's tuple is replaced and the free-space pointer moves by the difference, the page stays valid and exactly that slot of the slot map changes |
| `TablePageModel.TailDecides` | src/include/storage/page/table_page.h:138-149 | page id, LSN and links do not affect the slots |
| `TablePageModel.AddedRefines` | src/storage/page/table_page.cpp:45-71 | the insert's writes give the slot map with the tuple in its first empty slot, a new one if there is none |
| `TablePageModel.MarkRefines` | src/storage/page/table_page.cpp:87-127 | flipping the top bit of the size word changes the delete mark of that slot only |
| `TablePageModel.SlidRefines` | src/storage/page/table_page.cpp:179-244 | after the overlapping move and the offset rewrite every other tuple reads back unchanged and no two overlap |
| `TablePageModel.UpdateRefines` | src/storage/page/table_page.cpp:179-197 | update's move, copy and rewrite replace one tuple of the slot map |
| `TablePageModel.DeleteRefines` | src/storage/page/table_page.cpp:228-244 | apply-delete's move and rewrite empty one slot of the slot map |
| `TablePageModel.TablePage.Init` | src/storage/page/table_page.cpp:19-35 | a valid page with no slots: the given ids, no next page, the page end and count 0 at their offsets in the header, every other byte untouched |
| `TablePageModel.TablePage.SetNextPageId` | src/include/storage/page/table_page.h:70-73 | changes the next id and no other byte |
| `TablePageModel.TablePage.SetLSN` | src/include/storage/page/page.h:64-67 | changes the LSN and no other byte |
| `TablePageModel.TablePage.InsertTuple` | src/storage/page/table_page.cpp:37-85 | succeeds exactly when tuple and directory entry fit; then it inserts into the first empty slot, otherwise no byte changes |
| `TablePageModel.TablePage.MarkDelete` | src/storage/page/table_page.cpp:87-127 | succeeds exactly on a live slot and marks it in the top bit of its size word; otherwise no byte changes |
| `TablePageModel.TablePage.UpdateTuple` | src/storage/page/table_page.cpp:129-197 | succeeds exactly on a live slot with room for the difference, returns the old bytes and replaces them; otherwise no byte changes |
| `TablePageModel.TablePage.ApplyDelete` | src/storage/page/table_page.cpp:199-244 | frees the slot and its bytes, returns them, and keeps every other tuple |
| `TablePageModel.TablePage.RollbackDelete` | src/storage/page/table_page.cpp:246-265 | clears the mark of the slot and keeps everything else |
| `TablePageModel.TablePage.GetTuple` | src/storage/page/table_page.cpp:267-305 | succeeds exactly on a live slot and returns its bytes |
| `TablePageModel.TablePage.GetFirstTupleRid` | src/storage/page/table_page.cpp:307-317 | the first occupied slot, marked ones included, or the invalid rid |
| `TablePageModel.TablePage.GetNextTupleRid` | src/storage/page/table_page.cpp:319-331 | the first occupied slot after the current one, or the invalid rid |
| `Tiling.ExactTiling` | src/storage/page/table_page.cpp:37-244 | every byte above the free-space pointer belongs to exactly one tuple and no tuple holds any other byte |
| `LoggedPage.Operate` | src/storage/page/table_page.cpp:37-265 | a page operation succeeds exactly when the page allows it, and the record it logs is one that replays it |
| `LoggedPage.Write` | src/storage/page/table_page.cpp:37-265 | with logging on, a success leaves the page as the replay of its record, with the LSN of that record; a failure changes no byte |
| `LoggedPage.LifeOfATuple` | src/storage/page/table_page.cpp:37-265 | one tuple through insert, mark, rollback, update and removal, with the five records |
| `LogCodec.Encode` | src/include/recovery/log_record.h:69-116 | the size each constructor computes is exactly the number of bytes written |
| `LogCodec.BeginBytes` | src/include/recovery/log_record.h:40-43 | the twenty bytes of a BEGIN record |
| `LogCodec.TypeCodes` | src/include/recovery/log_record.h:22-35 | the numbers of the nine record types |
| `LogCodec.DecodeEncode` | src/recovery/log_recovery.cpp:23-67 | one record of any kind reads back from wherever its bytes lie |
| `LogCodec.ZerosStop` | src/recovery/log_recovery.cpp:23-32 | zero bytes stop the parser |
| `LogCodec.StopsIff` | src/recovery/log_recovery.cpp:23-67 | the parser stops exactly at a negative size, an invalid LSN or transaction, or an unknown type |
| `LogCodec.ParseYieldsRecords` | src/recovery/log_recovery.cpp:79-99 | for every record sequence followed by 20 zero bytes, parsing record by record yields exactly that sequence and stops |
| `LogManagerModel.AppendKeeps` | src/recovery/log_manager.cpp:82-131 | appending keeps LSN order and the encoding of file plus buffer without a gap |
| `LogManagerModel.FlushKeeps` | src/recovery/log_manager.cpp:35-60 | a flush moves the whole buffer to the file and leaves the record sequence unchanged |
| `LogManagerModel.FitsIff` | src/recovery/log_manager.cpp:84-93 | a record fits exactly when all records less those in the file leave room for it in the buffer |
| `LogManagerModel.LogManager.AppendLogRecord` | src/recovery/log_manager.cpp:82-131 | gets an LSN exactly when the record fits; then the log is longer by that very record, otherwise only a flush is requested |
| `LogManagerModel.LogManager.Serialize` | src/recovery/log_manager.cpp:99-130 | header and body written piece by piece are the encoding of the record, right behind the earlier ones |
| `LogManagerModel.LogManager.FlushRound` | src/recovery/log_manager.cpp:35-60 | the file is then the encoding of all records, the persistent LSN is the last one, the flag is down, the buffers are swapped |
| `LogManagerModel.LogManager.WriteLog` | src/storage/disk/disk_manager.cpp:122-158 | appends the bytes; its callers never pass the same buffer twice in a row |
| `LogManagerModel.LogManager.RequestFlush` | src/recovery/log_manager.cpp:133-146 | only raises the flush flag |
| `LogProtocol.RunKeepsInv` | src/recovery/log_manager.cpp:35-146 | in every interleaving the log is well formed and each waiting thread's record or mark is where its phase says |
| `LogProtocol.LogOnlyGrows` | src/recovery/log_manager.cpp:35-146 | over every run the record sequence is only extended and the persistent LSN never falls |
| `LogProtocol.DurableIffFlushed` | src/recovery/log_manager.cpp:35-60 | a record is in the file exactly if a flush round came after its append |
| `LogProtocol.NotifiedMeansDurable` | src/concurrency/transaction_manager.cpp:55-68 | a thread woken by the flush thread only has its end record on disk when it is done waiting |
| `LogProtocol.CommitIsDurable` | src/concurrency/transaction_manager.cpp:55-68 | when commit or abort returns, its record and every earlier one parse back from the log file, if since its append nothing but the flush thread woke it |
| `LogProtocol.FlushWakes` | src/recovery/log_manager.cpp:35-60 | a flush round puts everything on disk, lowers the flag and wakes every sleeping commit and abort |
| `LogProtocol.NextFlushEndsWait` | src/recovery/log_manager.cpp:35-60 | in every run the next flush round ends the wait of a sleeping commit, with its record on disk |
| `LogProtocol.EndGoesThrough` | src/concurrency/transaction_manager.cpp:55-68 | from any state a commit or abort that fits can append, wait, be woken by the flush thread with its record on disk, and return |
| `LogProtocol.BlockedAppendGoesOn` | src/recovery/log_manager.cpp:84-93 | an append that finds the buffer too full waits, and after a flush round can go on |
| `LogProtocol.ForceGoesThrough` | src/recovery/log_manager.cpp:133-142 | a forced flush asks for a round, waits for it, and can return after it |
| `LogProtocol.CommitReturns` | src/concurrency/transaction_manager.cpp:55-68 | a run in which a commit returns through the flush thread |
| `LogProtocol.ForcedFlushIsDurable` | src/recovery/log_manager.cpp:133-146 | a forced flush returns only with everything appended before it on disk, whatever wakes it |
| `LogProtocol.SpuriousWakeLosesCommit` | src/recovery/log_manager.cpp:133-146 | a run in which a commit returns with nothing on disk |
| `Replay.SlotOfImage` | src/recovery/log_recovery.cpp:101-194 | replaying the log on pages and following one slot record by record agree |
| `Replay.LeaveOut` | src/recovery/log_recovery.cpp:205-281 | leaving out the last record that counts for a slot gives back what the slot held before that record |
| `Replay.RedoCatchesUp` | src/recovery/log_recovery.cpp:101-194 | a page that holds its records up to its LSN is taken by redo to the end of any prefix of the log |
| `Replay.UnfinishedIff` | src/recovery/log_recovery.cpp:88-106 | in every log of runs, a transaction is unfinished exactly if it has records and none of them is COMMIT or ABORT |
| `Replay.EveryKindCounts` | src/recovery/log_recovery.cpp:107-190 | every kind of record counts for its own page and slot, and does there what its page operation does |
| `RedoPass.RedoStep` | src/recovery/log_recovery.cpp:101-194 | one redone record takes every page one record on, or leaves it as it is if its LSN is not older |
| `RedoPass.NeedsRedo` | src/recovery/log_recovery.cpp:101-194 | a record newer than its page finds that page exactly as it was when the record was written |
| `RedoPass.RedoIsComplete` | src/recovery/log_recovery.cpp:77-199 | from pages that hold their records up to their LSN, no redone operation fails and every page ends as after the whole log |
| `RedoPass.RedoOnPage` | src/recovery/log_recovery.cpp:135-190 | the page operation has the record's effect on any page it is defined on; on the page it was written on an insert lands in its original slot |
| `RedoPass.RelinkedPage` | src/recovery/log_recovery.cpp:120-130 | repairing a link changes no tuple and no LSN |
| `RedoPass.ActiveStep` | src/recovery/log_recovery.cpp:88-106 | the active table stays the map from unfinished transactions to their last LSN |
| `UndoPass.SlotBeforeUndo` | src/recovery/log_recovery.cpp:205-281 | when undo reaches a record, its slot holds what that record wrote, and taking it out gives what was there before |
| `UndoPass.UndoStep` | src/recovery/log_recovery.cpp:231-278 | for every kind of record, the opposite operation gives the page without the record exactly when the step is fine: an update finds its tuple unmarked and has room, an applied delete finds its slot the first empty one and room for the tuple and an entry |
| `UndoPass.UndoKinds` | src/recovery/log_recovery.cpp:231-278 | the same on one slot map, kind by kind, for an update in terms of room and mark |
| `UndoPass.UndoInverts` | src/recovery/log_recovery.cpp:231-278 | undoing a record right after it was written gives back the page before it, for each kind exactly under its condition |
| `UndoPass.UndoOnPage` | src/recovery/log_recovery.cpp:231-278 | the opposite page operation on any valid page, and exactly when an assertion on the way fails |
| `UndoPass.StopsAreLosers` | src/recovery/log_recovery.cpp:205-281 | in every order of the active table the pass stops at every record of every unfinished transaction exactly once, each transaction newest first |
| `UndoPass.LosersAreRunning` | src/recovery/log_recovery.cpp:205-281 | a record is undone exactly if its transaction has neither COMMIT nor ABORT |
| `UndoPass.ChainLink` | src/recovery/log_recovery.cpp:208-280 | the previous LSN of a record is the next older record of its transaction, so the chain is all of them |
| `UndoPass.StopIsNext` | src/recovery/log_recovery.cpp:205-281 | with row locks held, each stop is at the newest record of its slot not yet undone |
| `UndoPass.TrackStep` | src/recovery/log_recovery.cpp:205-281 | a stop is fine exactly when its assertions hold and the pages are then those without the records undone |
| `UndoPass.OkIffFine` | src/recovery/log_recovery.cpp:205-281 | for losers that had applied no delete, the pass completes exactly when every stop is fine |
| `UndoPass.AllFineIff` | src/recovery/log_recovery.cpp:205-281 | for all losers, every stop is fine exactly when no assertion fails and after every stop the pages are those without the records undone |
| `UndoPass.FineUndoIsComplete` | src/recovery/log_recovery.cpp:205-284 | if every stop is fine, every slot ends with what the finished transactions alone wrote, also after a crash during a commit or an abort |
| `UndoPass.MarksRight` | src/recovery/log_recovery.cpp:266-275 | the delete marks are right too if losers compensated only their own writes |
| `UndoPass.ReadBack` | src/storage/disk/disk_manager.cpp:165-181 | a record of at most a page reads back from the one-page buffer at its mapped offset |
| `UndoPass.InWindowIff` | src/recovery/log_recovery.cpp:214-218 | wherever a record lies in the log, parsing the one page read from its offset stays inside that page exactly when the record is at most a page |
| `UndoPass.SmallUnlessUpdate` | src/include/recovery/log_record.h:69-116 | for tuples the table heap accepts, a record is larger than a page exactly if it is an update of tuples of more than 4060 bytes together |
| `UndoCases.NoShrinkIsFine` | src/recovery/log_recovery.cpp:205-284 | if no loser shrank a tuple or had begun to compensate, every stop is fine in every order |
| `UndoCases.TwoGrowers` | src/recovery/log_recovery.cpp:205-284 | a log that meets these conditions |
| `UndoCases.OrderDecides` | src/recovery/log_recovery.cpp:207-255 | a log on which undo fails in one order of the active table and completes in the other |
| `UndoCases.LargeUpdateRecord` | src/include/recovery/log_record.h:69-116 | a legal update whose record is larger than a page |
| `LogRecoveryModel.LogRecovery.ReadLog` | src/storage/disk/disk_manager.cpp:165-181 | the bytes of the file from the offset, zeros past its end, failure at or past the end |
| `LogRecoveryModel.LogRecovery.RedoNewPage` | src/recovery/log_recovery.cpp:107-130 | the page becomes empty and slotted; every other page keeps tuples and LSN |
| `LogRecoveryModel.LogRecovery.RedoRecord` | src/recovery/log_recovery.cpp:101-194 | comparing LSNs and applying the record advances every page by that record |
| `LogRecoveryModel.LogRecovery.RedoBuffer` | src/recovery/log_recovery.cpp:80-195 | the inner loop redoes every record of the buffer and fills both tables |
| `LogRecoveryModel.LogRecovery.Redo` | src/recovery/log_recovery.cpp:77-199 | from any disk on which its operations are defined, each page ends with the records newer than its LSN applied; from a disk whose pages hold their records up to their LSN, every page ends as after the whole log; the active table holds exactly the transactions without COMMIT or ABORT, with their last LSN, and the other table every record's offset |
| `LogRecoveryModel.LogRecovery.UndoRecord` | src/recovery/log_recovery.cpp:221-279 | one stop: what it leaves on every page and exactly when it fails |
| `LogRecoveryModel.LogRecovery.UndoTransaction` | src/recovery/log_recovery.cpp:208-280 | one chain is walked from its last record to its BEGIN, up to the first failed assertion |
| `LogRecoveryModel.LogRecovery.Undo` | src/recovery/log_recovery.cpp:205-284 | terminates in every order of the active table and for every transaction without COMMIT or ABORT, mid-commit and mid-abort included; visits every record of these and no other, each once, newest first, up to the first failed assertion; with locks held every stop is fine exactly when it completes with the pages right throughout, and for losers without applied deletes exactly when it completes; then it leaves what the finished transactions alone wrote |
| `CrashRun.RunKeepsInv` | src/storage/page/table_page.cpp:37-265 | over every run, the log is legal and every page in memory or on disk is the replay of its records up to its LSN |
| `CrashRun.MayBegin` | src/concurrency/transaction_manager.cpp:24-39 | a transaction can begin in any state of a run, and with which record |
| `CrashRun.MayWrite` | src/storage/page/table_page.cpp:37-265 | a running transaction can do whatever the page allows, and with which record and page state |
| `CrashRun.MayEnd` | src/concurrency/transaction_manager.cpp:41-111 | a running transaction can commit or abort, and is then no longer running |
| `CrashRun.MayWriteBack` | src/buffer/buffer_pool_manager.cpp:81-102 | any page can be written back at any time |
| `CrashRun.CrashIsRedoable` | src/recovery/log_recovery.cpp:69-76 | any crash of any run that respects write-ahead leaves a log and a disk that redo accepts and completes |
| `CrashRun.AnyCoveredCrash` | src/recovery/log_recovery.cpp:69-76 | any durable prefix of the log that covers the pages on disk is such a crash |
| `CrashRun.Recover` | src/recovery/log_recovery.cpp:77-284 | after any crash of any run that respects write-ahead, redo is complete and undo visits exactly the losers' records; every slot holds what the finished transactions alone wrote if row locks were held, losers compensated only their own writes and every stop is fine |
| `CrashRun.RedoneIffWriteAhead` | src/buffer/buffer_pool_manager.cpp:218-234 | after any crash at all, redo brings a page to the last durable record exactly when the page on disk is not newer or has not changed since |
| `CrashRun.PageAheadOfLog` | src/buffer/buffer_pool_manager.cpp:218-234 | a run that leaves a page on disk of which the durable log knows nothing |
| `CrashRun.FirstRecordMustTouchNoPage` | src/recovery/log_recovery.cpp:113-117 | with nothing on disk, redo brings every page to the end of the log exactly when the first record touches no page |
| `CrashRun.RecordZeroIsSkipped` | src/recovery/log_recovery.cpp:113-117 | a one-record log whose page redo leaves blank |
| `CrashCases.MidCommitRun` | src/concurrency/transaction_manager.cpp:41-54 | a run that marks and applies a delete on any page and crashes before COMMIT |
| `CrashCases.MidCommitRestoredIff` | src/recovery/log_recovery.cpp:266-275 | after that crash recovery puts the tuple back exactly when its slot is the first empty one and tuple and directory entry fit |
| `CrashCases.DeletedTupleMoves` | src/recovery/log_recovery.cpp:269-271 | a page on which the tuple lands in another slot |
| `CrashCases.DeletedTupleIsLost` | src/recovery/log_recovery.cpp:269-271 | a full page on which the tuple is gone |
| `CrashCases.MidAbortRun` | src/concurrency/transaction_manager.cpp:75-87 | a run that inserts a tuple on any page, takes it out in its abort and crashes before ABORT |
| `CrashCases.MidAbortCompletesIff` | src/recovery/log_recovery.cpp:231-275 | after that crash undo completes exactly when the insert had reused a free slot or the page has room for a second entry, and then leaves the page right |
| `CrashCases.MidAbortFails` | src/recovery/log_recovery.cpp:231-241 | the largest tuple the heap accepts, on an empty page: the restart fails an assertion |
| `CrashCases.AbortedDeleteRun` | src/concurrency/transaction_manager.cpp:75-104 | a run that marks a tuple, rolls the delete back and aborts: the page is as before and the transaction is no loser |
| `ClockReplacerModel.VictimUnique` | src/buffer/clock_replacer.cpp:32-56 | the clock policy names one frame |
| `ClockReplacerModel.ClockReplacer.Victim` | src/buffer/clock_replacer.cpp:32-56 | ends within two sweeps; finds a frame exactly if one is present: the first unreferenced one from the hand, or the first present one if all are referenced; clears reference bits only where the hand passed |
| `ClockReplacerModel.ClockReplacer.Pin` | src/buffer/clock_replacer.cpp:58-67 | takes the frame out of the present set, size included |
| `ClockReplacerModel.ClockReplacer.Unpin` | src/buffer/clock_replacer.cpp:69-78 | puts the frame into the present set, size included |
| `BufferPool.NoFrameIffAllPinned` | src/buffer/buffer_pool_manager.cpp:52-56 | free list and replacer are empty exactly when every frame is pinned, as the code asserts |
| `BufferPool.EvictKeepsInv` | src/buffer/buffer_pool_manager.cpp:167-250 | eviction keeps the partition of frames and loses no page's bytes |
| `BufferPool.EvictKeepsPins` | src/buffer/buffer_pool_manager.cpp:167-250 | eviction never moves or changes a pinned page |
| `BufferPool.NewPageKeepsInv` | src/buffer/buffer_pool_manager.cpp:104-119 | a new page keeps the invariant and all pins |
| `BufferPool.UnpinKeepsInv` | src/buffer/buffer_pool_manager.cpp:61-79 | unpinning keeps the invariant if the last pin of a changed page is given back dirty |
| `BufferPool.FlushKeepsInv` | src/buffer/buffer_pool_manager.cpp:81-102 | flushing keeps the invariant |
| `BufferPool.DeleteKeepsInv` | src/buffer/buffer_pool_manager.cpp:121-154 | deleting an unpinned page keeps the invariant; its frame is free again |
| `BufferPool.BufferPoolManager.constructor` | src/buffer/buffer_pool_manager.cpp:21-30 | every frame is on the free list once |
| `BufferPool.BufferPoolManager.FetchPage` | src/buffer/buffer_pool_manager.cpp:39-59 | returns the last bytes written to the page; fails exactly when it is not resident and every frame is pinned; a resident page gets one pin more, another is loaded clean with pin count 1 into the first free frame or the clock's victim |
| `BufferPool.BufferPoolManager.Evict` | src/buffer/buffer_pool_manager.cpp:167-250 | the first free frame, otherwise the clock's victim, written back exactly if dirty; the frame then holds the page with pin count 1, and nothing else changes |
| `BufferPool.BufferPoolManager.NewPage` | src/buffer/buffer_pool_manager.cpp:104-119 | a page id never used before, zeros, pinned once, dirty; fails exactly when every frame is pinned |
| `BufferPool.BufferPoolManager.UnpinPage` | src/buffer/buffer_pool_manager.cpp:61-79 | fails exactly on an unpinned page; otherwise the pin count is one lower, the frame is in the replacer exactly if that is 0, the dirty flag is raised if asked, and nothing else changes |
| `BufferPool.BufferPoolManager.FlushPage` | src/buffer/buffer_pool_manager.cpp:81-102 | fails exactly on a page not resident; otherwise the frame is clean, its bytes are on disk if it was dirty, and nothing else changes |
| `BufferPool.BufferPoolManager.FlushAllPages` | src/buffer/buffer_pool_manager.cpp:156-165 | no frame is dirty and the disk agrees with the page store for every page no client owes |
| `BufferPool.BufferPoolManager.DeletePage` | src/buffer/buffer_pool_manager.cpp:121-154 | fails exactly on a pinned page; otherwise the page is gone from table and store, and its frame is zeroed and last on the free list |
| `BufferPool.SurvivesEviction` | src/buffer/buffer_pool_manager.cpp:39-250 | with one frame, a page written, evicted by another and fetched again has its bytes |
| `BlockPageModel.BitUpdate` | src/storage/page/hash_table_block_page.cpp:21-40 | setting or clearing a bit changes that bit only, so a bitmap is an array of booleans |
| `BlockPageModel.BitOrder` | src/storage/page/hash_table_block_page.cpp:21-28 | slot 0 is the most significant bit of the first byte |
| `BlockPageModel.BlockPage.Insert` | src/storage/page/hash_table_block_page.cpp:54-63 | fails exactly on a readable slot; otherwise that slot holds the pair and no other changes |
| `BlockPageModel.BlockPage.Remove` | src/storage/page/hash_table_block_page.cpp:65-69 | leaves a tombstone and no other change |
| `BlockPageModel.BlockPage.IsOccupied` | src/storage/page/hash_table_block_page.cpp:71-74 | true for pairs and tombstones |
| `BlockPageModel.BlockPage.IsReadable` | src/storage/page/hash_table_block_page.cpp:76-79 | true for pairs only |
| `BlockPageModel.BlockPage.PairAt` | src/storage/page/hash_table_block_page.cpp:42-52 | key and value of a readable slot |
| `ProbeTable.InsertKeeps` | src/container/hash/linear_probe_hash_table.cpp:126-153 | inserting at the first unused slot keeps every pair reachable from its home and adds one pair to the contents |
| `ProbeTable.RemoveKeeps` | src/container/hash/linear_probe_hash_table.cpp:186-195 | a tombstone keeps every pair reachable and takes one pair out of the contents |
| `ProbeTable.FoundEnough` | src/container/hash/linear_probe_hash_table.cpp:83-103 | a lookup that stops at the first never-used slot has seen every value of its key |
| `ProbeTable.FoundAll` | src/container/hash/linear_probe_hash_table.cpp:83-103 | a full turn sees every value of the key, each once |
| `ProbeTable.AbsentAfter` | src/container/hash/linear_probe_hash_table.cpp:186-215 | a probe that ends at a never-used slot or after a full turn shows the pair is absent |
| `ProbeTable.SecondCopyIff` | src/container/hash/linear_probe_hash_table.cpp:126-153 | an insert stores a second copy exactly when a copy lies beyond the tombstone it takes |
| `ProbeTable.PackedNoCopies` | src/container/hash/linear_probe_hash_table.cpp:113-154 | without removals no pair is ever stored twice |
| `ProbeTable.RemoveAllowsSecondCopy` | src/container/hash/linear_probe_hash_table.cpp:125-132 | a table in which an insert after a remove stores a pair twice |
| `ProbeTable.SameContentsSameValues` | src/container/hash/linear_probe_hash_table.cpp:222-290 | tables with the same contents answer every lookup alike |
| `HashTableModel.LinearProbeHashTable.constructor` | src/container/hash/linear_probe_hash_table.cpp:29-65 | an empty table whose page count and last page match the number of buckets |
| `HashTableModel.LinearProbeHashTable.GetPagePosition` | src/include/container/hash/linear_probe_hash_table.h:117-122 | page index times block size plus offset is the hash modulo the size |
| `HashTableModel.LinearProbeHashTable.NextSlot` | src/container/hash/linear_probe_hash_table.cpp:88-99 | one slot on in cyclic order, over page borders and the short last page |
| `HashTableModel.LinearProbeHashTable.GetValue` | src/container/hash/linear_probe_hash_table.cpp:71-108 | returns exactly the values stored under the key, with multiplicity |
| `HashTableModel.LinearProbeHashTable.InsertHelper` | src/container/hash/linear_probe_hash_table.cpp:113-154 | adds one pair to the contents; refuses only a pair the table holds, throws only when every slot holds a pair; keeps pairs distinct in runs without removals |
| `HashTableModel.LinearProbeHashTable.Remove` | src/container/hash/linear_probe_hash_table.cpp:174-216 | takes one copy out of the contents; false exactly when the pair is absent |
| `HashTableModel.LinearProbeHashTable.Resize` | src/container/hash/linear_probe_hash_table.cpp:222-290 | to any size that needs no fewer pages: no reinsert is refused and the table never fills exactly when the pairs are distinct and no more than the new size; the contents are then unchanged |
| `HashTableModel.LinearProbeHashTable.GrowingFits` | src/container/hash/linear_probe_hash_table.cpp:245-252 | a size not below the current one always meets the page and room conditions |
| `RWLatch.RunIsSafe` | src/include/common/rwlatch.h:40-86 | in every reachable state the count equals the readers inside, at most one writer has entered, a writer inside excludes readers, and a sleeper on the writer's queue implies a reader inside |
| `RWLatch.SafeExcludes` | src/include/common/rwlatch.h:40-86 | a writer inside shares the latch with nobody |
| `RWLatch.RunForgetsNone` | src/include/common/rwlatch.h:63-86 | with at most one thread more than the reader limit, a sleeper on the readers' queue always has a writer entered or the limit reached |
| `RWLatch.SleeperWaitsForWriter` | src/include/common/rwlatch.h:63-86 | with no more threads than the reader limit, a sleeper on the readers' queue implies an entered writer |
| `RWLatch.SomebodyMoves` | src/include/common/rwlatch.h:40-86 | if anybody sleeps, some awake thread can take a step that brings it into the latch or out of it |
| `RWLatch.LockEffect` | src/include/common/rwlatch.h:40-69 | a thread gets in at once exactly when nothing is in its way, a waiting writer exactly when no reader is left; otherwise it sleeps |
| `RWLatch.WUnlockEffect` | src/include/common/rwlatch.h:54-58 | a writer that leaves wakes every sleeper on the readers' queue and nobody else |
| `RWLatch.LastReaderWakesWriter` | src/include/common/rwlatch.h:74-80 | the last reader to leave wakes the waiting writer, who can then go in |
| `RWLatch.FullHouseWakesOne` | src/include/common/rwlatch.h:81-85 | the reader that leaves a full house wakes one sleeper |
| `RWLatch.WriterGetsIn` | src/include/common/rwlatch.h:40-86 | a run in which a writer waits for a reader and gets in |
| `RWLatch.WaitersGetIn` | src/include/common/rwlatch.h:40-86 | a run in which a reader and a writer wait for a writer and get in |
| `RWLatch.OneThreadTooMany` | src/include/common/rwlatch.h:74-86 | for every larger number of threads a run that forgets a sleeper |
| `TableHeapModel.SwapPage` | src/storage/table/table_heap.cpp:93-154 | a page operation keeps the chain and changes one page of the heap |
| `TableHeapModel.GrowChain` | src/storage/table/table_heap.cpp:62-80 | linking a new page behind the last keeps the chain acyclic and complete |
| `TableHeapModel.GuardIsExact` | src/storage/table/table_heap.cpp:40-43 | the 32-bit size guard passes exactly the tuples that fit an empty page and those of the last 32 sizes, which fit no page |
| `TableHeapModel.HugeTuplePasses` | src/storage/table/table_heap.cpp:40-43 | a tuple of 2^32 - 32 bytes passes the guard and fits nowhere |
| `TableHeapModel.HugeInsertLinksPages` | src/storage/table/table_heap.cpp:39-91 | an insert that links two pages in vain |
| `TableHeapModel.TableHeap.constructor` | src/storage/table/table_heap.cpp:27-37 | a chain of one empty page |
| `TableHeapModel.TableHeap.InsertAlong` | src/storage/table/table_heap.cpp:51-83 | a tuple that fits an empty page goes into the first page with room and adds at most one page; a tuple whose guard wrapped adds every new page the pool gives and fails; the loop ends once the pool refuses |
| `TableHeapModel.TableHeap.InsertTuple` | src/storage/table/table_heap.cpp:39-91 | exactly when it fails, that failing aborts the transaction, which pages it leaves linked, and what record a success leaves |
| `TableHeapModel.TableHeap.MarkDelete` | src/storage/table/table_heap.cpp:93-110 | marks a live tuple, and adds the record in any case |
| `TableHeapModel.TableHeap.UpdateTuple` | src/storage/table/table_heap.cpp:112-131 | replaces exactly when the page can; the record with the old bytes only if the transaction is not aborting |
| `TableHeapModel.TableHeap.ApplyDelete` | src/storage/table/table_heap.cpp:133-143 | frees one slot of the heap; fails exactly on a slot without a tuple, where the page asserts |
| `TableHeapModel.TableHeap.RollbackDelete` | src/storage/table/table_heap.cpp:145-154 | clears one mark of the heap; fails exactly on a slot the page lacks, where it asserts |
| `TableHeapModel.TableHeap.GetTuple` | src/storage/table/table_heap.cpp:156-170 | the bytes of a live tuple; aborts the transaction exactly when the page cannot be fetched |
| `TableScan.WholeHeap` | src/storage/table/table_iterator.cpp:36-65 | the list a scan follows holds every occupied slot of the heap exactly once, in chain order |
| `TableScan.TableIterator.constructor` | src/storage/table/table_iterator.cpp:19-24 | the iterator shows the tuple of its rid |
| `TableScan.TableIterator.Next` | src/storage/table/table_iterator.cpp:36-65 | `++` moves to the very next occupied slot, over empty pages, or to the end; a marked tuple leaves the bytes shown before |
| `TableScan.Begin` | src/storage/table/table_heap.cpp:172-182 | everything is still to come if the first page holds a tuple, nothing otherwise |
| `TableScan.Scan` | test/table/tuple_test.cpp:54-58 | the rids visited and the bytes shown at each; every tuple is visited exactly when the first page holds one or the heap holds none |
| `TableScan.ScanIsWholeIff` | src/storage/table/table_heap.cpp:172-182 | the rids of a finished scan include every tuple exactly under that condition |
| `TableScan.ScanMissesTuple` | src/storage/table/table_heap.cpp:172-182 | two inserts and a delete after which a scan returns nothing although a tuple is there |
| `Rollback.WalkBack` | src/concurrency/transaction_manager.cpp:75-93 | walking the write set back from any point of a run reaches the tuples before the run exactly as long as every restored tuple fits, with the marks met by refused deletes cleared |
| `Rollback.AbortRestores` | src/concurrency/transaction_manager.cpp:75-93 | every update is taken back exactly if the pages have room; then every slot is as before Begin exactly if no delete met a mark set before |
| `Rollback.NoNewSlotsFit` | src/concurrency/transaction_manager.cpp:75-93 | a transaction that adds no directory entries can always be taken back |
| `Rollback.AbortLosesTuple` | src/concurrency/transaction_manager.cpp:88-90 | a run whose abort leaves the new tuple in place of the old one |
| `Rollback.AbortClearsForeignMark` | src/storage/table/table_heap.cpp:102-109 | a run whose abort clears a mark set before it |
| `Rollback.AbortDefinedIff` | src/concurrency/transaction_manager.cpp:75-93 | the walk meets no failed assertion exactly when no refused delete named a slot its page lacks in the end, even where a restore did not fit |
| `Rollback.AbortFailsOnMissingSlot` | src/storage/table/table_heap.cpp:102-109 | a run whose abort fails an assertion |
| `Rollback.AbortKeepsRest` | src/concurrency/transaction_manager.cpp:75-93 | whether or not the old tuples fit, the slots in use are those in use before, and every slot never updated holds what it held before, up to marks met by refused deletes |
| `TransactionRuns.Abort` | src/concurrency/transaction_manager.cpp:75-93 | terminates, stops exactly at the first failed assertion, and otherwise leaves the heap as the reverse walk gives it, with an empty write set |
| `TransactionRuns.Commit` | src/concurrency/transaction_manager.cpp:41-54 | terminates, stops exactly where an apply-delete finds no tuple, and otherwise applies the deletes of the write set |
| `TransactionRuns.CommitDefinedIff` | src/concurrency/transaction_manager.cpp:41-54 | on any heap and write set, no assertion fails exactly when no slot is recorded as deleted twice and each holds a tuple |
| `TransactionRuns.CommitFrees` | src/concurrency/transaction_manager.cpp:41-54 | on any heap and write set, the walk frees the slots recorded as deleted and changes no other slot |
| `TransactionRuns.RunKeepsPending` | src/concurrency/transaction_manager.cpp:41-54 | in every run alone no slot is successfully deleted twice and every deleted tuple stays marked until the end |
| `TransactionRuns.CommitSoundIff` | src/concurrency/transaction_manager.cpp:41-54 | the commit of a run alone is defined and frees what the transaction deleted and nothing else exactly when no delete was refused |
| `TransactionRuns.CommitFailsOnSecondDelete` | src/storage/page/table_page.cpp:228-229 | a run that deletes one tuple twice and cannot commit |
| `TransactionRuns.CommitDropsOwnInsert` | src/concurrency/transaction_manager.cpp:45-50 | a run whose commit frees the tuple it inserted |
| `TransactionRuns.RunCall` | src/storage/table/table_heap.cpp:39-131 | what any insert, delete or update does to the pages' bytes, said in slot maps: where it goes, when it is refused, what record and pages it leaves, and that it aborts the transaction exactly when size guard, fetch or new page fail |
| `TransactionRuns.AbortedRun` | src/concurrency/transaction_manager.cpp:75-93 | whatever calls a transaction alone makes, exactly when its abort fails, takes back every update, and puts every slot back |
| `TransactionRuns.InsertIsTakenBack` | src/concurrency/transaction_manager.cpp:75-93 | a transaction of one insert leaves no tuple after its abort |
| `TransactionRuns.CommittedRun` | src/concurrency/transaction_manager.cpp:41-73 | whatever calls it makes, exactly when its commit fails, what it frees, and that it frees only what it deleted exactly if no delete was refused |
| `TupleLayout.OffsetGrows` | src/catalog/schema.cpp:21-39 | column cells belong apart, in order, within the schema's length |
| `TupleLayout.SoundIffSmall` | src/storage/table/tuple.cpp:24-54 | cells and payloads, where the 32-bit counters put them, lie apart and within the computed size exactly when no VARCHAR is null, no length wraps and the tuple is below 4 GiB |
| `TupleLayout.TwoHugeVarchars` | src/storage/table/tuple.cpp:27-31 | two values whose computed size wraps to 32 bytes |
| `TupleLayout.MakeSchema` | src/catalog/schema.cpp:21-39 | the 32-bit offsets and length of the cells, and the VARCHAR columns in order |
| `TupleLayout.EveryType` | src/include/catalog/column.h:91-112 | the offsets and length of a schema with one column of every type |
| `TupleLayout.SizeOf` | src/storage/table/tuple.cpp:27-31 | the 32-bit sum over the VARCHAR columns is where the offset counter ends |
| `TupleLayout.StoredReads` | src/storage/table/tuple.cpp:90-112 | a stored column of a tuple below 4 GiB reads back exactly when its payload starts below 2 GiB |
| `TupleLayout.SecondPayloadUnreadable` | src/storage/table/tuple.cpp:108-111 | two values with a sound layout of which the second cannot be read |
| `TupleLayout.MakeTuple` | src/storage/table/tuple.cpp:24-54 | for every schema and matching values with a sound layout, a column reads back as its value exactly when its payload starts below 2 GiB |
| `TupleLayout.EveryTypeReadsBack` | src/storage/table/tuple.cpp:24-54 | a tuple with a column of every type has the expected size and reads back |

## Left out

- Interleaved buffer-pool calls: each call is one atomic step, although `Evict` releases the latch early.
- Recover and write-ahead: the code checks the page LSN only when it evicts for a new page, so `Crashed` takes as given that no page on disk is newer than the log; what happens otherwise is stated by `RedoneIffWriteAhead`.
- FetchPage: asks for an id that `NewPage` returned and that is not deleted; the code's `emplace` is only right for those.
- UnpinPage: asks that the last pin of a changed page is given back as dirty, which is the pool's contract with its clients.
- Redo: a log of at most one buffer less 20 bytes, because the deserializer does not check the end of its window; one crash only, because redo does not advance page LSNs.
- Undo: loser records of at most a page, as the code assumes; for larger ones the code parses bytes it has not read (`InWindowIff`). What it leaves is described for every log; that this is the work of the finished transactions alone is claimed for logs in which nobody writes a slot after an unfinished transaction. Row locks held to the end would give that, but the lock manager grants everything, and `TableHeap::ApplyDelete` unlocks the row before COMMIT or ABORT is logged, so even a correct one would let another transaction reuse the slot of a transaction in the middle of its commit.
- Recover: does not cover next-page links after redo; the link has no record of its own.
- CommitIsDurable: assumes that only the flush thread wakes the waiter; without that it is false.
- OneThreadTooMany: for a reader limit of at least two; the code's limit is 2^32 - 1.
- AbortRestores: room is sufficient but not necessary for equal slots, since an update may write back the bytes it found; for taking back every update it is both. What an abort without room leaves in slots the transaction did not update is stated by `AbortKeepsRest`.
- InsertAlong: the buffer pool is taken to fetch the pages of the chain after the first; a failed fetch there is a null pointer in the code, not an abort.
- InsertTuple: the same for the pages after the first.
- Abort: the buffer pool is taken to fetch every page of the walk; a failed fetch would drop an update's restore silently and fail an assertion for the other entries. The same holds for the fetches of `Commit`.
- AbortedRun: a transaction that runs alone on one heap and stops at the first call that aborts it.
- Resize: only to sizes that need no fewer pages than the current one; for others the code's page count subtraction wraps.
- BlockPage: its bitmaps and pairs are sequences the methods reassign, not arrays in a frame; hash pages are a store where writes stick, although some are unpinned as clean.
- MakeTuple: for sound layouts only; elsewhere the code writes outside the tuple. Nulls of fixed-size types are bit patterns like any other.
- Apply-delete on a free slot: taken to fail its assertion, since the code leaves offset 0 in a freed slot.
- Logging inside the page operations: `LoggedPage` models the record and the page LSN; the row locks the operations take and the transaction states they set when logging is on are not modelled.
- Write sets over several tables: one heap per transaction.
- Begin and the global transaction latch, checkpoints, shutdown of the flush thread, timeouts.
- Types, expressions, executors, catalog, the lock manager's deadlock detection, the hash function, file I/O of the disk manager.
