# A verified model of the CTA catalogue

The CERN Tape Archive keeps, in a relational database, where every archived file lives on tape. This project models the
parts of that catalogue whose correctness depends on many statements and many calls together, and proves them in Dafny.
`dafny verify dfyconfig.toml` checks everything.

**Writing to tape.** `filesWrittenToTape` records a batch of files and placeholders at the end of a tape. Postgres and
Oracle implement it with different statements. `TapeWrite` follows the statements of both as functions on the tables,
`BackEnds` follows the loops, buffers and roll-backs as methods on a connection, and `WriteSpec` says, without reference to
either, which batches commit (`Accepts`) and what they leave (`Written`). Both back ends are proved to meet that
description on every database and every batch, hence to agree. `WriteTheorems`, `WriteBatching`, `OneByOne`,
`ErrorReports`, `WriteRetry` and `Sessions` build on it: conservation of copies, counters, batching, error reports, retries
after a lost connection, concurrent writers. `WriteColumns` says in the columns of the tables alone which batches commit
and what every table holds afterwards.

**The life cycle of copies.** `LifeCycle` and `Operations` add deletion into the recycle log, deletion of single copies,
restoring, purging and reclaiming. `Consistency` states one invariant; `Steps` and `Runs` prove which steps keep it, with
an exact condition for each, and that a run stays consistent throughout if and only if each of its steps meets its
condition. Interrupted restores and reclaims are steps too. `Executions` ties runs to the methods. `RoundTrip` proves that
a deleted file comes back when its copies are restored in any order, `BrokenRestore` what is possible after a restore that
was broken off. `StepColumns` says in the columns of the tables alone when each of these steps goes through and what it
leaves.

**Listing.** `Listing` models the streaming iterators: an object under construction and one row of look-ahead, against
maximal runs of rows. The two iterators have the same code; one class models both. `ArchiveListing` and `RepackListing`
model their queries and say when the listing is right.

**Schema tools.** `DropSchema` (dropping tables until nothing more can be dropped), `SchemaComparer` (comparing the
database with its schema) and `StatementReader` (splitting the schema text).

Clocks are the parameter `now`; `uint64_t` is a bounded type whose additions wrap; SQL statements are functions on maps,
sets and bags of rows, with the primary keys, unique constraints, foreign keys and checks of the schema that can make them
fail. A query without a full ORDER BY may answer in any order: proofs hold for each.

## What the code does that its documentation or a reader might not expect

- A restore is described as one transaction (catalogue/PostgresCatalogue.cpp:1113-1156), but `insertTapeFile` commits half
  way (catalogue/RdbmsCatalogue.cpp:9413-9472). `Steps.InterruptedRestoreDuplicates`: after a failure in between, the copy
  is both live and recycled. The next restore of it is refused, and so is every later one while a copy with its number is
  live (`BrokenRestore.RefusedWhileLive`). If the file is deleted again, the old row can be restored exactly when no older
  row answers to the search and the file just deleted was another disk file than the one in the row
  (`BrokenRestore.SearchAfterDeletion`), and the copy is then described once if and only if that file belonged to the disk
  instance of the row; if not, a row stays behind (`BrokenRestore.RestoreAfterDeletion`,
  `BrokenRestore.OtherInstanceRowStays`).
- Restored rows get new creation times. `RoundTrip.DeleteThenRestore` says exactly when TAPE_FILE is the same again.
- The search criteria for a restore have no file sequence number, so an older recycled copy can answer to the same search;
  then the restore is refused. The round trip succeeds if and only if there is none and the new disk file identifier is free.
- Deletion logs the copies the caller saw earlier but deletes those that are there. `Steps.MoveConservesIffSeenExactly`
  and `Steps.DropConservesIffLive` say exactly when nothing is lost or duplicated, `Steps.MoveKeepsConsistencyIff` and
  `Steps.DropKeepsConsistencyIff` exactly when the invariant survives; `Steps.UnseenCopyIsLost` and
  `Steps.DropThenStaleMove` show what goes wrong otherwise.
- Every committed write keeps "every live copy has the size of its archive file", but an identifier may be reused for a
  file of another size while copies of the old file are still recycled. Restoring one of those into the new file breaks the
  sizes (`Runs.ReusedIdentifierBreaksSizes`). A restore keeps the invariant if and only if the sizes are the same
  (`Steps.RestoreKeepsConsistencyIff`), which all restores do as long as no identifier is reused in this way
  (`Runs.CarefulRunIsConsistent`).
- The byte total of a batch wraps at 2^64 (`WriteTheorems.CountersAfterWrite`, `OneByOne.BatchIsFoldOfItems`).
- A batch that is refused as long as its tape is not reclaimed can be accepted once more after a reclaim
  (`Runs.ReclaimReopensTapeIff`).
- A batch whose only fault is that a disk file identifier is already taken fails in both back ends, with different errors.
  `ErrorReports.SameAnswerIff` says for every batch whether the errors are the same.
- Two copies of one file in neighbouring places of a tape are merged by the repack listing
  (`RepackListing.NeighbouringCopiesMerge`); the listing is right if and only if there are none. In a listing restricted to
  a tape a file appears twice if another one lies between its copies (`ArchiveListing.AlternatingCopiesListedTwice`).
- `dropDatabaseTables` reports failure when CTA_CATALOGUE is absent, even if it dropped every table, and its last error
  ("circular dependency") can never be reached.

## Model

| member | source | states |
|---|---|---|
| `BackEnds.PostgresFilesWrittenToTape` | catalogue/PostgresCatalogue.cpp:359-545 | Commits exactly what the statement-level model says; on any error the database is as it was, although TAPE is updated before most checks |
| `BackEnds.OracleFilesWrittenToTape` | catalogue/OracleCatalogue.cpp:389-608 | The same for the Oracle order of statements |
| `BackEnds.Connection.constructor` | catalogue/PostgresCatalogue.cpp:363-373 | A connection starts with its transaction seeing what a rollback returns to |
| `BackEnds.Connection.Begin` | catalogue/PostgresCatalogue.cpp:1000-1011 | Remembers the database as the state a rollback returns to |
| `BackEnds.Connection.Rollback` | catalogue/PostgresCatalogue.cpp:363-373 | Returns to the remembered state (a scoped rollback on every exit by exception) |
| `BackEnds.CountFileEvents` | catalogue/OracleCatalogue.cpp:410-415 | The count taken before the pass is the number of file events |
| `BackEnds.ScanBatch` | catalogue/PostgresCatalogue.cpp:385-418 | The loop with wrapping counters and an ordered set computes the scan or its first error |
| `BackEnds.BeginTapeUpdate` | catalogue/PostgresCatalogue.cpp:366-430 | Checks, tape row, pass and TAPE update; the early file count equals the number of distinct file events |
| `BackEnds.PostgresIdempotentInsert` | catalogue/PostgresCatalogue.cpp:550-668 | Insert with ON CONFLICT on the identifier only |
| `BackEnds.OracleIdempotentInsert` | catalogue/OracleCatalogue.cpp:613-760 | Array insert in batch error mode; only unique constraint errors are tolerated among the failed rows |
| `BackEnds.SelectSizesAndChecksums` | catalogue/PostgresCatalogue.cpp:721-767 | Reads size and checksum of every file of the batch; fails exactly when an existing identifier occurs twice |
| `BackEnds.VerifyEvents` | catalogue/PostgresCatalogue.cpp:443-468 | First of: repeated identifier, no entry, other size, other checksum |
| `BackEnds.FillTapeFileBatch` | catalogue/PostgresCatalogue.cpp:471-481 | The preallocated columns are filled exactly, no index passes their end |
| `BackEnds.RecycleRows` | catalogue/PostgresCatalogue.cpp:690-715 | One recycle log row per superseded copy, for every order of the query |
| `BackEnds.RecycleOldCopies` | catalogue/PostgresCatalogue.cpp:670-716 | The recycle log grows by those rows and nothing else changes |
| `BackEnds.InsertTapeFiles` | catalogue/PostgresCatalogue.cpp:518-526 | Row by row insertion succeeds exactly when all rows fit the table and each other |
| `BackEnds.DeleteTapeFiles` | catalogue/PostgresCatalogue.cpp:528-535 | Exactly the recycled places leave TAPE_FILE |
| `BackEnds.RecordFiles` | catalogue/PostgresCatalogue.cpp:439-535 | Verification, recycling, insertion and deletion in the order of the source |
| `WriteSpec.ScanAcceptsContinuation` | catalogue/PostgresCatalogue.cpp:385-418 | The pass accepts exactly the batches that continue the tape, although its counters wrap; it yields the file events in order and the byte count |
| `WriteSpec.BytesWrittenIsSum` | catalogue/PostgresCatalogue.cpp:385-418 | The byte count is the sum over file events modulo 2^64 |
| `WriteSpec.CountFilesIsLength` | catalogue/OracleCatalogue.cpp:410-415 | The number counted up front is the number of file events collected |
| `WriteSpec.FilesInSequence` | catalogue/TapeItemImplementation.cpp:44-46 | File events of an accepted batch lie on the tape in strictly increasing places inside the range the batch takes |
| `WriteSpec.BeginWriteAccepts` | catalogue/PostgresCatalogue.cpp:366-430 | The first statements succeed exactly when the batch continues its tape, and update TAPE as described |
| `WriteSpec.PostgresMeetsReference` | catalogue/PostgresCatalogue.cpp:359-668 | Postgres commits exactly the accepted batches and leaves exactly `Written` |
| `WriteSpec.OracleMeetsReference` | catalogue/OracleCatalogue.cpp:389-760 | Oracle commits exactly the accepted batches and leaves exactly `Written` |
| `WriteSpec.BackEndsAgree` | catalogue/OracleCatalogue.cpp:389-760 | For every batch and database both succeed or both fail, and commit the same tables |
| `WriteTheorems.SameErrorUnlessDiskFileClash` | catalogue/OracleCatalogue.cpp:722-757 | Unless a disk file is claimed twice both report the same error |
| `WriteTheorems.ClashReportedDifferently` | catalogue/PostgresCatalogue.cpp:1000-1011 | A batch of any length whose only fault is a disk file claimed twice fails the deferred check in Postgres and the missing row in Oracle |
| `ErrorReports.OracleRowsAmongPostgres` | catalogue/OracleCatalogue.cpp:613-760 | The Oracle insertion leaves no row that the Postgres insertion does not |
| `ErrorReports.SameVerdictIff` | catalogue/PostgresCatalogue.cpp:443-468 | Verification comes to the same verdict on both tables if and only if a file fails before the first one that Oracle skipped, or an entry is what Postgres misses first too |
| `ErrorReports.SameAnswerIff` | catalogue/OracleCatalogue.cpp:389-760 | For every batch, other faults included, both back ends give the same answer if and only if it is refused before ARCHIVE_FILE is touched, or both insertions fail, or both lead to the same fault |
| `WriteTheorems.LiveCopiesAfterWrite` | catalogue/PostgresCatalogue.cpp:516-535 | Every file of the batch is live, exactly the previous holders are gone, all other copies are untouched |
| `WriteTheorems.WriteConservesCopies` | catalogue/PostgresCatalogue.cpp:516-535 | Live and recycled rows together grow by exactly the files of the batch, place by place |
| `WriteTheorems.RecycledRowsAreHolders` | catalogue/PostgresCatalogue.cpp:676-710 | The rows added to the recycle log are exactly the previous holders, with their own columns and their file's |
| `WriteTheorems.CountersAfterWrite` | catalogue/RdbmsCatalogue.cpp:8889-8923 | Last FSeq grows by the number of events, files by the number of file events, bytes by their sum if and only if it is below 2^64; other tapes are untouched |
| `WriteColumns.CommitsIffCommittable` | catalogue/RdbmsCatalogue.cpp:9977-10025 | Both back ends commit exactly the batches with every mandatory field set, consecutive numbers on one existing tape, files that agree with ARCHIVE_FILE or can be created, free places and blocks, and no clash within the batch, each condition written in the fields |
| `WriteColumns.InsertionByColumns` | catalogue/PostgresCatalogue.cpp:518-526 | When the rows of a batch go into TAPE_FILE, in its columns |
| `WriteColumns.OldCopiesByColumns` | catalogue/PostgresCatalogue.cpp:676-690 | Which live copies are selected for recycling, in the columns of the join |
| `WriteColumns.TapesAfterCommit` | catalogue/RdbmsCatalogue.cpp:8889-8923 | Every column of TAPE after a commit, for the tape and for all others |
| `WriteColumns.ArchiveFilesAfterCommit` | catalogue/PostgresCatalogue.cpp:550-668 | ARCHIVE_FILE after a commit: old rows as they were, new rows column by column from the event, no other row |
| `WriteColumns.TapeFilesAfterCommit` | catalogue/PostgresCatalogue.cpp:471-535 | TAPE_FILE after a commit: a row for each file column by column, exactly the superseded copies gone, the others as they were |
| `WriteColumns.RecycleLogAfterCommit` | catalogue/PostgresCatalogue.cpp:676-710 | FILE_RECYCLE_LOG after a commit: one more row per superseded copy, column by column, and no other |
| `WriteTheorems.ResubmissionFails` | catalogue/PostgresCatalogue.cpp:378-406 | A committed batch fails with an FSeq mismatch in every later catalogue whose tape has not gone back |
| `WriteBatching.PartsCommit` | catalogue/PostgresCatalogue.cpp:378-535 | If a batch commits, so do its two parts in turn |
| `WriteBatching.BatchCommitsIffPartsDo` | catalogue/PostgresCatalogue.cpp:378-535 | A batch commits if and only if its parts commit in turn and can be joined |
| `WriteBatching.BatchEqualsParts` | catalogue/PostgresCatalogue.cpp:378-535 | Same ARCHIVE_FILE, TAPE_FILE and recycle log; the whole database is equal if and only if the byte counts do not wrap when added |
| `OneByOne.SinglyIsExact` | catalogue/PostgresCatalogue.cpp:378-535 | An accepted batch commits item by item and leaves the same database with byte counters that do not wrap |
| `OneByOne.BatchIsFoldOfItems` | catalogue/PostgresCatalogue.cpp:378-535 | A batch commits if and only if its items commit one at a time and can be joined; it leaves the same tables, and the same database if and only if its bytes stay below 2^64 |
| `WriteRetry.RetryOnLostConnection` | catalogue/retryOnLostConnection.hpp:44-69 | The loop of tries, for every sequence of lost connections, times and steps of other clients in between |
| `WriteRetry.RetryAfterCommit` | catalogue/CatalogueRetryWrapper.hpp:82-84 | After the commit every further try is refused, whatever other clients do short of reclaiming the tape |
| `WriteRetry.RetryRecordsAtMostOnce` | catalogue/CatalogueRetryWrapper.hpp:82-84 | Whatever connections are lost and whatever other clients do between the tries short of reclaiming the tape, the batch is committed at most once; success is reported exactly when it was committed and the commit noticed |
| `WriteRetry.RetryIsRun` | catalogue/CatalogueRetryWrapper.hpp:82-84 | Tries and steps of other clients together amount to a run |
| `Executions.Perform` | catalogue/CatalogueRetryWrapper.hpp:82-84 | The methods leave the database that the step of a run says, failing and interrupted ones included |
| `Executions.PerformAll` | catalogue/CatalogueRetryWrapper.hpp:82-84 | A run, step by step |
| `Sessions.InterleavingIsGapless` | catalogue/PostgresCatalogue.cpp:332-430 | Under every interleaving of sessions that take the TAPE row lock, the numbers committed to each tape are exactly 1 to last FSeq |
| `Sessions.CommitIsSerialWrite` | catalogue/PostgresCatalogue.cpp:376-430 | What a session commits is what a serial write would leave as last FSeq |
| `Sessions.SoloSessionCommitsIff` | catalogue/PostgresCatalogue.cpp:376-430 | An undisturbed session commits its batch if and only if the batch goes on from the last number of the tape, and otherwise leaves no trace |
| `Sessions.AbortLeavesNothing` | catalogue/PostgresCatalogue.cpp:370-371 | A session that is given up frees its tape, leaves nothing behind and disturbs no other |
| `Sessions.WithoutLockNumbersOverlap` | catalogue/PostgresCatalogue.cpp:332-354 | Without the lock two sessions can commit the same number |
| `Operations.KeepRows` | catalogue/RdbmsCatalogue.cpp:10656-10682 | Deleting by a condition, row by row, keeps exactly the other rows with their multiplicity |
| `Operations.RecycleSeenCopies` | catalogue/RdbmsCatalogue.cpp:10273-10325 | One log row per copy seen, none when the archive file is gone; fails exactly on an unknown tape |
| `Operations.MoveArchiveFileToRecycleLog` | catalogue/RdbmsCatalogue.cpp:10187-10268 | Moves the file as modelled or leaves the database as it was |
| `Operations.DeleteTapeFileCopy` | catalogue/PostgresCatalogue.cpp:1078-1108 | Deletes and logs the copies seen or leaves the database as it was |
| `Operations.RestoreCopy` | catalogue/PostgresCatalogue.cpp:1113-1156 | First of the two transactions of a restore |
| `Operations.RestoreFileInRecycleLog` | catalogue/PostgresCatalogue.cpp:1113-1193 | Restores the one row that answers the search; an unknown tape, no row or several rows are refused; a lost connection after the inner commit leaves the first half |
| `Operations.DeleteFilesFromRecycleLog` | catalogue/RdbmsCatalogue.cpp:10656-10682 | Exactly the rows of the tape leave the recycle log |
| `Operations.ReclaimTape` | catalogue/RdbmsCatalogue.cpp:4726-4769 | Refused unless the tape is full and holds no live copy; the purge and the reset of the counters commit separately, and a lost connection in between leaves the purge alone |
| `StepColumns.MoveByColumns` | catalogue/RdbmsCatalogue.cpp:10187-10299 | When a deletion is refused, and every column of every table when it is not: the file and its copies gone, its tapes dirty, a row per copy seen |
| `StepColumns.DropByColumns` | catalogue/RdbmsCatalogue.cpp:10305-10325 | The same for deleting copies; the file stays |
| `StepColumns.FindByColumns` | catalogue/RdbmsCatalogueGetFileRecycleLogItor.cpp:67-107 | A search finds a row if and only if the tape named exists and the row is the only one with the identifier, disk instance, tape, disk file identifier and copy number given; and when each of the three refusals happens |
| `StepColumns.RestoreByColumns` | catalogue/RdbmsCatalogue.cpp:8215-8227 | When a row is restored, and every column of every table then |
| `StepColumns.RestoreRefusals` | catalogue/PostgresCatalogue.cpp:1128-1141 | Which of the four refusals a row meets, in the order of the tests |
| `StepColumns.PurgeByColumns` | catalogue/RdbmsCatalogue.cpp:10656-10682 | Exactly the rows of the tape leave the log |
| `StepColumns.ReclaimByColumns` | catalogue/RdbmsCatalogue.cpp:4690-4769 | When a tape is reclaimed, and every column of every table then |
| `Steps.MarksDirty` | catalogue/RdbmsCatalogue.cpp:4672-4685 | Exactly the tapes with a live copy of the file become dirty, no other column changes |
| `Consistency.WriteKeepsConsistency` | catalogue/PostgresCatalogue.cpp:359-545 | Every committed batch keeps the invariant |
| `Consistency.WriteKeepsLogSizesIff` | catalogue/PostgresCatalogue.cpp:460-465 | Recycled sizes go on agreeing if and only if no identifier is reused for a file of another size |
| `Steps.MoveConservesIffSeenExactly` | catalogue/PostgresCatalogue.cpp:1016-1046 | Nothing is lost or duplicated if and only if the caller saw every live copy once and nothing else or, when the file seen is gone, there is no live copy |
| `Steps.UnseenCopyIsLost` | catalogue/PostgresCatalogue.cpp:1016-1046 | A copy written after the caller looked, or any copy when the file seen is gone, leaves no trace |
| `Steps.DropConservesIffLive` | catalogue/PostgresCatalogue.cpp:1078-1108 | Deleting copies conserves if and only if each copy seen is still live and listed once or, when the file seen is gone, no place seen is live |
| `Steps.RecyclingKeepsConsistencyIff` | catalogue/RdbmsCatalogue.cpp:10330-10401 | Recycling keeps the invariant if and only if the rows added name places of their tape that no other row describes |
| `Steps.MoveKeepsConsistencyIff` | catalogue/PostgresCatalogue.cpp:1016-1046 | Moving a file keeps the invariant if and only if each place seen is on its tape, listed once, and deleted now or described by no row |
| `Steps.StaleDeletionDuplicates` | catalogue/PostgresCatalogue.cpp:1016-1046 | Deleting with a view from before an earlier deletion describes a place twice |
| `Steps.DropThenStaleMove` | catalogue/PostgresCatalogue.cpp:1016-1108 | A run that breaks the invariant: drop copies, then delete the file with the old view |
| `Steps.DropKeepsConsistencyIff` | catalogue/PostgresCatalogue.cpp:1078-1108 | Deleting copies keeps the invariant if and only if each place seen is on its tape, listed once, and live or described by no row |
| `Steps.RestoreInsertEffect` | catalogue/PostgresCatalogue.cpp:1130-1176 | A successful restore adds one copy, perhaps its file, and supersedes nothing |
| `Steps.InterruptedRestoreDuplicates` | catalogue/RdbmsCatalogue.cpp:9413-9472 | Between the two commits of a restore the copy is described twice |
| `BrokenRestore.RefusedWhileLive` | catalogue/PostgresCatalogue.cpp:1130-1141 | While a copy with its number is live, a row is not restored |
| `BrokenRestore.RefusedStraightAfter` | catalogue/PostgresCatalogue.cpp:1130-1141 | The restore that follows a broken-off one is refused |
| `BrokenRestore.SearchAfterDeletion` | catalogue/PostgresCatalogue.cpp:1119-1126 | After the file is deleted again the old row is found if and only if no older row answers and the file deleted was another disk file; otherwise several rows answer |
| `BrokenRestore.RestoreAfterDeletion` | catalogue/PostgresCatalogue.cpp:1128-1193 | It is then restored if and only if the new disk file identifier is free; the copy is described once afterwards if and only if the file deleted belonged to the disk instance of the row |
| `BrokenRestore.OtherInstanceRowStays` | catalogue/RdbmsCatalogue.cpp:10530-10553 | A consistent database in which it did not |
| `Steps.RestoreConserves` | catalogue/PostgresCatalogue.cpp:1161-1193 | A restore moves exactly one row from the recycle log to TAPE_FILE |
| `Steps.RestoreKeepsConsistencyIff` | catalogue/PostgresCatalogue.cpp:1113-1193 | A restore keeps the invariant if and only if a file that is still there has the size of the row |
| `Steps.PurgeKeepsConsistency` | catalogue/RdbmsCatalogue.cpp:10656-10682 | Purging keeps the invariant |
| `Steps.ReclaimKeepsConsistency` | catalogue/RdbmsCatalogue.cpp:4726-4769 | Reclaiming keeps the invariant |
| `Steps.InterruptedReclaimRepeats` | catalogue/RdbmsCatalogue.cpp:4745-4752 | A reclaim broken off after the purge keeps the invariant, and repeating it finishes the work |
| `Runs.StepKeepsConsistencyIff` | catalogue/PostgresCatalogue.cpp:359-1193 | A step, failing or interrupted or not, keeps the invariant if and only if it fits: always for writes, purges and reclaims |
| `Runs.RunKeepsConsistencyIff` | catalogue/PostgresCatalogue.cpp:359-1193 | Throughout a run the places are distinct over TAPE_FILE and recycle log together and within their tape, there is one live copy per file and copy number, with its file and its size, and the unique and foreign keys hold, if and only if every step fits |
| `Runs.StepKeepsLogSizesIff` | catalogue/PostgresCatalogue.cpp:460-465 | Of all steps only a write that reuses an identifier for another size makes recycled sizes disagree |
| `Runs.AgreeingSizesFit` | catalogue/PostgresCatalogue.cpp:1130-1144 | While recycled sizes agree every restore fits |
| `Runs.CarefulRunIsConsistent` | catalogue/PostgresCatalogue.cpp:359-1193 | A run without such reuse, stale deletions or broken-off restores stays consistent, restores included |
| `Runs.ReusedIdentifierBreaksSizes` | catalogue/PostgresCatalogue.cpp:1130-1176 | A consistent database, a write and a restore after which a live copy has not the size of its file |
| `Runs.RunKeepsLastFSeq` | catalogue/RdbmsCatalogue.cpp:8889-8923 | No run without a reclaim takes a tape's last FSeq back |
| `Runs.CommittedBatchNeverCommitsAgain` | catalogue/PostgresCatalogue.cpp:378-406 | After any run without a reclaim of its tape, a committed batch is refused by both back ends |
| `Runs.ReclaimReopensTapeIff` | catalogue/RdbmsCatalogue.cpp:4690-4721 | After a reclaim a batch commits again if and only if it was the first of the tape and its files are acceptable as they stand now |
| `RoundTrip.DeleteThenRestore` | catalogue/PostgresCatalogue.cpp:1016-1193 | Delete, then restore all copies in any order: succeeds if and only if the new disk file identifier is free and no older row answers the searches; then the same copies, sizes and recycle log are back, with the new disk file identifier and new times, and exactly the tapes of the file are dirty |
| `RoundTrip.OlderMatchRefused` | catalogue/PostgresCatalogue.cpp:1113-1128 | An older recycled copy that answers to the same search makes the restore fail |
| `Listing.ArchiveFileBuilder.constructor` | catalogue/ArchiveFileBuilder.hpp:97-107 | Nothing is under construction |
| `Listing.ArchiveFileBuilder.Append` | catalogue/ArchiveFileBuilder.hpp:112-176 | For each combination of what is under construction and how many copies the row carries: what is completed, what is under construction then, or the error with nothing changed |
| `Listing.ArchiveFileBuilder.Clear` | catalogue/ArchiveFileBuilder.hpp:190-192 | Nothing is under construction |
| `Listing.ArchiveFileItor.constructor` | catalogue/RdbmsCatalogueGetArchiveFilesItor.cpp:177-184 | All grouped rows are still to come |
| `Listing.ArchiveFileItor.HasMore` | catalogue/RdbmsCatalogueGetArchiveFilesItor.cpp:212-225 | True exactly when the following `Next` returns a file, in every reachable state |
| `Listing.ArchiveFileItor.Next` | catalogue/RdbmsCatalogueGetArchiveFilesItor.cpp:230-281 | Returns the next grouped file, or one of two errors exactly when `HasMore` was not called or nothing is left |
| `Listing.GroupEmpty` | catalogue/RdbmsCatalogueGetArchiveFilesItor.cpp:212-225 | Nothing is left exactly when no row is unread and nothing is under construction |
| `Listing.GroupBounded` | catalogue/RdbmsCatalogueGetArchiveFilesItor.cpp:230-281 | There are never more files to come than rows and the one under construction |
| `Listing.ListAll` | catalogue/RdbmsCatalogueGetArchiveFilesItor.cpp:212-281 | Draining the iterator gives the grouped rows |
| `Listing.ListingIsMaximalRuns` | catalogue/ArchiveFileBuilder.hpp:112-176 | The listing is the list of maximal runs of equal archive file identifiers |
| `Listing.MaximalRunsUnique` | catalogue/ArchiveFileBuilder.hpp:112-176 | Rows are cut into maximal runs in one way only |
| `Listing.ListingKeepsRows` | catalogue/ArchiveFileBuilder.hpp:112-176 | Flattening the listing gives the rows back in order; neighbouring files differ |
| `Listing.OneFilePerIdIffContiguous` | catalogue/RdbmsCatalogueGetArchiveFilesItor.cpp:151-160 | Each file is listed once if and only if the order of the rows keeps its copies together |
| `ArchiveListing.EachOnceIffContiguous` | catalogue/RdbmsCatalogueGetArchiveFilesItor.cpp:81-149 | Every matching file is listed once with all its matching copies if and only if its rows come one after the other |
| `ArchiveListing.ListingIsWholeIff` | catalogue/RdbmsCatalogueGetArchiveFilesItor.cpp:81-160 | With each of the three orders: always when no tape is named, and when one is named if and only if copies of different files do not alternate on it |
| `ArchiveListing.ListedByColumns` | catalogue/RdbmsCatalogueGetArchiveFilesItor.cpp:105-149 | A right listing holds exactly the files with a copy that has the identifier, disk instance, tape, number and disk file identifier searched for, and under each exactly those copies |
| `ArchiveListing.ListedInOrder` | catalogue/RdbmsCatalogueGetArchiveFilesItor.cpp:151-160 | The copies come in the order of the columns the query names |
| `ArchiveListing.AlternatingCopiesListedTwice` | catalogue/RdbmsCatalogueGetArchiveFilesItor.cpp:151-155 | A consistent database and a result set for which a file is listed twice |
| `RepackListing.RepackListsPlacesIff` | catalogue/RdbmsCatalogueGetArchiveFilesForRepackItor.cpp:98-222 | One whole file, with all copies on all tapes each once, per place from the start on and in tape order, if and only if neighbouring places hold different files |
| `RepackListing.PlacesByColumns` | catalogue/RdbmsCatalogueGetArchiveFilesForRepackItor.cpp:98-116 | Such a listing by columns: the numbers from the start on with a live copy, in order, each with its file and all live copies of it |
| `RepackListing.OneCopyPerFileListsPlaces` | catalogue/RdbmsCatalogueGetArchiveFilesForRepackItor.cpp:98-222 | A tape that holds no file twice is listed whole |
| `RepackListing.NeighbouringCopiesMerge` | catalogue/RdbmsCatalogueGetArchiveFilesForRepackItor.cpp:98-222 | A consistent database on which two places are merged and copies listed twice |
| `DropSchema.LargestStuckIsLargest` | catalogue/DropSchemaCmd.cpp:126-141 | There is one largest set of tables whose every member but CTA_CATALOGUE is referred to by another member |
| `DropSchema.DropKeepsLargestStuck` | catalogue/DropSchemaCmd.cpp:133-136 | No possible drop changes that set, so the order of drops does not matter |
| `DropSchema.DroppableIffRankable` | catalogue/DropSchemaCmd.cpp:126-141 | Everything but CTA_CATALOGUE can be dropped if and only if the tables can be ranked by references |
| `DropSchema.Connection.constructor` | catalogue/DropSchemaCmd.cpp:56-59 | A connection to the given schema, no statement made yet |
| `DropSchema.Connection.DropTable` | catalogue/DropSchemaCmd.cpp:134-139 | Succeeds exactly when the table exists and no other table refers to it |
| `DropSchema.Connection.DropSequence` | catalogue/DropSchemaCmd.cpp:172-175 | Succeeds exactly when nothing depends on the sequence |
| `DropSchema.ListNames` | catalogue/DropSchemaCmd.cpp:131 | Every name once, in an order nothing is known about |
| `DropSchema.TryTable` | catalogue/DropSchemaCmd.cpp:134-140 | One attempt: the output names exactly the tables gone, and a new run could start from here |
| `DropSchema.TryTables` | catalogue/DropSchemaCmd.cpp:130-141 | One pass: tables get fewer, or none can be dropped |
| `DropSchema.DropOtherTables` | catalogue/DropSchemaCmd.cpp:128-142 | The loop ends with nothing droppable left |
| `DropSchema.DropDatabaseTables` | catalogue/DropSchemaCmd.cpp:126-164 | Terminates; leaves the largest stuck set whatever the order; returns normally if and only if CTA_CATALOGUE was there and the tables can be ranked, and then nothing is left |
| `DropSchema.DropDatabaseSequences` | catalogue/DropSchemaCmd.cpp:169-180 | Drops all sequences if and only if nothing depends on any; otherwise stops, and tables are untouched either way |
| `DropSchema.DropCatalogue` | catalogue/DropSchemaCmd.cpp:48-120 | The command: exactly when it answers already dropped, production database, flag unreadable, aborted, unsupported, or dropped; the output names exactly the tables gone; at every interruption CTA_CATALOGUE is still there while any table or sequence is, and a new run would be left with the same tables |
| `SchemaComparer.SchemaCheckerResult.constructor` | catalogue/SchemaCheckerResult.cpp:25-26 | SUCCESS without messages |
| `SchemaComparer.SchemaCheckerResult.AddError` | catalogue/SchemaCheckerResult.cpp:54-57 | FAILED exactly when there are errors |
| `SchemaComparer.SchemaCheckerResult.AddWarning` | catalogue/SchemaCheckerResult.cpp:59-61 | Warnings do not change the status |
| `SchemaComparer.SchemaCheckerResult.Add` | catalogue/SchemaCheckerResult.cpp:41-49 | Messages are appended and FAILED is kept |
| `SchemaComparer.NoMissingItems` | catalogue/SQLiteSchemaComparer.cpp:100-110 | No item is reported exactly when all are found |
| `SchemaComparer.NoItemErrors` | catalogue/SQLiteSchemaComparer.cpp:94-118 | Neither direction reports an item exactly when both lists hold the same names |
| `SchemaComparer.MissingItemsAre` | catalogue/SQLiteSchemaComparer.cpp:100-115 | How often each message about an item is reported |
| `SchemaComparer.ConstraintErrorsAre` | catalogue/SQLiteSchemaComparer.cpp:132-140 | Exactly which constraint messages are reported, and which side they say lacks the name |
| `SchemaComparer.DifferencesAre` | catalogue/SQLiteSchemaComparer.cpp:148-176 | Exactly which table, column and type messages are reported, and which side they name |
| `SchemaComparer.AgreeByContents` | catalogue/SQLiteSchemaComparer.cpp:46-52 | Success means the same tables with the same columns, types and constraint names, and all indexes of the schema |
| `SchemaComparer.PresentByContents` | catalogue/SQLiteSchemaComparer.cpp:62-73 | The same for the tables of the schema alone |
| `SchemaComparer.FindMismatches` | catalogue/SQLiteSchemaComparer.cpp:100-110 | One message per item that is not found, in order, at the given level |
| `SchemaComparer.CompareItems` | catalogue/SQLiteSchemaComparer.cpp:94-118 | Both directions, each at its own level |
| `SchemaComparer.CompareColumns` | catalogue/SQLiteSchemaComparer.cpp:159-170 | Each missing column and differing type of a table once |
| `SchemaComparer.CompareTableColumns` | catalogue/SQLiteSchemaComparer.cpp:148-176 | Each difference seen from one side once, and nothing else, in any order of the maps |
| `SchemaComparer.NoDifferenceIffEqual` | catalogue/SQLiteSchemaComparer.cpp:142-143 | Both directions are silent if and only if the table-column-type maps are equal |
| `SchemaComparer.ErrorsBothWays` | catalogue/SQLiteSchemaComparer.cpp:142-176 | One error per table or column missing on either side, two per type mismatch |
| `SchemaComparer.TableErrorCount` | catalogue/SQLiteSchemaComparer.cpp:120-146 | The number of errors of a table comparison |
| `SchemaComparer.ReadTables` | catalogue/SQLiteSchemaComparer.cpp:127-135 | The maps hold columns and constraints of exactly the listed tables |
| `SchemaComparer.CompareConstraints` | catalogue/SQLiteSchemaComparer.cpp:132-140 | Constraint differences of the schema's tables, a missing table read as one without constraints |
| `SchemaComparer.CompareTableLists` | catalogue/SQLiteSchemaComparer.cpp:120-146 | SUCCESS if and only if columns agree on all listed tables and constraints on the schema's |
| `SchemaComparer.SQLiteSchemaComparer.constructor` | catalogue/SchemaComparer.cpp:26-29 | No reader and nothing inserted |
| `SchemaComparer.SQLiteSchemaComparer.SetReader` | catalogue/SchemaComparer.cpp:31-33 | Replaces the reader only |
| `SchemaComparer.SQLiteSchemaComparer.InsertSchema` | catalogue/SQLiteSchemaComparer.cpp:75-85 | Inserts once; fails exactly when nothing is inserted and there is no reader |
| `SchemaComparer.SQLiteSchemaComparer.CompareAll` | catalogue/SQLiteSchemaComparer.cpp:46-52 | SUCCESS if and only if tables, columns, types and the schema's constraints agree and no schema index is missing; extra indexes are the warnings |
| `SchemaComparer.SQLiteSchemaComparer.CompareTablesLocatedInSchema` | catalogue/SQLiteSchemaComparer.cpp:62-73 | SUCCESS if and only if every schema table is in the database with the same columns and constraints |
| `StatementReader.TrimFindsText` | common/utils/utils.cpp:272-297 | Whatever white space surrounds it, trimming finds the text |
| `StatementReader.TrimTakesWhite` | common/utils/utils.cpp:272-297 | Trimming takes white space off both ends and nothing else |
| `StatementReader.GetAllStatements` | catalogue/SchemaSqlStatementsReader.cpp:70-89 | Cuts the text at every semicolon; the result is the trimmed, non-empty pieces, each ended by a semicolon, and text after the last one is dropped |
| `StatementReader.StatementEdges` | common/utils/utils.cpp:272-297 | A statement ends with its only semicolon; the text before it neither begins nor ends with one of the six space characters |
| `StatementReader.OnlySpacesGo` | common/utils/utils.cpp:272-297 | What is taken off a piece are those six characters only, and exactly a piece of nothing else gives no statement |
| `StatementReader.CutIsUnique` | catalogue/SchemaSqlStatementsReader.cpp:75-79 | A text is cut at its semicolons in one way only |
| `StatementReader.SplitIsFunction` | catalogue/SchemaSqlStatementsReader.cpp:70-89 | Every text has one list of statements |
| `StatementReader.SplitUndoesJoin` | catalogue/SchemaSqlStatementsReader.cpp:70-89 | Splitting is a left inverse of joining for trimmed, non-empty, semicolon-free statements |
| `StatementReader.LayoutIsIgnored` | catalogue/SchemaSqlStatementsReader.cpp:77-84 | White space around statements and an unterminated tail make no difference |
| `StatementReader.SplitJoinSplit` | catalogue/SchemaSqlStatementsReader.cpp:70-89 | Splitting the joined result of a split gives the same list, for every text |

## Left out

- Connections, pools, statement wrappers, column buffers by type and OCCI column lengths, logging, timers: foreign calls. A connection is its tables and the state a rollback returns to.
- FILE_RECYCLE_LOG_ID, COLLOCATION_HINT, the separate Adler-32 column and the recycle log host names: no modelled operation reads them.
- Concurrent writers on different tapes: the invariant on (archive file, copy number) is for serial runs, since existing ARCHIVE_FILE rows are not locked (catalogue/PostgresCatalogue.cpp:432-436).
- Sessions.CommitIsSerialWrite: covers the numbering of the tape, not the other tables, because sessions on different tapes are not serialised on those.
- The wording of error messages: a message is a value that carries its data.
- The checks of search criteria before an archive file listing, and the temporary tables of disk file identifiers.
- The regular expressions of the statement transformer and of the catalogue schema, SQLite's reading of statements, and the type filter of the schema metadata getter: what the reader's statements define is given as metadata.
- Caches, mount policies, disk reservations, tape contents and deleted-file iterators, schema version and `DO_NOT_USE_deleteArchiveFile`: separate features that share no state with the ones modelled, or are marked as not to be used.
