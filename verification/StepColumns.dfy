/** What the other steps need and what they do to every table, column by column. */
module StepColumns {
  import opened Tables
  import opened TapeWrite
  import opened WriteTheorems
  import opened LifeCycle
  import opened Consistency
  import opened Steps

  // ----- deleting -----

  /** The row of FILE_RECYCLE_LOG for a copy the caller saw. */
  ghost predicate RowOfSeen(r: RecycledFile, c: CopySeen, id: uint64, file: ArchiveFile, path: string, reason: string,
                            now: nat)
  {
    && r.position == c.position && r.blockId == c.blockId && r.copyNb == c.copyNb
    && r.tapeFileCreationTime == c.creationTime && r.archiveFileId == id && r.file == file
    && r.diskFilePath == Some(path) && r.reason == reason && r.recycleTime == now
  }

  /** How many of the copies seen the row `r` is made for. */
  ghost function RowsFor(r: RecycledFile, copies: seq<CopySeen>, id: uint64, file: ArchiveFile, path: string,
                         reason: string, now: nat): nat
  {
    if copies == [] then 0
    else
      RowsFor(r, copies[..|copies| - 1], id, file, path, reason, now)
      + if RowOfSeen(r, copies[|copies| - 1], id, file, path, reason, now) then 1 else 0
  }

  lemma {:induction false} RowsLogged(files: map<uint64, ArchiveFile>, id: uint64, copies: seq<CopySeen>, path: string,
                                      reason: string, now: nat, r: RecycledFile)
    ensures RecycleAllSeen(files, id, copies, path, reason, now)[r] ==
            if id in files then RowsFor(r, copies, id, files[id], path, reason, now) else 0
  {
    if id in files && copies != [] {
      var front, last := copies[..|copies| - 1], copies[|copies| - 1];
      RowsLogged(files, id, front, path, reason, now, r);
      assert r == RecycleSeen(last, id, files[id], path, reason, now) <==>
             RowOfSeen(r, last, id, files[id], path, reason, now);
    }
  }

  /** What a deletion may do besides logging: the tapes that hold a copy of `id` are marked. */
  ghost predicate OnlyMarked(db: Database, after: Database, id: uint64) {
    && DirtyMarked(db, id, after.tapes)
    && after.storageClasses == db.storageClasses && after.diskInstances == db.diskInstances
  }

  /** Moving a file to the recycle log is refused exactly when the request does not fit the file seen, or a row would
      name an unknown tape. Then the file and its live copies are gone, its tapes are marked, and each copy seen is
      logged if the file seen is there. */
  lemma {:induction false} MoveByColumns(db: Database, request: DeleteRequest, now: nat)
    ensures var r := MoveToRecycleLog(db, request, now);
            match request.seen
            case None => r == Ok(db)
            case Some(seen) =>
              if request.diskInstance != seen.diskInstance || request.diskFilePath == ""
              then r == Err(InconsistentRequest)
              else if seen.archiveFileId in db.archiveFiles
                      && exists i :: 0 <= i < |seen.copies| && seen.copies[i].position.vid !in db.tapes
              then r == Err(ForeignKeyViolated)
              else r.Ok? && MovedByColumns(db, request, seen, now, r.value)
  {
    if request.seen.Some? && MoveToRecycleLog(db, request, now).Ok? {
      var seen, after := request.seen.value, MoveToRecycleLog(db, request, now).value;
      var reason := "File deleted by " + request.requester + " from the " + request.diskInstance + " instance";
      MarksDirty(db, request.archiveFileId);
      forall x
        ensures after.recycleLog[x] == db.recycleLog[x] + LoggedFor(db, seen, request.diskFilePath, reason, now, x)
      {
        RowsLogged(db.archiveFiles, seen.archiveFileId, seen.copies, request.diskFilePath, reason, now, x);
      }
    }
  }

  ghost function LoggedFor(db: Database, seen: FileSeen, path: string, reason: string, now: nat, x: RecycledFile): nat {
    if seen.archiveFileId in db.archiveFiles
    then RowsFor(x, seen.copies, seen.archiveFileId, db.archiveFiles[seen.archiveFileId], path, reason, now)
    else 0
  }

  ghost predicate MovedByColumns(db: Database, request: DeleteRequest, seen: FileSeen, now: nat, after: Database) {
    var id := request.archiveFileId;
    var reason := "File deleted by " + request.requester + " from the " + request.diskInstance + " instance";
    && OnlyMarked(db, after, id)
    && (forall k :: k in after.archiveFiles <==> k in db.archiveFiles && k != id)
    && (forall k :: k in after.archiveFiles ==> after.archiveFiles[k] == db.archiveFiles[k])
    && (forall p :: p in after.tapeFiles <==> p in db.tapeFiles && db.tapeFiles[p].archiveFileId != id)
    && (forall p :: p in after.tapeFiles ==> after.tapeFiles[p] == db.tapeFiles[p])
    && (forall x :: after.recycleLog[x] == db.recycleLog[x] + LoggedFor(db, seen, request.diskFilePath, reason, now, x))
  }

  /** Deleting copies is refused exactly when a row would name an unknown tape. Then the places seen are no longer live,
      the tapes of the file are marked, each copy seen is logged if the file seen is there, and the file stays. */
  lemma {:induction false} DropByColumns(db: Database, seen: FileSeen, reason: string, now: nat)
    ensures var r := DeleteCopies(db, seen, reason, now);
            if seen.archiveFileId in db.archiveFiles
               && exists i :: 0 <= i < |seen.copies| && seen.copies[i].position.vid !in db.tapes
            then r == Err(ForeignKeyViolated)
            else r.Ok? && DroppedByColumns(db, seen, reason, now, r.value)
  {
    if DeleteCopies(db, seen, reason, now).Ok? {
      var after, why := DeleteCopies(db, seen, reason, now).value, "(Deleted using cta-admin tf rm) " + reason;
      MarksDirty(db, seen.archiveFileId);
      forall x ensures after.recycleLog[x] == db.recycleLog[x] + LoggedFor(db, seen, seen.diskFilePath, why, now, x) {
        RowsLogged(db.archiveFiles, seen.archiveFileId, seen.copies, seen.diskFilePath, why, now, x);
      }
    }
  }

  ghost predicate DroppedByColumns(db: Database, seen: FileSeen, reason: string, now: nat, after: Database) {
    && OnlyMarked(db, after, seen.archiveFileId) && after.archiveFiles == db.archiveFiles
    && (forall p :: p in after.tapeFiles <==>
                      p in db.tapeFiles && forall i :: 0 <= i < |seen.copies| ==> seen.copies[i].position != p)
    && (forall p :: p in after.tapeFiles ==> after.tapeFiles[p] == db.tapeFiles[p])
    && (forall x :: after.recycleLog[x] ==
                    db.recycleLog[x]
                    + LoggedFor(db, seen, seen.diskFilePath, "(Deleted using cta-admin tf rm) " + reason, now, x))
  }

  // ----- finding a recycled copy -----

  /** The row has the identifier, disk instance, tape, disk file identifier and copy number that the search gives. */
  ghost predicate HasColumns(c: Criteria, r: RecycledFile) {
    && (match c.archiveFileId case None => true case Some(id) => r.archiveFileId == id)
    && (match c.diskInstance case None => true case Some(name) => r.file.diskInstance == name)
    && (match c.vid case None => true case Some(vid) => r.position.vid == vid)
    && (match c.diskFileIds case None => true case Some(fids) => r.file.diskFileId in fids)
    && (match c.copyNb case None => true case Some(nb) => r.copyNb == nb)
  }

  ghost predicate TapeNamedExists(db: Database, c: Criteria) {
    match c.vid case None => true case Some(vid) => vid in db.tapes
  }

  /** The search finds a row exactly when the tape it names exists and the row is the only one with the columns given;
      otherwise it is refused for an unknown tape, for no row, or for several. */
  lemma {:induction false} FindByColumns(db: Database, c: Criteria, r: RecycledFile)
    ensures Find(db, c) == Ok(r) <==>
            && TapeNamedExists(db, c) && db.recycleLog[r] == 1 && HasColumns(c, r)
            && forall s :: s in db.recycleLog && HasColumns(c, s) ==> s == r
    ensures Find(db, c) == Err(TapeUnknown) <==> !TapeNamedExists(db, c)
    ensures Find(db, c) == Err(NothingMatches) <==>
            TapeNamedExists(db, c) && forall s :: s in db.recycleLog ==> !HasColumns(c, s)
    ensures Find(db, c) == Err(SeveralMatch) <==> TapeNamedExists(db, c) && SeveralHave(db.recycleLog, c)
  {
    forall s ensures Matches(c, s) <==> HasColumns(c, s) { }
    CountMatches(db.recycleLog, c, r);
  }

  ghost predicate SeveralHave(log: multiset<RecycledFile>, c: Criteria) {
    || (exists s :: log[s] >= 2 && HasColumns(c, s))
    || exists s, t :: s in log && t in log && s != t && HasColumns(c, s) && HasColumns(c, t)
  }

  lemma {:induction false} CountMatches(log: multiset<RecycledFile>, c: Criteria, r: RecycledFile)
    requires forall s :: Matches(c, s) <==> HasColumns(c, s)
    ensures var rows := Selected(log, c);
            && (|rows| == 0 <==> forall s :: s in log ==> !HasColumns(c, s))
            && (|rows| > 1 <==> SeveralHave(log, c))
            && (|rows| == 1 && TheRow(rows) == r <==>
                  log[r] == 1 && HasColumns(c, r) && forall s :: s in log && HasColumns(c, s) ==> s == r)
  {
    var rows := Selected(log, c);
    assert forall s :: rows[s] == if HasColumns(c, s) then log[s] else 0;
    BagSizes(rows, r);
    if SeveralHave(log, c) {
      if s :| log[s] >= 2 && HasColumns(c, s) {
        assert rows[s] >= 2;
      } else {
        var s, t :| s in log && t in log && s != t && HasColumns(c, s) && HasColumns(c, t);
        assert s in rows && t in rows;
      }
    }
    if log[r] == 1 && HasColumns(c, r) && forall s :: s in log && HasColumns(c, s) ==> s == r {
      assert rows == multiset{r};
    }
  }

  lemma {:induction false} BagSizes(rows: multiset<RecycledFile>, r: RecycledFile)
    ensures |rows| == 0 <==> forall s :: s !in rows
    ensures |rows| > 1 <==> (exists s :: rows[s] >= 2) || exists s, t :: s in rows && t in rows && s != t
    ensures |rows| == 1 && TheRow(rows) == r <==> rows == multiset{r}
  {
    if s :| s in rows {
      var rest := rows - multiset{s};
      assert rows == rest + multiset{s};
      if |rest| == 0 {
        assert rest == multiset{} && rows == multiset{s};
        assert TheRow(multiset{s}) in multiset{s};
      } else {
        var t :| t in rest;
        assert if s == t then rows[s] >= 2 else t in rows;
      }
    }
  }

  // ----- restoring -----

  /** There is a file with the identifier of the row that has a live copy. */
  ghost predicate FileStillThere(db: Database, id: uint64) {
    id in db.archiveFiles && exists p :: p in db.tapeFiles && db.tapeFiles[p].archiveFileId == id
  }

  ghost predicate Restorable(db: Database, r: RecycledFile, newFid: string) {
    && (FileStillThere(db, r.archiveFileId) ==>
          forall p :: p in db.tapeFiles && db.tapeFiles[p].archiveFileId == r.archiveFileId ==>
                        db.tapeFiles[p].copyNb != r.copyNb)
    && (!FileStillThere(db, r.archiveFileId) ==>
          && r.archiveFileId !in db.archiveFiles
          && r.file.storageClass in db.storageClasses && r.file.diskInstance in db.diskInstances
          && forall id :: id in db.archiveFiles ==>
                            !(&& db.archiveFiles[id].diskInstance == r.file.diskInstance
                              && db.archiveFiles[id].diskFileId == newFid))
    && r.position !in db.tapeFiles && r.position.vid in db.tapes && r.copyNb > 0
    && forall p :: p in db.tapeFiles && p.vid == r.position.vid ==> db.tapeFiles[p].blockId != r.blockId
  }

  /** The row of TAPE_FILE that comes back. */
  ghost predicate CopyRestored(t: TapeFile, r: RecycledFile, now: nat) {
    && t.blockId == r.blockId && t.size == r.file.size && t.copyNb == r.copyNb
    && t.creationTime == now && t.archiveFileId == r.archiveFileId
  }

  /** The row of ARCHIVE_FILE that comes back. */
  ghost predicate FileRestored(f: ArchiveFile, r: RecycledFile, newFid: string, now: nat) {
    && f.diskInstance == r.file.diskInstance && f.diskFileId == newFid
    && f.ownerUid == r.file.ownerUid && f.gid == r.file.gid && f.size == r.file.size
    && f.checksum == r.file.checksum && f.storageClass == r.file.storageClass
    && f.creationTime == now && f.reconciliationTime == now
  }

  ghost predicate RestoredByColumns(db: Database, r: RecycledFile, newFid: string, now: nat, after: Database) {
    && after.tapes == db.tapes && after.storageClasses == db.storageClasses && after.diskInstances == db.diskInstances
    && (forall p :: p in after.tapeFiles <==> p in db.tapeFiles || p == r.position)
    && (forall p :: p in db.tapeFiles ==> after.tapeFiles[p] == db.tapeFiles[p])
    && CopyRestored(after.tapeFiles[r.position], r, now)
    && (forall id :: id in after.archiveFiles <==> id in db.archiveFiles || id == r.archiveFileId)
    && (forall id :: id in db.archiveFiles ==> after.archiveFiles[id] == db.archiveFiles[id])
    && (r.archiveFileId !in db.archiveFiles ==> FileRestored(after.archiveFiles[r.archiveFileId], r, newFid, now))
    && (forall s :: after.recycleLog[s] ==
                    if && s.archiveFileId == r.archiveFileId && s.position.vid == r.position.vid
                       && s.position.fSeq == r.position.fSeq && s.copyNb == r.copyNb
                       && s.file.diskInstance == r.file.diskInstance
                    then 0 else db.recycleLog[s])
  }

  /** A row is restored exactly when its copy number is not taken in a file that is still there, or else its file can be
      created, and its place and block are free. The copy and perhaps the file come back with the columns of the row,
      and the rows of that copy leave the log. */
  lemma {:induction false} RestoreByColumns(db: Database, r: RecycledFile, newFid: string, now: nat)
    requires LiveFilesExist(db)
    ensures RestoreRow(db, r, newFid, now).Ok? <==> Restorable(db, r, newFid)
    ensures Restorable(db, r, newFid) ==>
              RestoredByColumns(db, r, newFid, now, RestoreRow(db, r, newFid, now).value)
  {
    RestoreOkIff(db, r, newFid, now);
    if RestoreRow(db, r, newFid, now).Ok? {
      RestoreInsertEffect(db, r, newFid, now);
    }
  }

  /** Which refusal a row meets: its copy number is taken, its storage class is unknown, its file cannot be created, or
      its place on the tape cannot be filled, in this order. */
  lemma {:induction false} RestoreRefusals(db: Database, r: RecycledFile, newFid: string, now: nat)
    requires LiveFilesExist(db)
    ensures var res, there := RestoreRow(db, r, newFid, now), FileStillThere(db, r.archiveFileId);
            if there && HasNumber(db, r.archiveFileId, r.copyNb) then res == Err(CopyExists)
            else if !there && r.file.storageClass !in db.storageClasses then res == Err(StorageClassUnknown)
            else if !there && FileBarred(db, r, newFid) then res == Err(ArchiveFileConflict)
            else if PlaceBarred(db, r) then res == Err(TapeFileConflict)
            else res.Ok?
  {
    RestoreOkIff(db, r, newFid, now);
    var file := RestoredFile(r, newFid, now);
    forall id | id in db.archiveFiles
      ensures SameDiskFile(db.archiveFiles[id], file) <==>
              db.archiveFiles[id].diskInstance == r.file.diskInstance && db.archiveFiles[id].diskFileId == newFid
    {
    }
  }

  ghost predicate HasNumber(db: Database, id: uint64, copyNb: nat) {
    exists p :: p in db.tapeFiles && db.tapeFiles[p].archiveFileId == id && db.tapeFiles[p].copyNb == copyNb
  }

  ghost predicate FileBarred(db: Database, r: RecycledFile, newFid: string) {
    || r.archiveFileId in db.archiveFiles || r.file.diskInstance !in db.diskInstances
    || exists id :: && id in db.archiveFiles && db.archiveFiles[id].diskInstance == r.file.diskInstance
                    && db.archiveFiles[id].diskFileId == newFid
  }

  ghost predicate PlaceBarred(db: Database, r: RecycledFile) {
    || r.position in db.tapeFiles || r.position.vid !in db.tapes || r.copyNb == 0
    || exists p :: p in db.tapeFiles && p.vid == r.position.vid && db.tapeFiles[p].blockId == r.blockId
  }

  lemma {:induction false} RestoreOkIff(db: Database, r: RecycledFile, newFid: string, now: nat)
    requires LiveFilesExist(db)
    ensures RestoreInsert(db, r, newFid, now).Ok? <==> Restorable(db, r, newFid)
  {
    var file := RestoredFile(r, newFid, now);
    forall id | id in db.archiveFiles
      ensures SameDiskFile(db.archiveFiles[id], file) <==>
              db.archiveFiles[id].diskInstance == r.file.diskInstance && db.archiveFiles[id].diskFileId == newFid
    {
    }
  }

  // ----- purging and reclaiming -----

  /** Exactly the rows of the tape leave the log. */
  lemma {:induction false} PurgeByColumns(db: Database, vid: string)
    ensures var after := Purge(db, vid);
            && after == db.(recycleLog := after.recycleLog)
            && forall r :: after.recycleLog[r] == if r.position.vid == vid then 0 else db.recycleLog[r]
  {
  }

  /** A tape is reclaimed exactly when it exists, is full and holds no live copy. Its counters are 0 then, it is neither
      full nor dirty, its last write stays recorded, its rows leave the log, and nothing else changes. */
  lemma {:induction false} ReclaimByColumns(db: Database, vid: string)
    ensures Reclaim(db, vid).Ok? <==>
            vid in db.tapes && db.tapes[vid].full && forall p :: p in db.tapeFiles ==> p.vid != vid
    ensures Reclaim(db, vid).Ok? ==>
              var after := Reclaim(db, vid).value;
              && after == db.(tapes := after.tapes, recycleLog := after.recycleLog)
              && after.tapes.Keys == db.tapes.Keys
              && (forall v :: v in db.tapes && v != vid ==> after.tapes[v] == db.tapes[v])
              && TapeEmptied(db.tapes[vid], after.tapes[vid])
              && forall r :: after.recycleLog[r] == if r.position.vid == vid then 0 else db.recycleLog[r]
  {
  }

  ghost predicate TapeEmptied(before: Tape, after: Tape) {
    && after.lastFSeq == 0 && after.dataInBytes == 0 && after.masterDataInBytes == 0 && after.nbMasterFiles == 0
    && !after.full && !after.dirty
    && after.lastWriteDrive == before.lastWriteDrive && after.lastWriteTime == before.lastWriteTime
  }
}
