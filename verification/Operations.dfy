/** Deleting, restoring, purging and reclaiming as they run on a connection. */
module Operations {
  import opened Tables
  import opened TapeWrite
  import opened LifeCycle
  import opened BackEnds

  lemma {:induction false} WhereOneMore(rows: multiset<RecycledFile>, r: RecycledFile, keep: RecycledFile -> bool)
    ensures Where(rows + multiset{r}, keep) == Where(rows, keep) + if keep(r) then multiset{r} else multiset{}
  {
  }

  /** `DELETE FROM FILE_RECYCLE_LOG WHERE`: visits the rows and keeps those that do not match. */
  method KeepRows(log: multiset<RecycledFile>, keep: RecycledFile -> bool) returns (kept: multiset<RecycledFile>)
    ensures kept == Where(log, keep)
  {
    var rest := log;
    ghost var done: multiset<RecycledFile> := multiset{};
    kept := multiset{};
    while rest != multiset{}
      invariant done + rest == log
      invariant kept == Where(done, keep)
      decreases |rest|
    {
      var r :| r in rest;
      WhereOneMore(done, r, keep);
      rest := rest - multiset{r};
      done := done + multiset{r};
      if keep(r) { kept := kept + multiset{r}; }
    }
    assert done == log;
  }

  method RecycleSeenCopies(conn: Connection, id: uint64, copies: seq<CopySeen>, path: string, reason: string, now: nat)
    returns (ok: bool)
    modifies conn`db
    ensures ok <==> (id in old(conn.db.archiveFiles) ==> TapesKnown(old(conn.db), copies))
    ensures ok ==> conn.db == old(conn.db).(recycleLog := old(conn.db.recycleLog)
                              + RecycleAllSeen(old(conn.db.archiveFiles), id, copies, path, reason, now))
  {
    ghost var start := conn.db;
    for i := 0 to |copies|
      invariant conn.db == start.(recycleLog := start.recycleLog
                           + RecycleAllSeen(start.archiveFiles, id, copies[..i], path, reason, now))
      invariant id in start.archiveFiles ==> TapesKnown(start, copies[..i])
    {
      var c := copies[i];
      assert copies[..i + 1][..i] == copies[..i];
      if id in conn.db.archiveFiles {
        if c.position.vid !in conn.db.tapes {
          assert !TapesKnown(start, copies);
          return false;
        }
        conn.db := conn.db.(recycleLog := conn.db.recycleLog
                            + multiset{RecycleSeen(c, id, conn.db.archiveFiles[id], path, reason, now)});
      }
    }
    assert copies[..|copies|] == copies;
    ok := true;
  }

  ghost predicate Returns(r: Result<Database, StepError>, before: Database, after: Database, error: Option<StepError>) {
    match r
    case Ok(db) => error == None && after == db
    case Err(e) => error == Some(e) && after == before
  }

  method MoveArchiveFileToRecycleLog(conn: Connection, request: DeleteRequest, now: nat)
    returns (error: Option<StepError>)
    modifies conn
    ensures Returns(MoveToRecycleLog(old(conn.db), request, now), old(conn.db), conn.db, error)
  {
    if request.seen.None? { return None; }
    var seen, id := request.seen.value, request.archiveFileId;
    if request.diskInstance != seen.diskInstance || request.diskFilePath == "" { return Some(InconsistentRequest); }
    conn.Begin();
    var ok := RecycleSeenCopies(conn, seen.archiveFileId, seen.copies, request.diskFilePath,
                                DeletionReason(request.requester, request.diskInstance), now);
    if !ok {
      conn.Rollback();
      return Some(ForeignKeyViolated);
    }
    conn.db := conn.db.(tapes := SetDirty(conn.db, id));
    conn.db := conn.db.(tapeFiles := map p | p in conn.db.tapeFiles && conn.db.tapeFiles[p].archiveFileId != id
                                       :: conn.db.tapeFiles[p]);
    conn.db := conn.db.(archiveFiles := conn.db.archiveFiles - {id});
    error := None;
  }

  method DeleteTapeFileCopy(conn: Connection, seen: FileSeen, reason: string, now: nat)
    returns (error: Option<StepError>)
    modifies conn
    ensures Returns(DeleteCopies(old(conn.db), seen, reason, now), old(conn.db), conn.db, error)
  {
    conn.Begin();
    ghost var start := conn.db;
    var ok := RecycleSeenCopies(conn, seen.archiveFileId, seen.copies, seen.diskFilePath,
                                "(Deleted using cta-admin tf rm) " + reason, now);
    if !ok {
      conn.Rollback();
      return Some(ForeignKeyViolated);
    }
    conn.db := conn.db.(tapes := SetDirty(conn.db, seen.archiveFileId));
    var positions := seq(|seen.copies|, i requires 0 <= i < |seen.copies| => seen.copies[i].position);
    DeleteTapeFiles(conn, positions);
    assert forall p :: p in PositionSet(positions) <==> Sees(seen.copies, p) by {
      forall p | Sees(seen.copies, p) ensures p in PositionSet(positions) {
        var i :| 0 <= i < |seen.copies| && seen.copies[i].position == p;
        assert positions[i] == p;
      }
    }
    assert start.tapeFiles - PositionSet(positions)
           == map p | p in start.tapeFiles && !Sees(seen.copies, p) :: start.tapeFiles[p];
    error := None;
  }

  /** The first of two transactions that a restore makes: it ends with the commit inside `insertTapeFile`. */
  method RestoreCopy(conn: Connection, r: RecycledFile, newFid: string, now: nat) returns (error: Option<StepError>)
    modifies conn
    ensures Returns(RestoreInsert(old(conn.db), r, newFid, now), old(conn.db), conn.db, error)
  {
    conn.Begin();
    if !FoundById(conn.db, r.archiveFileId) {
      var file := RestoredFile(r, newFid, now);
      if file.storageClass !in conn.db.storageClasses { return Some(StorageClassUnknown); }
      if r.archiveFileId in conn.db.archiveFiles || DiskFileTaken(conn.db.archiveFiles, file)
         || file.diskInstance !in conn.db.diskInstances { return Some(ArchiveFileConflict); }
      conn.db := conn.db.(archiveFiles := conn.db.archiveFiles[r.archiveFileId := file]);
    } else if HasLiveCopyNb(conn.db.tapeFiles, r.archiveFileId, r.copyNb) {
      return Some(CopyExists);
    }
    var inserted := InsertTapeFile(conn.db, r.position, RestoredCopy(r, now), now);
    if inserted.Err? {
      conn.Rollback();
      return Some(inserted.error);
    }
    conn.db := inserted.value;
    error := None;
  }

  /** Restores the one recycled copy that answers to the search; `interrupted` says that the connection goes after the
      commit inside `insertTapeFile`. */
  method RestoreFileInRecycleLog(conn: Connection, criteria: Criteria, newFid: string, now: nat, interrupted: bool)
    returns (error: Option<StepError>)
    modifies conn
    ensures !interrupted ==> Returns(Restore(old(conn.db), criteria, newFid, now), old(conn.db), conn.db, error)
    ensures interrupted ==> error.Some?
    ensures interrupted ==>
              var half := RestoreHalf(old(conn.db), criteria, newFid, now);
              conn.db == if half.Ok? then half.value else old(conn.db)
  {
    if criteria.vid.Some? && criteria.vid.value !in conn.db.tapes { return Some(TapeUnknown); }
    var rows := KeepRows(conn.db.recycleLog, (r: RecycledFile) => Matches(criteria, r));
    assert rows == Selected(conn.db.recycleLog, criteria);
    if |rows| == 0 { return Some(NothingMatches); }
    if |rows| > 1 { return Some(SeveralMatch); }
    var r :| r in rows;
    OneRow(rows, r);
    error := RestoreCopy(conn, r, newFid, now);
    if error.Some? { return; }
    if interrupted { return Some(ConnectionLost); }
    var kept := KeepRows(conn.db.recycleLog, (s: RecycledFile) => !SameRecycledCopy(r, s));
    conn.db := conn.db.(recycleLog := kept);
    assert conn.db.recycleLog == RestoreForget(RestoreInsert(old(conn.db), r, newFid, now).value, r).recycleLog;
  }

  lemma {:induction false} OneRow(rows: multiset<RecycledFile>, r: RecycledFile)
    requires |rows| == 1 && r in rows
    ensures r == TheRow(rows)
  {
    assert rows == multiset{r} + (rows - multiset{r});
    assert TheRow(rows) in rows;
  }

  method DeleteFilesFromRecycleLog(conn: Connection, vid: string)
    modifies conn`db
    ensures conn.db == Purge(old(conn.db), vid)
  {
    var kept := KeepRows(conn.db.recycleLog, (r: RecycledFile) => r.position.vid != vid);
    conn.db := conn.db.(recycleLog := kept);
    assert kept == Purge(old(conn.db), vid).recycleLog;
  }

  /** The purge and the reset of the counters commit one after the other; `interrupted` says that the connection goes in
      between. */
  method ReclaimTape(conn: Connection, vid: string, interrupted: bool) returns (error: Option<StepError>)
    modifies conn`db
    ensures !interrupted ==> Returns(Reclaim(old(conn.db), vid), old(conn.db), conn.db, error)
    ensures interrupted ==> error.Some?
    ensures interrupted ==>
              conn.db == if Reclaim(old(conn.db), vid).Ok? then Purge(old(conn.db), vid) else old(conn.db)
  {
    if vid !in conn.db.tapes { return Some(TapeUnknown); }
    if !conn.db.tapes[vid].full { return Some(TapeNotFull); }
    if exists p :: p in conn.db.tapeFiles && p.vid == vid { return Some(TapeNotEmpty); }
    DeleteFilesFromRecycleLog(conn, vid);
    if interrupted { return Some(ConnectionLost); }
    conn.db := ResetCounters(conn.db, vid);
    error := None;
  }
}
