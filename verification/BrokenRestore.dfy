/** After a restore that was broken off between its two commits: when the copy can be restored again. */
module BrokenRestore {
  import opened Tables
  import opened TapeWrite
  import opened WriteTheorems
  import opened LifeCycle
  import opened Consistency
  import opened Steps
  import opened RoundTrip

  /** The restore of `r` committed its first half only. */
  ghost predicate BrokenOff(db: Database, r: RecycledFile, newFid: string, now: nat, mid: Database) {
    Consistent(db) && r in db.recycleLog && RestoreInsert(db, r, newFid, now) == Ok(mid)
  }

  /** While a copy with its number is live, straight after the interruption or later, every restore of a row is
      refused. */
  lemma {:induction false} RefusedWhileLive(db: Database, c: Criteria, r: RecycledFile, newFid: string, now: nat)
    requires Find(db, c) == Ok(r) && r.archiveFileId in db.archiveFiles
    requires HasLiveCopyNb(db.tapeFiles, r.archiveFileId, r.copyNb)
    ensures Restore(db, c, newFid, now) == Err(CopyExists)
  {
    var p :| LiveCopyOf(db, r.archiveFileId, p) && db.tapeFiles[p].copyNb == r.copyNb;
    assert FoundById(db, r.archiveFileId);
  }

  lemma {:induction false} RefusedStraightAfter(db: Database, r: RecycledFile, newFid: string, now: nat, mid: Database,
                                                c: Criteria, fid2: string, now2: nat)
    requires BrokenOff(db, r, newFid, now, mid) && Find(mid, c) == Ok(r)
    ensures Restore(mid, c, fid2, now2) == Err(CopyExists)
  {
    RestoreInsertEffect(db, r, newFid, now);
    assert mid.tapeFiles[r.position] == RestoredCopy(r, now);
    RefusedWhileLive(mid, c, r, fid2, now2);
  }

  /** The file is then deleted again by a caller who sees it as it is. */
  ghost predicate DeletedAgain(mid: Database, request: DeleteRequest, now: nat, later: Database) {
    SeenAsIs(mid, request) && MoveToRecycleLog(mid, request, now) == Ok(later)
  }

  ghost predicate OnlyMatch(db: Database, r: RecycledFile) {
    forall s :: s in db.recycleLog && Matches(SearchFor(r), s) ==> s == r
  }

  lemma {:induction false} LogAfterDeletion(mid: Database, request: DeleteRequest, now: nat, later: Database)
    requires DeletedAgain(mid, request, now, later)
    ensures later.recycleLog == mid.recycleLog + RowsOf(mid, request, now, request.seen.value.copies)
    ensures later.archiveFiles == mid.archiveFiles - {request.archiveFileId}
    ensures later.tapes.Keys == mid.tapes.Keys
    ensures later.storageClasses == mid.storageClasses && later.diskInstances == mid.diskInstances
    ensures forall q :: q in later.tapeFiles ==>
                          && q in mid.tapeFiles && later.tapeFiles[q] == mid.tapeFiles[q]
                          && mid.tapeFiles[q].archiveFileId != request.archiveFileId
  {
    SetDirtyKeepsTapes(mid, request.archiveFileId);
  }

  /** The deletion logs a copy of the file that is live at `p`, with the columns it has. */
  lemma {:induction false} NewRowAt(mid: Database, request: DeleteRequest, now: nat, p: Position)
    returns (n: RecycledFile)
    requires SeenAsIs(mid, request) && LiveCopyOf(mid, request.archiveFileId, p)
    ensures n in RowsOf(mid, request, now, request.seen.value.copies) && n.position == p
    ensures n.archiveFileId == request.archiveFileId && n.file == mid.archiveFiles[request.archiveFileId]
    ensures n.copyNb == mid.tapeFiles[p].copyNb
  {
    var copies := request.seen.value.copies;
    assert Sees(copies, p);
    var i :| 0 <= i < |copies| && copies[i].position == p;
    n := RowOf(mid, request, now, copies[i]);
    RowsOfCount(mid, request, now, copies, n);
    assert CopyOf(n) == copies[i] && copies[i] in multiset(copies);
  }

  lemma {:induction false} NewRowsAre(mid: Database, request: DeleteRequest, now: nat, n: RecycledFile)
    requires SeenAsIs(mid, request) && n in RowsOf(mid, request, now, request.seen.value.copies)
    ensures n.archiveFileId == request.archiveFileId && n.file == mid.archiveFiles[request.archiveFileId]
    ensures n.position in mid.tapeFiles && n.copyNb == mid.tapeFiles[n.position].copyNb
  {
    RowsOfCount(mid, request, now, request.seen.value.copies, n);
    assert CopyOf(n) in multiset(request.seen.value.copies);
    assert CopyOf(n) in request.seen.value.copies;
  }

  /** After the deletion the old row is found again exactly when no older row answers to the search and the file that
      was deleted is another disk file than the one in the row; otherwise several rows answer. */
  lemma {:induction false} SearchAfterDeletion(db: Database, r: RecycledFile, newFid: string, now: nat, mid: Database,
                                               request: DeleteRequest, now2: nat, later: Database)
    requires BrokenOff(db, r, newFid, now, mid) && request.archiveFileId == r.archiveFileId
    requires DeletedAgain(mid, request, now2, later)
    ensures Find(later, SearchFor(r)) ==
            if OnlyMatch(db, r) && !SameDiskFile(mid.archiveFiles[r.archiveFileId], r.file) then Ok(r)
            else Err(SeveralMatch)
  {
    LogAfterDeletion(mid, request, now2, later);
    AfterBreak(db, r, newFid, now, mid);
    SearchAmong(db, r, mid, request, now2, later);
  }

  lemma {:induction false} AfterBreak(db: Database, r: RecycledFile, newFid: string, now: nat, mid: Database)
    requires BrokenOff(db, r, newFid, now, mid)
    ensures mid.recycleLog == db.recycleLog && db.recycleLog[r] == 1 && r.position.vid in mid.tapes
    ensures LiveCopyOf(mid, r.archiveFileId, r.position) && mid.tapeFiles[r.position].copyNb == r.copyNb
  {
    RestoreInsertEffect(db, r, newFid, now);
    OnlyRowAtPlace(db, r);
    assert InRange(db, r.position);
  }

  lemma {:induction false} SearchAmong(db: Database, r: RecycledFile, mid: Database, request: DeleteRequest, now: nat,
                                       later: Database)
    requires db.recycleLog[r] == 1 && r.position.vid in later.tapes && SeenAsIs(mid, request)
    requires request.archiveFileId == r.archiveFileId
    requires LiveCopyOf(mid, r.archiveFileId, r.position) && mid.tapeFiles[r.position].copyNb == r.copyNb
    requires later.recycleLog == db.recycleLog + RowsOf(mid, request, now, request.seen.value.copies)
    ensures Find(later, SearchFor(r)) ==
            if OnlyMatch(db, r) && !SameDiskFile(mid.archiveFiles[r.archiveFileId], r.file) then Ok(r)
            else Err(SeveralMatch)
  {
    var rows, log := RowsOf(mid, request, now, request.seen.value.copies), later.recycleLog;
    assert Matches(SearchFor(r), r);
    if !OnlyMatch(db, r) {
      var o :| o in db.recycleLog && Matches(SearchFor(r), o) && o != r;
      TwoSelected(log, SearchFor(r), o, r);
    } else if SameDiskFile(mid.archiveFiles[r.archiveFileId], r.file) {
      var n := NewRowAt(mid, request, now, r.position);
      TwoRowsSelected(db.recycleLog, rows, SearchFor(r), r, n);
    } else {
      forall n | n in rows ensures !Matches(SearchFor(r), n) { NewRowsAre(mid, request, now, n); }
      assert Selected(log, SearchFor(r)) == multiset{r};
      assert TheRow(multiset{r}) in multiset{r};
    }
  }

  lemma {:induction false} TwoRowsSelected(a: multiset<RecycledFile>, b: multiset<RecycledFile>, c: Criteria,
                                           r: RecycledFile, n: RecycledFile)
    requires r in a && n in b && Matches(c, r) && Matches(c, n)
    ensures |Selected(a + b, c)| >= 2
  {
    var all := Selected(a + b, c);
    assert multiset{r, n} <= all;
    assert all == (all - multiset{r, n}) + multiset{r, n};
  }

  /** Then the restore succeeds exactly when the new disk file identifier is free. It puts the copy right, with both
      rows gone, if and only if the file that was deleted belonged to the disk instance of the row; otherwise the new
      row stays behind, because the rows to delete are matched by disk instance too. */
  lemma {:induction false} RestoreAfterDeletion(db: Database, r: RecycledFile, newFid: string, now: nat, mid: Database,
                                                request: DeleteRequest, now2: nat, later: Database, fid: string,
                                                now3: nat)
    requires BrokenOff(db, r, newFid, now, mid) && request.archiveFileId == r.archiveFileId
    requires DeletedAgain(mid, request, now2, later)
    requires OnlyMatch(db, r) && !SameDiskFile(mid.archiveFiles[r.archiveFileId], r.file)
    ensures var res := Restore(later, SearchFor(r), fid, now3);
            && (res.Ok? <==> !DiskFileTaken(later.archiveFiles, RestoredFile(r, fid, now3)))
            && (res.Ok? ==> (CopiesAt(res.value, r.position) == 1 <==>
                             mid.archiveFiles[r.archiveFileId].diskInstance == r.file.diskInstance))
  {
    SearchAfterDeletion(db, r, newFid, now, mid, request, now2, later);
    LogAfterDeletion(mid, request, now2, later);
    RowFitsAgain(db, r, newFid, now, mid, request, now2, later, fid, now3);
    RowsForgottenIff(db, r, newFid, now, mid, request, now2, later);
  }

  lemma {:induction false} RowFitsAgain(db: Database, r: RecycledFile, newFid: string, now: nat, mid: Database,
                                        request: DeleteRequest, now2: nat, later: Database, fid: string, now3: nat)
    requires BrokenOff(db, r, newFid, now, mid) && request.archiveFileId == r.archiveFileId
    requires DeletedAgain(mid, request, now2, later)
    ensures var res := RestoreRow(later, r, fid, now3);
            && (res.Ok? <==> !DiskFileTaken(later.archiveFiles, RestoredFile(r, fid, now3)))
            && (res.Ok? ==> r.position in res.value.tapeFiles)
            && (res.Ok? ==> res.value.recycleLog == RestoreForget(later, r).recycleLog)
  {
    LogAfterDeletion(mid, request, now2, later);
    PlaceIsFreeAgain(db, r, newFid, now, mid, request, now2, later);
    assert !FoundById(later, r.archiveFileId);
    if !DiskFileTaken(later.archiveFiles, RestoredFile(r, fid, now3)) {
      var files := later.archiveFiles[r.archiveFileId := RestoredFile(r, fid, now3)];
      InsertIntoFree(later.(archiveFiles := files), r.position, RestoredCopy(r, now3), now3);
    }
  }

  lemma {:induction false} PlaceIsFreeAgain(db: Database, r: RecycledFile, newFid: string, now: nat, mid: Database,
                                            request: DeleteRequest, now2: nat, later: Database)
    requires BrokenOff(db, r, newFid, now, mid) && request.archiveFileId == r.archiveFileId
    requires DeletedAgain(mid, request, now2, later)
    ensures r.position !in later.tapeFiles && r.position.vid in later.tapes && r.copyNb > 0
    ensures r.file.storageClass in later.storageClasses && r.file.diskInstance in later.diskInstances
    ensures forall q :: q in later.tapeFiles ==> later.tapeFiles[q].archiveFileId != r.archiveFileId
    ensures forall q :: q in later.tapeFiles && q.vid == r.position.vid ==> later.tapeFiles[q].blockId != r.blockId
  {
    LogAfterDeletion(mid, request, now2, later);
    RestoreInsertEffect(db, r, newFid, now);
    assert Known(db, r.file) && InRange(db, r.position);
    assert mid.tapeFiles[r.position] == RestoredCopy(r, now);
  }

  lemma {:induction false} InsertIntoFree(db: Database, p: Position, t: TapeFile, now: nat)
    requires p !in db.tapeFiles && p.vid in db.tapes && t.archiveFileId in db.archiveFiles && t.copyNb > 0
    requires forall q :: q in db.tapeFiles && q.vid == p.vid ==> db.tapeFiles[q].blockId != t.blockId
    requires forall q :: q in db.tapeFiles ==> db.tapeFiles[q].archiveFileId != t.archiveFileId
    ensures var res := InsertTapeFile(db, p, t, now);
            res.Ok? && p in res.value.tapeFiles && res.value.recycleLog == db.recycleLog
  {
    var olds := set q | q in db.tapeFiles && q != p && db.tapeFiles[q].archiveFileId == t.archiveFileId
                        && db.tapeFiles[q].copyNb == t.copyNb;
    assert olds == {};
    assert RepackRows(db.tapeFiles, db.archiveFiles, olds, now) == {};
    assert db.recycleLog + multiset{} == db.recycleLog;
  }

  lemma {:induction false} RowsForgottenIff(db: Database, r: RecycledFile, newFid: string, now: nat, mid: Database,
                                            request: DeleteRequest, now2: nat, later: Database)
    requires BrokenOff(db, r, newFid, now, mid) && request.archiveFileId == r.archiveFileId
    requires DeletedAgain(mid, request, now2, later)
    ensures |LogAt(RestoreForget(later, r).recycleLog, r.position)| == 0 <==>
            mid.archiveFiles[r.archiveFileId].diskInstance == r.file.diskInstance
  {
    LogAfterDeletion(mid, request, now2, later);
    AfterBreak(db, r, newFid, now, mid);
    if mid.archiveFiles[r.archiveFileId].diskInstance == r.file.diskInstance {
      OnlyRowAtPlace(db, r);
      RowsForgotten(db.recycleLog, r, mid, request, now2, later);
    } else {
      NewRowStays(r, mid, request, now2, later);
    }
  }

  lemma {:induction false} RowsForgotten(log: multiset<RecycledFile>, r: RecycledFile, mid: Database,
                                         request: DeleteRequest, now: nat, later: Database)
    requires SeenAsIs(mid, request) && request.archiveFileId == r.archiveFileId
    requires later.recycleLog == log + RowsOf(mid, request, now, request.seen.value.copies)
    requires forall s :: s in log && s.position == r.position ==> s == r
    requires r.position in mid.tapeFiles && mid.tapeFiles[r.position].copyNb == r.copyNb
    requires mid.archiveFiles[r.archiveFileId].diskInstance == r.file.diskInstance
    ensures LogAt(RestoreForget(later, r).recycleLog, r.position) == multiset{}
  {
    forall s | s in later.recycleLog && s.position == r.position ensures SameRecycledCopy(r, s) {
      if s !in log { NewRowsAre(mid, request, now, s); }
    }
    LogAtNone(RestoreForget(later, r).recycleLog, r.position);
  }

  lemma {:induction false} NewRowStays(r: RecycledFile, mid: Database, request: DeleteRequest, now: nat,
                                       later: Database)
    requires SeenAsIs(mid, request) && request.archiveFileId == r.archiveFileId
    requires later.recycleLog == mid.recycleLog + RowsOf(mid, request, now, request.seen.value.copies)
    requires LiveCopyOf(mid, r.archiveFileId, r.position)
    requires mid.archiveFiles[r.archiveFileId].diskInstance != r.file.diskInstance
    ensures |LogAt(RestoreForget(later, r).recycleLog, r.position)| > 0
  {
    var n := NewRowAt(mid, request, now, r.position);
    assert n in LogAt(RestoreForget(later, r).recycleLog, r.position);
  }

  /** A consistent database in which the new row would stay behind: the identifier 7 now belongs to a file of another
      disk instance than the one whose copy was recycled. */
  lemma {:induction false} OtherInstanceRowStays(tape: Tape, a: ArchiveFile, b: ArchiveFile, newFid: string, now: nat)
    returns (db: Database, r: RecycledFile, mid: Database)
    requires tape.lastFSeq == 2 && a.diskInstance != b.diskInstance
    ensures BrokenOff(db, r, newFid, now, mid) && OnlyMatch(db, r) && r.archiveFileId in mid.archiveFiles
    ensures !SameDiskFile(mid.archiveFiles[r.archiveFileId], r.file)
    ensures mid.archiveFiles[r.archiveFileId].diskInstance != r.file.diskInstance
  {
    var p, q := Position("V00001", 1), Position("V00001", 2);
    r := RecycledFile(p, 0, 1, 0, 7, a, None, "", 0);
    db := Database(map["V00001" := tape], map[7 := b], map[q := TapeFile(1, b.size, 2, 0, 7)], multiset{r},
                   {a.storageClass, b.storageClass}, {a.diskInstance, b.diskInstance});
    forall at ensures CopiesAt(db, at) <= 1 { LogAtSingle(r, at); }
    assert Consistent(db);
    assert LiveCopyOf(db, 7, q) && FoundById(db, 7);
    mid := RestoreInsert(db, r, newFid, now).value;
    RestoreInsertEffect(db, r, newFid, now);
  }
}
