/** What every run of life-cycle steps keeps true of the tables. */
module Consistency {
  import opened Tables
  import opened TapeWrite
  import opened WriteSpec
  import opened WriteTheorems

  // ----- the invariant -----

  /** TAPE_FILE and FILE_RECYCLE_LOG together hold at most one row per place on tape. */
  ghost predicate PlacesDistinct(db: Database) {
    forall p :: CopiesAt(db, p) <= 1
  }

  ghost predicate InRange(db: Database, p: Position) {
    p.vid in db.tapes && 1 <= p.fSeq <= db.tapes[p.vid].lastFSeq
  }

  ghost predicate PlacesInRange(db: Database) {
    && (forall p :: p in db.tapeFiles ==> InRange(db, p))
    && (forall r :: r in db.recycleLog ==> InRange(db, r.position))
  }

  ghost predicate SameCopy(s: TapeFile, t: TapeFile) {
    s.archiveFileId == t.archiveFileId && s.copyNb == t.copyNb
  }

  /** At most one live copy per archive file and copy number. */
  ghost predicate OneLiveCopy(db: Database) {
    forall p, q :: p in db.tapeFiles && q in db.tapeFiles && SameCopy(db.tapeFiles[p], db.tapeFiles[q]) ==> p == q
  }

  /** Every live copy has its archive file, of its own size. */
  ghost predicate LiveFilesExist(db: Database) {
    forall p :: p in db.tapeFiles ==>
                  && db.tapeFiles[p].archiveFileId in db.archiveFiles
                  && db.tapeFiles[p].size == db.archiveFiles[db.tapeFiles[p].archiveFileId].size
  }

  ghost predicate DiskFilesUnique(db: Database) {
    forall id, other :: id in db.archiveFiles && other in db.archiveFiles && id != other ==>
                          !SameDiskFile(db.archiveFiles[id], db.archiveFiles[other])
  }

  ghost predicate BlocksUnique(db: Database) {
    forall p, q :: p in db.tapeFiles && q in db.tapeFiles && p.vid == q.vid && p != q ==>
                     db.tapeFiles[p].blockId != db.tapeFiles[q].blockId
  }

  ghost predicate CopyNumbersSet(db: Database) {
    forall p :: p in db.tapeFiles ==> db.tapeFiles[p].copyNb > 0
  }

  ghost predicate Known(db: Database, file: ArchiveFile) {
    file.storageClass in db.storageClasses && file.diskInstance in db.diskInstances
  }

  ghost predicate ReferencesKnown(db: Database) {
    && (forall id :: id in db.archiveFiles ==> Known(db, db.archiveFiles[id]))
    && (forall r :: r in db.recycleLog ==> Known(db, r.file))
  }

  ghost predicate Consistent(db: Database) {
    && PlacesDistinct(db) && PlacesInRange(db) && OneLiveCopy(db) && LiveFilesExist(db)
    && DiskFilesUnique(db) && BlocksUnique(db) && CopyNumbersSet(db) && ReferencesKnown(db)
  }

  /** Not part of the invariant, but what makes every restore keep it: all recycled copies of a file agree on its size,
      with each other and with the file if it exists. */
  ghost predicate LogSizesAgree(db: Database) {
    && (forall r :: r in db.recycleLog && r.archiveFileId in db.archiveFiles ==>
                      r.file.size == db.archiveFiles[r.archiveFileId].size)
    && (forall r, s :: r in db.recycleLog && s in db.recycleLog && r.archiveFileId == s.archiveFileId ==>
                         r.file.size == s.file.size)
  }

  // ----- writing -----

  /** The caller may check this before writing: an identifier that comes back after its file was deleted has the same
      size. */
  ghost predicate NoSizeReuse(db: Database, items: seq<TapeItem>) {
    forall f, r :: f in FilesOf(items) && r in db.recycleLog && Reuses(db, f, r) ==> r.file.size == f.size
  }

  ghost predicate Reuses(db: Database, f: FileEvent, r: RecycledFile) {
    f.archiveFileId == r.archiveFileId && f.archiveFileId !in db.archiveFiles
  }

  lemma {:induction false} WriteKeepsPlaces(db: Database, items: seq<TapeItem>, now: nat)
    requires Accepts(db, items) && PlacesDistinct(db) && PlacesInRange(db)
    ensures PlacesDistinct(Written(db, items, now))
  {
    forall p ensures CopiesAt(Written(db, items, now), p) <= 1 {
      WriteConservesCopies(db, items, now, p);
      assert CopiesAt(db, p) <= 1;
      if TakesPlace(FilesOf(items), p) {
        var f :| f in FilesOf(items) && f.Pos() == p;
        var vid := items[0].Vid();
        FilesInSequence(vid, db.tapes[vid].lastFSeq, items);
        assert PlaceFree(db, f) && !InRange(db, p);
        LogAtNone(db.recycleLog, p);
      }
    }
  }

  lemma {:induction false} RecycledByWrite(db: Database, items: seq<TapeItem>, now: nat, r: RecycledFile)
    requires Accepts(db, items) && r in Written(db, items, now).recycleLog
    ensures r in db.recycleLog ||
            (&& r.position in db.tapeFiles && r.archiveFileId == db.tapeFiles[r.position].archiveFileId
             && r.archiveFileId in Written(db, items, now).archiveFiles
             && r.file == Written(db, items, now).archiveFiles[r.archiveFileId])
  {
    RecycledRowsAreHolders(db, items, now, r);
  }

  lemma {:induction false} WriteKeepsRange(db: Database, items: seq<TapeItem>, now: nat)
    requires Accepts(db, items) && PlacesInRange(db)
    ensures PlacesInRange(Written(db, items, now))
  {
    if items != [] {
      var after, vid := Written(db, items, now), items[0].Vid();
      CountersAfterWrite(db, items, now);
      FilesInSequence(vid, db.tapes[vid].lastFSeq, items);
      assert forall p :: InRange(db, p) ==> InRange(after, p);
      LiveCopiesAfterWrite(db, items, now);
      forall p | p in after.tapeFiles ensures InRange(after, p) {
        if p !in db.tapeFiles { var f :| f in FilesOf(items) && f.Pos() == p; }
      }
      forall r | r in after.recycleLog ensures InRange(after, r.position) {
        RecycledByWrite(db, items, now, r);
      }
    }
  }

  lemma {:induction false} WriteKeepsOneLiveCopy(db: Database, items: seq<TapeItem>, now: nat)
    requires Accepts(db, items) && OneLiveCopy(db)
    ensures OneLiveCopy(Written(db, items, now))
  {
    var after, files := Written(db, items, now), FilesOf(items);
    LiveCopiesAfterWrite(db, items, now);
    forall p, q | p in after.tapeFiles && q in after.tapeFiles && SameCopy(after.tapeFiles[p], after.tapeFiles[q])
      ensures p == q
    {
      if TakesPlace(files, p) && TakesPlace(files, q) {
        var f :| f in files && f.Pos() == p;
        var g :| g in files && g.Pos() == q;
        assert items != [];
        DistinctIdsUnique(files, f, g);
      }
    }
  }

  lemma {:induction false} RowAfterWrite(db: Database, items: seq<TapeItem>, now: nat, id: uint64)
    requires Accepts(db, items)
    ensures var rows := Written(db, items, now).archiveFiles;
            && (id in db.archiveFiles ==> id in rows && rows[id] == db.archiveFiles[id])
            && (id in rows && id !in db.archiveFiles ==>
                  exists f :: f in FilesOf(items) && f.archiveFileId == id && rows[id] == ArchiveFileOf(f, now))
  {
    if items != [] { RegisterAt(db.archiveFiles, FilesOf(items), now, id); }
  }

  lemma {:induction false} FileAfterWrite(db: Database, items: seq<TapeItem>, now: nat, f: FileEvent)
    requires Accepts(db, items) && f in FilesOf(items)
    ensures var rows := Written(db, items, now).archiveFiles;
            && f.archiveFileId in rows && rows[f.archiveFileId].size == f.size
            && (f.archiveFileId !in db.archiveFiles ==> rows[f.archiveFileId] == ArchiveFileOf(f, now))
  {
    assert items != [] && FileAcceptable(db, f);
    RegisterAt(db.archiveFiles, FilesOf(items), now, f.archiveFileId);
    if f.archiveFileId !in db.archiveFiles {
      var g :| g in FilesOf(items) && g.archiveFileId == f.archiveFileId
               && Written(db, items, now).archiveFiles[f.archiveFileId] == ArchiveFileOf(g, now);
      DistinctIdsUnique(FilesOf(items), f, g);
    }
  }

  lemma {:induction false} WriteKeepsLiveFiles(db: Database, items: seq<TapeItem>, now: nat)
    requires Accepts(db, items) && LiveFilesExist(db)
    ensures LiveFilesExist(Written(db, items, now))
  {
    var after := Written(db, items, now);
    LiveCopiesAfterWrite(db, items, now);
    forall p | p in after.tapeFiles
      ensures after.tapeFiles[p].archiveFileId in after.archiveFiles
      ensures after.tapeFiles[p].size == after.archiveFiles[after.tapeFiles[p].archiveFileId].size
    {
      RowAfterWrite(db, items, now, after.tapeFiles[p].archiveFileId);
      if p !in db.tapeFiles {
        var f :| f in FilesOf(items) && f.Pos() == p;
        FileAfterWrite(db, items, now, f);
      }
    }
  }

  lemma {:induction false} WriteKeepsLogSizes(db: Database, items: seq<TapeItem>, now: nat)
    requires Accepts(db, items) && LiveFilesExist(db) && LogSizesAgree(db) && NoSizeReuse(db, items)
    ensures LogSizesAgree(Written(db, items, now))
  {
    var after := Written(db, items, now);
    forall r | r in after.recycleLog && r.archiveFileId in after.archiveFiles
      ensures r.file.size == after.archiveFiles[r.archiveFileId].size
    {
      RecycledByWrite(db, items, now, r);
      RowAfterWrite(db, items, now, r.archiveFileId);
      if r in db.recycleLog && r.archiveFileId !in db.archiveFiles {
        var f :| f in FilesOf(items) && f.archiveFileId == r.archiveFileId
                 && after.archiveFiles[r.archiveFileId] == ArchiveFileOf(f, now);
        assert Reuses(db, f, r);
      }
    }
    forall r, s | r in after.recycleLog && s in after.recycleLog && r.archiveFileId == s.archiveFileId
      ensures r.file.size == s.file.size
    {
      RecycledByWrite(db, items, now, r);
      RecycledByWrite(db, items, now, s);
      RowAfterWrite(db, items, now, r.archiveFileId);
    }
  }

  lemma {:induction false} SizeReuseSpoilsLog(db: Database, items: seq<TapeItem>, now: nat)
    requires Accepts(db, items) && !NoSizeReuse(db, items)
    ensures !LogSizesAgree(Written(db, items, now))
  {
    var f, r :| f in FilesOf(items) && r in db.recycleLog && Reuses(db, f, r) && r.file.size != f.size;
    FileAfterWrite(db, items, now, f);
    RecycledRowsAreHolders(db, items, now, r);
    assert r in Written(db, items, now).recycleLog;
  }

  lemma {:induction false} WriteKeepsSchema(db: Database, items: seq<TapeItem>, now: nat)
    requires Accepts(db, items) && DiskFilesUnique(db) && BlocksUnique(db) && ReferencesKnown(db)
    ensures DiskFilesUnique(Written(db, items, now)) && BlocksUnique(Written(db, items, now))
  {
    if items != [] {
      var after, files := Written(db, items, now), FilesOf(items);
      RegisterPassesDeferredCheck(db, files, now);
      forall id, other | id in after.archiveFiles && other in after.archiveFiles && id != other
        ensures !SameDiskFile(after.archiveFiles[id], after.archiveFiles[other])
      {
        RowAfterWrite(db, items, now, id);
        RowAfterWrite(db, items, now, other);
      }
      LiveCopiesAfterWrite(db, items, now);
      var vid := items[0].Vid();
      FilesInSequence(vid, db.tapes[vid].lastFSeq, items);
      forall p, q | p in after.tapeFiles && q in after.tapeFiles && p.vid == q.vid && p != q
        ensures after.tapeFiles[p].blockId != after.tapeFiles[q].blockId
      {
        BlocksDiffer(db, items, now, p, q);
      }
    }
  }

  lemma {:induction false} BlocksOfBatchDiffer(files: seq<FileEvent>, f: FileEvent, g: FileEvent)
    requires DistinctPlaces(files) && f in files && g in files && f.vid == g.vid && f.Pos() != g.Pos()
    ensures f.blockId != g.blockId
  {
    var i :| 0 <= i < |files| && files[i] == f;
    var j :| 0 <= j < |files| && files[j] == g;
    assert i < j || j < i;
  }

  lemma {:induction false} BlocksDiffer(db: Database, items: seq<TapeItem>, now: nat, p: Position, q: Position)
    requires Accepts(db, items) && items != [] && BlocksUnique(db)
    requires var live := Written(db, items, now).tapeFiles; p in live && q in live && p.vid == q.vid && p != q
    ensures Written(db, items, now).tapeFiles[p].blockId != Written(db, items, now).tapeFiles[q].blockId
  {
    var files := FilesOf(items);
    LiveCopiesAfterWrite(db, items, now);
    LiveAt(db, items, now, p);
    LiveAt(db, items, now, q);
    if TakesPlace(files, p) {
      var f :| f in files && f.Pos() == p;
      assert PlaceFree(db, f);
      if TakesPlace(files, q) {
        var g :| g in files && g.Pos() == q;
        BlocksOfBatchDiffer(files, f, g);
      }
    } else if TakesPlace(files, q) {
      var g :| g in files && g.Pos() == q;
      assert PlaceFree(db, g);
    }
  }

  lemma {:induction false} WriteKeepsCopyNumbers(db: Database, items: seq<TapeItem>, now: nat)
    requires Accepts(db, items) && CopyNumbersSet(db)
    ensures CopyNumbersSet(Written(db, items, now))
  {
    var after := Written(db, items, now);
    LiveCopiesAfterWrite(db, items, now);
    forall p | p in after.tapeFiles ensures after.tapeFiles[p].copyNb > 0 {
      if p !in db.tapeFiles {
        var f :| f in FilesOf(items) && f.Pos() == p;
        FilesInSequence(items[0].Vid(), db.tapes[items[0].Vid()].lastFSeq, items);
      }
    }
  }

  lemma {:induction false} WriteKeepsReferences(db: Database, items: seq<TapeItem>, now: nat)
    requires Accepts(db, items) && ReferencesKnown(db) && LiveFilesExist(db)
    ensures ReferencesKnown(Written(db, items, now))
  {
    var after := Written(db, items, now);
    forall id | id in after.archiveFiles ensures Known(after, after.archiveFiles[id]) {
      RowAfterWrite(db, items, now, id);
      if id !in db.archiveFiles {
        var f :| f in FilesOf(items) && f.archiveFileId == id && after.archiveFiles[id] == ArchiveFileOf(f, now);
        assert items != [] && FileAcceptable(db, f);
      }
    }
    forall r | r in after.recycleLog ensures Known(after, r.file) {
      RecycledByWrite(db, items, now, r);
    }
  }

  /** Every committed batch keeps the tables consistent. */
  lemma {:induction false} WriteKeepsConsistency(db: Database, items: seq<TapeItem>, now: nat)
    requires Accepts(db, items) && Consistent(db)
    ensures Consistent(Written(db, items, now))
  {
    WriteKeepsPlaces(db, items, now);
    WriteKeepsRange(db, items, now);
    WriteKeepsOneLiveCopy(db, items, now);
    WriteKeepsLiveFiles(db, items, now);
    WriteKeepsSchema(db, items, now);
    WriteKeepsCopyNumbers(db, items, now);
    WriteKeepsReferences(db, items, now);
  }

  /** The recycled sizes go on agreeing if and only if no identifier is reused for a file of another size. */
  lemma {:induction false} WriteKeepsLogSizesIff(db: Database, items: seq<TapeItem>, now: nat)
    requires Accepts(db, items) && LiveFilesExist(db) && LogSizesAgree(db)
    ensures LogSizesAgree(Written(db, items, now)) <==> NoSizeReuse(db, items)
  {
    if NoSizeReuse(db, items) { WriteKeepsLogSizes(db, items, now); } else { SizeReuseSpoilsLog(db, items, now); }
  }
}
