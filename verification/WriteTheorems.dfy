/** Consequences of the reference description: conservation, counters, resubmission, error reporting. */
module WriteTheorems {
  import opened Tables
  import opened TapeWrite
  import opened WriteSpec

  // ----- counting copies -----

  /** Recycle log rows for the place `p`. */
  ghost function LogAt(log: multiset<RecycledFile>, p: Position): multiset<RecycledFile> {
    Where(log, (r: RecycledFile) => r.position == p)
  }

  /** How many rows of TAPE_FILE and FILE_RECYCLE_LOG together describe the place `p`. */
  ghost function CopiesAt(db: Database, p: Position): nat {
    (if p in db.tapeFiles then 1 else 0) + |LogAt(db.recycleLog, p)|
  }

  lemma {:induction false} LogAtUnion(a: multiset<RecycledFile>, b: multiset<RecycledFile>, p: Position)
    ensures LogAt(a + b, p) == LogAt(a, p) + LogAt(b, p)
  {
  }

  lemma {:induction false} LogAtNone(log: multiset<RecycledFile>, p: Position)
    requires forall r :: r in log ==> r.position != p
    ensures LogAt(log, p) == multiset{}
  {
  }

  lemma {:induction false} LogAtOne(rows: set<RecycledFile>, r: RecycledFile)
    requires r in rows && forall s :: s in rows && s.position == r.position ==> s == r
    ensures LogAt(multiset(rows), r.position) == multiset{r}
  {
  }

  // ----- TAPE_FILE after a batch -----

  ghost predicate TakesPlace(files: seq<FileEvent>, p: Position) {
    exists f :: f in files && f.Pos() == p
  }

  ghost predicate SamePlaceSameFile(files: seq<FileEvent>) {
    forall f, g :: f in files && g in files && f.Pos() == g.Pos() ==> f == g
  }

  lemma {:induction false} DistinctPlacesSameFile(files: seq<FileEvent>)
    requires DistinctPlaces(files)
    ensures SamePlaceSameFile(files)
  {
    forall f, g | f in files && g in files && f.Pos() == g.Pos() ensures f == g {
      var i :| 0 <= i < |files| && files[i] == f;
      var j :| 0 <= j < |files| && files[j] == g;
      assert i == j;
    }
  }

  lemma {:induction false} AddedAt(tapeFiles: map<Position, TapeFile>, files: seq<FileEvent>, now: nat, p: Position)
    ensures var added := AddTapeFiles(tapeFiles, files, now);
            && (p in added <==> p in tapeFiles || TakesPlace(files, p))
            && (p in tapeFiles && !TakesPlace(files, p) ==> added[p] == tapeFiles[p])
            && (TakesPlace(files, p) ==> exists f :: f in files && f.Pos() == p && added[p] == TapeFileOf(f, now))
  {
    if files != [] {
      var front, last := files[..|files| - 1], files[|files| - 1];
      AddedAt(tapeFiles, front, now, p);
      assert files == front + [last];
      assert last in files;
      assert TakesPlace(files, p) <==> TakesPlace(front, p) || last.Pos() == p by {
        if TakesPlace(front, p) {
          var f :| f in front && f.Pos() == p;
          assert f in files;
        }
      }
      if TakesPlace(front, p) && last.Pos() != p {
        var f :| f in front && f.Pos() == p && AddTapeFiles(tapeFiles, front, now)[p] == TapeFileOf(f, now);
        assert f in files;
      }
    }
  }

  lemma {:induction false} AddedRow(tapeFiles: map<Position, TapeFile>, files: seq<FileEvent>, now: nat, f: FileEvent)
    requires SamePlaceSameFile(files) && f in files
    ensures var added := AddTapeFiles(tapeFiles, files, now); f.Pos() in added && added[f.Pos()] == TapeFileOf(f, now)
  {
    AddedAt(tapeFiles, files, now, f.Pos());
    assert TakesPlace(files, f.Pos());
  }

  ghost predicate HasSuccessor(files: seq<FileEvent>, t: TapeFile) {
    exists f :: f in files && f.archiveFileId == t.archiveFileId && f.copyNb == t.copyNb
  }

  /** Places taken by the batch were free, so the copies it supersedes are the holders of its (file, copy number)
      pairs. */
  lemma {:induction false} OldCopiesAreHolders(db: Database, files: seq<FileEvent>, p: Position)
    requires forall f :: f in files ==> PlaceFree(db, f)
    ensures p in OldCopies(db.tapeFiles, files) <==> p in db.tapeFiles && HasSuccessor(files, db.tapeFiles[p])
  {
    if p in db.tapeFiles && HasSuccessor(files, db.tapeFiles[p]) {
      var f :| f in files && f.archiveFileId == db.tapeFiles[p].archiveFileId && f.copyNb == db.tapeFiles[p].copyNb;
      assert Supersedes(f, p, db.tapeFiles[p]);
    }
  }

  lemma {:induction false} LiveAt(db: Database, items: seq<TapeItem>, now: nat, p: Position)
    requires Accepts(db, items)
    ensures var files := FilesOf(items); var live := Written(db, items, now).tapeFiles;
            && (p in live <==> TakesPlace(files, p) || (p in db.tapeFiles && !HasSuccessor(files, db.tapeFiles[p])))
            && (p in db.tapeFiles ==> !TakesPlace(files, p))
            && (p in db.tapeFiles && p in live ==> live[p] == db.tapeFiles[p])
  {
    if items == [] {
      assert forall t :: !HasSuccessor([], t);
    } else {
      var files := FilesOf(items);
      AddedAt(db.tapeFiles, files, now, p);
      OldCopiesAreHolders(db, files, p);
      if TakesPlace(files, p) {
        var f :| f in files && f.Pos() == p;
        assert PlaceFree(db, f);
      }
    }
  }

  /** TAPE_FILE after a committed batch: all its files are live, exactly the previous holders are gone, every other copy
      is untouched. Inserting before deleting never removes a new row. */
  lemma {:induction false} LiveCopiesAfterWrite(db: Database, items: seq<TapeItem>, now: nat)
    requires Accepts(db, items)
    ensures var files := FilesOf(items); var live := Written(db, items, now).tapeFiles;
            && (forall f :: f in files ==> f.Pos() in live && live[f.Pos()] == TapeFileOf(f, now))
            && (forall p :: p in db.tapeFiles ==> (p in live <==> !HasSuccessor(files, db.tapeFiles[p])))
            && (forall p :: p in db.tapeFiles && p in live ==> live[p] == db.tapeFiles[p])
            && (forall p :: p in live ==> p in db.tapeFiles || TakesPlace(files, p))
  {
    var files, live := FilesOf(items), Written(db, items, now).tapeFiles;
    forall p | p in db.tapeFiles
      ensures p in live <==> !HasSuccessor(files, db.tapeFiles[p])
      ensures p in live ==> live[p] == db.tapeFiles[p]
    {
      LiveAt(db, items, now, p);
    }
    forall p | p in live ensures p in db.tapeFiles || TakesPlace(files, p) {
      LiveAt(db, items, now, p);
    }
    if items != [] {
      DistinctPlacesSameFile(files);
      forall f | f in files ensures f.Pos() in live && live[f.Pos()] == TapeFileOf(f, now) {
        AddedRow(db.tapeFiles, files, now, f);
        assert PlaceFree(db, f);
      }
    }
  }

  lemma {:induction false} RepackRowsAt(db: Database, archiveFiles: map<uint64, ArchiveFile>, olds: set<Position>,
                                        now: nat, p: Position)
    requires forall q :: q in olds ==> q in db.tapeFiles && db.tapeFiles[q].archiveFileId in archiveFiles
    ensures |LogAt(multiset(RepackRows(db.tapeFiles, archiveFiles, olds, now)), p)| == if p in olds then 1 else 0
  {
    var rows := RepackRows(db.tapeFiles, archiveFiles, olds, now);
    if p in olds {
      LogAtOne(rows, RepackRow(db.tapeFiles, archiveFiles, p, now));
    } else {
      LogAtNone(multiset(rows), p);
    }
  }

  lemma {:induction false} SupersededFilesAreRegistered(db: Database, items: seq<TapeItem>, now: nat)
    requires Accepts(db, items)
    ensures var files := FilesOf(items);
            forall p :: p in OldCopies(db.tapeFiles, files) ==>
                          p in db.tapeFiles && db.tapeFiles[p].archiveFileId in Register(db.archiveFiles, files, now)
  {
    var files := FilesOf(items);
    forall p | p in OldCopies(db.tapeFiles, files)
      ensures db.tapeFiles[p].archiveFileId in Register(db.archiveFiles, files, now)
    {
      RegisterAt(db.archiveFiles, files, now, db.tapeFiles[p].archiveFileId);
    }
  }

  /** Conservation: counting live and recycled rows together, a committed batch adds its own files, once each, and
      nothing else comes or goes. */
  lemma {:induction false} WriteConservesCopies(db: Database, items: seq<TapeItem>, now: nat, p: Position)
    requires Accepts(db, items)
    ensures CopiesAt(Written(db, items, now), p) == CopiesAt(db, p) + if TakesPlace(FilesOf(items), p) then 1 else 0
  {
    if items != [] {
      var files := FilesOf(items);
      var archiveFiles := Register(db.archiveFiles, files, now);
      var olds := OldCopies(db.tapeFiles, files);
      SupersededFilesAreRegistered(db, items, now);
      RepackRowsAt(db, archiveFiles, olds, now, p);
      LogAtUnion(db.recycleLog, multiset(RepackRows(db.tapeFiles, archiveFiles, olds, now)), p);
      LiveAt(db, items, now, p);
      OldCopiesAreHolders(db, files, p);
    }
  }

  /** The recycle log gains one row per previous holder, carrying the columns of the live copy it replaces and of its
      archive file. */
  lemma {:induction false} RecycledRowsAreHolders(db: Database, items: seq<TapeItem>, now: nat, r: RecycledFile)
    requires Accepts(db, items)
    ensures var log := Written(db, items, now).recycleLog; var files := FilesOf(items);
            log[r] == db.recycleLog[r] +
                      if && r.position in db.tapeFiles && HasSuccessor(files, db.tapeFiles[r.position])
                         && db.tapeFiles[r.position].archiveFileId in Written(db, items, now).archiveFiles
                         && r == Recycle(r.position, db.tapeFiles[r.position],
                                         Written(db, items, now).archiveFiles[db.tapeFiles[r.position].archiveFileId],
                                         None, "REPACK", now)
                      then 1 else 0
  {
    if items != [] {
      OldCopiesAreHolders(db, FilesOf(items), r.position);
    }
  }

  // ----- counters -----

  /** The tape counters after a batch: the byte total is right exactly when the batch holds less than 2^64 bytes. */
  lemma {:induction false} CountersAfterWrite(db: Database, items: seq<TapeItem>, now: nat)
    requires Accepts(db, items) && items != []
    ensures var vid, after := items[0].Vid(), Written(db, items, now).tapes;
            && after.Keys == db.tapes.Keys
            && (forall v :: v in db.tapes && v != vid ==> after[v] == db.tapes[v])
            && after[vid].lastFSeq == db.tapes[vid].lastFSeq + |items| == items[|items| - 1].FSeq()
            && after[vid].nbMasterFiles == db.tapes[vid].nbMasterFiles + CountFiles(items)
            && CountFiles(items) == |FilesOf(items)|
            && (after[vid].dataInBytes == db.tapes[vid].dataInBytes + ByteSum(FilesOf(items)) <==>
               ByteSum(FilesOf(items)) < TWO_64)
            && after[vid].dataInBytes - db.tapes[vid].dataInBytes
               == after[vid].masterDataInBytes - db.tapes[vid].masterDataInBytes
  {
    CountFilesIsLength(items);
    var vid := items[0].Vid();
    LastFSeqFits(vid, db.tapes[vid].lastFSeq, items);
    BytesWrittenIsSum(FilesOf(items));
  }

  // ----- resubmission -----

  lemma {:induction false} FirstItemDecides(vid: string, lastFSeq: uint64, items: seq<TapeItem>)
    requires items != [] && ItemFieldsSet(items[0]) && items[0].Vid() == vid && items[0].FSeq() != WrapAdd(lastFSeq, 1)
    ensures ScanItems(vid, lastFSeq, items) == Err(FSeqMismatch)
  {
    if |items| == 1 {
      assert items[..0] == [];
    } else {
      FirstItemDecides(vid, lastFSeq, items[..|items| - 1]);
    }
  }

  /** A batch that committed is refused by any later catalogue whose tape has not gone back. */
  lemma {:induction false} ResubmissionFails(db: Database, items: seq<TapeItem>, later: Database, now: nat)
    requires Accepts(db, items) && items != []
    requires items[0].Vid() in later.tapes
    requires later.tapes[items[0].Vid()].lastFSeq >= db.tapes[items[0].Vid()].lastFSeq + |items|
    ensures PostgresWrite(later, items, now) == Failed(FSeqMismatch) == OracleWrite(later, items, now)
  {
    var vid := items[0].Vid();
    assert ItemFieldsSet(items[0]) && items[0].FSeq() == db.tapes[vid].lastFSeq + 1;
    FirstItemDecides(vid, later.tapes[vid].lastFSeq, items);
  }

  // ----- error reporting -----

  /** No file the batch would create claims a disk file that is already taken or claimed by another one. */
  ghost predicate DiskFilesFree(db: Database, files: seq<FileEvent>) {
    && (forall f :: f in files && f.archiveFileId !in db.archiveFiles ==>
       !DiskFileTaken(db.archiveFiles, ArchiveFileOf(f, 0)))
    && (forall f, g :: f in files && g in files && f.archiveFileId != g.archiveFileId
                       && f.archiveFileId !in db.archiveFiles && g.archiveFileId !in db.archiveFiles ==>
                         !SameDiskFile(ArchiveFileOf(f, 0), ArchiveFileOf(g, 0)))
  }

  lemma {:induction false} OneMoreError(errors: seq<int>, e: int)
    ensures OtherThanUnique(errors + [e]) <==> OtherThanUnique(errors) || e != ORA_UNIQUE_CONSTRAINT
  {
    assert forall x :: x in errors + [e] <==> x in errors || x == e;
    assert e in errors + [e];
  }

  /** The Oracle insertion, one file at a time. */
  lemma {:induction false} OracleInsertNext(db: Database, files: seq<FileEvent>, now: nat)
    requires files != []
    ensures var f := files[|files| - 1];
            OracleInsertArchiveFiles(db, files, now) ==
            match OracleInsertArchiveFiles(db, files[..|files| - 1], now)
            case Err(e) => Err(e)
            case Ok(rows) =>
              if f.storageClass !in db.storageClasses || f.archiveFileId in rows
                  || DiskFileTaken(rows, ArchiveFileOf(f, now))
              then Ok(rows)
              else if f.diskInstance !in db.diskInstances then Err(ForeignKeyViolation)
              else Ok(rows[f.archiveFileId := ArchiveFileOf(f, now)])
  {
    var u := OracleArrayUpdate(db, files[..|files| - 1], now);
    OneMoreError(u.errors, ORA_UNIQUE_CONSTRAINT);
    OneMoreError(u.errors, ORA_PARENT_KEY_NOT_FOUND);
  }

  lemma {:induction false} InsertionsAgree(db: Database, files: seq<FileEvent>, now: nat)
    requires DiskFilesFree(db, files)
    ensures PostgresInsertArchiveFiles(db, files, now) == OracleInsertArchiveFiles(db, files, now)
  {
    if files != [] {
      var front, f := files[..|files| - 1], files[|files| - 1];
      assert forall g :: g in front ==> g in files;
      InsertionsAgree(db, front, now);
      OracleInsertNext(db, files, now);
      PostgresInsertExtends(db, front, now);
      var before := PostgresInsertArchiveFiles(db, front, now);
      if before.Ok? && f.archiveFileId !in before.value {
        assert files == front + [f];
        FreeInExtension(db, front, f, now, before.value);
      }
    } else {
      assert !OtherThanUnique([]);
    }
  }

  lemma {:induction false} FreeInExtension(db: Database, front: seq<FileEvent>, f: FileEvent, now: nat,
                                           rows: map<uint64, ArchiveFile>)
    requires Extension(db, front, now, rows) && DiskFilesFree(db, front + [f]) && f.archiveFileId !in rows
    ensures !DiskFileTaken(rows, ArchiveFileOf(f, now))
  {
    assert f in front + [f];
    forall id | id in rows ensures !SameDiskFile(rows[id], ArchiveFileOf(f, now)) {
      if id in db.archiveFiles {
        assert !SameDiskFile(db.archiveFiles[id], ArchiveFileOf(f, 0));
      } else {
        var g :| g in front && g.archiveFileId == id && Creatable(db, g) && rows[id] == ArchiveFileOf(g, now);
        assert g in front + [f];
      }
    }
  }

  /** Unless a disk file clashes, the back ends also report the same error. */
  lemma {:induction false} SameErrorUnlessDiskFileClash(db: Database, items: seq<TapeItem>, now: nat)
    requires DiskFilesFree(db, FilesOf(items))
    ensures PostgresWrite(db, items, now) == OracleWrite(db, items, now)
  {
    BackEndsAgree(db, items, now);
    if items != [] {
      BeginWriteAccepts(db, items, now);
      if BeginWrite(db, items, now).Ok? {
        var (db1, files) := BeginWrite(db, items, now).value;
        InsertionsAgree(db1, files, now);
      }
    }
  }

  /** A batch whose only possible fault is that a disk file is claimed twice. */
  ghost predicate OnlyClashes(db: Database, items: seq<TapeItem>) {
    && items != [] && items[0].Vid() in db.tapes
    && Continues(items[0].Vid(), db.tapes[items[0].Vid()].lastFSeq, items) && FilesInOrder(db, FilesOf(items))
  }

  lemma {:induction false} OracleSkipsOnly(db: Database, files: seq<FileEvent>, now: nat)
    requires forall f :: f in files && f.archiveFileId !in db.archiveFiles ==> f.diskInstance in db.diskInstances
    ensures OracleInsertArchiveFiles(db, files, now).Ok?
    ensures forall id :: id in db.archiveFiles ==> id in OracleInsertArchiveFiles(db, files, now).value
  {
    if files != [] {
      assert files[|files| - 1] in files;
      OracleSkipsOnly(db, files[..|files| - 1], now);
      OracleInsertNext(db, files, now);
    } else {
      assert !OtherThanUnique([]);
    }
  }

  lemma {:induction false} OnlyMissingEntries(rows: map<uint64, ArchiveFile>, files: seq<FileEvent>)
    requires forall f :: f in files ==> CheckFile(rows, f) in {None, Some(NoArchiveFileEntry)}
    ensures CheckFiles(rows, files) in {None, Some(NoArchiveFileEntry)}
  {
    if files != [] {
      assert files[|files| - 1] in files;
      OnlyMissingEntries(rows, files[..|files| - 1]);
    }
  }

  lemma {:induction false} OracleMissesEntry(db: Database, files: seq<FileEvent>, now: nat, vid: string)
    requires FitsOnTape(db, vid, files) && FilesInOrder(db, files)
    ensures OracleInsertArchiveFiles(db, files, now).Ok?
    ensures var r := RecordTapeFiles(db, OracleInsertArchiveFiles(db, files, now).value, files, now);
            r.Committed? || r == Failed(NoArchiveFileEntry)
  {
    assert forall f :: f in files ==> InOrder(db, f);
    OracleSkipsOnly(db, files, now);
    OracleInsertExtends(db, files, now);
    var rows := OracleInsertArchiveFiles(db, files, now).value;
    forall f | f in files ensures CheckFile(rows, f) in {None, Some(NoArchiveFileEntry)} {
      if f.archiveFileId in rows && f.archiveFileId !in db.archiveFiles { RowOfNewFile(db, files, now, rows, f); }
    }
    OnlyMissingEntries(rows, files);
    if VerifyFiles(rows, files).None? {
      VerifiedHasEveryFile(rows, files);
      RowsFitWhenFree(db, rows, files, vid);
    }
  }

  /** A batch whose only fault is a clash fails in both, but in Postgres at the commit and in Oracle on a row it
      skipped. */
  lemma {:induction false} ClashReportedDifferently(db: Database, items: seq<TapeItem>, now: nat)
    requires OnlyClashes(db, items) && !Accepts(db, items)
    ensures PostgresWrite(db, items, now) == Failed(DiskFileIdTaken)
    ensures OracleWrite(db, items, now) == Failed(NoArchiveFileEntry)
  {
    var vid, files := items[0].Vid(), FilesOf(items);
    PostgresMeetsReference(db, items, now);
    OracleMeetsReference(db, items, now);
    BeginWriteAccepts(db, items, now);
    FilesInSequence(vid, db.tapes[vid].lastFSeq, items);
    var db1 := BeginWrite(db, items, now).value.0;
    assert forall f :: f in files ==> InOrder(db, f) && PlaceFree(db, f);
    assert forall f :: f in files ==> InOrder(db1, f) && PlaceFree(db1, f);
    assert files != [];
    OracleMissesEntry(db1, files, now, vid);
    PostgresInsertRegisters(db1, files, now);
    InOrderImpliesRecorded(db1, files, now, vid);
  }
}
