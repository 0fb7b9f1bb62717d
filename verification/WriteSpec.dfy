/** What `filesWrittenToTape` is for, without statements or order: which batches commit and what they leave behind. Both
    back ends are proved equal to this description. */
module WriteSpec {
  import opened Tables
  import opened TapeWrite

  // ----- reference description -----

  /** The batch continues the tape: one vid, every field set, no gap and no overlap in the file sequence numbers. */
  ghost predicate Continues(vid: string, lastFSeq: uint64, items: seq<TapeItem>) {
    forall i :: 0 <= i < |items| ==>
                  && ItemFieldsSet(items[i]) && items[i].Vid() == vid && items[i].FSeq() == lastFSeq + 1 + i
                  && (items[i].FileWritten? ==> FileFieldsSet(items[i].file))
  }

  function FilesOf(items: seq<TapeItem>): seq<FileEvent> {
    if items == [] then []
    else
      var front := FilesOf(items[..|items| - 1]);
      var last := items[|items| - 1];
      if last.FileWritten? then front + [last.file] else front
  }

  function ByteSum(files: seq<FileEvent>): nat {
    if files == [] then 0 else ByteSum(files[..|files| - 1]) + files[|files| - 1].size
  }

  /** Bytes of the batch as the loop adds them up, in `uint64_t`. */
  function BytesWritten(files: seq<FileEvent>): uint64 {
    if files == [] then 0 else WrapAdd(BytesWritten(files[..|files| - 1]), files[|files| - 1].size)
  }

  ghost predicate DistinctIds(files: seq<FileEvent>) {
    forall i, j :: 0 <= i < j < |files| ==> files[i].archiveFileId != files[j].archiveFileId
  }

  /** Storage class and disk instance exist, so the row may be created. */
  predicate Creatable(db: Database, f: FileEvent) {
    f.storageClass in db.storageClasses && f.diskInstance in db.diskInstances
  }

  ghost predicate FileAcceptable(db: Database, f: FileEvent) {
    if f.archiveFileId in db.archiveFiles then
      var known := db.archiveFiles[f.archiveFileId];
      known.size == f.size && known.checksum == f.checksum
    else
      Creatable(db, f) && !DiskFileTaken(db.archiveFiles, ArchiveFileOf(f, 0))
  }

  ghost predicate NoDiskClash(db: Database, files: seq<FileEvent>) {
    forall i, j :: (&& 0 <= i < j < |files|
                    && files[i].archiveFileId !in db.archiveFiles && files[j].archiveFileId !in db.archiveFiles) ==>
                     !SameDiskFile(ArchiveFileOf(files[i], 0), ArchiveFileOf(files[j], 0))
  }

  /** Room for the file on tape: its place and its block are not taken. */
  ghost predicate PlaceFree(db: Database, f: FileEvent) {
    f.Pos() !in db.tapeFiles && forall p :: p in db.tapeFiles && p.vid == f.vid ==> db.tapeFiles[p].blockId != f.blockId
  }

  ghost predicate DistinctPlaces(files: seq<FileEvent>) {
    forall i, j :: 0 <= i < j < |files| ==> files[i].fSeq != files[j].fSeq && files[i].blockId != files[j].blockId
  }

  ghost predicate FilesAcceptable(db: Database, files: seq<FileEvent>) {
    && DistinctIds(files) && NoDiskClash(db, files) && DistinctPlaces(files)
    && forall f :: f in files ==> FileAcceptable(db, f) && PlaceFree(db, f)
  }

  /** The batch commits. */
  ghost predicate Accepts(db: Database, items: seq<TapeItem>) {
    items == [] ||
    (var vid := items[0].Vid();
     vid in db.tapes && Continues(vid, db.tapes[vid].lastFSeq, items) && FilesAcceptable(db, FilesOf(items)))
  }

  /** ARCHIVE_FILE with a row for every file of the batch that had none. */
  function Register(rows: map<uint64, ArchiveFile>, files: seq<FileEvent>, now: nat): map<uint64, ArchiveFile> {
    if files == [] then rows
    else
      var front := Register(rows, files[..|files| - 1], now);
      var f := files[|files| - 1];
      if f.archiveFileId in rows then front else front[f.archiveFileId := ArchiveFileOf(f, now)]
  }

  ghost function TapeAfter(t: Tape, items: seq<TapeItem>, now: nat): Tape
    requires items != [] && t.lastFSeq + |items| < TWO_64
  {
    var bytes := BytesWritten(FilesOf(items));
    t.(lastFSeq := t.lastFSeq + |items|, dataInBytes := t.dataInBytes + bytes,
       masterDataInBytes := t.masterDataInBytes + bytes,
       nbMasterFiles := t.nbMasterFiles + |FilesOf(items)|,
       lastWriteDrive := items[|items| - 1].Drive(), lastWriteTime := now)
  }

  /** What an accepted batch leaves in the database. */
  ghost function Written(db: Database, items: seq<TapeItem>, now: nat): Database
    requires Accepts(db, items)
  {
    if items == [] then db
    else
      var vid, files := items[0].Vid(), FilesOf(items);
      LastFSeqFits(vid, db.tapes[vid].lastFSeq, items);
      var archiveFiles := Register(db.archiveFiles, files, now);
      var olds := OldCopies(db.tapeFiles, files);
      db.(tapes := db.tapes[vid := TapeAfter(db.tapes[vid], items, now)],
          archiveFiles := archiveFiles,
          recycleLog := db.recycleLog + multiset(RepackRows(db.tapeFiles, archiveFiles, olds, now)),
          tapeFiles := AddTapeFiles(db.tapeFiles, files, now) - olds)
  }

  lemma {:induction false} LastFSeqFits(vid: string, lastFSeq: uint64, items: seq<TapeItem>)
    requires Continues(vid, lastFSeq, items)
    ensures lastFSeq + |items| < TWO_64
  {
    if items != [] { assert items[|items| - 1].FSeq() == lastFSeq + |items|; }
  }

  // ----- the pass over the batch -----

  lemma {:induction false} CountFilesIsLength(items: seq<TapeItem>)
    ensures CountFiles(items) == |FilesOf(items)|
  {
    if items != [] { CountFilesIsLength(items[..|items| - 1]); }
  }

  lemma {:induction false} FilesOfMember(items: seq<TapeItem>, f: FileEvent)
    ensures f in FilesOf(items) <==> FileWritten(f) in items
  {
    if items != [] {
      FilesOfMember(items[..|items| - 1], f);
      assert items == items[..|items| - 1] + [items[|items| - 1]];
    }
  }

  lemma {:induction false} FilesOfConcat(xs: seq<TapeItem>, ys: seq<TapeItem>)
    ensures FilesOf(xs + ys) == FilesOf(xs) + FilesOf(ys)
  {
    if ys == [] {
      assert xs + ys == xs;
    } else {
      assert (xs + ys)[..|xs + ys| - 1] == xs + ys[..|ys| - 1];
      FilesOfConcat(xs, ys[..|ys| - 1]);
    }
  }

  /** File events of a continuing batch sit on the tape, in strictly increasing order and inside its range. */
  lemma {:induction false} FilesInSequence(vid: string, lastFSeq: uint64, items: seq<TapeItem>)
    requires Continues(vid, lastFSeq, items)
    ensures var files := FilesOf(items);
            && (forall f :: f in files ==> f.vid == vid && lastFSeq < f.fSeq <= lastFSeq + |items| && FileFieldsSet(f))
            && (forall i, j :: 0 <= i < j < |files| ==> files[i].fSeq < files[j].fSeq)
  {
    if items != [] {
      var front := items[..|items| - 1];
      assert Continues(vid, lastFSeq, front) by { assert forall i :: 0 <= i < |front| ==> front[i] == items[i]; }
      FilesInSequence(vid, lastFSeq, front);
    }
  }

  ghost predicate ItemContinues(vid: string, fSeq: nat, item: TapeItem) {
    && ItemFieldsSet(item) && item.Vid() == vid && item.FSeq() == fSeq
    && (item.FileWritten? ==> FileFieldsSet(item.file))
  }

  lemma {:induction false} ContinuesSplit(vid: string, lastFSeq: uint64, items: seq<TapeItem>)
    requires items != []
    ensures var n := |items| - 1;
            Continues(vid, lastFSeq, items) <==>
            Continues(vid, lastFSeq, items[..n]) && ItemContinues(vid, lastFSeq + 1 + n, items[n])
  {
    var n := |items| - 1;
    assert forall i :: 0 <= i < n ==> items[..n][i] == items[i];
    if Continues(vid, lastFSeq, items[..n]) && ItemContinues(vid, lastFSeq + 1 + n, items[n]) {
      forall i | 0 <= i < |items| ensures ItemContinues(vid, lastFSeq + 1 + i, items[i]) {
        if i < n { assert items[..n][i] == items[i]; }
      }
    }
  }

  /** One turn of the loop; the wrapped counter never lets an item through because no item has number 0. */
  lemma {:induction false} ScanItemAccepts(s: Scan, vid: string, lastFSeq: uint64, item: TapeItem)
    requires s.expectedFSeq == WrapAdd(lastFSeq, 1)
    ensures ScanItem(s, vid, item).Ok? <==> ItemContinues(vid, lastFSeq + 1, item)
    ensures ItemContinues(vid, lastFSeq + 1, item) ==>
              && lastFSeq + 1 < TWO_64
              && ScanItem(s, vid, item).value ==
                 Scan(WrapAdd(lastFSeq + 1, 1),
                      if item.FileWritten? then WrapAdd(s.bytes, item.file.size) else s.bytes,
                      if item.FileWritten? then s.files + [item.file] else s.files)
  {
  }

  /** The loop accepts exactly the batches that continue the tape, although its counters wrap at 2^64. */
  lemma {:induction false} ScanAcceptsContinuation(vid: string, lastFSeq: uint64, items: seq<TapeItem>)
    ensures ScanItems(vid, lastFSeq, items).Ok? <==> Continues(vid, lastFSeq, items)
    ensures Continues(vid, lastFSeq, items) ==>
              && lastFSeq + |items| < TWO_64
              && ScanItems(vid, lastFSeq, items).value ==
                 Scan(WrapAdd(lastFSeq + |items|, 1), BytesWritten(FilesOf(items)), FilesOf(items))
  {
    if items != [] {
      var n := |items| - 1;
      var front := items[..n];
      ScanAcceptsContinuation(vid, lastFSeq, front);
      ContinuesSplit(vid, lastFSeq, items);
      if Continues(vid, lastFSeq, front) {
        ScanItemAccepts(ScanItems(vid, lastFSeq, front).value, vid, lastFSeq + n, items[n]);
        var files := FilesOf(items);
        assert items[n].FileWritten? ==> files[..|files| - 1] == FilesOf(front);
      }
    }
  }

  /** The loop's byte count is the true one modulo 2^64. */
  lemma {:induction false} BytesWrittenIsSum(files: seq<FileEvent>)
    ensures exists k: nat :: ByteSum(files) == BytesWritten(files) + k * TWO_64
    ensures BytesWritten(files) == ByteSum(files) <==> ByteSum(files) < TWO_64
  {
    if files == [] {
      assert ByteSum(files) == BytesWritten(files) + 0 * TWO_64;
    } else {
      var front, size := files[..|files| - 1], files[|files| - 1].size;
      BytesWrittenIsSum(front);
      var k: nat :| ByteSum(front) == BytesWritten(front) + k * TWO_64;
      if BytesWritten(front) + size < TWO_64 {
        assert ByteSum(files) == BytesWritten(files) + k * TWO_64;
      } else {
        assert ByteSum(files) == BytesWritten(files) + (k + 1) * TWO_64;
      }
    }
  }

  // ----- ARCHIVE_FILE: the two insertions -----

  /** `rows` extends `db.archiveFiles` with rows that events of the batch were allowed to create. */
  ghost predicate Extension(db: Database, files: seq<FileEvent>, now: nat, rows: map<uint64, ArchiveFile>) {
    && (forall id :: id in db.archiveFiles ==> id in rows && rows[id] == db.archiveFiles[id])
    && (forall id :: id in rows && id !in db.archiveFiles ==>
                       exists f :: f in files && f.archiveFileId == id && Creatable(db, f)
                           && rows[id] == ArchiveFileOf(f, now))
  }

  lemma {:induction false} ExtensionGrows(db: Database, files: seq<FileEvent>, f: FileEvent, now: nat,
                                          rows: map<uint64, ArchiveFile>)
    requires Extension(db, files, now, rows)
    ensures Extension(db, files + [f], now, rows)
    ensures f.archiveFileId !in rows && Creatable(db, f) ==>
              Extension(db, files + [f], now, rows[f.archiveFileId := ArchiveFileOf(f, now)])
  {
    forall id | id in rows && id !in db.archiveFiles
      ensures exists g :: && g in files + [f] && g.archiveFileId == id
                          && Creatable(db, g) && rows[id] == ArchiveFileOf(g, now)
    {
      var g :| g in files && g.archiveFileId == id && Creatable(db, g) && rows[id] == ArchiveFileOf(g, now);
      assert g in files + [f];
    }
    assert f in files + [f];
  }

  lemma {:induction false} PostgresInsertExtends(db: Database, files: seq<FileEvent>, now: nat)
    ensures var r := PostgresInsertArchiveFiles(db, files, now); r.Ok? ==> Extension(db, files, now, r.value)
  {
    if files != [] {
      var front, f := files[..|files| - 1], files[|files| - 1];
      PostgresInsertExtends(db, front, now);
      var r := PostgresInsertArchiveFiles(db, front, now);
      if r.Ok? {
        assert files == front + [f];
        ExtensionGrows(db, front, f, now, r.value);
      }
    }
  }

  lemma {:induction false} OracleInsertExtends(db: Database, files: seq<FileEvent>, now: nat)
    ensures var rows := OracleArrayUpdate(db, files, now).rows;
            Extension(db, files, now, rows) && DeferredCheckPasses(db.archiveFiles, rows)
  {
    if files != [] {
      var front, f := files[..|files| - 1], files[|files| - 1];
      OracleInsertExtends(db, front, now);
      assert files == front + [f];
      ExtensionGrows(db, front, f, now, OracleArrayUpdate(db, front, now).rows);
    }
  }

  lemma {:induction false} RegisterAt(rows: map<uint64, ArchiveFile>, files: seq<FileEvent>, now: nat, id: uint64)
    ensures id in rows ==> id in Register(rows, files, now) && Register(rows, files, now)[id] == rows[id]
    ensures id !in rows && id in Register(rows, files, now) ==>
              exists f :: f in files && f.archiveFileId == id && Register(rows, files, now)[id] == ArchiveFileOf(f, now)
    ensures (exists f :: f in files && f.archiveFileId == id) ==> id in Register(rows, files, now)
  {
    if files != [] {
      var front, last := files[..|files| - 1], files[|files| - 1];
      RegisterAt(rows, front, now, id);
      assert files == front + [last];
      if id == last.archiveFileId {
        assert last in files;
      } else if id !in rows && id in Register(rows, front, now) {
        var f :| f in front && f.archiveFileId == id && Register(rows, front, now)[id] == ArchiveFileOf(f, now);
        assert f in files;
      }
    }
  }

  lemma {:induction false} DistinctIdsUnique(files: seq<FileEvent>, f: FileEvent, g: FileEvent)
    requires DistinctIds(files) && f in files && g in files && f.archiveFileId == g.archiveFileId
    ensures f == g
  {
    var i :| 0 <= i < |files| && files[i] == f;
    var j :| 0 <= j < |files| && files[j] == g;
    if i < j { assert false; }
    if j < i { assert false; }
  }

  /** An extension that has every file of a batch without repeats is the registered table. */
  lemma {:induction false} ExtensionIsRegister(db: Database, files: seq<FileEvent>, now: nat,
                                               rows: map<uint64, ArchiveFile>)
    requires Extension(db, files, now, rows) && DistinctIds(files)
    requires forall f :: f in files ==> f.archiveFileId in rows
    ensures rows == Register(db.archiveFiles, files, now)
  {
    var target := Register(db.archiveFiles, files, now);
    forall id | id in rows || id in target
      ensures id in rows && id in target && rows[id] == target[id]
    {
      RegisterAt(db.archiveFiles, files, now, id);
      if id !in db.archiveFiles {
        if id in rows {
          var f :| f in files && f.archiveFileId == id && Creatable(db, f) && rows[id] == ArchiveFileOf(f, now);
          var g :| g in files && g.archiveFileId == id && target[id] == ArchiveFileOf(g, now);
          DistinctIdsUnique(files, f, g);
        }
      }
    }
  }

  lemma {:induction false} PostgresInsertRegisters(db: Database, files: seq<FileEvent>, now: nat)
    requires DistinctIds(files)
    requires forall f :: f in files && f.archiveFileId !in db.archiveFiles ==> Creatable(db, f)
    ensures PostgresInsertArchiveFiles(db, files, now) == Ok(Register(db.archiveFiles, files, now))
  {
    if files != [] {
      var front, f := files[..|files| - 1], files[|files| - 1];
      PostgresInsertRegisters(db, front, now);
      RegisterAt(db.archiveFiles, front, now, f.archiveFileId);
    }
  }

  lemma {:induction false} OracleInsertRegisters(db: Database, files: seq<FileEvent>, now: nat)
    requires DistinctIds(files) && NoDiskClash(db, files)
    requires forall f :: f in files && f.archiveFileId !in db.archiveFiles ==> FileAcceptable(db, f)
    ensures OracleArrayUpdate(db, files, now).rows == Register(db.archiveFiles, files, now)
    ensures forall e :: e in OracleArrayUpdate(db, files, now).errors ==> e == ORA_UNIQUE_CONSTRAINT
  {
    if files != [] {
      var front, f := files[..|files| - 1], files[|files| - 1];
      OracleInsertRegisters(db, front, now);
      var rows := Register(db.archiveFiles, front, now);
      RegisterAt(db.archiveFiles, front, now, f.archiveFileId);
      if f.archiveFileId !in db.archiveFiles {
        forall id | id in rows
          ensures !SameDiskFile(rows[id], ArchiveFileOf(f, now))
        {
          RegisterAt(db.archiveFiles, front, now, id);
          if id in db.archiveFiles {
            assert !SameDiskFile(db.archiveFiles[id], ArchiveFileOf(f, 0));
          } else {
            var g :| g in front && g.archiveFileId == id && rows[id] == ArchiveFileOf(g, now);
            var i :| 0 <= i < |front| && front[i] == g;
            assert files[i] == g && files[|files| - 1] == f;
          }
        }
      }
    }
  }

  lemma {:induction false} CheckFilesPasses(rows: map<uint64, ArchiveFile>, files: seq<FileEvent>)
    ensures CheckFiles(rows, files).None? <==> forall f :: f in files ==> CheckFile(rows, f).None?
  {
    if files != [] {
      CheckFilesPasses(rows, files[..|files| - 1]);
      assert files == files[..|files| - 1] + [files[|files| - 1]];
    }
  }

  lemma {:induction false} CheckErrorStays(rows: map<uint64, ArchiveFile>, files: seq<FileEvent>, n: nat)
    requires n <= |files| && CheckFiles(rows, files[..n]).Some?
    ensures CheckFiles(rows, files) == CheckFiles(rows, files[..n])
  {
    if n == |files| {
      assert files[..n] == files;
    } else {
      var front := files[..|files| - 1];
      assert front[..n] == files[..n];
      CheckErrorStays(rows, front, n);
    }
  }

  // ----- the two back ends meet the reference description -----

  ghost predicate FitsOnTape(db: Database, vid: string, files: seq<FileEvent>) {
    vid in db.tapes && (forall f :: f in files ==> f.vid == vid && FileFieldsSet(f))
  }

  lemma {:induction false} VerifiedHasEveryFile(rows: map<uint64, ArchiveFile>, files: seq<FileEvent>)
    requires VerifyFiles(rows, files).None?
    ensures DistinctIds(files)
    ensures forall f :: f in files ==> CheckFile(rows, f).None? && f.archiveFileId in rows
  {
    CheckFilesPasses(rows, files);
    forall i, j | 0 <= i < j < |files| ensures files[i].archiveFileId != files[j].archiveFileId {
      assert files[i] in files;
    }
  }

  /** Insertion and verification succeeded, so the files were acceptable and ARCHIVE_FILE is as described. */
  lemma {:induction false} RecordedImpliesAcceptable(db: Database, files: seq<FileEvent>, now: nat,
                                                     rows: map<uint64, ArchiveFile>, vid: string)
    requires FitsOnTape(db, vid, files)
    requires Extension(db, files, now, rows) && DeferredCheckPasses(db.archiveFiles, rows)
    requires RecordTapeFiles(db, rows, files, now).Committed?
    ensures FilesAcceptable(db, files) && rows == Register(db.archiveFiles, files, now)
  {
    VerifiedHasEveryFile(rows, files);
    ExtensionIsRegister(db, files, now, rows);
    forall f | f in files ensures FileAcceptable(db, f) {
      NewFileWasAcceptable(db, files, now, rows, f);
    }
    forall f | f in files ensures PlaceFree(db, f) {
      assert TapeFileRowFits(db, db.tapeFiles, rows, f);
    }
    NewFilesDoNotClash(db, files, now, rows);
    forall i, j | 0 <= i < j < |files| ensures files[i].fSeq != files[j].fSeq && files[i].blockId != files[j].blockId {
      assert files[i] in files && files[j] in files;
    }
  }

  lemma {:induction false} NewFileWasAcceptable(db: Database, files: seq<FileEvent>, now: nat,
                                                rows: map<uint64, ArchiveFile>, f: FileEvent)
    requires Extension(db, files, now, rows) && DistinctIds(files) && DeferredCheckPasses(db.archiveFiles, rows)
    requires f in files && CheckFile(rows, f).None?
    ensures FileAcceptable(db, f)
  {
    if f.archiveFileId !in db.archiveFiles {
      RowOfNewFile(db, files, now, rows, f);
      forall id | id in db.archiveFiles ensures !SameDiskFile(db.archiveFiles[id], ArchiveFileOf(f, 0)) {
        assert id in rows && !SameDiskFile(rows[f.archiveFileId], rows[id]);
      }
    }
  }

  lemma {:induction false} NewFilesDoNotClash(db: Database, files: seq<FileEvent>, now: nat,
                                              rows: map<uint64, ArchiveFile>)
    requires Extension(db, files, now, rows) && DistinctIds(files) && DeferredCheckPasses(db.archiveFiles, rows)
    requires forall f :: f in files ==> f.archiveFileId in rows
    ensures NoDiskClash(db, files)
  {
    forall i, j | 0 <= i < j < |files| && files[i].archiveFileId !in db.archiveFiles
        && files[j].archiveFileId !in db.archiveFiles
      ensures !SameDiskFile(ArchiveFileOf(files[i], 0), ArchiveFileOf(files[j], 0))
    {
      RowOfNewFile(db, files, now, rows, files[i]);
      RowOfNewFile(db, files, now, rows, files[j]);
    }
  }

  lemma {:induction false} RowOfNewFile(db: Database, files: seq<FileEvent>, now: nat, rows: map<uint64, ArchiveFile>,
                                        f: FileEvent)
    requires Extension(db, files, now, rows) && DistinctIds(files)
    requires f in files && f.archiveFileId in rows && f.archiveFileId !in db.archiveFiles
    ensures rows[f.archiveFileId] == ArchiveFileOf(f, now) && Creatable(db, f)
  {
    var g :| g in files && g.archiveFileId == f.archiveFileId && Creatable(db, g)
        && rows[f.archiveFileId] == ArchiveFileOf(g, now);
    DistinctIdsUnique(files, f, g);
  }

  /** The file is in order, disk file identifiers aside. */
  ghost predicate InOrder(db: Database, f: FileEvent) {
    if f.archiveFileId in db.archiveFiles then
      db.archiveFiles[f.archiveFileId].size == f.size && db.archiveFiles[f.archiveFileId].checksum == f.checksum
    else
      Creatable(db, f)
  }

  ghost predicate FilesInOrder(db: Database, files: seq<FileEvent>) {
    DistinctIds(files) && DistinctPlaces(files) && forall f :: f in files ==> InOrder(db, f) && PlaceFree(db, f)
  }

  /** Files in order pass every later statement. */
  lemma {:induction false} InOrderImpliesRecorded(db: Database, files: seq<FileEvent>, now: nat, vid: string)
    requires FitsOnTape(db, vid, files) && FilesInOrder(db, files)
    ensures RecordTapeFiles(db, Register(db.archiveFiles, files, now), files, now).Committed?
  {
    var rows := Register(db.archiveFiles, files, now);
    forall f | f in files
      ensures CheckFile(rows, f).None? && f.archiveFileId in rows
    {
      RegisterAt(db.archiveFiles, files, now, f.archiveFileId);
      assert InOrder(db, f);
      if f.archiveFileId !in db.archiveFiles {
        var g :| g in files && g.archiveFileId == f.archiveFileId && rows[f.archiveFileId] == ArchiveFileOf(g, now);
        DistinctIdsUnique(files, f, g);
      }
    }
    CheckFilesPasses(rows, files);
    RowsFitWhenFree(db, rows, files, vid);
  }

  lemma {:induction false} RowsFitWhenFree(db: Database, rows: map<uint64, ArchiveFile>, files: seq<FileEvent>,
                                           vid: string)
    requires FitsOnTape(db, vid, files) && DistinctPlaces(files)
    requires forall f :: f in files ==> PlaceFree(db, f) && f.archiveFileId in rows
    ensures TapeFileRowsFit(db, rows, files)
  {
    forall f | f in files ensures TapeFileRowFits(db, db.tapeFiles, rows, f) {
      assert PlaceFree(db, f) && FileFieldsSet(f);
    }
  }

  /** Acceptable files pass every later statement and the deferred check. */
  lemma {:induction false} AcceptableImpliesRecorded(db: Database, files: seq<FileEvent>, now: nat, vid: string)
    requires FitsOnTape(db, vid, files) && FilesAcceptable(db, files)
    ensures var rows := Register(db.archiveFiles, files, now);
            RecordTapeFiles(db, rows, files, now).Committed? && DeferredCheckPasses(db.archiveFiles, rows)
  {
    InOrderImpliesRecorded(db, files, now, vid);
    RegisterPassesDeferredCheck(db, files, now);
  }

  lemma {:induction false} RegisterPassesDeferredCheck(db: Database, files: seq<FileEvent>, now: nat)
    requires DistinctIds(files) && NoDiskClash(db, files) && forall f :: f in files ==> FileAcceptable(db, f)
    ensures DeferredCheckPasses(db.archiveFiles, Register(db.archiveFiles, files, now))
  {
    OracleInsertExtends(db, files, now);
    OracleInsertRegisters(db, files, now);
  }

  /** The update of TAPE computed from the loop variables is the one described. */
  lemma {:induction false} UpdateTapeAsDescribed(db: Database, items: seq<TapeItem>, now: nat)
    requires items != [] && items[0].Vid() in db.tapes
    requires Continues(items[0].Vid(), db.tapes[items[0].Vid()].lastFSeq, items)
    ensures var vid, last := items[0].Vid(), items[|items| - 1];
            && db.tapes[vid].lastFSeq + |items| < TWO_64
            && UpdateTape(db, last.Vid(), last.FSeq(), BytesWritten(FilesOf(items)), CountFiles(items), last.Drive(),
                          now)
               == db.(tapes := db.tapes[vid := TapeAfter(db.tapes[vid], items, now)])
  {
    var vid, last := items[0].Vid(), items[|items| - 1];
    LastFSeqFits(vid, db.tapes[vid].lastFSeq, items);
    CountFilesIsLength(items);
    assert last.FSeq() == db.tapes[vid].lastFSeq + |items| && last.Vid() == vid;
    var bytes := BytesWritten(FilesOf(items));
    var updated := UpdateTape(db, vid, last.FSeq(), bytes, |FilesOf(items)|, last.Drive(), now);
    assert updated.tapes[vid] == TapeAfter(db.tapes[vid], items, now);
    assert updated == db.(tapes := db.tapes[vid := updated.tapes[vid]]);
  }

  /** What the first statements of either back end establish. */
  lemma {:induction false} BeginWriteAccepts(db: Database, items: seq<TapeItem>, now: nat)
    requires items != []
    ensures var vid := items[0].Vid(); var r := BeginWrite(db, items, now);
            && (r.Ok? <==> vid in db.tapes && Continues(vid, db.tapes[vid].lastFSeq, items))
            && (r.Ok? ==> var (db1, files) := r.value;
                          && files == FilesOf(items) && FitsOnTape(db1, vid, files)
                          && db.tapes[vid].lastFSeq + |items| < TWO_64
                          && db1 == db.(tapes := db.tapes[vid := TapeAfter(db.tapes[vid], items, now)]))
  {
    var vid := items[0].Vid();
    if vid in db.tapes {
      ScanAcceptsContinuation(vid, db.tapes[vid].lastFSeq, items);
      if Continues(vid, db.tapes[vid].lastFSeq, items) {
        assert ItemFieldsSet(items[0]);
        UpdateTapeAsDescribed(db, items, now);
        FilesInSequence(vid, db.tapes[vid].lastFSeq, items);
      }
    }
  }

  /** FilesAcceptable and the rows recorded do not depend on the TAPE columns that were just updated. */
  lemma {:induction false} TapeUpdateIrrelevant(db: Database, db1: Database, files: seq<FileEvent>)
    requires db1 == db.(tapes := db1.tapes)
    ensures FilesAcceptable(db1, files) <==> FilesAcceptable(db, files)
  {
    assert forall f :: FileAcceptable(db1, f) <==> FileAcceptable(db, f);
    assert forall f :: PlaceFree(db1, f) <==> PlaceFree(db, f);
  }

  lemma {:induction false} PostgresMeetsReference(db: Database, items: seq<TapeItem>, now: nat)
    ensures PostgresWrite(db, items, now).Committed? <==> Accepts(db, items)
    ensures Accepts(db, items) ==> PostgresWrite(db, items, now) == Committed(Written(db, items, now))
  {
    if items != [] {
      BeginWriteAccepts(db, items, now);
      var begun, vid := BeginWrite(db, items, now), items[0].Vid();
      if begun.Ok? {
        var (db1, files) := begun.value;
        TapeUpdateIrrelevant(db, db1, files);
        if files == [] {
          NoFilesNothingRecorded(db);
        } else {
          var inserted := PostgresInsertArchiveFiles(db1, files, now);
          PostgresInsertExtends(db1, files, now);
          if PostgresWrite(db, items, now).Committed? {
            RecordedImpliesAcceptable(db1, files, now, inserted.value, vid);
          }
          if FilesAcceptable(db1, files) {
            PostgresInsertRegisters(db1, files, now);
            AcceptableImpliesRecorded(db1, files, now, vid);
          }
        }
      }
    }
  }

  lemma {:induction false} OracleMeetsReference(db: Database, items: seq<TapeItem>, now: nat)
    ensures OracleWrite(db, items, now).Committed? <==> Accepts(db, items)
    ensures Accepts(db, items) ==> OracleWrite(db, items, now) == Committed(Written(db, items, now))
  {
    if items != [] {
      BeginWriteAccepts(db, items, now);
      var begun, vid := BeginWrite(db, items, now), items[0].Vid();
      if begun.Ok? {
        var (db1, files) := begun.value;
        TapeUpdateIrrelevant(db, db1, files);
        if files == [] {
          NoFilesNothingRecorded(db);
        } else {
          OracleInsertExtends(db1, files, now);
          if OracleWrite(db, items, now).Committed? {
            RecordedImpliesAcceptable(db1, files, now, OracleArrayUpdate(db1, files, now).rows, vid);
          }
          if FilesAcceptable(db1, files) {
            OracleInsertRegisters(db1, files, now);
            AcceptableImpliesRecorded(db1, files, now, vid);
          }
        }
      }
    }
  }

  lemma {:induction false} NoFilesNothingRecorded(db: Database)
    ensures FilesAcceptable(db, []) && OldCopies(db.tapeFiles, []) == {}
    ensures forall now :: multiset(RepackRows(db.tapeFiles, db.archiveFiles, {}, now)) == multiset{}
    ensures db.tapeFiles - {} == db.tapeFiles && db.recycleLog + multiset{} == db.recycleLog
  {
    assert OldCopies(db.tapeFiles, []) == {};
    forall now ensures multiset(RepackRows(db.tapeFiles, db.archiveFiles, {}, now)) == multiset{} {
      assert RepackRows(db.tapeFiles, db.archiveFiles, {}, now) == {};
    }
  }

  /** Postgres and Oracle accept the same batches and commit the same tables. */
  lemma {:induction false} BackEndsAgree(db: Database, items: seq<TapeItem>, now: nat)
    ensures PostgresWrite(db, items, now).Committed? <==> OracleWrite(db, items, now).Committed?
    ensures PostgresWrite(db, items, now).Committed? ==> PostgresWrite(db, items, now) == OracleWrite(db, items, now)
  {
    PostgresMeetsReference(db, items, now);
    OracleMeetsReference(db, items, now);
  }
}
