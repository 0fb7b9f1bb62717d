/** The two implementations of `filesWrittenToTape` as they run: statement after statement on a connection, with loops
    over the batch and a rollback on every failure. Each is proved equal to the function that describes its
    statements. */
module BackEnds {
  import opened Tables
  import opened TapeWrite
  import opened WriteSpec
  import opened WriteTheorems

  /** A database connection: `db` is what its transaction sees, `saved` what a rollback returns to. */
  class Connection {
    var db: Database
    var saved: Database

    constructor (db: Database)
      ensures this.db == db && this.saved == db
    {
      this.db, this.saved := db, db;
    }

    method Begin()
      modifies this`saved
      ensures saved == db
    {
      saved := db;
    }

    method Rollback()
      modifies this`db
      ensures db == saved
    {
      db := saved;
    }
  }

  /** The method returned what `outcome` says: a commit, or an error with the database as it was. */
  ghost predicate Reports(outcome: Outcome, before: Database, after: Database, error: Option<WriteError>) {
    match outcome
    case Committed(db) => error == None && after == db
    case Failed(e) => error == Some(e) && after == before
  }

  // ----- the pass over the batch -----

  /** `std::set<TapeFileWritten>::insert`: ordered by file sequence number, equal numbers are not inserted. */
  function SetInsert(files: seq<FileEvent>, f: FileEvent): seq<FileEvent> {
    if files == [] then [f]
    else if f.fSeq < files[0].fSeq then [f] + files
    else if f.fSeq == files[0].fSeq then files
    else [files[0]] + SetInsert(files[1..], f)
  }

  lemma {:induction false} SetInsertAppends(files: seq<FileEvent>, f: FileEvent)
    requires forall g :: g in files ==> g.fSeq < f.fSeq
    ensures SetInsert(files, f) == files + [f]
  {
    if files != [] {
      assert files[0] in files;
      SetInsertAppends(files[1..], f);
    }
  }

  lemma {:induction false} ScanErrorStays(vid: string, lastFSeq: uint64, items: seq<TapeItem>, n: nat)
    requires n <= |items| && ScanItems(vid, lastFSeq, items[..n]).Err?
    ensures ScanItems(vid, lastFSeq, items) == ScanItems(vid, lastFSeq, items[..n])
  {
    if n == |items| {
      assert items[..n] == items;
    } else {
      var front := items[..|items| - 1];
      assert front[..n] == items[..n];
      ScanErrorStays(vid, lastFSeq, front, n);
    }
  }

  method CountFileEvents(items: seq<TapeItem>) returns (count: nat)
    ensures count == CountFiles(items)
  {
    count := 0;
    for i := 0 to |items|
      invariant count == CountFiles(items[..i])
    {
      assert items[..i + 1][..i] == items[..i];
      if items[i].FileWritten? { count := count + 1; }
    }
    assert items[..|items|] == items;
  }

  method ScanBatch(vid: string, lastFSeq: uint64, items: seq<TapeItem>) returns (r: Result<Scan, WriteError>)
    ensures r == ScanItems(vid, lastFSeq, items)
  {
    var expectedFSeq, totalLogicalBytesWritten: uint64, fileEvents := WrapAdd(lastFSeq, 1), 0, [];
    for i := 0 to |items|
      invariant ScanItems(vid, lastFSeq, items[..i]) == Ok(Scan(expectedFSeq, totalLogicalBytesWritten, fileEvents))
      invariant expectedFSeq != 0 ==> forall g :: g in fileEvents ==> g.fSeq < expectedFSeq
    {
      var event := items[i];
      ghost var before := Scan(expectedFSeq, totalLogicalBytesWritten, fileEvents);
      assert items[..i + 1][..i] == items[..i];
      assert ScanItems(vid, lastFSeq, items[..i + 1]) == ScanItem(before, vid, event);
      if !ItemFieldsSet(event) {
        ScanErrorStays(vid, lastFSeq, items, i + 1);
        return Err(InvalidItem);
      }
      if event.Vid() != vid {
        ScanErrorStays(vid, lastFSeq, items, i + 1);
        return Err(VidMismatch);
      }
      if expectedFSeq != event.FSeq() {
        ScanErrorStays(vid, lastFSeq, items, i + 1);
        return Err(FSeqMismatch);
      }
      expectedFSeq := WrapAdd(expectedFSeq, 1);
      match event
      case Placeholder(_, _, _) =>
      case FileWritten(f) =>
        if !FileFieldsSet(f) {
          ScanErrorStays(vid, lastFSeq, items, i + 1);
          return Err(InvalidFile);
        }
        totalLogicalBytesWritten := WrapAdd(totalLogicalBytesWritten, f.size);
        SetInsertAppends(fileEvents, f);
        fileEvents := SetInsert(fileEvents, f);
    }
    assert items[..|items|] == items;
    r := Ok(Scan(expectedFSeq, totalLogicalBytesWritten, fileEvents));
  }

  /** Statements that both back ends run first; `filesCount` is taken before the pass and sizes the column buffers. */
  method BeginTapeUpdate(conn: Connection, items: seq<TapeItem>, now: nat)
    returns (r: Result<seq<FileEvent>, WriteError>, filesCount: nat)
    requires items != []
    modifies conn
    ensures match BeginWrite(old(conn.db), items, now)
            case Err(e) => r == Err(e) && conn.db == old(conn.db)
            case Ok((db1, files)) => r == Ok(files) && conn.db == db1 && filesCount == |files|
    ensures conn.saved == old(conn.db)
  {
    conn.Begin();
    filesCount := 0;
    var vid := items[0].Vid();
    if !ItemFieldsSet(items[0]) { return Err(InvalidItem), filesCount; }
    if vid !in conn.db.tapes { return Err(NoSuchTape), filesCount; }
    var lastFSeq := conn.db.tapes[vid].lastFSeq;
    filesCount := CountFileEvents(items);
    var scan := ScanBatch(vid, lastFSeq, items);
    if scan.Err? { return Err(scan.error), filesCount; }
    ScanAcceptsContinuation(vid, lastFSeq, items);
    CountFilesIsLength(items);
    var lastEvent := items[|items| - 1];
    conn.db := UpdateTape(conn.db, lastEvent.Vid(), lastEvent.FSeq(), scan.value.bytes, filesCount,
                          lastEvent.Drive(), now);
    r := Ok(scan.value.files);
  }

  // ----- ARCHIVE_FILE -----

  lemma {:induction false} PostgresErrorStays(db: Database, files: seq<FileEvent>, now: nat, n: nat)
    requires n <= |files| && PostgresInsertArchiveFiles(db, files[..n], now).Err?
    ensures PostgresInsertArchiveFiles(db, files, now) == PostgresInsertArchiveFiles(db, files[..n], now)
  {
    if n == |files| {
      assert files[..n] == files;
    } else {
      var front := files[..|files| - 1];
      assert front[..n] == files[..n];
      PostgresErrorStays(db, front, now, n);
    }
  }

  method PostgresIdempotentInsert(conn: Connection, files: seq<FileEvent>, now: nat) returns (error: Option<WriteError>)
    modifies conn`db
    ensures match PostgresInsertArchiveFiles(old(conn.db), files, now)
            case Err(e) => error == Some(e)
            case Ok(rows) => error == None && conn.db == old(conn.db).(archiveFiles := rows)
  {
    for i := 0 to |files|
      invariant PostgresInsertArchiveFiles(old(conn.db), files[..i], now) == Ok(conn.db.archiveFiles)
      invariant conn.db == old(conn.db).(archiveFiles := conn.db.archiveFiles)
    {
      var f := files[i];
      assert files[..i + 1][..i] == files[..i];
      if f.storageClass in conn.db.storageClasses && f.archiveFileId !in conn.db.archiveFiles {
        if f.diskInstance !in conn.db.diskInstances {
          PostgresErrorStays(old(conn.db), files, now, i + 1);
          return Some(ForeignKeyViolation);
        }
        conn.db := conn.db.(archiveFiles := conn.db.archiveFiles[f.archiveFileId := ArchiveFileOf(f, now)]);
      }
    }
    assert files[..|files|] == files;
    error := None;
  }

  /** Array update in batch error mode, then a loop over the failed rows that tolerates unique constraint errors. */
  method OracleIdempotentInsert(conn: Connection, files: seq<FileEvent>, now: nat) returns (error: Option<WriteError>)
    modifies conn`db
    ensures match OracleInsertArchiveFiles(old(conn.db), files, now)
            case Err(e) => error == Some(e)
            case Ok(rows) => error == None && conn.db == old(conn.db).(archiveFiles := rows)
  {
    var failedRows: seq<int> := [];
    for i := 0 to |files|
      invariant OracleArrayUpdate(old(conn.db), files[..i], now) == ArrayUpdate(conn.db.archiveFiles, failedRows)
      invariant conn.db == old(conn.db).(archiveFiles := conn.db.archiveFiles)
    {
      var f := files[i];
      assert files[..i + 1][..i] == files[..i];
      var row := ArchiveFileOf(f, now);
      if f.storageClass in conn.db.storageClasses {
        if f.archiveFileId in conn.db.archiveFiles || DiskFileTaken(conn.db.archiveFiles, row) {
          failedRows := failedRows + [ORA_UNIQUE_CONSTRAINT];
        } else if f.diskInstance !in conn.db.diskInstances {
          failedRows := failedRows + [ORA_PARENT_KEY_NOT_FOUND];
        } else {
          conn.db := conn.db.(archiveFiles := conn.db.archiveFiles[f.archiveFileId := row]);
        }
      }
    }
    assert files[..|files|] == files;
    var foundErrorOtherThanUniqueConstraint := false;
    for row := 0 to |failedRows|
      invariant foundErrorOtherThanUniqueConstraint <==>
                exists k :: 0 <= k < row && failedRows[k] != ORA_UNIQUE_CONSTRAINT
    {
      if failedRows[row] != ORA_UNIQUE_CONSTRAINT { foundErrorOtherThanUniqueConstraint := true; }
    }
    assert forall k :: 0 <= k < |failedRows| ==> failedRows[k] in failedRows;
    error := if foundErrorOtherThanUniqueConstraint then Some(ForeignKeyViolation) else None;
  }

  // ----- verification -----

  /** Sizes and checksums by archive file; reading an identifier a second time is an error. */
  method SelectSizesAndChecksums(rows: map<uint64, ArchiveFile>, files: seq<FileEvent>)
    returns (r: Result<map<uint64, (uint64, ChecksumBlob)>, WriteError>)
    ensures r == Err(DuplicateArchiveFileId) <==> RepeatsArchiveFile(rows, files)
    ensures r.Err? ==> r == Err(DuplicateArchiveFileId)
    ensures r.Ok? ==> forall f :: f in files ==>
                                    (f.archiveFileId in r.value <==> f.archiveFileId in rows)
                                    && (f.archiveFileId in rows ==>
                                          r.value[f.archiveFileId]
                                              == (rows[f.archiveFileId].size, rows[f.archiveFileId].checksum))
  {
    var found: map<uint64, (uint64, ChecksumBlob)> := map[];
    for i := 0 to |files|
      invariant forall id :: id in found <==> id in rows && exists k :: 0 <= k < i && files[k].archiveFileId == id
      invariant forall id :: id in found ==> found[id] == (rows[id].size, rows[id].checksum)
      invariant !RepeatsArchiveFile(rows, files[..i])
    {
      var id := files[i].archiveFileId;
      if id in rows {
        if id in found {
          var k :| 0 <= k < i && files[k].archiveFileId == id;
          assert RepeatsArchiveFile(rows, files);
          return Err(DuplicateArchiveFileId);
        }
        found := found[id := (rows[id].size, rows[id].checksum)];
      }
      assert files[..i + 1] == files[..i] + [files[i]];
    }
    assert files[..|files|] == files;
    r := Ok(found);
  }

  method VerifyEvents(rows: map<uint64, ArchiveFile>, files: seq<FileEvent>) returns (error: Option<WriteError>)
    ensures error == VerifyFiles(rows, files)
  {
    var selected := SelectSizesAndChecksums(rows, files);
    if selected.Err? { return Some(selected.error); }
    var found := selected.value;
    for i := 0 to |files|
      invariant CheckFiles(rows, files[..i]).None?
    {
      var event := files[i];
      assert files[..i + 1][..i] == files[..i];
      assert event in files;
      error := None;
      if event.archiveFileId !in found { error := Some(NoArchiveFileEntry); }
      else if found[event.archiveFileId].0 != event.size { error := Some(FileSizeMismatch); }
      else if found[event.archiveFileId].1 != event.checksum { error := Some(ChecksumMismatch); }
      if error.Some? {
        CheckErrorStays(rows, files, i + 1);
        return;
      }
    }
    assert files[..|files|] == files;
    error := None;
  }

  // ----- TAPE_FILE and FILE_RECYCLE_LOG -----

  /** Fills the preallocated column buffers; the index never passes their end and no row stays unset. */
  method FillTapeFileBatch(files: seq<FileEvent>, filesCount: nat) returns (batch: array<FileEvent>)
    requires filesCount == |files| > 0
    ensures fresh(batch) && batch[..] == files
  {
    batch := new FileEvent[filesCount](_ => files[0]);
    var i := 0;
    for k := 0 to |files|
      invariant i == k && batch[..i] == files[..i]
    {
      batch[i] := files[k];
      i := i + 1;
    }
  }

  lemma {:induction false} RepackOneMore(tapeFiles: map<Position, TapeFile>, archiveFiles: map<uint64, ArchiveFile>,
                                         done: set<Position>, p: Position, now: nat)
    requires p in tapeFiles && p !in done
    ensures multiset(RepackRows(tapeFiles, archiveFiles, done + {p}, now)) ==
            multiset(RepackRows(tapeFiles, archiveFiles, done, now)) +
            if tapeFiles[p].archiveFileId in archiveFiles then multiset{RepackRow(tapeFiles, archiveFiles, p, now)}
            else multiset{}
  {
    var before := RepackRows(tapeFiles, archiveFiles, done, now);
    if tapeFiles[p].archiveFileId in archiveFiles {
      var row := RepackRow(tapeFiles, archiveFiles, p, now);
      assert RepackRows(tapeFiles, archiveFiles, done + {p}, now) == before + {row};
      assert row !in before;
    } else {
      assert RepackRows(tapeFiles, archiveFiles, done + {p}, now) == before;
    }
  }

  /** One INSERT into FILE_RECYCLE_LOG per selected copy, in whatever order the query returned them. */
  method RecycleRows(tapeFiles: map<Position, TapeFile>, archiveFiles: map<uint64, ArchiveFile>, olds: set<Position>,
                     now: nat)
    returns (recycled: seq<Position>, rows: multiset<RecycledFile>)
    requires olds <= tapeFiles.Keys
    ensures forall p :: p in recycled <==> p in olds
    ensures rows == multiset(RepackRows(tapeFiles, archiveFiles, olds, now))
  {
    var rest, done: set<Position> := olds, {};
    recycled, rows := [], multiset{};
    while rest != {}
      invariant rest !! done && rest + done == olds
      invariant forall p :: p in recycled <==> p in done
      invariant rows == multiset(RepackRows(tapeFiles, archiveFiles, done, now))
      decreases rest
    {
      var p :| p in rest;
      RepackOneMore(tapeFiles, archiveFiles, done, p, now);
      recycled := recycled + [p];
      rest, done := rest - {p}, done + {p};
      if tapeFiles[p].archiveFileId in archiveFiles {
        rows := rows + multiset{RepackRow(tapeFiles, archiveFiles, p, now)};
      }
    }
  }

  method RecycleOldCopies(conn: Connection, files: seq<FileEvent>, now: nat) returns (recycled: seq<Position>)
    modifies conn`db
    ensures var olds := OldCopies(old(conn.db.tapeFiles), files);
            && (forall p :: p in recycled <==> p in olds)
            && conn.db == old(conn.db).(recycleLog := old(conn.db.recycleLog)
                          + multiset(RepackRows(old(conn.db.tapeFiles), old(conn.db.archiveFiles), olds, now)))
  {
    var olds, rows := OldCopies(conn.db.tapeFiles, files), multiset{};
    recycled, rows := RecycleRows(conn.db.tapeFiles, conn.db.archiveFiles, olds, now);
    conn.db := conn.db.(recycleLog := conn.db.recycleLog + rows);
  }

  /** No two of the files share a place, so each added row is found again. */
  lemma {:induction false} FittingRowsFound(db: Database, archiveFiles: map<uint64, ArchiveFile>, files: seq<FileEvent>,
                                            now: nat, f: FileEvent)
    requires TapeFileRowsFit(db, archiveFiles, files) && f in files
    ensures var added := AddTapeFiles(db.tapeFiles, files, now);
            f.Pos() in added && added[f.Pos()] == TapeFileOf(f, now)
  {
    forall g, h | g in files && h in files && g.Pos() == h.Pos() ensures g == h {
      var i :| 0 <= i < |files| && files[i] == g;
      var j :| 0 <= j < |files| && files[j] == h;
      assert i == j;
    }
    AddedRow(db.tapeFiles, files, now, f);
  }

  lemma {:induction false} RowFitsGrowingTable(db: Database, archiveFiles: map<uint64, ArchiveFile>,
                                               front: seq<FileEvent>, f: FileEvent, now: nat)
    requires TapeFileRowsFit(db, archiveFiles, front + [f])
    ensures TapeFileRowFits(db, AddTapeFiles(db.tapeFiles, front, now), archiveFiles, f)
  {
    var added, files := AddTapeFiles(db.tapeFiles, front, now), front + [f];
    FitStops(db, archiveFiles, files, |front|);
    assert files[..|front|] == front && f in files && TapeFileRowFits(db, db.tapeFiles, archiveFiles, f);
    forall p | p in added ensures p != f.Pos() && (p.vid == f.vid ==> added[p].blockId != f.blockId) {
      AddedAt(db.tapeFiles, front, now, p);
      if TakesPlace(front, p) {
        var g :| g in front && g.Pos() == p && added[p] == TapeFileOf(g, now);
        var i :| 0 <= i < |front| && front[i] == g;
        assert files[i] == g && files[|front|] == f;
      }
    }
  }

  lemma {:induction false} RowFitsWithOthers(db: Database, archiveFiles: map<uint64, ArchiveFile>,
                                             front: seq<FileEvent>, f: FileEvent, now: nat)
    requires TapeFileRowsFit(db, archiveFiles, front)
    requires TapeFileRowFits(db, AddTapeFiles(db.tapeFiles, front, now), archiveFiles, f)
    ensures TapeFileRowsFit(db, archiveFiles, front + [f])
  {
    var added, files := AddTapeFiles(db.tapeFiles, front, now), front + [f];
    forall p | p in db.tapeFiles ensures p in added && added[p] == db.tapeFiles[p] {
      AddedAt(db.tapeFiles, front, now, p);
      assert forall g :: g in front ==> TapeFileRowFits(db, db.tapeFiles, archiveFiles, g);
    }
    forall g | g in files ensures TapeFileRowFits(db, db.tapeFiles, archiveFiles, g) {}
    forall g | g in front ensures g.Pos() != f.Pos() && (g.vid, g.blockId) != (f.vid, f.blockId) {
      FittingRowsFound(db, archiveFiles, front, now, g);
    }
    forall i, j | 0 <= i < j < |files|
      ensures files[i].Pos() != files[j].Pos() && (files[i].vid, files[i].blockId) != (files[j].vid, files[j].blockId)
    {
      assert files[i] == front[i] && files[i] in front;
      if j < |front| { assert files[j] == front[j]; }
    }
  }

  lemma {:induction false} FitStops(db: Database, archiveFiles: map<uint64, ArchiveFile>, files: seq<FileEvent>, n: nat)
    requires n <= |files| && TapeFileRowsFit(db, archiveFiles, files)
    ensures TapeFileRowsFit(db, archiveFiles, files[..n])
  {
    forall i, j | 0 <= i < j < n
      ensures files[..n][i].Pos() != files[..n][j].Pos()
      ensures (files[..n][i].vid, files[..n][i].blockId) != (files[..n][j].vid, files[..n][j].blockId)
    {
      assert files[..n][i] == files[i] && files[..n][j] == files[j];
    }
  }

  /** INSERT of the batch: every row is checked against the rows that are there by then. */
  method InsertTapeFiles(conn: Connection, batch: array<FileEvent>, now: nat) returns (ok: bool)
    modifies conn`db
    ensures ok <==> TapeFileRowsFit(old(conn.db), old(conn.db.archiveFiles), batch[..])
    ensures ok ==> conn.db == old(conn.db).(tapeFiles := AddTapeFiles(old(conn.db.tapeFiles), batch[..], now))
  {
    ghost var start, files := conn.db, batch[..];
    for i := 0 to batch.Length
      invariant conn.db == start.(tapeFiles := AddTapeFiles(start.tapeFiles, files[..i], now))
      invariant TapeFileRowsFit(start, start.archiveFiles, files[..i])
    {
      var f := batch[i];
      assert files[..i + 1] == files[..i] + [f];
      if !TapeFileRowFits(conn.db, conn.db.tapeFiles, conn.db.archiveFiles, f) {
        if TapeFileRowsFit(start, start.archiveFiles, files) {
          FitStops(start, start.archiveFiles, files, i + 1);
          RowFitsGrowingTable(start, start.archiveFiles, files[..i], f, now);
        }
        return false;
      }
      RowFitsWithOthers(start, start.archiveFiles, files[..i], f, now);
      conn.db := conn.db.(tapeFiles := conn.db.tapeFiles[f.Pos() := TapeFileOf(f, now)]);
      assert files[..i + 1][..i] == files[..i];
    }
    assert files[..batch.Length] == files;
    ok := true;
  }

  function PositionSet(positions: seq<Position>): set<Position> {
    set p | p in positions
  }

  lemma {:induction false} PositionSetGrows(positions: seq<Position>, i: nat)
    requires i < |positions|
    ensures PositionSet(positions[..i + 1]) == PositionSet(positions[..i]) + {positions[i]}
  {
    assert positions[..i + 1] == positions[..i] + [positions[i]];
  }

  method DeleteTapeFiles(conn: Connection, positions: seq<Position>)
    modifies conn`db
    ensures conn.db == old(conn.db).(tapeFiles := old(conn.db.tapeFiles) - PositionSet(positions))
  {
    for i := 0 to |positions|
      invariant conn.db == old(conn.db).(tapeFiles := old(conn.db.tapeFiles) - PositionSet(positions[..i]))
    {
      conn.db := conn.db.(tapeFiles := conn.db.tapeFiles - {positions[i]});
      PositionSetGrows(positions, i);
    }
    assert positions[..|positions|] == positions;
  }

  /** Verification and the TAPE_FILE statements; a failure leaves the clean-up to the caller's rollback. */
  method RecordFiles(conn: Connection, files: seq<FileEvent>, filesCount: nat, now: nat)
    returns (error: Option<WriteError>)
    requires filesCount == |files| > 0
    modifies conn`db
    ensures match RecordTapeFiles(old(conn.db), old(conn.db.archiveFiles), files, now)
            case Failed(e) => error == Some(e)
            case Committed(db) => error == None && conn.db == db
  {
    error := VerifyEvents(conn.db.archiveFiles, files);
    if error.Some? { return; }
    var batch := FillTapeFileBatch(files, filesCount);
    var recycled := RecycleOldCopies(conn, files, now);
    var ok := InsertTapeFiles(conn, batch, now);
    if !ok { return Some(TapeFileConstraint); }
    DeleteTapeFiles(conn, recycled);
    assert PositionSet(recycled) == OldCopies(old(conn.db.tapeFiles), files);
  }

  // ----- the two back ends -----

  method PostgresFilesWrittenToTape(conn: Connection, items: seq<TapeItem>, now: nat)
    returns (error: Option<WriteError>)
    modifies conn
    ensures Reports(PostgresWrite(old(conn.db), items, now), old(conn.db), conn.db, error)
  {
    if |items| == 0 { return None; }
    var begun, filesCount := BeginTapeUpdate(conn, items, now);
    if begun.Err? { return Some(begun.error); }
    var files := begun.value;
    if |files| == 0 { return None; }
    error := PostgresIdempotentInsert(conn, files, now);
    if error.None? {
      var inserted := conn.db.archiveFiles;
      error := RecordFiles(conn, files, filesCount, now);
      if error.None? && !DeferredCheckPasses(conn.saved.archiveFiles, inserted) { error := Some(DiskFileIdTaken); }
    }
    if error.Some? { conn.Rollback(); }
  }

  method OracleFilesWrittenToTape(conn: Connection, items: seq<TapeItem>, now: nat) returns (error: Option<WriteError>)
    modifies conn
    ensures Reports(OracleWrite(old(conn.db), items, now), old(conn.db), conn.db, error)
  {
    if |items| == 0 { return None; }
    var begun, filesCount := BeginTapeUpdate(conn, items, now);
    if begun.Err? { return Some(begun.error); }
    var files := begun.value;
    if |files| == 0 { return None; }
    error := OracleIdempotentInsert(conn, files, now);
    if error.None? { error := RecordFiles(conn, files, filesCount, now); }
    if error.Some? { conn.Rollback(); }
  }
}
