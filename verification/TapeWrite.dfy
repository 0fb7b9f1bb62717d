/** `filesWrittenToTape` of both back ends, statement by statement, as functions on the tables. */
module TapeWrite {
  import opened Tables

  datatype FileEvent = FileEvent(vid: string, fSeq: uint64, tapeDrive: string, archiveFileId: uint64,
                                 diskInstance: string, diskFileId: string, ownerUid: nat, gid: nat,
                                 size: uint64, checksum: ChecksumBlob, storageClass: string,
                                 blockId: uint64, copyNb: nat)
  {
    function Pos(): Position { Position(vid, fSeq) }
  }

  /** A batch mixes files with placeholders, which only take up a file sequence number. */
  datatype TapeItem =
    | Placeholder(itemVid: string, itemFSeq: uint64, itemDrive: string)
    | FileWritten(file: FileEvent)
  {
    function Vid(): string { if Placeholder? then itemVid else file.vid }
    function FSeq(): uint64 { if Placeholder? then itemFSeq else file.fSeq }
    function Drive(): string { if Placeholder? then itemDrive else file.tapeDrive }
  }

  datatype WriteError =
    | InvalidItem | NoSuchTape | VidMismatch | FSeqMismatch | InvalidFile
    | ForeignKeyViolation | DuplicateArchiveFileId | NoArchiveFileEntry | FileSizeMismatch | ChecksumMismatch
    | TapeFileConstraint | DiskFileIdTaken

  datatype Outcome = Committed(db: Database) | Failed(error: WriteError)

  // ----- checks on the events -----

  predicate ItemFieldsSet(item: TapeItem) {
    item.Vid() != "" && item.FSeq() != 0 && item.Drive() != ""
  }

  predicate FileFieldsSet(f: FileEvent) {
    && f.diskInstance != "" && f.diskFileId != "" && f.ownerUid != 0 && f.size != 0
    && f.checksum != map[] && f.storageClass != "" && f.vid != "" && f.fSeq != 0
    && (f.blockId == 0 ==> f.fSeq == 1) && f.copyNb != 0 && f.tapeDrive != ""
  }

  /** Loop variables of the pass over the batch. */
  datatype Scan = Scan(expectedFSeq: uint64, bytes: uint64, files: seq<FileEvent>)

  function ScanItem(s: Scan, vid: string, item: TapeItem): Result<Scan, WriteError> {
    if !ItemFieldsSet(item) then Err(InvalidItem)
    else if item.Vid() != vid then Err(VidMismatch)
    else if s.expectedFSeq != item.FSeq() then Err(FSeqMismatch)
    else
      var next := WrapAdd(s.expectedFSeq, 1);
      match item
      case Placeholder(_, _, _) => Ok(s.(expectedFSeq := next))
      case FileWritten(f) =>
        if !FileFieldsSet(f) then Err(InvalidFile)
        else Ok(Scan(next, WrapAdd(s.bytes, f.size), s.files + [f]))
  }

  function ScanItems(vid: string, lastFSeq: uint64, items: seq<TapeItem>): Result<Scan, WriteError> {
    if items == [] then Ok(Scan(WrapAdd(lastFSeq, 1), 0, []))
    else
      match ScanItems(vid, lastFSeq, items[..|items| - 1])
      case Err(e) => Err(e)
      case Ok(s) => ScanItem(s, vid, items[|items| - 1])
  }

  function CountFiles(items: seq<TapeItem>): nat {
    if items == [] then 0
    else CountFiles(items[..|items| - 1]) + if items[|items| - 1].FileWritten? then 1 else 0
  }

  // ----- TAPE -----

  function UpdateTape(db: Database, vid: string, lastFSeq: uint64, bytes: uint64, files: nat, drive: string, now: nat)
    : Database
  {
    if vid !in db.tapes then db
    else
      var t := db.tapes[vid];
      db.(tapes := db.tapes[vid := t.(lastFSeq := lastFSeq, dataInBytes := t.dataInBytes + bytes,
                                      masterDataInBytes := t.masterDataInBytes + bytes,
                                      nbMasterFiles := t.nbMasterFiles + files,
                                      lastWriteDrive := drive, lastWriteTime := now)])
  }

  // ----- ARCHIVE_FILE -----

  function ArchiveFileOf(f: FileEvent, now: nat): ArchiveFile {
    ArchiveFile(f.diskInstance, f.diskFileId, f.ownerUid, f.gid, f.size, f.checksum, f.storageClass, now, now)
  }

  /** Postgres: one INSERT joined with STORAGE_CLASS, ON CONFLICT on the identifier DO NOTHING. The (disk instance, disk
      file id) constraint is deferred to the commit. */
  function PostgresInsertArchiveFiles(db: Database, files: seq<FileEvent>, now: nat)
    : Result<map<uint64, ArchiveFile>, WriteError>
  {
    if files == [] then Ok(db.archiveFiles)
    else
      match PostgresInsertArchiveFiles(db, files[..|files| - 1], now)
      case Err(e) => Err(e)
      case Ok(rows) =>
        var f := files[|files| - 1];
        if f.storageClass !in db.storageClasses || f.archiveFileId in rows then Ok(rows)
        else if f.diskInstance !in db.diskInstances then Err(ForeignKeyViolation)
        else Ok(rows[f.archiveFileId := ArchiveFileOf(f, now)])
  }

  predicate DiskFileTaken(rows: map<uint64, ArchiveFile>, f: ArchiveFile) {
    exists id :: id in rows && SameDiskFile(rows[id], f)
  }

  const ORA_UNIQUE_CONSTRAINT := 1
  const ORA_PARENT_KEY_NOT_FOUND := 2291

  /** Effect of an Oracle array update in batch error mode: failed rows are reported together at the end. */
  datatype ArrayUpdate = ArrayUpdate(rows: map<uint64, ArchiveFile>, errors: seq<int>)

  function OracleInsertRow(db: Database, u: ArrayUpdate, f: FileEvent, now: nat): ArrayUpdate {
    var row := ArchiveFileOf(f, now);
    if f.storageClass !in db.storageClasses then u
    else if f.archiveFileId in u.rows || DiskFileTaken(u.rows, row) then
      u.(errors := u.errors + [ORA_UNIQUE_CONSTRAINT])
    else if f.diskInstance !in db.diskInstances then u.(errors := u.errors + [ORA_PARENT_KEY_NOT_FOUND])
    else u.(rows := u.rows[f.archiveFileId := row])
  }

  function OracleArrayUpdate(db: Database, files: seq<FileEvent>, now: nat): ArrayUpdate {
    if files == [] then ArrayUpdate(db.archiveFiles, [])
    else OracleInsertRow(db, OracleArrayUpdate(db, files[..|files| - 1], now), files[|files| - 1], now)
  }

  function OracleInsertArchiveFiles(db: Database, files: seq<FileEvent>, now: nat)
    : Result<map<uint64, ArchiveFile>, WriteError>
  {
    var u := OracleArrayUpdate(db, files, now);
    if OtherThanUnique(u.errors) then Err(ForeignKeyViolation) else Ok(u.rows)
  }

  predicate OtherThanUnique(errors: seq<int>) {
    exists e :: e in errors && e != ORA_UNIQUE_CONSTRAINT
  }

  // ----- verification of the events against ARCHIVE_FILE -----

  predicate RepeatsArchiveFile(rows: map<uint64, ArchiveFile>, files: seq<FileEvent>) {
    exists i, j :: && 0 <= i < j < |files|
                   && files[i].archiveFileId == files[j].archiveFileId && files[i].archiveFileId in rows
  }

  function CheckFile(rows: map<uint64, ArchiveFile>, f: FileEvent): Option<WriteError> {
    if f.archiveFileId !in rows then Some(NoArchiveFileEntry)
    else if rows[f.archiveFileId].size != f.size then Some(FileSizeMismatch)
    else if rows[f.archiveFileId].checksum != f.checksum then Some(ChecksumMismatch)
    else None
  }

  function CheckFiles(rows: map<uint64, ArchiveFile>, files: seq<FileEvent>): Option<WriteError> {
    if files == [] then None
    else
      var first := CheckFiles(rows, files[..|files| - 1]);
      if first.Some? then first else CheckFile(rows, files[|files| - 1])
  }

  function VerifyFiles(rows: map<uint64, ArchiveFile>, files: seq<FileEvent>): Option<WriteError> {
    if RepeatsArchiveFile(rows, files) then Some(DuplicateArchiveFileId) else CheckFiles(rows, files)
  }

  // ----- TAPE_FILE and FILE_RECYCLE_LOG -----

  /** `f` replaces the copy `t` at `p`: same archive file and copy number, other place. */
  predicate Supersedes(f: FileEvent, p: Position, t: TapeFile) {
    f.archiveFileId == t.archiveFileId && f.copyNb == t.copyNb && f.Pos() != p
  }

  function OldCopies(tapeFiles: map<Position, TapeFile>, files: seq<FileEvent>): set<Position> {
    set p | p in tapeFiles && exists f :: f in files && Supersedes(f, p, tapeFiles[p])
  }

  function RepackRow(tapeFiles: map<Position, TapeFile>, archiveFiles: map<uint64, ArchiveFile>, p: Position, now: nat)
    : RecycledFile
    requires p in tapeFiles && tapeFiles[p].archiveFileId in archiveFiles
  {
    Recycle(p, tapeFiles[p], archiveFiles[tapeFiles[p].archiveFileId], None, "REPACK", now)
  }

  /** Rows that recycling `olds` inserts; a copy whose archive file is missing selects no row. */
  function RepackRows(tapeFiles: map<Position, TapeFile>, archiveFiles: map<uint64, ArchiveFile>, olds: set<Position>,
                      now: nat)
    : set<RecycledFile>
  {
    set p | p in olds && p in tapeFiles && tapeFiles[p].archiveFileId in archiveFiles
      :: RepackRow(tapeFiles, archiveFiles, p, now)
  }

  function TapeFileOf(f: FileEvent, now: nat): TapeFile {
    TapeFile(f.blockId, f.size, f.copyNb, now, f.archiveFileId)
  }

  function AddTapeFiles(tapeFiles: map<Position, TapeFile>, files: seq<FileEvent>, now: nat): map<Position, TapeFile> {
    if files == [] then tapeFiles
    else
      var f := files[|files| - 1];
      AddTapeFiles(tapeFiles, files[..|files| - 1], now)[f.Pos() := TapeFileOf(f, now)]
  }

  /** Primary key, (VID, BLOCK_ID) uniqueness, foreign keys and the copy number check of TAPE_FILE. */
  predicate TapeFileRowFits(db: Database, tapeFiles: map<Position, TapeFile>, archiveFiles: map<uint64, ArchiveFile>,
                            f: FileEvent)
  {
    && f.Pos() !in tapeFiles
    && (forall p :: p in tapeFiles && p.vid == f.vid ==> tapeFiles[p].blockId != f.blockId)
    && f.vid in db.tapes && f.archiveFileId in archiveFiles && f.copyNb > 0
  }

  predicate TapeFileRowsFit(db: Database, archiveFiles: map<uint64, ArchiveFile>, files: seq<FileEvent>) {
    && (forall f :: f in files ==> TapeFileRowFits(db, db.tapeFiles, archiveFiles, f))
    && (forall i, j :: 0 <= i < j < |files| ==>
                         files[i].Pos() != files[j].Pos()
                             && (files[i].vid, files[i].blockId) != (files[j].vid, files[j].blockId))
  }

  /** The statements both back ends run after ARCHIVE_FILE is filled: verify, recycle, insert, delete the superseded. */
  function RecordTapeFiles(db: Database, archiveFiles: map<uint64, ArchiveFile>, files: seq<FileEvent>,
                           now: nat): Outcome {
    var bad := VerifyFiles(archiveFiles, files);
    if bad.Some? then Failed(bad.value)
    else if !TapeFileRowsFit(db, archiveFiles, files) then Failed(TapeFileConstraint)
    else
      var olds := OldCopies(db.tapeFiles, files);
      Committed(db.(archiveFiles := archiveFiles,
                    recycleLog := db.recycleLog + multiset(RepackRows(db.tapeFiles, archiveFiles, olds, now)),
                    tapeFiles := AddTapeFiles(db.tapeFiles, files, now) - olds))
  }

  /** SET CONSTRAINTS ... DEFERRED: rows the transaction added may not clash when it commits. */
  predicate DeferredCheckPasses(before: map<uint64, ArchiveFile>, after: map<uint64, ArchiveFile>) {
    forall id, other :: id in after && id !in before && other in after && other != id ==>
                          !SameDiskFile(after[id], after[other])
  }

  // ----- the two back ends -----

  /** What precedes ARCHIVE_FILE in both: checks, tape lock, pass over the batch, update of TAPE. */
  function BeginWrite(db: Database, items: seq<TapeItem>, now: nat): Result<(Database, seq<FileEvent>), WriteError>
    requires items != []
  {
    var vid := items[0].Vid();
    if !ItemFieldsSet(items[0]) then Err(InvalidItem)
    else if vid !in db.tapes then Err(NoSuchTape)
    else
      match ScanItems(vid, db.tapes[vid].lastFSeq, items)
      case Err(e) => Err(e)
      case Ok(s) =>
        var last := items[|items| - 1];
        Ok((UpdateTape(db, last.Vid(), last.FSeq(), s.bytes, CountFiles(items), last.Drive(), now), s.files))
  }

  function PostgresWrite(db: Database, items: seq<TapeItem>, now: nat): Outcome {
    if items == [] then Committed(db)
    else
      match BeginWrite(db, items, now)
      case Err(e) => Failed(e)
      case Ok((db1, files)) =>
        if files == [] then Committed(db1)
        else
          match PostgresInsertArchiveFiles(db1, files, now)
          case Err(e) => Failed(e)
          case Ok(rows) =>
            var r := RecordTapeFiles(db1, rows, files, now);
            if r.Committed? && !DeferredCheckPasses(db.archiveFiles, rows) then Failed(DiskFileIdTaken) else r
  }

  function OracleWrite(db: Database, items: seq<TapeItem>, now: nat): Outcome {
    if items == [] then Committed(db)
    else
      match BeginWrite(db, items, now)
      case Err(e) => Failed(e)
      case Ok((db1, files)) =>
        if files == [] then Committed(db1)
        else
          match OracleInsertArchiveFiles(db1, files, now)
          case Err(e) => Failed(e)
          case Ok(rows) => RecordTapeFiles(db1, rows, files, now)
  }
}
