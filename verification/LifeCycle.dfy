/** The other steps in the life of a tape copy: recycled with its file, recycled alone, restored, purged, tape
    reclaimed. */
module LifeCycle {
  import opened Tables
  import opened TapeWrite

  datatype StepError =
    | InconsistentRequest | ForeignKeyViolated
    | NothingMatches | SeveralMatch | CopyExists | StorageClassUnknown | ArchiveFileConflict | TapeFileConflict
    | TapeUnknown | TapeNotFull | TapeNotEmpty | ConnectionLost

  /** A tape copy as the caller read it some time before. */
  datatype CopySeen = CopySeen(position: Position, blockId: uint64, copyNb: nat, creationTime: nat)

  /** An archive file as the caller read it some time before. */
  datatype FileSeen = FileSeen(archiveFileId: uint64, diskInstance: string, diskFilePath: string, copies: seq<CopySeen>)

  datatype DeleteRequest = DeleteRequest(archiveFileId: uint64, diskInstance: string, diskFilePath: string,
                                         requester: string, seen: Option<FileSeen>)

  // ----- recycling -----

  function RecycleSeen(c: CopySeen, id: uint64, file: ArchiveFile, path: string, reason: string,
                       now: nat): RecycledFile {
    RecycledFile(c.position, c.blockId, c.copyNb, c.creationTime, id, file, Some(path), reason, now)
  }

  /** One INSERT ... SELECT FROM ARCHIVE_FILE per copy: no row at all when the archive file is gone. */
  function RecycleAllSeen(archiveFiles: map<uint64, ArchiveFile>, id: uint64, copies: seq<CopySeen>, path: string,
                          reason: string, now: nat): multiset<RecycledFile>
  {
    if copies == [] || id !in archiveFiles then multiset{}
    else
      RecycleAllSeen(archiveFiles, id, copies[..|copies| - 1], path, reason, now)
      + multiset{RecycleSeen(copies[|copies| - 1], id, archiveFiles[id], path, reason, now)}
  }

  predicate HasLiveCopyOn(tapeFiles: map<Position, TapeFile>, id: uint64, vid: string) {
    exists p :: p in tapeFiles && p.vid == vid && tapeFiles[p].archiveFileId == id
  }

  /** UPDATE TAPE SET DIRTY for every tape that holds a live copy of the file. */
  function SetDirty(db: Database, id: uint64): map<string, Tape> {
    map vid | vid in db.tapes ::
      if HasLiveCopyOn(db.tapeFiles, id, vid) then db.tapes[vid].(dirty := true) else db.tapes[vid]
  }

  predicate TapesKnown(db: Database, copies: seq<CopySeen>) {
    forall i :: 0 <= i < |copies| ==> copies[i].position.vid in db.tapes
  }

  function DeletionReason(requester: string, diskInstance: string): string {
    "File deleted by " + requester + " from the " + diskInstance + " instance"
  }

  /** Moves the file to the recycle log: the copies logged are those the caller saw, the copies deleted those that are
      there. */
  function MoveToRecycleLog(db: Database, request: DeleteRequest, now: nat): Result<Database, StepError> {
    match request.seen
    case None => Ok(db)
    case Some(seen) =>
      var id := request.archiveFileId;
      if request.diskInstance != seen.diskInstance || request.diskFilePath == "" then Err(InconsistentRequest)
      else if seen.archiveFileId in db.archiveFiles && !TapesKnown(db, seen.copies) then Err(ForeignKeyViolated)
      else
        Ok(db.(recycleLog := db.recycleLog + RecycleAllSeen(db.archiveFiles, seen.archiveFileId, seen.copies,
                               request.diskFilePath, DeletionReason(request.requester, request.diskInstance), now),
               tapes := SetDirty(db, id),
               tapeFiles := map p | p in db.tapeFiles && db.tapeFiles[p].archiveFileId != id :: db.tapeFiles[p],
               archiveFiles := db.archiveFiles - {id}))
  }

  ghost function PlacesSeen(copies: seq<CopySeen>): multiset<Position> {
    if copies == [] then multiset{} else PlacesSeen(copies[..|copies| - 1]) + multiset{copies[|copies| - 1].position}
  }

  /** Deletes the copies the caller saw and logs them; the archive file stays. */
  function DeleteCopies(db: Database, seen: FileSeen, reason: string, now: nat): Result<Database, StepError> {
    if seen.archiveFileId in db.archiveFiles && !TapesKnown(db, seen.copies) then Err(ForeignKeyViolated)
    else
      Ok(db.(recycleLog := db.recycleLog + RecycleAllSeen(db.archiveFiles, seen.archiveFileId, seen.copies,
                             seen.diskFilePath, "(Deleted using cta-admin tf rm) " + reason, now),
             tapes := SetDirty(db, seen.archiveFileId),
             tapeFiles := map p | p in db.tapeFiles && !Sees(seen.copies, p) :: db.tapeFiles[p]))
  }

  predicate Sees(copies: seq<CopySeen>, p: Position) {
    exists i :: 0 <= i < |copies| && copies[i].position == p
  }

  // ----- restoring -----

  datatype Criteria = Criteria(archiveFileId: Option<uint64>, diskInstance: Option<string>, vid: Option<string>,
                               diskFileIds: Option<seq<string>>, copyNb: Option<nat>)

  predicate Matches(c: Criteria, r: RecycledFile) {
    && (c.archiveFileId.Some? ==> r.archiveFileId == c.archiveFileId.value)
    && (c.diskInstance.Some? ==> r.file.diskInstance == c.diskInstance.value)
    && (c.vid.Some? ==> r.position.vid == c.vid.value)
    && (c.diskFileIds.Some? ==> r.file.diskFileId in c.diskFileIds.value)
    && (c.copyNb.Some? ==> r.copyNb == c.copyNb.value)
  }

  ghost function Selected(log: multiset<RecycledFile>, c: Criteria): multiset<RecycledFile> {
    Where(log, (r: RecycledFile) => Matches(c, r))
  }

  /** `getArchiveFileById` joins with TAPE_FILE, so a file without a live copy is not found. */
  predicate FoundById(db: Database, id: uint64) {
    id in db.archiveFiles && exists p :: p in db.tapeFiles && db.tapeFiles[p].archiveFileId == id
  }

  predicate HasLiveCopyNb(tapeFiles: map<Position, TapeFile>, id: uint64, copyNb: nat) {
    exists p :: p in tapeFiles && tapeFiles[p].archiveFileId == id && tapeFiles[p].copyNb == copyNb
  }

  /** The archive file as it was when recycled, with the new disk file identifier and new times. */
  function RestoredFile(r: RecycledFile, newFid: string, now: nat): ArchiveFile {
    r.file.(diskFileId := newFid, creationTime := now, reconciliationTime := now)
  }

  /** The copy as it was when recycled, with a new creation time. */
  function RestoredCopy(r: RecycledFile, now: nat): TapeFile {
    TapeFile(r.blockId, r.file.size, r.copyNb, now, r.archiveFileId)
  }

  function RestoreArchiveFile(db: Database, r: RecycledFile, newFid: string, now: nat): Result<Database, StepError> {
    var file := RestoredFile(r, newFid, now);
    if file.storageClass !in db.storageClasses then Err(StorageClassUnknown)
    else if || r.archiveFileId in db.archiveFiles || DiskFileTaken(db.archiveFiles, file)
            || file.diskInstance !in db.diskInstances
    then Err(ArchiveFileConflict)
    else Ok(db.(archiveFiles := db.archiveFiles[r.archiveFileId := file]))
  }

  /** `insertTapeFile`: recycles other live copies with the same number, inserts, deletes those; it then commits. */
  function InsertTapeFile(db: Database, p: Position, t: TapeFile, now: nat): Result<Database, StepError> {
    var olds := set q | q in db.tapeFiles && q != p && db.tapeFiles[q].archiveFileId == t.archiveFileId
                        && db.tapeFiles[q].copyNb == t.copyNb;
    if || p in db.tapeFiles || (exists q :: q in db.tapeFiles && q.vid == p.vid && db.tapeFiles[q].blockId == t.blockId)
       || p.vid !in db.tapes || t.archiveFileId !in db.archiveFiles || t.copyNb == 0
    then Err(TapeFileConflict)
    else Ok(db.(recycleLog := db.recycleLog + multiset(RepackRows(db.tapeFiles, db.archiveFiles, olds, now)),
                tapeFiles := db.tapeFiles[p := t] - olds))
  }

  /** First half of a restore, up to and including the commit inside `insertTapeFile`. */
  function RestoreInsert(db: Database, r: RecycledFile, newFid: string, now: nat): Result<Database, StepError> {
    if !FoundById(db, r.archiveFileId) then
      match RestoreArchiveFile(db, r, newFid, now)
      case Err(e) => Err(e)
      case Ok(db1) => InsertTapeFile(db1, r.position, RestoredCopy(r, now), now)
    else if HasLiveCopyNb(db.tapeFiles, r.archiveFileId, r.copyNb) then Err(CopyExists)
    else InsertTapeFile(db, r.position, RestoredCopy(r, now), now)
  }

  predicate SameRecycledCopy(r: RecycledFile, s: RecycledFile) {
    && r.archiveFileId == s.archiveFileId && r.position == s.position && r.copyNb == s.copyNb
    && r.file.diskInstance == s.file.diskInstance
  }

  /** Second half, in a transaction of its own: the recycle log row goes. */
  ghost function RestoreForget(db: Database, r: RecycledFile): Database {
    db.(recycleLog := Where(db.recycleLog, (s: RecycledFile) => !SameRecycledCopy(r, s)))
  }

  ghost function RestoreRow(db: Database, r: RecycledFile, newFid: string, now: nat): Result<Database, StepError> {
    match RestoreInsert(db, r, newFid, now)
    case Err(e) => Err(e)
    case Ok(mid) => Ok(RestoreForget(mid, r))
  }

  ghost function TheRow(rows: multiset<RecycledFile>): RecycledFile
    requires |rows| == 1
  {
    var r :| r in rows; r
  }

  /** The one recycled copy that answers to the search; a tape named in it must exist. */
  ghost function Find(db: Database, c: Criteria): Result<RecycledFile, StepError> {
    var rows := Selected(db.recycleLog, c);
    if c.vid.Some? && c.vid.value !in db.tapes then Err(TapeUnknown)
    else if |rows| == 0 then Err(NothingMatches)
    else if |rows| > 1 then Err(SeveralMatch)
    else Ok(TheRow(rows))
  }

  ghost function Restore(db: Database, c: Criteria, newFid: string, now: nat): Result<Database, StepError> {
    match Find(db, c)
    case Err(e) => Err(e)
    case Ok(r) => RestoreRow(db, r, newFid, now)
  }

  /** A restore whose connection goes after the commit inside `insertTapeFile`. */
  ghost function RestoreHalf(db: Database, c: Criteria, newFid: string, now: nat): Result<Database, StepError> {
    match Find(db, c)
    case Err(e) => Err(e)
    case Ok(r) => RestoreInsert(db, r, newFid, now)
  }

  // ----- purging and reclaiming -----

  ghost function Purge(db: Database, vid: string): Database {
    db.(recycleLog := Where(db.recycleLog, (r: RecycledFile) => r.position.vid != vid))
  }

  function ResetCounters(db: Database, vid: string): Database
    requires vid in db.tapes
  {
    db.(tapes := db.tapes[vid := db.tapes[vid].(lastFSeq := 0, dataInBytes := 0, masterDataInBytes := 0,
                                                nbMasterFiles := 0, full := false, dirty := false)])
  }

  function ReclaimRefused(db: Database, vid: string): Option<StepError> {
    if vid !in db.tapes then Some(TapeUnknown)
    else if !db.tapes[vid].full then Some(TapeNotFull)
    else if exists p :: p in db.tapeFiles && p.vid == vid then Some(TapeNotEmpty)
    else None
  }

  /** A purge and a reset of the counters, each committed by itself. */
  ghost function Reclaim(db: Database, vid: string): Result<Database, StepError> {
    match ReclaimRefused(db, vid)
    case Some(e) => Err(e)
    case None => Ok(ResetCounters(Purge(db, vid), vid))
  }
}
