/** The catalogue tables that record where every archived file lives on tape. */
module Tables {

  datatype Option<+T> = None | Some(value: T)

  datatype Result<+T, +E> = Ok(value: T) | Err(error: E)

  const TWO_64: nat := 0x1_0000_0000_0000_0000

  /** `uint64_t` of the source. */
  type uint64 = x: nat | x < TWO_64

  /** Addition of two `uint64_t`, which wraps. */
  function WrapAdd(a: uint64, b: uint64): uint64 {
    if a + b < TWO_64 then a + b else a + b - TWO_64
  }

  datatype ChecksumType = ADLER32 | CRC32 | CRC32C | MD5 | SHA1

  /** A checksum blob validates against another exactly when the two maps are equal. */
  type ChecksumBlob = map<ChecksumType, string>

  /** Primary key of TAPE_FILE. */
  datatype Position = Position(vid: string, fSeq: uint64)

  datatype Tape = Tape(lastFSeq: uint64, dataInBytes: nat, masterDataInBytes: nat, nbMasterFiles: nat,
                       lastWriteDrive: string, lastWriteTime: nat, dirty: bool, full: bool)

  datatype ArchiveFile = ArchiveFile(diskInstance: string, diskFileId: string, ownerUid: nat, gid: nat,
                                     size: uint64, checksum: ChecksumBlob, storageClass: string,
                                     creationTime: nat, reconciliationTime: nat)

  /** Row of TAPE_FILE; its key is a `Position`. */
  datatype TapeFile = TapeFile(blockId: uint64, size: uint64, copyNb: nat, creationTime: nat, archiveFileId: uint64)

  /** Row of FILE_RECYCLE_LOG: a tape copy and a picture of its archive file at the time it was recycled. The generated
      key FILE_RECYCLE_LOG_ID is not kept because no operation reads it. */
  datatype RecycledFile = RecycledFile(position: Position, blockId: uint64, copyNb: nat, tapeFileCreationTime: nat,
                                       archiveFileId: uint64, file: ArchiveFile, diskFilePath: Option<string>,
                                       reason: string, recycleTime: nat)

  /** Row-level contents of the database. Maps are keyed by primary key; FILE_RECYCLE_LOG is a bag of rows. */
  datatype Database = Database(tapes: map<string, Tape>,
                               archiveFiles: map<uint64, ArchiveFile>,
                               tapeFiles: map<Position, TapeFile>,
                               recycleLog: multiset<RecycledFile>,
                               storageClasses: set<string>,
                               diskInstances: set<string>)

  /** The row that recycling the copy `t` at `p` inserts: everything but the copy's own columns comes from
      ARCHIVE_FILE. */
  function Recycle(p: Position, t: TapeFile, file: ArchiveFile, diskFilePath: Option<string>, reason: string, now: nat)
    : RecycledFile
  {
    RecycledFile(p, t.blockId, t.copyNb, t.creationTime, t.archiveFileId, file, diskFilePath, reason, now)
  }

  /** The two rows clash on ARCHIVE_FILE_DIN_DFI_UN. */
  predicate SameDiskFile(a: ArchiveFile, b: ArchiveFile) {
    a.diskInstance == b.diskInstance && a.diskFileId == b.diskFileId
  }

  /** The row at `p` is a live copy of the archive file `id`. */
  predicate LiveCopyOf(db: Database, id: uint64, p: Position) {
    p in db.tapeFiles && db.tapeFiles[p].archiveFileId == id
  }

  /** `DELETE FROM ... WHERE` on a bag of rows, seen from the rows that stay. */
  ghost function Where<T(!new)>(rows: multiset<T>, keep: T -> bool): (r: multiset<T>)
    ensures forall x :: r[x] == if keep(x) then rows[x] else 0
    decreases |rows|
  {
    if rows == multiset{} then multiset{}
    else
      var x :| x in rows;
      var rest := Where(rows[x := 0], keep);
      if keep(x) then rest[x := rows[x]] else rest
  }

  ghost predicate NoRepeats<T(!new)>(s: seq<T>) {
    forall i, j :: 0 <= i < j < |s| ==> s[i] != s[j]
  }
}
