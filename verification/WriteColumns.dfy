/** What writing needs and what it does to every table, column by column. */
module WriteColumns {
  import opened Tables
  import opened TapeWrite
  import opened WriteSpec
  import opened WriteTheorems
  import opened Consistency

  // ----- which batches commit -----

  /** A file event with every field that must be set, as the number `fSeq` of the tape `vid`. The group may be 0. */
  ghost predicate FileSet(f: FileEvent, vid: string, fSeq: nat) {
    && f.vid == vid && f.vid != "" && f.fSeq == fSeq && f.fSeq != 0 && f.tapeDrive != ""
    && f.diskInstance != "" && f.diskFileId != "" && f.ownerUid != 0 && f.size != 0 && f.checksum != map[]
    && f.storageClass != "" && f.copyNb != 0 && !(f.blockId == 0 && f.fSeq != 1)
  }

  ghost predicate ItemSet(item: TapeItem, vid: string, fSeq: nat) {
    match item
    case Placeholder(v, n, drive) => v == vid && v != "" && n == fSeq && n != 0 && drive != ""
    case FileWritten(f) => FileSet(f, vid, fSeq)
  }

  /** The file agrees with its ARCHIVE_FILE row or may get one, and its place and block on the tape are free. */
  ghost predicate FileRoom(db: Database, f: FileEvent) {
    && (f.archiveFileId in db.archiveFiles ==>
          && db.archiveFiles[f.archiveFileId].size == f.size
          && db.archiveFiles[f.archiveFileId].checksum == f.checksum)
    && (f.archiveFileId !in db.archiveFiles ==>
          && f.storageClass in db.storageClasses && f.diskInstance in db.diskInstances
          && forall id :: id in db.archiveFiles ==>
                            !(&& db.archiveFiles[id].diskInstance == f.diskInstance
                              && db.archiveFiles[id].diskFileId == f.diskFileId))
    && Position(f.vid, f.fSeq) !in db.tapeFiles
    && forall p :: p in db.tapeFiles && p.vid == f.vid ==> db.tapeFiles[p].blockId != f.blockId
  }

  /** Two files of a batch differ in identifier and block, and new ones in disk file. */
  ghost predicate FilesApart(db: Database, f: FileEvent, g: FileEvent) {
    && f.archiveFileId != g.archiveFileId && f.blockId != g.blockId
    && (f.archiveFileId !in db.archiveFiles && g.archiveFileId !in db.archiveFiles ==>
          !(f.diskInstance == g.diskInstance && f.diskFileId == g.diskFileId))
  }

  ghost predicate Committable(db: Database, vid: string, items: seq<TapeItem>) {
    && vid in db.tapes
    && (forall i :: 0 <= i < |items| ==> ItemSet(items[i], vid, db.tapes[vid].lastFSeq + i + 1))
    && (forall i :: 0 <= i < |items| && items[i].FileWritten? ==> FileRoom(db, items[i].file))
    && (forall i, j :: 0 <= i < j < |items| && items[i].FileWritten? && items[j].FileWritten? ==>
                         FilesApart(db, items[i].file, items[j].file))
  }

  lemma {:induction false} ContinuesIffSet(vid: string, lastFSeq: uint64, items: seq<TapeItem>)
    ensures Continues(vid, lastFSeq, items) <==>
            forall i :: 0 <= i < |items| ==> ItemSet(items[i], vid, lastFSeq + i + 1)
  {
    forall i | 0 <= i < |items|
      ensures ItemContinues(vid, lastFSeq + 1 + i, items[i]) <==> ItemSet(items[i], vid, lastFSeq + i + 1)
    {
    }
    if forall i :: 0 <= i < |items| ==> ItemSet(items[i], vid, lastFSeq + i + 1) {
      forall i | 0 <= i < |items| ensures ItemContinues(vid, lastFSeq + 1 + i, items[i]) {
        assert ItemSet(items[i], vid, lastFSeq + i + 1);
      }
    }
  }

  lemma {:induction false} RoomIff(db: Database, f: FileEvent)
    ensures FileRoom(db, f) <==> FileAcceptable(db, f) && PlaceFree(db, f)
  {
    if FileAcceptable(db, f) && f.archiveFileId !in db.archiveFiles {
      forall id | id in db.archiveFiles
        ensures !(db.archiveFiles[id].diskInstance == f.diskInstance && db.archiveFiles[id].diskFileId == f.diskFileId)
      {
        assert !SameDiskFile(db.archiveFiles[id], ArchiveFileOf(f, 0));
      }
    }
  }

  /** The files of a batch stand for its items in pairs as well. */
  lemma {:induction false} PairsIff(db: Database, vid: string, lastFSeq: uint64, items: seq<TapeItem>)
    requires Continues(vid, lastFSeq, items)
    ensures (forall i, j :: 0 <= i < j < |items| && items[i].FileWritten? && items[j].FileWritten? ==>
                              FilesApart(db, items[i].file, items[j].file)) <==>
            (forall i, j :: 0 <= i < j < |FilesOf(items)| ==> FilesApart(db, FilesOf(items)[i], FilesOf(items)[j]))
  {
    var files := FilesOf(items);
    FilesInSequence(vid, lastFSeq, items);
    if forall i, j :: 0 <= i < j < |files| ==> FilesApart(db, files[i], files[j]) {
      forall i, j | 0 <= i < j < |items| && items[i].FileWritten? && items[j].FileWritten?
        ensures FilesApart(db, items[i].file, items[j].file)
      {
        var m, n := FileIndex(items, i), FileIndex(items, j);
        assert files[m].fSeq != files[n].fSeq;
        assert m < n || n < m;
      }
    }
    if forall i, j :: 0 <= i < j < |items| && items[i].FileWritten? && items[j].FileWritten? ==>
                        FilesApart(db, items[i].file, items[j].file)
    {
      forall m, n | 0 <= m < n < |files| ensures FilesApart(db, files[m], files[n]) {
        var i, j := ItemIndex(items, m), ItemIndex(items, n);
        assert files[m].fSeq < files[n].fSeq;
        assert i < j || j < i;
      }
    }
  }

  ghost function FileIndex(items: seq<TapeItem>, i: nat): (m: nat)
    requires i < |items| && items[i].FileWritten?
    ensures m < |FilesOf(items)| && FilesOf(items)[m] == items[i].file
  {
    FilesOfMember(items, items[i].file);
    assert items[i] == FileWritten(items[i].file);
    var m :| 0 <= m < |FilesOf(items)| && FilesOf(items)[m] == items[i].file;
    m
  }

  ghost function ItemIndex(items: seq<TapeItem>, m: nat): (i: nat)
    requires m < |FilesOf(items)|
    ensures i < |items| && items[i] == FileWritten(FilesOf(items)[m])
  {
    FilesOfMember(items, FilesOf(items)[m]);
    var i :| 0 <= i < |items| && items[i] == FileWritten(FilesOf(items)[m]);
    i
  }

  lemma {:induction false} PairsAcceptableIff(db: Database, files: seq<FileEvent>)
    requires forall i, j :: 0 <= i < j < |files| ==> files[i].fSeq < files[j].fSeq
    ensures (forall i, j :: 0 <= i < j < |files| ==> FilesApart(db, files[i], files[j])) <==>
            DistinctIds(files) && NoDiskClash(db, files) && DistinctPlaces(files)
  {
    if forall i, j :: 0 <= i < j < |files| ==> FilesApart(db, files[i], files[j]) {
      forall i, j | 0 <= i < j < |files|
        ensures files[i].archiveFileId != files[j].archiveFileId && files[i].blockId != files[j].blockId
      {
        assert FilesApart(db, files[i], files[j]);
      }
      forall i, j | 0 <= i < j < |files| && files[i].archiveFileId !in db.archiveFiles
                    && files[j].archiveFileId !in db.archiveFiles
        ensures !SameDiskFile(ArchiveFileOf(files[i], 0), ArchiveFileOf(files[j], 0))
      {
        assert FilesApart(db, files[i], files[j]);
      }
    } else {
      var i, j :| 0 <= i < j < |files| && !FilesApart(db, files[i], files[j]);
      assert SameDiskFile(ArchiveFileOf(files[i], 0), ArchiveFileOf(files[j], 0))
             || files[i].archiveFileId == files[j].archiveFileId || files[i].blockId == files[j].blockId;
    }
  }

  lemma {:induction false} AcceptsIffCommittable(db: Database, items: seq<TapeItem>)
    requires items != []
    ensures Accepts(db, items) <==> Committable(db, items[0].Vid(), items)
  {
    var vid, files := items[0].Vid(), FilesOf(items);
    if vid in db.tapes {
      ContinuesIffSet(vid, db.tapes[vid].lastFSeq, items);
      if Continues(vid, db.tapes[vid].lastFSeq, items) {
        FilesInSequence(vid, db.tapes[vid].lastFSeq, items);
        PairsIff(db, vid, db.tapes[vid].lastFSeq, items);
        PairsAcceptableIff(db, files);
        RoomsIff(db, items);
      }
    }
  }

  lemma {:induction false} RoomsIff(db: Database, items: seq<TapeItem>)
    ensures (forall i :: 0 <= i < |items| && items[i].FileWritten? ==> FileRoom(db, items[i].file)) <==>
            (forall f :: f in FilesOf(items) ==> FileAcceptable(db, f) && PlaceFree(db, f))
  {
    forall f ensures FileRoom(db, f) <==> FileAcceptable(db, f) && PlaceFree(db, f) { RoomIff(db, f); }
    forall f ensures f in FilesOf(items) <==> FileWritten(f) in items { FilesOfMember(items, f); }
    if forall f :: f in FilesOf(items) ==> FileAcceptable(db, f) && PlaceFree(db, f) {
      forall i | 0 <= i < |items| && items[i].FileWritten? ensures FileRoom(db, items[i].file) {
        assert items[i] == FileWritten(items[i].file) && items[i] in items;
      }
    } else {
      var f :| f in FilesOf(items) && !(FileAcceptable(db, f) && PlaceFree(db, f));
      var i :| 0 <= i < |items| && items[i] == FileWritten(f);
    }
  }

  /** Both back ends commit exactly the batches whose fields are set, whose numbers go on from the tape's last one, and
      whose files agree with ARCHIVE_FILE, have room on the tape and keep apart. */
  lemma {:induction false} CommitsIffCommittable(db: Database, items: seq<TapeItem>, now: nat)
    requires items != []
    ensures PostgresWrite(db, items, now).Committed? <==> exists vid :: Committable(db, vid, items)
    ensures OracleWrite(db, items, now).Committed? <==> exists vid :: Committable(db, vid, items)
  {
    PostgresMeetsReference(db, items, now);
    OracleMeetsReference(db, items, now);
    AcceptsIffCommittable(db, items);
    if vid :| Committable(db, vid, items) {
      assert ItemSet(items[0], vid, db.tapes[vid].lastFSeq + 0 + 1);
    }
  }

  // ----- single statements -----

  /** The place and the block of the file are free, its tape and its archive file exist, and its copy number is not
      0. */
  ghost predicate RowFits(db: Database, rows: map<uint64, ArchiveFile>, f: FileEvent) {
    && Position(f.vid, f.fSeq) !in db.tapeFiles && f.vid in db.tapes && f.archiveFileId in rows && f.copyNb != 0
    && forall p :: p in db.tapeFiles && p.vid == f.vid ==> db.tapeFiles[p].blockId != f.blockId
  }

  /** A batch goes into TAPE_FILE exactly when each row fits and no two rows share a place or a block. */
  lemma {:induction false} InsertionByColumns(db: Database, rows: map<uint64, ArchiveFile>, files: seq<FileEvent>)
    ensures TapeFileRowsFit(db, rows, files) <==>
            && (forall f :: f in files ==> RowFits(db, rows, f))
            && (forall i, j :: 0 <= i < j < |files| && files[i].vid == files[j].vid ==>
                                 files[i].fSeq != files[j].fSeq && files[i].blockId != files[j].blockId)
  {
    forall f ensures TapeFileRowFits(db, db.tapeFiles, rows, f) <==> RowFits(db, rows, f) { }
  }

  /** The copies selected for recycling: same archive file and copy number as a file of the batch, on another tape or at
      another number. */
  lemma {:induction false} OldCopiesByColumns(tapeFiles: map<Position, TapeFile>, files: seq<FileEvent>, p: Position)
    ensures p in OldCopies(tapeFiles, files) <==>
            && p in tapeFiles
            && exists f :: && f in files && f.archiveFileId == tapeFiles[p].archiveFileId
                           && f.copyNb == tapeFiles[p].copyNb && (f.vid != p.vid || f.fSeq != p.fSeq)
  {
    if p in tapeFiles {
      forall f ensures Supersedes(f, p, tapeFiles[p]) <==>
                       && f.archiveFileId == tapeFiles[p].archiveFileId && f.copyNb == tapeFiles[p].copyNb
                       && (f.vid != p.vid || f.fSeq != p.fSeq)
      {
      }
    }
  }

  // ----- what a commit leaves -----

  ghost function DriveOf(item: TapeItem): string {
    match item
    case Placeholder(_, _, drive) => drive
    case FileWritten(f) => f.tapeDrive
  }

  ghost function SizeOf(item: TapeItem): nat {
    match item
    case Placeholder(_, _, _) => 0
    case FileWritten(f) => f.size
  }

  ghost function TotalSize(items: seq<TapeItem>): nat {
    if items == [] then 0 else TotalSize(items[..|items| - 1]) + SizeOf(items[|items| - 1])
  }

  ghost function NbFiles(items: seq<TapeItem>): nat {
    |set i | 0 <= i < |items| && items[i].FileWritten?|
  }

  /** The row of TAPE: numbers, bytes and files go up, the last write is recorded, nothing else changes. */
  ghost predicate TapeWritten(before: Tape, after: Tape, items: seq<TapeItem>, now: nat)
    requires items != []
  {
    && after.lastFSeq == before.lastFSeq + |items|
    && after.dataInBytes == before.dataInBytes + TotalSize(items) % TWO_64
    && after.masterDataInBytes == before.masterDataInBytes + TotalSize(items) % TWO_64
    && after.nbMasterFiles == before.nbMasterFiles + NbFiles(items)
    && after.lastWriteDrive == DriveOf(items[|items| - 1]) && after.lastWriteTime == now
    && after.dirty == before.dirty && after.full == before.full
  }

  /** The row of ARCHIVE_FILE made for a file event. */
  ghost predicate FileRegistered(row: ArchiveFile, f: FileEvent, now: nat) {
    && row.diskInstance == f.diskInstance && row.diskFileId == f.diskFileId
    && row.ownerUid == f.ownerUid && row.gid == f.gid && row.size == f.size && row.checksum == f.checksum
    && row.storageClass == f.storageClass && row.creationTime == now && row.reconciliationTime == now
  }

  /** The row of TAPE_FILE made for a file event. */
  ghost predicate CopyRecorded(row: TapeFile, f: FileEvent, now: nat) {
    && row.blockId == f.blockId && row.size == f.size && row.copyNb == f.copyNb
    && row.creationTime == now && row.archiveFileId == f.archiveFileId
  }

  /** Some file of the batch is a new copy of the same archive file with the same number. */
  ghost predicate Superseded(t: TapeFile, items: seq<TapeItem>) {
    exists f :: FileWritten(f) in items && f.archiveFileId == t.archiveFileId && f.copyNb == t.copyNb
  }

  /** The row of FILE_RECYCLE_LOG for a live copy that was superseded. */
  ghost predicate RowOfSuperseded(r: RecycledFile, db: Database, files: map<uint64, ArchiveFile>, items: seq<TapeItem>,
                                  now: nat)
  {
    && r.position in db.tapeFiles && Superseded(db.tapeFiles[r.position], items)
    && r.blockId == db.tapeFiles[r.position].blockId && r.copyNb == db.tapeFiles[r.position].copyNb
    && r.tapeFileCreationTime == db.tapeFiles[r.position].creationTime
    && r.archiveFileId == db.tapeFiles[r.position].archiveFileId
    && r.archiveFileId in files && r.file == files[r.archiveFileId]
    && r.diskFilePath == None && r.reason == "REPACK" && r.recycleTime == now
  }

  lemma {:induction false} SizesAddUp(items: seq<TapeItem>)
    ensures TotalSize(items) == ByteSum(FilesOf(items))
  {
    if items != [] {
      var front, last := items[..|items| - 1], items[|items| - 1];
      SizesAddUp(front);
      if last.FileWritten? { assert FilesOf(items)[..|FilesOf(items)| - 1] == FilesOf(front); }
    }
  }

  lemma {:induction false} FilesAddUp(items: seq<TapeItem>)
    ensures NbFiles(items) == |FilesOf(items)|
  {
    var all := set i | 0 <= i < |items| && items[i].FileWritten?;
    if items != [] {
      var front, n := items[..|items| - 1], |items| - 1;
      FilesAddUp(front);
      var some := set i | 0 <= i < |front| && front[i].FileWritten?;
      assert all == if items[n].FileWritten? then some + {n} else some;
    }
  }

  lemma {:induction false} RemainderOfBytes(files: seq<FileEvent>)
    ensures BytesWritten(files) == ByteSum(files) % TWO_64
  {
    BytesWrittenIsSum(files);
    var k: nat :| ByteSum(files) == BytesWritten(files) + k * TWO_64;
  }

  /** TAPE after a commit: the tape's row as described, every other row as it was. */
  lemma {:induction false} TapesAfterCommit(db: Database, vid: string, items: seq<TapeItem>, now: nat)
    requires items != [] && Committable(db, vid, items)
    ensures PostgresWrite(db, items, now).Committed? && PostgresWrite(db, items, now) == OracleWrite(db, items, now)
    ensures var after := PostgresWrite(db, items, now).db.tapes;
            && after.Keys == db.tapes.Keys && TapeWritten(db.tapes[vid], after[vid], items, now)
            && forall v :: v in db.tapes && v != vid ==> after[v] == db.tapes[v]
    ensures var after := PostgresWrite(db, items, now).db;
            after.storageClasses == db.storageClasses && after.diskInstances == db.diskInstances
  {
    CommitsToWritten(db, vid, items, now);
    LastFSeqFits(vid, db.tapes[vid].lastFSeq, items);
    CountersAfterWrite(db, items, now);
    SizesAddUp(items);
    FilesAddUp(items);
    RemainderOfBytes(FilesOf(items));
  }

  lemma {:induction false} CommitsToWritten(db: Database, vid: string, items: seq<TapeItem>, now: nat)
    requires items != [] && Committable(db, vid, items)
    ensures items[0].Vid() == vid && Accepts(db, items)
    ensures PostgresWrite(db, items, now) == OracleWrite(db, items, now) == Committed(Written(db, items, now))
  {
    assert ItemSet(items[0], vid, db.tapes[vid].lastFSeq + 0 + 1);
    AcceptsIffCommittable(db, items);
    PostgresMeetsReference(db, items, now);
    OracleMeetsReference(db, items, now);
  }

  /** ARCHIVE_FILE after a commit: rows that were there as they were, one new row for each file that had none. */
  lemma {:induction false} ArchiveFilesAfterCommit(db: Database, vid: string, items: seq<TapeItem>, now: nat)
    requires items != [] && Committable(db, vid, items)
    ensures PostgresWrite(db, items, now).Committed?
    ensures var after := PostgresWrite(db, items, now).db.archiveFiles;
            && (forall id :: id in db.archiveFiles ==> id in after && after[id] == db.archiveFiles[id])
            && (forall f :: FileWritten(f) in items && f.archiveFileId !in db.archiveFiles ==>
                              f.archiveFileId in after && FileRegistered(after[f.archiveFileId], f, now))
            && (forall id :: id in after && id !in db.archiveFiles ==>
                               exists f :: FileWritten(f) in items && f.archiveFileId == id)
  {
    CommitsToWritten(db, vid, items, now);
    var after := Written(db, items, now).archiveFiles;
    forall id: uint64
      ensures id in db.archiveFiles ==> id in after && after[id] == db.archiveFiles[id]
      ensures id in after && id !in db.archiveFiles ==> exists f :: FileWritten(f) in items && f.archiveFileId == id
    {
      RowAfterWrite(db, items, now, id);
      if id in after && id !in db.archiveFiles {
        var f :| f in FilesOf(items) && f.archiveFileId == id;
        FilesOfMember(items, f);
      }
    }
    forall f | FileWritten(f) in items && f.archiveFileId !in db.archiveFiles
      ensures f.archiveFileId in after && FileRegistered(after[f.archiveFileId], f, now)
    {
      FilesOfMember(items, f);
      FileAfterWrite(db, items, now, f);
    }
  }

  /** TAPE_FILE after a commit: a row for each file of the batch, the superseded copies gone, the others as they
      were. */
  lemma {:induction false} TapeFilesAfterCommit(db: Database, vid: string, items: seq<TapeItem>, now: nat)
    requires items != [] && Committable(db, vid, items)
    ensures PostgresWrite(db, items, now).Committed?
    ensures var after := PostgresWrite(db, items, now).db.tapeFiles;
            && (forall f :: FileWritten(f) in items ==>
                              Position(f.vid, f.fSeq) in after && CopyRecorded(after[Position(f.vid, f.fSeq)], f, now))
            && (forall p :: p in db.tapeFiles ==> (p in after <==> !Superseded(db.tapeFiles[p], items)))
            && (forall p :: p in db.tapeFiles && p in after ==> after[p] == db.tapeFiles[p])
            && (forall p :: p in after && p !in db.tapeFiles ==>
                              exists f :: FileWritten(f) in items && p == Position(f.vid, f.fSeq))
  {
    CommitsToWritten(db, vid, items, now);
    LiveCopiesAfterWrite(db, items, now);
    forall f ensures f in FilesOf(items) <==> FileWritten(f) in items { FilesOfMember(items, f); }
    forall t ensures HasSuccessor(FilesOf(items), t) <==> Superseded(t, items) { SupersededIff(items, t); }
    var after := Written(db, items, now).tapeFiles;
    forall p | p in after && p !in db.tapeFiles
      ensures exists f :: FileWritten(f) in items && p == Position(f.vid, f.fSeq)
    {
      var f :| f in FilesOf(items) && f.Pos() == p;
    }
  }

  lemma {:induction false} SupersededIff(items: seq<TapeItem>, t: TapeFile)
    ensures HasSuccessor(FilesOf(items), t) <==> Superseded(t, items)
  {
    if HasSuccessor(FilesOf(items), t) {
      var f :| f in FilesOf(items) && f.archiveFileId == t.archiveFileId && f.copyNb == t.copyNb;
      FilesOfMember(items, f);
    }
    if Superseded(t, items) {
      var f :| FileWritten(f) in items && f.archiveFileId == t.archiveFileId && f.copyNb == t.copyNb;
      FilesOfMember(items, f);
    }
  }

  /** FILE_RECYCLE_LOG after a commit: one more row for each superseded copy, with its columns and those of its file. */
  lemma {:induction false} RecycleLogAfterCommit(db: Database, vid: string, items: seq<TapeItem>, now: nat)
    requires items != [] && Committable(db, vid, items)
    ensures PostgresWrite(db, items, now).Committed?
    ensures var after := PostgresWrite(db, items, now).db;
            forall r :: after.recycleLog[r] ==
                        db.recycleLog[r] + if RowOfSuperseded(r, db, after.archiveFiles, items, now) then 1 else 0
  {
    CommitsToWritten(db, vid, items, now);
    forall r ensures Written(db, items, now).recycleLog[r] ==
                     db.recycleLog[r]
                     + if RowOfSuperseded(r, db, Written(db, items, now).archiveFiles, items, now) then 1 else 0
    {
      RecycledRowsAreHolders(db, items, now, r);
      if r.position in db.tapeFiles { SupersededIff(items, db.tapeFiles[r.position]); }
    }
  }
}
