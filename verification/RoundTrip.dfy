/** Deleting an archive file and restoring its recycled copies, one by one and in any order. */
module RoundTrip {
  import opened Tables
  import opened TapeWrite
  import opened LifeCycle
  import opened Consistency
  import opened Steps

  /** One restore: which copy, under which disk file identifier, when. */
  datatype RestoreCommand = RestoreCommand(copy: CopySeen, newFid: string, now: nat)

  function CopiesOf(commands: seq<RestoreCommand>): seq<CopySeen> {
    seq(|commands|, i requires 0 <= i < |commands| => commands[i].copy)
  }

  /** The file is there, and the caller saw each of its live copies once and nothing else. */
  ghost predicate FileCurrent(db: Database, seen: FileSeen) {
    && seen.archiveFileId in db.archiveFiles
    && (forall i :: 0 <= i < |seen.copies| ==> LiveCopyOf(db, seen.archiveFileId, seen.copies[i].position))
    && (forall i, j :: 0 <= i < j < |seen.copies| ==> seen.copies[i].position != seen.copies[j].position)
    && (forall p :: LiveCopyOf(db, seen.archiveFileId, p) ==> Sees(seen.copies, p))
  }

  lemma {:induction false} FileCurrentSeenExactly(db: Database, seen: FileSeen)
    requires FileCurrent(db, seen)
    ensures SeenExactly(db, seen.archiveFileId, seen.copies)
  {
    forall p ensures PlacesSeen(seen.copies)[p] == if LiveCopyOf(db, seen.archiveFileId, p) then 1 else 0 {
      PlacesSeenAt(seen.copies, p);
      PlacesSeenOnce(seen.copies, p);
    }
  }

  /** The request was made with the file exactly as it is, and the file has at least one copy. */
  ghost predicate SeenAsIs(db: Database, request: DeleteRequest) {
    && request.seen.Some? && request.archiveFileId == request.seen.value.archiveFileId
    && request.seen.value.copies != []
    && FileCurrent(db, request.seen.value) && MoveToRecycleLog(db, request, 0).Ok?
    && forall c :: c in request.seen.value.copies ==> CopyAsIs(db.tapeFiles[c.position], c)
  }

  ghost predicate CopyAsIs(t: TapeFile, c: CopySeen) {
    t.blockId == c.blockId && t.copyNb == c.copyNb && t.creationTime == c.creationTime
  }

  /** The row that the deletion leaves in the recycle log for the copy `c`. */
  ghost function RowOf(db: Database, request: DeleteRequest, now: nat, c: CopySeen): RecycledFile
    requires request.archiveFileId in db.archiveFiles
  {
    RecycleSeen(c, request.archiveFileId, db.archiveFiles[request.archiveFileId], request.diskFilePath,
                DeletionReason(request.requester, request.diskInstance), now)
  }

  ghost function RowsOf(db: Database, request: DeleteRequest, now: nat, copies: seq<CopySeen>): multiset<RecycledFile> {
    RecycleAllSeen(db.archiveFiles, request.archiveFileId, copies, request.diskFilePath,
                   DeletionReason(request.requester, request.diskInstance), now)
  }

  /** The most selective search an operator can make for a recycled row: there is no criterion for the file sequence
      number. */
  function SearchFor(r: RecycledFile): Criteria {
    Criteria(Some(r.archiveFileId), Some(r.file.diskInstance), Some(r.position.vid), Some([r.file.diskFileId]),
             Some(r.copyNb))
  }

  /** No older row of the recycle log answers to the search for a row of this deletion. */
  ghost predicate Unambiguous(db: Database, request: DeleteRequest, now: nat)
    requires request.seen.Some? && request.archiveFileId in db.archiveFiles
  {
    forall c :: c in request.seen.value.copies ==> NoOlderMatch(db, request, now, c)
  }

  ghost predicate NoOlderMatch(db: Database, request: DeleteRequest, now: nat, c: CopySeen)
    requires request.archiveFileId in db.archiveFiles
  {
    forall r :: r in db.recycleLog ==> !Matches(SearchFor(RowOf(db, request, now, c)), r)
  }

  /** Restores the rows in turn and stops at the first refusal. */
  ghost function RestoreAll(db: Database, rows: seq<RecycledFile>, commands: seq<RestoreCommand>)
    : Result<Database, StepError>
    requires |rows| == |commands|
  {
    if commands == [] then Ok(db)
    else
      var n := |commands| - 1;
      match RestoreAll(db, rows[..n], commands[..n])
      case Err(e) => Err(e)
      case Ok(cur) => Restore(cur, SearchFor(rows[n]), commands[n].newFid, commands[n].now)
  }

  ghost function RowsInOrder(db: Database, request: DeleteRequest, now: nat,
                             commands: seq<RestoreCommand>): seq<RecycledFile>
    requires request.archiveFileId in db.archiveFiles
  {
    seq(|commands|, i requires 0 <= i < |commands| => RowOf(db, request, now, commands[i].copy))
  }

  /** The new disk file identifier is not used by another file of the disk instance. */
  ghost predicate FidFree(db: Database, id: uint64, newFid: string)
    requires id in db.archiveFiles
  {
    !DiskFileTaken(db.archiveFiles - {id}, db.archiveFiles[id].(diskFileId := newFid))
  }

  // ----- rows of a deletion do not depend on the order of the copies -----

  function CopyOf(r: RecycledFile): CopySeen { CopySeen(r.position, r.blockId, r.copyNb, r.tapeFileCreationTime) }

  lemma {:induction false} RowsOfCount(db: Database, request: DeleteRequest, now: nat, copies: seq<CopySeen>,
                                       r: RecycledFile)
    requires request.archiveFileId in db.archiveFiles
    ensures RowsOf(db, request, now, copies)[r] ==
            if r == RowOf(db, request, now, CopyOf(r)) then multiset(copies)[CopyOf(r)] else 0
  {
    if copies != [] {
      RowsOfCount(db, request, now, copies[..|copies| - 1], r);
      assert copies == copies[..|copies| - 1] + [copies[|copies| - 1]];
    }
  }

  lemma {:induction false} RowsOfPermutation(db: Database, request: DeleteRequest, now: nat, a: seq<CopySeen>,
                                             b: seq<CopySeen>)
    requires request.archiveFileId in db.archiveFiles && multiset(a) == multiset(b)
    ensures RowsOf(db, request, now, a) == RowsOf(db, request, now, b)
  {
    forall r ensures RowsOf(db, request, now, a)[r] == RowsOf(db, request, now, b)[r] {
      RowsOfCount(db, request, now, a, r);
      RowsOfCount(db, request, now, b, r);
    }
  }

  // ----- the commands -----

  /** The commands name every copy of the file, each once, in some order. */
  ghost predicate OrderOf(commands: seq<RestoreCommand>, copies: seq<CopySeen>) {
    multiset(CopiesOf(commands)) == multiset(copies)
  }

  ghost predicate Setting(db: Database, request: DeleteRequest, now: nat, commands: seq<RestoreCommand>) {
    && Consistent(db) && SeenAsIs(db, request) && OrderOf(commands, request.seen.value.copies)
    && MoveToRecycleLog(db, request, now).Ok?
  }

  /** What the proofs use of the setting: the commands list the live copies of the file with their numbers. */
  ghost predicate Commanded(db: Database, id: uint64, commands: seq<RestoreCommand>) {
    && id in db.archiveFiles
    && (forall i :: 0 <= i < |commands| ==> IsLiveCopy(db, id, commands[i].copy))
    && (forall i, j :: 0 <= i < j < |commands| ==>
                         commands[i].copy.position != commands[j].copy.position
                             && commands[i].copy.copyNb != commands[j].copy.copyNb)
    && (forall p :: LiveCopyOf(db, id, p) ==> Commands(commands, |commands|, p))
  }

  ghost predicate IsLiveCopy(db: Database, id: uint64, c: CopySeen) {
    LiveCopyOf(db, id, c.position) && CopyAsIs(db.tapeFiles[c.position], c)
  }

  ghost predicate Commands(commands: seq<RestoreCommand>, k: nat, p: Position)
    requires k <= |commands|
  {
    exists i :: 0 <= i < k && commands[i].copy.position == p
  }

  lemma {:induction false} CopiesOfMember(commands: seq<RestoreCommand>, copies: seq<CopySeen>)
    requires OrderOf(commands, copies)
    ensures |commands| == |copies|
    ensures forall i :: 0 <= i < |commands| ==> commands[i].copy in copies
    ensures forall c :: c in copies ==> exists i :: 0 <= i < |commands| && commands[i].copy == c
  {
    var order := CopiesOf(commands);
    assert |order| == |multiset(order)| && |copies| == |multiset(copies)|;
    forall i | 0 <= i < |commands| ensures commands[i].copy in copies {
      assert order[i] in multiset(order);
    }
    forall c | c in copies ensures exists i :: 0 <= i < |commands| && commands[i].copy == c {
      assert c in multiset(order);
      var i :| 0 <= i < |order| && order[i] == c;
      assert commands[i].copy == c;
    }
  }

  lemma {:induction false} RepeatedElement(s: seq<CopySeen>, i: nat, j: nat)
    requires i < j < |s| && s[i] == s[j]
    ensures multiset(s)[s[i]] >= 2
  {
    assert s == s[..j] + [s[j]] + s[j + 1..];
    assert s[i] in s[..j];
  }

  lemma {:induction false} SeenOnce(copies: seq<CopySeen>, c: CopySeen)
    requires forall i, j :: 0 <= i < j < |copies| ==> copies[i].position != copies[j].position
    ensures multiset(copies)[c] <= 1
  {
    if copies != [] {
      var front := copies[..|copies| - 1];
      SeenOnce(front, c);
      assert copies == front + [copies[|copies| - 1]];
      assert copies[|copies| - 1] !in front;
    }
  }

  lemma {:induction false} CommandsDistinct(db: Database, id: uint64, commands: seq<RestoreCommand>,
                                            copies: seq<CopySeen>, i: nat, j: nat)
    requires OrderOf(commands, copies) && i < j < |commands|
    requires forall a, b :: 0 <= a < b < |copies| ==> copies[a].position != copies[b].position
    requires IsLiveCopy(db, id, commands[i].copy) && IsLiveCopy(db, id, commands[j].copy)
    ensures commands[i].copy.position != commands[j].copy.position
  {
    var order := CopiesOf(commands);
    if commands[i].copy.position == commands[j].copy.position {
      assert order[i] == order[j];
      RepeatedElement(order, i, j);
      SeenOnce(copies, order[i]);
    }
  }

  lemma {:induction false} CommandsNumbered(db: Database, id: uint64, commands: seq<RestoreCommand>,
                                            copies: seq<CopySeen>)
    requires OneLiveCopy(db) && OrderOf(commands, copies)
    requires forall a, b :: 0 <= a < b < |copies| ==> copies[a].position != copies[b].position
    requires forall i :: 0 <= i < |commands| ==> IsLiveCopy(db, id, commands[i].copy)
    ensures forall i, j :: 0 <= i < j < |commands| ==>
                             commands[i].copy.position != commands[j].copy.position
                                 && commands[i].copy.copyNb != commands[j].copy.copyNb
  {
    forall i, j | 0 <= i < j < |commands|
      ensures commands[i].copy.position != commands[j].copy.position
      ensures commands[i].copy.copyNb != commands[j].copy.copyNb
    {
      assert IsLiveCopy(db, id, commands[i].copy) && IsLiveCopy(db, id, commands[j].copy);
      CommandsDistinct(db, id, commands, copies, i, j);
      var p, q := commands[i].copy.position, commands[j].copy.position;
      assert !SameCopy(db.tapeFiles[p], db.tapeFiles[q]);
    }
  }

  lemma {:induction false} SeenCommanded(db: Database, seen: FileSeen, commands: seq<RestoreCommand>)
    requires OneLiveCopy(db) && FileCurrent(db, seen) && OrderOf(commands, seen.copies)
    requires forall c :: c in seen.copies ==> CopyAsIs(db.tapeFiles[c.position], c)
    ensures Commanded(db, seen.archiveFileId, commands)
  {
    var id, copies := seen.archiveFileId, seen.copies;
    CopiesOfMember(commands, copies);
    forall i | 0 <= i < |commands| ensures IsLiveCopy(db, id, commands[i].copy) {
      var j :| 0 <= j < |copies| && copies[j] == commands[i].copy;
    }
    CommandsNumbered(db, id, commands, copies);
    forall p | LiveCopyOf(db, id, p) ensures Commands(commands, |commands|, p) {
      var j :| 0 <= j < |copies| && copies[j].position == p;
      assert copies[j] in copies;
      var i :| 0 <= i < |commands| && commands[i].copy == copies[j];
    }
  }

  // ----- the state after some of the restores -----

  /** TAPE_FILE after the first `k` commands. */
  ghost predicate CopiesBack(db: Database, id: uint64, commands: seq<RestoreCommand>, k: nat,
                             tapeFiles: map<Position, TapeFile>)
    requires k <= |commands|
  {
    && (forall p :: p in db.tapeFiles && !LiveCopyOf(db, id, p) ==> p in tapeFiles && tapeFiles[p] == db.tapeFiles[p])
    && (forall i :: 0 <= i < k ==> var p := commands[i].copy.position;
                                   p in db.tapeFiles && p in tapeFiles
                                   && tapeFiles[p] == db.tapeFiles[p].(creationTime := commands[i].now))
    && (forall p :: p in tapeFiles ==> p in db.tapeFiles && (LiveCopyOf(db, id, p) ==> Commands(commands, k, p)))
  }

  /** FILE_RECYCLE_LOG after the first `k` commands. */
  ghost predicate RowsGone(db: Database, request: DeleteRequest, now: nat, commands: seq<RestoreCommand>, k: nat,
                           log: multiset<RecycledFile>)
    requires k <= |commands|
  {
    log + RowsOf(db, request, now, CopiesOf(commands)[..k]) ==
    db.recycleLog + RowsOf(db, request, now, CopiesOf(commands))
  }

  /** ARCHIVE_FILE after the first `k` commands. */
  ghost function FilesBack(db: Database, request: DeleteRequest, now: nat, commands: seq<RestoreCommand>, k: nat)
    : map<uint64, ArchiveFile>
    requires k <= |commands| && request.archiveFileId in db.archiveFiles
  {
    if k == 0 then db.archiveFiles - {request.archiveFileId}
    else db.archiveFiles[request.archiveFileId := RestoredFile(RowOf(db, request, now, commands[0].copy),
                                                               commands[0].newFid,
                                                               commands[0].now)]
  }

  ghost predicate Partway(db: Database, request: DeleteRequest, now: nat, commands: seq<RestoreCommand>, k: nat,
                          cur: Database)
    requires k <= |commands| && request.archiveFileId in db.archiveFiles
  {
    var id := request.archiveFileId;
    && cur.tapes == SetDirty(db, id) && cur.storageClasses == db.storageClasses && cur.diskInstances == db.diskInstances
    && cur.archiveFiles == FilesBack(db, request, now, commands, k)
    && RowsGone(db, request, now, commands, k, cur.recycleLog)
    && CopiesBack(db, id, commands, k, cur.tapeFiles)
  }

  lemma {:induction false} PartwayStarts(db: Database, request: DeleteRequest, now: nat, commands: seq<RestoreCommand>)
    requires Setting(db, request, now, commands)
    ensures Partway(db, request, now, commands, 0, Moved(db, request, now))
  {
    RowsOfPermutation(db, request, now, request.seen.value.copies, CopiesOf(commands));
    assert CopiesOf(commands)[..0] == [];
    assert RowsOf(db, request, now, []) == multiset{};
  }

  /** How often the row of command `i` is in the log: once while it waits, not at all afterwards. */
  lemma {:induction false} RowCount(db: Database, request: DeleteRequest, now: nat, commands: seq<RestoreCommand>,
                                    k: nat, i: nat)
    requires Commanded(db, request.archiveFileId, commands) && k <= |commands| && i < |commands|
    ensures RowsOf(db, request, now, CopiesOf(commands)[..k])[RowOf(db, request, now, commands[i].copy)]
            == if i < k then 1 else 0
  {
    var order, r := CopiesOf(commands)[..k], RowOf(db, request, now, commands[i].copy);
    RowsOfCount(db, request, now, order, r);
    assert forall a, b :: 0 <= a < b < |order| ==> order[a].position != order[b].position;
    SeenOnce(order, commands[i].copy);
    if i < k {
      assert order[i] == commands[i].copy && order[i] in multiset(order);
    } else {
      assert commands[i].copy !in order;
    }
  }

  /** A row of the deletion belongs to one of the commands. */
  lemma {:induction false} RowHasCommand(db: Database, request: DeleteRequest, now: nat, commands: seq<RestoreCommand>,
                                         s: RecycledFile)
    requires request.archiveFileId in db.archiveFiles && s in RowsOf(db, request, now, CopiesOf(commands))
    ensures exists i :: 0 <= i < |commands| && s == RowOf(db, request, now, commands[i].copy)
  {
    var order := CopiesOf(commands);
    RowsOfCount(db, request, now, order, s);
    assert CopyOf(s) in multiset(order);
    var i :| 0 <= i < |order| && order[i] == CopyOf(s);
    assert commands[i].copy == CopyOf(s);
  }

  /** The next row to restore is in the log and the search for it finds nothing else. */
  lemma {:induction false} NextRowSelected(db: Database, request: DeleteRequest, now: nat,
                                           commands: seq<RestoreCommand>, k: nat, log: multiset<RecycledFile>)
    requires Commanded(db, request.archiveFileId, commands) && k < |commands|
    requires NoOlderMatch(db, request, now, commands[k].copy) && RowsGone(db, request, now, commands, k, log)
    ensures var r := RowOf(db, request, now, commands[k].copy); r in log && Selected(log, SearchFor(r)) == multiset{r}
  {
    var r, order := RowOf(db, request, now, commands[k].copy), CopiesOf(commands);
    assert order[..|commands|] == order;
    RowCount(db, request, now, commands, k, k);
    RowCount(db, request, now, commands, |commands|, k);
    assert Matches(SearchFor(r), r);
    assert r !in db.recycleLog;
    assert (log + RowsOf(db, request, now, order[..k]))[r] == (db.recycleLog + RowsOf(db, request, now, order))[r];
    assert log[r] == 1;
    forall s | s in log && Matches(SearchFor(r), s) ensures s == r {
      assert s !in db.recycleLog;
      assert s in log + RowsOf(db, request, now, order[..k]);
      assert s in RowsOf(db, request, now, order);
      RowHasCommand(db, request, now, commands, s);
    }
  }

  /** An older row of the recycle log that answers to the same search stands in the way. */
  lemma {:induction false} OlderMatchRefused(db: Database, request: DeleteRequest, now: nat,
                                             commands: seq<RestoreCommand>, k: nat, cur: Database, o: RecycledFile)
    requires Consistent(db) && Commanded(db, request.archiveFileId, commands) && k < |commands|
    requires cur.tapes.Keys == db.tapes.Keys && RowsGone(db, request, now, commands, k, cur.recycleLog)
    requires o in db.recycleLog && Matches(SearchFor(RowOf(db, request, now, commands[k].copy)), o)
    ensures Restore(cur, SearchFor(RowOf(db, request, now, commands[k].copy)), commands[k].newFid, commands[k].now)
         == Err(SeveralMatch)
  {
    var r := RowOf(db, request, now, commands[k].copy);
    NextRowWaits(db, request, now, commands, k, cur.recycleLog);
    OlderRowStays(db, request, now, commands, k, cur.recycleLog, o);
    assert Matches(SearchFor(r), r);
    TwoSelected(cur.recycleLog, SearchFor(r), o, r);
    assert IsLiveCopy(db, request.archiveFileId, commands[k].copy) && InRange(db, r.position);
  }

  lemma {:induction false} TwoSelected(log: multiset<RecycledFile>, c: Criteria, o: RecycledFile, r: RecycledFile)
    requires o in log && r in log && o != r && Matches(c, o) && Matches(c, r)
    ensures |Selected(log, c)| >= 2
  {
    var both := Selected(log, c);
    assert o in both && r in both;
    assert both == (both - multiset{o, r}) + multiset{o, r};
  }

  lemma {:induction false} NextRowWaits(db: Database, request: DeleteRequest, now: nat, commands: seq<RestoreCommand>,
                                        k: nat, log: multiset<RecycledFile>)
    requires Commanded(db, request.archiveFileId, commands) && k < |commands|
    requires RowsGone(db, request, now, commands, k, log)
    ensures RowOf(db, request, now, commands[k].copy) in log
  {
    var r, order := RowOf(db, request, now, commands[k].copy), CopiesOf(commands);
    assert order[..|commands|] == order;
    RowCount(db, request, now, commands, k, k);
    RowCount(db, request, now, commands, |commands|, k);
    assert (log + RowsOf(db, request, now, order[..k]))[r] == (db.recycleLog + RowsOf(db, request, now, order))[r];
  }

  /** Restoring rows of the deletion leaves older rows alone: their places are not those of live copies. */
  lemma {:induction false} OlderRowStays(db: Database, request: DeleteRequest, now: nat, commands: seq<RestoreCommand>,
                                         k: nat, log: multiset<RecycledFile>, o: RecycledFile)
    requires PlacesDistinct(db) && Commanded(db, request.archiveFileId, commands) && k < |commands|
    requires o in db.recycleLog && RowsGone(db, request, now, commands, k, log)
    ensures o in log && o != RowOf(db, request, now, commands[k].copy)
  {
    var order := CopiesOf(commands);
    OnlyRowAtPlace(db, o);
    forall i | 0 <= i < |commands| ensures order[i].position != o.position {
      assert IsLiveCopy(db, request.archiveFileId, commands[i].copy);
    }
    assert CopyOf(o) !in order[..k];
    RowsOfCount(db, request, now, order[..k], o);
    assert (log + RowsOf(db, request, now, order[..k]))[o] == (db.recycleLog + RowsOf(db, request, now, order))[o];
  }

  lemma {:induction false} SelectedRestore(db: Database, r: RecycledFile, newFid: string, now: nat)
    requires Selected(db.recycleLog, SearchFor(r)) == multiset{r} && r.position.vid in db.tapes
    ensures Restore(db, SearchFor(r), newFid, now) == RestoreRow(db, r, newFid, now)
  {
    assert TheRow(multiset{r}) in multiset{r};
  }

  /** The place, the block and the copy number of the next copy are free. */
  lemma {:induction false} CopyFits(db: Database, id: uint64, commands: seq<RestoreCommand>, k: nat,
                                    tapeFiles: map<Position, TapeFile>)
    requires Commanded(db, id, commands) && k < |commands| && CopiesBack(db, id, commands, k, tapeFiles)
    requires BlocksUnique(db)
    ensures var c := commands[k].copy;
            && c.position !in tapeFiles && !HasLiveCopyNb(tapeFiles, id, c.copyNb)
            && forall q :: q in tapeFiles && q.vid == c.position.vid ==> tapeFiles[q].blockId != c.blockId
  {
    var c := commands[k].copy;
    assert IsLiveCopy(db, id, c);
    forall q | q in tapeFiles
      ensures q != c.position && !(tapeFiles[q].archiveFileId == id && tapeFiles[q].copyNb == c.copyNb)
      ensures q.vid == c.position.vid ==> tapeFiles[q].blockId != c.blockId
    {
      if LiveCopyOf(db, id, q) {
        var i :| 0 <= i < k && commands[i].copy.position == q;
        assert IsLiveCopy(db, id, commands[i].copy);
      }
    }
  }

  lemma {:induction false} SameFidTaken(db: Database, id: uint64, file: ArchiveFile, newFid: string)
    requires id in db.archiveFiles && file.diskInstance == db.archiveFiles[id].diskInstance && file.diskFileId == newFid
    ensures DiskFileTaken(db.archiveFiles - {id}, file) <==> !FidFree(db, id, newFid)
  {
    var rows, other := db.archiveFiles - {id}, db.archiveFiles[id].(diskFileId := newFid);
    assert forall x :: x in rows ==> (SameDiskFile(rows[x], file) <==> SameDiskFile(rows[x], other));
  }

  lemma {:induction false} FirstRestoreAccepted(db: Database, request: DeleteRequest, now: nat,
                                                commands: seq<RestoreCommand>, cur: Database)
    requires Commanded(db, request.archiveFileId, commands) && 0 < |commands|
    requires Partway(db, request, now, commands, 0, cur)
    requires BlocksUnique(db) && CopyNumbersSet(db) && Known(db, db.archiveFiles[request.archiveFileId])
    requires PlacesInRange(db)
    ensures RestoreInsert(cur, RowOf(db, request, now, commands[0].copy), commands[0].newFid, commands[0].now).Ok? <==>
            FidFree(db, request.archiveFileId, commands[0].newFid)
  {
    var id, c := request.archiveFileId, commands[0].copy;
    var r := RowOf(db, request, now, c);
    assert IsLiveCopy(db, id, c) && InRange(db, c.position);
    CopyFits(db, id, commands, 0, cur.tapeFiles);
    assert !FoundById(cur, id);
    SameFidTaken(db, id, RestoredFile(r, commands[0].newFid, commands[0].now), commands[0].newFid);
  }

  lemma {:induction false} LaterRestoreAccepted(db: Database, request: DeleteRequest, now: nat,
                                                commands: seq<RestoreCommand>, k: nat, cur: Database)
    requires Commanded(db, request.archiveFileId, commands) && 0 < k < |commands|
    requires Partway(db, request, now, commands, k, cur)
    requires BlocksUnique(db) && CopyNumbersSet(db) && PlacesInRange(db)
    ensures RestoreInsert(cur, RowOf(db, request, now, commands[k].copy), commands[k].newFid, commands[k].now).Ok?
  {
    var id, c := request.archiveFileId, commands[k].copy;
    assert IsLiveCopy(db, id, c) && InRange(db, c.position);
    CopyFits(db, id, commands, k, cur.tapeFiles);
    FirstCopyBack(db, id, commands, k, cur.tapeFiles);
    assert FoundById(cur, id);
  }

  lemma {:induction false} FirstCopyBack(db: Database, id: uint64, commands: seq<RestoreCommand>, k: nat,
                                         tapeFiles: map<Position, TapeFile>)
    requires Commanded(db, id, commands) && 0 < k <= |commands| && CopiesBack(db, id, commands, k, tapeFiles)
    ensures exists p :: p in tapeFiles && tapeFiles[p].archiveFileId == id
  {
    var p := commands[0].copy.position;
    assert IsLiveCopy(db, id, commands[0].copy) && p in tapeFiles;
    assert tapeFiles[p] == db.tapeFiles[p].(creationTime := commands[0].now);
  }

  lemma {:induction false} NextLog(db: Database, request: DeleteRequest, now: nat, commands: seq<RestoreCommand>,
                                   k: nat, log: multiset<RecycledFile>)
    requires request.archiveFileId in db.archiveFiles && k < |commands| && RowsGone(db, request, now, commands, k, log)
    requires RowOf(db, request, now, commands[k].copy) in log
    ensures RowsGone(db, request, now, commands, k + 1, log - multiset{RowOf(db, request, now, commands[k].copy)})
  {
    var order, r := CopiesOf(commands), RowOf(db, request, now, commands[k].copy);
    assert order[..k + 1][..k] == order[..k] && order[..k + 1][k] == commands[k].copy;
    var done := RowsOf(db, request, now, order[..k]);
    assert RowsOf(db, request, now, order[..k + 1]) == done + multiset{r};
    assert log - multiset{r} + (done + multiset{r}) == log + done;
  }

  lemma {:induction false} NextCopies(db: Database, request: DeleteRequest, now: nat, commands: seq<RestoreCommand>,
                                      k: nat, tapeFiles: map<Position, TapeFile>)
    requires Commanded(db, request.archiveFileId, commands) && k < |commands| && LiveFilesExist(db)
    requires CopiesBack(db, request.archiveFileId, commands, k, tapeFiles)
    ensures var r := RowOf(db, request, now, commands[k].copy);
            CopiesBack(db, request.archiveFileId, commands, k + 1,
                       tapeFiles[r.position := RestoredCopy(r, commands[k].now)])
  {
    var id, r := request.archiveFileId, RowOf(db, request, now, commands[k].copy);
    assert IsLiveCopy(db, id, commands[k].copy);
    assert RestoredCopy(r, commands[k].now) == db.tapeFiles[r.position].(creationTime := commands[k].now);
    OneMoreCopyBack(db, id, commands, k, tapeFiles);
  }

  lemma {:induction false} OneMoreCopyBack(db: Database, id: uint64, commands: seq<RestoreCommand>, k: nat,
                                           tapeFiles: map<Position, TapeFile>)
    requires Commanded(db, id, commands) && k < |commands| && CopiesBack(db, id, commands, k, tapeFiles)
    requires commands[k].copy.position in db.tapeFiles
    ensures var p := commands[k].copy.position;
            CopiesBack(db, id, commands, k + 1, tapeFiles[p := db.tapeFiles[p].(creationTime := commands[k].now)])
  {
    var here := commands[k].copy.position;
    var after := tapeFiles[here := db.tapeFiles[here].(creationTime := commands[k].now)];
    assert IsLiveCopy(db, id, commands[k].copy);
    forall p | p in after && LiveCopyOf(db, id, p) ensures Commands(commands, k + 1, p) {
      if p != here { var i :| 0 <= i < k && commands[i].copy.position == p; }
      else { assert commands[k].copy.position == p; }
    }
  }

  lemma {:induction false} NextPartway(db: Database, request: DeleteRequest, now: nat, commands: seq<RestoreCommand>,
                                       k: nat, cur: Database)
    requires Commanded(db, request.archiveFileId, commands) && k < |commands|
    requires Partway(db, request, now, commands, k, cur)
    requires LiveFilesExist(db) && LiveFilesExist(cur) && PlacesDistinct(cur)
    requires RowOf(db, request, now, commands[k].copy) in cur.recycleLog
    requires RestoreRow(cur, RowOf(db, request, now, commands[k].copy), commands[k].newFid, commands[k].now).Ok?
    ensures Partway(db, request, now, commands, k + 1,
                    RestoreRow(cur, RowOf(db, request, now, commands[k].copy), commands[k].newFid,
                               commands[k].now).value)
  {
    var id, r := request.archiveFileId, RowOf(db, request, now, commands[k].copy);
    RestoreInsertEffect(cur, r, commands[k].newFid, commands[k].now);
    ForgetRemovesRow(cur, RestoreInsert(cur, r, commands[k].newFid, commands[k].now).value, r);
    NextLog(db, request, now, commands, k, cur.recycleLog);
    NextCopies(db, request, now, commands, k, cur.tapeFiles);
    NextFiles(db, request, now, commands, k, cur);
  }

  lemma {:induction false} NextFiles(db: Database, request: DeleteRequest, now: nat, commands: seq<RestoreCommand>,
                                     k: nat, cur: Database)
    requires Commanded(db, request.archiveFileId, commands) && k < |commands|
    requires Partway(db, request, now, commands, k, cur)
    ensures var id, r := request.archiveFileId, RowOf(db, request, now, commands[k].copy);
            (if FoundById(cur, id) then cur.archiveFiles
             else cur.archiveFiles[id := RestoredFile(r, commands[k].newFid, commands[k].now)])
            == FilesBack(db, request, now, commands, k + 1)
  {
    var id := request.archiveFileId;
    if k == 0 {
      var file := RestoredFile(RowOf(db, request, now, commands[0].copy), commands[0].newFid, commands[0].now);
      assert (db.archiveFiles - {id})[id := file] == db.archiveFiles[id := file];
    } else {
      FirstCopyBack(db, id, commands, k, cur.tapeFiles);
      assert FoundById(cur, id);
    }
  }

  /** The restore number `k` succeeds, unless it is the first and its disk file identifier is taken. */
  ghost predicate GoesOn(db: Database, request: DeleteRequest, now: nat, commands: seq<RestoreCommand>, k: nat,
                         r: Result<Database, StepError>)
    requires k < |commands| && request.archiveFileId in db.archiveFiles
  {
    && (r.Ok? <==> (k == 0 ==> FidFree(db, request.archiveFileId, commands[0].newFid)))
    && (r.Ok? ==> Consistent(r.value) && Partway(db, request, now, commands, k + 1, r.value))
  }

  /** One restore, whatever came before it. */
  lemma {:induction false} NextRestore(db: Database, request: DeleteRequest, now: nat, commands: seq<RestoreCommand>,
                                       k: nat, cur: Database)
    requires Consistent(db) && Consistent(cur) && Commanded(db, request.archiveFileId, commands)
    requires k < |commands| && Partway(db, request, now, commands, k, cur)
    ensures var r := Restore(cur, SearchFor(RowOf(db, request, now, commands[k].copy)), commands[k].newFid,
                             commands[k].now);
            if NoOlderMatch(db, request, now, commands[k].copy) then GoesOn(db, request, now, commands, k, r)
            else r.Err?
  {
    SetDirtyKeepsTapes(db, request.archiveFileId);
    SearchForNextRow(db, request, now, commands, k, cur);
    if NoOlderMatch(db, request, now, commands[k].copy) { NextRowRestored(db, request, now, commands, k, cur); }
  }

  lemma {:induction false} SetDirtyKeepsTapes(db: Database, id: uint64)
    ensures SetDirty(db, id).Keys == db.tapes.Keys
  {
  }

  lemma {:induction false} SearchForNextRow(db: Database, request: DeleteRequest, now: nat,
                                            commands: seq<RestoreCommand>, k: nat, cur: Database)
    requires Consistent(db) && Commanded(db, request.archiveFileId, commands) && k < |commands|
    requires cur.tapes.Keys == db.tapes.Keys && RowsGone(db, request, now, commands, k, cur.recycleLog)
    ensures var row, fid, at := RowOf(db, request, now, commands[k].copy), commands[k].newFid, commands[k].now;
            Restore(cur, SearchFor(row), fid, at) ==
            if NoOlderMatch(db, request, now, commands[k].copy) then RestoreRow(cur, row, fid, at)
            else Err(SeveralMatch)
  {
    var row := RowOf(db, request, now, commands[k].copy);
    if NoOlderMatch(db, request, now, commands[k].copy) {
      NextRowSelected(db, request, now, commands, k, cur.recycleLog);
      assert IsLiveCopy(db, request.archiveFileId, commands[k].copy) && InRange(db, row.position);
      SelectedRestore(cur, row, commands[k].newFid, commands[k].now);
    } else {
      var o :| o in db.recycleLog && Matches(SearchFor(row), o);
      OlderMatchRefused(db, request, now, commands, k, cur, o);
    }
  }

  lemma {:induction false} NextRowRestored(db: Database, request: DeleteRequest, now: nat,
                                           commands: seq<RestoreCommand>, k: nat, cur: Database)
    requires Consistent(db) && Consistent(cur) && Commanded(db, request.archiveFileId, commands)
    requires k < |commands| && Partway(db, request, now, commands, k, cur)
    requires NoOlderMatch(db, request, now, commands[k].copy)
    ensures GoesOn(db, request, now, commands, k,
                   RestoreRow(cur, RowOf(db, request, now, commands[k].copy), commands[k].newFid, commands[k].now))
  {
    var row := RowOf(db, request, now, commands[k].copy);
    NextRowSelected(db, request, now, commands, k, cur.recycleLog);
    if k == 0 {
      assert Known(db, db.archiveFiles[request.archiveFileId]);
      FirstRestoreAccepted(db, request, now, commands, cur);
    } else {
      LaterRestoreAccepted(db, request, now, commands, k, cur);
    }
    if RestoreRow(cur, row, commands[k].newFid, commands[k].now).Ok? {
      NextSizeFits(db, request, now, commands, k, cur);
      RestoreKeepsConsistencyIff(cur, row, commands[k].newFid, commands[k].now);
      NextPartway(db, request, now, commands, k, cur);
    }
  }

  lemma {:induction false} NextSizeFits(db: Database, request: DeleteRequest, now: nat, commands: seq<RestoreCommand>,
                                        k: nat, cur: Database)
    requires k < |commands| && request.archiveFileId in db.archiveFiles && Partway(db, request, now, commands, k, cur)
    ensures SizeFits(cur, RowOf(db, request, now, commands[k].copy))
  {
  }

  ghost predicate NoOlderMatches(db: Database, request: DeleteRequest, now: nat, commands: seq<RestoreCommand>, k: nat)
    requires k <= |commands| && request.archiveFileId in db.archiveFiles
  {
    k == 0 ||
    (NoOlderMatches(db, request, now, commands, k - 1) && NoOlderMatch(db, request, now, commands[k - 1].copy))
  }

  ghost predicate AfterRestores(db: Database, request: DeleteRequest, now: nat, commands: seq<RestoreCommand>, k: nat,
                                r: Result<Database, StepError>)
    requires k <= |commands| && request.archiveFileId in db.archiveFiles
  {
    && (r.Ok? <==> NoOlderMatches(db, request, now, commands, k)
                   && (k == 0 || FidFree(db, request.archiveFileId, commands[0].newFid)))
    && (r.Ok? ==> Consistent(r.value) && Partway(db, request, now, commands, k, r.value))
  }

  lemma {:induction false} RestoreAllStep(start: Database, rows: seq<RecycledFile>, commands: seq<RestoreCommand>,
                                          n: nat)
    requires |rows| == |commands| && n < |commands|
    ensures RestoreAll(start, rows[..n + 1], commands[..n + 1]) ==
            match RestoreAll(start, rows[..n], commands[..n])
            case Err(e) => Err(e)
            case Ok(cur) => Restore(cur, SearchFor(rows[n]), commands[n].newFid, commands[n].now)
  {
    assert rows[..n + 1][..n] == rows[..n] && commands[..n + 1][..n] == commands[..n];
  }

  lemma {:induction false} RestoresSucceed(db: Database, request: DeleteRequest, now: nat,
                                           commands: seq<RestoreCommand>, start: Database, k: nat)
    requires Consistent(db) && Commanded(db, request.archiveFileId, commands)
    requires k <= |commands| && Consistent(start) && Partway(db, request, now, commands, 0, start)
    ensures AfterRestores(db, request, now, commands, k,
                          RestoreAll(start, RowsInOrder(db, request, now, commands)[..k], commands[..k]))
  {
    if k > 0 {
      var n, rows := k - 1, RowsInOrder(db, request, now, commands);
      RestoresSucceed(db, request, now, commands, start, n);
      RestoreAllStep(start, rows, commands, n);
      assert rows[n] == RowOf(db, request, now, commands[n].copy);
      OneMoreRestored(db, request, now, commands, n, RestoreAll(start, rows[..n], commands[..n]));
    }
  }

  lemma {:induction false} OneMoreRestored(db: Database, request: DeleteRequest, now: nat,
                                           commands: seq<RestoreCommand>, n: nat, before: Result<Database, StepError>)
    requires Consistent(db) && Commanded(db, request.archiveFileId, commands)
    requires n < |commands| && AfterRestores(db, request, now, commands, n, before)
    ensures AfterRestores(db, request, now, commands, n + 1,
                          match before
                          case Err(e) => Err(e)
                          case Ok(cur) => Restore(cur, SearchFor(RowOf(db, request, now, commands[n].copy)),
                                                  commands[n].newFid,
                                                  commands[n].now))
  {
    if before.Ok? { NextRestore(db, request, now, commands, n, before.value); }
  }

  lemma {:induction false} EverythingBack(db: Database, id: uint64, commands: seq<RestoreCommand>,
                                          tapeFiles: map<Position, TapeFile>)
    requires Commanded(db, id, commands) && CopiesBack(db, id, commands, |commands|, tapeFiles)
    ensures tapeFiles.Keys == db.tapeFiles.Keys
    ensures tapeFiles == db.tapeFiles <==>
            forall i :: 0 <= i < |commands| ==> commands[i].now == commands[i].copy.creationTime
  {
    forall p | p in db.tapeFiles ensures p in tapeFiles {
      if LiveCopyOf(db, id, p) {
        var i :| 0 <= i < |commands| && commands[i].copy.position == p;
      }
    }
    if forall i :: 0 <= i < |commands| ==> commands[i].now == commands[i].copy.creationTime {
      forall p | p in db.tapeFiles ensures tapeFiles[p] == db.tapeFiles[p] {
        if LiveCopyOf(db, id, p) {
          var i :| 0 <= i < |commands| && commands[i].copy.position == p;
          assert IsLiveCopy(db, id, commands[i].copy);
        }
      }
    } else {
      var i :| 0 <= i < |commands| && commands[i].now != commands[i].copy.creationTime;
      assert IsLiveCopy(db, id, commands[i].copy);
      assert tapeFiles[commands[i].copy.position] != db.tapeFiles[commands[i].copy.position];
    }
  }

  /** The tables are as before the deletion, but for the disk file identifier and the times of the file and its
      copies. */
  ghost predicate BackAgain(db: Database, id: uint64, commands: seq<RestoreCommand>, after: Database)
    requires id in db.archiveFiles && commands != []
  {
    && after.recycleLog == db.recycleLog && DirtyMarked(db, id, after.tapes)
    && after.storageClasses == db.storageClasses && after.diskInstances == db.diskInstances
    && after.tapeFiles.Keys == db.tapeFiles.Keys && CopiesBack(db, id, commands, |commands|, after.tapeFiles)
    && (after.tapeFiles == db.tapeFiles <==>
        forall i :: 0 <= i < |commands| ==> commands[i].now == commands[i].copy.creationTime)
    && after.archiveFiles == db.archiveFiles[id := db.archiveFiles[id].(diskFileId := commands[0].newFid,
                                             creationTime := commands[0].now, reconciliationTime := commands[0].now)]
  }

  lemma {:induction false} PartwayEnds(db: Database, request: DeleteRequest, now: nat, commands: seq<RestoreCommand>,
                                       after: Database)
    requires Commanded(db, request.archiveFileId, commands) && commands != []
    requires Partway(db, request, now, commands, |commands|, after)
    ensures BackAgain(db, request.archiveFileId, commands, after)
  {
    EverythingBack(db, request.archiveFileId, commands, after.tapeFiles);
    MarksDirty(db, request.archiveFileId);
    LogBack(db, request, now, commands, after.recycleLog);
  }

  lemma {:induction false} NoOlderMatchesMeans(db: Database, request: DeleteRequest, now: nat,
                                               commands: seq<RestoreCommand>, k: nat)
    requires k <= |commands| && request.archiveFileId in db.archiveFiles
    ensures NoOlderMatches(db, request, now, commands, k) <==>
            forall i :: 0 <= i < k ==> NoOlderMatch(db, request, now, commands[i].copy)
  {
    if k > 0 { NoOlderMatchesMeans(db, request, now, commands, k - 1); }
  }

  lemma {:induction false} UnambiguousInAnyOrder(db: Database, request: DeleteRequest, now: nat,
                                                 commands: seq<RestoreCommand>)
    requires SeenAsIs(db, request) && OrderOf(commands, request.seen.value.copies)
    ensures Unambiguous(db, request, now) <==> NoOlderMatches(db, request, now, commands, |commands|)
  {
    CopiesOfMember(commands, request.seen.value.copies);
    NoOlderMatchesMeans(db, request, now, commands, |commands|);
  }

  /** Deleting a file and restoring its copies in any order brings it back: the same copies and the same recycle log,
      with the disk file identifier of the first restore and, because the code does not keep them, new creation times.
      It succeeds exactly when that identifier is free and no older row of the recycle log answers to one of the
      searches. */
  lemma {:induction false} DeleteThenRestore(db: Database, request: DeleteRequest, now: nat,
                                             commands: seq<RestoreCommand>)
    requires Setting(db, request, now, commands)
    ensures commands != []
    ensures var r := RestoreAll(Moved(db, request, now), RowsInOrder(db, request, now, commands), commands);
            && (r.Ok? <==> FidFree(db, request.archiveFileId, commands[0].newFid) && Unambiguous(db, request, now))
            && (r.Ok? ==> BackAgain(db, request.archiveFileId, commands, r.value))
  {
    AllRestored(db, request, now, commands);
    UnambiguousInAnyOrder(db, request, now, commands);
    var r := RestoreAll(Moved(db, request, now), RowsInOrder(db, request, now, commands), commands);
    if r.Ok? { PartwayEnds(db, request, now, commands, r.value); }
  }

  lemma {:induction false} MovedAsSeen(db: Database, request: DeleteRequest, now: nat)
    requires Consistent(db) && SeenAsIs(db, request) && MoveToRecycleLog(db, request, now).Ok?
    ensures Consistent(Moved(db, request, now))
  {
    FileCurrentSeenExactly(db, request.seen.value);
    SeenExactlyFits(db, request);
    MoveKeepsConsistencyIff(db, request, now);
  }

  lemma {:induction false} AllRestored(db: Database, request: DeleteRequest, now: nat, commands: seq<RestoreCommand>)
    requires Setting(db, request, now, commands)
    ensures commands != [] && Commanded(db, request.archiveFileId, commands)
    ensures AfterRestores(db, request, now, commands, |commands|,
                          RestoreAll(Moved(db, request, now), RowsInOrder(db, request, now, commands), commands))
  {
    var n, start := |commands|, Moved(db, request, now);
    SeenCommanded(db, request.seen.value, commands);
    CopiesOfMember(commands, request.seen.value.copies);
    MovedAsSeen(db, request, now);
    PartwayStarts(db, request, now, commands);
    RestoresSucceed(db, request, now, commands, start, n);
    var rows := RowsInOrder(db, request, now, commands);
    assert rows[..n] == rows && commands[..n] == commands;
  }

  lemma {:induction false} LogBack(db: Database, request: DeleteRequest, now: nat, commands: seq<RestoreCommand>,
                                   log: multiset<RecycledFile>)
    requires RowsGone(db, request, now, commands, |commands|, log)
    ensures log == db.recycleLog
  {
    var order := CopiesOf(commands);
    assert order[..|commands|] == order;
    var all := RowsOf(db, request, now, order);
    assert log + all - all == log && db.recycleLog + all - all == db.recycleLog;
  }
}
