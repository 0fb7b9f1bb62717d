/** Deleting, restoring, purging and reclaiming: what each conserves and when it keeps the invariant. */
module Steps {
  import opened Tables
  import opened TapeWrite
  import opened WriteTheorems
  import opened LifeCycle
  import opened Consistency

  // ----- marking tapes -----

  /** TAPE after a deletion: the tapes that hold a live copy of the file are dirty, nothing else changes. */
  ghost predicate DirtyMarked(db: Database, id: uint64, tapes: map<string, Tape>) {
    && tapes.Keys == db.tapes.Keys
    && forall v :: v in db.tapes ==>
                     tapes[v] == db.tapes[v].(dirty := db.tapes[v].dirty || CopyOnTape(db, id, v))
  }

  ghost predicate CopyOnTape(db: Database, id: uint64, vid: string) {
    exists p :: p in db.tapeFiles && p.vid == vid && db.tapeFiles[p].archiveFileId == id
  }

  lemma {:induction false} MarksDirty(db: Database, id: uint64)
    ensures DirtyMarked(db, id, SetDirty(db, id))
  {
  }

  // ----- deleting with what the caller saw -----

  lemma {:induction false} SeenRowsAt(archiveFiles: map<uint64, ArchiveFile>, id: uint64, copies: seq<CopySeen>,
                                      path: string, reason: string, now: nat, p: Position)
    ensures |LogAt(RecycleAllSeen(archiveFiles, id, copies, path, reason, now), p)| ==
            if id in archiveFiles then PlacesSeen(copies)[p] else 0
  {
    var rows := RecycleAllSeen(archiveFiles, id, copies, path, reason, now);
    if copies == [] || id !in archiveFiles {
      LogAtNone(rows, p);
    } else {
      var last := RecycleSeen(copies[|copies| - 1], id, archiveFiles[id], path, reason, now);
      var front := RecycleAllSeen(archiveFiles, id, copies[..|copies| - 1], path, reason, now);
      SeenRowsAt(archiveFiles, id, copies[..|copies| - 1], path, reason, now, p);
      LogAtUnion(front, multiset{last}, p);
      LogAtSingle(last, p);
      assert rows == front + multiset{last};
    }
  }

  lemma {:induction false} LogAtSingle(r: RecycledFile, p: Position)
    ensures |LogAt(multiset{r}, p)| == if r.position == p then 1 else 0
  {
    if r.position == p {
      assert LogAt(multiset{r}, p) == multiset{r};
    } else {
      LogAtNone(multiset{r}, p);
    }
  }

  lemma {:induction false} PlacesSeenAt(copies: seq<CopySeen>, p: Position)
    ensures PlacesSeen(copies)[p] > 0 <==> Sees(copies, p)
  {
    if copies != [] {
      var front := copies[..|copies| - 1];
      PlacesSeenAt(front, p);
      if Sees(front, p) {
        var i :| 0 <= i < |front| && front[i].position == p;
        assert copies[i].position == p;
      }
      if Sees(copies, p) && copies[|copies| - 1].position != p {
        var i :| 0 <= i < |copies| && copies[i].position == p;
        assert front[i].position == p;
      }
    }
  }

  lemma {:induction false} PlacesSeenOnce(copies: seq<CopySeen>, p: Position)
    requires forall i, j :: 0 <= i < j < |copies| ==> copies[i].position != copies[j].position
    ensures PlacesSeen(copies)[p] <= 1
  {
    if copies != [] {
      PlacesSeenOnce(copies[..|copies| - 1], p);
      PlacesSeenAt(copies[..|copies| - 1], p);
    }
  }

  ghost function Moved(db: Database, request: DeleteRequest, now: nat): Database
    requires MoveToRecycleLog(db, request, now).Ok?
  {
    MoveToRecycleLog(db, request, now).value
  }

  /** The caller saw every live copy of the file, each once, and nothing else. */
  ghost predicate SeenExactly(db: Database, id: uint64, copies: seq<CopySeen>) {
    forall p :: PlacesSeen(copies)[p] == if LiveCopyOf(db, id, p) then 1 else 0
  }

  /** How many rows a deletion logs for the place `p`: none at all when the file seen is gone. */
  ghost function LoggedAt(db: Database, seen: FileSeen, p: Position): nat {
    if seen.archiveFileId in db.archiveFiles then PlacesSeen(seen.copies)[p] else 0
  }

  lemma {:induction false} CopiesAfterMove(db: Database, request: DeleteRequest, now: nat, p: Position)
    requires request.seen.Some? && MoveToRecycleLog(db, request, now).Ok?
    ensures CopiesAt(Moved(db, request, now), p) ==
            CopiesAt(db, p) + LoggedAt(db, request.seen.value, p)
            - if LiveCopyOf(db, request.archiveFileId, p) then 1 else 0
  {
    var seen, reason := request.seen.value, DeletionReason(request.requester, request.diskInstance);
    SeenRowsAt(db.archiveFiles, seen.archiveFileId, seen.copies, request.diskFilePath, reason, now, p);
    LogAtUnion(db.recycleLog,
               RecycleAllSeen(db.archiveFiles, seen.archiveFileId, seen.copies, request.diskFilePath, reason, now), p);
  }

  /** Moving a file to the recycle log loses and duplicates nothing exactly when the caller saw its live copies or, if
      the file seen is gone since, when there are none left. */
  lemma {:induction false} MoveConservesIffSeenExactly(db: Database, request: DeleteRequest, now: nat)
    requires request.seen.Some? && MoveToRecycleLog(db, request, now).Ok?
    ensures (forall p :: CopiesAt(Moved(db, request, now), p) == CopiesAt(db, p)) <==>
            if request.seen.value.archiveFileId in db.archiveFiles
            then SeenExactly(db, request.archiveFileId, request.seen.value.copies)
            else forall p :: !LiveCopyOf(db, request.archiveFileId, p)
  {
    forall p ensures CopiesAt(Moved(db, request, now), p) == CopiesAt(db, p) <==>
                     LoggedAt(db, request.seen.value, p) == if LiveCopyOf(db, request.archiveFileId, p) then 1 else 0
    {
      CopiesAfterMove(db, request, now, p);
    }
  }

  /** A copy written after the caller looked, or any copy when the file seen is gone, is deleted without a trace. */
  lemma {:induction false} UnseenCopyIsLost(db: Database, request: DeleteRequest, now: nat, p: Position)
    requires Consistent(db) && request.seen.Some? && MoveToRecycleLog(db, request, now).Ok?
    requires LiveCopyOf(db, request.archiveFileId, p)
    requires !Sees(request.seen.value.copies, p) || request.seen.value.archiveFileId !in db.archiveFiles
    ensures CopiesAt(Moved(db, request, now), p) == 0
  {
    CopiesAfterMove(db, request, now, p);
    PlacesSeenAt(request.seen.value.copies, p);
    assert CopiesAt(db, p) <= 1;
  }

  ghost function Dropped(db: Database, seen: FileSeen, reason: string, now: nat): Database
    requires DeleteCopies(db, seen, reason, now).Ok?
  {
    DeleteCopies(db, seen, reason, now).value
  }

  lemma {:induction false} CopiesAfterDrop(db: Database, seen: FileSeen, reason: string, now: nat, p: Position)
    requires DeleteCopies(db, seen, reason, now).Ok?
    ensures CopiesAt(Dropped(db, seen, reason, now), p) ==
            CopiesAt(db, p) + LoggedAt(db, seen, p) - if p in db.tapeFiles && Sees(seen.copies, p) then 1 else 0
  {
    var why := "(Deleted using cta-admin tf rm) " + reason;
    var added := RecycleAllSeen(db.archiveFiles, seen.archiveFileId, seen.copies, seen.diskFilePath, why, now);
    SeenRowsAt(db.archiveFiles, seen.archiveFileId, seen.copies, seen.diskFilePath, why, now, p);
    LogAtUnion(db.recycleLog, added, p);
  }

  /** Deleting single copies conserves exactly when each copy seen is still live and was listed once or, if the file
      seen is gone since, when no place seen is live. */
  lemma {:induction false} DropConservesIffLive(db: Database, seen: FileSeen, reason: string, now: nat)
    requires DeleteCopies(db, seen, reason, now).Ok?
    ensures (forall p :: CopiesAt(Dropped(db, seen, reason, now), p) == CopiesAt(db, p)) <==>
            if seen.archiveFileId in db.archiveFiles
            then forall p :: Sees(seen.copies, p) ==> p in db.tapeFiles && PlacesSeen(seen.copies)[p] == 1
            else forall p :: Sees(seen.copies, p) ==> p !in db.tapeFiles
  {
    forall p ensures CopiesAt(Dropped(db, seen, reason, now), p) == CopiesAt(db, p) <==>
                     LoggedAt(db, seen, p) == if p in db.tapeFiles && Sees(seen.copies, p) then 1 else 0
    {
      CopiesAfterDrop(db, seen, reason, now, p);
    }
    forall p ensures PlacesSeen(seen.copies)[p] > 0 <==> Sees(seen.copies, p) { PlacesSeenAt(seen.copies, p); }
  }

  lemma {:induction false} SeenRowsAre(archiveFiles: map<uint64, ArchiveFile>, id: uint64, copies: seq<CopySeen>,
                                       path: string, reason: string, now: nat, r: RecycledFile)
    requires r in RecycleAllSeen(archiveFiles, id, copies, path, reason, now)
    ensures id in archiveFiles && Sees(copies, r.position) && r.archiveFileId == id && r.file == archiveFiles[id]
  {
    var front, last := copies[..|copies| - 1], copies[|copies| - 1];
    if r in RecycleAllSeen(archiveFiles, id, front, path, reason, now) {
      SeenRowsAre(archiveFiles, id, front, path, reason, now, r);
      var i :| 0 <= i < |front| && front[i].position == r.position;
      assert copies[i].position == r.position;
    }
  }

  lemma {:induction false} SeenPlaceHasRow(archiveFiles: map<uint64, ArchiveFile>, id: uint64, copies: seq<CopySeen>,
                                           path: string, reason: string, now: nat, p: Position)
    returns (r: RecycledFile)
    requires id in archiveFiles && Sees(copies, p)
    ensures r in RecycleAllSeen(archiveFiles, id, copies, path, reason, now) && r.position == p
  {
    var rows := RecycleAllSeen(archiveFiles, id, copies, path, reason, now);
    PlacesSeenAt(copies, p);
    SeenRowsAt(archiveFiles, id, copies, path, reason, now, p);
    r :| r in LogAt(rows, p);
  }

  // ----- the invariant when rows are recycled -----

  /** The tables besides TAPE after copies were recycled with the rows `added`. */
  ghost predicate RecycledFrom(db: Database, after: Database, added: multiset<RecycledFile>) {
    && after.recycleLog == db.recycleLog + added
    && (forall r :: r in added ==> r.archiveFileId in db.archiveFiles && r.file == db.archiveFiles[r.archiveFileId])
    && (forall p :: p in after.tapeFiles ==> p in db.tapeFiles && after.tapeFiles[p] == db.tapeFiles[p])
    && (forall id :: id in after.archiveFiles ==>
                       id in db.archiveFiles && after.archiveFiles[id] == db.archiveFiles[id])
    && (forall p :: p in after.tapeFiles ==> after.tapeFiles[p].archiveFileId in after.archiveFiles)
    && after.tapes.Keys == db.tapes.Keys
    && (forall v :: v in db.tapes ==> after.tapes[v].lastFSeq == db.tapes[v].lastFSeq)
    && after.storageClasses == db.storageClasses && after.diskInstances == db.diskInstances
  }

  lemma {:induction false} RecyclingKeepsLogSizes(db: Database, after: Database, added: multiset<RecycledFile>)
    requires LogSizesAgree(db) && RecycledFrom(db, after, added)
    ensures LogSizesAgree(after)
  {
    forall r | r in after.recycleLog && r.archiveFileId in db.archiveFiles
      ensures r.file.size == db.archiveFiles[r.archiveFileId].size
    {
      assert r in db.recycleLog || r in added;
    }
    forall r, s | r in after.recycleLog && s in after.recycleLog && r.archiveFileId == s.archiveFileId
      ensures r.file.size == s.file.size
    {
      assert (r in db.recycleLog || r in added) && (s in db.recycleLog || s in added);
    }
  }

  lemma {:induction false} RecyclingKeepsOthers(db: Database, after: Database, added: multiset<RecycledFile>)
    requires Consistent(db) && RecycledFrom(db, after, added)
    ensures OneLiveCopy(after) && LiveFilesExist(after) && DiskFilesUnique(after) && BlocksUnique(after)
    ensures CopyNumbersSet(after) && ReferencesKnown(after)
  {
    forall p, q | p in after.tapeFiles && q in after.tapeFiles && SameCopy(after.tapeFiles[p], after.tapeFiles[q])
      ensures p == q
    {
      assert SameCopy(db.tapeFiles[p], db.tapeFiles[q]);
    }
    assert forall f :: Known(db, f) ==> Known(after, f);
    forall r | r in after.recycleLog ensures Known(after, r.file) { assert r in db.recycleLog || r in added; }
  }

  /** Recycling keeps the invariant exactly when the rows it adds name places of the tape that no other row
      describes. */
  lemma {:induction false} RecyclingKeepsConsistencyIff(db: Database, after: Database, added: multiset<RecycledFile>)
    requires Consistent(db) && RecycledFrom(db, after, added)
    ensures Consistent(after) <==> PlacesDistinct(after) && forall r :: r in added ==> InRange(db, r.position)
  {
    RecyclingKeepsOthers(db, after, added);
    assert forall p :: InRange(db, p) <==> InRange(after, p);
    forall r ensures r in after.recycleLog <==> r in db.recycleLog || r in added { }
  }

  /** What a caller can check before a deletion that would log `copies` while `gone` are deleted: each place seen is on
      its tape, is listed once, and is either deleted now or described by no row. */
  ghost predicate PlacesFit(db: Database, copies: seq<CopySeen>, gone: set<Position>) {
    forall p :: Sees(copies, p) ==> PlaceFits(db, copies, gone, p)
  }

  ghost predicate PlaceFits(db: Database, copies: seq<CopySeen>, gone: set<Position>, p: Position) {
    InRange(db, p) && PlacesSeen(copies)[p] == 1 && (p in gone || CopiesAt(db, p) == 0)
  }

  ghost predicate CountsFit(db: Database, copies: seq<CopySeen>, gone: set<Position>) {
    forall p :: Sees(copies, p) ==> PlacesSeen(copies)[p] == 1 && (p in gone || CopiesAt(db, p) == 0)
  }

  /** Counting only: the places stay distinct exactly when each place seen fits, its range aside. */
  lemma {:induction false} DistinctIffFits(db: Database, after: Database, copies: seq<CopySeen>, gone: set<Position>)
    requires PlacesDistinct(db) && gone <= db.tapeFiles.Keys
    requires forall p :: CopiesAt(after, p) == CopiesAt(db, p) + PlacesSeen(copies)[p] - if p in gone then 1 else 0
    ensures PlacesDistinct(after) <==> CountsFit(db, copies, gone)
  {
    forall p ensures CopiesAt(after, p) <= 1 <==>
                     (Sees(copies, p) ==> PlacesSeen(copies)[p] == 1 && (p in gone || CopiesAt(db, p) == 0))
    {
      PlacesSeenAt(copies, p);
      assert CopiesAt(db, p) <= 1;
      assert p in gone ==> CopiesAt(db, p) >= 1;
    }
  }

  ghost predicate MoveFits(db: Database, request: DeleteRequest) {
    request.seen.Some? && request.seen.value.archiveFileId in db.archiveFiles ==>
      PlacesFit(db, request.seen.value.copies, set p | p in db.tapeFiles && LiveCopyOf(db, request.archiveFileId, p))
  }

  ghost function RowsOfMove(db: Database, request: DeleteRequest, now: nat): multiset<RecycledFile>
    requires request.seen.Some?
  {
    RecycleAllSeen(db.archiveFiles, request.seen.value.archiveFileId, request.seen.value.copies, request.diskFilePath,
                   DeletionReason(request.requester, request.diskInstance), now)
  }

  lemma {:induction false} MoveRecycles(db: Database, request: DeleteRequest, now: nat)
    requires LiveFilesExist(db) && request.seen.Some? && MoveToRecycleLog(db, request, now).Ok?
    ensures RecycledFrom(db, Moved(db, request, now), RowsOfMove(db, request, now))
  {
    var seen, reason := request.seen.value, DeletionReason(request.requester, request.diskInstance);
    forall r | r in RowsOfMove(db, request, now)
      ensures r.archiveFileId in db.archiveFiles && r.file == db.archiveFiles[r.archiveFileId]
    {
      SeenRowsAre(db.archiveFiles, seen.archiveFileId, seen.copies, request.diskFilePath, reason, now, r);
    }
  }

  lemma {:induction false} RowsOfMoveInRange(db: Database, request: DeleteRequest, now: nat)
    requires request.seen.Some?
    ensures (forall r :: r in RowsOfMove(db, request, now) ==> InRange(db, r.position)) <==>
            (request.seen.value.archiveFileId in db.archiveFiles ==>
               forall p :: Sees(request.seen.value.copies, p) ==> InRange(db, p))
  {
    var seen, reason := request.seen.value, DeletionReason(request.requester, request.diskInstance);
    forall r | r in RowsOfMove(db, request, now)
      ensures seen.archiveFileId in db.archiveFiles && Sees(seen.copies, r.position)
    {
      SeenRowsAre(db.archiveFiles, seen.archiveFileId, seen.copies, request.diskFilePath, reason, now, r);
    }
    if seen.archiveFileId in db.archiveFiles {
      forall p | Sees(seen.copies, p) ensures exists r :: r in RowsOfMove(db, request, now) && r.position == p {
        var r := SeenPlaceHasRow(db.archiveFiles, seen.archiveFileId, seen.copies, request.diskFilePath, reason, now,
                                 p);
      }
    }
  }

  /** Moving a file to the recycle log keeps the invariant if and only if the places seen fit. */
  lemma {:induction false} MoveKeepsConsistencyIff(db: Database, request: DeleteRequest, now: nat)
    requires Consistent(db) && MoveToRecycleLog(db, request, now).Ok?
    ensures Consistent(Moved(db, request, now)) <==> MoveFits(db, request)
  {
    if request.seen.Some? {
      var seen, after := request.seen.value, Moved(db, request, now);
      var gone := set p | p in db.tapeFiles && LiveCopyOf(db, request.archiveFileId, p);
      MoveRecycles(db, request, now);
      RecyclingKeepsConsistencyIff(db, after, RowsOfMove(db, request, now));
      RowsOfMoveInRange(db, request, now);
      MovedPlacesDistinctIff(db, request, now, gone);
      FitsInParts(db, seen.copies, gone);
    }
  }

  lemma {:induction false} MovedPlacesDistinctIff(db: Database, request: DeleteRequest, now: nat, gone: set<Position>)
    requires PlacesDistinct(db) && request.seen.Some? && MoveToRecycleLog(db, request, now).Ok?
    requires gone == set p | p in db.tapeFiles && LiveCopyOf(db, request.archiveFileId, p)
    ensures PlacesDistinct(Moved(db, request, now)) <==>
            (request.seen.value.archiveFileId in db.archiveFiles ==> CountsFit(db, request.seen.value.copies, gone))
  {
    var seen, after := request.seen.value, Moved(db, request, now);
    forall p { CopiesAfterMove(db, request, now, p); }
    if seen.archiveFileId in db.archiveFiles {
      DistinctIffFits(db, after, seen.copies, gone);
    } else {
      forall p ensures CopiesAt(after, p) <= 1 { assert CopiesAt(db, p) <= 1; }
    }
  }

  lemma {:induction false} FitsInParts(db: Database, copies: seq<CopySeen>, gone: set<Position>)
    ensures PlacesFit(db, copies, gone) <==>
            (forall p :: Sees(copies, p) ==> InRange(db, p)) && CountsFit(db, copies, gone)
  {
    forall p | Sees(copies, p)
      ensures PlaceFits(db, copies, gone, p) <==>
              InRange(db, p) && PlacesSeen(copies)[p] == 1 && (p in gone || CopiesAt(db, p) == 0) { }
  }

  ghost predicate DropFits(db: Database, seen: FileSeen) {
    seen.archiveFileId in db.archiveFiles ==>
      PlacesFit(db, seen.copies, set p | p in db.tapeFiles && Sees(seen.copies, p))
  }

  ghost function RowsOfDrop(db: Database, seen: FileSeen, reason: string, now: nat): multiset<RecycledFile> {
    RecycleAllSeen(db.archiveFiles, seen.archiveFileId, seen.copies, seen.diskFilePath,
                   "(Deleted using cta-admin tf rm) " + reason, now)
  }

  lemma {:induction false} DropRecycles(db: Database, seen: FileSeen, reason: string, now: nat)
    requires LiveFilesExist(db) && DeleteCopies(db, seen, reason, now).Ok?
    ensures RecycledFrom(db, Dropped(db, seen, reason, now), RowsOfDrop(db, seen, reason, now))
  {
    var why := "(Deleted using cta-admin tf rm) " + reason;
    forall r | r in RowsOfDrop(db, seen, reason, now)
      ensures r.archiveFileId in db.archiveFiles && r.file == db.archiveFiles[r.archiveFileId]
    {
      SeenRowsAre(db.archiveFiles, seen.archiveFileId, seen.copies, seen.diskFilePath, why, now, r);
    }
  }

  lemma {:induction false} RowsOfDropInRange(db: Database, seen: FileSeen, reason: string, now: nat)
    ensures (forall r :: r in RowsOfDrop(db, seen, reason, now) ==> InRange(db, r.position)) <==>
            (seen.archiveFileId in db.archiveFiles ==> forall p :: Sees(seen.copies, p) ==> InRange(db, p))
  {
    var why := "(Deleted using cta-admin tf rm) " + reason;
    forall r | r in RowsOfDrop(db, seen, reason, now)
      ensures seen.archiveFileId in db.archiveFiles && Sees(seen.copies, r.position)
    {
      SeenRowsAre(db.archiveFiles, seen.archiveFileId, seen.copies, seen.diskFilePath, why, now, r);
    }
    if seen.archiveFileId in db.archiveFiles {
      forall p | Sees(seen.copies, p) ensures exists r :: r in RowsOfDrop(db, seen, reason, now) && r.position == p {
        var r := SeenPlaceHasRow(db.archiveFiles, seen.archiveFileId, seen.copies, seen.diskFilePath, why, now, p);
      }
    }
  }

  /** Deleting single copies keeps the invariant if and only if the places seen fit. */
  lemma {:induction false} DropKeepsConsistencyIff(db: Database, seen: FileSeen, reason: string, now: nat)
    requires Consistent(db) && DeleteCopies(db, seen, reason, now).Ok?
    ensures Consistent(Dropped(db, seen, reason, now)) <==> DropFits(db, seen)
  {
    var after, gone := Dropped(db, seen, reason, now), set p | p in db.tapeFiles && Sees(seen.copies, p);
    DropRecycles(db, seen, reason, now);
    RecyclingKeepsConsistencyIff(db, after, RowsOfDrop(db, seen, reason, now));
    RowsOfDropInRange(db, seen, reason, now);
    DroppedPlacesDistinctIff(db, seen, reason, now, gone);
    FitsInParts(db, seen.copies, gone);
  }

  lemma {:induction false} DroppedPlacesDistinctIff(db: Database, seen: FileSeen, reason: string, now: nat,
                                                    gone: set<Position>)
    requires PlacesDistinct(db) && DeleteCopies(db, seen, reason, now).Ok?
    requires gone == set p | p in db.tapeFiles && Sees(seen.copies, p)
    ensures PlacesDistinct(Dropped(db, seen, reason, now)) <==>
            (seen.archiveFileId in db.archiveFiles ==> CountsFit(db, seen.copies, gone))
  {
    var after := Dropped(db, seen, reason, now);
    forall p { CopiesAfterDrop(db, seen, reason, now, p); }
    if seen.archiveFileId in db.archiveFiles {
      DistinctIffFits(db, after, seen.copies, gone);
    } else {
      forall p ensures CopiesAt(after, p) <= 1 { assert CopiesAt(db, p) <= 1; }
    }
  }

  lemma {:induction false} MoveKeepsLogSizes(db: Database, request: DeleteRequest, now: nat)
    requires LiveFilesExist(db) && LogSizesAgree(db) && MoveToRecycleLog(db, request, now).Ok?
    ensures LogSizesAgree(Moved(db, request, now))
  {
    if request.seen.Some? {
      MoveRecycles(db, request, now);
      RecyclingKeepsLogSizes(db, Moved(db, request, now), RowsOfMove(db, request, now));
    }
  }

  lemma {:induction false} DropKeepsLogSizes(db: Database, seen: FileSeen, reason: string, now: nat)
    requires LiveFilesExist(db) && LogSizesAgree(db) && DeleteCopies(db, seen, reason, now).Ok?
    ensures LogSizesAgree(Dropped(db, seen, reason, now))
  {
    DropRecycles(db, seen, reason, now);
    RecyclingKeepsLogSizes(db, Dropped(db, seen, reason, now), RowsOfDrop(db, seen, reason, now));
  }

  /** The caller saw the file as it is: its live copies, each once. */
  lemma {:induction false} SeenExactlyFits(db: Database, request: DeleteRequest)
    requires PlacesInRange(db) && request.seen.Some?
    requires SeenExactly(db, request.archiveFileId, request.seen.value.copies)
    ensures MoveFits(db, request)
  {
    var copies := request.seen.value.copies;
    var gone := set p | p in db.tapeFiles && LiveCopyOf(db, request.archiveFileId, p);
    forall p | Sees(copies, p) ensures PlaceFits(db, copies, gone, p) { PlacesSeenAt(copies, p); }
  }

  /** Deleting with a view from before an earlier deletion logs a recycled copy a second time. */
  lemma {:induction false} StaleDeletionDuplicates(db: Database, request: DeleteRequest, now: nat, o: RecycledFile)
    requires Consistent(db) && request.seen.Some? && MoveToRecycleLog(db, request, now).Ok?
    requires request.seen.value.archiveFileId in db.archiveFiles
    requires o in db.recycleLog && Sees(request.seen.value.copies, o.position)
    ensures CopiesAt(Moved(db, request, now), o.position) >= 2 && !Consistent(Moved(db, request, now))
  {
    OnlyRowAtPlace(db, o);
    CopiesAfterMove(db, request, now, o.position);
    PlacesSeenAt(request.seen.value.copies, o.position);
  }

  /** A run that does it: copies are dropped, and then the file is deleted with a view from before. */
  lemma {:induction false} DropThenStaleMove(db: Database, seen: FileSeen, reason: string, request: DeleteRequest,
                                             now: nat, p: Position)
    requires Consistent(db) && DeleteCopies(db, seen, reason, now).Ok? && DropFits(db, seen)
    requires seen.archiveFileId in db.archiveFiles && Sees(seen.copies, p)
    requires request.seen.Some? && request.seen.value.archiveFileId in db.archiveFiles
    requires Sees(request.seen.value.copies, p) && MoveToRecycleLog(Dropped(db, seen, reason, now), request, now).Ok?
    ensures Consistent(Dropped(db, seen, reason, now))
    ensures !Consistent(Moved(Dropped(db, seen, reason, now), request, now))
  {
    DropKeepsConsistencyIff(db, seen, reason, now);
    var o := SeenPlaceHasRow(db.archiveFiles, seen.archiveFileId, seen.copies, seen.diskFilePath,
                             "(Deleted using cta-admin tf rm) " + reason, now, p);
    assert o in RowsOfDrop(db, seen, reason, now);
    StaleDeletionDuplicates(Dropped(db, seen, reason, now), request, now, o);
  }

  // ----- restoring -----

  /** In consistent tables a recycled row is alone at its place. */
  lemma {:induction false} OnlyRowAtPlace(db: Database, r: RecycledFile)
    requires PlacesDistinct(db) && r in db.recycleLog
    ensures r.position !in db.tapeFiles && LogAt(db.recycleLog, r.position) == multiset{r} && db.recycleLog[r] == 1
    ensures forall s :: s in db.recycleLog && s.position == r.position ==> s == r
  {
    var here := LogAt(db.recycleLog, r.position);
    assert CopiesAt(db, r.position) <= 1 && r in here;
    assert |here - multiset{r}| == |here| - 1;
    assert here == multiset{r} + (here - multiset{r});
    forall s | s in db.recycleLog && s.position == r.position ensures s == r { assert s in here; }
  }

  /** What a successful first half did: perhaps the archive file came back, the copy is live, nothing was superseded. */
  lemma {:induction false} RestoreInsertEffect(db: Database, r: RecycledFile, newFid: string, now: nat)
    requires LiveFilesExist(db) && RestoreInsert(db, r, newFid, now).Ok?
    ensures var mid := RestoreInsert(db, r, newFid, now).value;
            && mid == db.(archiveFiles := mid.archiveFiles,
                          tapeFiles := db.tapeFiles[r.position := RestoredCopy(r, now)])
            && mid.archiveFiles == (if FoundById(db, r.archiveFileId) then db.archiveFiles
                                    else db.archiveFiles[r.archiveFileId := RestoredFile(r, newFid, now)])
            && (!FoundById(db, r.archiveFileId) ==>
                  r.archiveFileId !in db.archiveFiles && !DiskFileTaken(db.archiveFiles, RestoredFile(r, newFid, now)))
            && !HasLiveCopyNb(db.tapeFiles, r.archiveFileId, r.copyNb)
            && (forall q :: q in db.tapeFiles && q.vid == r.position.vid ==> db.tapeFiles[q].blockId != r.blockId)
            && r.position !in db.tapeFiles
  {
    var db1 := if FoundById(db, r.archiveFileId) then db else RestoreArchiveFile(db, r, newFid, now).value;
    var t := RestoredCopy(r, now);
    var olds := set q | q in db1.tapeFiles && q != r.position && db1.tapeFiles[q].archiveFileId == t.archiveFileId
                        && db1.tapeFiles[q].copyNb == t.copyNb;
    assert !HasLiveCopyNb(db.tapeFiles, r.archiveFileId, r.copyNb);
    assert olds == {};
    assert RepackRows(db1.tapeFiles, db1.archiveFiles, olds, now) == {};
    assert db1.recycleLog + multiset{} == db1.recycleLog;
    assert db1.tapeFiles[r.position := t] - {} == db1.tapeFiles[r.position := t];
  }

  /** `insertTapeFile` commits by itself: if the connection goes before the row is deleted, the copy is both live and
      recycled. */
  lemma {:induction false} InterruptedRestoreDuplicates(db: Database, r: RecycledFile, newFid: string, now: nat)
    requires Consistent(db) && r in db.recycleLog && RestoreInsert(db, r, newFid, now).Ok?
    ensures var mid := RestoreInsert(db, r, newFid, now).value; CopiesAt(mid, r.position) == 2 && !Consistent(mid)
  {
    var mid := RestoreInsert(db, r, newFid, now).value;
    RestoreInsertEffect(db, r, newFid, now);
    OnlyRowAtPlace(db, r);
    assert CopiesAt(mid, r.position) == 2;
  }

  lemma {:induction false} ForgetRemovesRow(db: Database, mid: Database, r: RecycledFile)
    requires PlacesDistinct(db) && r in db.recycleLog && mid.recycleLog == db.recycleLog
    ensures RestoreForget(mid, r).recycleLog == db.recycleLog - multiset{r}
  {
    OnlyRowAtPlace(db, r);
  }

  lemma {:induction false} LogWithoutRowAt(db: Database, r: RecycledFile, p: Position)
    requires PlacesDistinct(db) && r in db.recycleLog
    ensures LogAt(db.recycleLog - multiset{r}, p) == if p == r.position then multiset{} else LogAt(db.recycleLog, p)
  {
    OnlyRowAtPlace(db, r);
    LogAtUnion(db.recycleLog - multiset{r}, multiset{r}, p);
    assert db.recycleLog - multiset{r} + multiset{r} == db.recycleLog;
    if p == r.position {
      LogAtNone(db.recycleLog - multiset{r}, p);
    } else {
      LogAtNone(multiset{r}, p);
    }
  }

  lemma {:induction false} RestoreConserves(db: Database, r: RecycledFile, newFid: string, now: nat, p: Position)
    requires Consistent(db) && r in db.recycleLog && RestoreRow(db, r, newFid, now).Ok?
    ensures CopiesAt(RestoreRow(db, r, newFid, now).value, p) == CopiesAt(db, p)
    ensures RestoreRow(db, r, newFid, now).value.recycleLog == db.recycleLog - multiset{r}
  {
    RestoreInsertEffect(db, r, newFid, now);
    ForgetRemovesRow(db, RestoreInsert(db, r, newFid, now).value, r);
    LogWithoutRowAt(db, r, p);
    OnlyRowAtPlace(db, r);
  }

  /** What a caller can check before restoring the row `r`: a file that is still there has the size recorded in the
      row. */
  ghost predicate SizeFits(db: Database, r: RecycledFile) {
    FoundById(db, r.archiveFileId) ==> r.file.size == db.archiveFiles[r.archiveFileId].size
  }

  /** A restore keeps the invariant if and only if the size fits. */
  lemma {:induction false} RestoreKeepsConsistencyIff(db: Database, r: RecycledFile, newFid: string, now: nat)
    requires Consistent(db) && r in db.recycleLog && RestoreRow(db, r, newFid, now).Ok?
    ensures Consistent(RestoreRow(db, r, newFid, now).value) <==> SizeFits(db, r)
  {
    var after := RestoreRow(db, r, newFid, now).value;
    RestoreKeepsPlaces(db, after, r, newFid, now);
    RestoreKeepsCopies(db, after, r, newFid, now);
    RestoreKeepsDiskFiles(db, after, r, newFid, now);
    RestoreKeepsLiveFilesIff(db, after, r, newFid, now);
  }

  lemma {:induction false} RestoreKeepsPlaces(db: Database, after: Database, r: RecycledFile, newFid: string, now: nat)
    requires Consistent(db) && r in db.recycleLog && RestoreRow(db, r, newFid, now) == Ok(after)
    ensures PlacesDistinct(after) && PlacesInRange(after) && ReferencesKnown(after)
  {
    RestoreInsertEffect(db, r, newFid, now);
    forall p ensures CopiesAt(after, p) <= 1 {
      RestoreConserves(db, r, newFid, now, p);
      assert CopiesAt(db, p) <= 1;
    }
    assert forall s :: s in after.recycleLog ==> s in db.recycleLog;
    assert forall p :: InRange(db, p) <==> InRange(after, p);
    assert forall f :: Known(db, f) <==> Known(after, f);
  }

  /** A live copy more, on a free block and with a copy number its file does not have yet. */
  lemma {:induction false} AddedCopyFits(db: Database, after: Database, p: Position, t: TapeFile)
    requires OneLiveCopy(db) && BlocksUnique(db) && CopyNumbersSet(db) && after.tapeFiles == db.tapeFiles[p := t]
    requires p !in db.tapeFiles && t.copyNb > 0 && !HasLiveCopyNb(db.tapeFiles, t.archiveFileId, t.copyNb)
    requires forall q :: q in db.tapeFiles && q.vid == p.vid ==> db.tapeFiles[q].blockId != t.blockId
    ensures OneLiveCopy(after) && BlocksUnique(after) && CopyNumbersSet(after)
  {
    forall a, b | a in after.tapeFiles && b in after.tapeFiles && SameCopy(after.tapeFiles[a], after.tapeFiles[b])
      ensures a == b
    {
      if a != p && b != p { assert SameCopy(db.tapeFiles[a], db.tapeFiles[b]); }
    }
  }

  lemma {:induction false} RestoreKeepsCopies(db: Database, after: Database, r: RecycledFile, newFid: string, now: nat)
    requires Consistent(db) && r in db.recycleLog && RestoreRow(db, r, newFid, now) == Ok(after)
    ensures OneLiveCopy(after) && BlocksUnique(after) && CopyNumbersSet(after)
  {
    RestoreInsertEffect(db, r, newFid, now);
    AddedCopyFits(db, after, r.position, RestoredCopy(r, now));
  }

  lemma {:induction false} RestoreKeepsLiveFilesIff(db: Database, after: Database, r: RecycledFile, newFid: string,
                                                    now: nat)
    requires Consistent(db) && r in db.recycleLog && RestoreRow(db, r, newFid, now) == Ok(after)
    ensures LiveFilesExist(after) <==> SizeFits(db, r)
  {
    RestoreInsertEffect(db, r, newFid, now);
    assert after.tapeFiles[r.position] == RestoredCopy(r, now);
  }

  lemma {:induction false} RestoreKeepsDiskFiles(db: Database, after: Database, r: RecycledFile, newFid: string,
                                                 now: nat)
    requires Consistent(db) && r in db.recycleLog && RestoreRow(db, r, newFid, now) == Ok(after)
    ensures DiskFilesUnique(after)
  {
    RestoreInsertEffect(db, r, newFid, now);
    var file := RestoredFile(r, newFid, now);
    if !FoundById(db, r.archiveFileId) {
      forall id | id in db.archiveFiles
        ensures !SameDiskFile(db.archiveFiles[id], file) && !SameDiskFile(file, db.archiveFiles[id]) {}
    }
  }

  /** Neither half of a restore makes recycled sizes disagree. */
  lemma {:induction false} RestoreKeepsLogSizes(db: Database, r: RecycledFile, newFid: string, now: nat)
    requires LiveFilesExist(db) && LogSizesAgree(db) && r in db.recycleLog && RestoreInsert(db, r, newFid, now).Ok?
    ensures var mid := RestoreInsert(db, r, newFid, now).value;
            LogSizesAgree(mid) && LogSizesAgree(RestoreForget(mid, r))
  {
    RestoreInsertEffect(db, r, newFid, now);
    var mid := RestoreInsert(db, r, newFid, now).value;
    assert forall s :: s in RestoreForget(mid, r).recycleLog ==> s in mid.recycleLog;
  }

  // ----- purging and reclaiming -----

  lemma {:induction false} ShorterLogAt(a: multiset<RecycledFile>, b: multiset<RecycledFile>, p: Position)
    requires a <= b
    ensures |LogAt(a, p)| <= |LogAt(b, p)|
  {
    LogAtUnion(a, b - a, p);
    assert a + (b - a) == b;
  }

  /** Only recycle log rows went and TAPE changed, with every remaining row still in range. */
  lemma {:induction false} ShorterLogKeepsConsistency(db: Database, after: Database)
    requires Consistent(db) && after == db.(tapes := after.tapes, recycleLog := after.recycleLog)
    requires after.recycleLog <= db.recycleLog && PlacesInRange(after)
    ensures Consistent(after) && (LogSizesAgree(db) ==> LogSizesAgree(after))
  {
    assert forall r :: r in after.recycleLog ==> r in db.recycleLog;
    assert forall f :: Known(db, f) <==> Known(after, f);
    forall p ensures CopiesAt(after, p) <= 1 {
      assert CopiesAt(db, p) <= 1;
      ShorterLogAt(after.recycleLog, db.recycleLog, p);
    }
  }

  lemma {:induction false} PurgeKeepsConsistency(db: Database, vid: string)
    requires Consistent(db)
    ensures Consistent(Purge(db, vid)) && (LogSizesAgree(db) ==> LogSizesAgree(Purge(db, vid)))
  {
    var after := Purge(db, vid);
    assert after.recycleLog <= db.recycleLog;
    assert forall r :: r in after.recycleLog ==> r in db.recycleLog;
    assert forall p :: InRange(db, p) <==> InRange(after, p);
    ShorterLogKeepsConsistency(db, after);
  }

  lemma {:induction false} ReclaimKeepsConsistency(db: Database, vid: string)
    requires Consistent(db) && Reclaim(db, vid).Ok?
    ensures var after := Reclaim(db, vid).value; Consistent(after) && (LogSizesAgree(db) ==> LogSizesAgree(after))
  {
    var after := Reclaim(db, vid).value;
    assert after.recycleLog <= db.recycleLog;
    assert forall r :: r in after.recycleLog ==> r in db.recycleLog && r.position.vid != vid;
    assert forall p :: InRange(db, p) && p.vid != vid ==> InRange(after, p);
    ShorterLogKeepsConsistency(db, after);
  }

  /** A reclaim broken off after the purge leaves consistent tables, and repeating it finishes the work. */
  lemma {:induction false} InterruptedReclaimRepeats(db: Database, vid: string)
    requires Consistent(db) && Reclaim(db, vid).Ok?
    ensures Consistent(Purge(db, vid)) && Reclaim(Purge(db, vid), vid) == Reclaim(db, vid)
  {
    PurgeKeepsConsistency(db, vid);
    assert Purge(Purge(db, vid), vid).recycleLog == Purge(db, vid).recycleLog;
  }
}
