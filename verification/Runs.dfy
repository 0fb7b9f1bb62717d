/** Runs of all steps, failing and interrupted ones included. */
module Runs {
  import opened Tables
  import opened TapeWrite
  import opened WriteSpec
  import opened WriteTheorems
  import opened LifeCycle
  import opened Consistency
  import opened Steps

  datatype Step =
    | WriteFiles(items: seq<TapeItem>, now: nat)
    | MoveFile(request: DeleteRequest, now: nat)
    | DropCopies(seen: FileSeen, reason: string, now: nat)
    | RestoreFile(criteria: Criteria, newFid: string, now: nat)
    | InterruptedRestore(criteria: Criteria, newFid: string, now: nat)
    | PurgeTape(vid: string)
    | ReclaimTape(vid: string)
    | InterruptedReclaim(vid: string)

  ghost function OrSame(db: Database, r: Result<Database, StepError>): Database {
    if r.Ok? then r.value else db
  }

  /** The tables after a step; a step that fails was rolled back. */
  ghost function Apply(db: Database, step: Step): Database {
    match step
    case WriteFiles(items, now) =>
      (match PostgresWrite(db, items, now)
       case Committed(after) => after
       case Failed(_) => db)
    case MoveFile(request, now) => OrSame(db, MoveToRecycleLog(db, request, now))
    case DropCopies(seen, reason, now) => OrSame(db, DeleteCopies(db, seen, reason, now))
    case RestoreFile(criteria, newFid, now) => OrSame(db, Restore(db, criteria, newFid, now))
    case InterruptedRestore(criteria, newFid, now) => OrSame(db, RestoreHalf(db, criteria, newFid, now))
    case PurgeTape(vid) => Purge(db, vid)
    case ReclaimTape(vid) => OrSame(db, Reclaim(db, vid))
    case InterruptedReclaim(vid) => if Reclaim(db, vid).Ok? then Purge(db, vid) else db
  }

  /** Exactly the steps that keep the invariant. Writing, purging and reclaiming always do; a deletion that goes through
      does when the places the caller saw fit; a restore that goes through does when the size of the file fits, and
      never when it is broken off half way. */
  ghost predicate Fits(db: Database, step: Step) {
    match step
    case MoveFile(request, now) => MoveToRecycleLog(db, request, now).Ok? ==> MoveFits(db, request)
    case DropCopies(seen, reason, now) => DeleteCopies(db, seen, reason, now).Ok? ==> DropFits(db, seen)
    case RestoreFile(criteria, newFid, now) =>
      Restore(db, criteria, newFid, now).Ok? ==> SizeFits(db, Find(db, criteria).value)
    case InterruptedRestore(criteria, newFid, now) => RestoreHalf(db, criteria, newFid, now).Err?
    case _ => true
  }

  lemma {:induction false} FoundInLog(db: Database, c: Criteria)
    ensures Find(db, c).Ok? ==> Find(db, c).value in db.recycleLog
  {
    if Find(db, c).Ok? { assert TheRow(Selected(db.recycleLog, c)) in Selected(db.recycleLog, c); }
  }

  /** A step keeps the invariant if and only if it fits. */
  lemma {:induction false} StepKeepsConsistencyIff(db: Database, step: Step)
    requires Consistent(db)
    ensures Consistent(Apply(db, step)) <==> Fits(db, step)
  {
    match step
    case WriteFiles(items, now) =>
      PostgresMeetsReference(db, items, now);
      if Accepts(db, items) { WriteKeepsConsistency(db, items, now); }
    case MoveFile(request, now) =>
      if MoveToRecycleLog(db, request, now).Ok? { MoveKeepsConsistencyIff(db, request, now); }
    case DropCopies(seen, reason, now) =>
      if DeleteCopies(db, seen, reason, now).Ok? { DropKeepsConsistencyIff(db, seen, reason, now); }
    case RestoreFile(criteria, newFid, now) =>
      FoundInLog(db, criteria);
      if Restore(db, criteria, newFid, now).Ok? {
        RestoreKeepsConsistencyIff(db, Find(db, criteria).value, newFid, now);
      }
    case InterruptedRestore(criteria, newFid, now) =>
      FoundInLog(db, criteria);
      if RestoreHalf(db, criteria, newFid, now).Ok? {
        InterruptedRestoreDuplicates(db, Find(db, criteria).value, newFid, now);
      }
    case PurgeTape(vid) => PurgeKeepsConsistency(db, vid);
    case ReclaimTape(vid) => if Reclaim(db, vid).Ok? { ReclaimKeepsConsistency(db, vid); }
    case InterruptedReclaim(vid) => PurgeKeepsConsistency(db, vid);
  }

  ghost function Run(db: Database, steps: seq<Step>): Database {
    if steps == [] then db else Apply(Run(db, steps[..|steps| - 1]), steps[|steps| - 1])
  }

  ghost predicate AlwaysConsistent(db: Database, steps: seq<Step>) {
    forall i :: 0 <= i <= |steps| ==> Consistent(Run(db, steps[..i]))
  }

  ghost predicate AllFit(db: Database, steps: seq<Step>) {
    forall i :: 0 <= i < |steps| ==> Fits(Run(db, steps[..i]), steps[i])
  }

  lemma {:induction false} RunPrefix(db: Database, steps: seq<Step>, i: nat)
    requires i < |steps|
    ensures Run(db, steps[..i + 1]) == Apply(Run(db, steps[..i]), steps[i])
  {
    assert steps[..i + 1][..i] == steps[..i];
  }

  /** The tables are consistent throughout a run if and only if every step of it fits where it is taken. */
  lemma {:induction false} RunKeepsConsistencyIff(db: Database, steps: seq<Step>)
    requires Consistent(db)
    ensures AlwaysConsistent(db, steps) <==> AllFit(db, steps)
  {
    if AlwaysConsistent(db, steps) {
      forall i | 0 <= i < |steps| ensures Fits(Run(db, steps[..i]), steps[i]) {
        RunPrefix(db, steps, i);
        StepKeepsConsistencyIff(Run(db, steps[..i]), steps[i]);
        assert Consistent(Run(db, steps[..i])) && Consistent(Run(db, steps[..i + 1]));
      }
    }
    if AllFit(db, steps) {
      forall i | 0 <= i <= |steps| ensures Consistent(Run(db, steps[..i])) { FittingRunIsConsistent(db, steps, i); }
    }
  }

  lemma {:induction false} FittingRunIsConsistent(db: Database, steps: seq<Step>, i: nat)
    requires Consistent(db) && AllFit(db, steps) && i <= |steps|
    ensures Consistent(Run(db, steps[..i]))
  {
    if i == 0 {
      assert steps[..0] == [];
    } else {
      FittingRunIsConsistent(db, steps, i - 1);
      RunPrefix(db, steps, i - 1);
      StepKeepsConsistencyIff(Run(db, steps[..i - 1]), steps[i - 1]);
    }
  }

  // ----- sizes -----

  /** The recycled sizes go on agreeing unless a batch commits that reuses an identifier for a file of another size. */
  ghost predicate SizesFit(db: Database, step: Step) {
    step.WriteFiles? && Accepts(db, step.items) ==> NoSizeReuse(db, step.items)
  }

  lemma {:induction false} StepKeepsLogSizesIff(db: Database, step: Step)
    requires Consistent(db) && LogSizesAgree(db)
    ensures LogSizesAgree(Apply(db, step)) <==> SizesFit(db, step)
  {
    match step
    case WriteFiles(items, now) =>
      PostgresMeetsReference(db, items, now);
      if Accepts(db, items) { WriteKeepsLogSizesIff(db, items, now); }
    case MoveFile(request, now) =>
      if MoveToRecycleLog(db, request, now).Ok? { MoveKeepsLogSizes(db, request, now); }
    case DropCopies(seen, reason, now) =>
      if DeleteCopies(db, seen, reason, now).Ok? { DropKeepsLogSizes(db, seen, reason, now); }
    case RestoreFile(criteria, newFid, now) =>
      FoundInLog(db, criteria);
      if Restore(db, criteria, newFid, now).Ok? { RestoreKeepsLogSizes(db, Find(db, criteria).value, newFid, now); }
    case InterruptedRestore(criteria, newFid, now) =>
      FoundInLog(db, criteria);
      if RestoreHalf(db, criteria, newFid, now).Ok? { RestoreKeepsLogSizes(db, Find(db, criteria).value, newFid, now); }
    case _ => PurgingKeepsLogSizes(db, step);
  }

  lemma {:induction false} PurgingKeepsLogSizes(db: Database, step: Step)
    requires Consistent(db) && LogSizesAgree(db) && (step.PurgeTape? || step.ReclaimTape? || step.InterruptedReclaim?)
    ensures LogSizesAgree(Apply(db, step))
  {
    PurgeKeepsConsistency(db, step.vid);
    if Reclaim(db, step.vid).Ok? { ReclaimKeepsConsistency(db, step.vid); }
  }

  /** While the recycled sizes agree every restore fits: the size check made when files are written is what makes the
      restored sizes right. */
  lemma {:induction false} AgreeingSizesFit(db: Database, c: Criteria, newFid: string, now: nat)
    requires LogSizesAgree(db)
    ensures Fits(db, RestoreFile(c, newFid, now))
  {
    FoundInLog(db, c);
  }

  ghost predicate Settled(db: Database) {
    Consistent(db) && LogSizesAgree(db)
  }

  /** A step that reuses no identifier for another size and, unless it is a restore, fits. */
  ghost predicate CarefulAt(db: Database, step: Step) {
    SizesFit(db, step) && (!step.RestoreFile? ==> Fits(db, step))
  }

  ghost predicate Careful(db: Database, steps: seq<Step>) {
    steps == [] ||
    (Careful(db, steps[..|steps| - 1]) && CarefulAt(Run(db, steps[..|steps| - 1]), steps[|steps| - 1]))
  }

  /** In a run of such steps nothing has to be asked of restores: they all fit. */
  lemma {:induction false} CarefulRunIsConsistent(db: Database, steps: seq<Step>)
    requires Settled(db) && Careful(db, steps)
    ensures Settled(Run(db, steps))
  {
    if steps != [] {
      CarefulRunIsConsistent(db, steps[..|steps| - 1]);
      CarefulStep(Run(db, steps[..|steps| - 1]), steps[|steps| - 1]);
    }
  }

  lemma {:induction false} CarefulStep(db: Database, step: Step)
    requires Settled(db) && CarefulAt(db, step)
    ensures Settled(Apply(db, step))
  {
    if step.RestoreFile? { AgreeingSizesFit(db, step.criteria, step.newFid, step.now); }
    StepKeepsConsistencyIff(db, step);
    StepKeepsLogSizesIff(db, step);
  }

  /** A deleted file `r` and a new file `f` that reuses its identifier with another size, next to it on the tape. */
  ghost predicate Reuse(tape: Tape, r: RecycledFile, f: FileEvent) {
    && tape.lastFSeq == 1 && r.position == Position(f.vid, 1) && f.fSeq == 2 && FileFieldsSet(f)
    && ItemFieldsSet(FileWritten(f)) && f.archiveFileId == r.archiveFileId && f.size != r.file.size
    && f.copyNb != r.copyNb && r.copyNb > 0 && f.blockId != r.blockId
  }

  ghost function OneDeletedFile(tape: Tape, r: RecycledFile, f: FileEvent): Database {
    Database(map[f.vid := tape], map[], map[], multiset{r}, {f.storageClass, r.file.storageClass},
             {f.diskInstance, r.file.diskInstance})
  }

  lemma {:induction false} OneDeletedFileConsistent(tape: Tape, r: RecycledFile, f: FileEvent)
    requires Reuse(tape, r, f)
    ensures Consistent(OneDeletedFile(tape, r, f)) && Accepts(OneDeletedFile(tape, r, f), [FileWritten(f)])
  {
    var db, items := OneDeletedFile(tape, r, f), [FileWritten(f)];
    forall p ensures CopiesAt(db, p) <= 1 { LogAtSingle(r, p); }
    assert items[..0] == [];
    assert FilesOf(items) == [f];
  }

  /** A restore that breaks the invariant: the identifier was reused for a file of another size, which every back end
      accepts, and the old copy is restored into the new file. */
  lemma {:induction false} ReusedIdentifierBreaksSizes(tape: Tape, r: RecycledFile, f: FileEvent, newFid: string,
                                                       now: nat)
    returns (mid: Database, after: Database)
    requires Reuse(tape, r, f)
    ensures Consistent(OneDeletedFile(tape, r, f)) && Consistent(mid) && !Consistent(after)
    ensures PostgresWrite(OneDeletedFile(tape, r, f), [FileWritten(f)], now) == Committed(mid)
    ensures Restore(mid, Criteria(None, None, None, None, None), newFid, now) == Ok(after)
    ensures r.position in after.tapeFiles && r.archiveFileId in after.archiveFiles
    ensures after.tapeFiles[r.position].size != after.archiveFiles[r.archiveFileId].size
  {
    var db, items, c := OneDeletedFile(tape, r, f), [FileWritten(f)], Criteria(None, None, None, None, None);
    OneDeletedFileConsistent(tape, r, f);
    PostgresMeetsReference(db, items, now);
    WriteKeepsConsistency(db, items, now);
    mid := Written(db, items, now);
    AfterReuse(tape, r, f, now);
    OneMatch(mid, c, r);
    FoundRestore(mid, c, r, newFid, now);
    after := RestoreIntoReused(mid, r, f, newFid, now);
  }

  lemma {:induction false} FoundRestore(db: Database, c: Criteria, r: RecycledFile, newFid: string, now: nat)
    requires Find(db, c) == Ok(r)
    ensures Restore(db, c, newFid, now) == RestoreRow(db, r, newFid, now)
  {
  }

  lemma {:induction false} OneMatch(db: Database, c: Criteria, r: RecycledFile)
    requires Selected(db.recycleLog, c) == multiset{r} && (c.vid.Some? ==> c.vid.value in db.tapes)
    ensures Find(db, c) == Ok(r)
  {
    assert TheRow(multiset{r}) in multiset{r};
  }

  lemma {:induction false} RestoreIntoReused(mid: Database, r: RecycledFile, f: FileEvent, newFid: string, now: nat)
    returns (after: Database)
    requires Consistent(mid) && r in mid.recycleLog && mid.tapeFiles == map[f.Pos() := TapeFileOf(f, now)]
    requires mid.archiveFiles == map[f.archiveFileId := ArchiveFileOf(f, now)] && f.vid in mid.tapes
    requires r.position == Position(f.vid, 1) && f.fSeq == 2 && f.archiveFileId == r.archiveFileId
    requires f.size != r.file.size && f.copyNb != r.copyNb && r.copyNb > 0 && f.blockId != r.blockId
    ensures RestoreRow(mid, r, newFid, now) == Ok(after) && !Consistent(after)
    ensures r.position in after.tapeFiles && r.archiveFileId in after.archiveFiles
    ensures after.tapeFiles[r.position].size != after.archiveFiles[r.archiveFileId].size
  {
    assert LiveCopyOf(mid, r.archiveFileId, f.Pos()) && FoundById(mid, r.archiveFileId);
    RestoreGoesThrough(mid, r, newFid, now);
    after := RestoreRow(mid, r, newFid, now).value;
    RestoreInsertEffect(mid, r, newFid, now);
    RestoreKeepsConsistencyIff(mid, r, newFid, now);
  }

  lemma {:induction false} AfterReuse(tape: Tape, r: RecycledFile, f: FileEvent, now: nat)
    requires Reuse(tape, r, f)
    ensures var db := OneDeletedFile(tape, r, f); Accepts(db, [FileWritten(f)])
    ensures var db := OneDeletedFile(tape, r, f); var mid := Written(db, [FileWritten(f)], now);
            && mid.recycleLog == multiset{r} && mid.tapeFiles == map[f.Pos() := TapeFileOf(f, now)]
            && mid.archiveFiles == map[f.archiveFileId := ArchiveFileOf(f, now)] && f.vid in mid.tapes
            && Selected(mid.recycleLog, Criteria(None, None, None, None, None)) == multiset{r}
  {
    var db, items := OneDeletedFile(tape, r, f), [FileWritten(f)];
    OneDeletedFileConsistent(tape, r, f);
    assert items[..0] == [] && FilesOf(items) == [f] && [f][..0] == [];
    var rows := Register(db.archiveFiles, [f], now);
    assert Register(db.archiveFiles, [f][..0], now) == map[];
    assert rows == map[f.archiveFileId := ArchiveFileOf(f, now)];
    assert OldCopies(db.tapeFiles, [f]) == {};
    assert RepackRows(db.tapeFiles, rows, {}, now) == {};
    assert multiset{r} + multiset({}) == multiset{r};
    var mid := Written(db, items, now);
    assert mid.recycleLog == multiset{r};
    assert AddTapeFiles(db.tapeFiles, [f][..0], now) == map[];
    assert AddTapeFiles(db.tapeFiles, [f], now) == map[f.Pos() := TapeFileOf(f, now)];
    assert mid.tapeFiles == map[f.Pos() := TapeFileOf(f, now)];
    assert Selected(multiset{r}, Criteria(None, None, None, None, None)) == multiset{r};
  }

  /** What is enough for a restore into a file that is still there. */
  lemma {:induction false} RestoreGoesThrough(db: Database, r: RecycledFile, newFid: string, now: nat)
    requires FoundById(db, r.archiveFileId) && !HasLiveCopyNb(db.tapeFiles, r.archiveFileId, r.copyNb)
    requires r.position !in db.tapeFiles && r.position.vid in db.tapes && r.copyNb > 0
    requires forall q :: q in db.tapeFiles && q.vid == r.position.vid ==> db.tapeFiles[q].blockId != r.blockId
    ensures RestoreRow(db, r, newFid, now).Ok?
  {
  }

  // ----- a batch commits once -----

  /** No step but a reclaim of the tape takes its last file sequence number back. */
  lemma {:induction false} StepKeepsLastFSeq(db: Database, step: Step, vid: string)
    requires vid in db.tapes && step != ReclaimTape(vid)
    ensures vid in Apply(db, step).tapes && Apply(db, step).tapes[vid].lastFSeq >= db.tapes[vid].lastFSeq
  {
    if step.WriteFiles? {
      PostgresMeetsReference(db, step.items, step.now);
      if Accepts(db, step.items) && step.items != [] { CountersAfterWrite(db, step.items, step.now); }
    } else if step.RestoreFile? && Find(db, step.criteria).Ok? {
      RestoreInsertKeepsTapes(db, Find(db, step.criteria).value, step.newFid, step.now);
    } else if step.InterruptedRestore? && Find(db, step.criteria).Ok? {
      RestoreInsertKeepsTapes(db, Find(db, step.criteria).value, step.newFid, step.now);
    }
  }

  lemma {:induction false} RestoreInsertKeepsTapes(db: Database, r: RecycledFile, newFid: string, now: nat)
    ensures RestoreInsert(db, r, newFid, now).Ok? ==> RestoreInsert(db, r, newFid, now).value.tapes == db.tapes
  {
  }

  lemma {:induction false} RunKeepsLastFSeq(db: Database, steps: seq<Step>, vid: string)
    requires vid in db.tapes && ReclaimTape(vid) !in steps
    ensures vid in Run(db, steps).tapes && Run(db, steps).tapes[vid].lastFSeq >= db.tapes[vid].lastFSeq
  {
    if steps != [] {
      RunKeepsLastFSeq(db, steps[..|steps| - 1], vid);
      StepKeepsLastFSeq(Run(db, steps[..|steps| - 1]), steps[|steps| - 1], vid);
    }
  }

  /** A batch that has committed never commits again, whatever steps follow, unless its tape is reclaimed. */
  lemma {:induction false} CommittedBatchNeverCommitsAgain(db: Database, items: seq<TapeItem>, now: nat,
                                                           steps: seq<Step>, later: nat)
    requires items != [] && PostgresWrite(db, items, now).Committed? && ReclaimTape(items[0].Vid()) !in steps
    ensures var after := Run(PostgresWrite(db, items, now).db, steps);
            PostgresWrite(after, items, later) == Failed(FSeqMismatch) == OracleWrite(after, items, later)
  {
    PostgresMeetsReference(db, items, now);
    CountersAfterWrite(db, items, now);
    var after, vid := Written(db, items, now), items[0].Vid();
    RunKeepsLastFSeq(after, steps, vid);
    ResubmissionFails(db, items, Run(after, steps), later);
  }

  /** Reclaiming is what lets a batch in again: submitted once more after a reclaim, it commits if and only if it was
      the first of the tape and its files are acceptable as they stand now, be it that they are on other tapes or that
      they were deleted and can be created anew. */
  lemma {:induction false} ReclaimReopensTapeIff(db: Database, items: seq<TapeItem>, later: Database, vid: string)
    requires Accepts(db, items) && items != [] && items[0].Vid() == vid && Reclaim(later, vid).Ok?
    ensures Accepts(Reclaim(later, vid).value, items) <==>
            && db.tapes[vid].lastFSeq == 0 && NoDiskClash(later, FilesOf(items))
            && forall f :: f in FilesOf(items) ==> FileAcceptable(later, f)
  {
    var after, files := Reclaim(later, vid).value, FilesOf(items);
    FilesInSequence(vid, db.tapes[vid].lastFSeq, items);
    forall f | f in files ensures PlaceFree(after, f) && (FileAcceptable(after, f) <==> FileAcceptable(later, f)) { }
    assert items[0].FSeq() == db.tapes[vid].lastFSeq + 1;
  }
}
