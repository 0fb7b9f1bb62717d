/** Listing the archive files that answer to a search, in the order the query chooses. */
module ArchiveListing {
  import opened Tables
  import opened WriteTheorems
  import opened Consistency
  import opened Listing

  datatype FileSearch = FileSearch(archiveFileId: Option<uint64>, diskInstance: Option<string>, vid: Option<string>,
                                   fSeq: Option<uint64>, diskFileIds: Option<seq<string>>)

  /** The joins and the WHERE clause: the copy at `p` is a row of the result. */
  ghost predicate Answers(db: Database, s: FileSearch, p: Position) {
    && p in db.tapeFiles && p.vid in db.tapes && db.tapeFiles[p].archiveFileId in db.archiveFiles
    && var id := db.tapeFiles[p].archiveFileId; var file := db.archiveFiles[id];
    && file.storageClass in db.storageClasses
    && (s.archiveFileId.Some? ==> id == s.archiveFileId.value)
    && (s.diskInstance.Some? ==> file.diskInstance == s.diskInstance.value)
    && (s.vid.Some? ==> p.vid == s.vid.value)
    && (s.fSeq.Some? ==> p.fSeq == s.fSeq.value)
    && (s.diskFileIds.Some? ==> file.diskFileId in s.diskFileIds.value)
  }

  ghost function IdOf(db: Database, p: Position): uint64
    requires p in db.tapeFiles
  {
    db.tapeFiles[p].archiveFileId
  }

  ghost function FidOf(db: Database, p: Position): string
    requires p in db.tapeFiles && db.tapeFiles[p].archiveFileId in db.archiveFiles
  {
    db.archiveFiles[db.tapeFiles[p].archiveFileId].diskFileId
  }

  /** The collation of the database, about which nothing else is known. */
  ghost predicate TotalOrder(le: (string, string) -> bool) {
    && (forall a, b :: le(a, b) || le(b, a))
    && (forall a, b :: le(a, b) && le(b, a) ==> a == b)
    && (forall a, b, c :: le(a, b) && le(b, c) ==> le(a, c))
  }

  /** ORDER BY FSEQ if a tape is given, else DISK_FILE_ID if a disk instance is given, else ARCHIVE_FILE_ID, COPY_NB. */
  ghost predicate InOrderOf(db: Database, s: FileSearch, le: (string, string) -> bool, p: Position, q: Position)
    requires Answers(db, s, p) && Answers(db, s, q)
  {
    if s.vid.Some? then p.fSeq <= q.fSeq
    else if s.diskInstance.Some? then le(FidOf(db, p), FidOf(db, q))
    else IdOf(db, p) < IdOf(db, q) || (IdOf(db, p) == IdOf(db, q) && db.tapeFiles[p].copyNb <= db.tapeFiles[q].copyNb)
  }

  ghost predicate AllAnswer(db: Database, s: FileSearch, ps: seq<Position>) {
    forall i :: 0 <= i < |ps| ==> Answers(db, s, ps[i])
  }

  ghost predicate EveryRowOnce(db: Database, s: FileSearch, ps: seq<Position>) {
    (forall p :: p in ps <==> Answers(db, s, p)) && NoRepeats(ps)
  }

  ghost predicate Sorted(db: Database, s: FileSearch, le: (string, string) -> bool, ps: seq<Position>)
    requires AllAnswer(db, s, ps)
  {
    forall i, j :: 0 <= i < j < |ps| ==> InOrderOf(db, s, le, ps[i], ps[j])
  }

  /** What the database may answer: every row once, in an order that only has to follow the ORDER BY clause. */
  ghost predicate ResultSet(db: Database, s: FileSearch, le: (string, string) -> bool, ps: seq<Position>) {
    EveryRowOnce(db, s, ps) && AllAnswer(db, s, ps) && Sorted(db, s, le, ps)
  }

  ghost function RowOf(db: Database, p: Position): ListedFile
    requires p in db.tapeFiles && db.tapeFiles[p].archiveFileId in db.archiveFiles
  {
    ListedFile(IdOf(db, p), db.archiveFiles[IdOf(db, p)], [ListedCopy(p, db.tapeFiles[p])])
  }

  ghost function RowsOf(db: Database, s: FileSearch, ps: seq<Position>): (rows: seq<ListedFile>)
    requires AllAnswer(db, s, ps)
    ensures |rows| == |ps| && OneCopyEach(rows) && forall i :: 0 <= i < |ps| ==> rows[i] == RowOf(db, ps[i])
  {
    seq(|ps|, i requires 0 <= i < |ps| => RowOf(db, ps[i]))
  }

  /** `file` has the columns of its archive file and all its copies that answer to the search, each once. */
  ghost predicate WholeAnswer(db: Database, s: FileSearch, file: ListedFile) {
    && file.archiveFileId in db.archiveFiles && file.attributes == db.archiveFiles[file.archiveFileId]
    && NoRepeats(file.tapeFiles)
    && forall c :: c in file.tapeFiles <==>
                     && Answers(db, s, c.position) && IdOf(db, c.position) == file.archiveFileId
                     && c.row == db.tapeFiles[c.position]
  }

  /** Every file with a copy that answers is listed once, whole, and no other file is. */
  ghost predicate EachOnce(db: Database, s: FileSearch, files: seq<ListedFile>) {
    && OneFilePerId(files)
    && (forall k :: 0 <= k < |files| ==> WholeAnswer(db, s, files[k]))
    && forall p :: Answers(db, s, p) ==> exists k :: 0 <= k < |files| && files[k].archiveFileId == IdOf(db, p)
  }

  // ----- listed once means listed whole -----

  lemma {:induction false} RunHoldsItsFile(runs: seq<seq<ListedFile>>, m: nat, row: ListedFile)
    requires RunsOfFiles(runs) && RunsDiffer(runs) && m < |runs|
    ensures row in runs[m] <==> row in Concat(runs) && row.archiveFileId == runs[m][0].archiveFileId
  {
    RunIsStretch(runs, m);
    if row in Concat(runs) && row.archiveFileId == runs[m][0].archiveFileId {
      var i :| 0 <= i < |Concat(runs)| && Concat(runs)[i] == row;
      assert RunIndex(runs, i) == m;
    }
    if row in runs[m] {
      assert IsRun(runs[m]);
      assert row in Concat(runs)[RunStart(runs, m)..RunStart(runs, m) + |runs[m]|];
    }
  }

  lemma {:induction false} DistinctCopies(db: Database, s: FileSearch, ps: seq<Position>, from: nat, to: nat)
    requires AllAnswer(db, s, ps) && NoRepeats(ps) && from <= to <= |ps|
    ensures var run := RowsOf(db, s, ps)[from..to]; OneCopyEach(run) && NoRepeats(CopiesIn(run))
  {
    var run := RowsOf(db, s, ps)[from..to];
    forall i, j | 0 <= i < j < |run| ensures CopiesIn(run)[i] != CopiesIn(run)[j] {
      assert CopiesIn(run)[i].position == ps[from + i] && CopiesIn(run)[j].position == ps[from + j];
    }
  }

  /** The runs are a cut of the rows in which each file has one run. */
  ghost predicate CutByFile(db: Database, s: FileSearch, ps: seq<Position>, runs: seq<seq<ListedFile>>) {
    AllAnswer(db, s, ps) && RunsOfFiles(runs) && RunsDiffer(runs) && Concat(runs) == RowsOf(db, s, ps)
  }

  lemma {:induction false} RunOfPlace(db: Database, s: FileSearch, ps: seq<Position>, runs: seq<seq<ListedFile>>,
                                      m: nat, k: nat)
    requires CutByFile(db, s, ps, runs) && m < |runs| && k < |ps| && IdOf(db, ps[k]) == runs[m][0].archiveFileId
    ensures OneCopyEach(runs[m]) && ListedCopy(ps[k], db.tapeFiles[ps[k]]) in CopiesIn(runs[m])
  {
    assert IsRun(runs[m]);
    var row := RowsOf(db, s, ps)[k];
    RunHoldsItsFile(runs, m, row);
    var j :| 0 <= j < |runs[m]| && runs[m][j] == row;
    assert CopiesIn(runs[m])[j] == ListedCopy(ps[k], db.tapeFiles[ps[k]]);
  }

  lemma {:induction false} PlaceOfCopy(db: Database, s: FileSearch, ps: seq<Position>, runs: seq<seq<ListedFile>>,
                                       m: nat, j: nat)
    returns (k: nat)
    requires CutByFile(db, s, ps, runs) && m < |runs| && j < |runs[m]|
    ensures k < |ps| && runs[m][j] == RowOf(db, ps[k]) && IdOf(db, ps[k]) == runs[m][0].archiveFileId
  {
    assert IsRun(runs[m]);
    var row := runs[m][j];
    RunHoldsItsFile(runs, m, row);
    k :| 0 <= k < |ps| && RowsOf(db, s, ps)[k] == row;
  }

  lemma {:induction false} RunIsWhole(db: Database, s: FileSearch, ps: seq<Position>, runs: seq<seq<ListedFile>>,
                                      m: nat)
    requires EveryRowOnce(db, s, ps) && CutByFile(db, s, ps, runs) && m < |runs|
    ensures IsRun(runs[m]) && WholeAnswer(db, s, Merge(runs[m]))
  {
    var run := runs[m];
    RunIsStretch(runs, m);
    assert IsRun(run);
    DistinctCopies(db, s, ps, RunStart(runs, m), RunStart(runs, m) + |run|);
    var first := PlaceOfCopy(db, s, ps, runs, m, 0);
    var id := run[0].archiveFileId;
    forall c | c in CopiesIn(run)
      ensures Answers(db, s, c.position) && IdOf(db, c.position) == id && c.row == db.tapeFiles[c.position]
    {
      var j :| 0 <= j < |run| && CopiesIn(run)[j] == c;
      var k := PlaceOfCopy(db, s, ps, runs, m, j);
    }
    forall c: ListedCopy | Answers(db, s, c.position) && IdOf(db, c.position) == id && c.row == db.tapeFiles[c.position]
      ensures c in CopiesIn(run)
    {
      assert c.position in ps;
      var k :| 0 <= k < |ps| && ps[k] == c.position;
      RunOfPlace(db, s, ps, runs, m, k);
    }
  }

  /** The listing is right if and only if the rows of each file come one after the other. */
  lemma {:induction false} EachOnceIffContiguous(db: Database, s: FileSearch, ps: seq<Position>)
    requires EveryRowOnce(db, s, ps) && AllAnswer(db, s, ps)
    ensures EachOnce(db, s, Group(None, RowsOf(db, s, ps))) <==> Contiguous(RowsOf(db, s, ps))
  {
    var rows := RowsOf(db, s, ps);
    var files := Group(None, rows);
    OneFilePerIdIffContiguous(rows);
    if Contiguous(rows) {
      var runs := ListingIsMaximalRuns(rows);
      assert RunsDiffer(runs) by {
        forall i, j | 0 <= i < j < |runs| ensures runs[i][0].archiveFileId != runs[j][0].archiveFileId {
          assert files[i].archiveFileId != files[j].archiveFileId;
        }
      }
      forall k | 0 <= k < |files| ensures WholeAnswer(db, s, files[k]) { RunIsWhole(db, s, ps, runs, k); }
      forall p | Answers(db, s, p) ensures exists k :: 0 <= k < |files| && files[k].archiveFileId == IdOf(db, p) {
        assert p in ps;
        var i :| 0 <= i < |ps| && ps[i] == p;
        var k := RunIndex(runs, i);
        assert files[k].archiveFileId == rows[i].archiveFileId;
      }
    }
  }

  // ----- the three orders -----

  ghost predicate SameFile(db: Database, p: Position, q: Position)
    requires p in db.tapeFiles && q in db.tapeFiles
  {
    IdOf(db, p) == IdOf(db, q)
  }

  ghost predicate Between(db: Database, s: FileSearch, p: Position, q: Position, r: Position) {
    Answers(db, s, p) && Answers(db, s, q) && Answers(db, s, r) && p.fSeq < q.fSeq < r.fSeq
  }

  /** Between two places of the tape that answer and hold the same file, every place that answers holds it too. */
  ghost predicate TapeContiguous(db: Database, s: FileSearch) {
    forall p, q, r :: Between(db, s, p, q, r) && SameFile(db, p, r) ==> SameFile(db, q, p)
  }

  ghost predicate StrictlySorted(ps: seq<Position>) {
    forall i, j :: 0 <= i < j < |ps| ==> ps[i].fSeq < ps[j].fSeq
  }

  lemma {:induction false} FSeqOrderContiguousIff(db: Database, s: FileSearch, le: (string, string) -> bool,
                                                  ps: seq<Position>)
    requires ResultSet(db, s, le, ps) && s.vid.Some?
    ensures Contiguous(RowsOf(db, s, ps)) <==> TapeContiguous(db, s)
  {
    forall i, j | 0 <= i < j < |ps| ensures ps[i].fSeq < ps[j].fSeq {
      assert InOrderOf(db, s, le, ps[i], ps[j]) && ps[i] != ps[j];
    }
    if Contiguous(RowsOf(db, s, ps)) { ContiguousOnTape(db, s, ps); }
    if TapeContiguous(db, s) { TapeIsContiguous(db, s, ps); }
  }

  lemma {:induction false} ContiguousOnTape(db: Database, s: FileSearch, ps: seq<Position>)
    requires EveryRowOnce(db, s, ps) && AllAnswer(db, s, ps) && StrictlySorted(ps) && Contiguous(RowsOf(db, s, ps))
    ensures TapeContiguous(db, s)
  {
    forall p, q, r | Between(db, s, p, q, r) && SameFile(db, p, r) ensures SameFile(db, q, p) {
      var i, j, k := IndexOf(db, s, ps, p), IndexOf(db, s, ps, q), IndexOf(db, s, ps, r);
      IndexInOrder(ps, i, j);
      IndexInOrder(ps, j, k);
      ContiguousAt(RowsOf(db, s, ps), i, j, k);
    }
  }

  ghost function IndexOf(db: Database, s: FileSearch, ps: seq<Position>, p: Position): (i: nat)
    requires EveryRowOnce(db, s, ps) && Answers(db, s, p)
    ensures i < |ps| && ps[i] == p
  {
    assert p in ps;
    var i :| 0 <= i < |ps| && ps[i] == p;
    i
  }

  lemma {:induction false} IndexInOrder(ps: seq<Position>, i: nat, j: nat)
    requires StrictlySorted(ps) && i < |ps| && j < |ps| && ps[i].fSeq < ps[j].fSeq
    ensures i < j
  {
  }

  lemma {:induction false} ContiguousAt(rows: seq<ListedFile>, i: nat, j: nat, k: nat)
    requires Contiguous(rows) && i < j < k < |rows| && rows[i].archiveFileId == rows[k].archiveFileId
    ensures rows[j].archiveFileId == rows[i].archiveFileId
  {
  }

  lemma {:induction false} TapeIsContiguous(db: Database, s: FileSearch, ps: seq<Position>)
    requires AllAnswer(db, s, ps) && StrictlySorted(ps) && TapeContiguous(db, s)
    ensures Contiguous(RowsOf(db, s, ps))
  {
    var rows := RowsOf(db, s, ps);
    forall i, j, k | 0 <= i < j < k < |rows| && rows[i].archiveFileId == rows[k].archiveFileId
      ensures rows[j].archiveFileId == rows[i].archiveFileId
    {
      assert Between(db, s, ps[i], ps[j], ps[k]) && SameFile(db, ps[i], ps[k]);
    }
  }

  lemma {:induction false} DiskFileOrderContiguous(db: Database, s: FileSearch, le: (string, string) -> bool,
                                                   ps: seq<Position>)
    requires DiskFilesUnique(db) && TotalOrder(le) && ResultSet(db, s, le, ps)
    requires s.vid.None? && s.diskInstance.Some?
    ensures Contiguous(RowsOf(db, s, ps))
  {
    var rows := RowsOf(db, s, ps);
    forall i, j, k | 0 <= i < j < k < |rows| && rows[i].archiveFileId == rows[k].archiveFileId
      ensures rows[j].archiveFileId == rows[i].archiveFileId
    {
      assert InOrderOf(db, s, le, ps[i], ps[j]) && InOrderOf(db, s, le, ps[j], ps[k]);
      assert FidOf(db, ps[i]) == FidOf(db, ps[j]);
    }
  }

  lemma {:induction false} IdOrderContiguous(db: Database, s: FileSearch, le: (string, string) -> bool,
                                             ps: seq<Position>)
    requires ResultSet(db, s, le, ps) && s.vid.None? && s.diskInstance.None?
    ensures Contiguous(RowsOf(db, s, ps))
  {
    var rows := RowsOf(db, s, ps);
    forall i, j, k | 0 <= i < j < k < |rows| && rows[i].archiveFileId == rows[k].archiveFileId
      ensures rows[j].archiveFileId == rows[i].archiveFileId
    {
      assert InOrderOf(db, s, le, ps[i], ps[j]) && InOrderOf(db, s, le, ps[j], ps[k]);
    }
  }

  /** Every matching file is listed once with all its matching copies, for every search that names no tape, and for a
      search that names one if and only if copies of different files do not alternate on it. */
  lemma {:induction false} ListingIsWholeIff(db: Database, s: FileSearch, le: (string, string) -> bool,
                                             ps: seq<Position>)
    requires DiskFilesUnique(db) && TotalOrder(le) && ResultSet(db, s, le, ps)
    ensures EachOnce(db, s, Group(None, RowsOf(db, s, ps))) <==> (s.vid.Some? ==> TapeContiguous(db, s))
  {
    EachOnceIffContiguous(db, s, ps);
    if s.vid.Some? {
      FSeqOrderContiguousIff(db, s, le, ps);
    } else if s.diskInstance.Some? {
      DiskFileOrderContiguous(db, s, le, ps);
    } else {
      IdOrderContiguous(db, s, le, ps);
    }
  }

  // ----- by columns -----

  /** The live copy at `p` has the identifier, disk instance, tape, number and disk file identifier the search gives. */
  ghost predicate MeetsSearch(db: Database, s: FileSearch, p: Position) {
    && p in db.tapeFiles && db.tapeFiles[p].archiveFileId in db.archiveFiles
    && var file := db.archiveFiles[db.tapeFiles[p].archiveFileId];
    && (match s.archiveFileId case None => true case Some(id) => db.tapeFiles[p].archiveFileId == id)
    && (match s.diskInstance case None => true case Some(name) => file.diskInstance == name)
    && (match s.vid case None => true case Some(vid) => p.vid == vid)
    && (match s.fSeq case None => true case Some(n) => p.fSeq == n)
    && (match s.diskFileIds case None => true case Some(fids) => file.diskFileId in fids)
  }

  lemma {:induction false} JoinsLoseNothing(db: Database, s: FileSearch, p: Position)
    requires Consistent(db)
    ensures Answers(db, s, p) <==> MeetsSearch(db, s, p)
  {
    if MeetsSearch(db, s, p) {
      assert InRange(db, p) && Known(db, db.archiveFiles[db.tapeFiles[p].archiveFileId]);
    }
  }

  /** A right listing holds exactly the files with a copy that meets the search, and under each exactly those copies. */
  lemma {:induction false} ListedByColumns(db: Database, s: FileSearch, files: seq<ListedFile>)
    requires Consistent(db) && EachOnce(db, s, files)
    ensures forall k, p, row :: 0 <= k < |files| ==>
                                  (ListedCopy(p, row) in files[k].tapeFiles <==>
                                   && MeetsSearch(db, s, p) && row == db.tapeFiles[p]
                                   && row.archiveFileId == files[k].archiveFileId)
    ensures forall p :: MeetsSearch(db, s, p) ==>
                          exists k :: 0 <= k < |files| && files[k].archiveFileId == db.tapeFiles[p].archiveFileId
    ensures forall k :: 0 <= k < |files| ==>
                          && files[k].archiveFileId in db.archiveFiles
                          && files[k].attributes == db.archiveFiles[files[k].archiveFileId]
  {
    forall p ensures Answers(db, s, p) <==> MeetsSearch(db, s, p) { JoinsLoseNothing(db, s, p); }
    forall k | 0 <= k < |files| ensures WholeAnswer(db, s, files[k]) { }
  }

  /** The copies come in the order of the tape if one is named, else of the disk file identifiers if a disk instance is
      named, else of the archive file identifiers and, within a file, of the copy numbers. */
  lemma {:induction false} ListedInOrder(db: Database, s: FileSearch, le: (string, string) -> bool, ps: seq<Position>,
                                         i: nat, j: nat)
    requires ResultSet(db, s, le, ps) && i < j < |ps|
    ensures var flat := Flatten(Group(None, RowsOf(db, s, ps)));
            && |flat| == |ps| && flat[i].0 in db.archiveFiles && flat[j].0 in db.archiveFiles
            && (s.vid.Some? ==> flat[i].1.position.fSeq < flat[j].1.position.fSeq)
            && (s.vid.None? && s.diskInstance.Some? ==>
                  le(db.archiveFiles[flat[i].0].diskFileId, db.archiveFiles[flat[j].0].diskFileId))
            && (s.vid.None? && s.diskInstance.None? ==>
                  || flat[i].0 < flat[j].0
                  || (flat[i].0 == flat[j].0 && flat[i].1.row.copyNb <= flat[j].1.row.copyNb))
  {
    ListingKeepsRows(RowsOf(db, s, ps));
    assert InOrderOf(db, s, le, ps[i], ps[j]) && ps[i] != ps[j];
  }

  /** A tape that holds a copy of file 1, file 2 and another copy of file 1. */
  ghost function Alternating(tape: Tape, a: ArchiveFile, b: ArchiveFile): Database {
    Database(map["V00001" := tape], map[1 := a, 2 := b],
             map[Position("V00001", 1) := TapeFile(0, a.size, 1, 0, 1),
                 Position("V00001", 2) := TapeFile(1, b.size, 1, 0, 2),
                 Position("V00001", 3) := TapeFile(2, a.size, 2, 0, 1)],
             multiset{}, {a.storageClass, b.storageClass}, {a.diskInstance, b.diskInstance})
  }

  lemma {:induction false} AlternatingPlaces(tape: Tape, a: ArchiveFile, b: ArchiveFile)
    requires tape.lastFSeq == 3
    ensures var db := Alternating(tape, a, b); PlacesDistinct(db) && PlacesInRange(db)
  {
    var db := Alternating(tape, a, b);
    forall p ensures CopiesAt(db, p) <= 1 { assert LogAt(db.recycleLog, p) == multiset{}; }
    forall p | p in db.tapeFiles ensures InRange(db, p) { }
  }

  lemma {:induction false} AlternatingCopies(tape: Tape, a: ArchiveFile, b: ArchiveFile)
    ensures OneLiveCopy(Alternating(tape, a, b))
  {
    var db := Alternating(tape, a, b);
    forall p, q | p in db.tapeFiles && q in db.tapeFiles && SameCopy(db.tapeFiles[p], db.tapeFiles[q])
      ensures p == q
    {
    }
  }

  lemma {:induction false} AlternatingBlocks(tape: Tape, a: ArchiveFile, b: ArchiveFile)
    ensures var db := Alternating(tape, a, b); BlocksUnique(db) && CopyNumbersSet(db)
  {
    var db := Alternating(tape, a, b);
    assert forall p :: p in db.tapeFiles ==> p == Position("V00001", db.tapeFiles[p].blockId + 1);
  }

  lemma {:induction false} AlternatingFiles(tape: Tape, a: ArchiveFile, b: ArchiveFile)
    requires a.diskFileId != b.diskFileId
    ensures var db := Alternating(tape, a, b); LiveFilesExist(db) && DiskFilesUnique(db) && ReferencesKnown(db)
  {
  }

  lemma {:induction false} AlternatingRows(tape: Tape, a: ArchiveFile, b: ArchiveFile, le: (string, string) -> bool)
    returns (s: FileSearch, ps: seq<Position>)
    ensures s.vid.Some? && ResultSet(Alternating(tape, a, b), s, le, ps)
    ensures ps == [Position("V00001", 1), Position("V00001", 2), Position("V00001", 3)]
  {
    s := FileSearch(None, None, Some("V00001"), None, None);
    ps := [Position("V00001", 1), Position("V00001", 2), Position("V00001", 3)];
  }

  /** Two copies of one file on a tape with another file in between: the file is listed twice. */
  lemma {:induction false} AlternatingCopiesListedTwice(tape: Tape, a: ArchiveFile, b: ArchiveFile,
                                                        le: (string, string) -> bool)
    returns (s: FileSearch, ps: seq<Position>)
    requires tape.lastFSeq == 3 && a.diskFileId != b.diskFileId
    ensures var db := Alternating(tape, a, b); Consistent(db) && ResultSet(db, s, le, ps)
    ensures var files := Group(None, RowsOf(Alternating(tape, a, b), s, ps));
            exists i, j :: 0 <= i < j < |files| && files[i].archiveFileId == files[j].archiveFileId
  {
    var db := Alternating(tape, a, b);
    AlternatingPlaces(tape, a, b);
    AlternatingCopies(tape, a, b);
    AlternatingBlocks(tape, a, b);
    AlternatingFiles(tape, a, b);
    s, ps := AlternatingRows(tape, a, b, le);
    SplitFileRepeats(RowsOf(db, s, ps), 0, 1, 2);
  }

  lemma {:induction false} SplitFileRepeats(rows: seq<ListedFile>, i: nat, j: nat, k: nat)
    requires OneCopyEach(rows) && i < j < k < |rows|
    requires rows[i].archiveFileId == rows[k].archiveFileId != rows[j].archiveFileId
    ensures var files := Group(None, rows);
            exists m, n :: 0 <= m < n < |files| && files[m].archiveFileId == files[n].archiveFileId
  {
    OneFilePerIdIffContiguous(rows);
  }
}
