/** Listing the files of a tape for repacking: the rows come from TAPE_FILE joined with itself. */
module RepackListing {
  import opened Tables
  import opened WriteTheorems
  import opened Consistency
  import opened Listing

  /** A row of the self-join: a file of the repacked tape, by its `fSeq`, and one copy of the same archive file. */
  datatype Joined = Joined(fSeq: uint64, copy: Position)

  ghost predicate Qualifies(db: Database, vid: string, start: uint64, fSeq: uint64) {
    start <= fSeq && Position(vid, fSeq) in db.tapeFiles
  }

  function IdAt(db: Database, vid: string, fSeq: uint64): uint64
    requires Position(vid, fSeq) in db.tapeFiles
  {
    db.tapeFiles[Position(vid, fSeq)].archiveFileId
  }

  /** The join and WHERE conditions. */
  ghost predicate Joins(db: Database, vid: string, start: uint64, j: Joined) {
    && Qualifies(db, vid, start, j.fSeq)
    && LiveCopyOf(db, IdAt(db, vid, j.fSeq), j.copy)
    && IdAt(db, vid, j.fSeq) in db.archiveFiles
    && db.archiveFiles[IdAt(db, vid, j.fSeq)].storageClass in db.storageClasses
    && j.copy.vid in db.tapes
  }

  /** What the database may answer: every joined row once, in an order that only has to follow REPACK_TAPE.FSEQ. */
  ghost predicate ResultSet(db: Database, vid: string, start: uint64, js: seq<Joined>) {
    && (forall j :: j in js <==> Joins(db, vid, start, j))
    && NoRepeats(js)
    && (forall i, j :: 0 <= i < j < |js| ==> js[i].fSeq <= js[j].fSeq)
  }

  ghost predicate AllJoin(db: Database, vid: string, start: uint64, js: seq<Joined>) {
    forall j :: j in js ==> Joins(db, vid, start, j)
  }

  /** `populateArchiveFile` for every row. */
  ghost function RowsOf(db: Database, vid: string, start: uint64, js: seq<Joined>): (rows: seq<ListedFile>)
    requires AllJoin(db, vid, start, js)
    ensures |rows| == |js| && OneCopyEach(rows)
    ensures forall i :: 0 <= i < |js| ==> js[i] in js && rows[i].archiveFileId == IdAt(db, vid, js[i].fSeq)
  {
    seq(|js|, i requires 0 <= i < |js| =>
      assert js[i] in js;
      var id := IdAt(db, vid, js[i].fSeq);
      ListedFile(id, db.archiveFiles[id], [ListedCopy(js[i].copy, db.tapeFiles[js[i].copy])]))
  }

  ghost function RepackList(db: Database, vid: string, start: uint64, js: seq<Joined>): seq<ListedFile>
    requires AllJoin(db, vid, start, js)
  {
    Group(None, RowsOf(db, vid, start, js))
  }

  // ----- what repacking needs -----

  /** `file` is the archive file `id` with every one of its live copies, each once. */
  ghost predicate WholeFile(db: Database, id: uint64, file: ListedFile) {
    && id in db.archiveFiles && file.archiveFileId == id && file.attributes == db.archiveFiles[id]
    && NoRepeats(file.tapeFiles)
    && (forall c :: c in file.tapeFiles <==> LiveCopyOf(db, id, c.position) && c.row == db.tapeFiles[c.position])
  }

  ghost predicate Increasing(places: seq<uint64>) {
    forall i, j :: 0 <= i < j < |places| ==> places[i] < places[j]
  }

  /** `places` are the places on the tape from `start` on, in order. */
  ghost predicate PlacesFrom(db: Database, vid: string, start: uint64, places: seq<uint64>) {
    Increasing(places) && forall f :: f in places <==> Qualifies(db, vid, start, f)
  }

  /** One whole file for each place on the tape, in the order of the tape. */
  ghost predicate FilePerPlace(db: Database, vid: string, start: uint64, files: seq<ListedFile>, places: seq<uint64>) {
    && PlacesFrom(db, vid, start, places)
    && |files| == |places|
    && forall k :: 0 <= k < |files| ==> places[k] in places && WholeFile(db, IdAt(db, vid, places[k]), files[k])
  }

  ghost predicate Neighbours(db: Database, vid: string, start: uint64, f: uint64, g: uint64) {
    && Qualifies(db, vid, start, f) && Qualifies(db, vid, start, g) && f < g
    && forall h: uint64 :: Qualifies(db, vid, start, h) ==> h <= f || g <= h
  }

  /** Files next to each other on the tape, nothing live between them, are different files. */
  ghost predicate NeighboursDiffer(db: Database, vid: string, start: uint64) {
    forall f, g :: Neighbours(db, vid, start, f, g) ==> IdAt(db, vid, f) != IdAt(db, vid, g)
  }

  // ----- cutting the rows by place -----

  ghost predicate Cut(js: seq<Joined>, runs: seq<seq<Joined>>, places: seq<uint64>) {
    && Concat(runs) == js && |runs| == |places| && Increasing(places)
    && forall k :: 0 <= k < |runs| ==> RunAt(runs[k], places[k])
  }

  ghost predicate RunAt(run: seq<Joined>, f: uint64) {
    run != [] && forall j :: j in run ==> j.fSeq == f
  }

  lemma {:induction false} CutExtend(j: Joined, js: seq<Joined>, runs: seq<seq<Joined>>, places: seq<uint64>)
    returns (runs': seq<seq<Joined>>, places': seq<uint64>)
    requires Cut(js, runs, places)
    requires places != [] ==> j.fSeq <= places[0]
    ensures Cut([j] + js, runs', places')
  {
    if places != [] && j.fSeq == places[0] {
      runs', places' := [[j] + runs[0]] + runs[1..], places;
      assert runs'[1..] == runs[1..];
      assert RunAt(runs[0], places[0]);
      assert [j] + js == Concat(runs') by {
        assert [j] + (runs[0] + Concat(runs[1..])) == ([j] + runs[0]) + Concat(runs[1..]);
      }
      forall k | 0 <= k < |runs'| ensures RunAt(runs'[k], places'[k]) {
        if k > 0 { assert runs'[k] == runs[k]; }
      }
    } else {
      runs', places' := [[j]] + runs, [j.fSeq] + places;
      assert runs'[1..] == runs;
      forall k | 0 <= k < |runs'| ensures RunAt(runs'[k], places'[k]) {
        if k > 0 { assert runs'[k] == runs[k - 1]; }
      }
    }
  }

  lemma {:induction false} CutByPlace(js: seq<Joined>) returns (runs: seq<seq<Joined>>, places: seq<uint64>)
    requires forall i, j :: 0 <= i < j < |js| ==> js[i].fSeq <= js[j].fSeq
    ensures Cut(js, runs, places)
  {
    if js == [] {
      runs, places := [], [];
    } else {
      runs, places := CutByPlace(js[1..]);
      if places != [] {
        assert RunAt(runs[0], places[0]);
        assert runs[0][0] in runs[0];
        assert js[1..][0] == runs[0][0];
        assert js[0].fSeq <= js[1].fSeq;
      }
      runs, places := CutExtend(js[0], js[1..], runs, places);
      assert [js[0]] + js[1..] == js;
    }
  }

  /** The run of a place holds exactly the rows of that place, none twice. */
  lemma {:induction false} RunContents(js: seq<Joined>, runs: seq<seq<Joined>>, places: seq<uint64>, k: nat)
    requires Cut(js, runs, places) && k < |runs|
    ensures forall j :: j in runs[k] <==> j in js && j.fSeq == places[k]
    ensures NoRepeats(js) ==> NoRepeats(runs[k])
    decreases k
  {
    var rest, later, others := Concat(runs[1..]), runs[1..], places[1..];
    assert js == runs[0] + rest;
    assert RunAt(runs[0], places[0]);
    assert Cut(rest, later, others) by {
      forall m | 0 <= m < |later| ensures RunAt(later[m], others[m]) { assert RunAt(runs[m + 1], places[m + 1]); }
    }
    assert NoRepeats(js) ==> NoRepeats(runs[0]) && NoRepeats(rest) by {
      assert forall i :: 0 <= i < |runs[0]| ==> runs[0][i] == js[i];
      assert forall i :: 0 <= i < |rest| ==> rest[i] == js[i + |runs[0]|];
    }
    if k == 0 {
      forall j | j in rest ensures j.fSeq != places[0] { var m := RunOf(rest, later, others, j); }
    } else {
      RunContents(rest, later, others, k - 1);
      assert runs[k] == later[k - 1];
    }
  }

  lemma {:induction false} RunOf(js: seq<Joined>, runs: seq<seq<Joined>>, places: seq<uint64>, j: Joined)
    returns (k: nat)
    requires Cut(js, runs, places) && j in js
    ensures k < |places| && j.fSeq == places[k]
    decreases |runs|
  {
    var rest, later, others := Concat(runs[1..]), runs[1..], places[1..];
    assert js == runs[0] + rest;
    assert RunAt(runs[0], places[0]);
    if j in runs[0] {
      k := 0;
    } else {
      assert Cut(rest, later, others) by {
        forall m | 0 <= m < |later| ensures RunAt(later[m], others[m]) { assert RunAt(runs[m + 1], places[m + 1]); }
      }
      k := RunOf(rest, later, others, j);
      k := k + 1;
    }
  }

  /** A cut of the result set goes through exactly the places on the tape. */
  lemma {:induction false} CutPlaces(db: Database, vid: string, start: uint64, js: seq<Joined>, runs: seq<seq<Joined>>,
                                     places: seq<uint64>)
    requires Consistent(db) && ResultSet(db, vid, start, js) && Cut(js, runs, places)
    ensures PlacesFrom(db, vid, start, places)
  {
    forall f ensures f in places <==> Qualifies(db, vid, start, f) {
      if f in places {
        var k :| 0 <= k < |places| && places[k] == f;
        RunContents(js, runs, places, k);
        assert RunAt(runs[k], places[k]);
        assert runs[k][0] in runs[k];
      }
      if Qualifies(db, vid, start, f) {
        SelfJoins(db, vid, start, f);
        var k := RunOf(js, runs, places, Joined(f, Position(vid, f)));
      }
    }
  }

  lemma {:induction false} SelfJoins(db: Database, vid: string, start: uint64, f: uint64)
    requires Consistent(db) && Qualifies(db, vid, start, f)
    ensures forall p :: LiveCopyOf(db, IdAt(db, vid, f), p) <==> Joins(db, vid, start, Joined(f, p))
  {
    var id := IdAt(db, vid, f);
    assert id in db.archiveFiles && Known(db, db.archiveFiles[id]);
    forall p | LiveCopyOf(db, id, p) ensures Joins(db, vid, start, Joined(f, p)) {
      assert InRange(db, p);
    }
  }

  // ----- from cut to listing -----

  ghost function RowRuns(db: Database, vid: string, start: uint64, runs: seq<seq<Joined>>): (r: seq<seq<ListedFile>>)
    requires forall k :: 0 <= k < |runs| ==> AllJoin(db, vid, start, runs[k])
    ensures |r| == |runs|
    ensures forall k :: 0 <= k < |runs| ==> r[k] == RowsOf(db, vid, start, runs[k])
  {
    seq(|runs|, k requires 0 <= k < |runs| => RowsOf(db, vid, start, runs[k]))
  }

  lemma {:induction false} RowsOfParts(db: Database, vid: string, start: uint64, a: seq<Joined>, b: seq<Joined>)
    requires AllJoin(db, vid, start, a + b)
    ensures AllJoin(db, vid, start, a) && AllJoin(db, vid, start, b)
    ensures RowsOf(db, vid, start, a + b) == RowsOf(db, vid, start, a) + RowsOf(db, vid, start, b)
  {
    assert forall j :: j in a || j in b ==> j in a + b;
    var all, left, right := RowsOf(db, vid, start, a + b), RowsOf(db, vid, start, a), RowsOf(db, vid, start, b);
    forall i | 0 <= i < |all| ensures all[i] == (left + right)[i] {
      if i < |a| { assert (a + b)[i] == a[i]; } else { assert (a + b)[i] == b[i - |a|]; }
    }
  }

  lemma {:induction false} RowRunsConcat(db: Database, vid: string, start: uint64, runs: seq<seq<Joined>>)
    requires AllJoin(db, vid, start, Concat(runs))
    ensures forall k :: 0 <= k < |runs| ==> AllJoin(db, vid, start, runs[k])
    ensures Concat(RowRuns(db, vid, start, runs)) == RowsOf(db, vid, start, Concat(runs))
    decreases |runs|
  {
    if runs != [] {
      RowsOfParts(db, vid, start, runs[0], Concat(runs[1..]));
      RowRunsConcat(db, vid, start, runs[1..]);
      assert forall k :: 1 <= k < |runs| ==> runs[k] == runs[1..][k - 1];
      assert RowRuns(db, vid, start, runs)[1..] == RowRuns(db, vid, start, runs[1..]);
    }
  }

  /** The rows of one place form a run, and describe the whole file. */
  lemma {:induction false} PlaceIsWholeFile(db: Database, vid: string, start: uint64, run: seq<Joined>, f: uint64)
    requires Consistent(db) && Qualifies(db, vid, start, f)
    requires run != [] && AllJoin(db, vid, start, run) && NoRepeats(run)
    requires forall j :: j in run <==> Joins(db, vid, start, j) && j.fSeq == f
    ensures IsRun(RowsOf(db, vid, start, run))
    ensures WholeFile(db, IdAt(db, vid, f), Merge(RowsOf(db, vid, start, run)))
  {
    var rows, id := RowsOf(db, vid, start, run), IdAt(db, vid, f);
    forall i | 0 <= i < |run| ensures rows[i].archiveFileId == id && run[i] == Joined(f, run[i].copy) {
      assert run[i] in run;
    }
    var copies := Merge(rows).tapeFiles;
    assert forall i :: 0 <= i < |run| ==> copies[i].position == run[i].copy;
    SelfJoins(db, vid, start, f);
    forall c ensures c in copies <==> LiveCopyOf(db, id, c.position) && c.row == db.tapeFiles[c.position] {
      if LiveCopyOf(db, id, c.position) && c.row == db.tapeFiles[c.position] {
        assert Joined(f, c.position) in run;
        var i :| 0 <= i < |run| && run[i] == Joined(f, c.position);
        assert copies[i] == c;
      }
    }
  }

  lemma {:induction false} PlacesAreNeighbours(db: Database, vid: string, start: uint64, places: seq<uint64>, k: nat)
    requires PlacesFrom(db, vid, start, places) && k + 1 < |places|
    ensures Neighbours(db, vid, start, places[k], places[k + 1])
  {
    assert places[k] in places && places[k + 1] in places;
    forall h | Qualifies(db, vid, start, h) ensures h <= places[k] || places[k + 1] <= h {
      assert h in places;
      var m :| 0 <= m < |places| && places[m] == h;
    }
  }

  lemma {:induction false} NeighboursAreNextPlaces(db: Database, vid: string, start: uint64, places: seq<uint64>,
                                                   f: uint64, g: uint64)
    returns (k: nat)
    requires PlacesFrom(db, vid, start, places) && Neighbours(db, vid, start, f, g)
    ensures k + 1 < |places| && places[k] == f && places[k + 1] == g
  {
    assert f in places && g in places;
    k :| 0 <= k < |places| && places[k] == f;
    var m :| 0 <= m < |places| && places[m] == g;
    assert places[k + 1] in places;
  }

  lemma {:induction false} DifferingNeighboursListPlaces(db: Database, vid: string, start: uint64, js: seq<Joined>)
    returns (places: seq<uint64>)
    requires Consistent(db) && ResultSet(db, vid, start, js) && NeighboursDiffer(db, vid, start)
    ensures FilePerPlace(db, vid, start, RepackList(db, vid, start, js), places)
  {
    var runs: seq<seq<Joined>>;
    runs, places := CutByPlace(js);
    CutPlaces(db, vid, start, js, runs, places);
    RowRunsConcat(db, vid, start, runs);
    var rowRuns := RowRuns(db, vid, start, runs);
    forall k | 0 <= k < |runs|
      ensures places[k] in places && IsRun(rowRuns[k]) && rowRuns[k][0].archiveFileId == IdAt(db, vid, places[k])
      ensures WholeFile(db, IdAt(db, vid, places[k]), Merge(rowRuns[k]))
    {
      RunContents(js, runs, places, k);
      assert RunAt(runs[k], places[k]);
      PlaceIsWholeFile(db, vid, start, runs[k], places[k]);
      assert runs[k][0] in runs[k];
    }
    forall k | 0 <= k < |runs| - 1 ensures rowRuns[k][0].archiveFileId != rowRuns[k + 1][0].archiveFileId {
      PlacesAreNeighbours(db, vid, start, places, k);
    }
    var maximal := ListingIsMaximalRuns(RowsOf(db, vid, start, js));
    MaximalRunsUnique(rowRuns, maximal);
  }

  /** The listing holds one whole file per place on the tape, in order, exactly when no two neighbouring places hold the
      same archive file, whatever order the database chose within a place. */
  lemma {:induction false} RepackListsPlacesIff(db: Database, vid: string, start: uint64, js: seq<Joined>)
    requires Consistent(db) && ResultSet(db, vid, start, js)
    ensures (exists places :: FilePerPlace(db, vid, start, RepackList(db, vid, start, js), places))
       <==> NeighboursDiffer(db, vid, start)
  {
    var files := RepackList(db, vid, start, js);
    if NeighboursDiffer(db, vid, start) {
      var places := DifferingNeighboursListPlaces(db, vid, start, js);
      assert FilePerPlace(db, vid, start, files, places);
    }
    if places :| FilePerPlace(db, vid, start, files, places) {
      ListingKeepsRows(RowsOf(db, vid, start, js));
      forall f, g | Neighbours(db, vid, start, f, g) ensures IdAt(db, vid, f) != IdAt(db, vid, g) {
        var k := NeighboursAreNextPlaces(db, vid, start, places, f, g);
        assert files[k].archiveFileId != files[k + 1].archiveFileId;
      }
    }
  }

  ghost predicate OneCopyPerFile(db: Database, vid: string) {
    forall f, g :: Qualifies(db, vid, 0, f) && Qualifies(db, vid, 0, g) && IdAt(db, vid, f) == IdAt(db, vid, g) ==>
                     f == g
  }

  /** A tape that holds no file twice is listed whole, place by place, from any start. */
  lemma {:induction false} OneCopyPerFileListsPlaces(db: Database, vid: string, start: uint64, js: seq<Joined>)
    requires Consistent(db) && ResultSet(db, vid, start, js) && OneCopyPerFile(db, vid)
    ensures exists places :: FilePerPlace(db, vid, start, RepackList(db, vid, start, js), places)
  {
    forall f, g | Neighbours(db, vid, start, f, g) ensures IdAt(db, vid, f) != IdAt(db, vid, g) {
      assert Qualifies(db, vid, 0, f) && Qualifies(db, vid, 0, g);
    }
    RepackListsPlacesIff(db, vid, start, js);
  }

  /** The listing of such a tape by columns: the places are those from `start` on with a live copy, each file is the one
      recorded there, and its copies are all live copies of that file on any tape. */
  lemma {:induction false} PlacesByColumns(db: Database, vid: string, start: uint64, files: seq<ListedFile>,
                                           places: seq<uint64>)
    requires FilePerPlace(db, vid, start, files, places)
    ensures |files| == |places| && forall i, j :: 0 <= i < j < |places| ==> places[i] < places[j]
    ensures forall f: uint64 :: f in places <==> f >= start && Position(vid, f) in db.tapeFiles
    ensures forall k :: 0 <= k < |files| ==>
                          && Position(vid, places[k]) in db.tapeFiles
                          && files[k].archiveFileId == db.tapeFiles[Position(vid, places[k])].archiveFileId
                          && files[k].archiveFileId in db.archiveFiles
                          && files[k].attributes == db.archiveFiles[files[k].archiveFileId]
    ensures forall k, p, row :: 0 <= k < |files| ==>
                                  (ListedCopy(p, row) in files[k].tapeFiles <==>
                                   && p in db.tapeFiles && row == db.tapeFiles[p]
                                   && row.archiveFileId == files[k].archiveFileId)
  {
    forall k | 0 <= k < |files|
      ensures Position(vid, places[k]) in db.tapeFiles && WholeFile(db, IdAt(db, vid, places[k]), files[k])
    {
      assert places[k] in places;
    }
  }

  /** A tape whose first two files are both copies of archive file 7. */
  ghost function TwiceOnOneTape(tape: Tape, file: ArchiveFile): Database {
    Database(map["V00001" := tape], map[7 := file],
             map[Position("V00001", 1) := TapeFile(0, file.size, 1, 0, 7),
                 Position("V00001", 2) := TapeFile(1, file.size, 2, 0, 7)],
             multiset{}, {file.storageClass}, {file.diskInstance})
  }

  lemma {:induction false} TwiceOnOneTapePlaces(tape: Tape, file: ArchiveFile)
    requires tape.lastFSeq == 2
    ensures var db := TwiceOnOneTape(tape, file); PlacesDistinct(db) && PlacesInRange(db)
  {
    var db := TwiceOnOneTape(tape, file);
    forall r ensures CopiesAt(db, r) <= 1 { assert LogAt(db.recycleLog, r) == multiset{}; }
    forall r | r in db.tapeFiles ensures InRange(db, r) { }
  }

  lemma {:induction false} TwiceOnOneTapeCopies(tape: Tape, file: ArchiveFile)
    ensures var db := TwiceOnOneTape(tape, file); OneLiveCopy(db) && BlocksUnique(db)
  {
    var db := TwiceOnOneTape(tape, file);
    var p, q := Position("V00001", 1), Position("V00001", 2);
    assert forall r :: r in db.tapeFiles ==> r == p || r == q;
    assert db.tapeFiles[p].copyNb == 1 && db.tapeFiles[q].copyNb == 2;
  }

  lemma {:induction false} TwiceOnOneTapeConsistent(tape: Tape, file: ArchiveFile)
    requires tape.lastFSeq == 2
    ensures Consistent(TwiceOnOneTape(tape, file))
  {
    TwiceOnOneTapePlaces(tape, file);
    TwiceOnOneTapeCopies(tape, file);
  }

  lemma {:induction false} TwiceOnOneTapeRows(tape: Tape, file: ArchiveFile) returns (js: seq<Joined>)
    ensures ResultSet(TwiceOnOneTape(tape, file), "V00001", 1, js)
    ensures |js| == 4 && js[0].copy == js[2].copy && js[0].fSeq == 1 && js[2].fSeq == 2
    ensures forall j :: j in js ==> j.fSeq in {1, 2}
  {
    var p, q := Position("V00001", 1), Position("V00001", 2);
    js := [Joined(1, p), Joined(1, q), Joined(2, p), Joined(2, q)];
  }

  /** Two copies of one file next to each other on a tape: both places are merged into one listed file, and every copy
      is listed twice. */
  lemma {:induction false} NeighbouringCopiesMerge(tape: Tape, file: ArchiveFile)
    returns (db: Database, js: seq<Joined>)
    requires tape.lastFSeq == 2
    ensures Consistent(db) && ResultSet(db, "V00001", 1, js) && !NeighboursDiffer(db, "V00001", 1)
    ensures var files := RepackList(db, "V00001", 1, js);
            |files| == 1 && |files[0].tapeFiles| == 4 && files[0].tapeFiles[0] == files[0].tapeFiles[2]
  {
    db := TwiceOnOneTape(tape, file);
    TwiceOnOneTapeConsistent(tape, file);
    js := TwiceOnOneTapeRows(tape, file);
    var rows := RowsOf(db, "V00001", 1, js);
    assert forall i :: 0 <= i < 4 ==> js[i].fSeq in {1, 2} && rows[i].archiveFileId == 7;
    var run := [rows];
    assert run[1..] == [] && Concat(run) == rows && IsRun(rows);
    var maximal := ListingIsMaximalRuns(rows);
    MaximalRunsUnique(run, maximal);
    assert Neighbours(db, "V00001", 1, 1, 2);
  }
}
