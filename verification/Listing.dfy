/** Listing archive files: a flat stream of rows, one tape copy each, is turned into archive files with their copies. */
module Listing {
  import opened Tables

  datatype ListedCopy = ListedCopy(position: Position, row: TapeFile)

  /** An archive file with the copies listed so far; a row of the result set is one with at most one copy. */
  datatype ListedFile = ListedFile(archiveFileId: uint64, attributes: ArchiveFile, tapeFiles: seq<ListedCopy>)

  datatype ListingError = NotOneTapeFile | HasMoreNotCalled | NoMoreFiles

  // ----- the builder -----

  /** `append`: the file under construction afterwards, and the file completed by this row if any. */
  function AppendTo(current: Option<ListedFile>, row: ListedFile): Result<(Option<ListedFile>, Option<ListedFile>),
                    ListingError> {
    match current
    case None =>
      if row.tapeFiles == [] then Ok((None, Some(row)))
      else if |row.tapeFiles| != 1 then Err(NotOneTapeFile)
      else Ok((Some(row), None))
    case Some(file) =>
      if row.tapeFiles == [] then Ok((Some(row), Some(file)))
      else if row.archiveFileId == file.archiveFileId then
        if |row.tapeFiles| != 1 then Err(NotOneTapeFile)
        else Ok((Some(file.(tapeFiles := file.tapeFiles + [row.tapeFiles[0]])), None))
      else Ok((Some(row), Some(file)))
  }

  class ArchiveFileBuilder {
    var current: Option<ListedFile>

    constructor ()
      ensures current == None
    {
      current := None;
    }

    method Append(row: ListedFile) returns (r: Result<Option<ListedFile>, ListingError>)
      modifies this
      ensures match AppendTo(old(current), row)
              case Err(e) => r == Err(e) && current == old(current)
              case Ok((after, complete)) => r == Ok(complete) && current == after
      ensures old(current) == None && |row.tapeFiles| == 0 ==> r == Ok(Some(row)) && current == None
      ensures old(current) == None && |row.tapeFiles| == 1 ==> r == Ok(None) && current == Some(row)
      ensures old(current) == None && |row.tapeFiles| > 1 ==> r == Err(NotOneTapeFile) && current == None
      ensures old(current).Some? && |row.tapeFiles| == 0 ==> r == Ok(old(current)) && current == Some(row)
      ensures old(current).Some? && |row.tapeFiles| == 1 && row.archiveFileId == old(current).value.archiveFileId ==>
                && r == Ok(None) && current.Some?
                && current.value.archiveFileId == row.archiveFileId
                && current.value.attributes == old(current).value.attributes
                && current.value.tapeFiles == old(current).value.tapeFiles + row.tapeFiles
      ensures old(current).Some? && |row.tapeFiles| > 1 && row.archiveFileId == old(current).value.archiveFileId ==>
                r == Err(NotOneTapeFile) && current == old(current)
      ensures old(current).Some? && |row.tapeFiles| > 0 && row.archiveFileId != old(current).value.archiveFileId ==>
                r == Ok(old(current)) && current == Some(row)
    {
      if current == None {
        if |row.tapeFiles| == 0 { return Ok(Some(row)); }
        if |row.tapeFiles| != 1 { return Err(NotOneTapeFile); }
        current := Some(row);
        return Ok(None);
      }
      if |row.tapeFiles| == 0 {
        var tmp := current;
        current := Some(row);
        return Ok(tmp);
      }
      if row.archiveFileId == current.value.archiveFileId {
        if |row.tapeFiles| != 1 { return Err(NotOneTapeFile); }
        current := Some(current.value.(tapeFiles := current.value.tapeFiles + [row.tapeFiles[0]]));
        return Ok(None);
      }
      var tmp := current;
      current := Some(row);
      r := Ok(tmp);
    }

    method Clear()
      modifies this
      ensures current == None
    {
      current := None;
    }
  }

  // ----- the files still to come -----

  predicate RowsOk(rows: seq<ListedFile>) {
    forall i :: 0 <= i < |rows| ==> |rows[i].tapeFiles| <= 1
  }

  /** What remains to be listed: the file under construction and the rows not yet read. */
  function Group(current: Option<ListedFile>, rows: seq<ListedFile>): seq<ListedFile>
    requires RowsOk(rows)
    decreases |rows|
  {
    if rows == [] then (if current.None? then [] else [current.value])
    else
      var (after, complete) := AppendTo(current, rows[0]).value;
      var rest := Group(after, rows[1..]);
      if complete.None? then rest else [complete.value] + rest
  }

  /** `hasMore` and `next` over a result set whose unread rows are `pending`. */
  class ArchiveFileItor {
    const builder: ArchiveFileBuilder
    var pending: seq<ListedFile>
    var rsetIsEmpty: bool
    var hasMoreHasBeenCalled: bool

    ghost predicate Valid()
      reads this, builder
    {
      (rsetIsEmpty <==> pending == []) && RowsOk(pending)
    }

    /** The files the iterator will still return, in order. */
    ghost function Remaining(): seq<ListedFile>
      reads this, builder
      requires Valid()
    {
      Group(builder.current, pending)
    }

    constructor (rows: seq<ListedFile>)
      requires RowsOk(rows)
      ensures Valid() && fresh(builder) && !hasMoreHasBeenCalled && Remaining() == Group(None, rows)
    {
      builder := new ArchiveFileBuilder();
      pending, rsetIsEmpty, hasMoreHasBeenCalled := rows, |rows| == 0, false;
    }

    /** True exactly when the following `Next` returns a file. */
    method HasMore() returns (more: bool)
      requires Valid()
      modifies this`hasMoreHasBeenCalled
      ensures Valid() && hasMoreHasBeenCalled && Remaining() == old(Remaining())
      ensures more <==> Remaining() != []
    {
      hasMoreHasBeenCalled := true;
      GroupEmpty(builder.current, pending);
      if rsetIsEmpty { more := builder.current != None; } else { more := true; }
    }

    method Next() returns (r: Result<ListedFile, ListingError>)
      requires Valid()
      modifies this`pending, this`rsetIsEmpty, this`hasMoreHasBeenCalled, builder
      ensures Valid() && !hasMoreHasBeenCalled
      ensures !old(hasMoreHasBeenCalled) ==> r == Err(HasMoreNotCalled) && Remaining() == old(Remaining())
      ensures old(hasMoreHasBeenCalled) && old(Remaining()) == [] ==> r == Err(NoMoreFiles) && Remaining() == []
      ensures old(hasMoreHasBeenCalled) && old(Remaining()) != [] ==>
                r == Ok(old(Remaining())[0]) && Remaining() == old(Remaining())[1..]
    {
      if !hasMoreHasBeenCalled { return Err(HasMoreNotCalled); }
      hasMoreHasBeenCalled := false;
      if rsetIsEmpty {
        if builder.current == None { return Err(NoMoreFiles); }
        var tmp := builder.current.value;
        builder.Clear();
        return Ok(tmp);
      }
      while true
        invariant Valid() && pending != [] && !hasMoreHasBeenCalled
        invariant Remaining() == old(Remaining())
        decreases |pending|
      {
        var appended := builder.Append(pending[0]);
        var complete := appended.value;
        pending := pending[1..];
        rsetIsEmpty := |pending| == 0;
        assert old(Remaining()) == (if complete.None? then [] else [complete.value]) + Group(builder.current, pending);
        if complete != None { return Ok(complete.value); }
        if rsetIsEmpty {
          if builder.current == None { return Err(NoMoreFiles); }
          var tmp := builder.current.value;
          builder.Clear();
          return Ok(tmp);
        }
      }
    }
  }

  lemma {:induction false} GroupEmpty(current: Option<ListedFile>, rows: seq<ListedFile>)
    requires RowsOk(rows)
    ensures Group(current, rows) == [] <==> current.None? && rows == []
    decreases |rows|
  {
    if rows != [] {
      var (after, complete) := AppendTo(current, rows[0]).value;
      GroupEmpty(after, rows[1..]);
    }
  }

  /** There are never more files to come than unread rows and the file under construction. */
  lemma {:induction false} GroupBounded(current: Option<ListedFile>, rows: seq<ListedFile>)
    requires RowsOk(rows)
    ensures |Group(current, rows)| <= |rows| + if current.None? then 0 else 1
    decreases |rows|
  {
    if rows != [] {
      var (after, complete) := AppendTo(current, rows[0]).value;
      GroupBounded(after, rows[1..]);
    }
  }

  /** Draining the iterator lists exactly the grouped rows. */
  method ListAll(rows: seq<ListedFile>) returns (files: seq<ListedFile>)
    requires RowsOk(rows)
    ensures files == Group(None, rows)
  {
    var itor := new ArchiveFileItor(rows);
    files := [];
    ghost var rest := Group(None, rows);
    var more := itor.HasMore();
    while more
      invariant itor.Valid() && itor.hasMoreHasBeenCalled && fresh(itor) && fresh(itor.builder)
      invariant itor.Remaining() == rest && files + rest == Group(None, rows)
      invariant more <==> rest != []
      decreases |rest|
    {
      ShiftFirst(files, rest);
      var file := itor.Next();
      files, rest := files + [file.value], rest[1..];
      more := itor.HasMore();
    }
  }

  lemma {:induction false} ShiftFirst<T>(done: seq<T>, rest: seq<T>)
    requires rest != []
    ensures done + rest == (done + [rest[0]]) + rest[1..]
  {
  }

  // ----- maximal runs -----

  predicate OneCopyEach(rows: seq<ListedFile>) {
    forall i :: 0 <= i < |rows| ==> |rows[i].tapeFiles| == 1
  }

  /** Rows of one archive file. */
  ghost predicate IsRun(run: seq<ListedFile>) {
    run != [] && OneCopyEach(run) && forall i :: 0 <= i < |run| ==> run[i].archiveFileId == run[0].archiveFileId
  }

  function CopiesIn(rows: seq<ListedFile>): seq<ListedCopy>
    requires OneCopyEach(rows)
  {
    seq(|rows|, i requires 0 <= i < |rows| => rows[i].tapeFiles[0])
  }

  /** The file that a run describes: the columns of its first row and the copies of all. */
  function Merge(run: seq<ListedFile>): ListedFile
    requires run != [] && OneCopyEach(run)
  {
    run[0].(tapeFiles := CopiesIn(run))
  }

  function Concat<T>(runs: seq<seq<T>>): seq<T> {
    if runs == [] then [] else runs[0] + Concat(runs[1..])
  }

  ghost predicate RunsOfFiles(runs: seq<seq<ListedFile>>) {
    && (forall j :: 0 <= j < |runs| ==> IsRun(runs[j]))
    && (forall j :: 0 <= j < |runs| - 1 ==> runs[j][0].archiveFileId != runs[j + 1][0].archiveFileId)
  }

  ghost predicate Describes(files: seq<ListedFile>, runs: seq<seq<ListedFile>>) {
    |files| == |runs| && forall j :: 0 <= j < |runs| ==> IsRun(runs[j]) && files[j] == Merge(runs[j])
  }

  /** `runs` are the maximal runs of equal identifiers in `rows`, and `files` what they describe. */
  ghost predicate MaximalRuns(rows: seq<ListedFile>, files: seq<ListedFile>, runs: seq<seq<ListedFile>>) {
    Concat(runs) == rows && RunsOfFiles(runs) && Describes(files, runs)
  }

  lemma {:induction false} MergeGrows(done: seq<ListedFile>, row: ListedFile)
    requires IsRun(done) && |row.tapeFiles| == 1
    ensures OneCopyEach(done + [row])
    ensures Merge(done + [row]) == Merge(done).(tapeFiles := Merge(done).tapeFiles + [row.tapeFiles[0]])
  {
    assert CopiesIn(done + [row]) == CopiesIn(done) + [row.tapeFiles[0]];
  }

  lemma {:induction false} OneRowRun(row: ListedFile)
    requires |row.tapeFiles| == 1
    ensures IsRun([row]) && Merge([row]) == row
  {
    assert CopiesIn([row]) == row.tapeFiles;
  }

  lemma {:induction false} RunsPrepend(done: seq<ListedFile>, rows: seq<ListedFile>, files: seq<ListedFile>,
                                       runs: seq<seq<ListedFile>>)
    requires IsRun(done) && MaximalRuns(rows, files, runs) && runs != []
    requires done[0].archiveFileId != runs[0][0].archiveFileId
    ensures MaximalRuns(done + rows, [Merge(done)] + files, [done] + runs)
  {
    var all := [done] + runs;
    assert all[1..] == runs;
    forall j | 0 <= j < |all| - 1 ensures all[j][0].archiveFileId != all[j + 1][0].archiveFileId {
      if j > 0 { assert all[j] == runs[j - 1] && all[j + 1] == runs[j]; }
    }
  }

  lemma {:induction false} GroupRunsFrom(done: seq<ListedFile>, rows: seq<ListedFile>)
    returns (runs: seq<seq<ListedFile>>)
    requires IsRun(done) && OneCopyEach(rows)
    ensures MaximalRuns(done + rows, Group(Some(Merge(done)), rows), runs)
    ensures runs != [] && done <= runs[0]
    decreases |rows|
  {
    if rows == [] {
      runs := [done];
      assert runs[1..] == [] && done + [] == done;
    } else {
      var row, rest := rows[0], rows[1..];
      if row.archiveFileId == done[0].archiveFileId {
        assert done + rows == (done + [row]) + rest;
        MergeGrows(done, row);
        runs := GroupRunsFrom(done + [row], rest);
      } else {
        assert [row] + rest == rows;
        OneRowRun(row);
        runs := GroupRunsFrom([row], rest);
        RunsPrepend(done, rows, Group(Some(row), rest), runs);
        runs := [done] + runs;
      }
    }
  }

  /** When every row carries one copy, the listing is the list of maximal runs of equal identifiers. */
  lemma {:induction false} ListingIsMaximalRuns(rows: seq<ListedFile>) returns (runs: seq<seq<ListedFile>>)
    requires OneCopyEach(rows)
    ensures MaximalRuns(rows, Group(None, rows), runs)
  {
    if rows == [] {
      runs := [];
    } else {
      assert [rows[0]] + rows[1..] == rows;
      OneRowRun(rows[0]);
      runs := GroupRunsFrom([rows[0]], rows[1..]);
    }
  }

  lemma {:induction false} ConcatEmpty(runs: seq<seq<ListedFile>>)
    requires RunsOfFiles(runs)
    ensures Concat(runs) == [] <==> runs == []
  {
  }

  /** There is only one way to cut rows into maximal runs. */
  lemma {:induction false} MaximalRunsUnique(a: seq<seq<ListedFile>>, b: seq<seq<ListedFile>>)
    requires RunsOfFiles(a) && RunsOfFiles(b) && Concat(a) == Concat(b)
    ensures a == b
    decreases |a|
  {
    ConcatEmpty(a);
    ConcatEmpty(b);
    if a != [] {
      FirstRunEnds(a);
      FirstRunEnds(b);
      assert |a[0]| == |b[0]|;
      assert a[0] == Concat(a)[..|a[0]|] && b[0] == Concat(b)[..|b[0]|];
      assert Concat(a[1..]) == Concat(a)[|a[0]|..] && Concat(b[1..]) == Concat(b)[|b[0]|..];
      RunsTail(a);
      RunsTail(b);
      MaximalRunsUnique(a[1..], b[1..]);
      assert a == [a[0]] + a[1..] && b == [b[0]] + b[1..];
    }
  }

  lemma {:induction false} RunsTail(runs: seq<seq<ListedFile>>)
    requires RunsOfFiles(runs) && runs != []
    ensures RunsOfFiles(runs[1..])
  {
    var tail: seq<seq<ListedFile>> := runs[1..];
    forall j | 0 <= j < |tail| - 1 ensures tail[j][0].archiveFileId != tail[j + 1][0].archiveFileId {
      assert tail[j] == runs[j + 1] && tail[j + 1] == runs[j + 2];
    }
  }

  /** A first run goes on exactly as long as the identifiers stay the same. */
  lemma {:induction false} FirstRunEnds(runs: seq<seq<ListedFile>>)
    requires RunsOfFiles(runs) && runs != []
    ensures var rows, n := Concat(runs), |runs[0]|;
            && 0 < n <= |rows| && (forall i :: 0 <= i < n ==> rows[i].archiveFileId == rows[0].archiveFileId)
            && (n < |rows| ==> rows[n].archiveFileId != rows[0].archiveFileId)
  {
    assert IsRun(runs[0]);
    if |runs| > 1 {
      assert runs[1..][0] == runs[1] && IsRun(runs[1]);
      assert Concat(runs[1..]) == runs[1] + Concat(runs[1..][1..]);
      assert Concat(runs)[|runs[0]|] == runs[1][0];
      assert runs[0][0].archiveFileId != runs[0 + 1][0].archiveFileId;
    }
  }

  // ----- consequences -----

  function PairsOf(rows: seq<ListedFile>): seq<(uint64, ListedCopy)>
    requires OneCopyEach(rows)
  {
    seq(|rows|, i requires 0 <= i < |rows| => (rows[i].archiveFileId, rows[i].tapeFiles[0]))
  }

  function Flatten(files: seq<ListedFile>): seq<(uint64, ListedCopy)> {
    if files == [] then []
    else
      seq(|files[0].tapeFiles|,
          i requires 0 <= i < |files[0].tapeFiles| => (files[0].archiveFileId, files[0].tapeFiles[i]))
      + Flatten(files[1..])
  }

  lemma {:induction false} FlattenRuns(files: seq<ListedFile>, runs: seq<seq<ListedFile>>)
    requires RunsOfFiles(runs) && Describes(files, runs)
    ensures OneCopyEach(Concat(runs)) && Flatten(files) == PairsOf(Concat(runs))
  {
    if runs != [] {
      RunsTail(runs);
      assert forall j :: 0 <= j < |runs| - 1 ==> runs[1..][j] == runs[j + 1] && files[1..][j] == files[j + 1];
      FlattenRuns(files[1..], runs[1..]);
      assert IsRun(runs[0]) && files[0] == Merge(runs[0]);
      assert PairsOf(runs[0] + Concat(runs[1..])) == PairsOf(runs[0]) + PairsOf(Concat(runs[1..]));
    }
  }

  /** Flattening the listing gives the rows back in order, and no two neighbouring files share an identifier. */
  lemma {:induction false} ListingKeepsRows(rows: seq<ListedFile>)
    requires OneCopyEach(rows)
    ensures Flatten(Group(None, rows)) == PairsOf(rows)
    ensures var files := Group(None, rows);
            forall j :: 0 <= j < |files| - 1 ==> files[j].archiveFileId != files[j + 1].archiveFileId
  {
    var runs := ListingIsMaximalRuns(rows);
    FlattenRuns(Group(None, rows), runs);
  }

  /** Where the run `m` starts among the rows. */
  ghost function RunStart(runs: seq<seq<ListedFile>>, m: nat): nat
    requires m < |runs|
  {
    if m == 0 then 0 else |runs[0]| + RunStart(runs[1..], m - 1)
  }

  /** A run is a stretch of the rows. */
  lemma {:induction false} RunIsStretch(runs: seq<seq<ListedFile>>, m: nat)
    requires m < |runs|
    ensures RunStart(runs, m) + |runs[m]| <= |Concat(runs)|
    ensures Concat(runs)[RunStart(runs, m)..RunStart(runs, m) + |runs[m]|] == runs[m]
  {
    if m > 0 {
      RunIsStretch(runs[1..], m - 1);
      var start := RunStart(runs[1..], m - 1);
      assert Concat(runs)[|runs[0]| + start..|runs[0]| + start + |runs[m]|]
             == Concat(runs[1..])[start..start + |runs[m]|];
    }
  }

  lemma {:induction false} RunStartsThere(runs: seq<seq<ListedFile>>, m: nat)
    requires RunsOfFiles(runs) && m < |runs|
    ensures RunStart(runs, m) < |Concat(runs)| && Concat(runs)[RunStart(runs, m)] == runs[m][0]
  {
    assert IsRun(runs[0]);
    if m > 0 {
      RunsTail(runs);
      RunStartsThere(runs[1..], m - 1);
    }
  }

  lemma {:induction false} RunStartsInOrder(runs: seq<seq<ListedFile>>, m: nat, n: nat)
    requires RunsOfFiles(runs) && m < n < |runs|
    ensures RunStart(runs, m) < RunStart(runs, n)
  {
    assert IsRun(runs[0]);
    if m > 0 {
      RunsTail(runs);
      RunStartsInOrder(runs[1..], m - 1, n - 1);
    }
  }

  /** The run that the row `i` is in. */
  ghost function RunIndex(runs: seq<seq<ListedFile>>, i: nat): (m: nat)
    requires RunsOfFiles(runs) && i < |Concat(runs)|
    ensures m < |runs| && Concat(runs)[i] in runs[m] && Concat(runs)[i].archiveFileId == runs[m][0].archiveFileId
  {
    assert IsRun(runs[0]);
    if i < |runs[0]| then 0
    else
      RunsTail(runs);
      1 + RunIndex(runs[1..], i - |runs[0]|)
  }

  lemma {:induction false} RunIndexInOrder(runs: seq<seq<ListedFile>>, i: nat, j: nat)
    requires RunsOfFiles(runs) && i <= j < |Concat(runs)|
    ensures RunIndex(runs, i) <= RunIndex(runs, j)
  {
    if |runs[0]| <= i {
      RunsTail(runs);
      RunIndexInOrder(runs[1..], i - |runs[0]|, j - |runs[0]|);
    }
  }

  /** The rows of each archive file come one after the other. */
  ghost predicate Contiguous(rows: seq<ListedFile>) {
    forall i, j, k :: 0 <= i < j < k < |rows| && rows[i].archiveFileId == rows[k].archiveFileId ==>
                        rows[j].archiveFileId == rows[i].archiveFileId
  }

  ghost predicate OneFilePerId(files: seq<ListedFile>) {
    forall i, j :: 0 <= i < j < |files| ==> files[i].archiveFileId != files[j].archiveFileId
  }

  /** An archive file is listed once exactly when the chosen order keeps its rows together. */
  lemma {:induction false} OneFilePerIdIffContiguous(rows: seq<ListedFile>)
    requires OneCopyEach(rows)
    ensures OneFilePerId(Group(None, rows)) <==> Contiguous(rows)
  {
    var runs := ListingIsMaximalRuns(rows);
    if Contiguous(rows) { ContiguousRunsDiffer(runs); }
    if OneFilePerId(Group(None, rows)) { DifferingRunsContiguous(runs); }
  }

  ghost predicate RunsDiffer(runs: seq<seq<ListedFile>>)
    requires RunsOfFiles(runs)
  {
    forall i, j :: 0 <= i < j < |runs| ==> runs[i][0].archiveFileId != runs[j][0].archiveFileId
  }

  lemma {:induction false} ContiguousRunsDiffer(runs: seq<seq<ListedFile>>)
    requires RunsOfFiles(runs) && Contiguous(Concat(runs))
    ensures RunsDiffer(runs)
  {
    forall i, j | 0 <= i < j < |runs| ensures runs[i][0].archiveFileId != runs[j][0].archiveFileId {
      RunStartsThere(runs, i);
      RunStartsThere(runs, i + 1);
      RunStartsThere(runs, j);
      RunStartsInOrder(runs, i, i + 1);
      if i + 1 < j { RunStartsInOrder(runs, i + 1, j); }
      assert runs[i][0].archiveFileId != runs[i + 1][0].archiveFileId;
    }
  }

  lemma {:induction false} DifferingRunsContiguous(runs: seq<seq<ListedFile>>)
    requires RunsOfFiles(runs) && RunsDiffer(runs)
    ensures Contiguous(Concat(runs))
  {
    var rows := Concat(runs);
    forall i, j, k | 0 <= i < j < k < |rows| && rows[i].archiveFileId == rows[k].archiveFileId
      ensures rows[j].archiveFileId == rows[i].archiveFileId
    {
      RunIndexInOrder(runs, i, j);
      RunIndexInOrder(runs, j, k);
      assert RunIndex(runs, i) == RunIndex(runs, k);
    }
  }
}
