/** When the two back ends report the same error, for every batch. */
module ErrorReports {
  import opened Tables
  import opened TapeWrite
  import opened WriteSpec
  import opened WriteTheorems

  type FileRows = map<uint64, ArchiveFile>

  /** The Postgres insertion left `rp` with a row for the file, the Oracle insertion skipped it. */
  ghost predicate Skipped(rp: FileRows, ro: FileRows, f: FileEvent) {
    f.archiveFileId in rp && f.archiveFileId !in ro
  }

  ghost predicate FirstSkipped(rp: FileRows, ro: FileRows, files: seq<FileEvent>, k: nat) {
    k < |files| && Skipped(rp, ro, files[k]) && forall j :: 0 <= j < k ==> !Skipped(rp, ro, files[j])
  }

  /** No file is skipped before one that fails in both or, if one is, the first failure of Postgres is a missing entry
      as well; and identifiers that repeat are noticed by both. */
  ghost predicate SameFault(rp: FileRows, ro: FileRows, files: seq<FileEvent>) {
    if RepeatsArchiveFile(rp, files) then RepeatsArchiveFile(ro, files)
    else
      forall k: nat :: FirstSkipped(rp, ro, files, k) ==>
                         CheckFiles(rp, files[..k]).Some? || CheckFiles(rp, files) == Some(NoArchiveFileEntry)
  }

  /** The insertions into ARCHIVE_FILE both fail, or both succeed and lead to the same fault. */
  ghost predicate SameReport(db: Database, files: seq<FileEvent>, now: nat) {
    var p, o := PostgresInsertArchiveFiles(db, files, now), OracleInsertArchiveFiles(db, files, now);
    if p.Ok? && o.Ok? then SameFault(p.value, o.value, files) else p.Err? && o.Err?
  }

  // ----- what the insertions leave -----

  /** Oracle never has a row that Postgres has not. */
  lemma {:induction false} OracleRowsAmongPostgres(db: Database, files: seq<FileEvent>, now: nat)
    ensures var p, o := PostgresInsertArchiveFiles(db, files, now), OracleInsertArchiveFiles(db, files, now);
            p.Ok? && o.Ok? ==> o.value.Keys <= p.value.Keys
  {
    if files == [] {
      assert !OtherThanUnique([]);
    } else {
      OracleRowsAmongPostgres(db, files[..|files| - 1], now);
      OracleInsertNext(db, files, now);
    }
  }

  lemma {:induction false} OnlyForeignKeysFail(db: Database, files: seq<FileEvent>, now: nat)
    ensures var p := PostgresInsertArchiveFiles(db, files, now); p.Err? ==> p.error == ForeignKeyViolation
    ensures var o := OracleInsertArchiveFiles(db, files, now); o.Err? ==> o.error == ForeignKeyViolation
  {
    if files != [] { OnlyForeignKeysFail(db, files[..|files| - 1], now); }
  }

  /** While no identifier repeats, a row that both have is the same. */
  lemma {:induction false} RowsAgree(db: Database, files: seq<FileEvent>, now: nat, rp: FileRows, ro: FileRows,
                                     id: uint64)
    requires Extension(db, files, now, rp) && Extension(db, files, now, ro) && !RepeatsArchiveFile(rp, files)
    requires id in rp && id in ro
    ensures rp[id] == ro[id]
  {
    if id !in db.archiveFiles {
      var f :| f in files && f.archiveFileId == id && Creatable(db, f) && rp[id] == ArchiveFileOf(f, now);
      var g :| g in files && g.archiveFileId == id && Creatable(db, g) && ro[id] == ArchiveFileOf(g, now);
      var i :| 0 <= i < |files| && files[i] == f;
      var j :| 0 <= j < |files| && files[j] == g;
    }
  }

  // ----- verification -----

  lemma {:induction false} SameChecks(rp: FileRows, ro: FileRows, files: seq<FileEvent>)
    requires forall i :: 0 <= i < |files| ==> CheckFile(rp, files[i]) == CheckFile(ro, files[i])
    ensures CheckFiles(rp, files) == CheckFiles(ro, files)
  {
    if files != [] { SameChecks(rp, ro, files[..|files| - 1]); }
  }

  lemma {:induction false} CheckErrors(rows: FileRows, files: seq<FileEvent>)
    ensures CheckFiles(rows, files) in
            {None, Some(NoArchiveFileEntry), Some(FileSizeMismatch), Some(ChecksumMismatch)}
  {
    if files != [] { CheckErrors(rows, files[..|files| - 1]); }
  }

  /** The Oracle verdict when the file `k` is the first that was skipped. */
  lemma {:induction false} VerdictOnSkipped(rp: FileRows, ro: FileRows, files: seq<FileEvent>, k: nat)
    requires FirstSkipped(rp, ro, files, k) && ro.Keys <= rp.Keys && forall id :: id in ro ==> rp[id] == ro[id]
    ensures CheckFiles(ro, files) ==
            if CheckFiles(rp, files[..k]).Some? then CheckFiles(rp, files) else Some(NoArchiveFileEntry)
  {
    forall i | 0 <= i < k ensures CheckFile(rp, files[..k][i]) == CheckFile(ro, files[..k][i]) {
      assert files[..k][i] == files[i];
    }
    SameChecks(rp, ro, files[..k]);
    if CheckFiles(rp, files[..k]).Some? {
      CheckErrorStays(rp, files, k);
      CheckErrorStays(ro, files, k);
    } else {
      assert files[..k + 1][..k] == files[..k];
      CheckErrorStays(ro, files, k + 1);
    }
  }

  lemma {:induction false} FindFirstSkipped(rp: FileRows, ro: FileRows, files: seq<FileEvent>, n: nat) returns (k: nat)
    requires n < |files| && Skipped(rp, ro, files[n])
    ensures FirstSkipped(rp, ro, files, k)
  {
    k := n;
    if j :| 0 <= j < n && Skipped(rp, ro, files[j]) { k := FindFirstSkipped(rp, ro, files, j); }
  }

  /** Without repeated identifiers: the verdicts are the same exactly when the fault is, and Oracle has one if a file
      was skipped. */
  lemma {:induction false} SameVerdictIff(rp: FileRows, ro: FileRows, files: seq<FileEvent>)
    requires ro.Keys <= rp.Keys && (forall id :: id in ro ==> rp[id] == ro[id]) && !RepeatsArchiveFile(rp, files)
    ensures CheckFiles(rp, files) == CheckFiles(ro, files) <==> SameFault(rp, ro, files)
    ensures (forall f :: f in files ==> !Skipped(rp, ro, f)) || CheckFiles(ro, files).Some?
  {
    if n: nat :| n < |files| && Skipped(rp, ro, files[n]) {
      var k := FindFirstSkipped(rp, ro, files, n);
      VerdictOnSkipped(rp, ro, files, k);
      if CheckFiles(rp, files[..k]).Some? { CheckErrorStays(rp, files, k); }
      assert forall m: nat :: FirstSkipped(rp, ro, files, m) ==> m == k;
    } else {
      forall i | 0 <= i < |files| ensures CheckFile(rp, files[i]) == CheckFile(ro, files[i]) {
        assert !Skipped(rp, ro, files[i]);
      }
      SameChecks(rp, ro, files);
    }
  }

  // ----- outcomes -----

  /** What Postgres makes of the rows its insertion left. */
  function PostgresOutcome(before: FileRows, db: Database, rows: FileRows, files: seq<FileEvent>, now: nat): Outcome {
    var r := RecordTapeFiles(db, rows, files, now);
    if r.Committed? && !DeferredCheckPasses(before, rows) then Failed(DiskFileIdTaken) else r
  }

  lemma {:induction false} NoneSkippedSameRows(db: Database, files: seq<FileEvent>, now: nat, rp: FileRows,
                                               ro: FileRows)
    requires Extension(db, files, now, rp) && Extension(db, files, now, ro) && ro.Keys <= rp.Keys
    requires forall id :: id in ro ==> rp[id] == ro[id]
    requires forall f :: f in files ==> !Skipped(rp, ro, f)
    ensures rp == ro
  {
    forall id | id in rp ensures id in ro {
      if id !in db.archiveFiles {
        var f :| f in files && f.archiveFileId == id && Creatable(db, f) && rp[id] == ArchiveFileOf(f, now);
        assert !Skipped(rp, ro, f);
      }
    }
  }

  /** Errors found by verification are told apart from all later ones. */
  lemma {:induction false} OutcomeShowsVerdict(before: FileRows, db: Database, rows: FileRows, files: seq<FileEvent>,
                                               now: nat, e: WriteError)
    requires e in {DuplicateArchiveFileId, NoArchiveFileEntry, FileSizeMismatch, ChecksumMismatch}
    ensures RecordTapeFiles(db, rows, files, now) == Failed(e) <==> VerifyFiles(rows, files) == Some(e)
    ensures PostgresOutcome(before, db, rows, files, now) == Failed(e) <==> VerifyFiles(rows, files) == Some(e)
  {
  }

  /** If Oracle's verification finds an error, the outcomes are the same exactly when the verdicts are. */
  lemma {:induction false} SameOutcomeIffSameVerdict(db: Database, files: seq<FileEvent>, now: nat, rp: FileRows,
                                                     ro: FileRows)
    requires VerifyFiles(ro, files).Some?
    ensures PostgresOutcome(db.archiveFiles, db, rp, files, now) == RecordTapeFiles(db, ro, files, now) <==>
            VerifyFiles(rp, files) == VerifyFiles(ro, files)
  {
    CheckErrors(ro, files);
    OutcomeShowsVerdict(db.archiveFiles, db, rp, files, now, VerifyFiles(ro, files).value);
  }

  lemma {:induction false} RepeatsSameIff(db: Database, files: seq<FileEvent>, now: nat, rp: FileRows, ro: FileRows)
    requires RepeatsArchiveFile(rp, files)
    ensures PostgresOutcome(db.archiveFiles, db, rp, files, now) == RecordTapeFiles(db, ro, files, now) <==>
            RepeatsArchiveFile(ro, files)
  {
    CheckErrors(ro, files);
    OutcomeShowsVerdict(db.archiveFiles, db, rp, files, now, DuplicateArchiveFileId);
    OutcomeShowsVerdict(db.archiveFiles, db, ro, files, now, DuplicateArchiveFileId);
  }

  lemma {:induction false} SameOutcomeIffSameFault(db: Database, files: seq<FileEvent>, now: nat, rp: FileRows,
                                                   ro: FileRows)
    requires Extension(db, files, now, rp) && Extension(db, files, now, ro) && ro.Keys <= rp.Keys
    requires DeferredCheckPasses(db.archiveFiles, ro)
    ensures PostgresOutcome(db.archiveFiles, db, rp, files, now) == RecordTapeFiles(db, ro, files, now) <==>
            SameFault(rp, ro, files)
  {
    if RepeatsArchiveFile(rp, files) {
      RepeatsSameIff(db, files, now, rp, ro);
    } else {
      forall id | id in ro ensures rp[id] == ro[id] { RowsAgree(db, files, now, rp, ro, id); }
      SameVerdictIff(rp, ro, files);
      NoNewRepeats(rp, ro, files);
      if forall f :: f in files ==> !Skipped(rp, ro, f) {
        NoneSkippedSameRows(db, files, now, rp, ro);
      } else {
        SameOutcomeIffSameVerdict(db, files, now, rp, ro);
      }
    }
  }

  lemma {:induction false} NoNewRepeats(rp: FileRows, ro: FileRows, files: seq<FileEvent>)
    requires ro.Keys <= rp.Keys && !RepeatsArchiveFile(rp, files)
    ensures !RepeatsArchiveFile(ro, files)
  {
  }

  lemma {:induction false} InsertionsIgnoreTapes(db: Database, db1: Database, files: seq<FileEvent>, now: nat)
    requires db1 == db.(tapes := db1.tapes)
    ensures PostgresInsertArchiveFiles(db1, files, now) == PostgresInsertArchiveFiles(db, files, now)
    ensures OracleArrayUpdate(db1, files, now) == OracleArrayUpdate(db, files, now)
  {
    if files != [] { InsertionsIgnoreTapes(db, db1, files[..|files| - 1], now); }
  }

  lemma {:induction false} StatementsReportSameIff(db: Database, files: seq<FileEvent>, now: nat)
    ensures var p, o := PostgresInsertArchiveFiles(db, files, now), OracleInsertArchiveFiles(db, files, now);
            var pw := if p.Err? then Failed(p.error) else PostgresOutcome(db.archiveFiles, db, p.value, files, now);
            var ow := if o.Err? then Failed(o.error) else RecordTapeFiles(db, o.value, files, now);
            pw == ow <==> SameReport(db, files, now)
  {
    var p, o := PostgresInsertArchiveFiles(db, files, now), OracleInsertArchiveFiles(db, files, now);
    OnlyForeignKeysFail(db, files, now);
    if p.Ok? && o.Ok? {
      PostgresInsertExtends(db, files, now);
      OracleInsertExtends(db, files, now);
      OracleRowsAmongPostgres(db, files, now);
      SameOutcomeIffSameFault(db, files, now, p.value, o.value);
    } else if p.Ok? {
      CheckErrors(p.value, files);
    } else if o.Ok? {
      CheckErrors(o.value, files);
    }
  }

  /** The two back ends answer alike, commit or error, if and only if the batch is refused before ARCHIVE_FILE is
      touched or the insertions lead to the same report. */
  lemma {:induction false} SameAnswerIff(db: Database, items: seq<TapeItem>, now: nat)
    ensures PostgresWrite(db, items, now) == OracleWrite(db, items, now) <==>
            (items != [] && BeginWrite(db, items, now).Ok? ==> SameReport(db, FilesOf(items), now))
  {
    if items != [] && BeginWrite(db, items, now).Ok? {
      BeginWriteAccepts(db, items, now);
      var (db1, files) := BeginWrite(db, items, now).value;
      InsertionsIgnoreTapes(db, db1, files, now);
      if files == [] {
        assert !OtherThanUnique([]);
      } else {
        StatementsReportSameIff(db1, files, now);
        assert SameReport(db1, files, now) <==> SameReport(db, files, now);
      }
    }
  }
}
