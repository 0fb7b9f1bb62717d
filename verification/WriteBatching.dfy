/** Writing a batch in one transaction is writing its parts one after the other. */
module WriteBatching {
  import opened Tables
  import opened TapeWrite
  import opened WriteSpec
  import opened WriteTheorems

  /** What a joint commit of `xs` and `ys` needs beyond both parts committing in turn: one tape, no archive file in
      both, and no file of `ys` on a place or block that `xs` frees by superseding its holder. */
  ghost predicate Joinable(db: Database, xs: seq<TapeItem>, ys: seq<TapeItem>) {
    xs == [] || ys == [] ||
    (&& xs[0].Vid() == ys[0].Vid()
     && (forall f, g :: f in FilesOf(xs) && g in FilesOf(ys) ==> f.archiveFileId != g.archiveFileId)
     && (forall p, g :: p in OldCopies(db.tapeFiles, FilesOf(xs)) && g in FilesOf(ys) ==>
                          p != g.Pos() && (p.vid == g.vid ==> db.tapeFiles[p].blockId != g.blockId)))
  }

  // ----- the tape -----

  lemma {:induction false} ContinuesConcat(vid: string, lastFSeq: uint64, xs: seq<TapeItem>, ys: seq<TapeItem>)
    requires lastFSeq + |xs| < TWO_64
    ensures Continues(vid, lastFSeq, xs + ys) <==> Continues(vid, lastFSeq, xs) && Continues(vid, lastFSeq + |xs|, ys)
  {
    var zs := xs + ys;
    assert forall i :: 0 <= i < |xs| ==> zs[i] == xs[i];
    assert forall j :: 0 <= j < |ys| ==> zs[|xs| + j] == ys[j];
    if Continues(vid, lastFSeq, xs) && Continues(vid, lastFSeq + |xs|, ys) {
      forall i | 0 <= i < |zs| ensures ItemContinues(vid, lastFSeq + 1 + i, zs[i]) {
        if i >= |xs| { assert zs[i] == ys[i - |xs|]; }
      }
    }
    if Continues(vid, lastFSeq, zs) {
      forall j | 0 <= j < |ys| ensures ItemContinues(vid, lastFSeq + |xs| + 1 + j, ys[j]) {
        assert ys[j] == zs[|xs| + j];
      }
    }
  }

  lemma {:induction false} BytesConcat(xs: seq<FileEvent>, ys: seq<FileEvent>)
    ensures BytesWritten(xs + ys) == WrapAdd(BytesWritten(xs), BytesWritten(ys))
  {
    if ys == [] {
      assert xs + ys == xs;
    } else {
      assert (xs + ys)[..|xs + ys| - 1] == xs + ys[..|ys| - 1];
      BytesConcat(xs, ys[..|ys| - 1]);
    }
  }

  // ----- splitting what is accepted -----

  ghost predicate Apart(db: Database, f: FileEvent, g: FileEvent) {
    && f.archiveFileId != g.archiveFileId && f.fSeq != g.fSeq && f.blockId != g.blockId
    && (f.archiveFileId !in db.archiveFiles && g.archiveFileId !in db.archiveFiles ==>
          !SameDiskFile(ArchiveFileOf(f, 0), ArchiveFileOf(g, 0)))
  }

  ghost predicate AllApart(db: Database, files: seq<FileEvent>) {
    forall i, j :: 0 <= i < j < |files| ==> Apart(db, files[i], files[j])
  }

  ghost predicate EachAcceptable(db: Database, files: seq<FileEvent>) {
    forall f :: f in files ==> FileAcceptable(db, f) && PlaceFree(db, f)
  }

  lemma {:induction false} AcceptableMeansApart(db: Database, files: seq<FileEvent>)
    ensures FilesAcceptable(db, files) <==> AllApart(db, files) && EachAcceptable(db, files)
  {
    if AllApart(db, files) {
      forall i, j | 0 <= i < j < |files|
        ensures files[i].archiveFileId != files[j].archiveFileId && files[i].fSeq != files[j].fSeq
        ensures files[i].blockId != files[j].blockId
        ensures files[i].archiveFileId !in db.archiveFiles && files[j].archiveFileId !in db.archiveFiles ==>
                  !SameDiskFile(ArchiveFileOf(files[i], 0), ArchiveFileOf(files[j], 0))
      {
        assert Apart(db, files[i], files[j]);
      }
    }
  }

  lemma {:induction false} ApartConcat(db: Database, fx: seq<FileEvent>, fy: seq<FileEvent>)
    ensures AllApart(db, fx + fy) <==>
            AllApart(db, fx) && AllApart(db, fy) && forall f, g :: f in fx && g in fy ==> Apart(db, f, g)
  {
    var fs := fx + fy;
    if AllApart(db, fs) {
      forall i, j | 0 <= i < j < |fx| ensures Apart(db, fx[i], fx[j]) { assert Apart(db, fs[i], fs[j]); }
      forall i, j | 0 <= i < j < |fy| ensures Apart(db, fy[i], fy[j]) { assert Apart(db, fs[|fx| + i], fs[|fx| + j]); }
      forall f, g | f in fx && g in fy ensures Apart(db, f, g) {
        var i :| 0 <= i < |fx| && fx[i] == f;
        var j :| 0 <= j < |fy| && fy[j] == g;
        assert Apart(db, fs[i], fs[|fx| + j]);
      }
    }
    if AllApart(db, fx) && AllApart(db, fy) && forall f, g :: f in fx && g in fy ==> Apart(db, f, g) {
      forall i, j | 0 <= i < j < |fs| ensures Apart(db, fs[i], fs[j]) {
        if j < |fx| { assert Apart(db, fx[i], fx[j]); }
        else if |fx| <= i { assert Apart(db, fy[i - |fx|], fy[j - |fx|]); }
        else { assert fs[i] == fx[i] && fs[j] == fy[j - |fx|]; }
      }
    }
  }

  lemma {:induction false} PartsAcceptable(db: Database, fx: seq<FileEvent>, fy: seq<FileEvent>)
    requires FilesAcceptable(db, fx + fy)
    ensures FilesAcceptable(db, fx) && FilesAcceptable(db, fy)
    ensures forall f, g :: f in fx && g in fy ==> Apart(db, f, g)
  {
    AcceptableMeansApart(db, fx + fy);
    ApartConcat(db, fx, fy);
    assert forall f :: f in fx || f in fy ==> f in fx + fy;
    AcceptableMeansApart(db, fx);
    AcceptableMeansApart(db, fy);
  }

  /** The rest of a batch stays acceptable once the first part is committed. */
  lemma {:induction false} RestStaysAcceptable(db: Database, xs: seq<TapeItem>, fy: seq<FileEvent>, now: nat)
    requires Accepts(db, xs) && FilesAcceptable(db, FilesOf(xs) + fy) && SameTape(xs, fy)
    ensures FilesAcceptable(Written(db, xs, now), fy)
  {
    var fx, mid := FilesOf(xs), Written(db, xs, now);
    PartsAcceptable(db, fx, fy);
    WrittenRegisters(db, xs, now);
    forall g | g in fy
      ensures g.archiveFileId in mid.archiveFiles <==> g.archiveFileId in db.archiveFiles
      ensures FileAcceptable(mid, g)
    {
      assert forall f :: f in fx ==> Apart(db, f, g);
      FileStaysAcceptable(db, fx, g, mid, now);
    }
    LiveCopiesAfterWrite(db, xs, now);
    forall g | g in fy ensures PlaceFree(mid, g) {
      assert PlaceFree(db, g);
      forall p | p in mid.tapeFiles && p.vid == g.vid
        ensures p != g.Pos() && mid.tapeFiles[p].blockId != g.blockId
      {
        if p !in db.tapeFiles {
          var f :| f in fx && f.Pos() == p;
          assert Apart(db, f, g);
        }
      }
    }
  }

  ghost predicate SameTape(xs: seq<TapeItem>, fy: seq<FileEvent>) {
    forall f, g :: f in FilesOf(xs) && g in fy ==> f.vid == g.vid
  }

  lemma {:induction false} WrittenRegisters(db: Database, xs: seq<TapeItem>, now: nat)
    requires Accepts(db, xs)
    ensures Written(db, xs, now).archiveFiles == Register(db.archiveFiles, FilesOf(xs), now)
    ensures Written(db, xs, now).storageClasses == db.storageClasses
    ensures Written(db, xs, now).diskInstances == db.diskInstances
  {
  }

  lemma {:induction false} FileStaysAcceptable(db: Database, fx: seq<FileEvent>, g: FileEvent, mid: Database, now: nat)
    requires mid.archiveFiles == Register(db.archiveFiles, fx, now)
    requires mid.storageClasses == db.storageClasses && mid.diskInstances == db.diskInstances
    requires forall f :: f in fx ==> f.archiveFileId != g.archiveFileId
    requires FileAcceptable(db, g)
    requires forall f :: f in fx && f.archiveFileId !in db.archiveFiles && g.archiveFileId !in db.archiveFiles ==>
                           !SameDiskFile(ArchiveFileOf(f, 0), ArchiveFileOf(g, 0))
    ensures FileAcceptable(mid, g) && (g.archiveFileId in mid.archiveFiles <==> g.archiveFileId in db.archiveFiles)
  {
    RegisterAt(db.archiveFiles, fx, now, g.archiveFileId);
    if g.archiveFileId !in db.archiveFiles {
      forall id | id in mid.archiveFiles ensures !SameDiskFile(mid.archiveFiles[id], ArchiveFileOf(g, 0)) {
        RegisterAt(db.archiveFiles, fx, now, id);
        if id !in db.archiveFiles {
          var f :| f in fx && f.archiveFileId == id && mid.archiveFiles[id] == ArchiveFileOf(f, now);
        } else {
          assert !SameDiskFile(db.archiveFiles[id], ArchiveFileOf(g, 0));
        }
      }
    }
  }

  lemma {:induction false} FilesOnTape(db: Database, xs: seq<TapeItem>)
    requires Accepts(db, xs) && xs != []
    ensures var vid := xs[0].Vid(); var last := db.tapes[vid].lastFSeq;
            last + |xs| < TWO_64 && forall f :: f in FilesOf(xs) ==> f.vid == vid && last < f.fSeq <= last + |xs|
  {
    var vid := xs[0].Vid();
    FilesInSequence(vid, db.tapes[vid].lastFSeq, xs);
    LastFSeqFits(vid, db.tapes[vid].lastFSeq, xs);
  }

  lemma {:induction false} PartsContinue(db: Database, xs: seq<TapeItem>, ys: seq<TapeItem>, now: nat)
    requires Accepts(db, xs + ys) && xs != [] && ys != []
    ensures var vid := xs[0].Vid();
            && vid in db.tapes && (xs + ys)[0].Vid() == vid == ys[0].Vid()
               && db.tapes[vid].lastFSeq + |xs + ys| < TWO_64
            && Continues(vid, db.tapes[vid].lastFSeq, xs) && Continues(vid, db.tapes[vid].lastFSeq + |xs|, ys)
  {
    var zs, vid := xs + ys, xs[0].Vid();
    assert zs[0] == xs[0];
    LastFSeqFits(vid, db.tapes[vid].lastFSeq, zs);
    ContinuesConcat(vid, db.tapes[vid].lastFSeq, xs, ys);
  }

  /** If the whole batch commits then so do its parts, one after the other. */
  lemma {:induction false} PartsCommit(db: Database, xs: seq<TapeItem>, ys: seq<TapeItem>, now: nat)
    requires Accepts(db, xs + ys)
    ensures Accepts(db, xs) && Accepts(Written(db, xs, now), ys) && Joinable(db, xs, ys)
  {
    assert xs == [] ==> xs + ys == ys;
    assert ys == [] ==> xs + ys == xs;
    if xs != [] && ys != [] {
      PartsContinue(db, xs, ys, now);
      FilesOfConcat(xs, ys);
      PartsAcceptable(db, FilesOf(xs), FilesOf(ys));
      assert Accepts(db, xs);
      RestCommits(db, xs, ys, now);
      PartsJoinable(db, xs, ys);
    }
  }

  lemma {:induction false} RestCommits(db: Database, xs: seq<TapeItem>, ys: seq<TapeItem>, now: nat)
    requires Accepts(db, xs) && xs != [] && ys != [] && xs[0].Vid() == ys[0].Vid()
    requires FilesAcceptable(db, FilesOf(xs) + FilesOf(ys))
    requires db.tapes[xs[0].Vid()].lastFSeq + |xs| < TWO_64
    requires Continues(xs[0].Vid(), db.tapes[xs[0].Vid()].lastFSeq + |xs|, ys)
    ensures Accepts(Written(db, xs, now), ys)
  {
    var vid := xs[0].Vid();
    FilesOnTape(db, xs);
    FilesInSequence(vid, db.tapes[vid].lastFSeq + |xs|, ys);
    RestStaysAcceptable(db, xs, FilesOf(ys), now);
    assert Written(db, xs, now).tapes[vid].lastFSeq == db.tapes[vid].lastFSeq + |xs|;
  }

  lemma {:induction false} PartsJoinable(db: Database, xs: seq<TapeItem>, ys: seq<TapeItem>)
    requires xs != [] && ys != [] && xs[0].Vid() == ys[0].Vid()
    requires FilesAcceptable(db, FilesOf(ys))
    requires forall f, g :: f in FilesOf(xs) && g in FilesOf(ys) ==> Apart(db, f, g)
    ensures Joinable(db, xs, ys)
  {
    forall f, g | f in FilesOf(xs) && g in FilesOf(ys) ensures f.archiveFileId != g.archiveFileId {
      assert Apart(db, f, g);
    }
    forall p, g | p in OldCopies(db.tapeFiles, FilesOf(xs)) && g in FilesOf(ys)
      ensures p != g.Pos() && (p.vid == g.vid ==> db.tapeFiles[p].blockId != g.blockId)
    {
      assert PlaceFree(db, g);
    }
  }

  // ----- joining what commits in turn -----

  /** A file accepted after `xs`, unrelated to its files and to what it superseded, was acceptable before. */
  lemma {:induction false} FileWasAcceptable(db: Database, xs: seq<TapeItem>, g: FileEvent, now: nat)
    requires Accepts(db, xs) && FileAcceptable(Written(db, xs, now), g) && PlaceFree(Written(db, xs, now), g)
    requires forall f :: f in FilesOf(xs) ==> f.archiveFileId != g.archiveFileId
    requires forall p :: p in OldCopies(db.tapeFiles, FilesOf(xs)) ==>
                           p != g.Pos() && (p.vid == g.vid ==> db.tapeFiles[p].blockId != g.blockId)
    ensures FileAcceptable(db, g) && PlaceFree(db, g)
  {
    var fx, mid := FilesOf(xs), Written(db, xs, now);
    WrittenRegisters(db, xs, now);
    RegisterAt(db.archiveFiles, fx, now, g.archiveFileId);
    forall id | id in db.archiveFiles ensures id in mid.archiveFiles && mid.archiveFiles[id] == db.archiveFiles[id] {
      RegisterAt(db.archiveFiles, fx, now, id);
    }
    LiveCopiesAfterWrite(db, xs, now);
    if xs != [] {
      forall p | p in db.tapeFiles ensures p in mid.tapeFiles || p in OldCopies(db.tapeFiles, fx) {
        OldCopiesAreHolders(db, fx, p);
      }
    }
  }

  /** Files of the two parts do not collide with each other. */
  lemma {:induction false} PartsDoNotCollide(db: Database, xs: seq<TapeItem>, f: FileEvent, g: FileEvent, now: nat)
    requires Accepts(db, xs) && f in FilesOf(xs)
    requires FileAcceptable(Written(db, xs, now), g) && PlaceFree(Written(db, xs, now), g)
    requires f.vid == g.vid && f.fSeq != g.fSeq
    requires forall e :: e in FilesOf(xs) ==> e.archiveFileId != g.archiveFileId
    ensures Apart(db, f, g)
  {
    var fx, mid := FilesOf(xs), Written(db, xs, now);
    LiveCopiesAfterWrite(db, xs, now);
    assert mid.tapeFiles[f.Pos()] == TapeFileOf(f, now);
    WrittenRegisters(db, xs, now);
    RegisterAt(db.archiveFiles, fx, now, g.archiveFileId);
    RegisterAt(db.archiveFiles, fx, now, f.archiveFileId);
    if f.archiveFileId !in db.archiveFiles && g.archiveFileId !in db.archiveFiles {
      assert xs != [];
      var e :| e in fx && e.archiveFileId == f.archiveFileId
          && mid.archiveFiles[f.archiveFileId] == ArchiveFileOf(e, now);
      DistinctIdsUnique(fx, e, f);
      assert !SameDiskFile(mid.archiveFiles[f.archiveFileId], ArchiveFileOf(g, 0));
    }
  }

  /** Files of the second part that were apart after the first part were apart before it. */
  lemma {:induction false} ApartBefore(db: Database, xs: seq<TapeItem>, fy: seq<FileEvent>, now: nat)
    requires Accepts(db, xs) && AllApart(Written(db, xs, now), fy)
    requires forall f, g :: f in FilesOf(xs) && g in fy ==> f.archiveFileId != g.archiveFileId
    ensures AllApart(db, fy)
  {
    var mid := Written(db, xs, now);
    WrittenRegisters(db, xs, now);
    forall i, j | 0 <= i < j < |fy| ensures Apart(db, fy[i], fy[j]) {
      assert Apart(mid, fy[i], fy[j]);
      RegisterAt(db.archiveFiles, FilesOf(xs), now, fy[i].archiveFileId);
      RegisterAt(db.archiveFiles, FilesOf(xs), now, fy[j].archiveFileId);
    }
  }

  lemma {:induction false} JoinedAcceptable(db: Database, xs: seq<TapeItem>, ys: seq<TapeItem>, now: nat)
    requires xs != [] && ys != [] && Accepts(db, xs) && Accepts(Written(db, xs, now), ys) && Joinable(db, xs, ys)
    ensures FilesAcceptable(db, FilesOf(xs) + FilesOf(ys))
  {
    var fx, fy, mid := FilesOf(xs), FilesOf(ys), Written(db, xs, now);
    FilesOnTape(db, xs);
    FilesOnTape(mid, ys);
    AcceptableMeansApart(db, fx);
    AcceptableMeansApart(mid, fy);
    ApartBefore(db, xs, fy, now);
    forall f, g | f in fx && g in fy ensures Apart(db, f, g) { PartsDoNotCollide(db, xs, f, g, now); }
    ApartConcat(db, fx, fy);
    forall g | g in fy ensures FileAcceptable(db, g) && PlaceFree(db, g) { FileWasAcceptable(db, xs, g, now); }
    AcceptableMeansApart(db, fx + fy);
  }

  /** A batch commits exactly when its two parts commit in turn and can be joined. */
  lemma {:induction false} BatchCommitsIffPartsDo(db: Database, xs: seq<TapeItem>, ys: seq<TapeItem>, now: nat)
    ensures Accepts(db, xs + ys) <==> Accepts(db, xs) && Accepts(Written(db, xs, now), ys) && Joinable(db, xs, ys)
  {
    assert xs == [] ==> xs + ys == ys;
    assert ys == [] ==> xs + ys == xs;
    if Accepts(db, xs + ys) {
      PartsCommit(db, xs, ys, now);
    } else if Accepts(db, xs) && Accepts(Written(db, xs, now), ys) && Joinable(db, xs, ys) {
      if xs != [] && ys != [] {
        var vid := xs[0].Vid();
        assert (xs + ys)[0] == xs[0];
        LastFSeqFits(vid, db.tapes[vid].lastFSeq, xs);
        ContinuesConcat(vid, db.tapes[vid].lastFSeq, xs, ys);
        FilesOfConcat(xs, ys);
        JoinedAcceptable(db, xs, ys, now);
      }
    }
  }

  // ----- the results coincide -----

  lemma {:induction false} RegisterConcat(rows: map<uint64, ArchiveFile>, fx: seq<FileEvent>, fy: seq<FileEvent>,
                                          now: nat)
    requires forall f, g :: f in fx && g in fy ==> f.archiveFileId != g.archiveFileId
    ensures Register(rows, fx + fy, now) == Register(Register(rows, fx, now), fy, now)
  {
    if fy == [] {
      assert fx + fy == fx;
    } else {
      var front, last := fy[..|fy| - 1], fy[|fy| - 1];
      assert (fx + fy)[..|fx + fy| - 1] == fx + front;
      RegisterConcat(rows, fx, front, now);
      RegisterAt(rows, fx, now, last.archiveFileId);
    }
  }

  lemma {:induction false} AddConcat(tapeFiles: map<Position, TapeFile>, fx: seq<FileEvent>, fy: seq<FileEvent>,
                                     now: nat)
    ensures AddTapeFiles(tapeFiles, fx + fy, now) == AddTapeFiles(AddTapeFiles(tapeFiles, fx, now), fy, now)
  {
    if fy == [] {
      assert fx + fy == fx;
    } else {
      assert (fx + fy)[..|fx + fy| - 1] == fx + fy[..|fy| - 1];
      AddConcat(tapeFiles, fx, fy[..|fy| - 1], now);
    }
  }

  lemma {:induction false} AddAfterRemoval(tapeFiles: map<Position, TapeFile>, olds: set<Position>,
                                           files: seq<FileEvent>, now: nat)
    requires forall f :: f in files ==> f.Pos() !in olds
    ensures AddTapeFiles(tapeFiles - olds, files, now) == AddTapeFiles(tapeFiles, files, now) - olds
  {
    if files != [] {
      AddAfterRemoval(tapeFiles, olds, files[..|files| - 1], now);
      assert files[|files| - 1] in files;
    }
  }

  /** `xs` first: the copies it supersedes and those `ys` supersedes afterwards are the ones the joint batch
      supersedes. */
  lemma {:induction false} OldCopiesConcat(db: Database, xs: seq<TapeItem>, ys: seq<TapeItem>, now: nat)
    requires Accepts(db, xs + ys) && xs != [] && ys != []
    ensures Accepts(db, xs)
    ensures var ox := OldCopies(db.tapeFiles, FilesOf(xs));
            var oy := OldCopies(Written(db, xs, now).tapeFiles, FilesOf(ys));
            && ox !! oy && OldCopies(db.tapeFiles, FilesOf(xs + ys)) == ox + oy
            && (forall p :: p in oy ==> p in db.tapeFiles && Written(db, xs, now).tapeFiles[p] == db.tapeFiles[p])
  {
    PartsCommit(db, xs, ys, now);
    FilesOfConcat(xs, ys);
    var fx, fy, mid := FilesOf(xs), FilesOf(ys), Written(db, xs, now);
    PartsAcceptable(db, fx, fy);
    LiveCopiesAfterWrite(db, xs, now);
    var ox, oy, oz := OldCopies(db.tapeFiles, fx), OldCopies(mid.tapeFiles, fy), OldCopies(db.tapeFiles, fx + fy);
    forall p | p in oy ensures p in oz && p in db.tapeFiles && mid.tapeFiles[p] == db.tapeFiles[p] && p !in ox {
      var g :| g in fy && Supersedes(g, p, mid.tapeFiles[p]);
      assert forall f :: f in fx ==> Apart(db, f, g);
      assert p in db.tapeFiles;
      assert g in fx + fy;
      OldCopiesAreHolders(db, fx, p);
    }
    forall p | p in ox ensures p in oz {
      var f :| f in fx && Supersedes(f, p, db.tapeFiles[p]);
      assert f in fx + fy;
    }
    forall p | p in oz && p !in ox ensures p in oy {
      var f :| f in fx + fy && Supersedes(f, p, db.tapeFiles[p]);
      OldCopiesAreHolders(db, fx, p);
      assert f in fy && p in mid.tapeFiles;
    }
  }

  lemma {:induction false} RepackRowsConcat(db: Database, xs: seq<TapeItem>, ys: seq<TapeItem>, now: nat)
    requires Accepts(db, xs + ys) && xs != [] && ys != []
    ensures Accepts(db, xs)
    ensures var mid, fx, fy := Written(db, xs, now), FilesOf(xs), FilesOf(ys);
            var ax := Register(db.archiveFiles, fx, now); var ay := Register(ax, fy, now);
            multiset(RepackRows(db.tapeFiles, ax, OldCopies(db.tapeFiles, fx), now))
            + multiset(RepackRows(mid.tapeFiles, ay, OldCopies(mid.tapeFiles, fy), now))
            == multiset(RepackRows(db.tapeFiles, ay, OldCopies(db.tapeFiles, FilesOf(xs + ys)), now))
  {
    PartsCommit(db, xs, ys, now);
    OldCopiesConcat(db, xs, ys, now);
    SupersededFilesAreRegistered(db, xs, now);
    var mid, fx, fy := Written(db, xs, now), FilesOf(xs), FilesOf(ys);
    var ax := Register(db.archiveFiles, fx, now);
    var ay := Register(ax, fy, now);
    var ox, oy := OldCopies(db.tapeFiles, fx), OldCopies(mid.tapeFiles, fy);
    forall id | id in ax ensures id in ay && ay[id] == ax[id] { RegisterAt(ax, fy, now, id); }
    RepackRowsSplit(db.tapeFiles, mid.tapeFiles, ax, ay, ox, oy, now);
  }

  /** Recycling `ox` and then `oy` inserts what recycling both at once does. */
  lemma {:induction false} RepackRowsSplit(tapeFiles: map<Position, TapeFile>, mid: map<Position, TapeFile>,
                                           ax: map<uint64, ArchiveFile>, ay: map<uint64, ArchiveFile>,
                                           ox: set<Position>, oy: set<Position>, now: nat)
    requires ox !! oy && oy <= mid.Keys && forall p :: p in oy ==> p in tapeFiles && mid[p] == tapeFiles[p]
    requires forall p :: p in ox ==> p in tapeFiles && tapeFiles[p].archiveFileId in ax
    requires forall id :: id in ax ==> id in ay && ay[id] == ax[id]
    ensures multiset(RepackRows(tapeFiles, ax, ox, now)) + multiset(RepackRows(mid, ay, oy, now))
         == multiset(RepackRows(tapeFiles, ay, ox + oy, now))
  {
    var rx, ry, rz := RepackRows(tapeFiles, ax, ox, now), RepackRows(mid, ay, oy, now),
        RepackRows(tapeFiles, ay, ox + oy, now);
    assert rz == rx + ry by {
      forall p | p in ox ensures RepackRow(tapeFiles, ay, p, now) == RepackRow(tapeFiles, ax, p, now) { }
      forall p | p in oy
          && mid[p].archiveFileId in ay ensures RepackRow(tapeFiles, ay, p, now) == RepackRow(mid, ay, p, now) { }
    }
    assert rx !! ry by {
      forall r | r in rx ensures r !in ry { assert r.position in ox; }
    }
  }

  /** Committing the parts in turn leaves what committing the batch leaves; the byte counters agree exactly when the two
      partial byte counts do not wrap when added. */
  lemma {:induction false} BatchEqualsParts(db: Database, xs: seq<TapeItem>, ys: seq<TapeItem>, now: nat)
    requires Accepts(db, xs + ys)
    ensures Accepts(db, xs) && Accepts(Written(db, xs, now), ys)
    ensures var whole, parts := Written(db, xs + ys, now), Written(Written(db, xs, now), ys, now);
            && whole.archiveFiles == parts.archiveFiles && whole.tapeFiles == parts.tapeFiles
            && whole.recycleLog == parts.recycleLog
            && (whole == parts <==> BytesWritten(FilesOf(xs)) + BytesWritten(FilesOf(ys)) < TWO_64)
  {
    PartsCommit(db, xs, ys, now);
    assert xs == [] ==> xs + ys == ys;
    assert ys == [] ==> xs + ys == xs;
    if xs != [] && ys != [] {
      ArchiveFilesConcat(db, xs, ys, now);
      RecycleLogConcat(db, xs, ys, now);
      TapeFilesConcat(db, xs, ys, now);
      TapesConcat(db, xs, ys, now);
      assert BytesWritten(FilesOf(xs)) + BytesWritten(FilesOf(ys)) < TWO_64 <==>
             Written(db, xs + ys, now) == Written(Written(db, xs, now), ys, now);
    }
  }

  lemma {:induction false} WrittenRows(db: Database, items: seq<TapeItem>, files: seq<FileEvent>, now: nat)
    requires Accepts(db, items) && items != [] && files == FilesOf(items)
    ensures var w := Written(db, items, now);
            && w.archiveFiles == Register(db.archiveFiles, files, now)
            && w.tapeFiles == AddTapeFiles(db.tapeFiles, files, now) - OldCopies(db.tapeFiles, files)
            && w.recycleLog == db.recycleLog
                               + multiset(RepackRows(db.tapeFiles, w.archiveFiles, OldCopies(db.tapeFiles, files), now))
  {
  }

  lemma {:induction false} ArchiveFilesConcat(db: Database, xs: seq<TapeItem>, ys: seq<TapeItem>, now: nat)
    requires Accepts(db, xs + ys) && xs != [] && ys != []
    requires Accepts(db, xs) && Accepts(Written(db, xs, now), ys)
    ensures Written(db, xs + ys, now).archiveFiles == Written(Written(db, xs, now), ys, now).archiveFiles
  {
    var fx, fy := FilesOf(xs), FilesOf(ys);
    FilesOfConcat(xs, ys);
    WrittenRows(db, xs + ys, fx + fy, now);
    WrittenRows(db, xs, fx, now);
    WrittenRows(Written(db, xs, now), ys, fy, now);
    PartsAcceptable(db, fx, fy);
    forall f, g | f in fx && g in fy ensures f.archiveFileId != g.archiveFileId { assert Apart(db, f, g); }
    RegisterConcat(db.archiveFiles, fx, fy, now);
  }

  lemma {:induction false} RecycleLogConcat(db: Database, xs: seq<TapeItem>, ys: seq<TapeItem>, now: nat)
    requires Accepts(db, xs + ys) && xs != [] && ys != []
    requires Accepts(db, xs) && Accepts(Written(db, xs, now), ys)
    ensures Written(db, xs + ys, now).recycleLog == Written(Written(db, xs, now), ys, now).recycleLog
  {
    var fx, fy, mid := FilesOf(xs), FilesOf(ys), Written(db, xs, now);
    FilesOfConcat(xs, ys);
    WrittenRows(db, xs + ys, fx + fy, now);
    WrittenRows(db, xs, fx, now);
    WrittenRows(mid, ys, fy, now);
    ArchiveFilesConcat(db, xs, ys, now);
    RepackRowsConcat(db, xs, ys, now);
    var ax := Register(db.archiveFiles, fx, now);
    var rx := multiset(RepackRows(db.tapeFiles, ax, OldCopies(db.tapeFiles, fx), now));
    var ry := multiset(RepackRows(mid.tapeFiles, Register(ax, fy, now), OldCopies(mid.tapeFiles, fy), now));
    LogAssociates(db.recycleLog, rx, ry);
  }

  lemma {:induction false} LogAssociates(log: multiset<RecycledFile>, a: multiset<RecycledFile>,
                                         b: multiset<RecycledFile>)
    ensures log + a + b == log + (a + b)
  {
  }

  lemma {:induction false} TapeFilesConcat(db: Database, xs: seq<TapeItem>, ys: seq<TapeItem>, now: nat)
    requires Accepts(db, xs + ys) && xs != [] && ys != []
    requires Accepts(db, xs) && Accepts(Written(db, xs, now), ys)
    ensures Written(db, xs + ys, now).tapeFiles == Written(Written(db, xs, now), ys, now).tapeFiles
  {
    var fx, fy, mid := FilesOf(xs), FilesOf(ys), Written(db, xs, now);
    FilesOfConcat(xs, ys);
    WrittenRows(db, xs + ys, fx + fy, now);
    WrittenRows(db, xs, fx, now);
    WrittenRows(mid, ys, fy, now);
    OldCopiesConcat(db, xs, ys, now);
    PartsAcceptable(db, fx, fy);
    assert forall g :: g in fy ==> PlaceFree(db, g);
    AddThenRemove(db.tapeFiles, fx, fy, OldCopies(db.tapeFiles, fx), OldCopies(mid.tapeFiles, fy), now);
  }

  lemma {:induction false} AddThenRemove(tapeFiles: map<Position, TapeFile>, fx: seq<FileEvent>, fy: seq<FileEvent>,
                                         ox: set<Position>, oy: set<Position>, now: nat)
    requires forall g :: g in fy ==> g.Pos() !in ox
    ensures AddTapeFiles(tapeFiles, fx + fy, now) - (ox + oy) ==
            AddTapeFiles(AddTapeFiles(tapeFiles, fx, now) - ox, fy, now) - oy
  {
    AddConcat(tapeFiles, fx, fy, now);
    AddAfterRemoval(AddTapeFiles(tapeFiles, fx, now), ox, fy, now);
  }

  lemma {:induction false} TapeAfterConcat(t: Tape, xs: seq<TapeItem>, ys: seq<TapeItem>, now: nat)
    requires xs != [] && ys != [] && t.lastFSeq + |xs + ys| < TWO_64
    ensures TapeAfter(t, xs + ys, now) == TapeAfter(TapeAfter(t, xs, now), ys, now) <==>
            BytesWritten(FilesOf(xs)) + BytesWritten(FilesOf(ys)) < TWO_64
  {
    FilesOfConcat(xs, ys);
    BytesConcat(FilesOf(xs), FilesOf(ys));
    assert (xs + ys)[|xs + ys| - 1] == ys[|ys| - 1];
  }

  lemma {:induction false} WrittenTapes(db: Database, items: seq<TapeItem>, vid: string, now: nat)
    requires Accepts(db, items) && items != [] && vid == items[0].Vid() && db.tapes[vid].lastFSeq + |items| < TWO_64
    ensures Written(db, items, now).tapes == db.tapes[vid := TapeAfter(db.tapes[vid], items, now)]
  {
  }

  lemma {:induction false} TapesConcat(db: Database, xs: seq<TapeItem>, ys: seq<TapeItem>, now: nat)
    requires Accepts(db, xs + ys) && xs != [] && ys != []
    requires Accepts(db, xs) && Accepts(Written(db, xs, now), ys)
    ensures Written(db, xs + ys, now).tapes == Written(Written(db, xs, now), ys, now).tapes <==>
            BytesWritten(FilesOf(xs)) + BytesWritten(FilesOf(ys)) < TWO_64
  {
    PartsContinue(db, xs, ys, now);
    var vid, mid := xs[0].Vid(), Written(db, xs, now);
    var t := db.tapes[vid];
    WrittenTapes(db, xs, vid, now);
    assert mid.tapes[vid] == TapeAfter(t, xs, now);
    WrittenTapes(db, xs + ys, vid, now);
    WrittenTapes(mid, ys, vid, now);
    TapeAfterConcat(t, xs, ys, now);
    UpdatesAgree(db.tapes, vid, TapeAfter(t, xs, now), TapeAfter(t, xs + ys, now),
                 TapeAfter(TapeAfter(t, xs, now), ys, now));
  }

  lemma {:induction false} UpdatesAgree(tapes: map<string, Tape>, vid: string, mid: Tape, a: Tape, b: Tape)
    ensures tapes[vid := a] == tapes[vid := mid][vid := b] <==> a == b
  {
    assert tapes[vid := a][vid] == a && tapes[vid := mid][vid := b][vid] == b;
    assert tapes[vid := mid][vid := b] == tapes[vid := b];
  }
}
