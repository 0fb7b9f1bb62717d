/** A batch against its items written one at a time. */
module OneByOne {
  import opened Tables
  import opened TapeWrite
  import opened WriteSpec
  import opened WriteTheorems
  import opened WriteBatching

  /** Each item in a batch of its own, stopping at the first that fails. */
  function Singly(db: Database, items: seq<TapeItem>, now: nat): Outcome {
    if items == [] then Committed(db)
    else
      match Singly(db, items[..|items| - 1], now)
      case Failed(e) => Failed(e)
      case Committed(mid) => PostgresWrite(mid, [items[|items| - 1]], now)
  }

  /** The tape with the bytes of `files` added without wrapping. */
  ghost function TrueBytes(before: Tape, after: Tape, files: seq<FileEvent>): Tape {
    after.(dataInBytes := before.dataInBytes + ByteSum(files),
           masterDataInBytes := before.masterDataInBytes + ByteSum(files))
  }

  /** What the batch leaves, but with byte counters that do not wrap. */
  ghost function Exactly(db: Database, items: seq<TapeItem>, now: nat): Database
    requires Accepts(db, items)
  {
    if items == [] then db
    else
      var vid, w := items[0].Vid(), Written(db, items, now);
      w.(tapes := w.tapes[vid := TrueBytes(db.tapes[vid], w.tapes[vid], FilesOf(items))])
  }

  /** No item takes an archive file of an earlier one, or a place or block that an earlier one frees. */
  ghost predicate JoinableInTurn(db: Database, items: seq<TapeItem>) {
    items == [] ||
    (JoinableInTurn(db, items[..|items| - 1]) && Joinable(db, items[..|items| - 1], [items[|items| - 1]]))
  }

  /** Two databases that differ in the byte counters of one tape at most. */
  ghost predicate SameButBytes(a: Database, b: Database, vid: string) {
    && vid in a.tapes && vid in b.tapes && b == a.(tapes := a.tapes[vid := b.tapes[vid]])
    && b.tapes[vid] == a.tapes[vid].(dataInBytes := b.tapes[vid].dataInBytes,
                                     masterDataInBytes := b.tapes[vid].masterDataInBytes)
  }

  lemma {:induction false} BytesDoNotDecide(a: Database, b: Database, vid: string, items: seq<TapeItem>)
    requires SameButBytes(a, b, vid)
    ensures Accepts(a, items) <==> Accepts(b, items)
  {
    var files := FilesOf(items);
    assert forall f :: FileAcceptable(a, f) <==> FileAcceptable(b, f);
    assert forall f :: PlaceFree(a, f) <==> PlaceFree(b, f);
    assert NoDiskClash(a, files) <==> NoDiskClash(b, files);
  }

  lemma {:induction false} BytesAreCarriedAlong(a: Database, b: Database, item: TapeItem, now: nat)
    requires SameButBytes(a, b, item.Vid()) && Accepts(a, [item]) && Accepts(b, [item])
    ensures var vid, wa, wb := item.Vid(), Written(a, [item], now), Written(b, [item], now);
            && SameButBytes(wa, wb, vid)
            && wb.tapes[vid].dataInBytes == b.tapes[vid].dataInBytes + BytesWritten(FilesOf([item]))
            && wb.tapes[vid].masterDataInBytes == b.tapes[vid].masterDataInBytes + BytesWritten(FilesOf([item]))
  {
    var vid, wa, wb := item.Vid(), Written(a, [item], now), Written(b, [item], now);
    LastFSeqFits(vid, a.tapes[vid].lastFSeq, [item]);
    WrittenTapes(a, [item], vid, now);
    WrittenTapes(b, [item], vid, now);
    WrittenRows(a, [item], FilesOf([item]), now);
    WrittenRows(b, [item], FilesOf([item]), now);
    WrittenKeepsRest(a, [item], now);
    WrittenKeepsRest(b, [item], now);
    assert wb.tapes == wa.tapes[vid := wb.tapes[vid]];
  }

  lemma {:induction false} WrittenKeepsRest(db: Database, items: seq<TapeItem>, now: nat)
    requires Accepts(db, items)
    ensures var w := Written(db, items, now);
            w.storageClasses == db.storageClasses && w.diskInstances == db.diskInstances
  {
  }

  lemma {:induction false} OneItemBytes(item: TapeItem)
    ensures BytesWritten(FilesOf([item])) == ByteSum(FilesOf([item]))
  {
    assert [item][..0] == [];
    if item.FileWritten? {
      assert FilesOf([item]) == [item.file] && [item.file][..0] == [];
      assert ByteSum([item.file]) == item.file.size;
    }
    BytesWrittenIsSum(FilesOf([item]));
  }

  lemma {:induction false} ByteSumAppends(items: seq<TapeItem>)
    requires items != []
    ensures ByteSum(FilesOf(items)) == ByteSum(FilesOf(items[..|items| - 1])) + ByteSum(FilesOf([items[|items| - 1]]))
  {
    var front, last := items[..|items| - 1], items[|items| - 1];
    assert [last][..0] == [];
    if last.FileWritten? {
      assert FilesOf([last]) == [last.file] && [last.file][..0] == [];
      assert ByteSum([last.file]) == last.file.size;
      assert FilesOf(items)[..|FilesOf(items)| - 1] == FilesOf(front);
    }
  }

  /** The whole batch and its last item written after the others leave the same, bytes aside. */
  lemma {:induction false} LastItemApart(db: Database, items: seq<TapeItem>, now: nat)
    requires Accepts(db, items) && |items| > 1
    ensures var front, last := items[..|items| - 1], items[|items| - 1];
            && Accepts(db, front) && Accepts(Written(db, front, now), [last])
            && last.Vid() == items[0].Vid() == front[0].Vid()
            && SameButBytes(Written(Written(db, front, now), [last], now), Written(db, items, now), last.Vid())
  {
    var front, last := items[..|items| - 1], items[|items| - 1];
    assert items == front + [last];
    BatchEqualsParts(db, front, [last], now);
    assert items[0] == front[0];
    assert last.Vid() == items[0].Vid();
    LastItemTapes(db, items, now);
    WrittenKeepsRest(db, front, now);
    WrittenKeepsRest(db, items, now);
    WrittenKeepsRest(Written(db, front, now), [last], now);
  }

  lemma {:induction false} LastItemTapes(db: Database, items: seq<TapeItem>, now: nat)
    requires Accepts(db, items) && |items| > 1 && Accepts(db, items[..|items| - 1])
    requires items[|items| - 1].Vid() == items[0].Vid()
    requires Accepts(Written(db, items[..|items| - 1], now), [items[|items| - 1]])
    ensures var vid, mid := items[0].Vid(), Written(db, items[..|items| - 1], now);
            var a := Written(mid, [items[|items| - 1]], now).tapes;
            var b := Written(db, items, now).tapes;
            && vid in a && vid in b && b == a[vid := b[vid]]
            && b[vid] == a[vid].(dataInBytes := b[vid].dataInBytes, masterDataInBytes := b[vid].masterDataInBytes)
  {
    var front, last := items[..|items| - 1], items[|items| - 1];
    var vid, mid := items[0].Vid(), Written(db, front, now);
    assert items == front + [last] && front[0] == items[0];
    LastFSeqFits(vid, db.tapes[vid].lastFSeq, items);
    WrittenTapes(db, front, vid, now);
    WrittenTapes(db, items, vid, now);
    WrittenTapes(mid, [last], vid, now);
    TapeAfterLast(db.tapes[vid], front, last, now);
    SameTapesButOne(db.tapes, vid, TapeAfter(db.tapes[vid], front, now), TapeAfter(mid.tapes[vid], [last], now),
                    TapeAfter(db.tapes[vid], items, now));
  }

  lemma {:induction false} TapeAfterLast(t: Tape, front: seq<TapeItem>, last: TapeItem, now: nat)
    requires front != [] && t.lastFSeq + |front + [last]| < TWO_64
    ensures var a, b := TapeAfter(TapeAfter(t, front, now), [last], now), TapeAfter(t, front + [last], now);
            b == a.(dataInBytes := b.dataInBytes, masterDataInBytes := b.masterDataInBytes)
  {
    FilesOfConcat(front, [last]);
  }

  lemma {:induction false} SameTapesButOne(tapes: map<string, Tape>, vid: string, mid: Tape, a: Tape, b: Tape)
    ensures tapes[vid := b] == tapes[vid := mid][vid := a][vid := b]
  {
  }

  /** An accepted batch commits item by item as well, and leaves the same except for byte counters that wrapped. */
  lemma {:induction false} SinglyIsExact(db: Database, items: seq<TapeItem>, now: nat)
    requires Accepts(db, items)
    ensures Singly(db, items, now) == Committed(Exactly(db, items, now))
  {
    if |items| == 1 {
      assert items[..0] == [] && items == [items[0]];
      OneItemExact(db, items[0], now);
    } else if items != [] {
      var front, last := items[..|items| - 1], items[|items| - 1];
      LastItemApart(db, items, now);
      SinglyIsExact(db, front, now);
      LastItemExact(db, items, now);
    }
  }

  lemma {:induction false} OneItemExact(db: Database, item: TapeItem, now: nat)
    requires Accepts(db, [item])
    ensures PostgresWrite(db, [item], now) == Committed(Exactly(db, [item], now))
  {
    PostgresMeetsReference(db, [item], now);
    OneItemBytes(item);
    BytesWrittenIsSum(FilesOf([item]));
    ExactUnlessWrapped(db, [item], now);
  }

  lemma {:induction false} LastItemExact(db: Database, items: seq<TapeItem>, now: nat)
    requires Accepts(db, items) && |items| > 1 && Accepts(db, items[..|items| - 1])
    ensures PostgresWrite(Exactly(db, items[..|items| - 1], now), [items[|items| - 1]], now)
         == Committed(Exactly(db, items, now))
  {
    var front, last := items[..|items| - 1], items[|items| - 1];
    var vid, mid, exact := items[0].Vid(), Written(db, front, now), Exactly(db, front, now);
    LastItemApart(db, items, now);
    BytesDoNotDecide(mid, exact, vid, [last]);
    BytesAreCarriedAlong(mid, exact, last, now);
    PostgresMeetsReference(exact, [last], now);
    OneItemBytes(last);
    ByteSumAppends(items);
    var a, b, c := Written(mid, [last], now), Written(exact, [last], now), Written(db, items, now);
    assert b.tapes[vid] == TrueBytes(db.tapes[vid], c.tapes[vid], FilesOf(items));
    assert b == Exactly(db, items, now);
  }

  /** Batching refines writing one item at a time: the batch commits if and only if its items commit in turn and can be
      joined, and it then leaves the same database if and only if the bytes of the batch do not wrap. */
  lemma {:induction false} BatchIsFoldOfItems(db: Database, items: seq<TapeItem>, now: nat)
    ensures Accepts(db, items) <==> Singly(db, items, now).Committed? && JoinableInTurn(db, items)
    ensures Accepts(db, items) ==>
              var w, s := Written(db, items, now), Singly(db, items, now).db;
              && w.archiveFiles == s.archiveFiles && w.tapeFiles == s.tapeFiles && w.recycleLog == s.recycleLog
              && (w == s <==> ByteSum(FilesOf(items)) < TWO_64)
  {
    CommitsIffItemsDo(db, items, now);
    if Accepts(db, items) {
      SinglyIsExact(db, items, now);
      ExactUnlessWrapped(db, items, now);
    }
  }

  lemma {:induction false} ExactUnlessWrapped(db: Database, items: seq<TapeItem>, now: nat)
    requires Accepts(db, items)
    ensures Written(db, items, now) == Exactly(db, items, now) <==> ByteSum(FilesOf(items)) < TWO_64
  {
    if items != [] {
      var w, vid := Written(db, items, now), items[0].Vid();
      var t := TrueBytes(db.tapes[vid], w.tapes[vid], FilesOf(items));
      CountersAfterWrite(db, items, now);
      assert w.tapes[vid] == t <==> ByteSum(FilesOf(items)) < TWO_64;
      assert Exactly(db, items, now).tapes == w.tapes[vid := t];
      assert w.tapes[vid := t][vid] == t;
      assert w.tapes[vid] == t ==> w.tapes[vid := t] == w.tapes;
    }
  }

  lemma {:induction false} CommitsIffItemsDo(db: Database, items: seq<TapeItem>, now: nat)
    ensures Accepts(db, items) <==> Singly(db, items, now).Committed? && JoinableInTurn(db, items)
  {
    if items != [] {
      var front, last := items[..|items| - 1], items[|items| - 1];
      assert items == front + [last];
      CommitsIffItemsDo(db, front, now);
      BatchCommitsIffPartsDo(db, front, [last], now);
      if Accepts(db, front) {
        SinglyIsExact(db, front, now);
        var mid, exact := Written(db, front, now), Exactly(db, front, now);
        PostgresMeetsReference(exact, [last], now);
        if front != [] { BytesDoNotDecide(mid, exact, front[0].Vid(), [last]); }
      }
    }
  }
}
