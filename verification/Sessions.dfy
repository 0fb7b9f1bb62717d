/** Concurrent writers: sessions take the lock on the TAPE row, check their events one at a time and commit, interleaved
    at will. */
module Sessions {
  import opened Tables
  import opened TapeWrite
  import opened WriteSpec

  /** A session between `SELECT ... FOR UPDATE` and the end of its transaction. */
  datatype Session =
    | Checking(vid: string, items: seq<TapeItem>, next: nat, scan: Scan)
    | Updated(vid: string, items: seq<TapeItem>)

  /** Committed LAST_FSEQ values, holders of row locks, open sessions, and all items ever committed to each tape. */
  datatype System = System(lastFSeq: map<string, uint64>, locks: map<string, nat>, sessions: map<nat, Session>,
                           history: map<string, seq<TapeItem>>)

  datatype Action =
    | SelectForUpdate(s: nat, items: seq<TapeItem>)
    | CheckEvent(s: nat)
    | UpdateTapeRow(s: nat)
    | Commit(s: nat)
    | Abort(s: nat)

  /** A lock wait leaves the system as it is. Without row locks (`locking` false) nobody waits. */
  function Select(sys: System, s: nat, items: seq<TapeItem>, locking: bool): System {
    if s in sys.sessions || items == [] || !ItemFieldsSet(items[0]) then sys
    else
      var vid := items[0].Vid();
      if vid !in sys.lastFSeq || (locking && vid in sys.locks) then sys
      else sys.(locks := sys.locks[vid := s],
                sessions := sys.sessions[s := Checking(vid, items, 0, Scan(WrapAdd(sys.lastFSeq[vid], 1), 0, []))])
  }

  function Release(sys: System, s: nat): System {
    if s !in sys.sessions then sys
    else sys.(locks := sys.locks - {sys.sessions[s].vid}, sessions := sys.sessions - {s})
  }

  function Check(sys: System, s: nat): System {
    if s !in sys.sessions || !sys.sessions[s].Checking? || sys.sessions[s].next >= |sys.sessions[s].items| then sys
    else
      var c := sys.sessions[s];
      match ScanItem(c.scan, c.vid, c.items[c.next])
      case Err(_) => Release(sys, s)
      case Ok(scan) => sys.(sessions := sys.sessions[s := c.(next := c.next + 1, scan := scan)])
  }

  function Update(sys: System, s: nat): System {
    if s !in sys.sessions || !sys.sessions[s].Checking? || sys.sessions[s].next != |sys.sessions[s].items| then sys
    else sys.(sessions := sys.sessions[s := Updated(sys.sessions[s].vid, sys.sessions[s].items)])
  }

  function Committed(sys: System, vid: string): seq<TapeItem> {
    if vid in sys.history then sys.history[vid] else []
  }

  /** The tables as the commit leaves them, before the lock is released. */
  function Publish(sys: System, vid: string, items: seq<TapeItem>): System
    requires items != []
  {
    sys.(lastFSeq := sys.lastFSeq[vid := items[|items| - 1].FSeq()],
         history := sys.history[vid := Committed(sys, vid) + items])
  }

  function CommitSession(sys: System, s: nat): System {
    if s !in sys.sessions || !sys.sessions[s].Updated? || sys.sessions[s].items == [] then sys
    else
      Release(Publish(sys, sys.sessions[s].vid, sys.sessions[s].items), s)
  }

  function Act(sys: System, a: Action, locking: bool): System {
    match a
    case SelectForUpdate(s, items) => Select(sys, s, items, locking)
    case CheckEvent(s) => Check(sys, s)
    case UpdateTapeRow(s) => Update(sys, s)
    case Commit(s) => CommitSession(sys, s)
    case Abort(s) => Release(sys, s)
  }

  function Interleave(sys: System, actions: seq<Action>, locking: bool): System {
    if actions == [] then sys
    else Act(Interleave(sys, actions[..|actions| - 1], locking), actions[|actions| - 1], locking)
  }

  // ----- invariant -----

  /** The items committed to the tape have numbers 1, 2, ..., LAST_FSEQ, in that order. */
  ghost predicate Gapless(sys: System, vid: string) {
    && vid in sys.lastFSeq && |Committed(sys, vid)| == sys.lastFSeq[vid]
    && forall i :: 0 <= i < |Committed(sys, vid)| ==>
                     Committed(sys, vid)[i].FSeq() == i + 1 && Committed(sys, vid)[i].Vid() == vid
  }

  /** An open session holds the lock of its tape and has checked its events against the LAST_FSEQ that is still
      there. */
  ghost predicate SessionOk(sys: System, s: nat) {
    s in sys.sessions &&
    (var c := sys.sessions[s];
     && c.vid in sys.locks && sys.locks[c.vid] == s && c.vid in sys.lastFSeq && c.items != []
     && (c.Checking? ==> c.next <= |c.items| && ScanItems(c.vid, sys.lastFSeq[c.vid], c.items[..c.next]) == Ok(c.scan))
     && (c.Updated? ==> Continues(c.vid, sys.lastFSeq[c.vid], c.items)))
  }

  ghost predicate SystemOk(sys: System) {
    && (forall vid :: vid in sys.lastFSeq || vid in sys.history ==> Gapless(sys, vid))
    && (forall s :: s in sys.sessions ==> SessionOk(sys, s))
  }

  lemma {:induction false} SelectKeeps(sys: System, s: nat, items: seq<TapeItem>)
    requires SystemOk(sys)
    ensures SystemOk(Select(sys, s, items, true))
  {
    var after := Select(sys, s, items, true);
    if after != sys {
      assert items[..0] == [];
      forall t | t in after.sessions ensures SessionOk(after, t) { if t != s { assert SessionOk(sys, t); } }
      forall vid | vid in after.lastFSeq || vid in after.history
        ensures Gapless(after, vid)
      {
        assert Gapless(sys, vid);
      }
    }
  }

  lemma {:induction false} ReleaseKeeps(sys: System, s: nat)
    requires forall vid :: vid in sys.lastFSeq || vid in sys.history ==> Gapless(sys, vid)
    requires forall t :: t in sys.sessions && t != s ==> SessionOk(sys, t)
    requires s in sys.sessions ==> sys.sessions[s].vid in sys.locks && sys.locks[sys.sessions[s].vid] == s
    ensures SystemOk(Release(sys, s))
  {
    var after := Release(sys, s);
    if s in sys.sessions {
      forall t | t in after.sessions ensures SessionOk(after, t) { assert SessionOk(sys, t); }
      forall vid | vid in after.lastFSeq || vid in after.history
        ensures Gapless(after, vid)
      {
        assert Gapless(sys, vid);
      }
    }
  }

  lemma {:induction false} SessionAdvances(sys: System, s: nat, after: System)
    requires SystemOk(sys) && s in sys.sessions && s in after.sessions && SessionOk(after, s)
    requires after == sys.(sessions := sys.sessions[s := after.sessions[s]])
    ensures SystemOk(after)
  {
    forall t | t in after.sessions ensures SessionOk(after, t) { if t != s { assert SessionOk(sys, t); } }
    forall vid | vid in after.lastFSeq || vid in after.history ensures Gapless(after, vid) { assert Gapless(sys, vid); }
  }

  lemma {:induction false} CheckKeeps(sys: System, s: nat)
    requires SystemOk(sys)
    ensures SystemOk(Check(sys, s))
  {
    var after := Check(sys, s);
    if after != sys {
      assert SessionOk(sys, s);
      var c := sys.sessions[s];
      var r := ScanItem(c.scan, c.vid, c.items[c.next]);
      if r.Err? {
        ReleaseKeeps(sys, s);
      } else {
        assert c.items[..c.next + 1][..c.next] == c.items[..c.next];
        SessionAdvances(sys, s, after);
      }
    }
  }

  lemma {:induction false} UpdateKeeps(sys: System, s: nat)
    requires SystemOk(sys)
    ensures SystemOk(Update(sys, s))
  {
    var after := Update(sys, s);
    if after != sys {
      assert SessionOk(sys, s);
      var c := sys.sessions[s];
      assert c.items[..c.next] == c.items;
      ScanAcceptsContinuation(c.vid, sys.lastFSeq[c.vid], c.items);
      SessionAdvances(sys, s, after);
    }
  }

  lemma {:induction false} GaplessGrows(vid: string, lastFSeq: uint64, before: seq<TapeItem>, items: seq<TapeItem>)
    requires |before| == lastFSeq && Continues(vid, lastFSeq, items)
    requires forall i :: 0 <= i < |before| ==> before[i].FSeq() == i + 1 && before[i].Vid() == vid
    ensures forall i :: 0 <= i < |before + items| ==>
            (before + items)[i].FSeq() == i + 1 && (before + items)[i].Vid() == vid
  {
    forall i | 0 <= i < |before + items|
      ensures (before + items)[i].FSeq() == i + 1 && (before + items)[i].Vid() == vid
    {
      if i >= |before| { assert (before + items)[i] == items[i - lastFSeq]; }
    }
  }

  lemma {:induction false} PublishIsGapless(sys: System, vid: string, items: seq<TapeItem>)
    requires items != [] && Gapless(sys, vid) && Continues(vid, sys.lastFSeq[vid], items)
    ensures Gapless(Publish(sys, vid, items), vid)
  {
    GaplessGrows(vid, sys.lastFSeq[vid], Committed(sys, vid), items);
    assert items[|items| - 1].FSeq() == sys.lastFSeq[vid] + |items|;
    assert Committed(Publish(sys, vid, items), vid) == Committed(sys, vid) + items;
  }

  lemma {:induction false} CommitKeeps(sys: System, s: nat)
    requires SystemOk(sys)
    ensures SystemOk(CommitSession(sys, s))
  {
    if CommitSession(sys, s) != sys {
      assert SessionOk(sys, s);
      var vid, items := sys.sessions[s].vid, sys.sessions[s].items;
      var mid := Publish(sys, vid, items);
      PublishIsGapless(sys, vid, items);
      forall v | v in mid.lastFSeq || v in mid.history ensures Gapless(mid, v) {
        if v != vid { assert Gapless(sys, v); }
      }
      forall t | t in mid.sessions && t != s ensures SessionOk(mid, t) { assert SessionOk(sys, t); }
      ReleaseKeeps(mid, s);
      assert CommitSession(sys, s) == Release(mid, s);
    }
  }

  /** Under every interleaving of sessions that take the TAPE row lock, the numbers committed to each tape over the
      whole history are exactly 1..LAST_FSEQ: no gap and no overlap. */
  lemma {:induction false} InterleavingIsGapless(sys: System, actions: seq<Action>)
    requires SystemOk(sys)
    ensures SystemOk(Interleave(sys, actions, true))
    ensures forall vid :: vid in Interleave(sys, actions, true).lastFSeq ==>
            Gapless(Interleave(sys, actions, true), vid)
  {
    if actions != [] {
      var mid, a := Interleave(sys, actions[..|actions| - 1], true), actions[|actions| - 1];
      InterleavingIsGapless(sys, actions[..|actions| - 1]);
      match a
      case SelectForUpdate(s, items) => SelectKeeps(mid, s, items);
      case CheckEvent(s) => CheckKeeps(mid, s);
      case UpdateTapeRow(s) => UpdateKeeps(mid, s);
      case Commit(s) => CommitKeeps(mid, s);
      case Abort(s) =>
        if s in mid.sessions { assert SessionOk(mid, s); }
        ReleaseKeeps(mid, s);
    }
  }

  /** What a session commits is what the serial write of its batch would do to the tape. */
  lemma {:induction false} CommitIsSerialWrite(sys: System, s: nat, db: Database, now: nat)
    requires SystemOk(sys) && s in sys.sessions && sys.sessions[s].Updated?
    requires var vid := sys.sessions[s].vid; vid in db.tapes && db.tapes[vid].lastFSeq == sys.lastFSeq[vid]
    ensures var vid, items := sys.sessions[s].vid, sys.sessions[s].items;
            && BeginWrite(db, items, now).Ok?
            && BeginWrite(db, items, now).value.0.tapes[vid].lastFSeq == CommitSession(sys, s).lastFSeq[vid]
  {
    assert SessionOk(sys, s);
    var vid, items := sys.sessions[s].vid, sys.sessions[s].items;
    BeginWriteAccepts(db, items, now);
    assert items[0].Vid() == vid && items[|items| - 1].FSeq() == sys.lastFSeq[vid] + |items|;
  }

  /** A session that is given up frees its tape and leaves nothing behind; other sessions go on. */
  lemma {:induction false} AbortLeavesNothing(sys: System, s: nat, locking: bool)
    requires s in sys.sessions
    ensures var after := Act(sys, Abort(s), locking);
            && after.lastFSeq == sys.lastFSeq && after.history == sys.history
            && s !in after.sessions && sys.sessions[s].vid !in after.locks
            && (forall t :: t in sys.sessions && t != s ==> t in after.sessions && after.sessions[t] == sys.sessions[t])
            && (forall v :: v in sys.locks && v != sys.sessions[s].vid ==>
                              v in after.locks && after.locks[v] == sys.locks[v])
  {
  }

  // ----- a session by itself -----

  ghost function Checks(s: nat, n: nat): seq<Action> {
    seq(n, _ => CheckEvent(s))
  }

  /** A session that is not disturbed: it reads, checks every event, updates and commits. */
  ghost function SoloRun(s: nat, items: seq<TapeItem>): seq<Action> {
    [SelectForUpdate(s, items)] + Checks(s, |items|) + [UpdateTapeRow(s), Commit(s)]
  }

  /** The system after the first `k` checks, or after the session was given up at one of them. */
  ghost predicate AfterChecks(sys: System, s: nat, items: seq<TapeItem>, k: nat, cur: System)
    requires items != [] && k <= |items| && items[0].Vid() in sys.lastFSeq
  {
    var vid := items[0].Vid();
    var scan := ScanItems(vid, sys.lastFSeq[vid], items[..k]);
    && cur.lastFSeq == sys.lastFSeq && cur.history == sys.history
    && if ItemFieldsSet(items[0]) && scan.Ok? then
         s in cur.sessions && cur.sessions[s] == Checking(vid, items, k, scan.value)
       else
         s !in cur.sessions
  }

  lemma {:induction false} ScanStopped(vid: string, lastFSeq: uint64, items: seq<TapeItem>, k: nat)
    requires k < |items|
    ensures ScanItems(vid, lastFSeq, items[..k + 1]) ==
            match ScanItems(vid, lastFSeq, items[..k])
            case Err(e) => Err(e)
            case Ok(scan) => ScanItem(scan, vid, items[k])
  {
    assert items[..k + 1][..k] == items[..k];
  }

  lemma {:induction false} SoloChecks(sys: System, s: nat, items: seq<TapeItem>, k: nat)
    requires items != [] && k <= |items| && items[0].Vid() in sys.lastFSeq
    requires s !in sys.sessions && items[0].Vid() !in sys.locks
    ensures AfterChecks(sys, s, items, k, Interleave(sys, SoloRun(s, items)[..k + 1], true))
  {
    var run := SoloRun(s, items);
    RunLast(sys, run, k + 1, true);
    if k == 0 {
      assert run[..0] == [] && items[..0] == [];
    } else {
      SoloChecks(sys, s, items, k - 1);
      assert run[k] == CheckEvent(s);
      OneMoreCheck(sys, s, items, k - 1, Interleave(sys, run[..k], true));
    }
  }

  lemma {:induction false} OneMoreCheck(sys: System, s: nat, items: seq<TapeItem>, k: nat, cur: System)
    requires items != [] && k < |items| && items[0].Vid() in sys.lastFSeq && AfterChecks(sys, s, items, k, cur)
    ensures AfterChecks(sys, s, items, k + 1, Check(cur, s))
  {
    ScanStopped(items[0].Vid(), sys.lastFSeq[items[0].Vid()], items, k);
  }

  /** An undisturbed session commits its batch exactly when the batch goes on from the last number of the tape;
      otherwise it leaves no trace. */
  lemma {:induction false} SoloSessionCommitsIff(sys: System, s: nat, items: seq<TapeItem>)
    requires items != [] && items[0].Vid() in sys.lastFSeq && s !in sys.sessions && items[0].Vid() !in sys.locks
    ensures var vid, after := items[0].Vid(), Interleave(sys, SoloRun(s, items), true);
            && s !in after.sessions
            && (if Continues(vid, sys.lastFSeq[vid], items) then
                  && sys.lastFSeq[vid] + |items| < TWO_64
                  && after.lastFSeq == sys.lastFSeq[vid := sys.lastFSeq[vid] + |items|]
                  && after.history == sys.history[vid := Committed(sys, vid) + items]
                else after.lastFSeq == sys.lastFSeq && after.history == sys.history)
  {
    var vid, cur := items[0].Vid(), Interleave(sys, SoloRun(s, items)[..|items| + 1], true);
    SoloChecked(sys, s, items);
    SoloTail(sys, s, items);
    SoloEnds(cur, s);
    if Continues(vid, sys.lastFSeq[vid], items) {
      LastFSeqFits(vid, sys.lastFSeq[vid], items);
      assert items[|items| - 1].FSeq() == sys.lastFSeq[vid] + |items|;
    }
  }

  lemma {:induction false} SoloChecked(sys: System, s: nat, items: seq<TapeItem>)
    requires items != [] && items[0].Vid() in sys.lastFSeq && s !in sys.sessions && items[0].Vid() !in sys.locks
    ensures var vid, cur := items[0].Vid(), Interleave(sys, SoloRun(s, items)[..|items| + 1], true);
            && cur.lastFSeq == sys.lastFSeq && cur.history == sys.history
            && if Continues(vid, sys.lastFSeq[vid], items) then
                 && s in cur.sessions && cur.sessions[s].Checking? && cur.sessions[s].vid == vid
                 && cur.sessions[s].items == items && cur.sessions[s].next == |items|
               else s !in cur.sessions
  {
    var n, vid := |items|, items[0].Vid();
    SoloChecks(sys, s, items, n);
    assert items[..n] == items;
    ScanAcceptsContinuation(vid, sys.lastFSeq[vid], items);
    assert Continues(vid, sys.lastFSeq[vid], items) ==> ItemFieldsSet(items[0]);
  }

  lemma {:induction false} SoloTail(sys: System, s: nat, items: seq<TapeItem>)
    ensures Interleave(sys, SoloRun(s, items), true) ==
            CommitSession(Update(Interleave(sys, SoloRun(s, items)[..|items| + 1], true), s), s)
  {
    var run, n := SoloRun(s, items), |items|;
    RunLast(sys, run, n + 2, true);
    RunLast(sys, run, n + 3, true);
    assert run[n + 1] == UpdateTapeRow(s) && run[n + 2] == Commit(s) && run[..n + 3] == run;
  }

  /** The last two actions: a session that checked everything publishes its batch, one that was given up does
      nothing. */
  lemma {:induction false} SoloEnds(cur: System, s: nat)
    ensures var after := CommitSession(Update(cur, s), s);
            && (s !in cur.sessions ==> after == cur)
            && (s in cur.sessions && cur.sessions[s].Checking? && cur.sessions[s].items != []
                && cur.sessions[s].next == |cur.sessions[s].items| ==>
                  var vid, items := cur.sessions[s].vid, cur.sessions[s].items;
                  && s !in after.sessions
                  && after.lastFSeq == cur.lastFSeq[vid := items[|items| - 1].FSeq()]
                  && after.history == cur.history[vid := Committed(cur, vid) + items])
  {
  }

  /** Two sessions read the same LAST_FSEQ, check, update and commit. */
  function OverlapRun(item: TapeItem): seq<Action> {
    [SelectForUpdate(0, [item]), SelectForUpdate(1, [item]), CheckEvent(0), CheckEvent(1),
     UpdateTapeRow(0), UpdateTapeRow(1), Commit(0), Commit(1)]
  }

  function FreshTape(vid: string): System { System(map[vid := 0], map[], map[], map[]) }

  ghost predicate Opening(item: TapeItem) {
    ItemFieldsSet(item) && item.Placeholder? && item.FSeq() == 1
  }

  lemma {:induction false} RunLast(s: System, a: seq<Action>, n: nat, locking: bool)
    requires 0 < n <= |a|
    ensures Interleave(s, a[..n], locking) == Act(Interleave(s, a[..n - 1], locking), a[n - 1], locking)
  {
    assert a[..n][..n - 1] == a[..n - 1];
  }

  lemma {:induction false} BothSelect(item: TapeItem)
    requires Opening(item)
    ensures var c := Checking(item.Vid(), [item], 0, Scan(1, 0, []));
            Interleave(FreshTape(item.Vid()), OverlapRun(item)[..2], false)
            == System(map[item.Vid() := 0], map[item.Vid() := 1], map[0 := c, 1 := c], map[])
  {
    var s, a, vid := FreshTape(item.Vid()), OverlapRun(item), item.Vid();
    RunLast(s, a, 1, false);
    RunLast(s, a, 2, false);
    var c := Checking(vid, [item], 0, Scan(1, 0, []));
    assert Act(s, a[0], false) == System(map[vid := 0], map[vid := 0], map[0 := c], map[]);
    assert Act(Act(s, a[0], false), a[1], false) == System(map[vid := 0], map[vid := 1], map[0 := c, 1 := c], map[]);
  }

  lemma {:induction false} CheckOpening(sys: System, s: nat, item: TapeItem)
    requires Opening(item) && s in sys.sessions && sys.sessions[s] == Checking(item.Vid(), [item], 0, Scan(1, 0, []))
    ensures Check(sys, s) == sys.(sessions := sys.sessions[s := Checking(item.Vid(), [item], 1, Scan(2, 0, []))])
  {
    assert ScanItem(Scan(1, 0, []), item.Vid(), item) == Ok(Scan(2, 0, []));
  }

  lemma {:induction false} UpdateOpening(sys: System, s: nat, item: TapeItem)
    requires s in sys.sessions && sys.sessions[s] == Checking(item.Vid(), [item], 1, Scan(2, 0, []))
    ensures Update(sys, s) == sys.(sessions := sys.sessions[s := Updated(item.Vid(), [item])])
  {
  }

  lemma {:induction false} CommitOpening(sys: System, s: nat, item: TapeItem)
    requires Opening(item) && s in sys.sessions && sys.sessions[s] == Updated(item.Vid(), [item])
    ensures var after := CommitSession(sys, s);
            after.sessions == sys.sessions - {s} && after.lastFSeq == sys.lastFSeq[item.Vid() := 1]
            && after.history == sys.history[item.Vid() := Committed(sys, item.Vid()) + [item]]
  {
  }

  lemma {:induction false} FirstCheck(item: TapeItem)
    requires Opening(item)
    ensures var b := Checking(item.Vid(), [item], 0, Scan(1, 0, []));
            var c := Checking(item.Vid(), [item], 1, Scan(2, 0, []));
            Interleave(FreshTape(item.Vid()), OverlapRun(item)[..3], false)
            == System(map[item.Vid() := 0], map[item.Vid() := 1], map[0 := c, 1 := b], map[])
  {
    BothSelect(item);
    var s, a := FreshTape(item.Vid()), OverlapRun(item);
    RunLast(s, a, 3, false);
    CheckOpening(Interleave(s, a[..2], false), 0, item);
  }

  lemma {:induction false} BothCheck(item: TapeItem)
    requires Opening(item)
    ensures var c := Checking(item.Vid(), [item], 1, Scan(2, 0, []));
            Interleave(FreshTape(item.Vid()), OverlapRun(item)[..4], false)
            == System(map[item.Vid() := 0], map[item.Vid() := 1], map[0 := c, 1 := c], map[])
  {
    FirstCheck(item);
    var s, a := FreshTape(item.Vid()), OverlapRun(item);
    RunLast(s, a, 4, false);
    CheckOpening(Interleave(s, a[..3], false), 1, item);
  }

  lemma {:induction false} BothUpdate(item: TapeItem)
    requires Opening(item)
    ensures var u := Updated(item.Vid(), [item]);
            Interleave(FreshTape(item.Vid()), OverlapRun(item)[..6], false)
            == System(map[item.Vid() := 0], map[item.Vid() := 1], map[0 := u, 1 := u], map[])
  {
    BothCheck(item);
    var s, a := FreshTape(item.Vid()), OverlapRun(item);
    RunLast(s, a, 5, false);
    RunLast(s, a, 6, false);
    UpdateOpening(Interleave(s, a[..4], false), 0, item);
    UpdateOpening(Interleave(s, a[..5], false), 1, item);
    var u := Updated(item.Vid(), [item]);
    assert Interleave(s, a[..6], false).sessions == map[0 := u, 1 := u];
  }

  /** The lock is needed: sessions that do not wait for each other can both commit the number 1. */
  lemma {:induction false} WithoutLockNumbersOverlap(item: TapeItem)
    requires Opening(item)
    ensures SystemOk(FreshTape(item.Vid()))
    ensures Committed(Interleave(FreshTape(item.Vid()), OverlapRun(item), false), item.Vid()) == [item, item]
    ensures !Gapless(Interleave(FreshTape(item.Vid()), OverlapRun(item), false), item.Vid())
  {
    BothUpdate(item);
    var s, a := FreshTape(item.Vid()), OverlapRun(item);
    RunLast(s, a, 7, false);
    RunLast(s, a, 8, false);
    assert a[..8] == a;
    CommitOpening(Interleave(s, a[..6], false), 0, item);
    CommitOpening(Interleave(s, a[..7], false), 1, item);
    assert Committed(Interleave(s, a[..7], false), item.Vid()) == [item];
  }
}
