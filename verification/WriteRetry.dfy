/** Recording a batch through `retryOnLostConnection`, with other clients at work in between. */
module WriteRetry {
  import opened Tables
  import opened TapeWrite
  import opened WriteSpec
  import opened WriteTheorems
  import opened BackEnds
  import opened Runs
  import opened Executions

  /** What happens to one call: nothing, or the connection goes before or after the commit reached the database. */
  datatype Fault = NoFault | LostBeforeCommit | LostAfterCommit

  /** One call of the wrapped method, at its own time and after whatever other clients did since the last one. */
  datatype Try = Try(others: seq<Step>, now: nat, fault: Fault)

  datatype Answer = Recorded | Refused(error: WriteError) | LostConnection

  /** How it ended: the database, what the caller is told, and how often the batch was committed, also unnoticed. */
  datatype Retried = Retried(db: Database, answer: Answer, commits: nat, unnoticed: nat)

  ghost function Attempt(db: Database, items: seq<TapeItem>, t: Try): Retried {
    if t.fault == LostBeforeCommit then Retried(db, LostConnection, 0, 0)
    else
      match PostgresWrite(db, items, t.now)
      case Failed(e) => Retried(db, Refused(e), 0, 0)
      case Committed(after) =>
        if t.fault == NoFault then Retried(after, Recorded, 1, 0) else Retried(after, LostConnection, 1, 1)
  }

  /** At most as many calls as there are tries; only a lost connection leads to another one. */
  ghost function Retry(db: Database, items: seq<TapeItem>, tries: seq<Try>): Retried
    decreases |tries|
  {
    if tries == [] then Retried(db, LostConnection, 0, 0)
    else
      var first := Attempt(Run(db, tries[0].others), items, tries[0]);
      if first.answer != LostConnection then first
      else
        var rest := Retry(first.db, items, tries[1..]);
        rest.(commits := first.commits + rest.commits, unnoticed := first.unnoticed + rest.unnoticed)
  }

  method RetryOnLostConnection(conn: Connection, items: seq<TapeItem>, tries: seq<Try>) returns (answer: Answer)
    modifies conn
    ensures var r := Retry(old(conn.db), items, tries); conn.db == r.db && answer == r.answer
  {
    for tryNb := 0 to |tries|
      invariant var r, all := Retry(conn.db, items, tries[tryNb..]), Retry(old(conn.db), items, tries);
                r.db == all.db && r.answer == all.answer
    {
      var t := tries[tryNb];
      assert tries[tryNb..][0] == t && tries[tryNb..][1..] == tries[tryNb + 1..];
      PerformAll(conn, t.others);
      if t.fault != LostBeforeCommit {
        var error := PostgresFilesWrittenToTape(conn, items, t.now);
        if error.Some? { return Refused(error.value); }
        if t.fault == NoFault { return Recorded; }
      }
    }
    answer := LostConnection;
  }

  /** Nobody reclaims the tape between the tries. */
  ghost predicate NotReclaimed(vid: string, tries: seq<Try>) {
    forall i :: 0 <= i < |tries| ==> ReclaimTape(vid) !in tries[i].others
  }

  /** After the batch has committed, every further call is refused. */
  lemma {:induction false} RetryAfterCommit(db: Database, items: seq<TapeItem>, later: Database, tries: seq<Try>)
    requires Accepts(db, items) && items != [] && items[0].Vid() in later.tapes
    requires later.tapes[items[0].Vid()].lastFSeq >= db.tapes[items[0].Vid()].lastFSeq + |items|
    requires NotReclaimed(items[0].Vid(), tries)
    ensures var r := Retry(later, items, tries);
            r.commits == r.unnoticed == 0 && r.answer in {Refused(FSeqMismatch), LostConnection}
    decreases |tries|
  {
    if tries != [] {
      assert ReclaimTape(items[0].Vid()) !in tries[0].others;
      RunKeepsLastFSeq(later, tries[0].others, items[0].Vid());
      var before := Run(later, tries[0].others);
      ResubmissionFails(db, items, before, tries[0].now);
      RetryAfterCommit(db, items, before, tries[1..]);
    }
  }

  lemma {:induction false} CommittedAttempt(db: Database, items: seq<TapeItem>, t: Try)
    requires items != [] && Attempt(db, items, t).commits == 1
    ensures Accepts(db, items) && items[0].Vid() in Attempt(db, items, t).db.tapes
    ensures Attempt(db, items, t).db.tapes[items[0].Vid()].lastFSeq >= db.tapes[items[0].Vid()].lastFSeq + |items|
  {
    PostgresMeetsReference(db, items, t.now);
    CountersAfterWrite(db, items, t.now);
  }

  /** Whatever connections are lost and whatever other clients do, short of reclaiming the tape, the batch is recorded
      at most once. Success is reported exactly when it was recorded and the commit was noticed; a batch whose commit
      went unnoticed is recorded although the caller hears of a refused file sequence number or a lost connection. */
  lemma {:induction false} RetryRecordsAtMostOnce(db: Database, items: seq<TapeItem>, tries: seq<Try>)
    requires items != [] && NotReclaimed(items[0].Vid(), tries)
    ensures var r := Retry(db, items, tries);
            && r.commits <= 1
            && (r.answer == Recorded <==> r.commits == 1 && r.unnoticed == 0)
            && (r.unnoticed == 1 ==> r.answer in {Refused(FSeqMismatch), LostConnection})
            && (r.commits == 0 <==> r.answer != Recorded && r.unnoticed == 0)
    decreases |tries|
  {
    if tries != [] {
      var before := Run(db, tries[0].others);
      var first := Attempt(before, items, tries[0]);
      if first.commits == 1 {
        CommittedAttempt(before, items, tries[0]);
        RetryAfterCommit(before, items, first.db, tries[1..]);
      } else {
        RetryRecordsAtMostOnce(first.db, items, tries[1..]);
      }
    }
  }

  // ----- what was done to the database -----

  /** The steps of all clients in the order they took effect; a try whose connection goes too early is not among
      them. */
  ghost function History(db: Database, items: seq<TapeItem>, tries: seq<Try>): seq<Step>
    decreases |tries|
  {
    if tries == [] then []
    else
      var t := tries[0];
      var mine := if t.fault == LostBeforeCommit then [] else [WriteFiles(items, t.now)];
      var first := Attempt(Run(db, t.others), items, t);
      t.others + mine + if first.answer == LostConnection then History(first.db, items, tries[1..]) else []
  }

  lemma {:induction false} RunConcat(db: Database, a: seq<Step>, b: seq<Step>)
    ensures Run(db, a + b) == Run(Run(db, a), b)
  {
    if b == [] {
      assert a + b == a;
    } else {
      var front := b[..|b| - 1];
      assert (a + b)[..|a + b| - 1] == a + front;
      RunConcat(db, a, front);
    }
  }

  lemma {:induction false} OneStepRun(db: Database, step: Step)
    ensures Run(db, [step]) == Apply(db, step)
  {
    assert [step][..0] == [];
  }

  /** The tries and what happened in between amount to a run, so what holds of runs holds here. */
  lemma {:induction false} RetryIsRun(db: Database, items: seq<TapeItem>, tries: seq<Try>)
    ensures Retry(db, items, tries).db == Run(db, History(db, items, tries))
    decreases |tries|
  {
    if tries != [] {
      var t := tries[0];
      var mine := if t.fault == LostBeforeCommit then [] else [WriteFiles(items, t.now)];
      var first := Attempt(Run(db, t.others), items, t);
      var rest := if first.answer == LostConnection then History(first.db, items, tries[1..]) else [];
      RunConcat(db, t.others + mine, rest);
      RunConcat(db, t.others, mine);
      if mine != [] { OneStepRun(Run(db, t.others), mine[0]); }
      assert Run(db, t.others + mine) == first.db;
      if first.answer == LostConnection { RetryIsRun(first.db, items, tries[1..]); }
    }
  }
}
