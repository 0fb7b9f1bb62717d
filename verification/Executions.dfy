/** The methods on a connection carry out the steps of a run. */
module Executions {
  import opened BackEnds
  import opened Operations
  import opened Runs

  method Perform(conn: Connection, step: Step)
    modifies conn
    ensures conn.db == Apply(old(conn.db), step)
  {
    match step
    case WriteFiles(items, now) => var _ := PostgresFilesWrittenToTape(conn, items, now);
    case MoveFile(request, now) => var _ := MoveArchiveFileToRecycleLog(conn, request, now);
    case DropCopies(seen, reason, now) => var _ := DeleteTapeFileCopy(conn, seen, reason, now);
    case RestoreFile(criteria, newFid, now) => var _ := RestoreFileInRecycleLog(conn, criteria, newFid, now, false);
    case InterruptedRestore(criteria, newFid, now) =>
      var _ := RestoreFileInRecycleLog(conn, criteria, newFid, now, true);
    case PurgeTape(vid) => DeleteFilesFromRecycleLog(conn, vid);
    case ReclaimTape(vid) => var _ := Operations.ReclaimTape(conn, vid, false);
    case InterruptedReclaim(vid) => var _ := Operations.ReclaimTape(conn, vid, true);
  }

  /** A run, step by step. */
  method PerformAll(conn: Connection, steps: seq<Step>)
    modifies conn
    ensures conn.db == Run(old(conn.db), steps)
  {
    for i := 0 to |steps|
      invariant conn.db == Run(old(conn.db), steps[..i])
    {
      RunPrefix(old(conn.db), steps, i);
      Perform(conn, steps[i]);
    }
    assert steps[..|steps|] == steps;
  }
}
