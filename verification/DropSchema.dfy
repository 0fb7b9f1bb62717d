/** Dropping the catalogue schema: tables are dropped in whatever order their references allow, CTA_CATALOGUE last. */
module DropSchema {
  import opened Tables

  const CTA_CATALOGUE: string := "CTA_CATALOGUE"

  /** The table `from` has a foreign key into the table `to`. */
  datatype Reference = Reference(from: string, to: string)

  /** `pinned` are the sequences that something else in the database depends on; `production` is the flag that
      CTA_CATALOGUE holds. */
  datatype Schema = Schema(tables: set<string>, sequences: set<string>, pinned: set<string>, references: set<Reference>,
                           production: bool)

  datatype DbType = IN_MEMORY | ORACLE | SQLITE | POSTGRESQL | NONE

  datatype DropError =
    | UnsupportedDatabase | ProductionFlagUnreadable | ProductionDatabase
    | SequenceLeft | TablesLeft | CircularDependency

  datatype Ending = AlreadyDropped | Aborted | Dropped

  // ----- which tables can go -----

  /** DROP TABLE succeeds: the table exists and no other table refers to it. */
  predicate CanDrop(refs: set<Reference>, tables: set<string>, t: string) {
    t in tables && forall u :: u in tables && u != t ==> Reference(u, t) !in refs
  }

  /** Each table of `s`, CTA_CATALOGUE aside, is referred to by another table of `s`. */
  ghost predicate Stuck(refs: set<Reference>, s: set<string>) {
    forall t {:trigger Referred(refs, s, t)} :: t in s && t != CTA_CATALOGUE ==> Referred(refs, s, t)
  }

  ghost predicate Referred(refs: set<Reference>, s: set<string>, t: string) {
    exists u :: u in s && u != t && Reference(u, t) in refs
  }

  ghost predicate HeldBack(refs: set<Reference>, all: set<string>, t: string) {
    exists s :: s <= all && Stuck(refs, s) && t in s
  }

  /** The tables that no order of dropping gets rid of. */
  ghost function LargestStuck(refs: set<Reference>, all: set<string>): set<string> {
    set t | t in all && HeldBack(refs, all, t)
  }

  /** It is the one set that is stuck and includes every stuck set. */
  lemma {:induction false} LargestStuckIsLargest(refs: set<Reference>, all: set<string>)
    ensures LargestStuck(refs, all) <= all && Stuck(refs, LargestStuck(refs, all))
    ensures forall s :: s <= all && Stuck(refs, s) ==> s <= LargestStuck(refs, all)
  {
    var largest := LargestStuck(refs, all);
    forall s | s <= all && Stuck(refs, s) ensures s <= largest {
      forall t | t in s ensures t in largest { assert HeldBack(refs, all, t); }
    }
    forall t | t in largest && t != CTA_CATALOGUE ensures Referred(refs, largest, t) {
      var s :| s <= all && Stuck(refs, s) && t in s;
      assert Referred(refs, s, t);
      var u :| u in s && u != t && Reference(u, t) in refs;
      assert HeldBack(refs, all, u);
    }
  }

  /** A table that can be dropped is in no stuck set, so dropping it changes nothing for the others. */
  lemma {:induction false} DropKeepsLargestStuck(refs: set<Reference>, all: set<string>, t: string)
    requires CanDrop(refs, all, t) && t != CTA_CATALOGUE
    ensures LargestStuck(refs, all - {t}) == LargestStuck(refs, all)
  {
    LargestStuckIsLargest(refs, all);
    LargestStuckIsLargest(refs, all - {t});
    assert !Referred(refs, LargestStuck(refs, all), t);
    assert LargestStuck(refs, all) <= all - {t};
  }

  lemma {:induction false} NothingDroppableIsStuck(refs: set<Reference>, all: set<string>)
    requires forall t :: t in all && t != CTA_CATALOGUE ==> !CanDrop(refs, all, t)
    ensures LargestStuck(refs, all) == all
  {
    LargestStuckIsLargest(refs, all);
    forall t | t in all && t != CTA_CATALOGUE ensures Referred(refs, all, t) { assert !CanDrop(refs, all, t); }
  }

  lemma {:induction false} CatalogueIsHeldBack(refs: set<Reference>, all: set<string>)
    ensures CTA_CATALOGUE in all ==> CTA_CATALOGUE in LargestStuck(refs, all)
    ensures |LargestStuck(refs, all)| == 1 <==> LargestStuck(refs, all) == {CTA_CATALOGUE}
  {
    var largest := LargestStuck(refs, all);
    LargestStuckIsLargest(refs, all);
    if CTA_CATALOGUE in all { assert {CTA_CATALOGUE} <= all && Stuck(refs, {CTA_CATALOGUE}); }
    if |largest| == 1 {
      var t :| t in largest;
      assert Referred(refs, largest, t) || t == CTA_CATALOGUE;
      assert largest == {t} by { assert |largest - {t}| == 0; }
    }
  }

  // ----- ranking the tables -----

  /** Going by increasing rank, every table is dropped before the tables it refers to, and CTA_CATALOGUE, which stays,
      refers to none of them. */
  ghost predicate Ranks(refs: set<Reference>, all: set<string>, rank: map<string, nat>) {
    && (forall t :: t in all ==> t in rank)
    && forall t, u :: t in all && t != CTA_CATALOGUE && u in all && u != t && Reference(u, t) in refs ==>
                        u != CTA_CATALOGUE && rank[u] < rank[t]
  }

  ghost predicate Rankable(refs: set<Reference>, all: set<string>) {
    exists rank :: Ranks(refs, all, rank)
  }

  lemma {:induction false} RankedIsNotStuck(refs: set<Reference>, all: set<string>, rank: map<string, nat>, t: string)
    requires Ranks(refs, all, rank) && t in all && t != CTA_CATALOGUE
    ensures t !in LargestStuck(refs, all)
    decreases if t in rank then rank[t] else 0
  {
    LargestStuckIsLargest(refs, all);
    if t in LargestStuck(refs, all) {
      assert Referred(refs, LargestStuck(refs, all), t);
      var u :| u in LargestStuck(refs, all) && u != t && Reference(u, t) in refs;
      RankedIsNotStuck(refs, all, rank, u);
    }
  }

  lemma {:induction false} UnstuckIsRankable(refs: set<Reference>, all: set<string>) returns (rank: map<string, nat>)
    requires LargestStuck(refs, all) <= {CTA_CATALOGUE}
    ensures Ranks(refs, all, rank)
    decreases |all|
  {
    if t :| t in all && t != CTA_CATALOGUE && CanDrop(refs, all, t) {
      DropKeepsLargestStuck(refs, all, t);
      var later := UnstuckIsRankable(refs, all - {t});
      rank := map u | u in all :: if u == t then 0 else later[u] + 1;
    } else {
      NothingDroppableIsStuck(refs, all);
      rank := map u | u in all :: 0;
    }
  }

  /** All tables but CTA_CATALOGUE can be dropped exactly when they can be ranked by their references. */
  lemma {:induction false} DroppableIffRankable(refs: set<Reference>, all: set<string>)
    ensures LargestStuck(refs, all) <= {CTA_CATALOGUE} <==> Rankable(refs, all)
  {
    if LargestStuck(refs, all) <= {CTA_CATALOGUE} {
      var rank := UnstuckIsRankable(refs, all);
    }
    if rank :| Ranks(refs, all, rank) {
      forall t | t in LargestStuck(refs, all) ensures t == CTA_CATALOGUE {
        if t != CTA_CATALOGUE { RankedIsNotStuck(refs, all, rank, t); }
      }
    }
  }

  // ----- interruption -----

  /** A new run of the command on `s` finds its work done or can read the production flag. */
  ghost predicate Restartable(s: Schema) {
    (s.tables == {} && s.sequences == {}) || CTA_CATALOGUE in s.tables
  }

  /** A new run on `s` faces the same flag, and the same tables will be left in the end. */
  ghost predicate SameOutlook(start: Schema, s: Schema) {
    && s.production == start.production && s.references == start.references
    && (s.tables == {} || LargestStuck(s.references, s.tables) == LargestStuck(start.references, start.tables))
  }

  ghost predicate Interruptible(start: Schema, s: Schema) {
    Restartable(s) && SameOutlook(start, s)
  }

  // ----- the command -----

  /** `std::list::remove`. */
  function Without(names: seq<string>, name: string): (r: seq<string>)
    ensures forall t :: t in r <==> t in names && t != name
  {
    if names == [] then []
    else if names[0] == name then Without(names[1..], name)
    else [names[0]] + Without(names[1..], name)
  }

  /** The names in a set, in an order that callers know nothing about. */
  method ListNames(s: set<string>) returns (names: seq<string>)
    ensures NoRepeats(names) && |names| == |s| && forall t :: t in names <==> t in s
  {
    names := [];
    var left := s;
    while left != {}
      invariant left <= s && |names| + |left| == |s| && NoRepeats(names)
      invariant forall t :: t in names <==> t in s && t !in left
      decreases |left|
    {
      var t :| t in left;
      left, names := left - {t}, names + [t];
    }
  }

  class Connection {
    var schema: Schema
    /** The schema after each statement so far. */
    ghost var history: seq<Schema>

    constructor (schema: Schema)
      ensures this.schema == schema && history == []
    {
      this.schema, history := schema, [];
    }

    method DropTable(name: string) returns (ok: bool)
      modifies this
      ensures ok == CanDrop(old(schema.references), old(schema.tables), name)
      ensures schema == if ok then old(schema).(tables := old(schema.tables) - {name}) else old(schema)
      ensures history == old(history) + [schema]
    {
      ok := CanDrop(schema.references, schema.tables, name);
      if ok { schema := schema.(tables := schema.tables - {name}); }
      history := history + [schema];
    }

    method DropSequence(name: string) returns (ok: bool)
      modifies this
      ensures ok == (name !in old(schema.pinned))
      ensures schema == if ok then old(schema).(sequences := old(schema.sequences) - {name}) else old(schema)
      ensures history == old(history) + [schema]
    {
      ok := name !in schema.pinned;
      if ok { schema := schema.(sequences := schema.sequences - {name}); }
      history := history + [schema];
    }
  }

  /** Every statement that made the history `before` into `after` left a schema on which the command can be run
      again. */
  ghost predicate AlwaysInterruptible(start: Schema, before: seq<Schema>, after: seq<Schema>) {
    && before <= after
    && (CTA_CATALOGUE in start.tables ==> forall i :: |before| <= i < |after| ==> Interruptible(start, after[i]))
  }

  ghost predicate Progress(start: Schema, s: Schema, out: seq<string>) {
    && s == start.(tables := s.tables) && s.tables <= start.tables
    && NoRepeats(out) && (forall t :: t in out <==> t in start.tables && t !in s.tables)
  }

  /** Only tables that are not held back are gone so far. */
  ghost predicate UnderWay(start: Schema, s: Schema, out: seq<string>) {
    && Progress(start, s, out)
    && LargestStuck(s.references, s.tables) == LargestStuck(start.references, start.tables)
    && (CTA_CATALOGUE in s.tables <==> CTA_CATALOGUE in start.tables)
  }

  lemma {:induction false} DropKeepsUnderWay(start: Schema, s: Schema, out: seq<string>, t: string)
    requires UnderWay(start, s, out) && CanDrop(s.references, s.tables, t) && t != CTA_CATALOGUE
    ensures UnderWay(start, s.(tables := s.tables - {t}), out + [t])
  {
    DropKeepsLargestStuck(s.references, s.tables, t);
    var after := s.(tables := s.tables - {t});
    forall u ensures u in out + [t] <==> u in start.tables && u !in after.tables { }
  }

  ghost predicate NothingDroppable(s: Schema) {
    forall t :: t in s.tables && t != CTA_CATALOGUE ==> !CanDrop(s.references, s.tables, t)
  }

  lemma {:induction false} LeftAfterPasses(start: Schema, s: Schema, out: seq<string>)
    requires UnderWay(start, s, out) && NothingDroppable(s)
    ensures s.tables == LargestStuck(start.references, start.tables)
    ensures |s.tables| == 1 <==> s.tables == {CTA_CATALOGUE}
    ensures |s.tables| == 1 <==> CTA_CATALOGUE in start.tables && Rankable(start.references, start.tables)
  {
    NothingDroppableIsStuck(s.references, s.tables);
    DroppableIffRankable(start.references, start.tables);
    CatalogueIsHeldBack(start.references, start.tables);
  }

  /** `dropDatabaseTables`, started as the command starts it or on any other schema. What is left is fixed by the
      references alone; `out` names the dropped tables. */
  method DropDatabaseTables(conn: Connection) returns (r: Result<(), DropError>, out: seq<string>)
    modifies conn
    ensures Progress(old(conn.schema), conn.schema, out)
    ensures r.Ok? <==>
            CTA_CATALOGUE in old(conn.schema.tables) && Rankable(old(conn.schema.references), old(conn.schema.tables))
    ensures conn.schema.tables ==
              if r.Ok? then {} else LargestStuck(old(conn.schema.references), old(conn.schema.tables))
    ensures r.Err? ==> r.error == TablesLeft
    ensures old(conn.schema.sequences) == {} ==> AlwaysInterruptible(old(conn.schema), old(conn.history), conn.history)
  {
    ghost var start := conn.schema;
    out := DropOtherTables(conn);
    LeftAfterPasses(start, conn.schema, out);
    var tables := ListNames(conn.schema.tables);
    if |tables| != 1 { return Err(TablesLeft), out; }
    var ok := conn.DropTable(CTA_CATALOGUE);
    if ok { out := out + [CTA_CATALOGUE]; }
    tables := ListNames(conn.schema.tables);
    if tables != [] { return Err(CircularDependency), out; }
    r := Ok(());
  }

  method DropOtherTables(conn: Connection) returns (out: seq<string>)
    modifies conn
    ensures UnderWay(old(conn.schema), conn.schema, out) && NothingDroppable(conn.schema)
    ensures AlwaysInterruptible(old(conn.schema), old(conn.history), conn.history)
  {
    ghost var start := conn.schema;
    out := [];
    var droppedAtLeastOneTable := true;
    while droppedAtLeastOneTable
      invariant UnderWay(start, conn.schema, out) && (!droppedAtLeastOneTable ==> NothingDroppable(conn.schema))
      invariant AlwaysInterruptible(start, old(conn.history), conn.history)
      decreases |conn.schema.tables|, droppedAtLeastOneTable
    {
      droppedAtLeastOneTable, out := TryTables(conn, start, out);
    }
  }

  /** One pass over the listed tables. */
  method TryTables(conn: Connection, ghost start: Schema, dropped: seq<string>) returns (any: bool, out: seq<string>)
    requires UnderWay(start, conn.schema, dropped)
    modifies conn
    ensures UnderWay(start, conn.schema, out)
    ensures any ==> |conn.schema.tables| < |old(conn.schema.tables)|
    ensures !any ==> conn.schema == old(conn.schema) && NothingDroppable(conn.schema)
    ensures AlwaysInterruptible(start, old(conn.history), conn.history)
  {
    any, out := false, dropped;
    var names := ListNames(conn.schema.tables);
    var tables := Without(names, CTA_CATALOGUE);
    for i := 0 to |tables|
      invariant UnderWay(start, conn.schema, out)
      invariant if any then |conn.schema.tables| < |old(conn.schema.tables)| else conn.schema == old(conn.schema)
      invariant !any ==> forall k :: 0 <= k < i ==> !CanDrop(conn.schema.references, conn.schema.tables, tables[k])
      invariant AlwaysInterruptible(start, old(conn.history), conn.history)
    {
      assert tables[i] in tables;
      ghost var history := conn.history;
      var ok;
      ok, out := TryTable(conn, start, out, tables[i]);
      InterruptibleThroughout(start, start, old(conn.history), history, conn.history);
      any := any || ok;
    }
    if !any {
      forall t | t in conn.schema.tables && t != CTA_CATALOGUE
        ensures !CanDrop(conn.schema.references, conn.schema.tables, t)
      {
        assert t in tables;
        var k :| 0 <= k < |tables| && tables[k] == t;
      }
    }
  }

  method TryTable(conn: Connection, ghost start: Schema, dropped: seq<string>, table: string) returns (ok: bool,
                  out: seq<string>)
    requires UnderWay(start, conn.schema, dropped) && table != CTA_CATALOGUE
    modifies conn
    ensures UnderWay(start, conn.schema, out)
    ensures ok == CanDrop(old(conn.schema.references), old(conn.schema.tables), table)
    ensures if ok then |conn.schema.tables| < |old(conn.schema.tables)| else conn.schema == old(conn.schema)
    ensures AlwaysInterruptible(start, old(conn.history), conn.history)
  {
    out := dropped;
    ok := conn.DropTable(table);
    if ok {
      out := out + [table];
      DropKeepsUnderWay(start, old(conn.schema), dropped, table);
    }
  }

  /** Stops at the first sequence that cannot be dropped. */
  method DropDatabaseSequences(conn: Connection) returns (ok: bool)
    modifies conn
    ensures ok <==> old(conn.schema.sequences) * old(conn.schema.pinned) == {}
    ensures conn.schema == old(conn.schema).(sequences := conn.schema.sequences)
    ensures old(conn.schema.sequences) * old(conn.schema.pinned) <= conn.schema.sequences <= old(conn.schema.sequences)
    ensures ok ==> conn.schema.sequences == {}
    ensures AlwaysInterruptible(old(conn.schema), old(conn.history), conn.history)
  {
    var names := ListNames(conn.schema.sequences);
    ghost var start := conn.schema;
    for i := 0 to |names|
      invariant conn.schema == start.(sequences := conn.schema.sequences)
      invariant forall q :: q in conn.schema.sequences <==> q in names[i..]
      invariant forall k :: 0 <= k < i ==> names[k] !in start.pinned
      invariant AlwaysInterruptible(start, old(conn.history), conn.history)
    {
      assert names[i..] == [names[i]] + names[i + 1..];
      var dropped := conn.DropSequence(names[i]);
      if !dropped {
        assert names[i] in start.sequences * start.pinned;
        forall q | q in start.sequences * start.pinned ensures q in conn.schema.sequences {
          var k :| 0 <= k < |names| && names[k] == q;
          assert names[k] == names[i..][k - i];
        }
        return false;
      }
      assert names[i] !in names[i + 1..];
    }
    assert start.sequences * start.pinned == {} by {
      forall q | q in start.sequences ensures q !in start.pinned {
        var k :| 0 <= k < |names| && names[k] == q;
      }
    }
    ok := true;
  }

  /** Whether the command, run on `s`, gets as far as dropping. */
  ghost predicate Proceeds(s: Schema, dbType: DbType, confirmed: bool) {
    && !(s.tables == {} && s.sequences == {}) && CTA_CATALOGUE in s.tables && !s.production && confirmed
    && dbType in {ORACLE, POSTGRESQL}
  }

  /** The whole command. It drops everything exactly when the references of the tables allow it; wherever it is
      interrupted, a new run can read the production flag or finds nothing left, and is left with the same tables. */
  method DropCatalogue(conn: Connection, dbType: DbType, confirmed: bool)
    returns (r: Result<Ending, DropError>, out: seq<string>)
    modifies conn
    ensures AlwaysInterruptible(old(conn.schema), old(conn.history), conn.history)
    ensures !Proceeds(old(conn.schema), dbType, confirmed) ==>
              conn.schema == old(conn.schema) && conn.history == old(conn.history)
    ensures Proceeds(old(conn.schema), dbType, confirmed)
            && old(conn.schema.sequences) * old(conn.schema.pinned) != {} ==>
              r == Err(SequenceLeft) && conn.schema.tables == old(conn.schema.tables)
    ensures Proceeds(old(conn.schema), dbType, confirmed)
            && old(conn.schema.sequences) * old(conn.schema.pinned) == {} ==>
              && conn.schema.sequences == {}
              && (r == Ok(Dropped) || r == Err(TablesLeft))
              && (r == Ok(Dropped) <==> Rankable(old(conn.schema.references), old(conn.schema.tables)))
              && conn.schema.tables ==
                   if r.Ok? then {} else LargestStuck(old(conn.schema.references), old(conn.schema.tables))
    ensures r == Ok(AlreadyDropped) <==> old(conn.schema.tables) == {} && old(conn.schema.sequences) == {}
    ensures r == Err(ProductionFlagUnreadable) <==>
            && CTA_CATALOGUE !in old(conn.schema.tables)
            && (old(conn.schema.tables) != {} || old(conn.schema.sequences) != {})
    ensures r == Err(ProductionDatabase) <==>
            CTA_CATALOGUE in old(conn.schema.tables) && old(conn.schema.production)
    ensures r == Ok(Aborted) <==>
            CTA_CATALOGUE in old(conn.schema.tables) && !old(conn.schema.production) && !confirmed
    ensures r == Err(UnsupportedDatabase) <==>
            && CTA_CATALOGUE in old(conn.schema.tables) && !old(conn.schema.production) && confirmed
            && dbType in {IN_MEMORY, SQLITE, NONE}
    ensures r == Ok(Dropped) ==>
              CTA_CATALOGUE in old(conn.schema.tables) && !old(conn.schema.production) && confirmed
              && dbType in {ORACLE, POSTGRESQL} && conn.schema.tables == {} && conn.schema.sequences == {}
    ensures NoRepeats(out) && forall t :: t in out <==> t in old(conn.schema.tables) && t !in conn.schema.tables
    ensures conn.schema.tables <= old(conn.schema.tables) && conn.schema.sequences <= old(conn.schema.sequences)
    ensures conn.schema.references == old(conn.schema.references) && conn.schema.pinned == old(conn.schema.pinned)
    ensures conn.schema.production == old(conn.schema.production)
  {
    out := [];
    if conn.schema.tables == {} && conn.schema.sequences == {} { return Ok(AlreadyDropped), []; }
    if CTA_CATALOGUE !in conn.schema.tables { return Err(ProductionFlagUnreadable), []; }
    if conn.schema.production { return Err(ProductionDatabase), []; }
    if !confirmed { return Ok(Aborted), []; }
    if dbType == IN_MEMORY || dbType == SQLITE || dbType == NONE { return Err(UnsupportedDatabase), []; }
    var sequencesGone := DropDatabaseSequences(conn);
    if !sequencesGone { return Err(SequenceLeft), []; }
    ghost var middle, history := conn.schema, conn.history;
    var dropped;
    dropped, out := DropDatabaseTables(conn);
    InterruptibleThroughout(old(conn.schema), middle, old(conn.history), history, conn.history);
    r := if dropped.Ok? then Ok(Dropped) else Err(dropped.error);
  }

  lemma {:induction false} InterruptibleThroughout(start: Schema, middle: Schema, a: seq<Schema>, b: seq<Schema>,
                                                   c: seq<Schema>)
    requires middle == start.(sequences := middle.sequences)
    requires AlwaysInterruptible(start, a, b) && AlwaysInterruptible(middle, b, c)
    ensures AlwaysInterruptible(start, a, c)
  {
  }
}
