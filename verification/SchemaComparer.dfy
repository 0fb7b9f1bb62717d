/** Comparing a catalogue database with the schema it should have: every difference is reported, and nothing else. */
module SchemaComparer {
  import opened Tables

  type Columns = map<string, string>
  type TableColumns = map<string, Columns>

  /** What a metadata getter answers; a table it does not know has no columns and no constraints. */
  datatype Metadata = Metadata(tables: seq<string>, columns: TableColumns, constraints: map<string, seq<string>>,
                               indexes: seq<string>)
  {
    function ColumnsOf(table: string): Columns {
      if table in columns then columns[table] else map[]
    }

    function ConstraintsOf(table: string): seq<string> {
      if table in constraints then constraints[table] else []
    }
  }

  datatype Side = CATALOGUE | SCHEMA {
    function Other(): Side {
      if CATALOGUE? then SCHEMA else CATALOGUE
    }
  }

  datatype ItemKind = INDEX | CONSTRAINT(inTable: string)

  /** One value per form of message; the wording is left out. */
  datatype Message =
    | TableMissing(table: string, missingIn: Side)
    | ColumnMissing(table: string, column: string, missingIn: Side)
    | TypeDiffers(table: string, column: string, from: Side, columnType: string, otherType: string)
    | ItemMissing(kind: ItemKind, item: string, missingIn: Side)

  datatype Status = SUCCESS | FAILED

  datatype CompareError = NoStatementsReader

  // ----- results -----

  class SchemaCheckerResult {
    var errors: seq<Message>
    var warnings: seq<Message>
    var status: Status

    /** The status says whether there are errors. */
    ghost predicate Valid()
      reads this
    {
      status == SUCCESS <==> errors == []
    }

    constructor ()
      ensures Valid() && errors == [] && warnings == []
    {
      errors, warnings, status := [], [], SUCCESS;
    }

    method AddError(m: Message)
      modifies this
      ensures Valid() && errors == old(errors) + [m] && warnings == old(warnings)
    {
      errors := errors + [m];
      status := FAILED;
    }

    method AddWarning(m: Message)
      requires Valid()
      modifies this
      ensures Valid() && errors == old(errors) && warnings == old(warnings) + [m]
    {
      warnings := warnings + [m];
    }

    /** `operator+=`. */
    method Add(other: SchemaCheckerResult)
      requires Valid() && other.Valid()
      modifies this
      ensures Valid() && errors == old(errors) + old(other.errors) && warnings == old(warnings) + old(other.warnings)
    {
      errors := errors + other.errors;
      warnings := warnings + other.warnings;
      if status == SUCCESS { status := other.status; }
    }
  }

  // ----- items: constraints and indexes -----

  /** The messages for the items that are not among `others`, in order. */
  function MissingItems(kind: ItemKind, items: seq<string>, others: seq<string>, missingIn: Side): seq<Message> {
    if items == [] then []
    else
      var last := items[|items| - 1];
      MissingItems(kind, items[..|items| - 1], others, missingIn)
      + if last in others then [] else [ItemMissing(kind, last, missingIn)]
  }

  lemma {:induction false} NoMissingItems(kind: ItemKind, items: seq<string>, others: seq<string>, missingIn: Side)
    ensures MissingItems(kind, items, others, missingIn) == [] <==> forall x :: x in items ==> x in others
  {
    if items != [] {
      NoMissingItems(kind, items[..|items| - 1], others, missingIn);
      assert items == items[..|items| - 1] + [items[|items| - 1]];
    }
  }

  lemma {:induction false} MissingItemsNext(kind: ItemKind, items: seq<string>, others: seq<string>, missingIn: Side,
                                            i: nat)
    requires i < |items|
    ensures MissingItems(kind, items[..i + 1], others, missingIn) ==
              MissingItems(kind, items[..i], others, missingIn)
              + if items[i] in others then [] else [ItemMissing(kind, items[i], missingIn)]
  {
    assert items[..i + 1][..i] == items[..i];
  }

  /** What is missing on either side. */
  function ItemErrors(kind: ItemKind, database: seq<string>, schema: seq<string>): seq<Message> {
    MissingItems(kind, database, schema, SCHEMA) + MissingItems(kind, schema, database, CATALOGUE)
  }

  datatype Level = ERROR | WARN

  /** The messages that items of level `level` contribute to those of level `wanted`. */
  function AtLevel(wanted: Level, level: Level, found: seq<Message>): seq<Message> {
    if level == wanted then found else []
  }

  method FindMismatches(result: SchemaCheckerResult, kind: ItemKind, items: seq<string>, others: seq<string>,
                        missingIn: Side, level: Level)
    requires result.Valid()
    modifies result
    ensures result.Valid()
    ensures result.errors == old(result.errors) + AtLevel(ERROR, level, MissingItems(kind, items, others, missingIn))
    ensures result.warnings == old(result.warnings) + AtLevel(WARN, level, MissingItems(kind, items, others, missingIn))
  {
    for i := 0 to |items|
      invariant result.Valid()
      invariant var found := MissingItems(kind, items[..i], others, missingIn);
                && result.errors == old(result.errors) + AtLevel(ERROR, level, found)
                && result.warnings == old(result.warnings) + AtLevel(WARN, level, found)
    {
      MissingItemsNext(kind, items, others, missingIn, i);
      if items[i] !in others {
        if level == ERROR { result.AddError(ItemMissing(kind, items[i], missingIn)); }
        if level == WARN { result.AddWarning(ItemMissing(kind, items[i], missingIn)); }
      }
    }
    assert items[..|items|] == items;
  }

  method CompareItems(kind: ItemKind, database: seq<string>, databaseLevel: Level, schema: seq<string>,
                      schemaLevel: Level)
    returns (result: SchemaCheckerResult)
    ensures fresh(result) && result.Valid()
    ensures result.errors == AtLevel(ERROR, databaseLevel, MissingItems(kind, database, schema, SCHEMA))
                             + AtLevel(ERROR, schemaLevel, MissingItems(kind, schema, database, CATALOGUE))
    ensures result.warnings == AtLevel(WARN, databaseLevel, MissingItems(kind, database, schema, SCHEMA))
                               + AtLevel(WARN, schemaLevel, MissingItems(kind, schema, database, CATALOGUE))
  {
    result := new SchemaCheckerResult();
    FindMismatches(result, kind, database, schema, SCHEMA, databaseLevel);
    FindMismatches(result, kind, schema, database, CATALOGUE, schemaLevel);
  }

  // ----- tables and columns -----

  ghost predicate ReportedColumn(ours: Columns, theirs: Columns, side: Side, m: Message) {
    match m
    case ColumnMissing(_, c, missingIn) => missingIn == side.Other() && c in ours && c !in theirs
    case TypeDiffers(_, c, from, x, y) =>
      from == side && c in ours && c in theirs && ours[c] == x && theirs[c] == y && x != y
    case _ => false
  }

  /** The differences that `ours` has with `theirs`, seen from `ours`. */
  ghost predicate Reported(ours: TableColumns, theirs: TableColumns, side: Side, m: Message) {
    && !m.ItemMissing? && m.table in ours
    && if m.table in theirs then ReportedColumn(ours[m.table], theirs[m.table], side, m)
       else m == TableMissing(m.table, side.Other())
  }

  /** `errors` holds each difference once. */
  ghost predicate Complete(errors: seq<Message>, ours: TableColumns, theirs: TableColumns, side: Side) {
    NoRepeats(errors) && forall m :: m in errors <==> Reported(ours, theirs, side, m)
  }

  method CompareColumns(result: SchemaCheckerResult, table: string, ours: Columns, theirs: Columns, side: Side)
    requires result.Valid() && NoRepeats(result.errors)
    requires forall m :: m in result.errors ==> !m.ItemMissing? && m.table != table
    modifies result
    ensures result.Valid() && result.warnings == old(result.warnings) && NoRepeats(result.errors)
    ensures forall m :: m in result.errors <==>
                          || m in old(result.errors)
                          || (!m.ItemMissing? && m.table == table && ReportedColumn(ours, theirs, side, m))
  {
    var pending := ours.Keys;
    while pending != {}
      invariant pending <= ours.Keys && result.Valid() && result.warnings == old(result.warnings)
      invariant NoRepeats(result.errors)
      invariant forall m :: m in result.errors <==>
                              || m in old(result.errors)
                              || (&& !m.ItemMissing? && m.table == table
                                  && ReportedColumn(ours, theirs, side, m) && m.column !in pending)
      decreases |pending|
    {
      var c :| c in pending;
      pending := pending - {c};
      if c !in theirs {
        result.AddError(ColumnMissing(table, c, side.Other()));
      } else if ours[c] != theirs[c] {
        result.AddError(TypeDiffers(table, c, side, ours[c], theirs[c]));
      }
    }
  }

  /** The order in which the source goes through its maps makes no difference to what is reported. */
  method CompareTableColumns(ours: TableColumns, theirs: TableColumns, side: Side) returns (result: SchemaCheckerResult)
    ensures fresh(result) && result.Valid() && result.warnings == []
    ensures Complete(result.errors, ours, theirs, side)
  {
    result := new SchemaCheckerResult();
    var pending := ours.Keys;
    while pending != {}
      invariant pending <= ours.Keys && fresh(result) && result.Valid() && result.warnings == []
      invariant NoRepeats(result.errors)
      invariant forall m :: m in result.errors <==> Reported(ours, theirs, side, m) && m.table !in pending
      decreases |pending|
    {
      var t :| t in pending;
      pending := pending - {t};
      if t in theirs {
        CompareColumns(result, t, ours[t], theirs[t], side);
      } else {
        result.AddError(TableMissing(t, side.Other()));
      }
    }
  }

  lemma {:induction false} NothingToReport(a: TableColumns, errors: seq<Message>, side: Side)
    requires Complete(errors, a, a, side)
    ensures errors == []
  {
    NoRepeatsSize(errors);
    assert Members(errors) == {};
  }

  /** Both directions together find no difference exactly when the two are equal. */
  lemma {:induction false} NoDifferenceIffEqual(a: TableColumns, b: TableColumns, there: seq<Message>,
                                                back: seq<Message>)
    requires Complete(there, a, b, CATALOGUE) && Complete(back, b, a, SCHEMA)
    ensures there == [] && back == [] <==> a == b
  {
    if there == [] && back == [] {
      forall t ensures t in a <==> t in b {
        assert !Reported(a, b, CATALOGUE, TableMissing(t, SCHEMA))
               && !Reported(b, a, SCHEMA, TableMissing(t, CATALOGUE));
      }
      forall t | t in a ensures a[t] == b[t] {
        forall c ensures c in a[t] <==> c in b[t] {
          assert !Reported(a, b, CATALOGUE, ColumnMissing(t, c, SCHEMA))
                 && !Reported(b, a, SCHEMA, ColumnMissing(t, c, CATALOGUE));
        }
        forall c | c in a[t] ensures a[t][c] == b[t][c] {
          assert !Reported(a, b, CATALOGUE, TypeDiffers(t, c, CATALOGUE, a[t][c], b[t][c]));
        }
      }
    }
    if a == b {
      NothingToReport(a, there, CATALOGUE);
      NothingToReport(b, back, SCHEMA);
    }
  }

  // ----- how many errors -----

  ghost function MissingTables(ours: TableColumns, theirs: TableColumns): set<string> {
    ours.Keys - theirs.Keys
  }

  ghost function MissingColumns(ours: TableColumns, theirs: TableColumns): set<(string, string)> {
    set t, c | t in ours && t in theirs && c in ours[t] && c !in theirs[t] :: (t, c)
  }

  ghost function DifferingTypes(ours: TableColumns, theirs: TableColumns): set<(string, string)> {
    set t, c | t in ours && t in theirs && c in ours[t] && c in theirs[t] && ours[t][c] != theirs[t][c] :: (t, c)
  }

  lemma {:induction false} ImageSize<A(!new), B(!new)>(s: set<A>, f: A -> B, image: set<B>)
    requires forall x, y :: x in s && y in s && x != y ==> f(x) != f(y)
    requires forall b :: b in image <==> exists x :: x in s && f(x) == b
    ensures |image| == |s|
    decreases |s|
  {
    if x :| x in s {
      ImageSize(s - {x}, f, image - {f(x)});
    } else {
      assert image == {};
    }
  }

  ghost function Members(ms: seq<Message>): set<Message> {
    set m | m in ms
  }

  lemma {:induction false} NoRepeatsSize(ms: seq<Message>)
    requires NoRepeats(ms)
    ensures |Members(ms)| == |ms|
  {
    if ms != [] {
      var last, front := ms[|ms| - 1], ms[..|ms| - 1];
      NoRepeatsSize(front);
      assert Members(ms) == Members(front) + {last};
    }
  }

  /** One direction reports one error for each missing table, missing column and differing type. */
  lemma {:induction false} ErrorsOneWay(errors: seq<Message>, a: TableColumns, b: TableColumns, side: Side)
    requires Complete(errors, a, b, side)
    ensures |errors| == |MissingTables(a, b)| + |MissingColumns(a, b)| + |DifferingTypes(a, b)|
  {
    NoRepeatsSize(errors);
    KindsOfErrors(errors);
    TableErrors(errors, a, b, side, TablesIn(errors));
    ColumnErrors(errors, a, b, side, ColumnsIn(errors));
    TypeErrors(errors, a, b, side, TypesIn(errors));
  }

  ghost function TablesIn(errors: seq<Message>): set<Message> {
    set m | m in errors && m.TableMissing?
  }

  ghost function ColumnsIn(errors: seq<Message>): set<Message> {
    set m | m in errors && m.ColumnMissing?
  }

  ghost function TypesIn(errors: seq<Message>): set<Message> {
    set m | m in errors && m.TypeDiffers?
  }

  lemma {:induction false} KindsOfErrors(errors: seq<Message>)
    requires forall m :: m in errors ==> !m.ItemMissing?
    ensures |Members(errors)| == |TablesIn(errors)| + |ColumnsIn(errors)| + |TypesIn(errors)|
  {
    DisjointSizes(Members(errors), TablesIn(errors), ColumnsIn(errors), TypesIn(errors));
  }

  lemma {:induction false} DisjointSizes(all: set<Message>, a: set<Message>, b: set<Message>, c: set<Message>)
    requires a !! b && a !! c && b !! c && all == a + b + c
    ensures |all| == |a| + |b| + |c|
  {
    assert |a + b| == |a| + |b|;
  }

  lemma {:induction false} TableErrors(errors: seq<Message>, a: TableColumns, b: TableColumns, side: Side,
                                       tables: set<Message>)
    requires Complete(errors, a, b, side) && tables == TablesIn(errors)
    ensures |tables| == |MissingTables(a, b)|
  {
    var f := (t: string) => TableMissing(t, side.Other());
    forall m ensures m in tables <==> exists t :: t in MissingTables(a, b) && f(t) == m {
      if m in tables { assert m.table in MissingTables(a, b) && f(m.table) == m; }
    }
    ImageSize(MissingTables(a, b), f, tables);
  }

  lemma {:induction false} ColumnErrors(errors: seq<Message>, a: TableColumns, b: TableColumns, side: Side,
                                        columns: set<Message>)
    requires Complete(errors, a, b, side) && columns == ColumnsIn(errors)
    ensures |columns| == |MissingColumns(a, b)|
  {
    var f := (p: (string, string)) => ColumnMissing(p.0, p.1, side.Other());
    forall m ensures m in columns <==> exists p :: p in MissingColumns(a, b) && f(p) == m {
      if m in columns { assert (m.table, m.column) in MissingColumns(a, b) && f((m.table, m.column)) == m; }
    }
    ImageSize(MissingColumns(a, b), f, columns);
  }

  lemma {:induction false} TypeErrors(errors: seq<Message>, a: TableColumns, b: TableColumns, side: Side,
                                      types: set<Message>)
    requires Complete(errors, a, b, side) && types == TypesIn(errors)
    ensures |types| == |DifferingTypes(a, b)|
  {
    var f := (p: (string, string)) =>
        if p in DifferingTypes(a, b) then TypeDiffers(p.0, p.1, side, a[p.0][p.1], b[p.0][p.1])
        else TableMissing(p.0, side);
    forall m ensures m in types <==> exists p :: p in DifferingTypes(a, b) && f(p) == m {
      if m in types { assert (m.table, m.column) in DifferingTypes(a, b) && f((m.table, m.column)) == m; }
    }
    ImageSize(DifferingTypes(a, b), f, types);
  }

  /** Both directions: one error per table or column missing on either side and two per type mismatch. */
  lemma {:induction false} ErrorsBothWays(a: TableColumns, b: TableColumns, there: seq<Message>, back: seq<Message>)
    requires Complete(there, a, b, CATALOGUE) && Complete(back, b, a, SCHEMA)
    ensures |there + back| == |MissingTables(a, b)| + |MissingTables(b, a)|
                              + |MissingColumns(a, b)| + |MissingColumns(b, a)|
                              + 2 * |DifferingTypes(a, b)|
  {
    ErrorsOneWay(there, a, b, CATALOGUE);
    ErrorsOneWay(back, b, a, SCHEMA);
    assert DifferingTypes(a, b) == DifferingTypes(b, a);
  }

  // ----- the comparer -----

  function ColumnsOfTables(meta: Metadata, tables: seq<string>): TableColumns {
    map t | t in tables :: meta.ColumnsOf(t)
  }

  function ConstraintsOfTables(meta: Metadata, tables: seq<string>): map<string, seq<string>> {
    map t | t in tables :: meta.ConstraintsOf(t)
  }

  /** A table missing from the map reads as one without constraints. */
  function ConstraintsIn(constraints: map<string, seq<string>>, table: string): seq<string> {
    if table in constraints then constraints[table] else []
  }

  function ConstraintErrors(database: map<string, seq<string>>, schema: Metadata, tables: seq<string>): seq<Message> {
    if tables == [] then []
    else
      var t := tables[|tables| - 1];
      ConstraintErrors(database, schema, tables[..|tables| - 1])
      + ItemErrors(CONSTRAINT(t), ConstraintsIn(database, t), schema.ConstraintsOf(t))
  }

  lemma {:induction false} ConstraintErrorsNext(database: map<string, seq<string>>, schema: Metadata,
                                                tables: seq<string>, i: nat)
    requires i < |tables|
    ensures ConstraintErrors(database, schema, tables[..i + 1]) ==
              ConstraintErrors(database, schema, tables[..i])
              + ItemErrors(CONSTRAINT(tables[i]), ConstraintsIn(database, tables[i]), schema.ConstraintsOf(tables[i]))
  {
    assert tables[..i + 1][..i] == tables[..i];
  }

  ghost predicate SameNames(a: seq<string>, b: seq<string>) {
    forall x :: x in a <==> x in b
  }

  lemma {:induction false} NoItemErrors(kind: ItemKind, database: seq<string>, schema: seq<string>)
    ensures ItemErrors(kind, database, schema) == [] <==> SameNames(database, schema)
  {
    NoMissingItems(kind, database, schema, SCHEMA);
    NoMissingItems(kind, schema, database, CATALOGUE);
  }

  lemma {:induction false} NoConstraintErrors(database: map<string, seq<string>>, schema: Metadata, tables: seq<string>)
    ensures ConstraintErrors(database, schema, tables) == [] <==>
              forall t :: t in tables ==> SameNames(ConstraintsIn(database, t), schema.ConstraintsOf(t))
  {
    if tables != [] {
      var front, t := tables[..|tables| - 1], tables[|tables| - 1];
      assert tables == front + [t];
      NoConstraintErrors(database, schema, front);
      NoItemErrors(CONSTRAINT(t), ConstraintsIn(database, t), schema.ConstraintsOf(t));
      assert forall x :: x in tables <==> x in front || x == t;
    }
  }

  /** The listed tables have the same columns of the same types, and those of the schema the same constraints. */
  ghost predicate TablesAgree(database: Metadata, tables: seq<string>, schema: Metadata) {
    && ColumnsOfTables(database, tables) == ColumnsOfTables(schema, schema.tables)
    && forall t :: t in schema.tables ==>
                     SameNames(ConstraintsIn(ConstraintsOfTables(database, tables), t), schema.ConstraintsOf(t))
  }

  /** The errors of a comparison: those of constraints, then the differences of the columns in both directions. */
  ghost predicate TableErrorsAre(errors: seq<Message>, database: Metadata, tables: seq<string>, schema: Metadata) {
    exists there, back ::
      && Complete(there, ColumnsOfTables(database, tables), ColumnsOfTables(schema, schema.tables), CATALOGUE)
      && Complete(back, ColumnsOfTables(schema, schema.tables), ColumnsOfTables(database, tables), SCHEMA)
      && errors == ConstraintErrors(ConstraintsOfTables(database, tables), schema, schema.tables) + there + back
  }

  lemma {:induction false} NoTableErrorsIffAgree(errors: seq<Message>, database: Metadata, tables: seq<string>,
                                                 schema: Metadata)
    requires TableErrorsAre(errors, database, tables, schema)
    ensures errors == [] <==> TablesAgree(database, tables, schema)
  {
    var ours, theirs := ColumnsOfTables(database, tables), ColumnsOfTables(schema, schema.tables);
    var there, back :| Complete(there, ours, theirs, CATALOGUE) && Complete(back, theirs, ours, SCHEMA)
      && errors == ConstraintErrors(ConstraintsOfTables(database, tables), schema, schema.tables) + there + back;
    NoDifferenceIffEqual(ours, theirs, there, back);
    NoConstraintErrors(ConstraintsOfTables(database, tables), schema, schema.tables);
  }

  /** A comparison of tables counts one error per constraint, table or column that either side lacks and two per type
      mismatch. */
  lemma {:induction false} TableErrorCount(errors: seq<Message>, database: Metadata, tables: seq<string>,
                                           schema: Metadata)
    requires TableErrorsAre(errors, database, tables, schema)
    ensures var ours, theirs := ColumnsOfTables(database, tables), ColumnsOfTables(schema, schema.tables);
            |errors| == |ConstraintErrors(ConstraintsOfTables(database, tables), schema, schema.tables)|
                        + |MissingTables(ours, theirs)| + |MissingTables(theirs, ours)|
                        + |MissingColumns(ours, theirs)| + |MissingColumns(theirs, ours)|
                        + 2 * |DifferingTypes(ours, theirs)|
  {
    var ours, theirs := ColumnsOfTables(database, tables), ColumnsOfTables(schema, schema.tables);
    var there, back :| Complete(there, ours, theirs, CATALOGUE) && Complete(back, theirs, ours, SCHEMA)
      && errors == ConstraintErrors(ConstraintsOfTables(database, tables), schema, schema.tables) + there + back;
    ErrorsBothWays(ours, theirs, there, back);
  }

  lemma {:induction false} TablesNext(meta: Metadata, tables: seq<string>, i: nat)
    requires i < |tables|
    ensures ColumnsOfTables(meta, tables[..i + 1])
            == ColumnsOfTables(meta, tables[..i])[tables[i] := meta.ColumnsOf(tables[i])]
    ensures ConstraintsOfTables(meta, tables[..i + 1]) ==
            ConstraintsOfTables(meta, tables[..i])[tables[i] := meta.ConstraintsOf(tables[i])]
  {
    assert tables[..i + 1] == tables[..i] + [tables[i]];
  }

  method ReadTables(meta: Metadata, tables: seq<string>)
    returns (columns: TableColumns, constraints: map<string, seq<string>>)
    ensures columns == ColumnsOfTables(meta, tables) && constraints == ConstraintsOfTables(meta, tables)
  {
    columns, constraints := map[], map[];
    for i := 0 to |tables|
      invariant columns == ColumnsOfTables(meta, tables[..i]) && constraints == ConstraintsOfTables(meta, tables[..i])
    {
      TablesNext(meta, tables, i);
      columns := columns[tables[i] := meta.ColumnsOf(tables[i])];
      constraints := constraints[tables[i] := meta.ConstraintsOf(tables[i])];
    }
    assert tables[..|tables|] == tables;
  }

  /** The overload of `compareTables` that is given the lists. */
  method CompareTableLists(database: Metadata, tables: seq<string>, schema: Metadata)
    returns (result: SchemaCheckerResult)
    ensures fresh(result) && result.Valid() && result.warnings == []
    ensures TableErrorsAre(result.errors, database, tables, schema)
    ensures result.status == SUCCESS <==> TablesAgree(database, tables, schema)
  {
    var databaseColumns, databaseConstraints := ReadTables(database, tables);
    var schemaColumns, schemaConstraints := ReadTables(schema, schema.tables);
    result := CompareConstraints(databaseConstraints, schema, schemaConstraints);
    var there := CompareTableColumns(databaseColumns, schemaColumns, CATALOGUE);
    result.Add(there);
    var back := CompareTableColumns(schemaColumns, databaseColumns, SCHEMA);
    ghost var found := back.errors;
    result.Add(back);
    assert Complete(found, schemaColumns, databaseColumns, SCHEMA);
    assert TableErrorsAre(result.errors, database, tables, schema);
    NoTableErrorsIffAgree(result.errors, database, tables, schema);
  }

  method CompareConstraints(database: map<string, seq<string>>, schema: Metadata, constraints: map<string, seq<string>>)
    returns (result: SchemaCheckerResult)
    requires constraints == ConstraintsOfTables(schema, schema.tables)
    ensures fresh(result) && result.Valid() && result.warnings == []
    ensures result.errors == ConstraintErrors(database, schema, schema.tables)
  {
    result := new SchemaCheckerResult();
    for i := 0 to |schema.tables|
      invariant fresh(result) && result.Valid() && result.warnings == []
      invariant result.errors == ConstraintErrors(database, schema, schema.tables[..i])
    {
      var t := schema.tables[i];
      ConstraintErrorsNext(database, schema, schema.tables, i);
      var items := CompareItems(CONSTRAINT(t), ConstraintsIn(database, t), ERROR, constraints[t], ERROR);
      result.Add(items);
    }
    assert schema.tables[..|schema.tables|] == schema.tables;
  }

  /** `remove_if` the name is not listed. */
  function KeepListed(names: seq<string>, listed: seq<string>): (r: seq<string>)
    ensures forall t :: t in r <==> t in names && t in listed
  {
    if names == [] then []
    else if names[0] in listed then [names[0]] + KeepListed(names[1..], listed)
    else KeepListed(names[1..], listed)
  }

  /** Each table of the schema is in the database with the same columns and constraints. */
  ghost predicate SchemaTablesPresent(database: Metadata, schema: Metadata) {
    forall t :: t in schema.tables ==>
                  && t in database.tables && database.ColumnsOf(t) == schema.ColumnsOf(t)
                  && SameNames(database.ConstraintsOf(t), schema.ConstraintsOf(t))
  }

  lemma {:induction false} ListedTablesAgree(database: Metadata, schema: Metadata)
    ensures TablesAgree(database, KeepListed(database.tables, schema.tables), schema) <==>
            SchemaTablesPresent(database, schema)
  {
    var tables := KeepListed(database.tables, schema.tables);
    var ours, theirs := ColumnsOfTables(database, tables), ColumnsOfTables(schema, schema.tables);
    if TablesAgree(database, tables, schema) {
      forall t | t in schema.tables ensures t in database.tables && database.ColumnsOf(t) == schema.ColumnsOf(t)
        ensures SameNames(database.ConstraintsOf(t), schema.ConstraintsOf(t)) {
        assert t in theirs && t in ours && ours[t] == theirs[t];
      }
    }
    if SchemaTablesPresent(database, schema) {
      assert ours == theirs;
    }
  }

  /** The schema and the database agree on tables, columns, types and constraints, and no index is missing. */
  ghost predicate Agree(database: Metadata, schema: Metadata) {
    TablesAgree(database, database.tables, schema) && forall x :: x in schema.indexes ==> x in database.indexes
  }

  class SQLiteSchemaComparer {
    /** The catalogue database. */
    const database: Metadata
    /** What the statements of the reader define. */
    var reader: Option<Metadata>
    /** The metadata of the in-memory SQLite database. */
    var schema: Metadata
    var isSchemaInserted: bool

    constructor (database: Metadata)
      ensures this.database == database && reader == None && !isSchemaInserted
    {
      this.database := database;
      reader, schema, isSchemaInserted := None, Metadata([], map[], map[], []), false;
    }

    method SetReader(defined: Metadata)
      modifies this
      ensures reader == Some(defined) && schema == old(schema) && isSchemaInserted == old(isSchemaInserted)
    {
      reader := Some(defined);
    }

    /** The schema is inserted once; a reader set later is not read. */
    method InsertSchema() returns (ok: bool)
      modifies this
      ensures ok == (old(isSchemaInserted) || reader.Some?) && reader == old(reader) && isSchemaInserted == ok
      ensures schema == if !old(isSchemaInserted) && ok then reader.value else old(schema)
    {
      if !isSchemaInserted {
        if reader == None { return false; }
        schema := reader.value;
      }
      isSchemaInserted := true;
      ok := true;
    }

    method CompareAll() returns (r: Result<SchemaCheckerResult, CompareError>)
      modifies this
      ensures r.Err? <==> !old(isSchemaInserted) && old(reader).None?
      ensures schema == if !old(isSchemaInserted) && r.Ok? then old(reader).value else old(schema)
      ensures r.Ok? ==> fresh(r.value) && r.value.Valid() && (r.value.status == SUCCESS <==> Agree(database, schema))
      ensures r.Ok? ==> r.value.warnings == MissingItems(INDEX, database.indexes, schema.indexes, SCHEMA)
    {
      var ok := InsertSchema();
      if !ok { return Err(NoStatementsReader); }
      var res := new SchemaCheckerResult();
      var tables := CompareTableLists(database, database.tables, schema);
      res.Add(tables);
      var indexes := CompareItems(INDEX, database.indexes, WARN, schema.indexes, ERROR);
      res.Add(indexes);
      NoMissingItems(INDEX, schema.indexes, database.indexes, CATALOGUE);
      r := Ok(res);
    }

    /** Tables that only the database has are left aside. */
    method CompareTablesLocatedInSchema() returns (r: Result<SchemaCheckerResult, CompareError>)
      modifies this
      ensures r.Err? <==> !old(isSchemaInserted) && old(reader).None?
      ensures schema == if !old(isSchemaInserted) && r.Ok? then old(reader).value else old(schema)
      ensures r.Ok? ==> fresh(r.value) && r.value.Valid() && r.value.warnings == []
      ensures r.Ok? ==> (r.value.status == SUCCESS <==> SchemaTablesPresent(database, schema))
    {
      var ok := InsertSchema();
      if !ok { return Err(NoStatementsReader); }
      var res := CompareTableLists(database, KeepListed(database.tables, schema.tables), schema);
      ListedTablesAgree(database, schema);
      r := Ok(res);
    }
  }

  // ----- what is reported, message by message -----

  /** An item is reported as missing as often as it is listed, if it is not among the others, and nothing else is. */
  lemma {:induction false} MissingItemsAre(kind: ItemKind, items: seq<string>, others: seq<string>, side: Side,
                                           m: Message)
    ensures multiset(MissingItems(kind, items, others, side))[m] ==
            if m.ItemMissing? && m.kind == kind && m.missingIn == side && m.item !in others then multiset(items)[m.item]
            else 0
  {
    if items != [] {
      var front, last := items[..|items| - 1], items[|items| - 1];
      MissingItemsAre(kind, front, others, side, m);
      assert items == front + [last];
    }
  }

  /** The constraint messages name the tables of the schema, the names that one side lacks, and that side. */
  lemma {:induction false} ConstraintErrorsAre(database: map<string, seq<string>>, schema: Metadata,
                                               tables: seq<string>, m: Message)
    ensures m in ConstraintErrors(database, schema, tables) <==>
            && m.ItemMissing? && m.kind.CONSTRAINT? && m.kind.inTable in tables
            && var t := m.kind.inTable;
               var there := if t in database then database[t] else [];
               var here := if t in schema.constraints then schema.constraints[t] else [];
               if m.missingIn == SCHEMA then m.item in there && m.item !in here
               else m.item in here && m.item !in there
  {
    if tables != [] {
      var front, t := tables[..|tables| - 1], tables[|tables| - 1];
      assert tables == front + [t];
      ConstraintErrorsAre(database, schema, front, m);
      ItemErrorsAre(CONSTRAINT(t), ConstraintsIn(database, t), schema.ConstraintsOf(t), m);
    }
  }

  lemma {:induction false} ItemErrorsAre(kind: ItemKind, there: seq<string>, here: seq<string>, m: Message)
    ensures m in ItemErrors(kind, there, here) <==>
            && m.ItemMissing? && m.kind == kind
            && if m.missingIn == SCHEMA then m.item in there && m.item !in here
               else m.item in here && m.item !in there
  {
    MissingItemsAre(kind, there, here, SCHEMA, m);
    MissingItemsAre(kind, here, there, CATALOGUE, m);
    var extra, missing := MissingItems(kind, there, here, SCHEMA), MissingItems(kind, here, there, CATALOGUE);
    assert m in extra <==> m in multiset(extra);
    assert m in missing <==> m in multiset(missing);
  }

  /** The differences seen from the catalogue name the schema as the side that lacks something, and the other way
      round. */
  lemma {:induction false} DifferencesAre(a: TableColumns, b: TableColumns, there: seq<Message>, back: seq<Message>)
    requires Complete(there, a, b, CATALOGUE) && Complete(back, b, a, SCHEMA)
    ensures forall t :: TableMissing(t, SCHEMA) in there <==> t in a && t !in b
    ensures forall t :: TableMissing(t, CATALOGUE) in back <==> t in b && t !in a
    ensures forall t, c :: ColumnMissing(t, c, SCHEMA) in there <==> t in a && t in b && c in a[t] && c !in b[t]
    ensures forall t, c :: ColumnMissing(t, c, CATALOGUE) in back <==> t in a && t in b && c in b[t] && c !in a[t]
    ensures forall t, c, x, y :: TypeDiffers(t, c, CATALOGUE, x, y) in there <==>
                                   && t in a && t in b && c in a[t] && c in b[t]
                                   && x == a[t][c] && y == b[t][c] && x != y
    ensures forall t, c, x, y :: TypeDiffers(t, c, SCHEMA, x, y) in back <==>
                                   && t in a && t in b && c in a[t] && c in b[t]
                                   && x == b[t][c] && y == a[t][c] && x != y
  {
  }

  /** Agreement by contents: the same tables, with the same columns and types, the same constraint names in each, and
      all indexes of the schema. */
  lemma {:induction false} AgreeByContents(database: Metadata, schema: Metadata)
    ensures Agree(database, schema) <==>
            && (forall t :: t in database.tables <==> t in schema.tables)
            && (forall t :: t in schema.tables ==> SameTable(database, schema, t))
            && (forall x :: x in schema.indexes ==> x in database.indexes)
  {
    var ours, theirs := ColumnsOfTables(database, database.tables), ColumnsOfTables(schema, schema.tables);
    if Agree(database, schema) {
      forall t ensures t in database.tables <==> t in schema.tables { assert t in ours <==> t in theirs; }
      forall t | t in schema.tables ensures SameTable(database, schema, t) { assert ours[t] == theirs[t]; }
    }
    if && (forall t :: t in database.tables <==> t in schema.tables)
       && (forall t :: t in schema.tables ==> SameTable(database, schema, t))
    {
      forall t | t in ours ensures t in theirs && ours[t] == theirs[t] { assert SameTable(database, schema, t); }
      forall t | t in schema.tables
        ensures SameNames(ConstraintsIn(ConstraintsOfTables(database, database.tables), t), schema.ConstraintsOf(t))
      {
        assert SameTable(database, schema, t);
      }
    }
  }

  ghost predicate SameTable(database: Metadata, schema: Metadata, t: string) {
    var there := if t in database.constraints then database.constraints[t] else [];
    var here := if t in schema.constraints then schema.constraints[t] else [];
    && (if t in database.columns then database.columns[t] else map[]) ==
       (if t in schema.columns then schema.columns[t] else map[])
    && forall x :: x in there <==> x in here
  }

  lemma {:induction false} PresentByContents(database: Metadata, schema: Metadata)
    ensures SchemaTablesPresent(database, schema) <==>
            forall t :: t in schema.tables ==> t in database.tables && SameTable(database, schema, t)
  {
    forall t
      ensures SameTable(database, schema, t) <==>
              && database.ColumnsOf(t) == schema.ColumnsOf(t)
              && SameNames(database.ConstraintsOf(t), schema.ConstraintsOf(t))
    {
    }
  }
}
