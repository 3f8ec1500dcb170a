/** The live database as DDL sees it, the effect of each migration step on it, and what
    the introspector reports of it. */
module Catalog {
  import opened Wrappers
  import opened SchemaAst
  import opened SchemaDiff
  import Naming

  datatype LiveTable = LiveTable(columns: set<string>, foreignKeys: set<ForeignKeyDefinition>)

  datatype LiveIndex = LiveIndex(table: string, columns: set<string>, unique: bool)

  /** Index names are global to the database. Indexes that back a primary key are left
      out, as the introspector leaves them out. */
  datatype Catalog = Catalog(tables: map<string, LiveTable>, indexes: map<string, LiveIndex>)
  {
    /** Every index belongs to a table and uses columns of it; every foreign key uses columns
        of its table and leads to columns of a table that is there. */
    ghost predicate Valid() {
      && (forall n | n in indexes ::
            indexes[n].table in tables && indexes[n].columns <= tables[indexes[n].table].columns)
      && forall t, fk | t in tables && fk in tables[t].foreignKeys :: KeyHolds(t, fk)
    }

    ghost predicate KeyHolds(t: string, fk: ForeignKeyDefinition)
      requires t in tables
    {
      && ToSet(fk.columns) <= tables[t].columns
      && fk.referencedTable in tables
      && ToSet(fk.referencedColumns) <= tables[fk.referencedTable].columns
    }

    predicate Refers(referrer: string, table: string) {
      referrer in tables && exists fk | fk in tables[referrer].foreignKeys :: fk.referencedTable == table
    }

    predicate RefersToColumn(referrer: string, table: string, column: string) {
      referrer in tables
      && exists fk | fk in tables[referrer].foreignKeys ::
           fk.referencedTable == table && column in fk.referencedColumns
    }
  }

  function ToSet(xs: seq<string>): set<string> { set x | x in xs }

  // ----- one DDL statement --------------------------------------------------------

  /** A foreign key of a table being created needs its target: a live table, or the
      table itself, that has the referenced columns. */
  predicate TargetReady(db: Catalog, t: TableDefinition, fk: ForeignKeyDefinition) {
    && ToSet(fk.columns) <= ColumnNames(t)
    && if fk.referencedTable == t.name then ToSet(fk.referencedColumns) <= ColumnNames(t)
       else fk.referencedTable in db.tables
            && ToSet(fk.referencedColumns) <= db.tables[fk.referencedTable].columns
  }

  /** A type the database has: a decimal of at least one and at most a thousand digits. */
  predicate TypeTaken(t: SqlColumnType) { t.DecimalColumn? ==> 1 <= t.precision <= 1000 }

  /** The statements the database accepts. */
  predicate Enabled(db: Catalog, step: MigrationStep) {
    match step
    case CreateTable(t) =>
      t.name in db.tables
      || ((t.kind == Link ==> {"owner_id", "target_id"} <= ColumnNames(t))
          && (forall c | c in t.columns :: TypeTaken(c.dataType))
          && forall fk | fk in t.foreignKeys :: TargetReady(db, t, fk))
    case DropTable(n, _) =>
      forall s | s in db.tables && s != n :: !db.Refers(s, n)
    case AddColumn(t, c) => t in db.tables && TypeTaken(c.dataType)
    case DropColumn(t, c) =>
      t in db.tables && forall s | s in db.tables && s != t :: !db.RefersToColumn(s, t, c)
    case CreateIndex(x) =>
      x.tableName in db.tables
      && (x.name in db.indexes || ToSet(x.columns) <= db.tables[x.tableName].columns)
    case DropIndex(_, _) => true
  }

  /** The effect of an accepted statement, `IF [NOT] EXISTS` included. */
  function Apply(db: Catalog, step: MigrationStep): Catalog
    requires Enabled(db, step)
  {
    match step
    case CreateTable(t) =>
      if t.name in db.tables then db
      else db.(tables := db.tables[t.name := LiveTable(ColumnNames(t), set fk | fk in t.foreignKeys)])
    case DropTable(n, _) =>
      Catalog(db.tables - {n}, map i | i in db.indexes && db.indexes[i].table != n :: db.indexes[i])
    case AddColumn(t, c) =>
      var live := db.tables[t];
      db.(tables := db.tables[t := live.(columns := live.columns + {c.name})])
    case DropColumn(t, c) =>
      var live := db.tables[t];
      var fks := set fk | fk in live.foreignKeys
                 && c !in fk.columns && !(fk.referencedTable == t && c in fk.referencedColumns);
      Catalog(db.tables[t := LiveTable(live.columns - {c}, fks)],
              map i | i in db.indexes && !(db.indexes[i].table == t && c in db.indexes[i].columns) :: db.indexes[i])
    case CreateIndex(x) =>
      if x.name in db.indexes then db
      else db.(indexes := db.indexes[x.name := LiveIndex(x.tableName, ToSet(x.columns), x.unique)])
    case DropIndex(n, _) => db.(indexes := db.indexes - {n})
  }

  lemma ApplyValid(db: Catalog, step: MigrationStep)
    requires db.Valid() && Enabled(db, step)
    ensures Apply(db, step).Valid()
  {
    var after := Apply(db, step);
    forall t, fk | t in after.tables && fk in after.tables[t].foreignKeys ensures after.KeyHolds(t, fk) {
      ApplyKeepsKey(db, step, t, fk);
    }
  }

  lemma ApplyKeepsKey(db: Catalog, step: MigrationStep, t: string, fk: ForeignKeyDefinition)
    requires db.Valid() && Enabled(db, step)
    requires t in Apply(db, step).tables && fk in Apply(db, step).tables[t].foreignKeys
    ensures Apply(db, step).KeyHolds(t, fk)
  {
    if t in db.tables && fk in db.tables[t].foreignKeys {
      assert db.KeyHolds(t, fk);
      assert db.Refers(t, fk.referencedTable);
      assert forall c | c in fk.referencedColumns :: db.RefersToColumn(t, fk.referencedTable, c);
    }
  }

  // ----- a whole plan ---------------------------------------------------------------

  datatype Outcome = Outcome(db: Catalog, ok: bool)

  /** Statements run one by one, outside any transaction; the first refused one ends the
      run and leaves what the earlier ones did. */
  function Run(db: Catalog, steps: seq<MigrationStep>): Outcome
    decreases |steps|
  {
    if steps == [] then Outcome(db, true)
    else if !Enabled(db, steps[0]) then Outcome(db, false)
    else Run(Apply(db, steps[0]), steps[1..])
  }

  lemma {:induction false} RunConcat(db: Catalog, xs: seq<MigrationStep>, ys: seq<MigrationStep>)
    ensures Run(db, xs + ys) == if Run(db, xs).ok then Run(Run(db, xs).db, ys) else Run(db, xs)
    decreases |xs|
  {
    if xs == [] {
      assert xs + ys == ys;
    } else {
      assert (xs + ys)[0] == xs[0] && (xs + ys)[1..] == xs[1..] + ys;
      if Enabled(db, xs[0]) {
        RunConcat(Apply(db, xs[0]), xs[1..], ys);
      }
    }
  }

  lemma {:induction false} RunValid(db: Catalog, steps: seq<MigrationStep>)
    requires db.Valid()
    ensures Run(db, steps).db.Valid()
    decreases |steps|
  {
    if steps != [] && Enabled(db, steps[0]) {
      ApplyValid(db, steps[0]);
      RunValid(Apply(db, steps[0]), steps[1..]);
    }
  }

  datatype ExecutorError = StatementFailed(step: MigrationStep)

  class Database {
    var catalog: Catalog

    constructor (c: Catalog)
      ensures catalog == c
    {
      catalog := c;
    }

    method Execute(step: MigrationStep) returns (ok: bool)
      modifies this
      ensures ok == Enabled(old(catalog), step)
      ensures catalog == if ok then Apply(old(catalog), step) else old(catalog)
    {
      ok := Enabled(catalog, step);
      if ok {
        catalog := Apply(catalog, step);
      }
    }

    method ExecuteMigrationPlan(plan: seq<MigrationStep>) returns (r: Result<seq<MigrationStep>, ExecutorError>)
      modifies this
      ensures Run(old(catalog), plan) == Outcome(catalog, r.Ok?)
      ensures r.Ok? ==> r.value == plan
      ensures r.Err? ==> exists k | 0 <= k < |plan| ::
                           && plan[k] == r.error.step
                           && Run(old(catalog), plan[..k]) == Outcome(catalog, true)
                           && !Enabled(catalog, plan[k])
    {
      var executed := [];
      for i := 0 to |plan|
        invariant executed == plan[..i]
        invariant Run(old(catalog), plan) == Run(catalog, plan[i..])
        invariant Run(old(catalog), plan[..i]) == Outcome(catalog, true)
      {
        ghost var before := catalog;
        assert plan[i..][1..] == plan[i + 1..];
        assert plan[..i + 1] == plan[..i] + [plan[i]];
        RunConcat(old(catalog), plan[..i], [plan[i]]);
        var ok := Execute(plan[i]);
        if !ok {
          return Err(StatementFailed(plan[i]));
        }
        executed := executed + [plan[i]];
      }
      assert plan[..|plan|] == plan;
      return Ok(executed);
    }

    method Introspect() returns (s: DatabaseSchema)
      ensures Introspection(catalog, s)
    {
      var names := Enumerate(catalog.tables.Keys - SYSTEM_TABLES);
      var tables: seq<TableDefinition> := [];
      for i := 0 to |names|
        invariant |tables| == i
        invariant forall j | 0 <= j < i ::
                    tables[j].name == names[j] && names[j] in catalog.tables && Reports(catalog, tables[j])
      {
        assert names[i] in names;
        var t := IntrospectTable(names[i]);
        tables := tables + [t];
      }
      s := DatabaseSchema(tables);
      forall n | n in names ensures n in TableNames(s) {
        var j :| 0 <= j < |names| && names[j] == n;
        assert tables[j] in s.tables;
      }
    }

    method IntrospectTable(n: string) returns (t: TableDefinition)
      requires n in catalog.tables
      ensures t.name == n && Reports(catalog, t)
    {
      var live := catalog.tables[n];
      var columnNames := Enumerate(live.columns);
      var columns := seq(|columnNames|, i requires 0 <= i < |columnNames| =>
                         ColumnDefinition(columnNames[i], TextColumn, true, false, None, false));
      var indexNames := Enumerate(VisibleIndexes(catalog, n));
      var indexes := seq(|indexNames|, i requires 0 <= i < |indexNames| =>
                         IndexDefinition(indexNames[i], n, [], false));
      var fks := Enumerate(live.foreignKeys);
      t := TableDefinition(n, columns, indexes, fks, Naming.Classify(n), "_singleton" in live.columns);
      forall c | c in columnNames ensures c in ColumnNames(t) {
        var j :| 0 <= j < |columnNames| && columnNames[j] == c;
        assert columns[j] in t.columns;
      }
      forall x | x in indexNames ensures x in IndexNames(t) {
        var j :| 0 <= j < |indexNames| && indexNames[j] == x;
        assert indexes[j] in t.indexes;
      }
    }
  }

  /** The rows of a catalog query: each element once, in no particular order. */
  method Enumerate<T(==)>(s: set<T>) returns (xs: seq<T>)
    ensures forall x :: x in xs <==> x in s
    ensures forall i, j | 0 <= i < j < |xs| :: xs[i] != xs[j]
  {
    xs := [];
    var left := s;
    while left != {}
      invariant left <= s
      invariant forall x :: x in xs <==> x in s && x !in left
      invariant forall i, j | 0 <= i < j < |xs| :: xs[i] != xs[j]
      decreases |left|
    {
      var x :| x in left;
      xs := xs + [x];
      left := left - {x};
    }
  }

  // ----- introspection ----------------------------------------------------------------

  const SYSTEM_TABLES := {
    "_sqlx_migrations", "roles", "permissions", "role_permissions", "user_roles",
    "user_role_assignments", "access_requests", "shadow_users",
    "document_revision_snapshots", "document_snapshots"}

  const PKEY := "_pkey"

  /** The indexes reported for a table: names ending in `_pkey` are passed over. */
  function VisibleIndexes(db: Catalog, table: string): set<string> {
    set n | n in db.indexes && db.indexes[n].table == table && !Naming.EndsWith(n, PKEY)
  }

  ghost predicate Reports(db: Catalog, t: TableDefinition)
    requires t.name in db.tables
  {
    && ColumnNames(t) == db.tables[t.name].columns
    && IndexNames(t) == VisibleIndexes(db, t.name)
    && (set fk | fk in t.foreignKeys) == db.tables[t.name].foreignKeys
    && t.kind == Naming.Classify(t.name)
  }

  /** What an introspection of `db` may return: the tables outside the system list, each
      with its columns, foreign keys and visible indexes, in any order. */
  ghost predicate Introspection(db: Catalog, s: DatabaseSchema) {
    && DistinctTables(s.tables)
    && TableNames(s) == db.tables.Keys - SYSTEM_TABLES
    && forall t | t in s.tables :: t.name in db.tables && Reports(db, t)
  }

  lemma IntrospectedTable(db: Catalog, s: DatabaseSchema, n: string)
    requires Introspection(db, s) && n in TableNames(s)
    ensures n in db.tables && n !in SYSTEM_TABLES
    ensures ColumnNames(FindTable(s, n).value) == db.tables[n].columns
    ensures IndexNames(FindTable(s, n).value) == VisibleIndexes(db, n)
  {
    var t := FindTable(s, n).value;
    assert t in s.tables;
  }
}
