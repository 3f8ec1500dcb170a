/** What one and two runs of the synchronisation pipeline achieve: introspect, diff under
    AllowDestructive, plan, execute. */
module Convergence {
  import opened SchemaAst
  import opened SchemaDiff
  import opened Planner
  import opened Catalog
  import opened StepEffects
  import Naming

  /** The tables under management: those an introspection reports. */
  function Managed(db: Catalog): set<string> { db.tables.Keys - SYSTEM_TABLES }

  /** The shape every schema made by the builder has. */
  ghost predicate WellFormed(desired: DatabaseSchema) {
    && DistinctTables(desired.tables)
    && forall d, x | d in desired.tables && x in d.indexes ::
         x.tableName == d.name && ToSet(x.columns) <= ColumnNames(d)
  }

  function Desired(desired: DatabaseSchema, n: string): TableDefinition
    requires n in TableNames(desired)
  {
    FindTable(desired, n).value
  }

  lemma DesiredIs(desired: DatabaseSchema, d: TableDefinition)
    requires WellFormed(desired) && d in desired.tables
    ensures d.name in TableNames(desired) && Desired(desired, d.name) == d
  {
    FindTableUnique(desired, d);
  }

  // ----- the plan, read off the database -----------------------------------------------

  /** The step repairs a difference between the live database and the desired schema. */
  ghost predicate Needed(step: MigrationStep, db: Catalog, desired: DatabaseSchema) {
    match step
    case CreateTable(d) => d in desired.tables && d.name !in Managed(db)
    case DropTable(n, k) => n in Managed(db) && n !in TableNames(desired) && k == Naming.Classify(n)
    case AddColumn(t, c) =>
      t in Managed(db) && t in TableNames(desired)
      && c in Desired(desired, t).columns && c.name !in db.tables[t].columns
    case DropColumn(t, c) =>
      t in Managed(db) && t in TableNames(desired)
      && c in db.tables[t].columns && c !in ColumnNames(Desired(desired, t))
    case CreateIndex(x) =>
      x.tableName in Managed(db) && x.tableName in TableNames(desired)
      && x in Desired(desired, x.tableName).indexes && x.name !in VisibleIndexes(db, x.tableName)
    case DropIndex(n, t) =>
      t in Managed(db) && t in TableNames(desired)
      && n in VisibleIndexes(db, t) && n !in IndexNames(Desired(desired, t))
  }

  /** A plan the pipeline may produce for this database: sorted by phase, and made of the
      needed steps. The order within a phase depends on the introspection. */
  ghost predicate SyncPlan(db: Catalog, desired: DatabaseSchema, plan: seq<MigrationStep>) {
    && Sorted(plan)
    && forall s: MigrationStep :: s in plan <==> Needed(s, db, desired)
  }

  lemma PipelinePlans(db: Catalog, actual: DatabaseSchema, desired: DatabaseSchema)
    requires Introspection(db, actual) && WellFormed(desired)
    ensures SyncPlan(db, desired, PlanOf(DiffSteps(actual, desired)))
  {
    var raw := DiffSteps(actual, desired);
    PlanIsSortedAndStable(raw);
    forall s: MigrationStep
      ensures s in PlanOf(raw) <==> Needed(s, db, desired)
    {
      InPlan(raw, s);
      DiffIsExact(actual, desired, s);
      RepairsIsNeeded(db, actual, desired, s);
    }
  }

  lemma RepairsIsNeeded(db: Catalog, actual: DatabaseSchema, desired: DatabaseSchema, s: MigrationStep)
    requires Introspection(db, actual) && WellFormed(desired)
    ensures Repairs(s, actual, desired) <==> Needed(s, db, desired)
  {
    if s.DropTable? {
      if s.name in TableNames(actual) {
        assert FindTable(actual, s.name).value in actual.tables;
      }
    } else if !s.CreateTable? {
      if Repairs(s, actual, desired) {
        var d := RepairedTable(actual, desired, s);
        DesiredIs(desired, d);
        IntrospectedTable(db, actual, d.name);
      }
      if Needed(s, db, desired) {
        NeededRepairs(db, actual, desired, s);
      }
    }
  }

  lemma NeededRepairs(db: Catalog, actual: DatabaseSchema, desired: DatabaseSchema, s: MigrationStep)
    requires Introspection(db, actual) && WellFormed(desired)
    requires Needed(s, db, desired) && !s.DropTable? && !s.CreateTable?
    ensures Repairs(s, actual, desired)
  {
    var t := if s.CreateIndex? then s.index.tableName else s.table;
    IntrospectedTable(db, actual, t);
    var d := Desired(desired, t);
    assert d in desired.tables && d.name == t;
  }

  // ----- the state after one run ----------------------------------------------------------

  lemma PlanSets(db: Catalog, desired: DatabaseSchema, plan: seq<MigrationStep>)
    requires WellFormed(desired) && SyncPlan(db, desired, plan)
    ensures DropNames(plan) == Managed(db) - TableNames(desired)
    ensures CreateNames(plan) == TableNames(desired) - Managed(db)
  {
    forall n | n in Managed(db) - TableNames(desired) ensures n in DropNames(plan) {
      assert DropTable(n, Naming.Classify(n)) in plan;
    }
    forall n | n in TableNames(desired) - Managed(db) ensures n in CreateNames(plan) {
      assert CreateTable(Desired(desired, n)) in plan;
    }
  }

  lemma PlanColumnSets(db: Catalog, desired: DatabaseSchema, plan: seq<MigrationStep>, t: string)
    requires WellFormed(desired) && SyncPlan(db, desired, plan)
    ensures t in Managed(db) && t in TableNames(desired) ==>
              && DroppedColumns(plan, t) == db.tables[t].columns - ColumnNames(Desired(desired, t))
              && AddedColumns(plan, t) == ColumnNames(Desired(desired, t)) - db.tables[t].columns
    ensures t !in Managed(db) || t !in TableNames(desired) ==>
              DroppedColumns(plan, t) == {} && AddedColumns(plan, t) == {}
  {
    if t in Managed(db) && t in TableNames(desired) {
      var d := Desired(desired, t);
      forall c | c in db.tables[t].columns - ColumnNames(d) ensures c in DroppedColumns(plan, t) {
        assert DropColumn(t, c) in plan;
      }
      forall c | c in d.columns && c.name !in db.tables[t].columns ensures c.name in AddedColumns(plan, t) {
        assert AddColumn(t, c) in plan;
      }
    }
  }

  /** A completed run leaves exactly the desired tables, each with exactly the desired
      columns; a table that was kept loses the foreign keys of the columns it loses. */
  lemma TablesAfterSync(db: Catalog, desired: DatabaseSchema, plan: seq<MigrationStep>)
    requires WellFormed(desired) && SyncPlan(db, desired, plan) && Run(db, plan).ok
    requires TableNames(desired) !! SYSTEM_TABLES
    ensures Managed(Run(db, plan).db) == TableNames(desired)
    ensures Run(db, plan).db.tables.Keys * SYSTEM_TABLES == db.tables.Keys * SYSTEM_TABLES
    ensures forall d | d in desired.tables ::
              d.name in Run(db, plan).db.tables && Run(db, plan).db.tables[d.name].columns == ColumnNames(d)
    ensures forall d | d in desired.tables ::
              Run(db, plan).db.tables[d.name].foreignKeys ==
              if d.name in db.tables
              then KeptForeignKeys(d.name, db.tables[d.name].foreignKeys, db.tables[d.name].columns - ColumnNames(d))
              else set fk | fk in d.foreignKeys
  {
    PlanSets(db, desired, plan);
    TablesAfter(db, plan);
    forall d | d in desired.tables
      ensures d.name in Run(db, plan).db.tables
      ensures Run(db, plan).db.tables[d.name].columns == ColumnNames(d)
      ensures Run(db, plan).db.tables[d.name].foreignKeys ==
              if d.name in db.tables
              then KeptForeignKeys(d.name, db.tables[d.name].foreignKeys, db.tables[d.name].columns - ColumnNames(d))
              else set fk | fk in d.foreignKeys
    {
      DesiredIs(desired, d);
      PlanColumnSets(db, desired, plan, d.name);
      if d.name in db.tables {
        TableAfter(db, plan, d.name);
      } else {
        assert CreateTable(d) in plan;
        forall e | CreateTable(e) in plan && e.name == d.name ensures e == d {
          DesiredIs(desired, e);
        }
        TableCreated(db, plan, d);
      }
    }
  }

  /** No sync changes a table on the system list, not even one that breaks off. */
  lemma SystemTableUntouched(db: Catalog, desired: DatabaseSchema, plan: seq<MigrationStep>, t: string)
    requires WellFormed(desired) && SyncPlan(db, desired, plan)
    requires t in db.tables && t in SYSTEM_TABLES
    ensures t in Run(db, plan).db.tables && Run(db, plan).db.tables[t] == db.tables[t]
  {
    PlanSets(db, desired, plan);
    PlanColumnSets(db, desired, plan, t);
    var k := Executed(db, plan);
    assert DropNames(plan[..k]) <= DropNames(plan);
    assert DroppedColumns(plan[..k], t) <= DroppedColumns(plan, t);
    assert AddedColumns(plan[..k], t) <= AddedColumns(plan, t);
    TableAfter(db, plan[..k], t);
    KeptNone(t, db.tables[t].foreignKeys);
  }

  /** The tables that no sync touches, by name, complete or broken off; and of all other tables
      a completed sync leaves the desired ones. */
  lemma NamedTablesStay(db: Catalog, desired: DatabaseSchema, plan: seq<MigrationStep>, t: string)
    requires WellFormed(desired) && SyncPlan(db, desired, plan) && t in db.tables
    ensures t in {"_sqlx_migrations", "roles", "permissions", "role_permissions", "user_roles",
                  "user_role_assignments", "access_requests", "shadow_users", "document_revision_snapshots",
                  "document_snapshots"} ==>
              t in Run(db, plan).db.tables && Run(db, plan).db.tables[t] == db.tables[t]
    ensures t !in {"_sqlx_migrations", "roles", "permissions", "role_permissions", "user_roles",
                   "user_role_assignments", "access_requests", "shadow_users", "document_revision_snapshots",
                   "document_snapshots"}
            && TableNames(desired) !! SYSTEM_TABLES && Run(db, plan).ok ==>
              (t in Run(db, plan).db.tables <==> t in TableNames(desired))
  {
    if t in SYSTEM_TABLES {
      SystemTableUntouched(db, desired, plan, t);
    } else if TableNames(desired) !! SYSTEM_TABLES && Run(db, plan).ok {
      TablesAfterSync(db, desired, plan);
      assert t in Run(db, plan).db.tables <==> t in Managed(Run(db, plan).db);
    }
  }

  /** The index phase comes last. */
  lemma PlanSplits(plan: seq<MigrationStep>) returns (front: seq<MigrationStep>, last: seq<MigrationStep>)
    requires Sorted(plan)
    ensures plan == front + last
    ensures forall s | s in front :: s in plan && !s.CreateIndex?
    ensures forall s | s in last :: s in plan && s.CreateIndex?
    ensures forall s | s in plan :: s.CreateIndex? ==> s in last
    ensures forall s | s in plan :: !s.CreateIndex? ==> s in front
    decreases |plan|
  {
    if plan == [] || !plan[|plan| - 1].CreateIndex? {
      front, last := plan, [];
      if plan != [] {
        assert forall i | 0 <= i < |plan| :: StepClass(plan[i]) <= StepClass(plan[|plan| - 1]);
        assert forall s | s in plan :: !s.CreateIndex?;
      }
    } else {
      var n := |plan| - 1;
      front, last := PlanSplits(plan[..n]);
      last := last + [plan[n]];
      assert plan == plan[..n] + [plan[n]];
    }
  }

  /** The state in which the index phase starts. */
  lemma BeforeIndexPhase(db: Catalog, desired: DatabaseSchema, plan: seq<MigrationStep>)
    returns (mid: Catalog, creates: seq<MigrationStep>)
    requires WellFormed(desired) && SyncPlan(db, desired, plan) && Run(db, plan).ok
    ensures Run(mid, creates) == Run(db, plan)
    ensures forall s | s in creates :: s.CreateIndex? && Needed(s, db, desired)
    ensures forall x | Needed(CreateIndex(x), db, desired) :: CreateIndex(x) in creates
    ensures forall n | n in mid.indexes :: n in db.indexes && mid.indexes[n] == db.indexes[n]
    ensures forall n | n in db.indexes :: n in mid.indexes <==> Survives(db, plan, n)
  {
    var front;
    front, creates := PlanSplits(plan);
    RunConcat(db, front, creates);
    IndexesShrink(db, front);
    mid := Run(db, front).db;
    forall n | n in db.indexes
      ensures n in mid.indexes <==> Survives(db, plan, n)
    {
      var t := db.indexes[n].table;
      assert DropIndexNames(front) == DropIndexNames(plan);
      assert DropNames(front) == DropNames(plan);
      assert DroppedColumns(front, t) == DroppedColumns(plan, t);
    }
  }

  /** Where an index of the resulting database comes from. */
  lemma IndexOrigin(db: Catalog, desired: DatabaseSchema, plan: seq<MigrationStep>, n: string)
    requires WellFormed(desired) && SyncPlan(db, desired, plan) && Run(db, plan).ok
    requires n in Run(db, plan).db.indexes
    ensures var t := Run(db, plan).db.indexes[n].table;
            || (n in db.indexes && Survives(db, plan, n) && Run(db, plan).db.indexes[n] == db.indexes[n])
            || exists x: IndexDefinition ::
                 Needed(CreateIndex(x), db, desired) && x.name == n && x.tableName == t
                 && Run(db, plan).db.indexes[n] == Live(x)
  {
    var mid, creates := BeforeIndexPhase(db, desired, plan);
    IndexesCreated(mid, creates);
    if n !in mid.indexes {
      var s :| s in creates && s.CreateIndex? && s.index.name == n
               && Run(db, plan).db.indexes[n] == Live(s.index);
      assert s == CreateIndex(s.index);
    }
  }

  /** No undesired index stays visible on a desired table. */
  lemma VisibleIsDesired(db: Catalog, desired: DatabaseSchema, plan: seq<MigrationStep>, d: TableDefinition)
    requires db.Valid() && WellFormed(desired) && SyncPlan(db, desired, plan) && Run(db, plan).ok
    requires d in desired.tables && d.name !in SYSTEM_TABLES
    ensures VisibleIndexes(Run(db, plan).db, d.name) <= IndexNames(d)
  {
    DesiredIs(desired, d);
    forall n | n in VisibleIndexes(Run(db, plan).db, d.name)
      ensures n in IndexNames(d)
    {
      IndexOrigin(db, desired, plan, n);
      if n in db.indexes && Survives(db, plan, n) && db.indexes[n].table == d.name {
        assert DropIndex(n, d.name) in plan <==> n !in IndexNames(d);
        assert DropIndex(n, d.name) in plan ==> n in DropIndexNames(plan);
      }
    }
  }

  /** A desired index is there after the run unless it sat on a column that went. */
  lemma DesiredIndexPresent(db: Catalog, desired: DatabaseSchema, plan: seq<MigrationStep>, x: IndexDefinition)
    requires WellFormed(desired) && SyncPlan(db, desired, plan) && Run(db, plan).ok
    requires x.tableName in TableNames(desired) && x in Desired(desired, x.tableName).indexes
    requires x.tableName in Managed(db)
    requires x.name in VisibleIndexes(db, x.tableName) ==>
               db.indexes[x.name].columns <= ColumnNames(Desired(desired, x.tableName))
    ensures x.name in Run(db, plan).db.indexes
  {
    var mid, creates := BeforeIndexPhase(db, desired, plan);
    IndexesCreated(mid, creates);
    if x.name in VisibleIndexes(db, x.tableName) {
      PlanSets(db, desired, plan);
      PlanColumnSets(db, desired, plan, x.tableName);
      forall s | s in plan && s.DropIndex? ensures s.name != x.name {
        assert s == DropIndex(s.name, s.table);
        assert Needed(s, db, desired);
      }
      assert Survives(db, plan, x.name);
    } else {
      assert CreateIndex(x) in creates;
      assert x.name in CreateIndexNames(creates);
    }
  }

  // ----- the fixpoint -----------------------------------------------------------------

  /** Table, column and index names are the desired ones. */
  ghost predicate Settled(db: Catalog, desired: DatabaseSchema) {
    && Managed(db) == TableNames(desired)
    && forall d | d in desired.tables ::
         && d.name in db.tables
         && db.tables[d.name].columns == ColumnNames(d)
         && VisibleIndexes(db, d.name) == IndexNames(d)
  }

  /** Settled is what a further diff sees as nothing to do. */
  lemma SettledIffNoSteps(db: Catalog, actual: DatabaseSchema, desired: DatabaseSchema)
    requires Introspection(db, actual) && WellFormed(desired)
    ensures DiffSteps(actual, desired) == [] <==> Settled(db, desired)
  {
    EmptyDiffIffSameNames(actual, desired);
    forall d | d in desired.tables && d.name in TableNames(actual)
      ensures ColumnNames(FindTable(actual, d.name).value) == db.tables[d.name].columns
      ensures IndexNames(FindTable(actual, d.name).value) == VisibleIndexes(db, d.name)
    {
      IntrospectedTable(db, actual, d.name);
    }
    if Managed(db) == TableNames(desired) {
      forall d | d in desired.tables ensures d.name in TableNames(actual) {
        assert d.name in TableNames(desired);
      }
    }
  }

  /** The names the pipeline can reach: no desired table is on the system list, no desired
      index has a name the introspector passes over or one that a system table's index
      holds, and no two desired tables ask for the same index name. */
  ghost predicate Attainable(db: Catalog, desired: DatabaseSchema) {
    && TableNames(desired) !! SYSTEM_TABLES
    && (forall d, n | d in desired.tables && n in IndexNames(d) ::
          !Naming.EndsWith(n, PKEY) && !(n in db.indexes && db.indexes[n].table in SYSTEM_TABLES))
    && (forall d, e, n | d in desired.tables && e in desired.tables && n in IndexNames(d) && n in IndexNames(e) ::
          d == e)
  }

  lemma SettledIsAttainable(db: Catalog, desired: DatabaseSchema)
    requires Settled(db, desired)
    requires WellFormed(desired)
    ensures Attainable(db, desired)
  {
    forall d, n | d in desired.tables && n in IndexNames(d)
      ensures !Naming.EndsWith(n, PKEY) && n in db.indexes && db.indexes[n].table == d.name
      ensures d.name !in SYSTEM_TABLES
    {
      assert n in VisibleIndexes(db, d.name);
      assert d.name in TableNames(desired);
    }
    forall d, e, n | d in desired.tables && e in desired.tables && n in IndexNames(d) && n in IndexNames(e)
      ensures d == e
    {
      DesiredIs(desired, d);
      DesiredIs(desired, e);
    }
  }

  /** Indexes of system tables are out of reach of a sync, even of one that breaks off. */
  lemma SystemIndexUntouched(db: Catalog, desired: DatabaseSchema, plan: seq<MigrationStep>, n: string)
    requires WellFormed(desired) && SyncPlan(db, desired, plan)
    requires n in db.indexes && db.indexes[n].table in SYSTEM_TABLES
    ensures n in Run(db, plan).db.indexes && Run(db, plan).db.indexes[n] == db.indexes[n]
  {
    var t := db.indexes[n].table;
    PlanSets(db, desired, plan);
    PlanColumnSets(db, desired, plan, t);
    forall s | s in plan && s.DropIndex? ensures s.name != n {
      assert s == DropIndex(s.name, s.table);
      assert Needed(s, db, desired);
    }
    assert Survives(db, plan, n);
    IndexKept(db, plan, n);
  }

  lemma AttainableBefore(db: Catalog, desired: DatabaseSchema, plan: seq<MigrationStep>)
    requires WellFormed(desired) && SyncPlan(db, desired, plan)
    requires Attainable(Run(db, plan).db, desired)
    ensures Attainable(db, desired)
  {
    forall d, n | d in desired.tables && n in IndexNames(d)
      ensures !(n in db.indexes && db.indexes[n].table in SYSTEM_TABLES)
    {
      if n in db.indexes && db.indexes[n].table in SYSTEM_TABLES {
        SystemIndexUntouched(db, desired, plan, n);
      }
    }
  }

  lemma AttainableAfter(db: Catalog, desired: DatabaseSchema, plan: seq<MigrationStep>)
    requires db.Valid() && WellFormed(desired) && SyncPlan(db, desired, plan) && Run(db, plan).ok
    requires Attainable(db, desired)
    ensures Attainable(Run(db, plan).db, desired)
  {
    var after := Run(db, plan).db;
    forall d, n | d in desired.tables && n in IndexNames(d)
      ensures !(n in after.indexes && after.indexes[n].table in SYSTEM_TABLES)
    {
      if n in after.indexes {
        IndexOrigin(db, desired, plan, n);
      }
    }
  }

  /** Once present, a desired index sits on the table that asks for it. */
  lemma IndexOnItsTable(db: Catalog, desired: DatabaseSchema, d: TableDefinition, n: string)
    requires db.Valid() && WellFormed(desired) && Attainable(db, desired)
    requires Managed(db) == TableNames(desired)
    requires forall e | e in desired.tables :: VisibleIndexes(db, e.name) <= IndexNames(e)
    requires d in desired.tables && n in IndexNames(d) && n in db.indexes
    ensures n in VisibleIndexes(db, d.name)
  {
    var t := db.indexes[n].table;
    assert t in Managed(db);
    var e := Desired(desired, t);
    assert e in desired.tables && n in VisibleIndexes(db, e.name);
  }

  /** When tables and columns are right and nothing undesired is visible, what is left to
      do is to create indexes, and doing it settles the database. */
  lemma SecondSync(db: Catalog, desired: DatabaseSchema, plan: seq<MigrationStep>)
    requires db.Valid() && WellFormed(desired) && Attainable(db, desired)
    requires Managed(db) == TableNames(desired)
    requires forall d | d in desired.tables ::
               && d.name in db.tables
               && db.tables[d.name].columns == ColumnNames(d)
               && VisibleIndexes(db, d.name) <= IndexNames(d)
    requires SyncPlan(db, desired, plan)
    ensures Run(db, plan).ok && Settled(Run(db, plan).db, desired)
    ensures Run(db, plan).db.tables == db.tables
  {
    forall t | t in TableNames(desired)
      ensures Desired(desired, t) in desired.tables && Desired(desired, t).name == t
      ensures db.tables[t].columns == ColumnNames(Desired(desired, t))
      ensures VisibleIndexes(db, t) <= IndexNames(Desired(desired, t))
    {
    }
    assert forall s | s in plan :: Needed(s, db, desired);
    assert forall s | s in plan :: s.CreateIndex?;
    CreateIndexesComplete(db, plan);
    IndexesCreated(db, plan);
    RunValid(db, plan);
    AttainableAfter(db, desired, plan);
    var after := Run(db, plan).db;
    forall d | d in desired.tables ensures VisibleIndexes(after, d.name) <= IndexNames(d) {
      assert d.name in TableNames(desired);
      VisibleIsDesired(db, desired, plan, d);
    }
    forall d, n | d in desired.tables && n in IndexNames(d)
      ensures n in VisibleIndexes(after, d.name)
    {
      DesiredIs(desired, d);
      var x :| x in d.indexes && x.name == n;
      DesiredIndexPresent(db, desired, plan, x);
      IndexOnItsTable(after, desired, d, n);
    }
  }

  /** Two runs settle any database on any schema the builder makes, and a third diff is
      empty, exactly when the desired names are attainable. The first run must complete;
      the second then always does. */
  lemma TwoSyncFixpoint(db: Catalog, desired: DatabaseSchema, plan1: seq<MigrationStep>, plan2: seq<MigrationStep>)
    requires db.Valid() && WellFormed(desired)
    requires SyncPlan(db, desired, plan1) && Run(db, plan1).ok
    requires SyncPlan(Run(db, plan1).db, desired, plan2)
    ensures Settled(Run(Run(db, plan1).db, plan2).db, desired) <==> Attainable(db, desired)
    ensures Attainable(db, desired) ==> Run(Run(db, plan1).db, plan2).ok
  {
    var mid := Run(db, plan1).db;
    RunValid(db, plan1);
    if Attainable(db, desired) {
      TablesAfterSync(db, desired, plan1);
      AttainableAfter(db, desired, plan1);
      forall d | d in desired.tables ensures VisibleIndexes(mid, d.name) <= IndexNames(d) {
        assert d.name in TableNames(desired);
        VisibleIsDesired(db, desired, plan1, d);
      }
      SecondSync(mid, desired, plan2);
    }
    if Settled(Run(mid, plan2).db, desired) {
      SettledIsAttainable(Run(mid, plan2).db, desired);
      AttainableBefore(mid, desired, plan2);
      AttainableBefore(db, desired, plan1);
    }
  }

  /** Any number of syncs, each planned for the database it meets, complete or not. */
  ghost predicate Syncs(db: Catalog, desired: DatabaseSchema, plans: seq<seq<MigrationStep>>)
    decreases |plans|
  {
    plans == [] || (SyncPlan(db, desired, plans[0]) && Syncs(Run(db, plans[0]).db, desired, plans[1..]))
  }

  function AfterSyncs(db: Catalog, plans: seq<seq<MigrationStep>>): Catalog
    decreases |plans|
  {
    if plans == [] then db else AfterSyncs(Run(db, plans[0]).db, plans[1..])
  }

  /** No number of syncs settles a database whose desired names were not attainable at the
      start. */
  lemma {:induction false} NeverSettles(db: Catalog, desired: DatabaseSchema, plans: seq<seq<MigrationStep>>)
    requires WellFormed(desired) && Syncs(db, desired, plans) && Settled(AfterSyncs(db, plans), desired)
    ensures Attainable(db, desired)
    decreases |plans|
  {
    if plans == [] {
      SettledIsAttainable(db, desired);
    } else {
      hide Settled, SyncPlan, Attainable;
      NeverSettles(Run(db, plans[0]).db, desired, plans[1..]);
      AttainableBefore(db, desired, plans[0]);
    }
  }

  /** The statement in the pipeline's own terms: whatever the three introspections return,
      the third diff is empty exactly when the desired names are attainable. */
  lemma ThirdDiffIsEmpty(db: Catalog, desired: DatabaseSchema, a1: DatabaseSchema, a2: DatabaseSchema,
                         a3: DatabaseSchema)
    requires db.Valid() && WellFormed(desired)
    requires Introspection(db, a1)
    requires var r1 := Run(db, PlanOf(DiffSteps(a1, desired)));
             && r1.ok && Introspection(r1.db, a2)
             && Introspection(Run(r1.db, PlanOf(DiffSteps(a2, desired))).db, a3)
    ensures DiffSteps(a3, desired) == [] <==> Attainable(db, desired)
  {
    var plan1 := PlanOf(DiffSteps(a1, desired));
    var mid := Run(db, plan1).db;
    var plan2 := PlanOf(DiffSteps(a2, desired));
    PipelinePlans(db, a1, desired);
    PipelinePlans(mid, a2, desired);
    TwoSyncFixpoint(db, desired, plan1, plan2);
    SettledIffNoSteps(Run(mid, plan2).db, a3, desired);
  }

  // ----- when one run is enough ---------------------------------------------------------

  /** Nothing was left for a second run: each table that wants indexes was there before,
      and each of its desired indexes that was already visible uses desired columns only. */
  ghost predicate NoIndexDeferred(db: Catalog, desired: DatabaseSchema) {
    forall d, n | d in desired.tables && n in IndexNames(d) :: InTime(db, d, n)
  }

  ghost predicate InTime(db: Catalog, d: TableDefinition, n: string) {
    && d.name in db.tables
    && (n in VisibleIndexes(db, d.name) ==> db.indexes[n].columns <= ColumnNames(d))
  }

  /** A single run settles the database in exactly that case. The source's own test expects
      it always, yet CreateTable brings no index along, so a fresh database never is. */
  lemma OneSyncSettles(db: Catalog, desired: DatabaseSchema, plan: seq<MigrationStep>)
    requires db.Valid() && WellFormed(desired) && Attainable(db, desired)
    requires SyncPlan(db, desired, plan) && Run(db, plan).ok
    ensures Settled(Run(db, plan).db, desired) <==> NoIndexDeferred(db, desired)
  {
    var after := Run(db, plan).db;
    RunValid(db, plan);
    TablesAfterSync(db, desired, plan);
    AttainableAfter(db, desired, plan);
    forall d | d in desired.tables ensures VisibleIndexes(after, d.name) <= IndexNames(d) {
      assert d.name in TableNames(desired);
      VisibleIsDesired(db, desired, plan, d);
    }
    if NoIndexDeferred(db, desired) {
      forall d, n | d in desired.tables && n in IndexNames(d)
        ensures n in VisibleIndexes(after, d.name)
      {
        InTimeArrives(db, desired, plan, d, n);
        IndexOnItsTable(after, desired, d, n);
      }
    }
    if Settled(after, desired) {
      forall d, n | d in desired.tables && n in IndexNames(d)
        ensures InTime(db, d, n)
      {
        InTimeIfVisible(db, desired, plan, d, n);
      }
    }
  }

  lemma InTimeArrives(db: Catalog, desired: DatabaseSchema, plan: seq<MigrationStep>, d: TableDefinition, n: string)
    requires WellFormed(desired) && TableNames(desired) !! SYSTEM_TABLES
    requires SyncPlan(db, desired, plan) && Run(db, plan).ok
    requires d in desired.tables && n in IndexNames(d) && InTime(db, d, n)
    ensures n in Run(db, plan).db.indexes
  {
    DesiredIs(desired, d);
    var x :| x in d.indexes && x.name == n;
    DesiredIndexPresent(db, desired, plan, x);
  }

  lemma InTimeIfVisible(db: Catalog, desired: DatabaseSchema, plan: seq<MigrationStep>, d: TableDefinition, n: string)
    requires db.Valid() && WellFormed(desired) && Attainable(db, desired)
    requires SyncPlan(db, desired, plan) && Run(db, plan).ok
    requires d in desired.tables && n in IndexNames(d) && n in VisibleIndexes(Run(db, plan).db, d.name)
    ensures InTime(db, d, n)
  {
    DesiredIs(desired, d);
    IndexOrigin(db, desired, plan, n);
    if n in db.indexes && Survives(db, plan, n) && db.indexes[n].table == d.name {
      PlanColumnSets(db, desired, plan, d.name);
    }
  }
}
