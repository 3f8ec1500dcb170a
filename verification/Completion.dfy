/** Whether a plan runs to its end. */
module Completion {
  import opened SchemaAst
  import opened SchemaDiff
  import opened Planner
  import opened Catalog
  import opened StepEffects
  import opened Convergence
  import Naming

  /** Each foreign key of the desired schema leads to another table of it, of an earlier
      creation phase, that has the referenced columns. */
  ghost predicate Closed(desired: DatabaseSchema) {
    && (forall d | d in desired.tables && d.kind == Link :: {"owner_id", "target_id"} <= ColumnNames(d))
    && forall d, fk | d in desired.tables && fk in d.foreignKeys :: Resolves(desired, d, fk)
  }

  ghost predicate Resolves(desired: DatabaseSchema, d: TableDefinition, fk: ForeignKeyDefinition) {
    && ToSet(fk.columns) <= ColumnNames(d)
    && fk.referencedTable in TableNames(desired)
    && var target := Desired(desired, fk.referencedTable);
       && ToSet(fk.referencedColumns) <= ColumnNames(target)
       && StepClass(CreateTable(target)) < StepClass(CreateTable(d))
  }

  function Dropped(db: Catalog, desired: DatabaseSchema): set<string> { Managed(db) - TableNames(desired) }

  /** The phase in which a live table would be dropped, by the kind its name suggests. */
  function DropPhase(n: string): nat { StepClass(DropTable(n, Naming.Classify(n))) }

  /** Among the tables that go, referrers go in an earlier phase than what they refer to. */
  ghost predicate Stratified(db: Catalog, desired: DatabaseSchema) {
    forall s, n | s in Dropped(db, desired) && n in Dropped(db, desired) && s != n && db.Refers(s, n) ::
      DropPhase(s) < DropPhase(n)
  }

  /** Tables that stay refer only to columns that stay. */
  ghost predicate SurvivorsReferToKeptColumns(db: Catalog, desired: DatabaseSchema) {
    forall s, t, c | s in db.tables && s !in Dropped(db, desired) && t in TableNames(desired) && t != s
                     && db.RefersToColumn(s, t, c) ::
      c in ColumnNames(Desired(desired, t))
  }

  /** A table that stays and that a new table will refer to has the referenced columns already. */
  ghost predicate KeptTargetsReady(db: Catalog, desired: DatabaseSchema) {
    forall d, fk | d in desired.tables && d.name !in Managed(db) && fk in d.foreignKeys
                   && fk.referencedTable in Managed(db) ::
      ToSet(fk.referencedColumns) <= db.tables[fk.referencedTable].columns
  }

  /** No table that stays refers to a table that goes. */
  ghost predicate NoSurvivingReferrer(db: Catalog, desired: DatabaseSchema) {
    forall s, n | s in db.tables && n in Dropped(db, desired) && s != n && db.Refers(s, n) :: s in Dropped(db, desired)
  }

  /** The columns that are not there yet have types the database takes. */
  ghost predicate NewColumnsTaken(db: Catalog, desired: DatabaseSchema) {
    forall d, c | d in desired.tables && c in d.columns
                  && (d.name !in Managed(db) || c.name !in db.tables[d.name].columns) ::
      TypeTaken(c.dataType)
  }

  ghost predicate Ready(db: Catalog, desired: DatabaseSchema) {
    && WellFormed(desired) && Closed(desired) && TableNames(desired) !! SYSTEM_TABLES
    && Stratified(db, desired) && SurvivorsReferToKeptColumns(db, desired) && KeptTargetsReady(db, desired)
  }

  ghost predicate Plannable(db: Catalog, desired: DatabaseSchema, plan: seq<MigrationStep>) {
    Ready(db, desired) && SyncPlan(db, desired, plan)
  }

  // ----- a prefix of the plan ----------------------------------------------------------

  lemma PrefixContents(plan: seq<MigrationStep>, i: nat)
    requires i < |plan| && Sorted(plan)
    ensures forall s | s in plan[..i] :: s in plan && StepClass(s) <= StepClass(plan[i])
    ensures forall s | s in plan && StepClass(s) < StepClass(plan[i]) :: s in plan[..i]
  {
    forall s | s in plan && StepClass(s) < StepClass(plan[i])
      ensures s in plan[..i]
    {
      var j :| 0 <= j < |plan| && plan[j] == s;
      assert j < i;
    }
  }

  /** The table part of the state after a prefix, relative to the start. */
  lemma PrefixTables(db: Catalog, desired: DatabaseSchema, plan: seq<MigrationStep>, i: nat)
    requires Plannable(db, desired, plan) && i < |plan| && Run(db, plan[..i]).ok
    ensures var now := Run(db, plan[..i]).db;
            && now.tables.Keys == (db.tables.Keys - DropNames(plan[..i])) + CreateNames(plan[..i])
            && DropNames(plan[..i]) <= Dropped(db, desired)
            && CreateNames(plan[..i]) <= TableNames(desired) - Managed(db)
  {
    PrefixContents(plan, i);
    PlanSets(db, desired, plan);
    assert DropNames(plan[..i]) <= DropNames(plan);
    assert CreateNames(plan[..i]) <= CreateNames(plan);
    TablesAfter(db, plan[..i]);
  }

  lemma PrefixTable(db: Catalog, desired: DatabaseSchema, plan: seq<MigrationStep>, i: nat, t: string)
    requires Plannable(db, desired, plan) && i < |plan| && Run(db, plan[..i]).ok
    requires t in db.tables && t !in DropNames(plan[..i])
    ensures var now := Run(db, plan[..i]).db;
            && t in now.tables
            && now.tables[t].columns ==
                 (db.tables[t].columns - StepEffects.DroppedColumns(plan[..i], t)) + AddedColumns(plan[..i], t)
            && now.tables[t].foreignKeys ==
                 KeptForeignKeys(t, db.tables[t].foreignKeys, StepEffects.DroppedColumns(plan[..i], t))
    ensures StepEffects.DroppedColumns(plan[..i], t) <= StepEffects.DroppedColumns(plan, t)
    ensures AddedColumns(plan[..i], t) <= AddedColumns(plan, t)
  {
    PrefixContents(plan, i);
    PlanColumnSets(db, desired, plan, t);
    TableAfter(db, plan[..i], t);
  }

  // ----- each kind of step is accepted in its place --------------------------------------

  /** Up to the last drop no table has been created. */
  lemma OnlyOldTables(db: Catalog, desired: DatabaseSchema, plan: seq<MigrationStep>, i: nat)
    requires Plannable(db, desired, plan) && i < |plan| && Run(db, plan[..i]).ok
    requires plan[i].DropTable? || plan[i].DropColumn?
    ensures CreateNames(plan[..i]) == {} && Run(db, plan[..i]).db.tables.Keys <= db.tables.Keys
  {
    NothingCreatedYet(plan, i);
    PrefixTables(db, desired, plan, i);
    hide Plannable, DropNames, CreateNames, StepClass;
  }

  lemma NothingCreatedYet(plan: seq<MigrationStep>, i: nat)
    requires Sorted(plan) && i < |plan| && (plan[i].DropTable? || plan[i].DropColumn?)
    ensures CreateNames(plan[..i]) == {}
  {
    PrefixContents(plan, i);
    assert forall s | s in plan[..i] :: !s.CreateTable?;
  }

  lemma DropTableAccepted(db: Catalog, desired: DatabaseSchema, plan: seq<MigrationStep>, i: nat)
    requires Plannable(db, desired, plan) && i < |plan| && Run(db, plan[..i]).ok
    requires NoSurvivingReferrer(db, desired) && plan[i].DropTable?
    ensures Enabled(Run(db, plan[..i]).db, plan[i])
  {
    var now, n := Run(db, plan[..i]).db, plan[i].name;
    assert plan[i] == DropTable(n, plan[i].kind) && plan[i] in plan && n in Dropped(db, desired);
    hide Plannable, CreateNames, StepClass;
    OnlyOldTables(db, desired, plan, i);
    forall s | s in now.tables && s != n
      ensures !now.Refers(s, n)
    {
      TableIsUnreferenced(db, desired, plan, i, s);
    }
  }

  /** When a table goes, the tables that referred to it and go as well are gone. */
  lemma TableIsUnreferenced(db: Catalog, desired: DatabaseSchema, plan: seq<MigrationStep>, i: nat, s: string)
    requires Plannable(db, desired, plan) && i < |plan| && Run(db, plan[..i]).ok
    requires plan[i].DropTable? && (db.Refers(s, plan[i].name) ==> s in Dropped(db, desired))
    requires s in db.tables && s in Run(db, plan[..i]).db.tables && s != plan[i].name
    ensures !Run(db, plan[..i]).db.Refers(s, plan[i].name)
  {
    var now, n, before := Run(db, plan[..i]).db, plan[i].name, plan[..i];
    assert plan[i] == DropTable(n, plan[i].kind) && plan[i] in plan;
    PrefixContents(plan, i);
    PrefixTables(db, desired, plan, i);
    PrefixTable(db, desired, plan, i, s);
    assert now.Refers(s, n) ==> db.Refers(s, n);
    var step := DropTable(s, Naming.Classify(s));
    assert s in Dropped(db, desired) <==> step in plan;
    assert step in before ==> s in DropNames(before);
  }

  lemma DropColumnAccepted(db: Catalog, desired: DatabaseSchema, plan: seq<MigrationStep>, i: nat)
    requires Plannable(db, desired, plan) && i < |plan| && Run(db, plan[..i]).ok
    requires plan[i].DropColumn?
    ensures Enabled(Run(db, plan[..i]).db, plan[i])
  {
    var now, t, c := Run(db, plan[..i]).db, plan[i].table, plan[i].column;
    OnlyOldTables(db, desired, plan, i);
    ColumnTableStays(db, desired, plan, i);
    hide Plannable, CreateNames, StepClass;
    forall s | s in now.tables && s != t
      ensures !now.RefersToColumn(s, t, c)
    {
      ColumnIsUnreferenced(db, desired, plan, i, s);
    }
  }

  lemma ColumnTableStays(db: Catalog, desired: DatabaseSchema, plan: seq<MigrationStep>, i: nat)
    requires Plannable(db, desired, plan) && i < |plan| && Run(db, plan[..i]).ok
    requires plan[i].DropColumn?
    ensures plan[i].table in Run(db, plan[..i]).db.tables
  {
    assert plan[i] == DropColumn(plan[i].table, plan[i].column) && plan[i] in plan;
    PrefixContents(plan, i);
    PrefixTables(db, desired, plan, i);
  }

  /** When a column goes, the tables that referred to it are gone. */
  lemma ColumnIsUnreferenced(db: Catalog, desired: DatabaseSchema, plan: seq<MigrationStep>, i: nat, s: string)
    requires Plannable(db, desired, plan) && i < |plan| && Run(db, plan[..i]).ok
    requires plan[i].DropColumn? && s in db.tables && s in Run(db, plan[..i]).db.tables && s != plan[i].table
    ensures !Run(db, plan[..i]).db.RefersToColumn(s, plan[i].table, plan[i].column)
  {
    var now, t, c, before := Run(db, plan[..i]).db, plan[i].table, plan[i].column, plan[..i];
    assert plan[i] == DropColumn(t, c) && plan[i] in plan;
    PrefixContents(plan, i);
    PrefixTables(db, desired, plan, i);
    PrefixTable(db, desired, plan, i, s);
    assert now.RefersToColumn(s, t, c) ==> db.RefersToColumn(s, t, c);
    var step := DropTable(s, Naming.Classify(s));
    assert s in Dropped(db, desired) <==> step in plan;
    assert step in before ==> s in DropNames(before);
  }

  lemma CreateTableAccepted(db: Catalog, desired: DatabaseSchema, plan: seq<MigrationStep>, i: nat)
    requires Plannable(db, desired, plan) && i < |plan| && Run(db, plan[..i]).ok
    requires plan[i].CreateTable? && NewColumnsTaken(db, desired)
    ensures Enabled(Run(db, plan[..i]).db, plan[i])
  {
    var now, d := Run(db, plan[..i]).db, plan[i].definition;
    assert plan[i] == CreateTable(d) && plan[i] in plan;
    forall fk | fk in d.foreignKeys
      ensures TargetReady(now, d, fk)
    {
      assert Resolves(desired, d, fk);
      DesiredIs(desired, d);
      TargetCreatedOrKept(db, desired, plan, i, d, fk);
    }
  }

  lemma TargetCreatedOrKept(db: Catalog, desired: DatabaseSchema, plan: seq<MigrationStep>, i: nat,
                            d: TableDefinition, fk: ForeignKeyDefinition)
    requires Plannable(db, desired, plan) && i < |plan| && Run(db, plan[..i]).ok
    requires plan[i] == CreateTable(d) && d in desired.tables && d.name !in Managed(db)
    requires fk in d.foreignKeys && Resolves(desired, d, fk)
    ensures fk.referencedTable in Run(db, plan[..i]).db.tables
    ensures ToSet(fk.referencedColumns) <= Run(db, plan[..i]).db.tables[fk.referencedTable].columns
  {
    var t := fk.referencedTable;
    var target := Desired(desired, t);
    PrefixContents(plan, i);
    PrefixTables(db, desired, plan, i);
    PlanColumnSets(db, desired, plan, t);
    if t in Managed(db) {
      PrefixTable(db, desired, plan, i, t);
    } else {
      assert CreateTable(target) in plan;
      forall e | CreateTable(e) in plan[..i] && e.name == t ensures e == target {
        DesiredIs(desired, e);
      }
      assert StepEffects.DroppedColumns(plan[..i], t) <= StepEffects.DroppedColumns(plan, t);
      assert AddedColumns(plan[..i], t) <= AddedColumns(plan, t);
      TableCreated(db, plan[..i], target);
    }
  }

  lemma CreateIndexAccepted(db: Catalog, desired: DatabaseSchema, plan: seq<MigrationStep>, i: nat)
    requires Plannable(db, desired, plan) && i < |plan| && Run(db, plan[..i]).ok
    requires plan[i].CreateIndex?
    ensures Enabled(Run(db, plan[..i]).db, plan[i])
  {
    var x := plan[i].index;
    var t := x.tableName;
    assert plan[i] == CreateIndex(x) && plan[i] in plan;
    PrefixContents(plan, i);
    PrefixTables(db, desired, plan, i);
    PrefixTable(db, desired, plan, i, t);
    PlanColumnSets(db, desired, plan, t);
    assert StepEffects.DroppedColumns(plan[..i], t) == StepEffects.DroppedColumns(plan, t);
    assert AddedColumns(plan[..i], t) == AddedColumns(plan, t);
    assert Desired(desired, t) in desired.tables;
  }

  lemma StepAccepted(db: Catalog, desired: DatabaseSchema, plan: seq<MigrationStep>, i: nat)
    requires Plannable(db, desired, plan) && i < |plan| && Run(db, plan[..i]).ok
    requires NoSurvivingReferrer(db, desired) && NewColumnsTaken(db, desired)
    ensures Enabled(Run(db, plan[..i]).db, plan[i])
  {
    match plan[i]
    case CreateTable(_) => CreateTableAccepted(db, desired, plan, i);
    case DropTable(_, _) => DropTableAccepted(db, desired, plan, i);
    case AddColumn(t, c) =>
      assert plan[i] in plan && plan[i] == AddColumn(t, c);
      PrefixTables(db, desired, plan, i);
    case DropColumn(_, _) => DropColumnAccepted(db, desired, plan, i);
    case CreateIndex(_) => CreateIndexAccepted(db, desired, plan, i);
    case DropIndex(_, _) =>
  }

  lemma ReferrerStillThere(db: Catalog, desired: DatabaseSchema, plan: seq<MigrationStep>, i: nat, s: string, n: string)
    requires Plannable(db, desired, plan) && i < |plan| && Run(db, plan[..i]).ok
    requires plan[i].DropTable?
    requires s in db.tables && s !in Dropped(db, desired) && db.Refers(s, n)
    ensures Run(db, plan[..i]).db.Refers(s, n)
  {
    PrefixContents(plan, i);
    PrefixTables(db, desired, plan, i);
    PrefixTable(db, desired, plan, i, s);
    assert StepEffects.DroppedColumns(plan[..i], s) == {};
    KeptNone(s, db.tables[s].foreignKeys);
  }

  /** A table that stays and refers to a table that goes blocks the latter's DropTable:
      foreign keys of kept tables are never part of the diff. */
  lemma SurvivingReferrerBlocks(db: Catalog, desired: DatabaseSchema, plan: seq<MigrationStep>, s: string, n: string)
    requires Plannable(db, desired, plan)
    requires s in db.tables && s !in Dropped(db, desired) && n in Dropped(db, desired) && db.Refers(s, n)
    ensures !Run(db, plan).ok
  {
    var step := DropTable(n, Naming.Classify(n));
    assert step in plan;
    var i :| 0 <= i < |plan| && plan[i] == step;
    if Run(db, plan[..i]).ok {
      ReferrerStillThere(db, desired, plan, i, s, n);
    }
    assert Run(db, plan[..i]).ok ==> !Enabled(Run(db, plan[..i]).db, plan[i]);
    assert plan == plan[..i] + plan[i..];
    RunConcat(db, plan[..i], plan[i..]);
  }

  /** A plan that runs to its end has created only tables and columns of types that the
      database takes. */
  lemma CompletedIsTaken(db: Catalog, desired: DatabaseSchema, plan: seq<MigrationStep>, d: TableDefinition,
                         c: ColumnDefinition)
    requires Plannable(db, desired, plan) && Run(db, plan).ok
    requires d in desired.tables && c in d.columns && (d.name !in Managed(db) || c.name !in db.tables[d.name].columns)
    ensures TypeTaken(c.dataType)
  {
    DesiredIs(desired, d);
    var step := if d.name in Managed(db) then AddColumn(d.name, c) else CreateTable(d);
    assert Needed(step, db, desired) && step in plan;
    var i := FirstOf(plan, step);
    RunPrefix(db, plan, i);
    if d.name !in Managed(db) {
      PrefixTables(db, desired, plan, i);
      forall e | CreateTable(e) in plan[..i] ensures e.name != d.name {
        assert Needed(CreateTable(e), db, desired);
        DesiredIs(desired, e);
      }
    }
  }

  /** Nor a link table without one of its ends: its primary key would lack a column. */
  lemma CompletedHasEnds(db: Catalog, desired: DatabaseSchema, plan: seq<MigrationStep>, d: TableDefinition)
    requires WellFormed(desired) && SyncPlan(db, desired, plan) && Run(db, plan).ok
    requires d in desired.tables && d.name !in db.tables && d.kind == Link
    ensures "owner_id" in ColumnNames(d) && "target_id" in ColumnNames(d)
  {
    assert Needed(CreateTable(d), db, desired) && CreateTable(d) in plan;
    var i := FirstOf(plan, CreateTable(d));
    RunPrefix(db, plan, i);
    PlanSets(db, desired, plan);
    assert DropNames(plan[..i]) <= DropNames(plan) && CreateNames(plan[..i]) <= CreateNames(plan);
    TablesAfter(db, plan[..i]);
    forall e | CreateTable(e) in plan[..i] ensures e.name != d.name {
      assert Needed(CreateTable(e), db, desired);
      DesiredIs(desired, e);
      DesiredIs(desired, d);
    }
    assert d.name !in CreateNames(plan[..i]);
  }

  lemma {:induction false} FirstOf(xs: seq<MigrationStep>, x: MigrationStep) returns (i: nat)
    requires x in xs
    ensures i < |xs| && xs[i] == x && x !in xs[..i]
  {
    var n := |xs| - 1;
    assert xs == xs[..n] + [xs[n]];
    if x in xs[..n] {
      i := FirstOf(xs[..n], x);
      assert xs[..n][..i] == xs[..i];
    } else {
      i := n;
    }
  }

  /** The plan runs to its end exactly when no table that stays refers to one that goes and
      every new column is of a type that the database takes. */
  lemma SyncCompletes(db: Catalog, desired: DatabaseSchema, plan: seq<MigrationStep>)
    requires Plannable(db, desired, plan)
    ensures Run(db, plan).ok <==> NoSurvivingReferrer(db, desired) && NewColumnsTaken(db, desired)
  {
    if Run(db, plan).ok && !NewColumnsTaken(db, desired) {
      var d, c :| d in desired.tables && c in d.columns
                  && (d.name !in Managed(db) || c.name !in db.tables[d.name].columns) && !TypeTaken(c.dataType);
      CompletedIsTaken(db, desired, plan, d, c);
    }
    if NoSurvivingReferrer(db, desired) && NewColumnsTaken(db, desired) {
      forall i | 0 <= i < |plan|
        ensures Run(db, plan[..i]).ok ==> Enabled(Run(db, plan[..i]).db, plan[i])
      {
        if Run(db, plan[..i]).ok {
          StepAccepted(db, desired, plan, i);
        }
      }
      RunCompletes(db, plan, |plan|);
      assert plan[..|plan|] == plan;
    } else if !NoSurvivingReferrer(db, desired) {
      var s, n :| s in db.tables && n in Dropped(db, desired) && s != n && db.Refers(s, n)
                  && s !in Dropped(db, desired);
      SurvivingReferrerBlocks(db, desired, plan, s, n);
    }
  }

  // ----- blocked for good -------------------------------------------------------------------

  /** A table that stays refers to one that is to go. */
  ghost predicate BlockedBy(db: Catalog, desired: DatabaseSchema, s: string, n: string) {
    s in db.tables && s !in Dropped(db, desired) && n in Dropped(db, desired) && db.Refers(s, n)
  }

  /** The run ends before its `k`-th step: the drop of a table that a table that stays still
      refers to. */
  ghost predicate StopsAt(db: Catalog, desired: DatabaseSchema, plan: seq<MigrationStep>, k: nat, s: string) {
    && k < |plan| && plan[k].DropTable?
    && Run(db, plan[..k]) == Outcome(Run(db, plan).db, true) && !Run(db, plan).ok
    && s in Run(db, plan).db.tables && s !in Dropped(db, desired) && Run(db, plan).db.Refers(s, plan[k].name)
  }

  ghost predicate StopsAtDrop(db: Catalog, desired: DatabaseSchema, plan: seq<MigrationStep>) {
    exists k, s :: StopsAt(db, desired, plan, k, s)
  }

  /** A blocked drop has not been executed. */
  lemma NotExecuted(db: Catalog, desired: DatabaseSchema, plan: seq<MigrationStep>, k: nat, s: string, n: string)
    requires Plannable(db, desired, plan) && BlockedBy(db, desired, s, n)
    requires k <= |plan| && Run(db, plan[..k]).ok
    ensures forall j | 0 <= j < k :: plan[j] != DropTable(n, Naming.Classify(n)) && n !in DropNames(plan[..k])
  {
    forall j | 0 <= j < k ensures !(plan[j].DropTable? && plan[j].name == n) {
      RunPrefix(db, plan[..k], j);
      assert plan[..k][..j] == plan[..j];
      if plan[j].DropTable? {
        ReferrerStillThere(db, desired, plan, j, s, n);
      }
    }
  }

  /** Everything executed before a refused drop was itself a drop. */
  lemma OnlyDrops(db: Catalog, desired: DatabaseSchema, plan: seq<MigrationStep>, k: nat, s: string, n: string)
    requires Plannable(db, desired, plan) && BlockedBy(db, desired, s, n)
    requires k <= |plan| && Run(db, plan[..k]).ok && (k == |plan| || !Enabled(Run(db, plan[..k]).db, plan[k]))
    ensures k < |plan| && plan[k].DropTable? && plan[k] in plan
    ensures forall x | x in plan[..k] :: x.DropTable? || x.DropIndex?
    ensures Run(db, plan[..k]).db.tables == db.tables - DropNames(plan[..k])
  {
    NotExecuted(db, desired, plan, k, s, n);
    var step := DropTable(n, Naming.Classify(n));
    assert step in plan;
    var i :| 0 <= i < |plan| && plan[i] == step;
    assert k <= i;
    BeforeDrop(plan, i);
    hide StepClass, Plannable;
    DropsOnly(db, plan[..k]);
  }

  lemma BeforeDrop(plan: seq<MigrationStep>, i: nat)
    requires Sorted(plan) && i < |plan| && plan[i].DropTable?
    ensures forall j | 0 <= j <= i :: plan[j].DropTable? || plan[j].DropIndex?
  {
    assert forall j | 0 <= j <= i :: StepClass(plan[j]) <= StepClass(plan[i]) <= 4;
  }

  /** What stands in the way is a table that stays: a referrer that is to go goes first. */
  lemma ObstacleStays(db: Catalog, desired: DatabaseSchema, plan: seq<MigrationStep>, k: nat, t: string)
    requires Plannable(db, desired, plan) && k < |plan| && plan[k].DropTable? && Run(db, plan[..k]).ok
    requires Run(db, plan[..k]).db.tables == db.tables - DropNames(plan[..k])
    requires t in Run(db, plan[..k]).db.tables && t != plan[k].name && Run(db, plan[..k]).db.Refers(t, plan[k].name)
    ensures t !in Dropped(db, desired)
  {
    if t in Dropped(db, desired) {
      TableIsUnreferenced(db, desired, plan, k, t);
    }
  }

  lemma StillReady(db: Catalog, desired: DatabaseSchema, after: Catalog, dropped: set<string>)
    requires Ready(db, desired) && after.tables == db.tables - dropped && dropped <= Dropped(db, desired)
    ensures Ready(after, desired)
  {
    hide WellFormed, Closed, DropPhase;
    assert forall s, t :: after.Refers(s, t) ==> db.Refers(s, t);
    assert forall s, t, c :: after.RefersToColumn(s, t, c) ==> db.RefersToColumn(s, t, c);
  }

  /** A sync of a blocked database breaks off at such a drop and leaves it blocked. */
  lemma BlockedRun(db: Catalog, desired: DatabaseSchema, plan: seq<MigrationStep>, s: string, n: string)
    requires Plannable(db, desired, plan) && BlockedBy(db, desired, s, n)
    ensures StopsAtDrop(db, desired, plan)
    ensures Ready(Run(db, plan).db, desired) && BlockedBy(Run(db, plan).db, desired, s, n)
  {
    var after := Run(db, plan).db;
    var k := Executed(db, plan);
    OnlyDrops(db, desired, plan, k, s, n);
    NotExecuted(db, desired, plan, k, s, n);
    PlanSets(db, desired, plan);
    assert DropNames(plan[..k]) <= DropNames(plan);
    StillReady(db, desired, after, DropNames(plan[..k]));
    var t :| t in after.tables && t != plan[k].name && after.Refers(t, plan[k].name);
    ObstacleStays(db, desired, plan, k, t);
    assert StopsAt(db, desired, plan, k, t);
  }

  ghost predicate EachStops(db: Catalog, desired: DatabaseSchema, plans: seq<seq<MigrationStep>>)
    decreases |plans|
  {
    plans == [] || (StopsAtDrop(db, desired, plans[0]) && EachStops(Run(db, plans[0]).db, desired, plans[1..]))
  }

  /** Once a kept table refers to one that is to go, no later sync ever completes: each one
      breaks off at the drop of a table that a kept table refers to. */
  lemma {:induction false} BlockedForGood(db: Catalog, desired: DatabaseSchema, plans: seq<seq<MigrationStep>>,
                                          s: string, n: string)
    requires Ready(db, desired) && BlockedBy(db, desired, s, n) && Syncs(db, desired, plans)
    ensures EachStops(db, desired, plans)
    decreases |plans|
  {
    if plans != [] {
      hide Ready, BlockedBy, SyncPlan, StopsAtDrop;
      BlockedRun(db, desired, plans[0], s, n);
      BlockedForGood(Run(db, plans[0]).db, desired, plans[1..], s, n);
    }
  }

  // ----- AdditiveOnly loses nothing --------------------------------------------------------

  /** Every name of `before` is still there. */
  ghost predicate KeepsNames(before: Catalog, after: Catalog) {
    && before.tables.Keys <= after.tables.Keys
    && (forall t | t in before.tables :: before.tables[t].columns <= after.tables[t].columns
                                         && before.tables[t].foreignKeys == after.tables[t].foreignKeys)
    && forall n | n in before.indexes :: n in after.indexes && after.indexes[n] == before.indexes[n]
  }

  lemma {:induction false} AdditiveRunKeepsNames(db: Catalog, xs: seq<MigrationStep>)
    requires Additive(xs)
    ensures KeepsNames(db, Run(db, xs).db)
    decreases |xs|
  {
    if xs != [] && Enabled(db, xs[0]) {
      assert xs[0] in xs;
      assert Additive(xs[1..]);
      AdditiveRunKeepsNames(Apply(db, xs[0]), xs[1..]);
    }
  }

  /** What the production policy lets through keeps every table, column, foreign key and
      index at every point of its execution, wherever that breaks off. */
  lemma AdditiveOnlyLosesNothing(db: Catalog, actual: DatabaseSchema, desired: DatabaseSchema, k: nat)
    requires Guarded(DiffSteps(actual, desired), AdditiveOnly).Ok?
    requires k <= |PlanOf(DiffSteps(actual, desired))|
    ensures KeepsNames(db, Run(db, PlanOf(DiffSteps(actual, desired))[..k]).db)
  {
    var plan := PlanOf(DiffSteps(actual, desired));
    forall s | s in plan[..k] ensures !s.Destructive() {
      InPlan(DiffSteps(actual, desired), s);
    }
    AdditiveRunKeepsNames(db, plan[..k]);
  }
}
