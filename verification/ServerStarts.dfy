/** Synchronising at every start of the server, under the additive policy. */
module ServerStarts {
  import opened Wrappers
  import opened SchemaAst
  import opened SchemaDiff
  import opened DomainSchema
  import opened Planner
  import opened Catalog
  import opened StepEffects
  import opened Convergence
  import opened Completion
  import opened BuiltSchema
  import opened Attainability
  import opened Upgrade
  import Naming

  // ----- one start ------------------------------------------------------------------------------

  /** No name of the database would be lost. */
  ghost predicate Accepts(db: Catalog, desired: DatabaseSchema) {
    && Managed(db) <= TableNames(desired)
    && forall d | d in desired.tables && d.name in Managed(db) ::
         db.tables[d.name].columns <= ColumnNames(d) && VisibleIndexes(db, d.name) <= IndexNames(d)
  }

  /** That is what the additive policy lets through, whatever an introspection returns; the
      plan is then one that the permissive policy gives. */
  lemma AcceptsIsAdditive(db: Catalog, actual: DatabaseSchema, desired: DatabaseSchema)
    requires Introspection(db, actual) && WellFormed(desired)
    ensures Guarded(DiffSteps(actual, desired), AdditiveOnly).Ok? <==> Accepts(db, desired)
    ensures Accepts(db, desired) ==> Guarded(DiffSteps(actual, desired), AdditiveOnly) == Ok(DiffSteps(actual, desired))
    ensures SyncPlan(db, desired, PlanOf(DiffSteps(actual, desired)))
  {
    AdditiveOnlyIsExact(actual, desired);
    PipelinePlans(db, actual, desired);
    hide SyncPlan, DiffSteps;
    forall d | d in desired.tables && d.name in TableNames(actual)
      ensures ColumnNames(FindTable(actual, d.name).value) == db.tables[d.name].columns
      ensures IndexNames(FindTable(actual, d.name).value) == VisibleIndexes(db, d.name)
    {
      IntrospectedTable(db, actual, d.name);
    }
  }

  lemma AcceptedIsReady(db: Catalog, desired: DatabaseSchema)
    requires db.Valid() && WellFormed(desired) && Closed(desired) && TableNames(desired) !! SYSTEM_TABLES
    requires KeptTargetsReady(db, desired) && Accepts(db, desired)
    ensures Ready(db, desired) && NoSurvivingReferrer(db, desired)
  {
    assert Dropped(db, desired) == {};
    hide Closed, KeptTargetsReady;
    forall s, t, c | s in db.tables && s !in Dropped(db, desired) && t in TableNames(desired) && t != s
                     && db.RefersToColumn(s, t, c)
      ensures c in ColumnNames(Desired(desired, t))
    {
      var fk :| fk in db.tables[s].foreignKeys && fk.referencedTable == t && c in fk.referencedColumns;
      assert db.KeyHolds(s, fk) && t in Managed(db);
      assert Desired(desired, t) in desired.tables;
    }
  }

  /** After a completed sync the same schema is accepted again. */
  lemma AcceptedAgain(db: Catalog, desired: DatabaseSchema, plan: seq<MigrationStep>)
    requires db.Valid() && WellFormed(desired) && TableNames(desired) !! SYSTEM_TABLES
    requires SyncPlan(db, desired, plan) && Run(db, plan).ok
    ensures Accepts(Run(db, plan).db, desired)
  {
    hide SyncPlan;
    TablesAfterSync(db, desired, plan);
    forall d | d in desired.tables ensures VisibleIndexes(Run(db, plan).db, d.name) <= IndexNames(d) {
      assert d.name in TableNames(desired);
      VisibleIsDesired(db, desired, plan, d);
    }
  }

  /** A start that the policy accepts completes exactly when the database takes the types of
      the new columns; the next start with the same schema is then accepted too. */
  lemma AcceptedStartCompletes(db: Catalog, desired: DatabaseSchema, plan: seq<MigrationStep>)
    requires db.Valid() && WellFormed(desired) && Closed(desired) && TableNames(desired) !! SYSTEM_TABLES
    requires KeptTargetsReady(db, desired) && Accepts(db, desired) && SyncPlan(db, desired, plan)
    ensures Run(db, plan).ok <==> NewColumnsTaken(db, desired)
    ensures Run(db, plan).ok ==> Accepts(Run(db, plan).db, desired)
  {
    AcceptedIsReady(db, desired);
    hide Ready, SyncPlan, Accepts, KeptTargetsReady, Closed;
    SyncCompletes(db, desired, plan);
    if Run(db, plan).ok {
      AcceptedAgain(db, desired, plan);
    }
  }

  /** Two starts with one schema settle the database exactly when its names are attainable. */
  lemma TwoStartsSettle(db: Catalog, desired: DatabaseSchema, plan1: seq<MigrationStep>, plan2: seq<MigrationStep>)
    requires db.Valid() && WellFormed(desired) && Closed(desired) && TableNames(desired) !! SYSTEM_TABLES
    requires KeptTargetsReady(db, desired) && Accepts(db, desired) && NewColumnsTaken(db, desired)
    requires SyncPlan(db, desired, plan1) && SyncPlan(Run(db, plan1).db, desired, plan2)
    ensures var mid := Run(db, plan1).db;
            && Run(db, plan1).ok && Accepts(mid, desired) && Run(mid, plan2).ok && Accepts(Run(mid, plan2).db, desired)
            && (Settled(Run(mid, plan2).db, desired) <==> Attainable(db, desired))
  {
    AcceptedStartCompletes(db, desired, plan1);
    var mid := Run(db, plan1).db;
    hide SyncPlan, Accepts, KeptTargetsReady, Closed, NewColumnsTaken, Settled, Attainable;
    TwoSyncFixpoint(db, desired, plan1, plan2);
    RunValid(db, plan1);
    NothingNew(db, desired, plan1);
    AcceptedStartCompletes(mid, desired, plan2);
  }

  lemma NothingNew(db: Catalog, desired: DatabaseSchema, plan: seq<MigrationStep>)
    requires WellFormed(desired) && TableNames(desired) !! SYSTEM_TABLES
    requires SyncPlan(db, desired, plan) && Run(db, plan).ok
    ensures KeptTargetsReady(Run(db, plan).db, desired) && NewColumnsTaken(Run(db, plan).db, desired)
  {
    TablesAfterSync(db, desired, plan);
    assert forall d | d in desired.tables :: d.name in TableNames(desired);
    hide SyncPlan;
  }

  // ----- many starts --------------------------------------------------------------------------------

  /** What the database knows after a start with `cur` that followed one with `prev`: the
      tables and columns of `cur`; all indexes of the tables that were there before, none of
      the others. */
  ghost predicate Follows(db: Catalog, prev: DatabaseSchema, cur: DatabaseSchema) {
    && Managed(db) == TableNames(cur)
    && forall d | d in cur.tables ::
         && d.name in db.tables && db.tables[d.name].columns == ColumnNames(d)
         && VisibleIndexes(db, d.name) == if d.name in TableNames(prev) then IndexNames(d) else {}
  }

  /** The next schema keeps the names of the current one: of tables and columns, and of the
      indexes of tables that are not new in it. */
  ghost predicate Grows(prev: DatabaseSchema, cur: DatabaseSchema, next: DatabaseSchema) {
    && TableNames(cur) <= TableNames(next)
    && forall d, e | d in cur.tables && e in next.tables && d.name == e.name ::
         ColumnNames(d) <= ColumnNames(e) && (d.name in TableNames(prev) ==> IndexNames(d) <= IndexNames(e))
  }

  lemma AcceptsIsGrows(db: Catalog, prev: DatabaseSchema, cur: DatabaseSchema, next: DatabaseSchema)
    requires Follows(db, prev, cur)
    ensures Accepts(db, next) <==> Grows(prev, cur, next)
  {
    hide VisibleIndexes;
    forall d, e | d in cur.tables && e in next.tables && d.name == e.name
      ensures db.tables[e.name].columns == ColumnNames(d)
      ensures VisibleIndexes(db, e.name) == if d.name in TableNames(prev) then IndexNames(d) else {}
      ensures e.name in Managed(db)
    {
      assert d.name in TableNames(cur);
    }
    forall e | e in next.tables && e.name in Managed(db) ensures exists d :: d in cur.tables && d.name == e.name {
    }
  }

  /** A release whose schema the builder made, with reachable names and types the database
      takes. */
  ghost predicate Servable(r: Release) {
    BuiltFrom(r.reg, r.schema) && NamesReachable(r.reg) && TypesTaken(r.schema)
  }

  lemma ServableNames(r: Release)
    requires Servable(r)
    ensures TableNames(r.schema) !! SYSTEM_TABLES
  {
    hide TableOf, Wanted, WellNamed, Made, IndexNames;
    forall d | d in r.schema.tables ensures d.name !in SYSTEM_TABLES {
      var i := BuiltItem(r.reg, r.schema, d);
    }
  }

  lemma TargetsReady(db: Catalog, prev: DatabaseSchema, cur: Release, next: Release)
    requires BuiltFrom(cur.reg, cur.schema) && BuiltFrom(next.reg, next.schema) && Follows(db, prev, cur.schema)
    ensures KeptTargetsReady(db, next.schema)
  {
    hide TableOf, Wanted, WellNamed, Made, VisibleIndexes;
    forall d, fk | d in next.schema.tables && d.name !in Managed(db) && fk in d.foreignKeys
                   && fk.referencedTable in Managed(db)
      ensures ToSet(fk.referencedColumns) <= db.tables[fk.referencedTable].columns
    {
      var i := BuiltItem(next.reg, next.schema, d);
      ForeignKeyShape(next.reg, i, fk);
      TargetOfKey(next.reg, next.schema, i, fk);
      var j := Target(next.reg, i, fk.columns[0]);
      NameWithTypeRoleHasId(next.reg, j, cur.reg, cur.schema);
      assert Desired(cur.schema, fk.referencedTable) in cur.schema.tables;
    }
  }

  lemma TargetOfKey(reg: SchemaRegistry, s: DatabaseSchema, i: Item, fk: ForeignKeyDefinition)
    requires BuiltFrom(reg, s) && Wanted(reg, i) && fk in TableOf(reg, i).foreignKeys
    ensures |fk.columns| == 1 && Wanted(reg, Target(reg, i, fk.columns[0])) && Target(reg, i, fk.columns[0]).OfType?
  {
    ForeignKeyShape(reg, i, fk);
    TargetIsLower(reg, i, fk.columns[0]);
  }

  /** The indexes of a kept table are all there after the start. */
  lemma KeptTableIndexed(db: Catalog, desired: DatabaseSchema, plan: seq<MigrationStep>, d: TableDefinition)
    requires db.Valid() && WellFormed(desired) && Attainable(db, desired) && Accepts(db, desired)
    requires SyncPlan(db, desired, plan) && Run(db, plan).ok && d in desired.tables && d.name in Managed(db)
    requires forall e | e in desired.tables :: VisibleIndexes(Run(db, plan).db, e.name) <= IndexNames(e)
    ensures VisibleIndexes(Run(db, plan).db, d.name) == IndexNames(d)
  {
    var after := Run(db, plan).db;
    RunValid(db, plan);
    TablesAfterSync(db, desired, plan);
    AttainableAfter(db, desired, plan);
    hide SyncPlan, Attainable;
    forall n | n in IndexNames(d) ensures n in VisibleIndexes(after, d.name) {
      var x :| x in d.indexes && x.name == n;
      DesiredIs(desired, d);
      if n in VisibleIndexes(db, d.name) {
        assert db.indexes[n].columns <= db.tables[d.name].columns;
      }
      DesiredIndexPresent(db, desired, plan, x);
      IndexOnItsTable(after, desired, d, n);
    }
  }

  lemma NewTableBare(db: Catalog, desired: DatabaseSchema, plan: seq<MigrationStep>, table: string)
    requires db.Valid() && SyncPlan(db, desired, plan) && table !in db.tables
    ensures VisibleIndexes(Run(db, plan).db, table) == {}
  {
    forall x | x in plan && x.CreateIndex? ensures x.index.tableName != table {
      assert x == CreateIndex(x.index) && Needed(x, db, desired);
    }
    hide SyncPlan;
    NoIndexOn(db, plan, table);
  }

  lemma StartFollows(db: Catalog, prev: DatabaseSchema, cur: Release, next: Release)
    requires db.Valid() && BuiltFrom(cur.reg, cur.schema) && Follows(db, prev, cur.schema)
    requires Servable(next) && Attainable(db, next.schema) && Accepts(db, next.schema)
    requires SyncPlan(db, next.schema, next.plan)
    ensures Run(db, next.plan).ok && Follows(Run(db, next.plan).db, cur.schema, next.schema)
  {
    ServableNames(next);
    BuiltWellFormed(next.reg, next.schema);
    BuiltClosed(next.reg, next.schema);
    TargetsReady(db, prev, cur, next);
    hide BuiltFrom, NamesReachable, Closed, KeptTargetsReady, SyncPlan, Attainable, Accepts;
    assert NewColumnsTaken(db, next.schema);
    AcceptedStartCompletes(db, next.schema, next.plan);
    IndexesFollow(db, prev, cur.schema, next.schema, next.plan);
  }

  lemma IndexesFollow(db: Catalog, prev: DatabaseSchema, cur: DatabaseSchema, next: DatabaseSchema,
                      plan: seq<MigrationStep>)
    requires db.Valid() && Follows(db, prev, cur) && WellFormed(next) && Attainable(db, next) && Accepts(db, next)
    requires SyncPlan(db, next, plan) && Run(db, plan).ok
    ensures Follows(Run(db, plan).db, cur, next)
  {
    var after := Run(db, plan).db;
    assert Managed(db) == TableNames(cur) && TableNames(next) !! SYSTEM_TABLES;
    hide SyncPlan, Attainable, Accepts, Follows;
    TablesAfterSync(db, next, plan);
    forall e | e in next.tables ensures VisibleIndexes(after, e.name) <= IndexNames(e) && e.name in TableNames(next) {
      VisibleIsDesired(db, next, plan, e);
    }
    forall d | d in next.tables
      ensures VisibleIndexes(after, d.name) == if d.name in TableNames(cur) then IndexNames(d) else {}
    {
      if d.name in TableNames(cur) {
        KeptTableIndexed(db, next, plan, d);
      } else {
        assert d.name !in db.tables;
        NewTableBare(db, next, plan, d.name);
      }
    }
    assert Follows(after, cur, next) by { FollowsBy(after, cur, next); }
  }

  lemma FollowsBy(db: Catalog, prev: DatabaseSchema, cur: DatabaseSchema)
    requires Managed(db) == TableNames(cur)
    requires forall d | d in cur.tables :: d.name in db.tables && db.tables[d.name].columns == ColumnNames(d)
    requires forall d | d in cur.tables ::
               VisibleIndexes(db, d.name) == if d.name in TableNames(prev) then IndexNames(d) else {}
    ensures Follows(db, prev, cur)
  {
    hide VisibleIndexes;
  }

  /** No start changes which names system tables hold. */
  lemma SystemNamesStay(db: Catalog, desired: DatabaseSchema, plan: seq<MigrationStep>, s: DatabaseSchema)
    requires WellFormed(desired) && SyncPlan(db, desired, plan) && Run(db, plan).ok
    ensures NamesFree(db, s) <==> NamesFree(Run(db, plan).db, s)
  {
    var after := Run(db, plan).db;
    forall n
      ensures n in after.indexes && after.indexes[n].table in SYSTEM_TABLES <==>
              n in db.indexes && db.indexes[n].table in SYSTEM_TABLES
    {
      if n in after.indexes {
        IndexOrigin(db, desired, plan, n);
      }
      if n in db.indexes && db.indexes[n].table in SYSTEM_TABLES {
        SystemIndexUntouched(db, desired, plan, n);
      }
    }
  }

  /** Each plan is one the pipeline may produce for the database that the start meets. */
  ghost predicate Plans(db: Catalog, starts: seq<Release>)
    decreases |starts|
  {
    starts == [] || (SyncPlan(db, starts[0].schema, starts[0].plan) && Plans(Run(db, starts[0].plan).db, starts[1..]))
  }

  /** Every start is accepted by the additive policy. */
  ghost predicate AllAccepted(db: Catalog, starts: seq<Release>)
    decreases |starts|
  {
    starts == [] || (Accepts(db, starts[0].schema) && AllAccepted(Run(db, starts[0].plan).db, starts[1..]))
  }

  ghost predicate GrowsThroughout(prev: DatabaseSchema, cur: DatabaseSchema, starts: seq<Release>)
    decreases |starts|
  {
    starts == [] || (Grows(prev, cur, starts[0].schema) && GrowsThroughout(cur, starts[0].schema, starts[1..]))
  }

  ghost predicate AllServable(db: Catalog, starts: seq<Release>) {
    forall r | r in starts :: Servable(r) && NamesFree(db, r.schema)
  }

  /** Over any history of server starts, with the same release or a new one each time, the
      policy accepts them all exactly when names only grow. They then all complete, and the
      database follows: the tables and columns of the last release, and the indexes of those
      tables that the release before it had. */
  lemma {:induction false} StartsAcceptedIffGrowing(db: Catalog, prev: DatabaseSchema, cur: Release,
                                                    starts: seq<Release>)
    requires db.Valid() && BuiltFrom(cur.reg, cur.schema) && Follows(db, prev, cur.schema)
    requires AllServable(db, starts) && Plans(db, starts)
    ensures AllAccepted(db, starts) <==> GrowsThroughout(prev, cur.schema, starts)
    ensures AllAccepted(db, starts) ==> AllComplete(db, starts)
    ensures AllAccepted(db, starts) ==>
              Follows(DatabaseAfter(db, starts), Before(prev, cur.schema, starts), Last(cur.schema, starts))
    decreases |starts|
  {
    if starts != [] {
      FirstAndRest(db, prev, cur.schema, starts);
      hide BuiltFrom, AllServable, Follows, Accepts, Grows, SyncPlan, Run, DatabaseAfter, AllComplete, Before, Last;
      AcceptsIsGrows(db, prev, cur.schema, starts[0].schema);
      if Accepts(db, starts[0].schema) {
        FirstStart(db, prev, cur, starts);
        StartsAcceptedIffGrowing(Run(db, starts[0].plan).db, cur.schema, starts[0], starts[1..]);
      }
    }
  }

  /** The schema of the last start but one. */
  function Before(prev: DatabaseSchema, cur: DatabaseSchema, starts: seq<Release>): DatabaseSchema {
    if starts == [] then prev else if |starts| == 1 then cur else starts[|starts| - 2].schema
  }

  /** The schema of the last start. */
  function Last(cur: DatabaseSchema, starts: seq<Release>): DatabaseSchema {
    if starts == [] then cur else starts[|starts| - 1].schema
  }

  lemma FirstAndRest(db: Catalog, prev: DatabaseSchema, cur: DatabaseSchema, starts: seq<Release>)
    requires starts != []
    ensures DatabaseAfter(db, starts) == DatabaseAfter(Run(db, starts[0].plan).db, starts[1..])
    ensures AllComplete(db, starts) <==>
              Run(db, starts[0].plan).ok && AllComplete(Run(db, starts[0].plan).db, starts[1..])
    ensures Before(prev, cur, starts) == Before(cur, starts[0].schema, starts[1..])
    ensures Last(cur, starts) == Last(starts[0].schema, starts[1..])
  {
  }

  lemma FirstStart(db: Catalog, prev: DatabaseSchema, cur: Release, starts: seq<Release>)
    requires db.Valid() && BuiltFrom(cur.reg, cur.schema) && Follows(db, prev, cur.schema) && starts != []
    requires AllServable(db, starts) && Accepts(db, starts[0].schema) && SyncPlan(db, starts[0].schema, starts[0].plan)
    ensures Run(db, starts[0].plan).ok && Run(db, starts[0].plan).db.Valid()
    ensures BuiltFrom(starts[0].reg, starts[0].schema)
    ensures Follows(Run(db, starts[0].plan).db, cur.schema, starts[0].schema)
    ensures AllServable(Run(db, starts[0].plan).db, starts[1..])
  {
    var r := starts[0];
    assert r in starts && Servable(r) && NamesFree(db, r.schema);
    hide BuiltFrom, NamesReachable, NamesFree, Follows, Accepts, SyncPlan, Attainable, TypesTaken;
    AttainableIffReachable(r.reg, r.schema, db);
    StartFollows(db, prev, cur, r);
    RunValid(db, r.plan);
    BuiltWellFormed(r.reg, r.schema);
    forall x | x in starts[1..] ensures Servable(x) && NamesFree(Run(db, r.plan).db, x.schema) {
      assert x in starts;
      SystemNamesStay(db, r.schema, r.plan, x.schema);
    }
  }

  /** Before the first start there is nothing. */
  const NOTHING := Release(SchemaRegistry([], map[], []), DatabaseSchema([]), [])

  lemma NothingIsBuilt()
    ensures BuiltFrom(NOTHING.reg, NOTHING.schema)
  {
  }

  /** From a database without managed tables: the first start is always accepted, the second
      is when names grew, and so on; started twice with one release, the database is settled. */
  lemma FreshStarts(db: Catalog, starts: seq<Release>)
    requires db.Valid() && Managed(db) == {} && AllServable(db, starts) && Plans(db, starts)
    ensures AllAccepted(db, starts) <==> GrowsThroughout(NOTHING.schema, NOTHING.schema, starts)
    ensures AllAccepted(db, starts) ==> AllComplete(db, starts)
    ensures AllAccepted(db, starts) && |starts| >= 2 && starts[|starts| - 2].schema == starts[|starts| - 1].schema ==>
              Settled(DatabaseAfter(db, starts), starts[|starts| - 1].schema)
  {
    NothingIsBuilt();
    NothingFollows(db);
    hide BuiltFrom, Follows, AllServable, Plans, AllAccepted, GrowsThroughout, AllComplete, DatabaseAfter, Settled;
    StartsAcceptedIffGrowing(db, NOTHING.schema, NOTHING, starts);
    if AllAccepted(db, starts) && |starts| >= 2 && starts[|starts| - 2].schema == starts[|starts| - 1].schema {
      FollowsItself(DatabaseAfter(db, starts), starts[|starts| - 1].schema);
    }
  }

  lemma NothingFollows(db: Catalog)
    requires Managed(db) == {}
    ensures Follows(db, NOTHING.schema, NOTHING.schema)
  {
  }

  lemma FollowsItself(db: Catalog, s: DatabaseSchema)
    requires Follows(db, s, s)
    ensures Settled(db, s)
  {
    assert forall d | d in s.tables :: d.name in TableNames(s);
  }
}
