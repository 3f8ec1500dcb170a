/** Creating unique indexes on tables that have rows: what a start of the server meets. */
module IndexCreation {
  import opened Wrappers
  import opened SchemaAst
  import opened SchemaDiff
  import opened DomainSchema
  import opened Catalog
  import opened StepEffects
  import opened Convergence
  import opened BuiltSchema
  import opened Attainability
  import opened LiveIndexes
  import opened Store = DocumentStore
  import Builder
  import Upgrade
  import ServerStarts
  import Instance
  import StoreInvariants
  import StoreSchema
  import ReadBack

  /** No two rows of the index's table agree, not null, in a column that it makes unique. */
  ghost predicate RowsTake(reg: SchemaRegistry, s: Tables, x: IndexDefinition) {
    forall i, c | Wanted(reg, i) && TableOf(reg, i).name == x.tableName && UniqueOn(x, c) :: UniqueIn(s, i, c)
  }

  /** As `Run`, where the creation of an index also needs rows that take it; one that is
      skipped does not. This is for runs that create indexes only: the other statements
      would change rows. */
  ghost function RunOnRows(reg: SchemaRegistry, s: Tables, db: Catalog, steps: seq<MigrationStep>): Outcome
    decreases |steps|
  {
    if steps == [] then Outcome(db, true)
    else if Enabled(db, steps[0]) && AcceptedByRows(reg, s, db, steps[0])
    then RunOnRows(reg, s, Apply(db, steps[0]), steps[1..])
    else Outcome(db, false)
  }

  ghost predicate AcceptedByRows(reg: SchemaRegistry, s: Tables, db: Catalog, step: MigrationStep) {
    step.CreateIndex? ==> step.index.name in db.indexes || RowsTake(reg, s, step.index)
  }

  /** Nothing but indexes is missing. */
  ghost predicate Awaiting(db: Catalog, desired: DatabaseSchema) {
    && db.Valid() && Attainable(db, desired) && Managed(db) == TableNames(desired)
    && forall d | d in desired.tables ::
         && d.name in db.tables && db.tables[d.name].columns == ColumnNames(d)
         && VisibleIndexes(db, d.name) <= IndexNames(d)
  }

  ghost predicate AsksFor(desired: DatabaseSchema, x: IndexDefinition) {
    exists d :: d in desired.tables && x in d.indexes
  }

  /** So it is after any completed sync, if the names are attainable. */
  lemma AwaitingAfterSync(db: Catalog, desired: DatabaseSchema, plan: seq<MigrationStep>)
    requires db.Valid() && WellFormed(desired) && SyncPlan(db, desired, plan) && Run(db, plan).ok
    requires Attainable(db, desired)
    ensures Awaiting(Run(db, plan).db, desired)
  {
    var after := Run(db, plan).db;
    RunValid(db, plan);
    TablesAfterSync(db, desired, plan);
    AttainableAfter(db, desired, plan);
    hide SyncPlan, Attainable;
    forall d | d in desired.tables ensures VisibleIndexes(after, d.name) <= IndexNames(d) {
      assert d.name in TableNames(desired);
      VisibleIsDesired(db, desired, plan, d);
    }
  }

  // ----- one start ------------------------------------------------------------------------------

  /** The plan of a start then creates the missing indexes and does nothing else. */
  lemma OnlyCreates(db: Catalog, desired: DatabaseSchema, plan: seq<MigrationStep>, step: MigrationStep)
    requires WellFormed(desired) && Awaiting(db, desired) && SyncPlan(db, desired, plan)
    ensures step in plan <==> step.CreateIndex? && AsksFor(desired, step.index) && step.index.name !in db.indexes
  {
    assert step in plan <==> Needed(step, db, desired);
    hide SyncPlan, Attainable;
    forall t | t in TableNames(desired)
      ensures Desired(desired, t) in desired.tables && Desired(desired, t).name == t
      ensures db.tables[t].columns == ColumnNames(Desired(desired, t))
      ensures VisibleIndexes(db, t) <= IndexNames(Desired(desired, t))
    {
    }
    if step.CreateIndex? {
      var x := step.index;
      if AsksFor(desired, x) {
        var d :| d in desired.tables && x in d.indexes;
        DesiredIs(desired, d);
        if x.name in db.indexes {
          IndexOnItsTable(db, desired, d, x.name);
        }
      }
    }
  }

  /** In a schema that the builder made, with attainable names, a name is one index. */
  lemma OneDefinition(reg: SchemaRegistry, schema: DatabaseSchema, db: Catalog, x: IndexDefinition,
                      y: IndexDefinition)
    requires BuiltFrom(reg, schema) && Attainable(db, schema) && AsksFor(schema, x) && AsksFor(schema, y)
    requires x.name == y.name
    ensures x == y
  {
    var d :| d in schema.tables && x in d.indexes;
    var e :| e in schema.tables && y in e.indexes;
    assert x.name in IndexNames(d) && x.name in IndexNames(e);
    assert d == e;
    hide TableOf, Wanted, WellNamed, Made;
    var i := BuiltItem(reg, schema, d);
    IndexByName(reg, i, x, y);
  }

  ghost predicate Missing(db: Catalog, desired: DatabaseSchema, x: IndexDefinition) {
    AsksFor(desired, x) && x.name !in db.indexes
  }

  lemma CreateKeepsAwaiting(db: Catalog, desired: DatabaseSchema, x: IndexDefinition)
    requires WellFormed(desired) && Awaiting(db, desired) && AsksFor(desired, x)
    ensures Enabled(db, CreateIndex(x)) && Awaiting(Apply(db, CreateIndex(x)), desired)
    ensures Apply(db, CreateIndex(x)).indexes.Keys == db.indexes.Keys + {x.name}
  {
    var after := Apply(db, CreateIndex(x));
    var d :| d in desired.tables && x in d.indexes;
    DesiredIs(desired, d);
    ApplyValid(db, CreateIndex(x));
    assert x.tableName == d.name && d.name !in SYSTEM_TABLES;
    forall e | e in desired.tables ensures VisibleIndexes(after, e.name) <= IndexNames(e) {
      assert VisibleIndexes(db, e.name) <= IndexNames(e);
      DesiredIs(desired, e);
    }
  }

  /** Rows can stop a run and do nothing else to it. */
  lemma {:induction false} RowsOnlyStop(reg: SchemaRegistry, s: Tables, db: Catalog, steps: seq<MigrationStep>)
    ensures RunOnRows(reg, s, db, steps).ok ==> RunOnRows(reg, s, db, steps) == Run(db, steps)
    decreases |steps|
  {
    hide RowsTake;
    if steps != [] && Enabled(db, steps[0]) && AcceptedByRows(reg, s, db, steps[0]) {
      RowsOnlyStop(reg, s, Apply(db, steps[0]), steps[1..]);
    }
  }

  /** Index creations of the schema go through exactly when the rows take each of them. */
  lemma {:induction false} CreatesMeetRows(reg: SchemaRegistry, s: Tables, desired: DatabaseSchema, db: Catalog,
                                           steps: seq<MigrationStep>)
    requires WellFormed(desired) && Awaiting(db, desired)
    requires forall x | x in steps :: x.CreateIndex? && AsksFor(desired, x.index)
    requires forall x, y | x in steps && y in steps && x.index.name == y.index.name :: x == y
    requires forall x | x in steps && x.index.name in db.indexes :: RowsTake(reg, s, x.index)
    ensures RunOnRows(reg, s, db, steps).ok <==> forall x | x in steps :: RowsTake(reg, s, x.index)
    ensures Awaiting(RunOnRows(reg, s, db, steps).db, desired)
    decreases |steps|
  {
    if steps != [] {
      hide WellFormed, Awaiting, AsksFor, RowsTake, Enabled, Apply;
      var x := steps[0];
      assert x in steps && x == CreateIndex(x.index) && steps == [x] + steps[1..];
      CreateKeepsAwaiting(db, desired, x.index);
      if RowsTake(reg, s, x.index) {
        CreatesMeetRows(reg, s, desired, Apply(db, x), steps[1..]);
      }
    }
  }

  lemma {:induction false} NotCreated(reg: SchemaRegistry, s: Tables, db: Catalog, steps: seq<MigrationStep>, n: string)
    requires n !in db.indexes
    requires forall x | x in steps :: x.CreateIndex? && (x.index.name == n ==> !RowsTake(reg, s, x.index))
    ensures n !in RunOnRows(reg, s, db, steps).db.indexes
    decreases |steps|
  {
    hide RowsTake;
    if steps != [] && Enabled(db, steps[0]) && AcceptedByRows(reg, s, db, steps[0]) {
      assert steps[0] in steps;
      NotCreated(reg, s, Apply(db, steps[0]), steps[1..], n);
    }
  }

  /** With rows, a start creates its missing indexes exactly when the rows take them all, and
      then the database is settled. Otherwise it breaks off before the first that they do not
      take, and nothing but indexes is missing still. */
  lemma StartMeetsRows(reg: SchemaRegistry, schema: DatabaseSchema, s: Tables, db: Catalog, plan: seq<MigrationStep>)
    requires BuiltFrom(reg, schema) && Awaiting(db, schema) && SyncPlan(db, schema, plan)
    ensures forall x | x in plan :: x.CreateIndex?
    ensures RunOnRows(reg, s, db, plan).ok <==> forall x | Missing(db, schema, x) :: RowsTake(reg, s, x)
    ensures RunOnRows(reg, s, db, plan).ok ==>
              RunOnRows(reg, s, db, plan) == Run(db, plan) && Settled(Run(db, plan).db, schema)
    ensures Awaiting(RunOnRows(reg, s, db, plan).db, schema)
    ensures forall x | Missing(db, schema, x) && !RowsTake(reg, s, x) ::
              Missing(RunOnRows(reg, s, db, plan).db, schema, x)
  {
    BuiltWellFormed(reg, schema);
    forall step
      ensures step in plan <==> step.CreateIndex? && Missing(db, schema, step.index)
    {
      OnlyCreates(db, schema, plan, step);
    }
    SecondSync(db, schema, plan);
    hide SyncPlan, BuiltFrom, WellFormed, AsksFor, RowsTake, Settled;
    forall x, y | AsksFor(schema, x) && AsksFor(schema, y) && x.name == y.name ensures x == y {
      OneDefinition(reg, schema, db, x, y);
    }
    hide Awaiting;
    CreatesMeetRows(reg, s, schema, db, plan);
    RowsOnlyStop(reg, s, db, plan);
    forall x | Missing(db, schema, x) ensures CreateIndex(x) in plan {
      assert CreateIndex(x).index == x;
    }
    forall x | Missing(db, schema, x) && !RowsTake(reg, s, x)
      ensures x.name !in RunOnRows(reg, s, db, plan).db.indexes
    {
      NotCreated(reg, s, db, plan, x.name);
    }
  }

  // ----- the second start of a fresh database ---------------------------------------------------------

  /** The second sync of a fresh database goes through exactly when the rows stored since the
      first meet the constraints that it brings. */
  lemma SecondSyncMeetsRows(db: Catalog, r: Upgrade.Release, plan: seq<MigrationStep>, s: Tables)
    requires Fresh(db, r) && SyncPlan(Run(db, r.plan).db, r.schema, plan) && Attainable(db, r.schema)
    requires StoreSchema.InKnownTables(r.reg, s)
    ensures var mid := Run(db, r.plan).db;
            RunOnRows(r.reg, s, mid, plan).ok <==> RowConstraints(r.reg, s.(live := GuardsOf(Run(mid, plan).db)))
  {
    var mid := Run(db, r.plan).db;
    var u := s.(live := GuardsOf(Run(mid, plan).db));
    assert WellNamed(r.reg);
    AwaitingFirst(db, r);
    SecondSyncLocksAll(db, r, plan);
    hide Fresh, WellNamed, SyncPlan, Attainable, Awaiting, Wanted, TableOf, GuardsOf, Run, RunOnRows, RowConstraints,
         StoreSchema.InKnownTables, Asks, UniqueIn, Missing, RowsTake, IndexesHold, Locks, RowLocks, Locked, BuiltFrom,
         Settled;
    StartMeetsRows(r.reg, r.schema, s, mid, plan);
    assert OnlyAsked(r.reg, u.live);
    hide OnlyAsked;
    RowConstraintsAreIndexes(r.reg, u);
    MissingAreAsked(db, r, s);
    AllAsked(r.reg, s, u);
  }

  lemma AwaitingFirst(db: Catalog, r: Upgrade.Release)
    requires Fresh(db, r) && Attainable(db, r.schema)
    ensures Run(db, r.plan).ok && Awaiting(Run(db, r.plan).db, r.schema) && BuiltFrom(r.reg, r.schema)
    ensures forall x | AsksFor(r.schema, x) :: Missing(Run(db, r.plan).db, r.schema, x)
  {
    var mid := Run(db, r.plan).db;
    hide SyncPlan, Attainable, Made, WellNamed, Upgrade.KindsReadable, Upgrade.SystemApart, Upgrade.TypesTaken;
    Upgrade.FirstRelease(db, r);
    BuiltWellFormed(r.reg, r.schema);
    AwaitingAfterSync(db, r.schema, r.plan);
    forall x | AsksFor(r.schema, x) ensures x.name !in mid.indexes {
      var d :| d in r.schema.tables && x in d.indexes;
      NoIndexYet(db, r, mid, d, x.name);
    }
  }

  lemma NoIndexYet(db: Catalog, r: Upgrade.Release, mid: Catalog, d: TableDefinition, n: string)
    requires Fresh(db, r) && mid == Run(db, r.plan).db && Awaiting(mid, r.schema) && WellFormed(r.schema)
    requires d in r.schema.tables && n in IndexNames(d)
    ensures n !in mid.indexes
  {
    DesiredIs(r.schema, d);
    assert d.name !in SYSTEM_TABLES && d.name !in Managed(db);
    hide SyncPlan, Attainable, Upgrade.Sound, Upgrade.SystemApart, Upgrade.TypesTaken, WellFormed;
    NewTableHasNoIndex(db, r.schema, r.plan, d.name);
    if n in mid.indexes {
      IndexOnItsTable(mid, r.schema, d, n);
    }
  }

  lemma MissingAreAsked(db: Catalog, r: Upgrade.Release, s: Tables)
    requires Fresh(db, r) && Attainable(db, r.schema)
    ensures (forall x | Missing(Run(db, r.plan).db, r.schema, x) :: RowsTake(r.reg, s, x)) <==>
            forall i, c | Wanted(r.reg, i) && Asks(i, c) :: UniqueIn(s, i, c)
  {
    AwaitingFirst(db, r);
    assert BuiltFrom(r.reg, r.schema);
    hide Fresh, Attainable, Awaiting, Wanted, TableOf, Run, Asks, UniqueIn, WellNamed, Made;
    var mid := Run(db, r.plan).db;
    if forall x | Missing(mid, r.schema, x) :: RowsTake(r.reg, s, x) {
      forall i, c | Wanted(r.reg, i) && Asks(i, c) ensures UniqueIn(s, i, c) {
        AsksByIndex(r.reg, i, c);
        var x :| x in TableOf(r.reg, i).indexes && UniqueOn(x, c);
        BuiltTable(r.reg, r.schema, i);
        assert AsksFor(r.schema, x) && Missing(mid, r.schema, x);
      }
    }
    if forall i, c | Wanted(r.reg, i) && Asks(i, c) :: UniqueIn(s, i, c) {
      forall x | Missing(mid, r.schema, x) ensures RowsTake(r.reg, s, x) {
        forall i, c | Wanted(r.reg, i) && TableOf(r.reg, i).name == x.tableName && UniqueOn(x, c)
          ensures Asks(i, c)
        {
          AskedByName(r.reg, r.schema, i, x, c);
        }
      }
    }
  }

  lemma AskedByName(reg: SchemaRegistry, schema: DatabaseSchema, i: Item, x: IndexDefinition, c: string)
    requires BuiltFrom(reg, schema) && Wanted(reg, i) && AsksFor(schema, x)
    requires TableOf(reg, i).name == x.tableName && UniqueOn(x, c)
    ensures Asks(i, c)
  {
    BuiltWellFormed(reg, schema);
    hide BuiltFrom, WellFormed, Wanted, TableOf, Asks;
    BuiltTable(reg, schema, i);
    IndexOfTable(schema, TableOf(reg, i), x);
    AsksByIndex(reg, i, c);
  }

  lemma IndexOfTable(schema: DatabaseSchema, e: TableDefinition, x: IndexDefinition)
    requires WellFormed(schema) && AsksFor(schema, x) && e in schema.tables && e.name == x.tableName
    ensures x in e.indexes
  {
    var d :| d in schema.tables && x in d.indexes;
    DesiredIs(schema, d);
    DesiredIs(schema, e);
  }

  /** Where exactly what is asked for is locked, the live indexes hold if what is asked for is
      unique. */
  lemma AllAsked(reg: SchemaRegistry, s: Tables, u: Tables)
    requires u == s.(live := u.live)
    requires forall i, c | Wanted(reg, i) :: c in Locked(u.live, TableOf(reg, i).name) <==> Asks(i, c)
    ensures IndexesHold(reg, u) <==> forall i, c | Wanted(reg, i) && Asks(i, c) :: UniqueIn(s, i, c)
  {
    hide Wanted, TableOf, Asks, Agree;
    forall i, c ensures UniqueIn(u, i, c) <==> UniqueIn(s, i, c) {
      assert RowsOf(u, i) == RowsOf(s, i);
    }
    hide UniqueIn;
  }

  // ----- every later start -------------------------------------------------------------------------------

  /** A start with the same schema, and the rows that it meets. */
  datatype Start = Start(rows: Tables, plan: seq<MigrationStep>)

  ghost predicate Restarts(reg: SchemaRegistry, schema: DatabaseSchema, db: Catalog, starts: seq<Start>)
    decreases |starts|
  {
    starts == [] ||
    (SyncPlan(db, schema, starts[0].plan)
     && Restarts(reg, schema, RunOnRows(reg, starts[0].rows, db, starts[0].plan).db, starts[1..]))
  }

  /** The policy accepts each start, each breaks off, and the index never goes live. */
  ghost predicate NoneServes(reg: SchemaRegistry, schema: DatabaseSchema, db: Catalog, x: IndexDefinition,
                             starts: seq<Start>)
    decreases |starts|
  {
    && x.name !in db.indexes
    && (starts == [] ||
        (ServerStarts.Accepts(db, schema)
         && !RunOnRows(reg, starts[0].rows, db, starts[0].plan).ok
         && NoneServes(reg, schema, RunOnRows(reg, starts[0].rows, db, starts[0].plan).db, x, starts[1..])))
  }

  /** As long as the rows do not take an index that is missing, no start serves, however often
      it is tried. */
  lemma {:induction false} BlockedByRows(reg: SchemaRegistry, schema: DatabaseSchema, db: Catalog, x: IndexDefinition,
                                         starts: seq<Start>)
    requires BuiltFrom(reg, schema) && Awaiting(db, schema) && Missing(db, schema, x)
    requires Restarts(reg, schema, db, starts)
    requires forall a | a in starts :: !RowsTake(reg, a.rows, x)
    ensures NoneServes(reg, schema, db, x, starts)
    decreases |starts|
  {
    hide BuiltFrom, Awaiting, RowsTake, SyncPlan, RunOnRows, AsksFor, ServerStarts.Accepts;
    if starts != [] {
      var first := starts[0];
      assert first in starts;
      StartMeetsRows(reg, schema, first.rows, db, first.plan);
      AwaitingIsAccepted(db, schema);
      BlockedByRows(reg, schema, RunOnRows(reg, first.rows, db, first.plan).db, x, starts[1..]);
    }
  }

  lemma AwaitingIsAccepted(db: Catalog, schema: DatabaseSchema)
    requires Awaiting(db, schema)
    ensures ServerStarts.Accepts(db, schema)
  {
    hide VisibleIndexes;
  }

  // ----- a second document of a singleton type ----------------------------------------------------------

  ghost predicate TwoOf(s: Tables, t: DocumentType) {
    exists k, o :: k in s.entities && o in s.entities && k != o && k.typeId == t.id && o.typeId == t.id
  }

  /** The index that makes a type a singleton. */
  function SingletonIndex(t: DocumentType): IndexDefinition {
    Builder.SingletonIndexes(t.TableName(), true)[0]
  }

  lemma SingletonIsAsked(reg: SchemaRegistry, schema: DatabaseSchema, t: DocumentType)
    requires BuiltFrom(reg, schema) && t in reg.types && t.kind.SingleType?
    ensures AsksFor(schema, SingletonIndex(t)) && UniqueOn(SingletonIndex(t), SINGLETON_COLUMN)
    ensures Wanted(reg, OfType(t, false)) && TableOf(reg, OfType(t, false)).name == SingletonIndex(t).tableName
  {
    var i, x := OfType(t, false), SingletonIndex(t);
    TypeTable(reg, t, false);
    hide Wanted, TableOf, WellNamed, Made;
    assert IndexOf(reg, i, x);
    IndexesAre(reg, i, x);
    BuiltTable(reg, schema, i);
  }

  lemma TwoAreRefused(reg: SchemaRegistry, schema: DatabaseSchema, s: Tables, t: DocumentType)
    requires BuiltFrom(reg, schema) && t in reg.types && t.kind.SingleType? && TwoOf(s, t)
    ensures !RowsTake(reg, s, SingletonIndex(t))
  {
    var i := OfType(t, false);
    SingletonIsAsked(reg, schema, t);
    hide BuiltFrom, Wanted, TableOf, SingletonIndex;
    var k, o :| k in s.entities && o in s.entities && k != o && k.typeId == t.id && o.typeId == t.id;
    var a, b := TypeRow(k, s.entities[k].cells), TypeRow(o, s.entities[o].cells);
    assert a in RowsOf(s, i) && b in RowsOf(s, i);
    assert Agree(i, SINGLETON_COLUMN, a, b);
    assert !UniqueIn(s, i, SINGLETON_COLUMN);
  }

  /** The server of a fresh database saves a second document of a singleton type without
      complaint; from then on no start serves while there are two. */
  lemma SecondSingletonBlocksStarts(db: Catalog, r: Upgrade.Release, mode: LinkFailure, s: Tables, dt: DocumentType,
                                    d: Instance.Document, cells: Cells, o: Key, starts: seq<Start>)
    requires Fresh(db, r) && Attainable(db, r.schema) && (forall t | t in r.reg.types :: DistinctFields(t.fields))
    requires s.live == GuardsOf(Run(db, r.plan).db) && StoreInvariants.Sound(r.reg, s)
    requires r.reg.FindType(d.typeId) == Some(dt) && CellsOf(dt.fields, d.fields) == Ok(cells) && NotNull(dt, cells)
    requires TargetsThere(r.reg, s, d) && !(mode.Abort? && Stranded(r.reg, s, d, cells))
    requires dt.kind.SingleType? && o in s.entities && o.typeId == d.typeId && o != KeyOf(d)
    requires Restarts(r.reg, r.schema, Run(db, r.plan).db, starts)
    requires forall a | a in starts :: a.rows == Save(r.reg, mode, s, d).tables || TwoOf(a.rows, dt)
    ensures Save(r.reg, mode, s, d).result.Ok?
    ensures NoneServes(r.reg, r.schema, Run(db, r.plan).db, SingletonIndex(dt), starts)
  {
    FirstSyncRefusesNoRow(db, r, mode, s, dt, d, cells);
    AwaitingFirst(db, r);
    var after := Save(r.reg, mode, s, d).tables;
    assert dt in r.reg.types && dt.id == d.typeId;
    hide Fresh, Attainable, GuardsOf, StoreInvariants.Sound, CellsOf, NotNull, TargetsThere, Stranded, Save, BuiltFrom,
         Awaiting, Restarts, NoneServes, SingletonIndex, RowsTake, Run;
    TookSecond(r.reg, s, dt, d, after, o);
    SingletonIsAsked(r.reg, r.schema, dt);
    forall a | a in starts ensures !RowsTake(r.reg, a.rows, SingletonIndex(dt)) {
      TwoAreRefused(r.reg, r.schema, a.rows, dt);
    }
    BlockedByRows(r.reg, r.schema, Run(db, r.plan).db, SingletonIndex(dt), starts);
  }

  lemma TookSecond(reg: SchemaRegistry, s: Tables, dt: DocumentType, d: Instance.Document, after: Tables, o: Key)
    requires ReadBack.Took(reg, s, d, after) && dt.id == d.typeId
    requires o in s.entities && o.typeId == d.typeId && o != KeyOf(d)
    ensures TwoOf(after, dt)
  {
    hide CellsOf, Relinked, EntityRowOf, MirrorRowOf;
    assert KeyOf(d) in after.entities && o in after.entities;
  }
}
