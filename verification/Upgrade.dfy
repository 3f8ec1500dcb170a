/** Synchronising a database that an earlier registry shaped to the schema of a new one. */
module Upgrade {
  import opened SchemaAst
  import opened SchemaDiff
  import opened DomainSchema
  import opened Builder
  import opened Planner
  import opened Catalog
  import opened StepEffects
  import opened Convergence
  import opened Completion
  import opened BuiltSchema
  import opened Naming
  import Attainability

  function ForeignKeys(d: TableDefinition): set<ForeignKeyDefinition> { set fk | fk in d.foreignKeys }

  /** Foreign keys of system tables stay among system tables. */
  ghost predicate SystemApart(db: Catalog) {
    forall s, fk | s in db.tables && s in SYSTEM_TABLES && fk in db.tables[s].foreignKeys ::
      fk.referencedTable in SYSTEM_TABLES
  }

  /** The managed tables are those of the schema, with its columns and its foreign keys. */
  ghost predicate Realises(db: Catalog, s: DatabaseSchema) {
    && Managed(db) == TableNames(s)
    && SystemApart(db)
    && forall d | d in s.tables ::
         && d.name in db.tables
         && db.tables[d.name].columns == ColumnNames(d)
         && db.tables[d.name].foreignKeys == ForeignKeys(d)
  }

  /** No table name of a type ends in `_link`, so that names tell kinds apart. */
  ghost predicate KindsReadable(reg: SchemaRegistry) {
    forall t | t in reg.types :: !EndsWith(t.TableName(), LINK)
  }

  // ----- facts about the tables of one registry ---------------------------------------

  lemma ItemOfName(reg: SchemaRegistry, s: DatabaseSchema, n: string) returns (i: Item)
    requires BuiltFrom(reg, s) && n in TableNames(s)
    ensures Wanted(reg, i) && TableOf(reg, i).name == n && TableOf(reg, i) in s.tables
  {
    hide TableOf, Wanted, WellNamed;
    i := BuiltItem(reg, s, Desired(s, n));
  }

  /** A table name stands for the same role in both registries. */
  lemma SameRole(r0: SchemaRegistry, i: Item, r1: SchemaRegistry, j: Item)
    requires WellNamed(r0) && WellNamed(r1) && Wanted(r0, i) && Wanted(r1, j)
    requires TableOf(r0, i).name == TableOf(r1, j).name
    ensures RoleOf(r0, i) == RoleOf(r1, j)
  {
    hide TableOf, Wanted, WellNamed, RoleOf;
    RoleNamesTable(r0, i);
    RoleNamesTable(r1, j);
    RoleIsValid(r0, i);
    RoleIsValid(r1, j);
    UniqueDecoding(RoleOf(r0, i), RoleOf(r1, j));
  }

  lemma DropPhaseOfItem(reg: SchemaRegistry, i: Item)
    requires WellNamed(reg) && KindsReadable(reg) && Wanted(reg, i)
    ensures DropPhase(TableOf(reg, i).name) == 10 - RolePhase(RoleOf(reg, i))
  {
    hide TableOf, WellNamed;
    RoleNamesTable(reg, i);
    RoleIsValid(reg, i);
    ClassificationExact(RoleOf(reg, i));
    if RoleOf(reg, i).Kind() == Link {
      LinkClassesToldApart(RoleOf(reg, i));
    }
  }

  /** A live foreign key of a table shaped by the registry. */
  lemma LiveForeignKey(reg: SchemaRegistry, s: DatabaseSchema, db: Catalog, n: string, fk: ForeignKeyDefinition)
    returns (i: Item, j: Item)
    requires BuiltFrom(reg, s) && Realises(db, s)
    requires n in Managed(db) && fk in db.tables[n].foreignKeys
    ensures Wanted(reg, i) && TableOf(reg, i).name == n && fk in TableOf(reg, i).foreignKeys
    ensures Wanted(reg, j) && j.OfType? && TableOf(reg, j).name == fk.referencedTable
    ensures fk.referencedColumns == ["id"] && fk.referencedTable in TableNames(s)
    ensures RolePhase(RoleOf(reg, j)) < RolePhase(RoleOf(reg, i))
  {
    hide TableOf, Wanted, WellNamed, RoleOf;
    i := ItemOfName(reg, s, n);
    ForeignKeyShape(reg, i, fk);
    j := Target(reg, i, fk.columns[0]);
    TargetIsLower(reg, i, fk.columns[0]);
    BuiltTable(reg, s, j);
  }

  lemma NameWithTypeRoleHasId(r0: SchemaRegistry, j: Item, r1: SchemaRegistry, s1: DatabaseSchema)
    requires WellNamed(r0) && Wanted(r0, j) && j.OfType? && BuiltFrom(r1, s1)
    requires TableOf(r0, j).name in TableNames(s1)
    ensures "id" in ColumnNames(Desired(s1, TableOf(r0, j).name))
  {
    hide TableOf, WellNamed;
    var k := ItemOfName(r1, s1, TableOf(r0, j).name);
    SameRole(r0, j, r1, k);
    BuiltTable(r1, s1, k);
    TypeItemHasId(r1, k);
  }

  // ----- the hypotheses of completion ----------------------------------------------------

  lemma UpgradeStratified(r0: SchemaRegistry, s0: DatabaseSchema, s1: DatabaseSchema, db: Catalog)
    requires BuiltFrom(r0, s0) && KindsReadable(r0) && Realises(db, s0)
    ensures Stratified(db, s1)
  {
    hide TableOf, Wanted, WellNamed, RoleOf, DropPhase, BuiltFrom, KindsReadable;
    forall s, n | s in Dropped(db, s1) && n in Dropped(db, s1) && s != n && db.Refers(s, n)
      ensures DropPhase(s) < DropPhase(n)
    {
      var fk :| fk in db.tables[s].foreignKeys && fk.referencedTable == n;
      PhasesOppose(r0, s0, db, s, fk);
    }
  }

  lemma PhasesOppose(r0: SchemaRegistry, s0: DatabaseSchema, db: Catalog, s: string, fk: ForeignKeyDefinition)
    requires BuiltFrom(r0, s0) && KindsReadable(r0) && Realises(db, s0)
    requires s in Managed(db) && fk in db.tables[s].foreignKeys
    ensures DropPhase(s) < DropPhase(fk.referencedTable)
  {
    hide TableOf, Wanted, WellNamed, RoleOf, DropPhase, KindsReadable;
    var i, j := LiveForeignKey(r0, s0, db, s, fk);
    DropPhaseOfItem(r0, i);
    DropPhaseOfItem(r0, j);
  }

  lemma UpgradeKeepsColumns(r0: SchemaRegistry, s0: DatabaseSchema, r1: SchemaRegistry, s1: DatabaseSchema, db: Catalog)
    requires BuiltFrom(r0, s0) && BuiltFrom(r1, s1) && Realises(db, s0)
    requires TableNames(s1) !! SYSTEM_TABLES
    ensures SurvivorsReferToKeptColumns(db, s1)
  {
    hide TableOf, Wanted, WellNamed, RoleOf, Made;
    forall s, t, c | s in db.tables && s !in Dropped(db, s1) && t in TableNames(s1) && t != s
        && db.RefersToColumn(s, t, c)
      ensures c in ColumnNames(Desired(s1, t))
    {
      var fk :| fk in db.tables[s].foreignKeys && fk.referencedTable == t && c in fk.referencedColumns;
      if s !in SYSTEM_TABLES {
        var i, j := LiveForeignKey(r0, s0, db, s, fk);
        NameWithTypeRoleHasId(r0, j, r1, s1);
      }
    }
  }

  lemma UpgradeTargetsReady(r0: SchemaRegistry, s0: DatabaseSchema, r1: SchemaRegistry, s1: DatabaseSchema, db: Catalog)
    requires BuiltFrom(r0, s0) && BuiltFrom(r1, s1) && Realises(db, s0)
    ensures KeptTargetsReady(db, s1)
  {
    hide TableOf, Wanted, WellNamed, RoleOf, Made;
    forall d, fk | d in s1.tables && d.name !in Managed(db) && fk in d.foreignKeys && fk.referencedTable in Managed(db)
      ensures ToSet(fk.referencedColumns) <= db.tables[fk.referencedTable].columns
    {
      var i := BuiltItem(r1, s1, d);
      ForeignKeyShape(r1, i, fk);
      var j := Target(r1, i, fk.columns[0]);
      NameWithTypeRoleHasId(r1, j, r0, s0);
      assert Desired(s0, fk.referencedTable) in s0.tables;
    }
  }

  // ----- when an upgrade goes through --------------------------------------------------------

  /** The targets of every link table that stays are still wanted. */
  ghost predicate KeptTablesKeepTargets(s0: DatabaseSchema, s1: DatabaseSchema) {
    forall d, fk | d in s0.tables && d.name in TableNames(s1) && fk in d.foreignKeys ::
      fk.referencedTable in TableNames(s1)
  }

  /** The columns that the new schema adds are of types that the database takes. */
  ghost predicate AddedTypesTaken(s0: DatabaseSchema, s1: DatabaseSchema) {
    forall e, c | e in s1.tables && c in e.columns
                  && (e.name !in TableNames(s0) || c.name !in ColumnNames(Desired(s0, e.name))) ::
      TypeTaken(c.dataType)
  }

  lemma AddedColumnsAreNew(s0: DatabaseSchema, s1: DatabaseSchema, db: Catalog)
    requires Realises(db, s0)
    ensures NewColumnsTaken(db, s1) <==> AddedTypesTaken(s0, s1)
  {
    hide ForeignKeys, SystemApart, TypeTaken;
    forall e | e in s1.tables && e.name in TableNames(s0)
      ensures e.name in Managed(db) && db.tables[e.name].columns == ColumnNames(Desired(s0, e.name))
    {
      assert Desired(s0, e.name) in s0.tables;
    }
  }

  lemma SurvivorsAreKeptTables(r0: SchemaRegistry, s0: DatabaseSchema, s1: DatabaseSchema, db: Catalog)
    requires BuiltFrom(r0, s0) && Realises(db, s0) && TableNames(s1) !! SYSTEM_TABLES
    ensures NoSurvivingReferrer(db, s1) <==> KeptTablesKeepTargets(s0, s1)
  {
    hide Made, WellNamed;
    BuiltClosed(r0, s0);
    if NoSurvivingReferrer(db, s1) {
      forall d, fk | d in s0.tables && d.name in TableNames(s1) && fk in d.foreignKeys
        ensures fk.referencedTable in TableNames(s1)
      {
        assert Resolves(s0, d, fk);
        assert fk in db.tables[d.name].foreignKeys && db.Refers(d.name, fk.referencedTable);
      }
    }
    if KeptTablesKeepTargets(s0, s1) {
      forall s, n | s in db.tables && n in Dropped(db, s1) && s != n && db.Refers(s, n)
        ensures s in Dropped(db, s1)
      {
        var fk :| fk in db.tables[s].foreignKeys && fk.referencedTable == n;
        if s in Managed(db) {
          var d := Desired(s0, s);
          assert d in s0.tables && fk in ForeignKeys(d);
        }
      }
    }
  }

  /** Moving a database from one registry's schema to another's runs to the end exactly
      when no table that stays refers to a table that goes and every column that is added is
      of a type the database takes. */
  lemma UpgradeCompletes(r0: SchemaRegistry, s0: DatabaseSchema, r1: SchemaRegistry, s1: DatabaseSchema,
                         db: Catalog, plan: seq<MigrationStep>)
    requires BuiltFrom(r0, s0) && KindsReadable(r0) && Realises(db, s0)
    requires BuiltFrom(r1, s1) && TableNames(s1) !! SYSTEM_TABLES && SyncPlan(db, s1, plan)
    ensures Run(db, plan).ok <==> KeptTablesKeepTargets(s0, s1) && AddedTypesTaken(s0, s1)
  {
    hide BuiltFrom, KindsReadable, Realises, SyncPlan, Ready;
    UpgradeReady(r0, s0, r1, s1, db);
    SurvivorsAreKeptTables(r0, s0, s1, db);
    AddedColumnsAreNew(s0, s1, db);
    SyncCompletes(db, s1, plan);
  }

  lemma UpgradeReady(r0: SchemaRegistry, s0: DatabaseSchema, r1: SchemaRegistry, s1: DatabaseSchema, db: Catalog)
    requires BuiltFrom(r0, s0) && KindsReadable(r0) && Realises(db, s0)
    requires BuiltFrom(r1, s1) && TableNames(s1) !! SYSTEM_TABLES
    ensures Ready(db, s1)
  {
    hide BuiltFrom, KindsReadable, Realises;
    BuiltWellFormed(r1, s1);
    BuiltClosed(r1, s1);
    UpgradeStratified(r0, s0, s1, db);
    UpgradeKeepsColumns(r0, s0, r1, s1, db);
    UpgradeTargetsReady(r0, s0, r1, s1, db);
  }

  /** Turning draft-and-publish off for the target of a relation whose owner keeps it: the
      published link table stays and still refers to the mirror that is to go. No later sync
      ever completes: each one breaks off at the drop of a table that a kept table refers to. */
  lemma TurningMirrorOffBlocks(r0: SchemaRegistry, s0: DatabaseSchema, r1: SchemaRegistry, s1: DatabaseSchema,
                               db: Catalog, plans: seq<seq<MigrationStep>>, r: Relation)
    requires BuiltFrom(r0, s0) && KindsReadable(r0) && Realises(db, s0)
    requires BuiltFrom(r1, s1) && TableNames(s1) !! SYSTEM_TABLES && Syncs(db, s1, plans)
    requires Wanted(r0, OfRelation(r, true)) && r0.FindType(r.targetType).value.draftAndPublish
    requires TableOf(r0, OfRelation(r, true)).name in TableNames(s1)
    requires PublishedTableName(r0.FindType(r.targetType).value.TableName()) !in TableNames(s1)
    ensures EachStops(db, s1, plans)
  {
    var mirror := PublishedTableName(r0.FindType(r.targetType).value.TableName());
    UpgradeReady(r0, s0, r1, s1, db);
    LinkStillRefers(r0, s0, s1, db, r);
    BlockedForGood(db, s1, plans, TableOf(r0, OfRelation(r, true)).name, mirror);
  }

  lemma LinkStillRefers(r0: SchemaRegistry, s0: DatabaseSchema, s1: DatabaseSchema, db: Catalog, r: Relation)
    requires BuiltFrom(r0, s0) && Realises(db, s0) && TableNames(s1) !! SYSTEM_TABLES
    requires Wanted(r0, OfRelation(r, true)) && r0.FindType(r.targetType).value.draftAndPublish
    requires TableOf(r0, OfRelation(r, true)).name in TableNames(s1)
    requires PublishedTableName(r0.FindType(r.targetType).value.TableName()) !in TableNames(s1)
    ensures BlockedBy(db, s1, TableOf(r0, OfRelation(r, true)).name,
                      PublishedTableName(r0.FindType(r.targetType).value.TableName()))
  {
    var target := r0.FindType(r.targetType).value;
    var i, j := OfRelation(r, true), OfType(target, true);
    hide BuiltFrom, Realises, WellNamed, TableOf, Wanted, PublishedTableName;
    assert WellNamed(r0) by { BuiltIsWellNamed(r0, s0); }
    MirrorName(r0, target);
    RealisedTable(r0, s0, db, i);
    RealisedTable(r0, s0, db, j);
    var fk := KeyToMirror(r0, r);
    assert fk in ForeignKeys(TableOf(r0, i));
  }

  lemma BuiltIsWellNamed(reg: SchemaRegistry, s: DatabaseSchema)
    requires BuiltFrom(reg, s)
    ensures WellNamed(reg)
  {
    hide Made, WellNamed;
  }

  lemma RealisedTable(reg: SchemaRegistry, s: DatabaseSchema, db: Catalog, i: Item)
    requires BuiltFrom(reg, s) && Realises(db, s) && Wanted(reg, i)
    ensures var d := TableOf(reg, i);
            d.name in db.tables && d.name in Managed(db) && db.tables[d.name].foreignKeys == ForeignKeys(d)
  {
    hide Made, WellNamed, TableOf, Wanted, ForeignKeys, SystemApart;
    BuiltTable(reg, s, i);
  }

  lemma KeyToMirror(reg: SchemaRegistry, r: Relation) returns (fk: ForeignKeyDefinition)
    requires WellNamed(reg) && Wanted(reg, OfRelation(r, true)) && reg.FindType(r.targetType).value.draftAndPublish
    ensures fk in TableOf(reg, OfRelation(r, true)).foreignKeys
    ensures fk.referencedTable == PublishedTableName(reg.FindType(r.targetType).value.TableName())
  {
    var i, target := OfRelation(r, true), reg.FindType(r.targetType).value;
    assert Target(reg, i, "target_id") == OfType(target, true);
    hide WellNamed, TableOf, Target;
    LinkForeignKeys(reg, i);
    fk := TableOf(reg, i).foreignKeys[1];
    MirrorName(reg, target);
  }

  lemma MirrorName(reg: SchemaRegistry, t: DocumentType)
    requires t in reg.types && t.draftAndPublish
    ensures Wanted(reg, OfType(t, true)) && TableOf(reg, OfType(t, true)).name == PublishedTableName(t.TableName())
  {
  }

  // ----- from release to release -----------------------------------------------------------------

  /** Tables in both schemas have the same foreign keys in both. */
  ghost predicate SameForeignKeys(s0: DatabaseSchema, s1: DatabaseSchema) {
    forall d, e | d in s0.tables && e in s1.tables && d.name == e.name :: ForeignKeys(d) == ForeignKeys(e)
  }

  lemma SameForeignKeysKeepTargets(r1: SchemaRegistry, s0: DatabaseSchema, s1: DatabaseSchema)
    requires BuiltFrom(r1, s1) && SameForeignKeys(s0, s1)
    ensures KeptTablesKeepTargets(s0, s1)
  {
    hide BuiltFrom;
    BuiltClosed(r1, s1);
    forall d, fk | d in s0.tables && d.name in TableNames(s1) && fk in d.foreignKeys
      ensures fk.referencedTable in TableNames(s1)
    {
      var e := Desired(s1, d.name);
      assert fk in ForeignKeys(d) && fk in ForeignKeys(e);
      assert Resolves(s1, e, fk);
    }
  }

  /** The columns that carry foreign keys come with the role, so they are never dropped. */
  lemma ForeignKeyColumnsStay(r0: SchemaRegistry, s0: DatabaseSchema, r1: SchemaRegistry, s1: DatabaseSchema,
                              d: TableDefinition, e: TableDefinition)
    requires BuiltFrom(r0, s0) && BuiltFrom(r1, s1)
    requires d in s0.tables && e in s1.tables && d.name == e.name
    ensures KeptForeignKeys(d.name, ForeignKeys(d), ColumnNames(d) - ColumnNames(e)) == ForeignKeys(d)
  {
    hide TableOf, Wanted, WellNamed, Made;
    var i := BuiltItem(r0, s0, d);
    var j := BuiltItem(r1, s1, e);
    SameRole(r0, i, r1, j);
    forall fk | fk in d.foreignKeys
      ensures ToSet(fk.columns) <= ColumnNames(e) && fk.referencedTable != d.name
    {
      ForeignKeyColumnStays(r0, i, r1, j, fk);
      BuiltClosed(r0, s0);
      assert Resolves(s0, d, fk);
      FindTableUnique(s0, d);
    }
  }

  lemma ForeignKeyColumnStays(r0: SchemaRegistry, i: Item, r1: SchemaRegistry, j: Item, fk: ForeignKeyDefinition)
    requires Wanted(r0, i) && Wanted(r1, j) && RoleOf(r0, i) == RoleOf(r1, j)
    requires fk in TableOf(r0, i).foreignKeys
    ensures ToSet(fk.columns) <= ColumnNames(TableOf(r1, j))
  {
    if i.OfType? {
      TypeTablesHaveId(j.t);
    } else {
      LinkHasItsColumns(r1, j);
    }
  }

  /** After a completed upgrade the database realises the new schema exactly when the
      tables that stay were meant to keep their foreign keys: these are not in the diff. */
  lemma UpgradeRealises(r0: SchemaRegistry, s0: DatabaseSchema, r1: SchemaRegistry, s1: DatabaseSchema,
                        db: Catalog, plan: seq<MigrationStep>)
    requires BuiltFrom(r0, s0) && Realises(db, s0)
    requires BuiltFrom(r1, s1) && TableNames(s1) !! SYSTEM_TABLES && SyncPlan(db, s1, plan) && Run(db, plan).ok
    ensures Realises(Run(db, plan).db, s1) <==> SameForeignKeys(s0, s1)
  {
    hide Made, WellNamed, SyncPlan;
    var after := Run(db, plan).db;
    BuiltWellFormed(r1, s1);
    TablesAfterSync(db, s1, plan);
    forall s | s in after.tables && s in SYSTEM_TABLES
      ensures s in db.tables && after.tables[s] == db.tables[s]
    {
      assert s in after.tables.Keys * SYSTEM_TABLES;
      SystemTableUntouched(db, s1, plan, s);
    }
    forall d, e | d in s0.tables && e in s1.tables && d.name == e.name
      ensures after.tables[e.name].foreignKeys == ForeignKeys(d)
    {
      ForeignKeyColumnsStay(r0, s0, r1, s1, d, e);
    }
    forall e | e in s1.tables && e.name in db.tables
      ensures e.name in TableNames(s0) && Desired(s0, e.name) in s0.tables
    {
      assert e.name in TableNames(s1);
    }
  }

  /** One deployment: a registry, the schema built from it, and the plan its sync ran. */
  datatype Release = Release(reg: SchemaRegistry, schema: DatabaseSchema, plan: seq<MigrationStep>)

  ghost predicate Sound(r: Release) {
    BuiltFrom(r.reg, r.schema) && KindsReadable(r.reg) && TableNames(r.schema) !! SYSTEM_TABLES
  }

  /** Each plan is one the pipeline may produce for the database it meets, no release changes
      the foreign keys of a table it keeps, and none adds a column of a type the database does
      not take. */
  ghost predicate History(db: Catalog, current: Release, next: seq<Release>)
    decreases |next|
  {
    next == [] ||
    (Sound(next[0]) && SyncPlan(db, next[0].schema, next[0].plan)
     && SameForeignKeys(current.schema, next[0].schema) && AddedTypesTaken(current.schema, next[0].schema)
     && History(Run(db, next[0].plan).db, next[0], next[1..]))
  }

  function DatabaseAfter(db: Catalog, next: seq<Release>): Catalog
    decreases |next|
  {
    if next == [] then db else DatabaseAfter(Run(db, next[0].plan).db, next[1..])
  }

  /** No sync in the history breaks off. */
  ghost predicate AllComplete(db: Catalog, next: seq<Release>)
    decreases |next|
  {
    next == [] || (Run(db, next[0].plan).ok && AllComplete(Run(db, next[0].plan).db, next[1..]))
  }

  /** Over any history of releases every sync completes and the database always realises
      the schema of the last release. */
  lemma {:induction false} EveryReleaseCompletes(db: Catalog, current: Release, next: seq<Release>)
    requires Sound(current) && Realises(db, current.schema) && History(db, current, next)
    ensures AllComplete(db, next)
    ensures Realises(DatabaseAfter(db, next), if next == [] then current.schema else next[|next| - 1].schema)
    decreases |next|
  {
    hide BuiltFrom, KindsReadable, Realises, SyncPlan, SameForeignKeys, AddedTypesTaken;
    if next != [] {
      var r := next[0];
      SameForeignKeysKeepTargets(r.reg, current.schema, r.schema);
      UpgradeCompletes(current.reg, current.schema, r.reg, r.schema, db, r.plan);
      UpgradeRealises(current.reg, current.schema, r.reg, r.schema, db, r.plan);
      EveryReleaseCompletes(Run(db, r.plan).db, r, next[1..]);
    }
  }

  ghost predicate TypesTaken(s: DatabaseSchema) {
    forall d, c | d in s.tables && c in d.columns :: TypeTaken(c.dataType)
  }

  /** A decimal attribute has at least one digit, and no more than the database has. The loader
      takes any precision. */
  predicate HasDigits(f: FieldDefinition) {
    match f.fieldType
    case Primitive(Decimal(precision, _)) => 1 <= precision <= 1000
    case _ => true
  }

  ghost predicate DigitsGiven(reg: SchemaRegistry) {
    forall t, f | t in reg.types && f in t.fields :: HasDigits(f)
  }

  lemma TableTypesTaken(reg: SchemaRegistry, i: Item, c: ColumnDefinition)
    requires DigitsGiven(reg) && Wanted(reg, i) && c in TableOf(reg, i).columns
    ensures TypeTaken(c.dataType)
  {
    hide DigitsGiven, MapFieldTypeToSql;
    if i.OfType? {
      var base := SystemColumns(i.t, i.published);
      assert TableOf(reg, i).columns == WithAttributes(base, i.t.fields);
      ColumnOrigin(base, i.t.fields, c);
      SystemTypesTaken(i.t, i.published);
      if c !in base {
        var f :| f in i.t.fields && c == AttributeColumn(f);
        assert TypeTaken(MapFieldTypeToSql(f.fieldType)) by { FieldTypeTaken(reg, i.t, f); }
      }
    }
  }

  lemma FieldTypeTaken(reg: SchemaRegistry, t: DocumentType, f: FieldDefinition)
    requires DigitsGiven(reg) && t in reg.types && f in t.fields
    ensures TypeTaken(MapFieldTypeToSql(f.fieldType))
  {
    DigitsAreTaken(f);
  }

  lemma SystemTypesTaken(t: DocumentType, published: bool)
    ensures forall c | c in SystemColumns(t, published) :: TypeTaken(c.dataType)
  {
  }

  /** A registry whose decimals have digits gives a schema that the database takes; and a
      decimal attribute without, unless its column is dropped for a system column of that
      name, gives one that it refuses. */
  lemma TypesTakenByDigits(reg: SchemaRegistry, s: DatabaseSchema)
    requires BuiltFrom(reg, s)
    ensures DigitsGiven(reg) ==> TypesTaken(s)
    ensures TypesTaken(s) ==>
              forall t, f | t in reg.types && ProperAttributes(t) && f in t.fields
                            && !Taken(SystemColumns(t, false), KebabToSnake(f.id)) ::
                HasDigits(f)
  {
    hide BuiltFrom, TypeTaken, HasDigits, ProperAttributes, Taken, SystemColumns, TableOf, DigitsGiven,
         MapFieldTypeToSql;
    if DigitsGiven(reg) {
      forall d, c | d in s.tables && c in d.columns ensures TypeTaken(c.dataType) {
        var i := BuiltItem(reg, s, d);
        TableTypesTaken(reg, i, c);
      }
    }
    if TypesTaken(s) {
      forall t, f | t in reg.types && ProperAttributes(t) && f in t.fields
                    && !Taken(SystemColumns(t, false), KebabToSnake(f.id))
        ensures HasDigits(f)
      {
        AttributeTypeTaken(reg, s, t, f);
      }
    }
  }

  lemma AttributeTypeTaken(reg: SchemaRegistry, s: DatabaseSchema, t: DocumentType, f: FieldDefinition)
    requires BuiltFrom(reg, s) && TypesTaken(s) && t in reg.types && ProperAttributes(t) && f in t.fields
    requires !Taken(SystemColumns(t, false), KebabToSnake(f.id))
    ensures HasDigits(f)
  {
    var i, c := OfType(t, false), AttributeColumn(f);
    assert Wanted(reg, i);
    hide BuiltFrom, ProperAttributes, Taken, SystemColumns, TableOf, KebabToSnake, MapFieldTypeToSql;
    EveryAttributeHasColumn(reg, t, false, f, c);
    BuiltTable(reg, s, i);
    assert c in TableOf(reg, i).columns;
    DigitsAreTaken(f);
  }

  lemma DigitsAreTaken(f: FieldDefinition)
    ensures HasDigits(f) <==> TypeTaken(MapFieldTypeToSql(f.fieldType))
  {
  }

  /** The first sync of an empty database completes exactly when the database takes every
      column type of the schema, and then realises the schema. */
  lemma FirstRelease(db: Catalog, r: Release)
    requires Sound(r) && Managed(db) == {} && SystemApart(db) && SyncPlan(db, r.schema, r.plan)
    ensures Run(db, r.plan).ok <==> TypesTaken(r.schema)
    ensures Run(db, r.plan).ok ==> Realises(Run(db, r.plan).db, r.schema)
  {
    hide BuiltFrom, KindsReadable, SyncPlan, TypeTaken;
    BuiltWellFormed(r.reg, r.schema);
    BuiltClosed(r.reg, r.schema);
    forall s | s in db.tables ensures s in SYSTEM_TABLES {
      assert s in Managed(db) || s in SYSTEM_TABLES;
    }
    SyncCompletes(db, r.schema, r.plan);
    if Run(db, r.plan).ok {
      FirstReleaseRealises(db, r);
    }
  }

  lemma FirstReleaseRealises(db: Catalog, r: Release)
    requires Sound(r) && Managed(db) == {} && SystemApart(db) && SyncPlan(db, r.schema, r.plan) && Run(db, r.plan).ok
    ensures Realises(Run(db, r.plan).db, r.schema)
  {
    hide Made, WellNamed, SyncPlan;
    BuiltWellFormed(r.reg, r.schema);
    TablesAfterSync(db, r.schema, r.plan);
    var after := Run(db, r.plan).db;
    forall s | s in after.tables && s in SYSTEM_TABLES
      ensures s in db.tables && after.tables[s] == db.tables[s]
    {
      assert s in after.tables.Keys * SYSTEM_TABLES;
      SystemTableUntouched(db, r.schema, r.plan, s);
    }
    forall d | d in r.schema.tables ensures d.name !in db.tables {
      assert d.name in TableNames(r.schema);
    }
  }

  /** So with a decimal attribute of precision 0 no first sync completes. */
  lemma NoDigitsNoDatabase(db: Catalog, r: Release, t: DocumentType, f: FieldDefinition, scale: nat)
    requires Sound(r) && Managed(db) == {} && SystemApart(db) && SyncPlan(db, r.schema, r.plan)
    requires t in r.reg.types && ProperAttributes(t) && f in t.fields && f.fieldType == Primitive(Decimal(0, scale))
    requires !Taken(SystemColumns(t, false), KebabToSnake(f.id))
    ensures !Run(db, r.plan).ok
  {
    hide BuiltFrom, KindsReadable, SyncPlan, TypesTaken, ProperAttributes, Taken, SystemColumns;
    FirstRelease(db, r);
    TypesTakenByDigits(r.reg, r.schema);
  }

  /** The registry asks for no index: it has no relation, no singleton, no unique attribute. */
  ghost predicate NoIndexWanted(reg: SchemaRegistry) {
    reg.relations == [] && forall t | t in reg.types :: t.kind.Collection? && forall f | f in t.fields :: !f.unique
  }

  lemma NoIndexes(reg: SchemaRegistry, i: Item, x: IndexDefinition)
    requires NoIndexWanted(reg) && Wanted(reg, i)
    ensures x !in TableOf(reg, i).indexes
  {
    Attainability.IndexesAre(reg, i, x);
  }

  lemma SomeIndex(reg: SchemaRegistry) returns (i: Item, x: IndexDefinition)
    requires WellNamed(reg) && !NoIndexWanted(reg)
    ensures Wanted(reg, i) && x in TableOf(reg, i).indexes
  {
    if reg.relations != [] {
      i := OfRelation(reg.relations[0], false);
      x := TableOf(reg, i).indexes[|TableOf(reg, i).indexes| - 1];
    } else {
      var t :| t in reg.types && !(t.kind.Collection? && forall f | f in t.fields :: !f.unique);
      i := OfType(t, false);
      if t.kind.SingleType? {
        x := SingletonIndexes(TableOf(reg, i).name, true)[0];
      } else {
        var f :| f in t.fields && f.unique;
        x := UniqueIndex(TableOf(reg, i).name, f);
      }
      hide TableOf, WellNamed;
      Attainability.IndexesAre(reg, i, x);
    }
  }

  /** After that first sync there is still an index to create, unless the registry asks for
      none: the second sync of a fresh database is a no-op exactly without relations,
      singletons and unique attributes, contrary to what the source's end-to-end test expects. */
  lemma FreshDatabaseNeedsTwoSyncs(db: Catalog, r: Release, actual: DatabaseSchema)
    requires Sound(r) && Managed(db) == {} && db.Valid() && SyncPlan(db, r.schema, r.plan) && Run(db, r.plan).ok
    requires Introspection(Run(db, r.plan).db, actual)
    ensures DiffSteps(actual, r.schema) == [] <==> NoIndexWanted(r.reg)
  {
    hide BuiltFrom, SyncPlan, Introspection, KindsReadable, NoIndexWanted, Settled;
    var after := Run(db, r.plan).db;
    BuiltWellFormed(r.reg, r.schema);
    SettledIffNoSteps(after, actual, r.schema);
    if NoIndexWanted(r.reg) {
      NothingLeft(db, r);
    } else if Settled(after, r.schema) {
      SettledIsAttainable(after, r.schema);
      AttainableBefore(db, r.schema, r.plan);
      OneSyncSettles(db, r.schema, r.plan);
      SomethingLeft(db, r);
    }
  }

  lemma NothingLeft(db: Catalog, r: Release)
    requires Sound(r) && db.Valid() && SyncPlan(db, r.schema, r.plan) && Run(db, r.plan).ok && NoIndexWanted(r.reg)
    ensures Settled(Run(db, r.plan).db, r.schema)
  {
    hide SyncPlan, KindsReadable, NoIndexWanted, Settled, TableOf, Wanted, WellNamed;
    forall d | d in r.schema.tables ensures d.indexes == [] {
      var i := BuiltItem(r.reg, r.schema, d);
      if d.indexes != [] {
        NoIndexes(r.reg, i, d.indexes[0]);
      }
    }
    hide BuiltFrom;
    BuiltWellFormed(r.reg, r.schema);
    OneSyncSettles(db, r.schema, r.plan);
  }

  lemma SomethingLeft(db: Catalog, r: Release)
    requires Sound(r) && Managed(db) == {} && !NoIndexWanted(r.reg)
    ensures !NoIndexDeferred(db, r.schema)
  {
    hide KindsReadable, NoIndexWanted, TableOf, Wanted, WellNamed, Made;
    var i, x := SomeIndex(r.reg);
    BuiltTable(r.reg, r.schema, i);
    var d := TableOf(r.reg, i);
    assert d.name !in Managed(db);
    assert x.name in IndexNames(d) && !InTime(db, d, x.name);
  }
}
