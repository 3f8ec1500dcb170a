/** The row constraints of the store are the unique indexes that are live, and which of
    them are live is told from the synchronisations that have run. */
module LiveIndexes {
  import opened Wrappers
  import opened SchemaAst
  import opened SchemaDiff
  import opened DomainSchema
  import opened Naming
  import opened Catalog
  import opened StepEffects
  import opened Convergence
  import opened BuiltSchema
  import opened Attainability
  import opened Store = DocumentStore
  import Builder
  import Upgrade
  import Instance
  import StoreInvariants
  import StoreSchema
  import ReadBack
  import WhatIsSaved

  // ----- the unique indexes of the schema ----------------------------------------------------

  /** The columns on which a table asks for a unique index. */
  ghost predicate Asks(i: Item, column: string) {
    match i
    case OfType(t, _) =>
      || (t.kind.SingleType? && column == SINGLETON_COLUMN)
      || exists f | f in t.fields :: f.unique && column == KebabToSnake(f.id)
    case OfRelation(r, _) => r.ownerKind.HasOne? && column == "owner_id"
  }

  ghost predicate UniqueOn(x: IndexDefinition, column: string) { x.unique && x.columns == [column] }

  /** Told from the index definitions that the builder makes. */
  lemma AsksByIndex(reg: SchemaRegistry, i: Item, column: string)
    requires Wanted(reg, i)
    ensures Asks(i, column) <==> exists x :: x in TableOf(reg, i).indexes && UniqueOn(x, column)
    ensures forall x | x in TableOf(reg, i).indexes && x.unique ::
            x.tableName == TableOf(reg, i).name && |x.columns| == 1
  {
    var table := TableOf(reg, i).name;
    hide TableOf, Wanted, KebabToSnake;
    forall x ensures x in TableOf(reg, i).indexes <==> IndexOf(reg, i, x) {
      IndexesAre(reg, i, x);
    }
    match i
    case OfType(t, _) =>
      if t.kind.SingleType? {
        assert IndexOf(reg, i, Builder.SingletonIndexes(table, true)[0]);
      }
      forall f | f in t.fields && f.unique
        ensures IndexOf(reg, i, Builder.UniqueIndex(table, f))
                && UniqueOn(Builder.UniqueIndex(table, f), KebabToSnake(f.id))
      {
      }
    case OfRelation(r, _) =>
      if r.ownerKind.HasOne? {
        assert IndexOf(reg, i, IndexDefinition(LinkOwnerIndexName(table), table, ["owner_id"], true));
      }
  }

  // ----- row constraints are unique indexes -----------------------------------------------------

  /** A row of one of the four families of tables. */
  datatype AnyRow = TypeRow(k: Key, cells: Cells) | LinkRow(link: Store.Link)

  ghost function RowsOf(s: Tables, i: Item): set<AnyRow> {
    match i
    case OfType(t, false) => set k | k in s.entities && k.typeId == t.id :: TypeRow(k, s.entities[k].cells)
    case OfType(t, true) => set k | k in s.mirrors && k.typeId == t.id :: TypeRow(k, s.mirrors[k].cells)
    case OfRelation(r, false) => set l | l in s.draftLinks && InTable(l, r) :: LinkRow(l)
    case OfRelation(r, true) => set l | l in s.publishedLinks && InTable(l, r) :: LinkRow(l)
  }

  /** Two rows hold one value, not null, in a column on which some table asks for a unique
      index. */
  ghost predicate Agree(i: Item, column: string, a: AnyRow, b: AnyRow) {
    match (i, a, b)
    case (OfType(t, _), TypeRow(_, x), TypeRow(_, y)) =>
      || column == SINGLETON_COLUMN
      || exists f | f in t.fields ::
           KebabToSnake(f.id) == column && f.id in x && f.id in y && !x[f.id].IsNull() && x[f.id] == y[f.id]
    case (OfRelation(r, _), LinkRow(l), LinkRow(m)) => column == "owner_id" && l.owner == m.owner
    case _ => false
  }

  ghost predicate UniqueIn(s: Tables, i: Item, column: string) {
    forall a, b | a in RowsOf(s, i) && b in RowsOf(s, i) && a != b :: !Agree(i, column, a, b)
  }

  /** Every live unique index of a table of the schema holds. */
  ghost predicate IndexesHold(reg: SchemaRegistry, s: Tables) {
    forall i | Wanted(reg, i) :: TableIndexesHold(reg, s, i)
  }

  ghost predicate TableIndexesHold(reg: SchemaRegistry, s: Tables, i: Item)
    requires Wanted(reg, i)
  {
    forall column | column in Locked(s.live, TableOf(reg, i).name) :: UniqueIn(s, i, column)
  }

  /** The row constraints that saves check and runs keep. */
  ghost predicate RowConstraints(reg: SchemaRegistry, s: Tables) {
    && StoreInvariants.RowsCompatible(reg, s.live, false, EntityCells(s.entities))
    && StoreInvariants.RowsCompatible(reg, s.live, true, MirrorCells(s.mirrors))
    && StoreInvariants.OneTarget(Locks(reg, s.live, false), s.draftLinks)
    && StoreInvariants.OneTarget(Locks(reg, s.live, true), s.publishedLinks)
  }

  /** Nothing is locked that the schema does not ask for. */
  ghost predicate OnlyAsked(reg: SchemaRegistry, live: set<Guard>) {
    forall i, column | Wanted(reg, i) && column in Locked(live, TableOf(reg, i).name) :: Asks(i, column)
  }

  lemma PairAgrees(locked: set<string>, t: DocumentType, published: bool, k: Key, x: Cells, o: Key, y: Cells)
    ensures Compatible(locked, t, x, y) <==>
            forall column | column in locked :: !Agree(OfType(t, published), column, TypeRow(k, x), TypeRow(o, y))
  {
    if Compatible(locked, t, x, y) {
      forall column | column in locked ensures !Agree(OfType(t, published), column, TypeRow(k, x), TypeRow(o, y)) {
      }
    } else if SINGLETON_COLUMN in locked {
      assert Agree(OfType(t, published), SINGLETON_COLUMN, TypeRow(k, x), TypeRow(o, y));
    } else {
      var f :| f in t.fields && KebabToSnake(f.id) in locked && f.id in x && f.id in y && !x[f.id].IsNull()
               && x[f.id] == y[f.id];
      assert Agree(OfType(t, published), KebabToSnake(f.id), TypeRow(k, x), TypeRow(o, y));
    }
  }

  /** The rows of a type's table, or of its mirror, by key. */
  function CellsIn(s: Tables, published: bool): map<Key, Cells> {
    if published then MirrorCells(s.mirrors) else EntityCells(s.entities)
  }

  lemma TypeRows(s: Tables, t: DocumentType, published: bool, row: AnyRow)
    ensures row in RowsOf(s, OfType(t, published)) <==>
            row.TypeRow? && row.k.typeId == t.id && row.k in CellsIn(s, published)
                && CellsIn(s, published)[row.k] == row.cells
  {
  }

  lemma TypeTableIndexes(reg: SchemaRegistry, s: Tables, t: DocumentType, published: bool)
    requires Wanted(reg, OfType(t, published))
    ensures TableIndexesHold(reg, s, OfType(t, published)) <==>
            forall k, o | k in CellsIn(s, published) && o in CellsIn(s, published) && k.typeId == o.typeId == t.id
                && k != o ::
              Compatible(RowLocks(s.live, t, published), t, CellsIn(s, published)[k], CellsIn(s, published)[o])
  {
    var i, rows, locked := OfType(t, published), CellsIn(s, published), RowLocks(s.live, t, published);
    assert locked == Locked(s.live, TableOf(reg, i).name);
    forall row ensures row in RowsOf(s, i) <==>
        row.TypeRow? && row.k.typeId == t.id && row.k in rows && rows[row.k] == row.cells {
      TypeRows(s, t, published, row);
    }
    hide RowsOf, CellsIn, TableOf, Wanted, RowLocks, Agree, Compatible;
    if TableIndexesHold(reg, s, i) {
      forall k, o | k in rows && o in rows && k.typeId == o.typeId == t.id && k != o
        ensures Compatible(locked, t, rows[k], rows[o])
      {
        assert TypeRow(k, rows[k]) in RowsOf(s, i) && TypeRow(o, rows[o]) in RowsOf(s, i);
        PairAgrees(locked, t, published, k, rows[k], o, rows[o]);
      }
    } else {
      var column :| column in locked && !UniqueIn(s, i, column);
      var a, b :| a in RowsOf(s, i) && b in RowsOf(s, i) && a != b && Agree(i, column, a, b);
      PairAgrees(locked, t, published, a.k, a.cells, b.k, b.cells);
      assert a.k != b.k;
    }
  }

  function LinksIn(s: Tables, published: bool): set<Store.Link> {
    if published then s.publishedLinks else s.draftLinks
  }

  lemma LinkTableIndexes(reg: SchemaRegistry, s: Tables, r: Relation, published: bool)
    requires Wanted(reg, OfRelation(r, published)) && OnlyAsked(reg, s.live)
    ensures TableIndexesHold(reg, s, OfRelation(r, published)) <==>
            (r in Locks(reg, s.live, published) ==>
               forall l, m | l in LinksIn(s, published) && m in LinksIn(s, published) && InTable(l, r) && InTable(m, r)
                             && l.owner == m.owner :: l == m)
  {
    var i := OfRelation(r, published);
    var table := TableOf(reg, i).name;
    assert r in Locks(reg, s.live, published) <==> "owner_id" in Locked(s.live, table);
    assert forall column | column in Locked(s.live, table) :: column == "owner_id";
    forall row
      ensures row in RowsOf(s, i) <==> row.LinkRow? && row.link in LinksIn(s, published) && InTable(row.link, r)
    {
    }
    hide RowsOf, LinksIn, TableOf, Wanted, Locks, InTable, OnlyAsked;
    if r in Locks(reg, s.live, published) {
      if TableIndexesHold(reg, s, i) {
        forall l, m | l in LinksIn(s, published) && m in LinksIn(s, published) && InTable(l, r) && InTable(m, r)
                      && l.owner == m.owner ensures l == m
        {
          assert LinkRow(l) in RowsOf(s, i) && LinkRow(m) in RowsOf(s, i);
          assert Agree(i, "owner_id", LinkRow(l), LinkRow(m));
        }
      } else {
        var a, b :| a in RowsOf(s, i) && b in RowsOf(s, i) && a != b && Agree(i, "owner_id", a, b);
        assert a.link != b.link;
      }
    }
  }

  lemma TypesFound(reg: SchemaRegistry, t: DocumentType)
    requires WellNamed(reg) && t in reg.types
    ensures reg.FindType(t.id) == Some(t)
  {
    FindTypeUnique(reg, t);
  }

  lemma RowIndexes(reg: SchemaRegistry, s: Tables, published: bool)
    requires WellNamed(reg) && StoreSchema.InKnownTables(reg, s)
    ensures StoreInvariants.RowsCompatible(reg, s.live, published, CellsIn(s, published)) <==>
            forall t | Wanted(reg, OfType(t, published)) :: TableIndexesHold(reg, s, OfType(t, published))
  {
    hide WellNamed, Compatible, RowLocks, TableIndexesHold, TableOf;
    forall k | k in CellsIn(s, published)
      ensures reg.FindType(k.typeId).Some? && Wanted(reg, OfType(reg.FindType(k.typeId).value, published))
    {
    }
    hide CellsIn, StoreSchema.InKnownTables;
    forall t | Wanted(reg, OfType(t, published))
      ensures reg.FindType(t.id) == Some(t)
      ensures TableIndexesHold(reg, s, OfType(t, published)) <==>
              forall k, o | k in CellsIn(s, published) && o in CellsIn(s, published) && k.typeId == o.typeId == t.id
                  && k != o ::
                Compatible(RowLocks(s.live, t, published), t, CellsIn(s, published)[k], CellsIn(s, published)[o])
    {
      TypesFound(reg, t);
      TypeTableIndexes(reg, s, t, published);
    }
    hide Wanted;
  }

  lemma LinkIndexes(reg: SchemaRegistry, s: Tables, published: bool)
    requires WellNamed(reg) && StoreSchema.InKnownTables(reg, s) && OnlyAsked(reg, s.live)
    ensures StoreInvariants.OneTarget(Locks(reg, s.live, published), LinksIn(s, published)) <==>
            forall r | Wanted(reg, OfRelation(r, published)) :: TableIndexesHold(reg, s, OfRelation(r, published))
  {
    hide WellNamed, TableIndexesHold, TableOf, OnlyAsked;
    forall r, l | r in Locks(reg, s.live, published) && l in LinksIn(s, published) && InTable(l, r)
      ensures Wanted(reg, OfRelation(r, published))
    {
    }
    hide StoreSchema.InKnownTables, LinksIn, Locks, InTable;
    forall r | Wanted(reg, OfRelation(r, published))
      ensures TableIndexesHold(reg, s, OfRelation(r, published)) <==>
              (r in Locks(reg, s.live, published) ==>
                 forall l, m | l in LinksIn(s, published) && m in LinksIn(s, published) && InTable(l, r)
                     && InTable(m, r)
                               && l.owner == m.owner :: l == m)
    {
      LinkTableIndexes(reg, s, r, published);
    }
    hide Wanted;
  }

  /** The constraints on rows are the unique indexes that are live, neither more nor less. */
  lemma RowConstraintsAreIndexes(reg: SchemaRegistry, s: Tables)
    requires WellNamed(reg) && StoreSchema.InKnownTables(reg, s) && OnlyAsked(reg, s.live)
    ensures RowConstraints(reg, s) <==> IndexesHold(reg, s)
  {
    RowIndexes(reg, s, false);
    RowIndexes(reg, s, true);
    LinkIndexes(reg, s, false);
    LinkIndexes(reg, s, true);
    hide WellNamed, StoreSchema.InKnownTables, OnlyAsked, TableIndexesHold, Wanted;
  }

  /** Every live unique index holds after any run of saves and deletes. */
  lemma IndexesAlwaysHold(reg: SchemaRegistry, mode: LinkFailure, s: Tables, cs: seq<StoreInvariants.Command>)
    requires WellNamed(reg) && (forall t | t in reg.types :: DistinctFields(t.fields)) && OnlyAsked(reg, s.live)
    requires StoreInvariants.Sound(reg, s)
    ensures IndexesHold(reg, StoreInvariants.Run(reg, mode, s, cs))
  {
    StoreSchema.WellNamedIsReady(reg);
    hide WellNamed, OnlyAsked, IndexesHold, StoreInvariants.Sound, RowConstraints, StoreReady;
    StoreInvariants.ReachableIsSound(reg, mode, s, cs);
    var after := StoreInvariants.Run(reg, mode, s, cs);
    StoreSchema.SoundIsInKnownTables(reg, after);
    SoundConstraints(reg, after);
    RowConstraintsAreIndexes(reg, after);
  }

  lemma SoundConstraints(reg: SchemaRegistry, s: Tables)
    requires StoreInvariants.Sound(reg, s)
    ensures RowConstraints(reg, s)
  {
    hide StoreInvariants.Intact, StoreInvariants.Agreement, StoreInvariants.RowsCompatible, StoreInvariants.OneTarget,
         Locks;
  }

  /** Indexes may go live, or go away, between two runs: the store stays sound exactly when its
      rows meet the new ones, and its published links stay among the working ones. */
  lemma NewIndexesKeepSound(reg: SchemaRegistry, s: Tables, live: set<Guard>)
    requires StoreInvariants.Sound(reg, s)
    ensures var u := s.(live := live);
            StoreInvariants.Sound(reg, u) <==>
            RowConstraints(reg, u)
            && forall l | l in s.publishedLinks && StoreInvariants.Followed(reg, live, l) :: l in s.draftLinks
  {
    hide StoreInvariants.RowsCompatible, StoreInvariants.OneTarget, StoreInvariants.Followed,
         StoreInvariants.RowHolds, StoreInvariants.DraftLinkHolds, StoreInvariants.Agreement, Locks;
    SameReferences(reg, s, live);
    hide StoreInvariants.Intact;
  }

  lemma SameReferences(reg: SchemaRegistry, s: Tables, live: set<Guard>)
    ensures StoreInvariants.Intact(reg, s) <==> StoreInvariants.Intact(reg, s.(live := live))
    ensures StoreInvariants.Agreement(reg, s) <==> StoreInvariants.Agreement(reg, s.(live := live))
  {
    hide HasMirror;
    forall l
      ensures StoreInvariants.PublishedLinkHolds(reg, s, l) <==>
              StoreInvariants.PublishedLinkHolds(reg, s.(live := live), l)
    {
    }
  }

  // ----- which indexes are live ---------------------------------------------------------------------

  /** The unique indexes on one column that a database has. */
  ghost function GuardsOf(db: Catalog): set<Guard> {
    set n, c | n in db.indexes && c in db.indexes[n].columns
        && db.indexes[n] == LiveIndex(db.indexes[n].table, {c}, true) ::
      Guard(db.indexes[n].table, c)
  }

  lemma LockedByIndex(db: Catalog, table: string, column: string)
    ensures column in Locked(GuardsOf(db), table) <==>
            exists n :: n in db.indexes && db.indexes[n] == LiveIndex(table, {column}, true)
  {
    if column in Locked(GuardsOf(db), table) {
      assert Guard(table, column) in GuardsOf(db);
    }
    if n :| n in db.indexes && db.indexes[n] == LiveIndex(table, {column}, true) {
      assert column in db.indexes[n].columns;
      assert Guard(table, column) in GuardsOf(db);
      assert Guard(table, column).column in Locked(GuardsOf(db), table);
    }
  }

  /** A table that a sync creates, whether or not the sync completes, has no index after it. */
  lemma NewTableHasNoIndex(db: Catalog, desired: DatabaseSchema, plan: seq<MigrationStep>, table: string)
    requires db.Valid() && SyncPlan(db, desired, plan) && table !in db.tables
    ensures forall n | n in Run(db, plan).db.indexes :: Run(db, plan).db.indexes[n].table != table
    ensures Locked(GuardsOf(Run(db, plan).db), table) == {}
  {
    forall x | x in plan && x.CreateIndex? ensures x.index.tableName != table {
      assert x == CreateIndex(x.index) && Needed(x, db, desired);
    }
    hide SyncPlan;
    NoIndexOn(db, plan, table);
    forall column ensures column !in Locked(GuardsOf(Run(db, plan).db), table) {
      LockedByIndex(Run(db, plan).db, table, column);
    }
  }

  /** The index is the one that the table asks for under that name. */
  ghost predicate AskedAs(reg: SchemaRegistry, i: Item, n: string, index: LiveIndex)
    requires Wanted(reg, i)
  {
    exists x :: x in TableOf(reg, i).indexes && x.name == n && index == StepEffects.Live(x)
  }

  /** Every index on a table of the schema is one that the table asks for. */
  ghost predicate IndexesAsked(reg: SchemaRegistry, db: Catalog) {
    forall i, n | Wanted(reg, i) && n in db.indexes && db.indexes[n].table == TableOf(reg, i).name ::
      AskedAs(reg, i, n, db.indexes[n])
  }

  lemma MoreFields(table: string, singleton: bool, fs: seq<FieldDefinition>, gs: seq<FieldDefinition>,
                   x: IndexDefinition)
    ensures TypeIndex(table, singleton, fs, x) || TypeIndex(table, singleton, gs, x) ==>
            TypeIndex(table, true, fs + gs, x)
  {
    hide Builder.UniqueIndex, Builder.SingletonIndexes;
  }

  lemma SameSort(r0: SchemaRegistry, i: Item, r1: SchemaRegistry, j: Item)
    requires WellNamed(r0) && WellNamed(r1) && Wanted(r0, i) && Wanted(r1, j)
             && TableOf(r0, i).name == TableOf(r1, j).name
    ensures i.OfType? <==> j.OfType?
  {
    Upgrade.SameRole(r0, i, r1, j);
    hide TableOf, WellNamed;
  }

  /** Under one name in one table two registries mean one index. */
  lemma SameNameSameDefinition(r0: SchemaRegistry, i: Item, r1: SchemaRegistry, j: Item, x: IndexDefinition,
                               y: IndexDefinition)
    requires WellNamed(r0) && WellNamed(r1) && Wanted(r0, i) && Wanted(r1, j)
             && TableOf(r0, i).name == TableOf(r1, j).name
    requires x in TableOf(r0, i).indexes && y in TableOf(r1, j).indexes && x.name == y.name
    ensures x == y
  {
    hide TableOf, Wanted, WellNamed, TypeIndex;
    var table := TableOf(r0, i).name;
    SameSort(r0, i, r1, j);
    IndexesAre(r0, i, x);
    IndexesAre(r1, j, y);
    if i.OfType? {
      MoreFields(table, i.t.kind.SingleType?, i.t.fields, j.t.fields, x);
      MoreFields(table, j.t.kind.SingleType?, i.t.fields, j.t.fields, y);
      SameNameSameIndex(table, true, i.t.fields + j.t.fields, x, y);
    } else {
      assert LinkOwnerIndexName(table)[0] == 'u' && LinkTargetIndexName(table)[0] == 'i';
    }
  }

  /** No unique attribute has a column whose index introspection passes over. */
  ghost predicate IndexesShow(reg: SchemaRegistry) {
    forall t, f | t in reg.types && f in t.fields && f.unique :: !ReservedColumn(KebabToSnake(f.id))
  }

  lemma AskedIndexShows(reg: SchemaRegistry, i: Item, x: IndexDefinition)
    requires IndexesShow(reg) && Wanted(reg, i) && x in TableOf(reg, i).indexes
    ensures !EndsWith(x.name, PKEY)
  {
    HiddenAttributes(reg);
  }

  /** A completed sync to a further release leaves no index that the release does not ask
      for. */
  lemma SyncKeepsIndexesAsked(r0: SchemaRegistry, s0: DatabaseSchema, r1: SchemaRegistry, s1: DatabaseSchema,
                              db: Catalog, plan: seq<MigrationStep>)
    requires BuiltFrom(r0, s0) && Upgrade.Realises(db, s0) && db.Valid() && IndexesAsked(r0, db) && IndexesShow(r0)
    requires BuiltFrom(r1, s1) && TableNames(s1) !! SYSTEM_TABLES && SyncPlan(db, s1, plan) && Run(db, plan).ok
    ensures IndexesAsked(r1, Run(db, plan).db)
  {
    var after := Run(db, plan).db;
    BuiltWellFormed(r1, s1);
    hide TableOf, Wanted, WellNamed, SyncPlan, Made, IndexesShow, Survives, Needed, Upgrade.Realises, AskedAs,
         IndexesAsked;
    forall i, n | Wanted(r1, i) && n in after.indexes && after.indexes[n].table == TableOf(r1, i).name
      ensures AskedAs(r1, i, n, after.indexes[n])
    {
      IndexOrigin(db, s1, plan, n);
      NewIndexAsked(r1, s1, db, i, n, after.indexes[n]);
      if n in db.indexes && Survives(db, plan, n) && after.indexes[n] == db.indexes[n] {
        OldIndexAsked(r0, s0, r1, s1, db, plan, i, n);
      }
    }
  }

  lemma NewIndexAsked(r1: SchemaRegistry, s1: DatabaseSchema, db: Catalog, i: Item, n: string, index: LiveIndex)
    requires BuiltFrom(r1, s1) && Wanted(r1, i) && index.table == TableOf(r1, i).name
    ensures (exists x: IndexDefinition ::
               Needed(CreateIndex(x), db, s1) && x.name == n && x.tableName == index.table
                   && index == StepEffects.Live(x))
            ==> AskedAs(r1, i, n, index)
  {
    hide TableOf, Wanted, WellNamed, Made;
    BuiltTable(r1, s1, i);
  }

  lemma OldIndexAsked(r0: SchemaRegistry, s0: DatabaseSchema, r1: SchemaRegistry, s1: DatabaseSchema,
                      db: Catalog, plan: seq<MigrationStep>, i: Item, n: string)
    requires BuiltFrom(r0, s0) && Upgrade.Realises(db, s0) && db.Valid() && IndexesAsked(r0, db) && IndexesShow(r0)
    requires BuiltFrom(r1, s1) && TableNames(s1) !! SYSTEM_TABLES && SyncPlan(db, s1, plan)
    requires Wanted(r1, i) && n in db.indexes && Survives(db, plan, n) && db.indexes[n].table == TableOf(r1, i).name
    ensures AskedAs(r1, i, n, db.indexes[n])
  {
    hide TableOf, Wanted, WellNamed, Made, IndexesShow;
    var t := db.indexes[n].table;
    BuiltTable(r1, s1, i);
    assert t in Managed(db);
    var i0 := Upgrade.ItemOfName(r0, s0, t);
    assert AskedAs(r0, i0, n, db.indexes[n]);
    var x :| x in TableOf(r0, i0).indexes && x.name == n && db.indexes[n] == StepEffects.Live(x);
    AskedIndexShows(r0, i0, x);
    assert n in VisibleIndexes(db, t);
    assert DropIndex(n, t) in plan ==> n in DropIndexNames(plan);
    assert n in IndexNames(TableOf(r1, i));
    var y :| y in TableOf(r1, i).indexes && y.name == n;
    SameNameSameDefinition(r0, i0, r1, i, x, y);
  }

  lemma AskedIsOnlyAsked(reg: SchemaRegistry, db: Catalog)
    requires IndexesAsked(reg, db)
    ensures OnlyAsked(reg, GuardsOf(db))
  {
    hide TableOf, Wanted, GuardsOf, Asks;
    forall i, column | Wanted(reg, i) && column in Locked(GuardsOf(db), TableOf(reg, i).name) ensures Asks(i, column) {
      LockedByIndex(db, TableOf(reg, i).name, column);
      var n :| n in db.indexes && db.indexes[n] == LiveIndex(TableOf(reg, i).name, {column}, true);
      assert AskedAs(reg, i, n, db.indexes[n]);
      var x :| x in TableOf(reg, i).indexes && x.name == n && db.indexes[n] == StepEffects.Live(x);
      AsksByIndex(reg, i, column);
      OneColumn(x, column);
    }
  }

  lemma OneColumn(x: IndexDefinition, column: string)
    requires x.unique && |x.columns| == 1
    ensures ToSet(x.columns) == {column} <==> UniqueOn(x, column)
  {
    assert x.columns == [x.columns[0]];
    assert ToSet(x.columns) == {x.columns[0]};
  }

  /** The releases whose indexes all show in an introspection. */
  ghost predicate AllShow(current: Upgrade.Release, next: seq<Upgrade.Release>) {
    IndexesShow(current.reg) && forall r | r in next :: IndexesShow(r.reg)
  }

  /** Over any history of releases no index stays that the last release does not ask for, so
      no column is locked that it does not want to be unique. */
  lemma {:induction false} IndexesOverReleases(db: Catalog, current: Upgrade.Release, next: seq<Upgrade.Release>)
    requires Upgrade.Sound(current) && Upgrade.Realises(db, current.schema) && Upgrade.History(db, current, next)
    requires db.Valid() && IndexesAsked(current.reg, db) && AllShow(current, next)
    ensures var last, after := if next == [] then current else next[|next| - 1], Upgrade.DatabaseAfter(db, next);
            IndexesAsked(last.reg, after) && OnlyAsked(last.reg, GuardsOf(after))
    decreases |next|
  {
    hide BuiltFrom, Upgrade.KindsReadable, Upgrade.Realises, SyncPlan, Upgrade.SameForeignKeys, IndexesAsked,
         OnlyAsked, IndexesShow, GuardsOf;
    if next == [] {
      AskedIsOnlyAsked(current.reg, db);
    } else {
      var r := next[0];
      assert forall x | x in next[1..] :: x in next;
      Upgrade.SameForeignKeysKeepTargets(r.reg, current.schema, r.schema);
      Upgrade.UpgradeCompletes(current.reg, current.schema, r.reg, r.schema, db, r.plan);
      Upgrade.UpgradeRealises(current.reg, current.schema, r.reg, r.schema, db, r.plan);
      SyncKeepsIndexesAsked(current.reg, current.schema, r.reg, r.schema, db, r.plan);
      RunValid(db, r.plan);
      IndexesOverReleases(Run(db, r.plan).db, r, next[1..]);
    }
  }

  /** In a settled database exactly the columns that the schema wants unique are locked. */
  lemma SettledLocksExactly(reg: SchemaRegistry, s: DatabaseSchema, db: Catalog, i: Item, column: string)
    requires BuiltFrom(reg, s) && IndexesAsked(reg, db) && Settled(db, s) && Wanted(reg, i)
    ensures column in Locked(GuardsOf(db), TableOf(reg, i).name) <==> Asks(i, column)
  {
    AskedIsOnlyAsked(reg, db);
    hide TableOf, Wanted, WellNamed, Made, GuardsOf, Asks, OnlyAsked;
    if Asks(i, column) {
      AsksByIndex(reg, i, column);
      var x :| x in TableOf(reg, i).indexes && UniqueOn(x, column);
      BuiltTable(reg, s, i);
      assert x.name in VisibleIndexes(db, TableOf(reg, i).name);
      assert AskedAs(reg, i, x.name, db.indexes[x.name]);
      var y :| y in TableOf(reg, i).indexes && y.name == x.name && db.indexes[x.name] == StepEffects.Live(y);
      IndexByName(reg, i, x, y);
      OneColumn(x, column);
      LockedByIndex(db, TableOf(reg, i).name, column);
    }
  }

  /** A database without managed tables, to be brought up to the first release, whose column
      types it takes. */
  ghost predicate Fresh(db: Catalog, r: Upgrade.Release) {
    && Upgrade.Sound(r) && Upgrade.TypesTaken(r.schema)
    && Managed(db) == {} && Upgrade.SystemApart(db) && db.Valid() && SyncPlan(db, r.schema, r.plan)
  }

  lemma FreshTables(db: Catalog, r: Upgrade.Release, i: Item)
    requires Fresh(db, r) && Wanted(r.reg, i)
    ensures TableOf(r.reg, i).name !in db.tables
  {
    hide TableOf, Wanted, WellNamed, Made, SyncPlan;
    BuiltTable(r.reg, r.schema, i);
    assert TableOf(r.reg, i).name !in Managed(db);
  }

  /** After the first sync nothing is locked: no row is refused for another row's sake, and a
      has-one relation keeps every target. */
  lemma FirstSyncLocksNothing(db: Catalog, r: Upgrade.Release)
    requires Fresh(db, r)
    ensures var live := GuardsOf(Run(db, r.plan).db);
            && (forall i | Wanted(r.reg, i) :: Locked(live, TableOf(r.reg, i).name) == {})
            && Locks(r.reg, live, false) == {}
            && (forall t | t in r.reg.types ::
                RowLocks(live, t, false) == {} && (t.draftAndPublish ==> RowLocks(live, t, true) == {}))
            && forall x | x in Locks(r.reg, live, true) :: !HasMirror(r.reg, x.ownerType)
    ensures IndexesAsked(r.reg, Run(db, r.plan).db)
  {
    var live := GuardsOf(Run(db, r.plan).db);
    hide TableOf, Wanted, GuardsOf, Upgrade.Sound, SyncPlan, Upgrade.SystemApart, AskedAs;
    forall i | Wanted(r.reg, i)
      ensures Locked(live, TableOf(r.reg, i).name) == {}
      ensures forall n | n in Run(db, r.plan).db.indexes ::
              Run(db, r.plan).db.indexes[n].table != TableOf(r.reg, i).name
    {
      FreshTables(db, r, i);
      NewTableHasNoIndex(db, r.schema, r.plan, TableOf(r.reg, i).name);
    }
    forall t, published | t in r.reg.types && (published ==> t.draftAndPublish)
      ensures RowLocks(live, t, published) == {}
    {
      TypeTable(r.reg, t, published);
    }
    forall x, published | x in r.reg.relations && x in Locks(r.reg, live, published)
      ensures published && !HasMirror(r.reg, x.ownerType)
    {
      RelationTable(r.reg, x, published);
    }
  }

  lemma TypeTable(reg: SchemaRegistry, t: DocumentType, published: bool)
    requires t in reg.types && (published ==> t.draftAndPublish)
    ensures Wanted(reg, OfType(t, published))
    ensures TableOf(reg, OfType(t, published)).name
            == if published then PublishedTableName(t.TableName()) else t.TableName()
  {
  }

  lemma RelationTable(reg: SchemaRegistry, r: Relation, published: bool)
    requires r in reg.relations && reg.FindType(r.ownerType).Some?
    ensures Wanted(reg, OfRelation(r, published)) <==> (published ==> HasMirror(reg, r.ownerType))
    ensures Wanted(reg, OfRelation(r, published)) ==>
              TableOf(reg, OfRelation(r, published)).name == LinkTable(reg.FindType(r.ownerType).value, r, published)
  {
  }

  /** After two syncs everything is locked that the schema wants unique, if its names are
      attainable: singletons, unique attributes, the owners of has-one relations. */
  lemma SecondSyncLocksAll(db: Catalog, r: Upgrade.Release, plan: seq<MigrationStep>)
    requires Fresh(db, r) && SyncPlan(Run(db, r.plan).db, r.schema, plan) && Attainable(db, r.schema)
    ensures Run(Run(db, r.plan).db, plan).ok
    ensures var live := GuardsOf(Run(Run(db, r.plan).db, plan).db);
            && (forall i, column | Wanted(r.reg, i) ::
                  column in Locked(live, TableOf(r.reg, i).name) <==> Asks(i, column))
            && (forall t, column | t in r.reg.types :: column in RowLocks(live, t, false) <==>
                Asks(OfType(t, false), column))
            && (forall x | x in r.reg.relations && r.reg.FindType(x.ownerType).Some? ::
                  x in Locks(r.reg, live, false) <==> x.ownerKind.HasOne?)
  {
    var mid := Run(db, r.plan).db;
    var after := Run(mid, plan).db;
    var live := GuardsOf(after);
    hide TableOf, Wanted, GuardsOf, SyncPlan, AskedAs, IndexesAsked, BuiltFrom, WellNamed, Upgrade.KindsReadable,
         Settled, Upgrade.Realises, Upgrade.SystemApart;
    Upgrade.FirstRelease(db, r);
    BuiltWellFormed(r.reg, r.schema);
    TwoSyncFixpoint(db, r.schema, r.plan, plan);
    AttainableIffReachable(r.reg, r.schema, db);
    FirstSyncLocksNothing(db, r);
    RunValid(db, r.plan);
    SyncKeepsIndexesAsked(r.reg, r.schema, r.reg, r.schema, mid, plan);
    hide Attainable, NamesReachable, Run, Fresh, Asks;
    forall i, column | Wanted(r.reg, i)
      ensures column in Locked(live, TableOf(r.reg, i).name) <==> Asks(i, column)
    {
      SettledLocksExactly(r.reg, r.schema, after, i, column);
    }
    WorkingLocks(r.reg, live);
  }

  lemma WorkingLocks(reg: SchemaRegistry, live: set<Guard>)
    requires forall i, column | Wanted(reg, i) :: column in Locked(live, TableOf(reg, i).name) <==> Asks(i, column)
    ensures forall t, column | t in reg.types :: column in RowLocks(live, t, false) <==> Asks(OfType(t, false), column)
    ensures forall x | x in reg.relations && reg.FindType(x.ownerType).Some? ::
              x in Locks(reg, live, false) <==> x.ownerKind.HasOne?
  {
    hide TableOf, Wanted, Asks;
    forall t, column | t in reg.types ensures column in RowLocks(live, t, false) <==> Asks(OfType(t, false), column) {
      TypeTable(reg, t, false);
    }
    forall x | x in reg.relations && reg.FindType(x.ownerType).Some?
      ensures x in Locks(reg, live, false) <==> x.ownerKind.HasOne?
    {
      RelationTable(reg, x, false);
      OwnerAsked(x);
    }
  }

  lemma OwnerAsked(x: Relation)
    ensures Asks(OfRelation(x, false), "owner_id") <==> x.ownerKind.HasOne?
  {
  }

  // ----- what that means for documents ------------------------------------------------------------

  ghost predicate TargetsThere(reg: SchemaRegistry, s: Tables, d: Instance.Document) {
    forall r, t | r in reg.relations && r.ownerType == d.typeId && t in Instance.TargetsOf(d.relations, r.ownerAttr) ::
      Key(r.targetType, t) in s.entities || Key(r.targetType, t) == KeyOf(d)
  }

  /** The document is to be published, and so are not all its targets. */
  ghost predicate Stranded(reg: SchemaRegistry, s: Tables, d: Instance.Document, cells: Cells) {
    ReadBack.Publishes(reg, d) &&
    exists i | 0 <= i < |reg.relations| ::
      StoreInvariants.Fails(reg, WithMirror(StoreInvariants.AfterWorkingPart(reg, s, d, cells), d, cells),
                            reg.relations[i], d)
  }

  /** The links of the last relation of the type, and only those, cannot be published. */
  ghost predicate OnlyLastFails(reg: SchemaRegistry, s: Tables, d: Instance.Document, cells: Cells) {
    d.state.Published? &&
    exists i :: StoreInvariants.FailsFirstAndLast(
                  reg, WithMirror(StoreInvariants.AfterWorkingPart(reg, s, d, cells), d, cells), reg.relations, d, i)
  }

  /** After one sync of a fresh database a document whose attributes are stored and whose
      targets exist is stored whatever other rows there are: a second document of a singleton
      type, one with a unique value that is taken, one with two targets of a has-one
      relation. What can still keep it out is a target without a mirror row, where a failed
      statement aborts the transaction; the save then reports success exactly when the links
      of the last relation, and only those, fail. */
  lemma FirstSyncRefusesNoRow(db: Catalog, r: Upgrade.Release, mode: LinkFailure, s: Tables, dt: DocumentType,
                              d: Instance.Document, cells: Cells)
    requires Fresh(db, r) && (forall t | t in r.reg.types :: DistinctFields(t.fields))
    requires s.live == GuardsOf(Run(db, r.plan).db) && StoreInvariants.Sound(r.reg, s)
    requires r.reg.FindType(d.typeId) == Some(dt) && CellsOf(dt.fields, d.fields) == Ok(cells) && NotNull(dt, cells)
    requires TargetsThere(r.reg, s, d)
    ensures var saved := Save(r.reg, mode, s, d);
            if mode.Abort? && Stranded(r.reg, s, d, cells) then
              saved.tables == s && (saved.result.Ok? <==> OnlyLastFails(r.reg, s, d, cells))
            else
              saved.result.Ok? && ReadBack.Took(r.reg, s, d, saved.tables)
  {
    assert WellNamed(r.reg);
    hide Fresh, GuardsOf, StoreInvariants.Sound, StoreReady, WellNamed, CellsOf, NotNull, Save, RowLocks, Locks,
         TargetsThere, ReadBack.Acceptable, ReadBack.MirrorAccepts, ReadBack.Took, ReadBack.Publishes, Stranded,
         OnlyLastFails;
    FirstSyncLocksNothing(db, r);
    StoreSchema.WellNamedIsReady(r.reg);
    Unconstrained(r.reg, s, dt, d, cells);
    if ReadBack.Publishes(r.reg, d) {
      MirrorUnconstrained(r.reg, s, dt, d, cells);
      if mode.Abort? {
        AbortingUnconstrained(r.reg, s, dt, d, cells);
      }
    } else {
      WhatIsSaved.AcceptedInBothModes(r.reg, s, dt, d, cells, mode);
    }
    ReadBack.AcceptedSave(r.reg, s, dt, d, cells);
    ReadBack.SaveTakes(r.reg, Skip, s, d);
  }

  lemma AbortingUnconstrained(reg: SchemaRegistry, s: Tables, dt: DocumentType, d: Instance.Document, cells: Cells)
    requires ReadBack.Acceptable(reg, s, dt, d, cells) && ReadBack.Publishes(reg, d)
    requires ReadBack.MirrorAccepts(s, dt, d, cells)
    ensures var saved := Save(reg, Abort, s, d);
            if Stranded(reg, s, d, cells) then
              saved.tables == s && (saved.result.Ok? <==> OnlyLastFails(reg, s, d, cells))
            else
              saved.result.Ok? && ReadBack.Took(reg, s, d, saved.tables)
  {
    hide ReadBack.Acceptable, ReadBack.MirrorAccepts, Save, ReadBack.Took, WithMirror, StoreInvariants.AfterWorkingPart,
         StoreInvariants.Fails, StoreInvariants.FailsFirstAndLast;
    ReadBack.AbortingPublication(reg, s, dt, d, cells);
  }

  lemma MirrorUnconstrained(reg: SchemaRegistry, s: Tables, dt: DocumentType, d: Instance.Document, cells: Cells)
    requires ReadBack.Publishes(reg, d) && reg.FindType(d.typeId) == Some(dt) && NotNull(dt, cells)
    requires dt.draftAndPublish ==> RowLocks(s.live, dt, true) == {}
    ensures ReadBack.MirrorAccepts(s, dt, d, cells)
  {
    hide NotNull, RowLocks;
  }

  lemma Unconstrained(reg: SchemaRegistry, s: Tables, dt: DocumentType, d: Instance.Document, cells: Cells)
    requires Locks(reg, s.live, false) == {} && RowLocks(s.live, dt, false) == {}
    requires reg.FindType(d.typeId) == Some(dt) && CellsOf(dt.fields, d.fields) == Ok(cells) && NotNull(dt, cells)
    requires TargetsThere(reg, s, d)
    ensures ReadBack.Acceptable(reg, s, dt, d, cells)
  {
    hide CellsOf, NotNull, RowLocks, Locks;
  }

  /** After two syncs a second document of a singleton type is refused and changes nothing. */
  lemma SecondSyncRefusesSingleton(db: Catalog, r: Upgrade.Release, plan: seq<MigrationStep>, mode: LinkFailure,
                                   s: Tables, dt: DocumentType, d: Instance.Document, o: Key)
    requires Fresh(db, r) && SyncPlan(Run(db, r.plan).db, r.schema, plan) && Attainable(db, r.schema)
    requires s.live == GuardsOf(Run(Run(db, r.plan).db, plan).db)
    requires r.reg.FindType(d.typeId) == Some(dt) && dt.kind.SingleType?
    requires o in s.entities && o.typeId == d.typeId && o != KeyOf(d)
    ensures Save(r.reg, mode, s, d).result.Err? && Save(r.reg, mode, s, d).tables == s
  {
    SecondSyncLocksAll(db, r, plan);
    assert Asks(OfType(dt, false), SINGLETON_COLUMN);
    hide Fresh, GuardsOf, Save, RowLocks, CellsOf, Attainable, SyncPlan, Asks;
    StoreInvariants.RefusedRow(r.reg, mode, s, dt, d, o);
  }
}
