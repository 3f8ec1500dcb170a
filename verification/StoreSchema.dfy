/** The store's references are the foreign keys of the schema that the builder makes. */
module StoreSchema {
  import opened Wrappers
  import opened SchemaAst
  import opened DomainSchema
  import opened Instance
  import opened Builder
  import opened BuiltSchema
  import opened DocumentStore
  import opened StoreInvariants

  /** What the foreign keys see of a row: an id, or the two ends of a link. */
  datatype Row = IdRow(id: DocumentId) | PairRow(owner: DocumentId, target: DocumentId)

  function ColumnValue(row: Row, column: string): Option<DocumentId> {
    match row
    case IdRow(id) => if column == "id" then Some(id) else None
    case PairRow(owner, target) =>
      if column == "owner_id" then Some(owner) else if column == "target_id" then Some(target) else None
  }

  /** The rows of one table of the schema. */
  function Rows(s: Tables, i: Item): set<Row> {
    match i
    case OfType(t, false) => set k | k in s.entities && k.typeId == t.id :: IdRow(k.id)
    case OfType(t, true) => set k | k in s.mirrors && k.typeId == t.id :: IdRow(k.id)
    case OfRelation(r, false) => set l | l in s.draftLinks && InTable(l, r) :: PairRow(l.owner, l.target)
    case OfRelation(r, true) => set l | l in s.publishedLinks && InTable(l, r) :: PairRow(l.owner, l.target)
  }

  ghost predicate KeyHolds(reg: SchemaRegistry, s: Tables, fk: ForeignKeyDefinition, row: Row) {
    exists j, other :: Wanted(reg, j) && TableOf(reg, j).name == fk.referencedTable && other in Rows(s, j)
                       && |fk.columns| == 1 == |fk.referencedColumns|
                       && ColumnValue(row, fk.columns[0]).Some?
                       && ColumnValue(row, fk.columns[0]) == ColumnValue(other, fk.referencedColumns[0])
  }

  ghost predicate TableKeysHold(reg: SchemaRegistry, s: Tables, i: Item)
    requires Wanted(reg, i)
  {
    forall fk, row | fk in TableOf(reg, i).foreignKeys && row in Rows(s, i) :: KeyHolds(reg, s, fk, row)
  }

  ghost predicate ForeignKeysHold(reg: SchemaRegistry, s: Tables) {
    forall i | Wanted(reg, i) :: TableKeysHold(reg, s, i)
  }

  /** Every row is in a table that exists. */
  ghost predicate InKnownTables(reg: SchemaRegistry, s: Tables) {
    && (forall k | k in s.entities :: reg.FindType(k.typeId).Some?)
    && (forall k | k in s.mirrors :: HasMirror(reg, k.typeId))
    && (forall l | l in s.draftLinks :: TargetType(reg, l).Some?)
    && (forall l | l in s.publishedLinks :: TargetType(reg, l).Some? && HasMirror(reg, l.ownerType))
  }

  // ----- one reference ------------------------------------------------------------------------

  ghost predicate LinkReaches(s: Tables, j: Item, id: DocumentId) { IdRow(id) in Rows(s, j) }

  /** A reference to the table of `j` by id holds exactly when `j` has a row with that id. */
  lemma ReferenceHolds(reg: SchemaRegistry, s: Tables, name: string, column: string, j: Item, row: Row)
    requires WellNamed(reg) && Wanted(reg, j) && j.OfType? && ColumnValue(row, column).Some?
    ensures KeyHolds(reg, s, References(name, column, TableOf(reg, j).name), row) <==>
            LinkReaches(s, j, ColumnValue(row, column).value)
  {
    hide WellNamed, TableOf, Rows, Wanted;
    var fk := References(name, column, TableOf(reg, j).name);
    if KeyHolds(reg, s, fk, row) {
      var x, other :| Wanted(reg, x) && TableOf(reg, x).name == fk.referencedTable && other in Rows(s, x)
                      && ColumnValue(row, fk.columns[0]) == ColumnValue(other, fk.referencedColumns[0]);
      NamesAreDistinct(reg, x, j);
      assert other == IdRow(ColumnValue(row, column).value);
    }
    var there := IdRow(ColumnValue(row, column).value);
    assert ColumnValue(there, "id") == ColumnValue(row, column);
    if there in Rows(s, j) {
      assert TableOf(reg, j).name == fk.referencedTable && ColumnValue(there, fk.referencedColumns[0]).Some?;
    }
  }

  lemma TypeOfKey(reg: SchemaRegistry, id: DocumentTypeId)
    requires reg.FindType(id).Some?
    ensures Wanted(reg, OfType(reg.FindType(id).value, false))
    ensures HasMirror(reg, id) <==> Wanted(reg, OfType(reg.FindType(id).value, true))
  {
  }

  // ----- one table ------------------------------------------------------------------------------

  lemma MirrorKeys(reg: SchemaRegistry, s: Tables, t: DocumentType)
    requires WellNamed(reg) && Wanted(reg, OfType(t, true))
    ensures TableKeysHold(reg, s, OfType(t, true)) <==>
            forall k | k in s.mirrors && k.typeId == t.id :: k in s.entities
  {
    var i, j := OfType(t, true), OfType(t, false);
    var table := Naming.PublishedTableName(t.TableName());
    var fk := References(Naming.PublishedFkName(table), "id", t.TableName());
    assert TableOf(reg, i).foreignKeys == [fk] && TableOf(reg, j).name == t.TableName();
    forall row | row in Rows(s, i) ensures KeyHolds(reg, s, fk, row) <==> row in Rows(s, j) {
      ReferenceHolds(reg, s, fk.name, "id", j, row);
    }
    hide KeyHolds, WellNamed, Wanted, TableOf;
    forall k | k in s.mirrors && k.typeId == t.id ensures k in s.entities <==> IdRow(k.id) in Rows(s, j) {
      assert k in s.entities ==> IdRow(k.id) in Rows(s, j);
      if IdRow(k.id) in Rows(s, j) {
        var o :| o in s.entities && o.typeId == t.id && IdRow(o.id) == IdRow(k.id);
        assert o == k;
      }
    }
    assert forall k | k in s.mirrors && k.typeId == t.id :: IdRow(k.id) in Rows(s, i);
  }

  lemma RowOfType(reg: SchemaRegistry, s: Tables, t: DocumentType, id: DocumentId)
    ensures LinkReaches(s, OfType(t, false), id) <==> Key(t.id, id) in s.entities
    ensures LinkReaches(s, OfType(t, true), id) <==> Key(t.id, id) in s.mirrors
  {
    assert forall k: Key :: k.typeId == t.id && k.id == id ==> k == Key(t.id, id);
    if Key(t.id, id) in s.entities {
      assert IdRow(Key(t.id, id).id) in Rows(s, OfType(t, false));
    }
    if Key(t.id, id) in s.mirrors {
      assert IdRow(Key(t.id, id).id) in Rows(s, OfType(t, true));
    }
  }

  function End(row: Row, column: string): DocumentId {
    match row
    case IdRow(id) => id
    case PairRow(owner, target) => if column == "owner_id" then owner else target
  }

  lemma EndHolds(reg: SchemaRegistry, s: Tables, i: Item, name: string, column: string, j: Item)
    requires WellNamed(reg) && Wanted(reg, j) && j.OfType? && i.OfRelation? && column in {"owner_id", "target_id"}
    ensures forall row | row in Rows(s, i) ::
              KeyHolds(reg, s, References(name, column, TableOf(reg, j).name), row) <==>
                  LinkReaches(s, j, End(row, column))
  {
    assert forall row | row in Rows(s, i) :: row.PairRow?;
    hide WellNamed, Wanted, TableOf, Rows, KeyHolds, LinkReaches;
    forall row | row in Rows(s, i)
      ensures KeyHolds(reg, s, References(name, column, TableOf(reg, j).name), row) <==>
              LinkReaches(s, j, End(row, column))
    {
      ReferenceHolds(reg, s, name, column, j, row);
    }
  }

  lemma TwoKeys(reg: SchemaRegistry, s: Tables, i: Item, own: ForeignKeyDefinition, far: ForeignKeyDefinition)
    requires Wanted(reg, i) && TableOf(reg, i).foreignKeys == [own, far]
    ensures TableKeysHold(reg, s, i) <==>
            forall row | row in Rows(s, i) :: KeyHolds(reg, s, own, row) && KeyHolds(reg, s, far, row)
  {
    hide KeyHolds, TableOf, Rows;
    assert own in TableOf(reg, i).foreignKeys && far in TableOf(reg, i).foreignKeys;
  }

  ghost predicate EndsReach(s: Tables, i: Item, owner: Item, target: Item) {
    forall row | row in Rows(s, i) ::
      LinkReaches(s, owner, End(row, "owner_id")) && LinkReaches(s, target, End(row, "target_id"))
  }

  lemma OverDraftLinks(s: Tables, r: Relation, owner: Item, target: Item)
    ensures EndsReach(s, OfRelation(r, false), owner, target) <==>
            forall l | l in s.draftLinks && InTable(l, r) ::
                LinkReaches(s, owner, l.owner) && LinkReaches(s, target, l.target)
  {
    hide LinkReaches;
    assert forall l | l in s.draftLinks && InTable(l, r) :: PairRow(l.owner, l.target) in Rows(s, OfRelation(r, false));
  }

  lemma OverPublishedLinks(s: Tables, r: Relation, owner: Item, target: Item)
    ensures EndsReach(s, OfRelation(r, true), owner, target) <==>
            forall l | l in s.publishedLinks && InTable(l, r) ::
                LinkReaches(s, owner, l.owner) && LinkReaches(s, target, l.target)
  {
    hide LinkReaches;
    assert forall l | l in s.publishedLinks && InTable(l, r) ::
      PairRow(l.owner, l.target) in Rows(s, OfRelation(r, true));
  }

  /** The keys of a link table hold exactly when its two ends reach these tables. */
  lemma LinkTableKeys(reg: SchemaRegistry, s: Tables, i: Item, owner: Item, target: Item)
    requires WellNamed(reg) && Wanted(reg, i) && i.OfRelation?
    requires owner == Target(reg, i, "owner_id") && target == Target(reg, i, "target_id")
    ensures TableKeysHold(reg, s, i) <==> EndsReach(s, i, owner, target)
  {
    LinkForeignKeys(reg, i);
    var table := TableOf(reg, i).name;
    hide WellNamed, Wanted, TableOf, Rows, KeyHolds, LinkReaches, TableKeysHold, References, End, Target;
    EndHolds(reg, s, i, Naming.LinkOwnerFkName(table), "owner_id", owner);
    EndHolds(reg, s, i, Naming.LinkTargetFkName(table), "target_id", target);
    TwoKeys(reg, s, i, TableOf(reg, i).foreignKeys[0], TableOf(reg, i).foreignKeys[1]);
  }

  /** The tables the two ends of a link table refer to. */
  function OwnerEnd(reg: SchemaRegistry, i: Item): Item
    requires i.OfRelation? && reg.FindType(i.r.ownerType).Some?
  {
    OfType(Owner(reg, i.r), i.published)
  }

  function TargetEnd(reg: SchemaRegistry, i: Item): Item
    requires i.OfRelation? && reg.FindType(i.r.targetType).Some?
  {
    OfType(reg.FindType(i.r.targetType).value, i.published && HasMirror(reg, i.r.targetType))
  }

  lemma EndsOf(reg: SchemaRegistry, i: Item)
    requires WellNamed(reg) && Wanted(reg, i) && i.OfRelation?
    ensures reg.FindType(i.r.targetType).Some?
    ensures Wanted(reg, OwnerEnd(reg, i)) && Wanted(reg, TargetEnd(reg, i))
    ensures OwnerEnd(reg, i) == Target(reg, i, "owner_id") && TargetEnd(reg, i) == Target(reg, i, "target_id")
  {
    TypeOfKey(reg, i.r.ownerType);
    TypeOfKey(reg, i.r.targetType);
  }

  lemma TypeIds(reg: SchemaRegistry, i: Item)
    requires i.OfRelation? && reg.FindType(i.r.ownerType).Some? && reg.FindType(i.r.targetType).Some?
    ensures OwnerEnd(reg, i).t.id == i.r.ownerType && TargetEnd(reg, i).t.id == i.r.targetType
  {
  }

  lemma DraftEnds(reg: SchemaRegistry, s: Tables, r: Relation, l: Link)
    requires reg.FindType(r.ownerType).Some? && reg.FindType(r.targetType).Some? && InTable(l, r)
    ensures var i := OfRelation(r, false);
            && (LinkReaches(s, OwnerEnd(reg, i), l.owner) <==> OwnerKey(l) in s.entities)
            && (LinkReaches(s, TargetEnd(reg, i), l.target) <==> Key(r.targetType, l.target) in s.entities)
  {
    var i := OfRelation(r, false);
    TypeIds(reg, i);
    hide LinkReaches;
    RowOfType(reg, s, OwnerEnd(reg, i).t, l.owner);
    RowOfType(reg, s, TargetEnd(reg, i).t, l.target);
  }

  lemma DraftLinkKeysHold(reg: SchemaRegistry, s: Tables, r: Relation)
    requires WellNamed(reg) && Wanted(reg, OfRelation(r, false))
    ensures TableKeysHold(reg, s, OfRelation(r, false)) <==>
            forall l | l in s.draftLinks && InTable(l, r) ::
                OwnerKey(l) in s.entities && Key(r.targetType, l.target) in s.entities
  {
    var i := OfRelation(r, false);
    EndsOf(reg, i);
    hide WellNamed, TableOf, TableKeysHold, LinkReaches, OwnerEnd, TargetEnd, EndsReach, InTable;
    LinkTableKeys(reg, s, i, OwnerEnd(reg, i), TargetEnd(reg, i));
    OverDraftLinks(s, r, OwnerEnd(reg, i), TargetEnd(reg, i));
    forall l | l in s.draftLinks && InTable(l, r)
      ensures LinkReaches(s, OwnerEnd(reg, i), l.owner) <==> OwnerKey(l) in s.entities
      ensures LinkReaches(s, TargetEnd(reg, i), l.target) <==> Key(r.targetType, l.target) in s.entities
    {
      DraftEnds(reg, s, r, l);
    }
  }

  lemma PublishedEnds(reg: SchemaRegistry, s: Tables, r: Relation, l: Link)
    requires reg.FindType(r.ownerType).Some? && reg.FindType(r.targetType).Some? && InTable(l, r)
    ensures var i := OfRelation(r, true);
            && (LinkReaches(s, OwnerEnd(reg, i), l.owner) <==> OwnerKey(l) in s.mirrors)
            && (LinkReaches(s, TargetEnd(reg, i), l.target) <==> PublicTarget(reg, s, r, l.target))
  {
    var i := OfRelation(r, true);
    TypeIds(reg, i);
    hide LinkReaches;
    RowOfType(reg, s, OwnerEnd(reg, i).t, l.owner);
    RowOfType(reg, s, TargetEnd(reg, i).t, l.target);
  }

  lemma PublishedLinkKeysHold(reg: SchemaRegistry, s: Tables, r: Relation)
    requires WellNamed(reg) && Wanted(reg, OfRelation(r, true))
    ensures TableKeysHold(reg, s, OfRelation(r, true)) <==>
            forall l | l in s.publishedLinks && InTable(l, r) ::
              OwnerKey(l) in s.mirrors && PublicTarget(reg, s, r, l.target)
  {
    var i := OfRelation(r, true);
    EndsOf(reg, i);
    hide WellNamed, TableOf, TableKeysHold, LinkReaches, PublicTarget, OwnerEnd, TargetEnd, EndsReach, InTable;
    LinkTableKeys(reg, s, i, OwnerEnd(reg, i), TargetEnd(reg, i));
    OverPublishedLinks(s, r, OwnerEnd(reg, i), TargetEnd(reg, i));
    forall l | l in s.publishedLinks && InTable(l, r)
      ensures LinkReaches(s, OwnerEnd(reg, i), l.owner) <==> OwnerKey(l) in s.mirrors
      ensures LinkReaches(s, TargetEnd(reg, i), l.target) <==> PublicTarget(reg, s, r, l.target)
    {
      PublishedEnds(reg, s, r, l);
    }
  }

  // ----- all of them --------------------------------------------------------------------------------

  lemma RelationOf(reg: SchemaRegistry, l: Link) returns (r: Relation)
    requires TargetType(reg, l).Some?
    ensures r in reg.relations && InTable(l, r) && TargetType(reg, l) == Some(r.targetType)
  {
    r :| r in reg.relations && InTable(l, r) && TargetType(reg, l) == Some(r.targetType);
  }

  lemma WellNamedGivesOne(reg: SchemaRegistry, r: Relation, l: Link)
    requires WellNamed(reg) && r in reg.relations && InTable(l, r)
    ensures TargetType(reg, l) == Some(r.targetType)
    ensures Wanted(reg, OfRelation(r, false))
    ensures HasMirror(reg, r.ownerType) <==> Wanted(reg, OfRelation(r, true))
  {
    var t := TargetType(reg, l);
    assert t.Some?;
    var x :| x in reg.relations && InTable(l, x) && t == Some(x.targetType);
    assert x == r;
  }

  /** The references the store keeps are the foreign keys of the built schema, neither more
      nor less. */
  lemma IntactIsForeignKeys(reg: SchemaRegistry, s: Tables)
    requires WellNamed(reg) && InKnownTables(reg, s)
    ensures Intact(reg, s) <==> ForeignKeysHold(reg, s)
  {
    if Intact(reg, s) {
      IntactGivesForeignKeys(reg, s);
    }
    if ForeignKeysHold(reg, s) {
      ForeignKeysGiveIntact(reg, s);
    }
  }

  lemma IntactGivesForeignKeys(reg: SchemaRegistry, s: Tables)
    requires WellNamed(reg) && Intact(reg, s)
    ensures ForeignKeysHold(reg, s)
  {
    hide WellNamed, TableKeysHold, TableOf, Rows, HasMirror;
    forall i | Wanted(reg, i) ensures TableKeysHold(reg, s, i) {
      match i
      case OfType(t, false) => NoKeys(reg, s, t);
      case OfType(t, true) => MirrorKeys(reg, s, t);
      case OfRelation(r, published) =>
        forall l | InTable(l, r)
          ensures l in s.draftLinks ==> OwnerKey(l) in s.entities && Key(r.targetType, l.target) in s.entities
          ensures l in s.publishedLinks ==> OwnerKey(l) in s.mirrors && PublicTarget(reg, s, r, l.target)
        {
          WellNamedGivesOne(reg, r, l);
          assert l in s.draftLinks ==> DraftLinkHolds(reg, s.entities, l);
          assert l in s.publishedLinks ==> PublishedLinkHolds(reg, s, l);
        }
        if published {
          PublishedLinkKeysHold(reg, s, r);
        } else {
          DraftLinkKeysHold(reg, s, r);
        }
    }
  }

  lemma NoKeys(reg: SchemaRegistry, s: Tables, t: DocumentType)
    requires Wanted(reg, OfType(t, false))
    ensures TableKeysHold(reg, s, OfType(t, false))
  {
  }

  lemma ForeignKeysGiveIntact(reg: SchemaRegistry, s: Tables)
    requires WellNamed(reg) && InKnownTables(reg, s) && ForeignKeysHold(reg, s)
    ensures Intact(reg, s)
  {
    hide WellNamed, TableKeysHold, TableOf, Rows;
    forall k | k in s.mirrors ensures k in s.entities {
      var t := reg.FindType(k.typeId).value;
      TypeOfKey(reg, k.typeId);
      MirrorKeys(reg, s, t);
    }
    forall l | l in s.draftLinks ensures DraftLinkHolds(reg, s.entities, l) {
      var r := RelationOf(reg, l);
      WellNamedGivesOne(reg, r, l);
      DraftLinkKeysHold(reg, s, r);
    }
    forall l | l in s.publishedLinks ensures PublishedLinkHolds(reg, s, l) {
      var r := RelationOf(reg, l);
      WellNamedGivesOne(reg, r, l);
      PublishedLinkKeysHold(reg, s, r);
    }
  }

  /** Every foreign key of the built schema deletes with what it refers to, so the effect
      of one deletion is the largest intact part that is left. */
  lemma EveryKeyCascades(reg: SchemaRegistry, i: Item, fk: ForeignKeyDefinition)
    requires Wanted(reg, i) && fk in TableOf(reg, i).foreignKeys
    ensures fk.onDelete == Cascade && fk.referencedColumns == ["id"]
  {
  }

  // ----- runs -------------------------------------------------------------------------------------

  lemma WellNamedIsReady(reg: SchemaRegistry)
    requires WellNamed(reg) && forall t | t in reg.types :: DistinctFields(t.fields)
    ensures StoreReady(reg)
  {
  }

  lemma SoundIsInKnownTables(reg: SchemaRegistry, s: Tables)
    requires Sound(reg, s)
    ensures InKnownTables(reg, s) && Intact(reg, s)
  {
    hide NotNull, Readable, Compatible, OneTarget, RowLocks, Locks, Outward;
    forall k | k in s.entities ensures reg.FindType(k.typeId).Some? {
      assert RowHolds(reg, k, s.entities[k].cells);
    }
    forall l | l in s.draftLinks ensures TargetType(reg, l).Some? {
      assert DraftLinkHolds(reg, s.entities, l);
    }
    forall l | l in s.publishedLinks ensures TargetType(reg, l).Some? && HasMirror(reg, l.ownerType) {
      assert PublishedLinkHolds(reg, s, l);
    }
  }

  /** No run of saves and deletes breaks a foreign key of the built schema. */
  lemma ForeignKeysAlwaysHold(reg: SchemaRegistry, mode: LinkFailure, s: Tables, cs: seq<Command>)
    requires WellNamed(reg) && (forall t | t in reg.types :: DistinctFields(t.fields)) && Sound(reg, s)
    ensures ForeignKeysHold(reg, Run(reg, mode, s, cs))
  {
    WellNamedIsReady(reg);
    hide WellNamed, StoreReady, Sound, InKnownTables, Intact, ForeignKeysHold;
    ReachableIsSound(reg, mode, s, cs);
    SoundIsInKnownTables(reg, Run(reg, mode, s, cs));
    IntactIsForeignKeys(reg, Run(reg, mode, s, cs));
  }
}
