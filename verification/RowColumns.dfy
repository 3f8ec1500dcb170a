/** The columns that the repository's statements name, and those that the builder makes. */
module RowColumns {
  import opened Wrappers
  import opened SchemaAst
  import opened DomainSchema
  import opened Naming
  import opened BuiltSchema
  import opened Codec
  import opened Instance
  import opened Store = DocumentStore
  import Builder
  import StoreInvariants

  // ----- what the statements bind ---------------------------------------------------------------

  /** A column that a statement names and the value it binds there. */
  datatype Bound = Bound(column: string, value: SqlValue)

  /** A row of a type's table, apart from its attributes. */
  function EntityBinds(t: DocumentType, k: Key, row: EntityRow): seq<Bound> {
    [ Bound("id", SqlUuid(Some(k.id))),
      Bound("version", SqlBigInt(Some(row.version))),
      Bound("owner_id", SqlString(Some(row.ownerId))),
      Bound("publication_state", SqlString(Some(if row.published then "published" else "draft"))),
      Bound("created_at", SqlTimestamp(Some(row.createdAt))),
      Bound("updated_at", SqlTimestamp(Some(row.updatedAt))) ]
    + SingletonBinds(t)
  }

  /** A row of its mirror. */
  function MirrorBinds(t: DocumentType, k: Key, row: MirrorRow): seq<Bound> {
    [ Bound("id", SqlUuid(Some(k.id))),
      Bound("published_version", SqlBigInt(Some(row.revision))),
      Bound("owner_id", SqlString(Some(row.ownerId))),
      Bound("created_at", SqlTimestamp(Some(row.createdAt))),
      Bound("updated_at", SqlTimestamp(Some(row.updatedAt))),
      Bound("published_at", SqlTimestamp(Some(row.publishedAt))),
      Bound("published_by", SqlString(Some(row.publishedBy))) ]
    + SingletonBinds(t)
  }

  function SingletonBinds(t: DocumentType): seq<Bound> {
    if t.kind.SingleType? then [Bound("_singleton", SqlBool(Some(true)))] else []
  }

  ghost predicate AttributeBinds(t: DocumentType, cells: Cells, b: Bound) {
    exists f | f in t.fields :: f.id in cells && b == Bound(KebabToSnake(f.id), cells[f.id])
  }

  /** A row of a link table. */
  function LinkBinds(l: Store.Link): seq<Bound> {
    [Bound("owner_id", SqlUuid(Some(l.owner))), Bound("target_id", SqlUuid(Some(l.target)))]
  }

  /** The table has the column, once, and it takes the value as it is. */
  ghost predicate Has(d: TableDefinition, b: Bound) {
    && (exists x :: x in d.columns && HoldsIn(x, b))
    && forall x, y | x in d.columns && y in d.columns && x.name == y.name :: x == y
  }

  predicate HoldsIn(x: ColumnDefinition, b: Bound) {
    x.name == b.column && StoreIn(b.value, x.dataType) == Ok(b.value) && (b.value.IsNull() ==> x.nullable)
  }

  // ----- rows that can be written -------------------------------------------------------------------

  predicate TimeFits(nanos: int) { nanos % MICRO == 0 && TIMESTAMP_MIN <= nanos < TIMESTAMP_END }

  /** The cells are the attributes' and nothing required is null. */
  ghost predicate CellsFit(t: DocumentType, cells: Cells) { StoreInvariants.Readable(t, cells) && NotNull(t, cells) }

  ghost predicate EntityFits(t: DocumentType, row: EntityRow) {
    CellsFit(t, row.cells) && Clean(row.ownerId) && TimeFits(row.createdAt) && TimeFits(row.updatedAt)
  }

  ghost predicate MirrorFits(t: DocumentType, row: MirrorRow) {
    && CellsFit(t, row.cells) && Clean(row.ownerId) && Clean(row.publishedBy)
    && TimeFits(row.createdAt) && TimeFits(row.updatedAt) && TimeFits(row.publishedAt)
  }

  const ENTITY_NAMES: set<string> :=
    {"id", "version", "owner_id", "publication_state", "created_at", "updated_at", "_singleton"}

  const MIRROR_NAMES: set<string> :=
    {"id", "published_version", "owner_id", "created_at", "updated_at", "published_at", "published_by", "_singleton"}

  /** No attribute has the name of one of the system's columns. */
  predicate Apart(t: DocumentType, names: set<string>) { forall f | f in t.fields :: KebabToSnake(f.id) !in names }

  // ----- the builder's system columns -------------------------------------------------------------------

  /** The statement binds the columns one for one. */
  ghost predicate OneForOne(cs: seq<ColumnDefinition>, bs: seq<Bound>) {
    |cs| == |bs| && forall i | 0 <= i < |cs| :: HoldsIn(cs[i], bs[i])
  }

  lemma EntitySystem(t: DocumentType, k: Key, row: EntityRow)
    requires EntityFits(t, row)
    ensures OneForOne(SystemColumns(t, false), EntityBinds(t, k, row))
  {
    hide CellsFit, StoreNumeric, Micros, CleanJson;
    TimesKept(row.createdAt);
    TimesKept(row.updatedAt);
  }

  lemma MirrorSystem(t: DocumentType, k: Key, row: MirrorRow)
    requires MirrorFits(t, row)
    ensures OneForOne(SystemColumns(t, true), MirrorBinds(t, k, row))
  {
    hide CellsFit, StoreNumeric, Micros, CleanJson;
    TimesKept(row.createdAt);
    TimesKept(row.updatedAt);
    TimesKept(row.publishedAt);
  }

  lemma TimesKept(nanos: int)
    requires TimeFits(nanos)
    ensures Micros(nanos) == nanos
  {
  }

  lemma SystemNames(t: DocumentType, published: bool, x: ColumnDefinition)
    requires x in SystemColumns(t, published)
    ensures x.name in (if published then MIRROR_NAMES else ENTITY_NAMES)
    ensures x.name == "_singleton" ==> t.kind.SingleType?
    ensures x.nullable <==> x.name == "published_by"
    ensures x.isPrimaryKey <==> x.name == "id"
  {
  }

  // ----- the tables -----------------------------------------------------------------------------------

  /** The statement's columns are the table's, each there once and taking its value; the id is
      the primary key; and what may be null is an attribute that is not required, or the
      publisher. */
  ghost predicate Matches(d: TableDefinition, t: DocumentType, published: bool, bs: seq<Bound>, cells: Cells) {
    && (forall b | b in bs || AttributeBinds(t, cells, b) :: Has(d, b))
    && (forall x | x in d.columns :: exists b :: (b in bs || AttributeBinds(t, cells, b)) && b.column == x.name)
    && (forall x | x in d.columns :: x.isPrimaryKey <==> x.name == "id")
    && (forall x | x in d.columns :: x.nullable <==> (published && x.name == "published_by") || Optional(t, x.name))
  }

  ghost predicate Optional(t: DocumentType, column: string) {
    exists f | f in t.fields :: KebabToSnake(f.id) == column && !f.required
  }

  lemma NotTaken(t: DocumentType, published: bool, f: FieldDefinition)
    requires Apart(t, if published then MIRROR_NAMES else ENTITY_NAMES) && f in t.fields
    ensures !Taken(SystemColumns(t, published), KebabToSnake(f.id))
  {
    forall x | x in SystemColumns(t, published) ensures x.name != KebabToSnake(f.id) {
      SystemNames(t, published, x);
    }
  }

  /** A column of a type's table is a system column or that of an attribute. */
  lemma ColumnIs(reg: SchemaRegistry, t: DocumentType, published: bool, x: ColumnDefinition)
    requires Wanted(reg, OfType(t, published)) && ProperAttributes(t)
    requires Apart(t, if published then MIRROR_NAMES else ENTITY_NAMES)
    ensures x in TableOf(reg, OfType(t, published)).columns <==>
            x in SystemColumns(t, published) || exists f | f in t.fields :: x == Builder.AttributeColumn(f)
  {
    var base := SystemColumns(t, published);
    assert TableOf(reg, OfType(t, published)).columns == Builder.WithAttributes(base, t.fields);
    hide TableOf, SystemColumns, Builder.AttributeColumn, KebabToSnake;
    if x in Builder.WithAttributes(base, t.fields) {
      ColumnOrigin(base, t.fields, x);
    }
    forall f | f in t.fields ensures Builder.AttributeColumn(f) in Builder.WithAttributes(base, t.fields) {
      AttributeIsIn(reg, t, published, f);
    }
  }

  lemma AttributeIsIn(reg: SchemaRegistry, t: DocumentType, published: bool, f: FieldDefinition)
    requires Wanted(reg, OfType(t, published)) && ProperAttributes(t) && f in t.fields
    requires Apart(t, if published then MIRROR_NAMES else ENTITY_NAMES)
    ensures Builder.AttributeColumn(f) in TableOf(reg, OfType(t, published)).columns
  {
    NotTaken(t, published, f);
    EveryAttributeHasColumn(reg, t, published, f, Builder.AttributeColumn(f));
  }

  lemma AttributeHolds(t: DocumentType, cells: Cells, f: FieldDefinition)
    requires CellsFit(t, cells) && f in t.fields
    ensures f.id in cells && HoldsIn(Builder.AttributeColumn(f), Bound(KebabToSnake(f.id), cells[f.id]))
  {
    assert StoredCell(cells[f.id], f.fieldType);
    hide StoreIn, KebabToSnake;
  }

  lemma SameNameSameColumn(d: TableDefinition, x: ColumnDefinition, y: ColumnDefinition)
    requires DistinctColumns(d.columns) && x in d.columns && y in d.columns && x.name == y.name
    ensures x == y
  {
  }

  lemma ColumnsDistinct(reg: SchemaRegistry, t: DocumentType, published: bool)
    requires Wanted(reg, OfType(t, published))
    ensures DistinctColumns(TableOf(reg, OfType(t, published)).columns)
  {
  }

  lemma TableMatches(reg: SchemaRegistry, t: DocumentType, published: bool, bs: seq<Bound>, cells: Cells)
    requires Wanted(reg, OfType(t, published)) && ProperAttributes(t) && CellsFit(t, cells)
    requires Apart(t, if published then MIRROR_NAMES else ENTITY_NAMES)
    requires OneForOne(SystemColumns(t, published), bs)
    ensures Matches(TableOf(reg, OfType(t, published)), t, published, bs, cells)
  {
    hide TableOf, Wanted, CellsFit, ProperAttributes, Apart, HoldsIn, SystemColumns, KebabToSnake, DistinctColumns,
         Builder.AttributeColumn;
    var d, cs := TableOf(reg, OfType(t, published)), SystemColumns(t, published);
    forall x
      ensures x in d.columns <==> x in cs || exists f | f in t.fields :: x == Builder.AttributeColumn(f)
    {
      ColumnIs(reg, t, published, x);
    }
    ColumnsDistinct(reg, t, published);
    forall x, y | x in d.columns && y in d.columns && x.name == y.name ensures x == y {
      SameNameSameColumn(d, x, y);
    }
    forall b | b in bs || AttributeBinds(t, cells, b) ensures Has(d, b) {
      if i :| 0 <= i < |bs| && bs[i] == b {
        assert cs[i] in cs && HoldsIn(cs[i], b);
      } else {
        var f :| f in t.fields && f.id in cells && b == Bound(KebabToSnake(f.id), cells[f.id]);
        AttributeHolds(t, cells, f);
        assert Builder.AttributeColumn(f) in d.columns;
      }
    }
    forall x | x in d.columns
      ensures exists b :: (b in bs || AttributeBinds(t, cells, b)) && b.column == x.name
      ensures x.isPrimaryKey <==> x.name == "id"
      ensures x.nullable <==> (published && x.name == "published_by") || Optional(t, x.name)
    {
      if i :| 0 <= i < |cs| && cs[i] == x {
        SystemColumnMatches(t, published, bs, i);
      } else {
        var f :| f in t.fields && x == Builder.AttributeColumn(f);
        AttributeMatches(t, published, cells, f);
      }
    }
  }

  lemma SystemColumnMatches(t: DocumentType, published: bool, bs: seq<Bound>, i: nat)
    requires OneForOne(SystemColumns(t, published), bs) && i < |bs|
    requires Apart(t, if published then MIRROR_NAMES else ENTITY_NAMES)
    ensures var x := SystemColumns(t, published)[i];
            && bs[i] in bs && bs[i].column == x.name && (x.isPrimaryKey <==> x.name == "id")
            && (x.nullable <==> (published && x.name == "published_by") || Optional(t, x.name))
  {
    var x := SystemColumns(t, published)[i];
    hide SystemColumns, KebabToSnake;
    SystemNames(t, published, x);
    assert HoldsIn(x, bs[i]);
    hide StoreIn;
  }

  lemma AttributeMatches(t: DocumentType, published: bool, cells: Cells, f: FieldDefinition)
    requires CellsFit(t, cells) && f in t.fields && ProperAttributes(t)
    requires Apart(t, if published then MIRROR_NAMES else ENTITY_NAMES)
    ensures f.id in cells
    ensures var x, b := Builder.AttributeColumn(f), Bound(KebabToSnake(f.id), cells[f.id]);
            && AttributeBinds(t, cells, b) && b.column == x.name && (x.isPrimaryKey <==> x.name == "id")
            && (x.nullable <==> (published && x.name == "published_by") || Optional(t, x.name))
  {
    AttributeHolds(t, cells, f);
    assert KebabToSnake(f.id) != "id";
    forall g | g in t.fields && KebabToSnake(g.id) == KebabToSnake(f.id) ensures g == f {
      KebabToSnakeInjective(g.id, f.id);
    }
    hide KebabToSnake, CellsFit, HoldsIn;
  }

  /** Every row that fits is taken by the table that the builder makes for its type: the
      statement names its columns, no more and no fewer. */
  lemma EntityRowsFit(reg: SchemaRegistry, t: DocumentType, k: Key, row: EntityRow)
    requires t in reg.types && ProperAttributes(t) && Apart(t, ENTITY_NAMES) && EntityFits(t, row)
    ensures Matches(TableOf(reg, OfType(t, false)), t, false, EntityBinds(t, k, row), row.cells)
  {
    hide TableOf, ProperAttributes, Apart, CellsFit, Matches, SystemColumns, EntityBinds, OneForOne;
    EntitySystem(t, k, row);
    TableMatches(reg, t, false, EntityBinds(t, k, row), row.cells);
  }

  /** The same for the mirror of a type with draft-and-publish. */
  lemma MirrorRowsFit(reg: SchemaRegistry, t: DocumentType, k: Key, row: MirrorRow)
    requires t in reg.types && t.draftAndPublish && ProperAttributes(t) && Apart(t, MIRROR_NAMES) && MirrorFits(t, row)
    ensures Matches(TableOf(reg, OfType(t, true)), t, true, MirrorBinds(t, k, row), row.cells)
  {
    hide TableOf, ProperAttributes, Apart, CellsFit, Matches, SystemColumns, MirrorBinds, OneForOne;
    MirrorSystem(t, k, row);
    TableMatches(reg, t, true, MirrorBinds(t, k, row), row.cells);
  }

  /** A link table has its two columns, both in its primary key and never null. */
  lemma LinkRowsFit(reg: SchemaRegistry, r: Relation, published: bool, l: Store.Link)
    requires Wanted(reg, OfRelation(r, published))
    ensures var d := TableOf(reg, OfRelation(r, published));
            && (forall b | b in LinkBinds(l) :: Has(d, b))
            && forall x | x in d.columns ::
                 x.isPrimaryKey && !x.nullable && exists b :: b in LinkBinds(l) && b.column == x.name
  {
    var d := TableOf(reg, OfRelation(r, published));
    assert d.columns == Builder.LINK_COLUMNS;
    var cs := d.columns;
    assert cs == [cs[0], cs[1]] && cs[0].name == "owner_id" && cs[1].name == "target_id";
    assert LinkBinds(l)[0] in LinkBinds(l) && LinkBinds(l)[1] in LinkBinds(l);
    assert cs[0] in cs && cs[1] in cs;
    assert HoldsIn(cs[0], LinkBinds(l)[0]) && HoldsIn(cs[1], LinkBinds(l)[1]);
  }
}
