/** The desired database schema of a registry: entity tables, published mirrors, draft
    link tables and published link tables. */
module Builder {
  import opened Wrappers
  import opened SchemaAst
  import opened DomainSchema
  import Naming

  function MapFieldTypeToSql(ft: FieldType): SqlColumnType {
    match ft
    case Primitive(Text) => TextColumn
    case Primitive(Uid) => Varchar(Some(255))
    case Primitive(Uuid) => UuidColumn
    case Primitive(Boolean) => BooleanColumn
    case Primitive(Date) => DateColumn
    case Primitive(DateTime) => Timestamptz
    case Primitive(Integer(I16)) => SmallInt
    case Primitive(Integer(I32)) => IntegerColumn
    case Primitive(Integer(I64)) => BigInt
    case Primitive(Decimal(p, s)) => DecimalColumn(p, s)
    case Email => Varchar(Some(255))
    case Url => TextColumn
    case LocalizedText => Jsonb
    case Json => Jsonb
  }

  // ----- columns ---------------------------------------------------------------------

  const ID := ColumnDefinition("id", UuidColumn, false, true, None, true)
  const SINGLETON := ColumnDefinition("_singleton", BooleanColumn, false, false, Some("TRUE"), true)

  function Plain(name: string, dataType: SqlColumnType, defaultValue: Option<string>): ColumnDefinition {
    ColumnDefinition(name, dataType, false, false, defaultValue, false)
  }

  function EntityColumns(singleton: bool): (cs: seq<ColumnDefinition>)
    ensures DistinctColumns(cs) && ID in cs
  {
    [ ID,
      Plain("version", BigInt, Some("1")),
      Plain("owner_id", Varchar(Some(255)), None),
      Plain("publication_state", Varchar(Some(50)), None),
      Plain("created_at", Timestamptz, Some("CURRENT_TIMESTAMP")),
      Plain("updated_at", Timestamptz, Some("CURRENT_TIMESTAMP")) ]
    + if singleton then [SINGLETON] else []
  }

  function PublishedColumns(singleton: bool): (cs: seq<ColumnDefinition>)
    ensures DistinctColumns(cs) && ID in cs
  {
    [ ID,
      Plain("published_version", BigInt, None),
      Plain("owner_id", Varchar(Some(255)), None),
      Plain("created_at", Timestamptz, None),
      Plain("updated_at", Timestamptz, None),
      Plain("published_at", Timestamptz, Some("CURRENT_TIMESTAMP")),
      Plain("published_by", Varchar(Some(255)), None).(nullable := true) ]
    + if singleton then [SINGLETON] else []
  }

  const LINK_COLUMNS: seq<ColumnDefinition> :=
    [ ColumnDefinition("owner_id", UuidColumn, false, true, None, false),
      ColumnDefinition("target_id", UuidColumn, false, true, None, false) ]

  function AttributeColumn(f: FieldDefinition): ColumnDefinition {
    ColumnDefinition(Naming.KebabToSnake(f.id), MapFieldTypeToSql(f.fieldType), !f.required, false, None, f.unique)
  }

  /** Attribute columns after the system ones; a name already taken is passed over. */
  function WithAttributes(base: seq<ColumnDefinition>, fields: seq<FieldDefinition>): (cs: seq<ColumnDefinition>)
    requires DistinctColumns(base)
    ensures DistinctColumns(cs)
    ensures forall c | c in base :: c in cs
    ensures forall f | f in fields :: Naming.KebabToSnake(f.id) in (set c | c in cs :: c.name)
  {
    if fields == [] then base
    else
      var n := |fields| - 1;
      assert fields == fields[..n] + [fields[n]];
      InsertColumn(WithAttributes(base, fields[..n]), AttributeColumn(fields[n]))
  }

  function UniqueIndex(table: string, f: FieldDefinition): IndexDefinition {
    var column := Naming.KebabToSnake(f.id);
    IndexDefinition(Naming.IndexName(table, column), table, [column], true)
  }

  function SingletonIndexes(table: string, singleton: bool): seq<IndexDefinition> {
    if singleton then [IndexDefinition(Naming.SingletonIndexName(table), table, ["_singleton"], true)] else []
  }

  function WithUniqueIndexes(base: seq<IndexDefinition>, table: string, fields: seq<FieldDefinition>):
      (xs: seq<IndexDefinition>)
    requires DistinctIndexes(base)
    ensures DistinctIndexes(xs)
    ensures forall x | x in xs :: x in base || exists f | f in fields :: x == UniqueIndex(table, f)
  {
    if fields == [] then base
    else
      var n := |fields| - 1;
      assert fields == fields[..n] + [fields[n]];
      var xs := WithUniqueIndexes(base, table, fields[..n]);
      if fields[n].unique then InsertIndex(xs, UniqueIndex(table, fields[n])) else xs
  }

  // ----- the four kinds of table -------------------------------------------------------

  function References(name: string, column: string, table: string): ForeignKeyDefinition {
    ForeignKeyDefinition(name, [column], table, ["id"], Cascade, NoAction)
  }

  function EntityTable(t: DocumentType): TableDefinition {
    var table, singleton := t.TableName(), t.kind.SingleType?;
    TableDefinition(table, WithAttributes(EntityColumns(singleton), t.fields),
                    WithUniqueIndexes(SingletonIndexes(table, singleton), table, t.fields), [], Entity, singleton)
  }

  function PublishedTable(t: DocumentType): TableDefinition {
    var table, singleton := Naming.PublishedTableName(t.TableName()), t.kind.SingleType?;
    TableDefinition(table, WithAttributes(PublishedColumns(singleton), t.fields),
                    WithUniqueIndexes(SingletonIndexes(table, singleton), table, t.fields),
                    [References(Naming.PublishedFkName(table), "id", t.TableName())], Published, singleton)
  }

  function LinkIndexes(table: string, kind: OwnerRelationKind): seq<IndexDefinition> {
    (if kind == HasOne then [IndexDefinition(Naming.LinkOwnerIndexName(table), table, ["owner_id"], true)] else [])
    + [IndexDefinition(Naming.LinkTargetIndexName(table), table, ["target_id"], false)]
  }

  function LinkTableOf(table: string, kind: OwnerRelationKind, ownerTable: string, targetTable: string):
      TableDefinition
  {
    TableDefinition(table, LINK_COLUMNS, LinkIndexes(table, kind),
                    [ References(Naming.LinkOwnerFkName(table), "owner_id", ownerTable),
                      References(Naming.LinkTargetFkName(table), "target_id", targetTable) ], Link, false)
  }

  /** The target's entity table; an unknown target falls back to its id. */
  function TargetTable(reg: SchemaRegistry, target: DocumentTypeId): string {
    match reg.FindType(target)
    case Some(t) => t.TableName()
    case None => Naming.KebabToSnake(target)
  }

  /** Where a published link points: the target's mirror when it has one (the public
      filter), else its entity table. */
  function PublicTargetTable(reg: SchemaRegistry, target: DocumentTypeId): string {
    var dt := reg.FindType(target);
    if dt.Some? && dt.value.draftAndPublish then Naming.PublishedTableName(TargetTable(reg, target))
    else TargetTable(reg, target)
  }

  function DraftLinkTable(reg: SchemaRegistry, owner: DocumentType, r: Relation): TableDefinition {
    LinkTableOf(Naming.LinkTableName(owner.TableName(), r.ownerAttr), r.ownerKind,
                owner.TableName(), TargetTable(reg, r.targetType))
  }

  function PublishedLinkTable(reg: SchemaRegistry, owner: DocumentType, r: Relation): TableDefinition {
    LinkTableOf(Naming.PublishedLinkTableName(Naming.LinkTableName(owner.TableName(), r.ownerAttr)), r.ownerKind,
                Naming.PublishedTableName(owner.TableName()), PublicTargetTable(reg, r.targetType))
  }

  // ----- the tables of one document type ------------------------------------------------

  function LinkTables(reg: SchemaRegistry, owner: DocumentType, rs: seq<Relation>): seq<TableDefinition> {
    if rs == [] then []
    else
      var n := |rs| - 1;
      LinkTables(reg, owner, rs[..n])
      + if rs[n].ownerType != owner.id then []
        else [DraftLinkTable(reg, owner, rs[n])]
             + if owner.draftAndPublish then [PublishedLinkTable(reg, owner, rs[n])] else []
  }

  method BuildDocumentTypeTables(t: DocumentType, reg: SchemaRegistry)
    returns (entity: TableDefinition, published: Option<TableDefinition>, links: seq<TableDefinition>)
    ensures entity == EntityTable(t)
    ensures published == if t.draftAndPublish then Some(PublishedTable(t)) else None
    ensures links == LinkTables(reg, t, reg.relations)
  {
    var singleton := t.kind.SingleType?;
    var columns, indexes := AttributePart(t.TableName(), EntityColumns(singleton), singleton, t.fields);
    entity := TableDefinition(t.TableName(), columns, indexes, [], Entity, singleton);

    published := None;
    if t.draftAndPublish {
      var table := Naming.PublishedTableName(t.TableName());
      columns, indexes := AttributePart(table, PublishedColumns(singleton), singleton, t.fields);
      published := Some(TableDefinition(table, columns, indexes,
                          [References(Naming.PublishedFkName(table), "id", t.TableName())], Published, singleton));
    }

    links := BuildLinkTables(t, reg);
  }

  /** Link tables of the relations this type owns; inverse sides have none of their own. */
  method BuildLinkTables(t: DocumentType, reg: SchemaRegistry) returns (links: seq<TableDefinition>)
    ensures links == LinkTables(reg, t, reg.relations)
  {
    var rs := reg.relations;
    links := [];
    for i := 0 to |rs|
      invariant links == LinkTables(reg, t, rs[..i])
    {
      assert rs[..i + 1][..i] == rs[..i];
      match rs[i].ViewFor(t.id) {
        case None =>
        case Some(InverseSide(_, _, _)) =>
        case Some(view) =>
          var made := [DraftLinkTable(reg, t, rs[i])];
          if t.draftAndPublish {
            made := made + [PublishedLinkTable(reg, t, rs[i])];
          }
          links := links + made;
      }
    }
    assert rs[..|rs|] == rs;
  }

  /** The attribute columns of a table and the indexes of its unique attributes. */
  method AttributePart(table: string, base: seq<ColumnDefinition>, singleton: bool, fields: seq<FieldDefinition>)
    returns (columns: seq<ColumnDefinition>, indexes: seq<IndexDefinition>)
    requires DistinctColumns(base)
    ensures columns == WithAttributes(base, fields)
    ensures indexes == WithUniqueIndexes(SingletonIndexes(table, singleton), table, fields)
  {
    columns := base;
    indexes := SingletonIndexes(table, singleton);
    for i := 0 to |fields|
      invariant columns == WithAttributes(base, fields[..i])
      invariant indexes == WithUniqueIndexes(SingletonIndexes(table, singleton), table, fields[..i])
    {
      assert fields[..i + 1][..i] == fields[..i];
      columns := InsertColumn(columns, AttributeColumn(fields[i]));
      if fields[i].unique {
        indexes := InsertIndex(indexes, UniqueIndex(table, fields[i]));
      }
    }
    assert fields[..|fields|] == fields;
  }

  // ----- the whole schema -----------------------------------------------------------------

  function InsertAll(ts: seq<TableDefinition>, more: seq<TableDefinition>): (r: seq<TableDefinition>)
    requires DistinctTables(ts)
    ensures DistinctTables(r)
    decreases |more|
  {
    if more == [] then ts
    else
      var n := |more| - 1;
      InsertTable(InsertAll(ts, more[..n]), more[n])
  }

  /** The document types in the order the names are met. */
  function TypesNamed(reg: SchemaRegistry, names: seq<string>): seq<DocumentType> {
    if names == [] then []
    else
      var n := |names| - 1;
      TypesNamed(reg, names[..n])
      + match reg.FindTypeByName(names[n]) { case Some(t) => [t] case None => [] }
  }

  function Entities(ts: seq<DocumentType>): seq<TableDefinition> {
    if ts == [] then [] else Entities(ts[..|ts| - 1]) + [EntityTable(ts[|ts| - 1])]
  }

  function Mirrors(ts: seq<DocumentType>): seq<TableDefinition> {
    if ts == [] then []
    else
      var t := ts[|ts| - 1];
      Mirrors(ts[..|ts| - 1]) + if t.draftAndPublish then [PublishedTable(t)] else []
  }

  function Part(links: seq<TableDefinition>, published: bool): seq<TableDefinition> {
    if links == [] then []
    else
      var last := links[|links| - 1];
      Part(links[..|links| - 1], published)
      + if Naming.EndsWith(last.name, Naming.PUBLISHED) == published then [last] else []
  }

  function Links(reg: SchemaRegistry, ts: seq<DocumentType>, published: bool): seq<TableDefinition> {
    if ts == [] then []
    else
      var t := ts[|ts| - 1];
      Links(reg, ts[..|ts| - 1], published) + Part(LinkTables(reg, t, reg.relations), published)
  }

  function SchemaOf(reg: SchemaRegistry, ts: seq<DocumentType>): (s: DatabaseSchema)
    ensures DistinctTables(s.tables)
  {
    DatabaseSchema(InsertAll(InsertAll(InsertAll(InsertAll([],
      Entities(ts)), Mirrors(ts)), Links(reg, ts, false)), Links(reg, ts, true)))
  }

  lemma OneMoreType(reg: SchemaRegistry, ts: seq<DocumentType>, t: DocumentType)
    ensures InsertAll([], Entities(ts + [t])) == InsertTable(InsertAll([], Entities(ts)), EntityTable(t))
    ensures Mirrors(ts + [t]) == Mirrors(ts) + if t.draftAndPublish then [PublishedTable(t)] else []
    ensures forall p :: Links(reg, ts + [t], p) == Links(reg, ts, p) + Part(LinkTables(reg, t, reg.relations), p)
  {
    assert (ts + [t])[..|ts|] == ts;
    assert (Entities(ts) + [EntityTable(t)])[..|Entities(ts)|] == Entities(ts);
  }

  /** `names` are the keys of the plural-name index, in whatever order a hash map gives them. */
  method BuildDesiredSchema(reg: SchemaRegistry, names: seq<string>) returns (schema: DatabaseSchema)
    ensures schema == SchemaOf(reg, TypesNamed(reg, names))
  {
    var tables: seq<TableDefinition> := [];
    var publishedTables, draftLinkTables, publishedLinkTables := [], [], [];
    ghost var ts: seq<DocumentType> := [];
    for i := 0 to |names|
      invariant ts == TypesNamed(reg, names[..i])
      invariant DistinctTables(tables) && tables == InsertAll([], Entities(ts))
      invariant publishedTables == Mirrors(ts)
      invariant draftLinkTables == Links(reg, ts, false)
      invariant publishedLinkTables == Links(reg, ts, true)
    {
      assert names[..i + 1][..i] == names[..i];
      match reg.FindTypeByName(names[i]) {
        case None =>
        case Some(t) =>
          var entity, published, links := BuildDocumentTypeTables(t, reg);
          OneMoreType(reg, ts, t);
          tables := InsertTable(tables, entity);
          if published.Some? {
            publishedTables := publishedTables + [published.value];
          }
          var drafts, pubs := SplitLinks(links);
          draftLinkTables := draftLinkTables + drafts;
          publishedLinkTables := publishedLinkTables + pubs;
          ts := ts + [t];
      }
    }
    assert names[..|names|] == names;
    tables := InsertEach(tables, publishedTables);
    tables := InsertEach(tables, draftLinkTables);
    tables := InsertEach(tables, publishedLinkTables);
    schema := DatabaseSchema(tables);
  }

  method SplitLinks(links: seq<TableDefinition>) returns (drafts: seq<TableDefinition>, pubs: seq<TableDefinition>)
    ensures drafts == Part(links, false) && pubs == Part(links, true)
  {
    drafts, pubs := [], [];
    for i := 0 to |links|
      invariant drafts == Part(links[..i], false) && pubs == Part(links[..i], true)
    {
      assert links[..i + 1][..i] == links[..i];
      if Naming.EndsWith(links[i].name, Naming.PUBLISHED) {
        pubs := pubs + [links[i]];
      } else {
        drafts := drafts + [links[i]];
      }
    }
    assert links[..|links|] == links;
  }

  method InsertEach(ts: seq<TableDefinition>, more: seq<TableDefinition>) returns (r: seq<TableDefinition>)
    requires DistinctTables(ts)
    ensures r == InsertAll(ts, more)
  {
    r := ts;
    for i := 0 to |more|
      invariant DistinctTables(r) && r == InsertAll(ts, more[..i])
    {
      assert more[..i + 1][..i] == more[..i];
      r := InsertTable(r, more[i]);
    }
    assert more[..|more|] == more;
  }
}
