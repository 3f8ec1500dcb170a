/** The schema syntax tree. The source keeps tables, columns and indexes in
    insertion-ordered sets whose members are equal when their names are; here they are
    sequences, with the distinctness of names stated as a predicate. */
module SchemaAst {
  import opened Wrappers

  datatype TableKind = Entity | Published | Link

  datatype ForeignKeyAction = Cascade | Restrict | SetNull | NoAction

  datatype SqlColumnType =
    | UuidColumn
    | Varchar(length: Option<nat>)
    | TextColumn
    | SmallInt
    | IntegerColumn
    | BigInt
    | DecimalColumn(precision: nat, scale: nat)
    | BooleanColumn
    | DateColumn
    | Timestamptz
    | Jsonb

  datatype ColumnDefinition = ColumnDefinition(
    name: string, dataType: SqlColumnType, nullable: bool, isPrimaryKey: bool,
    defaultValue: Option<string>, unique: bool)

  datatype IndexDefinition = IndexDefinition(name: string, tableName: string, columns: seq<string>, unique: bool)

  datatype ForeignKeyDefinition = ForeignKeyDefinition(
    name: string, columns: seq<string>, referencedTable: string, referencedColumns: seq<string>,
    onDelete: ForeignKeyAction, onUpdate: ForeignKeyAction)

  datatype TableDefinition = TableDefinition(
    name: string, columns: seq<ColumnDefinition>, indexes: seq<IndexDefinition>,
    foreignKeys: seq<ForeignKeyDefinition>, kind: TableKind, isSingleton: bool)

  datatype DatabaseSchema = DatabaseSchema(tables: seq<TableDefinition>)

  // ----- name sets and lookups --------------------------------------------------

  function ColumnNames(t: TableDefinition): set<string> { set c | c in t.columns :: c.name }

  function IndexNames(t: TableDefinition): set<string> { set i | i in t.indexes :: i.name }

  function TableNames(s: DatabaseSchema): set<string> { set t | t in s.tables :: t.name }

  predicate DistinctTables(ts: seq<TableDefinition>) {
    forall i, j | 0 <= i < j < |ts| :: ts[i].name != ts[j].name
  }

  predicate DistinctColumns(cs: seq<ColumnDefinition>) {
    forall i, j | 0 <= i < j < |cs| :: cs[i].name != cs[j].name
  }

  predicate DistinctIndexes(xs: seq<IndexDefinition>) {
    forall i, j | 0 <= i < j < |xs| :: xs[i].name != xs[j].name
  }

  function FindTable(s: DatabaseSchema, name: string): (r: Option<TableDefinition>)
    ensures r.Some? <==> name in TableNames(s)
    ensures r.Some? ==> r.value in s.tables && r.value.name == name
    decreases |s.tables|
  {
    if s.tables == [] then None
    else if s.tables[0].name == name then Some(s.tables[0])
    else
      var r := FindTable(DatabaseSchema(s.tables[1..]), name);
      assert s.tables == [s.tables[0]] + s.tables[1..];
      r
  }

  lemma FindTableUnique(s: DatabaseSchema, t: TableDefinition)
    requires DistinctTables(s.tables) && t in s.tables
    ensures FindTable(s, t.name) == Some(t)
  {
    var r := FindTable(s, t.name);
    assert t.name in TableNames(s);
    var i :| 0 <= i < |s.tables| && s.tables[i] == t;
    var j :| 0 <= j < |s.tables| && s.tables[j] == r.value;
  }

  // ----- insertion, as the ordered sets do it: a name already present stays -------

  function InsertColumn(cs: seq<ColumnDefinition>, c: ColumnDefinition): (r: seq<ColumnDefinition>)
    requires DistinctColumns(cs)
    ensures DistinctColumns(r)
    ensures (set x | x in r :: x.name) == (set x | x in cs :: x.name) + {c.name}
    ensures forall x | x in cs :: x in r
  {
    if exists x | x in cs :: x.name == c.name then cs else cs + [c]
  }

  function InsertIndex(xs: seq<IndexDefinition>, x: IndexDefinition): (r: seq<IndexDefinition>)
    requires DistinctIndexes(xs)
    ensures DistinctIndexes(r)
    ensures (set y | y in r :: y.name) == (set y | y in xs :: y.name) + {x.name}
    ensures forall y | y in r :: y in xs || y == x
  {
    if exists y | y in xs :: y.name == x.name then xs else xs + [x]
  }

  function InsertTable(ts: seq<TableDefinition>, t: TableDefinition): (r: seq<TableDefinition>)
    requires DistinctTables(ts)
    ensures DistinctTables(r)
    ensures (set x | x in r :: x.name) == (set x | x in ts :: x.name) + {t.name}
    ensures forall x | x in r :: x in ts || x == t
    ensures forall x | x in ts :: x in r
    ensures t.name !in (set x | x in ts :: x.name) ==> r == ts + [t]
  {
    if exists x | x in ts :: x.name == t.name then ts else ts + [t]
  }
}
