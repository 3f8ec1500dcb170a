/** Which registries' schemas a synchronisation can reach: the index names they ask for. */
module Attainability {
  import opened Wrappers
  import opened SchemaAst
  import opened SchemaDiff
  import opened DomainSchema
  import opened Builder
  import opened Catalog
  import opened Convergence
  import opened BuiltSchema
  import opened Naming

  // ----- the indexes of each table ---------------------------------------------------------

  /** An attribute index, or the one that keeps a singleton single. */
  ghost predicate TypeIndex(table: string, singleton: bool, fields: seq<FieldDefinition>, x: IndexDefinition) {
    || (singleton && x == SingletonIndexes(table, true)[0])
    || exists f | f in fields :: f.unique && x == UniqueIndex(table, f)
  }

  lemma SameNameSameIndex(table: string, singleton: bool, fields: seq<FieldDefinition>, x: IndexDefinition,
                          y: IndexDefinition)
    requires TypeIndex(table, singleton, fields, x) && TypeIndex(table, singleton, fields, y) && x.name == y.name
    ensures x == y
  {
    forall a, b ensures IndexName(table, a) == IndexName(table, b) ==> a == b {
      ColumnOfIndex(table, a);
      ColumnOfIndex(table, b);
    }
    SingletonIsIndexName(table);
  }

  lemma ColumnOfIndex(table: string, column: string)
    ensures IndexName(table, column)[|"idx_"| + |table| + |"_"|..] == column
  {
  }

  lemma SingletonIsIndexName(table: string)
    ensures SingletonIndexName(table) == IndexName(table, "_singleton")
  {
    assert "__singleton" == "_" + "_singleton";
  }

  lemma {:induction false} TypeIndexesAre(table: string, singleton: bool, fields: seq<FieldDefinition>,
                                          x: IndexDefinition)
    ensures x in WithUniqueIndexes(SingletonIndexes(table, singleton), table, fields) <==>
            TypeIndex(table, singleton, fields, x)
  {
    if fields != [] {
      var n := |fields| - 1;
      var before := WithUniqueIndexes(SingletonIndexes(table, singleton), table, fields[..n]);
      hide TypeIndex, UniqueIndex, SingletonIndexes;
      TypeIndexesAre(table, singleton, fields[..n], x);
      OneMoreField(table, singleton, fields, x);
      if fields[n].unique && x == UniqueIndex(table, fields[n]) {
        forall y | y in before && y.name == x.name ensures y == x {
          TypeIndexesAre(table, singleton, fields[..n], y);
          OneMoreField(table, singleton, fields, y);
          SameNameSameIndex(table, singleton, fields, x, y);
        }
      }
    }
  }

  lemma OneMoreField(table: string, singleton: bool, fields: seq<FieldDefinition>, x: IndexDefinition)
    requires fields != []
    ensures var n := |fields| - 1;
            TypeIndex(table, singleton, fields, x) <==>
            TypeIndex(table, singleton, fields[..n], x) || (fields[n].unique && x == UniqueIndex(table, fields[n]))
  {
    hide UniqueIndex, SingletonIndexes;
    var n := |fields| - 1;
    assert fields == fields[..n] + [fields[n]];
    assert fields[n] in fields;
  }

  /** The indexes of a table of the schema, told from what it is made for. */
  ghost predicate IndexOf(reg: SchemaRegistry, i: Item, x: IndexDefinition)
    requires Wanted(reg, i)
  {
    var table := TableOf(reg, i).name;
    match i
    case OfType(t, _) => TypeIndex(table, t.kind.SingleType?, t.fields, x)
    case OfRelation(r, _) =>
      || (r.ownerKind.HasOne? && x == IndexDefinition(LinkOwnerIndexName(table), table, ["owner_id"], true))
      || x == IndexDefinition(LinkTargetIndexName(table), table, ["target_id"], false)
  }

  lemma IndexesAre(reg: SchemaRegistry, i: Item, x: IndexDefinition)
    requires Wanted(reg, i)
    ensures x in TableOf(reg, i).indexes <==> IndexOf(reg, i, x)
  {
    if i.OfType? {
      hide TypeIndex, WithUniqueIndexes;
      TypeIndexesAre(TableOf(reg, i).name, i.t.kind.SingleType?, i.t.fields, x);
    }
  }

  /** Within one table an index name says what the index is. */
  lemma IndexByName(reg: SchemaRegistry, i: Item, x: IndexDefinition, y: IndexDefinition)
    requires Wanted(reg, i) && x in TableOf(reg, i).indexes && y in TableOf(reg, i).indexes && x.name == y.name
    ensures x == y
  {
    IndexesAre(reg, i, x);
    IndexesAre(reg, i, y);
    var table := TableOf(reg, i).name;
    hide TableOf, Wanted;
    if i.OfType? {
      SameNameSameIndex(table, i.t.kind.SingleType?, i.t.fields, x, y);
    } else {
      assert LinkOwnerIndexName(table)[0] == 'u' && LinkTargetIndexName(table)[0] == 'i';
    }
  }

  // ----- names that introspection passes over ------------------------------------------------

  predicate ReservedColumn(c: string) { c == "pkey" || EndsWith(c, PKEY) }

  /** An attribute's index is hidden exactly when its column is `pkey` or ends in `_pkey`. */
  lemma HiddenIndex(table: string, c: string)
    ensures EndsWith(IndexName(table, c), PKEY) <==> ReservedColumn(c)
  {
    var n := IndexName(table, c);
    assert n == ("idx_" + table) + ("_" + c);
    if |c| >= 5 {
      assert n[|n| - 5..] == c[|c| - 5..];
    } else if |c| == 4 {
      assert n[|n| - 5..] == "_" + c;
      assert "_" + c == PKEY <==> c == "pkey" by {
        assert c == ("_" + c)[1..];
        assert PKEY[1..] == "pkey";
      }
    } else {
      assert n[|n| - 5..][4 - |c|] == n[|n| - 1 - |c|] == '_';
      assert PKEY[4 - |c|] != '_';
    }
  }

  lemma LinkIndexesShow(table: string)
    ensures !EndsWith(LinkOwnerIndexName(table), PKEY) && !EndsWith(LinkTargetIndexName(table), PKEY)
  {
    var o, t := LinkOwnerIndexName(table), LinkTargetIndexName(table);
    assert o[|o| - 5..][4] == o[|o| - 1] == 'r' && t[|t| - 5..][4] == t[|t| - 1] == 't';
    assert PKEY[4] == 'y';
  }

  // ----- attainability, told from the registry -------------------------------------------------

  /** No table is on the system list, no unique attribute has a reserved column, and no two
      tables ask for one index name. */
  ghost predicate NamesReachable(reg: SchemaRegistry) {
    && (forall i | Wanted(reg, i) :: TableOf(reg, i).name !in SYSTEM_TABLES)
    && (forall t, f | t in reg.types && f in t.fields && f.unique :: !ReservedColumn(KebabToSnake(f.id)))
    && (forall i, j, n | Wanted(reg, i) && Wanted(reg, j) && n in IndexNames(TableOf(reg, i))
        && n in IndexNames(TableOf(reg, j)) ::
          i == j)
  }

  /** No index of a system table has a name the schema asks for. */
  ghost predicate NamesFree(db: Catalog, desired: DatabaseSchema) {
    forall d, n | d in desired.tables && n in IndexNames(d) ::
      !(n in db.indexes && db.indexes[n].table in SYSTEM_TABLES)
  }

  lemma HiddenOf(reg: SchemaRegistry, i: Item, x: IndexDefinition)
    requires Wanted(reg, i) && x in TableOf(reg, i).indexes
    ensures EndsWith(x.name, PKEY) <==>
            i.OfType? && exists f | f in i.t.fields ::
                f.unique && x == UniqueIndex(TableOf(reg, i).name, f) && ReservedColumn(KebabToSnake(f.id))
  {
    IndexesAre(reg, i, x);
    var table := TableOf(reg, i).name;
    hide TableOf, Wanted, ReservedColumn, EndsWith;
    LinkIndexesShow(table);
    SingletonIsIndexName(table);
    HiddenIndex(table, "_singleton");
    assert !ReservedColumn("_singleton") by { SingletonColumnShows(); }
    forall f | f in (if i.OfType? then i.t.fields else [])
      ensures EndsWith(UniqueIndex(table, f).name, PKEY) <==> ReservedColumn(KebabToSnake(f.id))
    {
      HiddenIndex(table, KebabToSnake(f.id));
    }
  }

  lemma SingletonColumnShows()
    ensures !ReservedColumn("_singleton")
  {
    assert "_singleton"[|"_singleton"| - 5..][4] == 'n';
  }

  lemma HiddenAttributes(reg: SchemaRegistry)
    ensures (forall i, x | Wanted(reg, i) && x in TableOf(reg, i).indexes :: !EndsWith(x.name, PKEY)) <==>
            (forall t, f | t in reg.types && f in t.fields && f.unique :: !ReservedColumn(KebabToSnake(f.id)))
  {
    hide TableOf, EndsWith, ReservedColumn, UniqueIndex;
    forall i, x | Wanted(reg, i) && x in TableOf(reg, i).indexes
      ensures EndsWith(x.name, PKEY) ==>
                i.OfType? && i.t in reg.types && exists f | f in i.t.fields ::
                    f.unique && ReservedColumn(KebabToSnake(f.id))
    {
      HiddenOf(reg, i, x);
    }
    forall t, f | t in reg.types && f in t.fields && f.unique
      ensures var i := OfType(t, false); Wanted(reg, i) && exists x | x in TableOf(reg, i).indexes ::
                EndsWith(x.name, PKEY) <==> ReservedColumn(KebabToSnake(f.id))
    {
      AttributeIsIndexed(reg, t, f);
    }
    forall t, f | t in reg.types && f in t.fields && f.unique && ReservedColumn(KebabToSnake(f.id))
      ensures exists i, x :: Wanted(reg, i) && x in TableOf(reg, i).indexes && EndsWith(x.name, PKEY)
    {
      AttributeIsIndexed(reg, t, f);
      var i := OfType(t, false);
      assert Wanted(reg, i) && UniqueIndex(TableOf(reg, i).name, f) in TableOf(reg, i).indexes;
    }
  }

  lemma AttributeIsIndexed(reg: SchemaRegistry, t: DocumentType, f: FieldDefinition)
    requires t in reg.types && f in t.fields && f.unique
    ensures var i := OfType(t, false);
            && Wanted(reg, i) && UniqueIndex(TableOf(reg, i).name, f) in TableOf(reg, i).indexes
            && (EndsWith(UniqueIndex(TableOf(reg, i).name, f).name, PKEY) <==> ReservedColumn(KebabToSnake(f.id)))
  {
    var i := OfType(t, false);
    IndexesAre(reg, i, UniqueIndex(TableOf(reg, i).name, f));
    HiddenIndex(TableOf(reg, i).name, KebabToSnake(f.id));
  }

  /** The schema of a registry is attainable exactly when its names are reachable and no
      index of a system table holds one. */
  lemma AttainableIffReachable(reg: SchemaRegistry, s: DatabaseSchema, db: Catalog)
    requires BuiltFrom(reg, s)
    ensures Attainable(db, s) <==> NamesReachable(reg) && NamesFree(db, s)
  {
    HiddenAttributes(reg);
    hide TableOf, Wanted, WellNamed, EndsWith, ReservedColumn;
    forall d | d in s.tables ensures exists i :: Wanted(reg, i) && TableOf(reg, i) == d {
      var i := BuiltItem(reg, s, d);
    }
    forall i | Wanted(reg, i) ensures TableOf(reg, i) in s.tables && TableOf(reg, i).name in TableNames(s) {
      BuiltTable(reg, s, i);
    }
    forall i, j | Wanted(reg, i) && Wanted(reg, j) && TableOf(reg, i) == TableOf(reg, j) ensures i == j {
      NamesAreDistinct(reg, i, j);
    }
    hide BuiltFrom;
  }

  /** With names that are not reachable no number of syncs, complete or not, ever ends with
      an empty diff. */
  lemma UnreachableNeverSettles(reg: SchemaRegistry, s: DatabaseSchema, db: Catalog, plans: seq<seq<MigrationStep>>,
                                actual: DatabaseSchema)
    requires BuiltFrom(reg, s) && !NamesReachable(reg) && Syncs(db, s, plans)
    requires Introspection(AfterSyncs(db, plans), actual)
    ensures DiffSteps(actual, s) != []
  {
    hide BuiltFrom, NamesReachable, Syncs, Attainable, Settled, Introspection;
    BuiltWellFormed(reg, s);
    AttainableIffReachable(reg, s, db);
    SettledIffNoSteps(AfterSyncs(db, plans), actual, s);
    if Settled(AfterSyncs(db, plans), s) {
      NeverSettles(db, s, plans);
    }
  }

  // ----- registries whose names are not reachable ------------------------------------------------

  /** A unique attribute whose column is `pkey` or ends in `_pkey`. */
  lemma ReservedAttributeUnreachable(reg: SchemaRegistry, t: DocumentType, f: FieldDefinition)
    requires t in reg.types && f in t.fields && f.unique && ReservedColumn(KebabToSnake(f.id))
    ensures !NamesReachable(reg)
  {
    hide ReservedColumn;
  }

  lemma AttributeAsks(reg: SchemaRegistry, t: DocumentType, published: bool, f: FieldDefinition)
    requires Wanted(reg, OfType(t, published)) && f in t.fields && f.unique
    ensures var table := if published then PublishedTableName(t.TableName()) else t.TableName();
            IndexName(table, KebabToSnake(f.id)) in IndexNames(TableOf(reg, OfType(t, published)))
  {
    var i := OfType(t, published);
    IndexesAre(reg, i, UniqueIndex(TableOf(reg, i).name, f));
  }

  lemma TwoAsk(reg: SchemaRegistry, i: Item, j: Item, n: string)
    requires Wanted(reg, i) && Wanted(reg, j) && i != j
    requires n in IndexNames(TableOf(reg, i)) && n in IndexNames(TableOf(reg, j))
    ensures !NamesReachable(reg)
  {
    hide TableOf, Wanted;
  }

  /** Unique attributes of two types whose tables and columns run together to one name. */
  lemma CollidingAttributesUnreachable(reg: SchemaRegistry, t: DocumentType, u: DocumentType, f: FieldDefinition,
                                       g: FieldDefinition)
    requires t in reg.types && u in reg.types && t != u && f in t.fields && g in u.fields && f.unique && g.unique
    requires IndexName(t.TableName(), KebabToSnake(f.id)) == IndexName(u.TableName(), KebabToSnake(g.id))
    ensures !NamesReachable(reg)
  {
    hide TableOf, NamesReachable, KebabToSnake, IndexName;
    AttributeAsks(reg, t, false, f);
    AttributeAsks(reg, u, false, g);
    TwoAsk(reg, OfType(t, false), OfType(u, false), IndexName(t.TableName(), KebabToSnake(f.id)));
  }

  const ROLE_NAME := FieldDefinition("role-name", Primitive(Text), false, true, [])
  const NAME := FieldDefinition("name", Primitive(Text), false, true, [])
  const USER := DocumentType("user", Collection, "user", "user", false, [ROLE_NAME])
  const USER_ROLE := DocumentType("user-role", Collection, "user-role", "user-role", false, [NAME])
  const USERS := SchemaRegistry([USER, USER_ROLE], ByName([USER, USER_ROLE]), [])

  lemma UserNames()
    ensures USER.TableName() == "user" && USER_ROLE.TableName() == "user_role"
    ensures KebabToSnake(ROLE_NAME.id) == "role_name" && KebabToSnake(NAME.id) == "name"
    ensures Kebab(USER.RawName()) && Kebab(USER_ROLE.RawName()) && USER.id != USER_ROLE.id
  {
    assert "user" != "user-role" by { assert |"user"| != |"user-role"|; }
  }

  lemma UsersAreWellNamed()
    ensures WellNamed(USERS)
  {
    UserNames();
    hide Kebab, KebabToSnake;
    assert |USERS.types| == 2 && USERS.types[0] == USER && USERS.types[1] == USER_ROLE;
    assert forall t | t in USERS.types :: t == USER || t == USER_ROLE;
    assert USER.pluralName == "user" && USER_ROLE.pluralName == "user-role"
      && |USER.pluralName| != |USER_ROLE.pluralName|;
    assert USER.RawName() != USER_ROLE.RawName();
  }

  /** Such a registry can be perfectly well named. */
  lemma WellNamedYetUnreachable()
    ensures WellNamed(USERS) && !NamesReachable(USERS)
  {
    UsersAreWellNamed();
    hide NamesReachable, WellNamed;
    UserNames();
    hide KebabToSnake, Kebab, IndexName;
    IndexNamesCollide();
    CollidingAttributesUnreachable(USERS, USER, USER_ROLE, ROLE_NAME, NAME);
  }
}
