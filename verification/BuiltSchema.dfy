/** What the built schema contains, whatever the iteration order, and that it is closed
    under its foreign keys. */
module BuiltSchema {
  import opened Wrappers
  import opened SchemaAst
  import opened SchemaDiff
  import opened DomainSchema
  import opened Builder
  import opened Planner
  import opened Catalog
  import opened Convergence
  import opened Completion
  import opened Naming

  /** One table to be made: for a type or for a relation, the working or the published one. */
  datatype Item = OfType(t: DocumentType, published: bool) | OfRelation(r: Relation, published: bool)

  function Owner(reg: SchemaRegistry, r: Relation): DocumentType
    requires reg.FindType(r.ownerType).Some?
  {
    reg.FindType(r.ownerType).value
  }

  predicate Wanted(reg: SchemaRegistry, i: Item) {
    match i
    case OfType(t, published) => t in reg.types && (published ==> t.draftAndPublish)
    case OfRelation(r, published) =>
      r in reg.relations && reg.FindType(r.ownerType).Some? && (published ==> Owner(reg, r).draftAndPublish)
  }

  function TableOf(reg: SchemaRegistry, i: Item): TableDefinition
    requires Wanted(reg, i)
  {
    match i
    case OfType(t, false) => EntityTable(t)
    case OfType(t, true) => PublishedTable(t)
    case OfRelation(r, false) => DraftLinkTable(reg, Owner(reg, r), r)
    case OfRelation(r, true) => PublishedLinkTable(reg, Owner(reg, r), r)
  }

  function RoleOf(reg: SchemaRegistry, i: Item): TableRole
    requires Wanted(reg, i)
  {
    match i
    case OfType(t, false) => EntityRole(t.TableName())
    case OfType(t, true) => PublishedRole(t.TableName())
    case OfRelation(r, false) => DraftLinkRole(Owner(reg, r).TableName(), r.ownerAttr)
    case OfRelation(r, true) => PublishedLinkRole(Owner(reg, r).TableName(), r.ownerAttr)
  }

  lemma RoleNamesTable(reg: SchemaRegistry, i: Item)
    requires Wanted(reg, i)
    ensures TableOf(reg, i).name == RoleOf(reg, i).Name() && TableOf(reg, i).kind == RoleOf(reg, i).Kind()
  {
  }

  lemma TypeNameIsSnake(reg: SchemaRegistry, t: DocumentType)
    requires WellNamed(reg) && t in reg.types
    ensures Snake(t.TableName())
  {
    KebabBecomesSnake(t.RawName());
  }

  lemma RoleIsValid(reg: SchemaRegistry, i: Item)
    requires WellNamed(reg) && Wanted(reg, i)
    ensures RoleOf(reg, i).Valid()
  {
    TypeNameIsSnake(reg, if i.OfType? then i.t else Owner(reg, i.r));
  }

  lemma TableNameIdentifiesType(reg: SchemaRegistry, t: DocumentType, u: DocumentType)
    requires WellNamed(reg) && t in reg.types && u in reg.types
    ensures t.TableName() == u.TableName() <==> t == u
  {
    KebabToSnakeInjective(t.RawName(), u.RawName());
  }

  lemma RoleIdentifiesItem(reg: SchemaRegistry, i: Item, j: Item)
    requires WellNamed(reg) && Wanted(reg, i) && Wanted(reg, j) && RoleOf(reg, i) == RoleOf(reg, j)
    ensures i == j
  {
    var t := if i.OfType? then i.t else Owner(reg, i.r);
    var u := if j.OfType? then j.t else Owner(reg, j.r);
    TableNameIdentifiesType(reg, t, u);
  }

  /** No two tables of the schema share a name. */
  lemma NamesAreDistinct(reg: SchemaRegistry, i: Item, j: Item)
    requires WellNamed(reg) && Wanted(reg, i) && Wanted(reg, j)
    ensures TableOf(reg, i).name == TableOf(reg, j).name <==> i == j
  {
    RoleNamesTable(reg, i);
    RoleNamesTable(reg, j);
    RoleIsValid(reg, i);
    RoleIsValid(reg, j);
    UniqueDecoding(RoleOf(reg, i), RoleOf(reg, j));
    if RoleOf(reg, i) == RoleOf(reg, j) {
      RoleIdentifiesItem(reg, i, j);
    }
  }

  // ----- which tables the builder inserts -------------------------------------------------

  ghost predicate Enumerates(names: seq<string>, keys: set<string>) {
    (forall n :: n in names <==> n in keys)
    && forall i, j | 0 <= i < j < |names| :: names[i] != names[j]
  }

  lemma {:induction false} InTypesNamed(reg: SchemaRegistry, names: seq<string>, t: DocumentType)
    ensures t in TypesNamed(reg, names) <==> exists n | n in names :: reg.FindTypeByName(n) == Some(t)
  {
    if names != [] {
      var k := |names| - 1;
      InTypesNamed(reg, names[..k], t);
      assert names == names[..k] + [names[k]];
      if reg.FindTypeByName(names[k]) == Some(t) {
        assert names[k] in names;
      }
    }
  }

  /** Every type is reached through its plural name, once these are distinct. */
  lemma AllTypesNamed(reg: SchemaRegistry, names: seq<string>, t: DocumentType)
    requires WellNamed(reg) && Enumerates(names, reg.byName.Keys)
    ensures t in TypesNamed(reg, names) <==> t in reg.types
  {
    InTypesNamed(reg, names, t);
    ByNameKeys(reg.types);
    if t in reg.types {
      var n := t.pluralName;
      assert n in reg.byName;
      var u :| u in reg.types && u.pluralName == n && u.id == reg.byName[n];
      FindTypeUnique(reg, t);
      assert n in names;
    }
  }

  lemma {:induction false} InEntities(ts: seq<DocumentType>, d: TableDefinition)
    ensures d in Entities(ts) <==> exists t | t in ts :: d == EntityTable(t)
  {
    hide EntityTable;
    if ts != [] {
      var n := |ts| - 1;
      InEntities(ts[..n], d);
      assert ts == ts[..n] + [ts[n]];
    }
  }

  lemma {:induction false} InMirrors(ts: seq<DocumentType>, d: TableDefinition)
    ensures d in Mirrors(ts) <==> exists t | t in ts :: t.draftAndPublish && d == PublishedTable(t)
  {
    if ts != [] {
      var n := |ts| - 1;
      InMirrors(ts[..n], d);
      assert ts == ts[..n] + [ts[n]];
    }
  }

  lemma {:induction false} InPart(links: seq<TableDefinition>, published: bool, d: TableDefinition)
    ensures d in Part(links, published) <==> d in links && EndsWith(d.name, PUBLISHED) == published
  {
    if links != [] {
      var n := |links| - 1;
      InPart(links[..n], published, d);
      assert links == links[..n] + [links[n]];
    }
  }

  ghost predicate LinkOf(reg: SchemaRegistry, owner: DocumentType, rs: seq<Relation>, d: TableDefinition) {
    exists r | r in rs ::
      r.ownerType == owner.id
      && (d == DraftLinkTable(reg, owner, r) || (owner.draftAndPublish && d == PublishedLinkTable(reg, owner, r)))
  }

  lemma {:induction false} InLinkTables(reg: SchemaRegistry, owner: DocumentType, rs: seq<Relation>, d: TableDefinition)
    ensures d in LinkTables(reg, owner, rs) <==> LinkOf(reg, owner, rs, d)
  {
    if rs != [] {
      var n := |rs| - 1;
      InLinkTables(reg, owner, rs[..n], d);
      assert rs == rs[..n] + [rs[n]];
      assert LinkOf(reg, owner, rs, d) <==> LinkOf(reg, owner, rs[..n], d) || LinkOf(reg, owner, [rs[n]], d);
    }
  }

  lemma {:induction false} InLinks(reg: SchemaRegistry, ts: seq<DocumentType>, published: bool, d: TableDefinition)
    ensures d in Links(reg, ts, published) <==>
            exists t | t in ts :: LinkOf(reg, t, reg.relations, d) && EndsWith(d.name, PUBLISHED) == published
  {
    if ts != [] {
      var n := |ts| - 1;
      InLinks(reg, ts[..n], published, d);
      InPart(LinkTables(reg, ts[n], reg.relations), published, d);
      InLinkTables(reg, ts[n], reg.relations, d);
      assert ts == ts[..n] + [ts[n]];
    }
  }

  lemma {:induction false} InInsertAll(ts: seq<TableDefinition>, more: seq<TableDefinition>, d: TableDefinition)
    requires DistinctTables(ts)
    requires forall x, y | x in ts + more && y in ts + more && x.name == y.name :: x == y
    ensures d in InsertAll(ts, more) <==> d in ts || d in more
    decreases |more|
  {
    if more != [] {
      var n := |more| - 1;
      assert more == more[..n] + [more[n]];
      InInsertAll(ts, more[..n], d);
      if d == more[n] && exists x | x in InsertAll(ts, more[..n]) :: x.name == d.name {
        var x :| x in InsertAll(ts, more[..n]) && x.name == d.name;
        InInsertAll(ts, more[..n], x);
        assert x in ts + more && d in ts + more;
      }
    }
  }

  ghost predicate Made(reg: SchemaRegistry, d: TableDefinition) {
    exists i: Item :: Wanted(reg, i) && d == TableOf(reg, i)
  }

  lemma ListedIsMade(reg: SchemaRegistry, ts: seq<DocumentType>, d: TableDefinition)
    requires WellNamed(reg) && forall t :: t in ts <==> t in reg.types
    ensures (d in Entities(ts) || d in Mirrors(ts) || d in Links(reg, ts, false) || d in Links(reg, ts, true)) <==>
            Made(reg, d)
  {
    InEntities(ts, d);
    InMirrors(ts, d);
    InLinks(reg, ts, false, d);
    InLinks(reg, ts, true, d);
    if d in Entities(ts) {
      var t :| t in ts && d == EntityTable(t);
      assert Wanted(reg, OfType(t, false)) && d == TableOf(reg, OfType(t, false));
    }
    if d in Mirrors(ts) {
      var t :| t in ts && t.draftAndPublish && d == PublishedTable(t);
      assert Wanted(reg, OfType(t, true)) && d == TableOf(reg, OfType(t, true));
    }
    forall t | t in ts && LinkOf(reg, t, reg.relations, d)
      ensures Made(reg, d)
    {
      LinkIsMade(reg, t, d);
    }
    if Made(reg, d) {
      var i: Item :| Wanted(reg, i) && d == TableOf(reg, i);
      if i.OfType? {
        assert i.t in ts;
      } else {
        var owner := Owner(reg, i.r);
        assert owner in ts && LinkOf(reg, owner, reg.relations, d);
      }
    }
  }

  lemma LinkIsMade(reg: SchemaRegistry, t: DocumentType, d: TableDefinition)
    requires WellNamed(reg) && t in reg.types && LinkOf(reg, t, reg.relations, d)
    ensures Made(reg, d)
  {
    var r :| r in reg.relations && r.ownerType == t.id
             && (d == DraftLinkTable(reg, t, r) || (t.draftAndPublish && d == PublishedLinkTable(reg, t, r)));
    FindTypeUnique(reg, t);
    var i := OfRelation(r, d != DraftLinkTable(reg, t, r));
    assert Wanted(reg, i) && d == TableOf(reg, i);
  }

  /** Nothing is dropped on the way and nothing else comes in: the schema holds exactly the
      tables of the registry's types and relations, in every iteration order. */
  lemma SchemaIsMade(reg: SchemaRegistry, names: seq<string>, d: TableDefinition)
    requires WellNamed(reg) && Enumerates(names, reg.byName.Keys)
    ensures d in SchemaOf(reg, TypesNamed(reg, names)).tables <==> Made(reg, d)
  {
    var ts := TypesNamed(reg, names);
    forall t: DocumentType ensures t in ts <==> t in reg.types {
      AllTypesNamed(reg, names, t);
    }
    forall x, y | Made(reg, x) && Made(reg, y) && x.name == y.name
      ensures x == y
    {
      var i: Item :| Wanted(reg, i) && x == TableOf(reg, i);
      var j: Item :| Wanted(reg, j) && y == TableOf(reg, j);
      NamesAreDistinct(reg, i, j);
    }
    InsertedIsListed(reg, ts, d);
    ListedIsMade(reg, ts, d);
  }

  lemma InsertedIsListed(reg: SchemaRegistry, ts: seq<DocumentType>, d: TableDefinition)
    requires WellNamed(reg) && forall t :: t in ts <==> t in reg.types
    requires forall x, y | Made(reg, x) && Made(reg, y) && x.name == y.name :: x == y
    ensures d in SchemaOf(reg, ts).tables <==>
            d in Entities(ts) || d in Mirrors(ts) || d in Links(reg, ts, false) || d in Links(reg, ts, true)
  {
    hide Made, WellNamed, Entities, Mirrors, Links, InsertAll;
    var a, b, c, e := Entities(ts), Mirrors(ts), Links(reg, ts, false), Links(reg, ts, true);
    forall x | x in a + b + c + e ensures Made(reg, x) {
      ListedIsMade(reg, ts, x);
    }
    FourInserts(a, b, c, e, d);
  }

  lemma FourInserts(a: seq<TableDefinition>, b: seq<TableDefinition>, c: seq<TableDefinition>, e: seq<TableDefinition>,
                    d: TableDefinition)
    requires forall x, y | x in a + b + c + e && y in a + b + c + e && x.name == y.name :: x == y
    ensures d in InsertAll(InsertAll(InsertAll(InsertAll([], a), b), c), e) <==> d in a + b + c + e
  {
    var all := a + b + c + e;
    var t1 := InsertAll([], a);
    forall x: TableDefinition ensures x in t1 <==> x in a { InInsertAll([], a, x); }
    var t2 := InsertAll(t1, b);
    forall x: TableDefinition ensures x in t2 <==> x in a || x in b { InInsertAll(t1, b, x); }
    var t3 := InsertAll(t2, c);
    forall x: TableDefinition ensures x in t3 <==> x in a || x in b || x in c { InInsertAll(t2, c, x); }
    InInsertAll(t3, e, d);
  }

  // ----- an example --------------------------------------------------------------------------

  const BLOG_POST := DocumentType("my-post", Collection, "my-post", "my-posts", true,
    [FieldDefinition("short-title", Primitive(Text), true, true, [])])

  const HOME_PAGE := DocumentType("home", SingleType, "home", "homes", false, [])

  const MAIN_PAGE := Relation("page-of-post", "my-post", "page", HasOne, "home", None)

  const BLOG := SchemaRegistry([BLOG_POST, HOME_PAGE], map["my-posts" := "my-post", "homes" := "home"],
    [MAIN_PAGE])

  lemma BlogSnakes()
    ensures BLOG_POST.TableName() == "my_posts" && HOME_PAGE.TableName() == "home"
    ensures KebabToSnake("short-title") == "short_title" && KebabToSnake("page") == "page"
    ensures BLOG.FindType("my-post") == Some(BLOG_POST) && BLOG.FindType("home") == Some(HOME_PAGE)
  {
    assert BLOG.FindType("home") == FindIn([HOME_PAGE], "home");
  }

  /** How tables, indexes and foreign keys are named and defined. */
  lemma BlogTables()
    ensures EntityTable(BLOG_POST).name == "my_posts"
    ensures EntityTable(BLOG_POST).indexes
            == [IndexDefinition("idx_my_posts_short_title", "my_posts", ["short_title"], true)]
    ensures PublishedTable(BLOG_POST).name == "my_posts__published"
    ensures PublishedTable(BLOG_POST).indexes
            == [IndexDefinition("idx_my_posts__published_short_title", "my_posts__published", ["short_title"], true)]
    ensures PublishedTable(BLOG_POST).foreignKeys
            == [ForeignKeyDefinition("fk_my_posts__published_id", ["id"], "my_posts", ["id"], Cascade, NoAction)]
    ensures EntityTable(HOME_PAGE).name == "home"
    ensures EntityTable(HOME_PAGE).indexes
            == [IndexDefinition("idx_home__singleton", "home", ["_singleton"], true)]
  {
    BlogSnakes();
    BlogNames();
    BlogMirrorNames();
    hide KebabToSnake, IndexName, SingletonIndexName, PublishedTableName, PublishedFkName, EntityColumns,
         PublishedColumns, WithAttributes;
    assert BLOG_POST.fields[..0] == [];
  }

  lemma BlogNames()
    ensures IndexName("my_posts", "short_title") == "idx_my_posts_short_title"
    ensures PublishedTableName("my_posts") == "my_posts__published"
    ensures SingletonIndexName("home") == "idx_home__singleton"
  {
  }

  lemma BlogMirrorNames()
    ensures IndexName("my_posts__published", "short_title") == "idx_my_posts__published_short_title"
    ensures PublishedFkName("my_posts__published") == "fk_my_posts__published_id"
  {
  }

  lemma BlogLinkNames()
    requires KebabToSnake("page") == "page"
    ensures LinkTableName("my_posts", "page") == "my_posts__page_link"
    ensures PublishedLinkTableName("my_posts__page_link") == "my_posts__page_link__published"
  {
    hide KebabToSnake;
  }

  lemma BlogLinkIndexNames()
    ensures LinkOwnerIndexName("my_posts__page_link") == "uq_my_posts__page_link_owner"
    ensures LinkTargetIndexName("my_posts__page_link") == "idx_my_posts__page_link_target"
  {
  }

  lemma BlogLinkKeyNames()
    ensures LinkOwnerFkName("my_posts__page_link") == "fk_my_posts__page_link_owner"
    ensures LinkTargetFkName("my_posts__page_link") == "fk_my_posts__page_link_target"
  {
  }

  lemma BlogLinks()
    ensures var d := DraftLinkTable(BLOG, BLOG_POST, MAIN_PAGE);
            && d.name == "my_posts__page_link"
            && d.indexes == [IndexDefinition("uq_my_posts__page_link_owner", d.name, ["owner_id"], true),
                             IndexDefinition("idx_my_posts__page_link_target", d.name, ["target_id"], false)]
            && d.foreignKeys == [
                 ForeignKeyDefinition("fk_my_posts__page_link_owner", ["owner_id"], "my_posts", ["id"],
                                      Cascade, NoAction),
                 ForeignKeyDefinition("fk_my_posts__page_link_target", ["target_id"], "home", ["id"],
                                      Cascade, NoAction)]
    ensures var d := PublishedLinkTable(BLOG, BLOG_POST, MAIN_PAGE);
            && d.name == "my_posts__page_link__published"
            && d.foreignKeys[0].referencedTable == "my_posts__published"
            && d.foreignKeys[1].referencedTable == "home"
  {
    BlogSnakes();
    BlogNames();
    BlogLinkNames();
    BlogLinkIndexNames();
    BlogLinkKeyNames();
    hide KebabToSnake, LinkTableName, PublishedTableName, PublishedLinkTableName, LinkOwnerIndexName,
         LinkTargetIndexName, LinkOwnerFkName, LinkTargetFkName, FindIn;
  }

  // ----- counting ------------------------------------------------------------------------

  function DraftAndPublishTypes(ts: seq<DocumentType>): nat {
    if ts == [] then 0
    else DraftAndPublishTypes(ts[..|ts| - 1]) + if ts[|ts| - 1].draftAndPublish then 1 else 0
  }

  predicate PublishedOwner(reg: SchemaRegistry, r: Relation) {
    reg.FindType(r.ownerType).Some? && Owner(reg, r).draftAndPublish
  }

  function DraftAndPublishRelations(reg: SchemaRegistry, rs: seq<Relation>): nat {
    if rs == [] then 0
    else DraftAndPublishRelations(reg, rs[..|rs| - 1]) + if PublishedOwner(reg, rs[|rs| - 1]) then 1 else 0
  }

  function TypeItems(ts: seq<DocumentType>): seq<Item> {
    if ts == [] then []
    else
      var t := ts[|ts| - 1];
      TypeItems(ts[..|ts| - 1]) + [OfType(t, false)] + if t.draftAndPublish then [OfType(t, true)] else []
  }

  function RelationItems(reg: SchemaRegistry, rs: seq<Relation>): seq<Item> {
    if rs == [] then []
    else
      var r := rs[|rs| - 1];
      RelationItems(reg, rs[..|rs| - 1]) + [OfRelation(r, false)]
      + if PublishedOwner(reg, r) then [OfRelation(r, true)] else []
  }

  lemma {:induction false} TypeItemsCount(ts: seq<DocumentType>)
    requires NoDuplicates(ts)
    ensures |TypeItems(ts)| == |ts| + DraftAndPublishTypes(ts)
    ensures NoDuplicates(TypeItems(ts))
    ensures forall i :: i in TypeItems(ts) <==> i.OfType? && i.t in ts && (i.published ==> i.t.draftAndPublish)
  {
    if ts != [] {
      var n := |ts| - 1;
      TypeItemsCount(ts[..n]);
      assert ts == ts[..n] + [ts[n]];
    }
  }

  lemma {:induction false} RelationItemsCount(reg: SchemaRegistry, rs: seq<Relation>)
    ensures |RelationItems(reg, rs)| == |rs| + DraftAndPublishRelations(reg, rs)
  {
    if rs != [] {
      RelationItemsCount(reg, rs[..|rs| - 1]);
    }
  }

  lemma {:induction false} InRelationItems(reg: SchemaRegistry, rs: seq<Relation>, i: Item)
    ensures i in RelationItems(reg, rs) <==> i.OfRelation? && i.r in rs && (i.published ==> PublishedOwner(reg, i.r))
  {
    if rs != [] {
      var n := |rs| - 1;
      InRelationItems(reg, rs[..n], i);
      assert rs == rs[..n] + [rs[n]];
    }
  }

  lemma {:induction false} RelationItemsDistinct(reg: SchemaRegistry, rs: seq<Relation>)
    requires NoDuplicates(rs)
    ensures NoDuplicates(RelationItems(reg, rs))
  {
    if rs != [] {
      var n := |rs| - 1;
      var front, r := RelationItems(reg, rs[..n]), rs[n];
      RelationItemsDistinct(reg, rs[..n]);
      InRelationItems(reg, rs[..n], OfRelation(r, false));
      InRelationItems(reg, rs[..n], OfRelation(r, true));
      assert OfRelation(r, false) !in front && OfRelation(r, true) !in front;
    }
  }

  lemma {:induction false} SameElementsSameLength<T>(xs: seq<T>, ys: seq<T>)
    requires NoDuplicates(xs) && NoDuplicates(ys)
    requires forall x :: x in xs <==> x in ys
    ensures multiset(xs) == multiset(ys) && |xs| == |ys|
  {
    forall x ensures multiset(xs)[x] == multiset(ys)[x] {
      OccursOnce(xs, x);
      OccursOnce(ys, x);
    }
    assert multiset(xs) == multiset(ys);
    assert |xs| == |multiset(xs)| && |ys| == |multiset(ys)|;
  }

  lemma {:induction false} OccursOnce<T>(xs: seq<T>, x: T)
    requires NoDuplicates(xs)
    ensures multiset(xs)[x] == if x in xs then 1 else 0
  {
    if xs != [] {
      var n := |xs| - 1;
      OccursOnce(xs[..n], x);
      assert xs == xs[..n] + [xs[n]];
    }
  }

  function TablesOf(reg: SchemaRegistry, items: seq<Item>): (r: seq<TableDefinition>)
    requires forall i | i in items :: Wanted(reg, i)
    ensures |r| == |items| && forall k | 0 <= k < |r| :: r[k] == TableOf(reg, items[k])
  {
    seq(|items|, k requires 0 <= k < |items| => assert items[k] in items; TableOf(reg, items[k]))
  }

  function AllItems(reg: SchemaRegistry): seq<Item> { TypeItems(reg.types) + RelationItems(reg, reg.relations) }

  lemma AllItemsWanted(reg: SchemaRegistry, i: Item)
    requires WellNamed(reg)
    ensures i in AllItems(reg) <==> Wanted(reg, i)
  {
    TypeItemsCount(reg.types);
    InRelationItems(reg, reg.relations, i);
  }

  lemma AllItemsDistinct(reg: SchemaRegistry)
    requires NoDuplicates(reg.types) && NoDuplicates(reg.relations)
    ensures NoDuplicates(AllItems(reg))
    ensures |AllItems(reg)| == |reg.types| + DraftAndPublishTypes(reg.types)
                               + |reg.relations| + DraftAndPublishRelations(reg, reg.relations)
  {
    TypeItemsCount(reg.types);
    RelationItemsCount(reg, reg.relations);
    RelationItemsDistinct(reg, reg.relations);
    var xs, ys := TypeItems(reg.types), RelationItems(reg, reg.relations);
    forall k | 0 <= k < |ys| ensures ys[k] !in xs {
      InRelationItems(reg, reg.relations, ys[k]);
    }
  }

  lemma TablesOfDistinct(reg: SchemaRegistry, items: seq<Item>)
    requires WellNamed(reg) && NoDuplicates(items)
    requires forall i | i in items :: Wanted(reg, i)
    ensures NoDuplicates(TablesOf(reg, items))
  {
    hide TableOf, WellNamed;
    var tables := TablesOf(reg, items);
    forall k, l | 0 <= k < l < |tables|
      ensures tables[k] != tables[l]
    {
      assert items[k] in items && items[l] in items;
      NamesAreDistinct(reg, items[k], items[l]);
    }
  }

  lemma InTablesOf(reg: SchemaRegistry, items: seq<Item>, d: TableDefinition)
    requires forall i :: i in items <==> Wanted(reg, i)
    ensures d in TablesOf(reg, items) <==> Made(reg, d)
  {
    hide TableOf, Wanted;
    var tables := TablesOf(reg, items);
    if d in tables {
      var k :| 0 <= k < |tables| && tables[k] == d;
      assert items[k] in items;
    }
    if Made(reg, d) {
      var i: Item :| Wanted(reg, i) && d == TableOf(reg, i);
      var k :| 0 <= k < |items| && items[k] == i;
      assert tables[k] == d;
    }
  }

  /** One entity table per type, one mirror per draft-and-publish type, one link table per
      relation, and one more for each relation whose owner has draft and publish. */
  lemma Conservation(reg: SchemaRegistry, names: seq<string>)
    requires WellNamed(reg) && Enumerates(names, reg.byName.Keys)
    ensures |SchemaOf(reg, TypesNamed(reg, names)).tables| ==
            |reg.types| + DraftAndPublishTypes(reg.types)
            + |reg.relations| + DraftAndPublishRelations(reg, reg.relations)
  {
    hide TableOf, Wanted, SchemaOf, TypesNamed;
    var tables := SchemaOf(reg, TypesNamed(reg, names)).tables;
    var items := AllItems(reg);
    AllItemsDistinct(reg);
    forall i: Item ensures i in items <==> Wanted(reg, i) {
      AllItemsWanted(reg, i);
    }
    TablesOfDistinct(reg, items);
    forall d: TableDefinition ensures d in tables <==> d in TablesOf(reg, items) {
      SchemaIsMade(reg, names, d);
      InTablesOf(reg, items, d);
    }
    SameElementsSameLength(tables, TablesOf(reg, items));
  }

  /** The iteration order of the hash map does not matter. */
  lemma OrderIrrelevant(reg: SchemaRegistry, names1: seq<string>, names2: seq<string>)
    requires WellNamed(reg) && Enumerates(names1, reg.byName.Keys) && Enumerates(names2, reg.byName.Keys)
    ensures multiset(SchemaOf(reg, TypesNamed(reg, names1)).tables)
            == multiset(SchemaOf(reg, TypesNamed(reg, names2)).tables)
  {
    hide Made, SchemaOf, TypesNamed, WellNamed;
    var ts1 := SchemaOf(reg, TypesNamed(reg, names1)).tables;
    var ts2 := SchemaOf(reg, TypesNamed(reg, names2)).tables;
    forall d: TableDefinition ensures d in ts1 <==> d in ts2 {
      SchemaIsMade(reg, names1, d);
      SchemaIsMade(reg, names2, d);
    }
    SameElementsSameLength(ts1, ts2);
  }

  // ----- closure ----------------------------------------------------------------------------

  /** A schema holding exactly the tables of the registry. */
  ghost predicate BuiltFrom(reg: SchemaRegistry, s: DatabaseSchema) {
    && WellNamed(reg)
    && DistinctTables(s.tables)
    && forall d: TableDefinition :: d in s.tables <==> Made(reg, d)
  }

  lemma BuilderBuilds(reg: SchemaRegistry, names: seq<string>)
    requires WellNamed(reg) && Enumerates(names, reg.byName.Keys)
    ensures BuiltFrom(reg, SchemaOf(reg, TypesNamed(reg, names)))
  {
    hide Made, SchemaOf, TypesNamed, WellNamed;
    forall d: TableDefinition ensures d in SchemaOf(reg, TypesNamed(reg, names)).tables <==> Made(reg, d) {
      SchemaIsMade(reg, names, d);
    }
  }

  lemma BuiltTable(reg: SchemaRegistry, s: DatabaseSchema, i: Item)
    requires BuiltFrom(reg, s) && Wanted(reg, i)
    ensures TableOf(reg, i) in s.tables && TableOf(reg, i).name in TableNames(s)
    ensures FindTable(s, TableOf(reg, i).name) == Some(TableOf(reg, i))
  {
    hide TableOf, Wanted, WellNamed;
    assert Made(reg, TableOf(reg, i));
    FindTableUnique(s, TableOf(reg, i));
  }

  lemma BuiltItem(reg: SchemaRegistry, s: DatabaseSchema, d: TableDefinition) returns (i: Item)
    requires BuiltFrom(reg, s) && d in s.tables
    ensures Wanted(reg, i) && d == TableOf(reg, i)
  {
    hide TableOf, Wanted, WellNamed;
    i :| Wanted(reg, i) && d == TableOf(reg, i);
  }

  /** Index definitions name their own table and its own columns. */
  lemma IndexShape(reg: SchemaRegistry, i: Item, x: IndexDefinition)
    requires Wanted(reg, i) && x in TableOf(reg, i).indexes
    ensures x.tableName == TableOf(reg, i).name
    ensures ToSet(x.columns) <= ColumnNames(TableOf(reg, i))
  {
    var d := TableOf(reg, i);
    if i.OfType? {
      var singleton := i.t.kind.SingleType?;
      var base := if i.published then PublishedColumns(singleton) else EntityColumns(singleton);
      assert d.columns == WithAttributes(base, i.t.fields);
      if x in SingletonIndexes(d.name, singleton) {
        assert SINGLETON in base && SINGLETON in d.columns;
      } else {
        var f :| f in i.t.fields && x == UniqueIndex(d.name, f);
        assert KebabToSnake(f.id) in ColumnNames(d);
      }
    } else {
      assert LINK_COLUMNS[0] in d.columns && LINK_COLUMNS[1] in d.columns;
    }
  }

  predicate DistinctColumnNames(fields: seq<FieldDefinition>) {
    forall i, j | 0 <= i < j < |fields| :: KebabToSnake(fields[i].id) != KebabToSnake(fields[j].id)
  }

  /** Attributes of one type have distinct kebab-case ids, hence distinct columns. */
  lemma AttributesHaveDistinctColumns(fields: seq<FieldDefinition>)
    requires forall i, j | 0 <= i < j < |fields| :: fields[i].id != fields[j].id
    requires forall f | f in fields :: Kebab(f.id)
    ensures DistinctColumnNames(fields)
  {
    hide Kebab, KebabToSnake;
    forall i, j | 0 <= i < j < |fields| ensures KebabToSnake(fields[i].id) != KebabToSnake(fields[j].id) {
      KebabToSnakeInjective(fields[i].id, fields[j].id);
    }
  }

  /** What the loader checks of a type's attributes: ids are kebab-case and not repeated. */
  predicate ProperAttributes(t: DocumentType) {
    && (forall f | f in t.fields :: Kebab(f.id))
    && forall i, j | 0 <= i < j < |t.fields| :: t.fields[i].id != t.fields[j].id
  }

  /** The columns of a type's table that are not attributes'. */
  function SystemColumns(t: DocumentType, published: bool): (cs: seq<ColumnDefinition>)
    ensures DistinctColumns(cs)
  {
    if published then PublishedColumns(t.kind.SingleType?) else EntityColumns(t.kind.SingleType?)
  }

  /** In the table of a type and in its mirror every attribute has one column, of its own
      type, null exactly when it is not required; unless its name is a system column's: then
      that column stays and the attribute has none. */
  lemma EveryAttributeHasColumn(reg: SchemaRegistry, t: DocumentType, published: bool, f: FieldDefinition,
                                c: ColumnDefinition)
    requires Wanted(reg, OfType(t, published)) && ProperAttributes(t) && f in t.fields
    ensures c in TableOf(reg, OfType(t, published)).columns && c.name == KebabToSnake(f.id) <==>
            if Taken(SystemColumns(t, published), KebabToSnake(f.id))
            then c in SystemColumns(t, published) && c.name == KebabToSnake(f.id)
            else c == ColumnDefinition(KebabToSnake(f.id), MapFieldTypeToSql(f.fieldType), !f.required, false, None,
                                       f.unique)
  {
    AttributesHaveDistinctColumns(t.fields);
    AttributeHasColumn(SystemColumns(t, published), t.fields, f, c);
    hide DistinctColumnNames, Kebab, KebabToSnake, MapFieldTypeToSql;
  }

  predicate Taken(base: seq<ColumnDefinition>, name: string) { exists b | b in base :: b.name == name }

  /** Every attribute has one column, of its own type, null exactly when it is not required;
      unless its name is a system column's: then that column stays and the attribute has
      none. */
  lemma {:induction false} AttributeHasColumn(base: seq<ColumnDefinition>, fields: seq<FieldDefinition>,
                                              f: FieldDefinition, c: ColumnDefinition)
    requires DistinctColumns(base) && DistinctColumnNames(fields) && f in fields
    ensures c in WithAttributes(base, fields) && c.name == KebabToSnake(f.id) <==>
            if Taken(base, KebabToSnake(f.id)) then c in base && c.name == KebabToSnake(f.id)
            else c == ColumnDefinition(KebabToSnake(f.id), MapFieldTypeToSql(f.fieldType), !f.required, false, None,
                                       f.unique)
  {
    var n := |fields| - 1;
    assert fields == fields[..n] + [fields[n]];
    DistinctPrefix(fields);
    hide KebabToSnake, MapFieldTypeToSql, DistinctColumnNames;
    ColumnsBefore(base, fields[..n], KebabToSnake(fields[n].id), c);
    LastColumn(base, fields, c);
    hide WithAttributes;
    if f != fields[n] {
      AttributeHasColumn(base, fields[..n], f, c);
    }
  }

  lemma DistinctPrefix(fields: seq<FieldDefinition>)
    requires DistinctColumnNames(fields) && fields != []
    ensures var n := |fields| - 1;
            && DistinctColumnNames(fields[..n])
            && forall f | f in fields[..n] :: KebabToSnake(f.id) != KebabToSnake(fields[n].id)
  {
    hide KebabToSnake;
  }

  /** A name no attribute has is that of a system column or of none. */
  lemma {:induction false} ColumnsBefore(base: seq<ColumnDefinition>, fields: seq<FieldDefinition>, name: string,
                                         c: ColumnDefinition)
    requires DistinctColumns(base) && forall f | f in fields :: KebabToSnake(f.id) != name
    ensures c.name == name ==> (c in WithAttributes(base, fields) <==> c in base)
  {
    if fields != [] {
      var n := |fields| - 1;
      assert fields == fields[..n] + [fields[n]];
      ColumnsBefore(base, fields[..n], name, c);
    }
  }

  lemma LastColumn(base: seq<ColumnDefinition>, fields: seq<FieldDefinition>, c: ColumnDefinition)
    requires DistinctColumns(base) && fields != []
    requires forall f | f in fields[..|fields| - 1] :: KebabToSnake(f.id) != KebabToSnake(fields[|fields| - 1].id)
    ensures var n := |fields| - 1;
            c in WithAttributes(base, fields) <==>
            c in WithAttributes(base, fields[..n])
            || (c == AttributeColumn(fields[n]) && !Taken(base, KebabToSnake(fields[n].id)))
  {
    hide KebabToSnake, MapFieldTypeToSql;
    var n, name := |fields| - 1, KebabToSnake(fields[|fields| - 1].id);
    var before := WithAttributes(base, fields[..n]);
    Inserted(before, AttributeColumn(fields[n]), c);
    assert Taken(before, name) <==> Taken(base, name) by {
      forall x: ColumnDefinition | x.name == name ensures x in before <==> x in base {
        ColumnsBefore(base, fields[..n], name, x);
      }
    }
  }

  lemma Inserted(cs: seq<ColumnDefinition>, x: ColumnDefinition, c: ColumnDefinition)
    requires DistinctColumns(cs)
    ensures c in InsertColumn(cs, x) <==> c in cs || (c == x && !Taken(cs, x.name))
  {
  }

  lemma {:induction false} ColumnOrigin(base: seq<ColumnDefinition>, fields: seq<FieldDefinition>, c: ColumnDefinition)
    requires DistinctColumns(base) && c in WithAttributes(base, fields)
    ensures c in base || exists f | f in fields :: c == AttributeColumn(f)
  {
    if fields != [] {
      var n := |fields| - 1;
      assert fields == fields[..n] + [fields[n]];
      assert fields[n] in fields;
      hide AttributeColumn;
      Inserted(WithAttributes(base, fields[..n]), AttributeColumn(fields[n]), c);
      if c in WithAttributes(base, fields[..n]) {
        ColumnOrigin(base, fields[..n], c);
      }
    }
  }

  lemma TypeTablesHaveId(t: DocumentType)
    ensures "id" in ColumnNames(EntityTable(t)) && "id" in ColumnNames(PublishedTable(t))
  {
    assert ID in EntityTable(t).columns && ID in PublishedTable(t).columns;
  }

  lemma TypeItemHasId(reg: SchemaRegistry, i: Item)
    requires Wanted(reg, i) && i.OfType?
    ensures "id" in ColumnNames(TableOf(reg, i))
  {
    hide EntityTable, PublishedTable;
    TypeTablesHaveId(i.t);
  }

  lemma BuiltWellFormed(reg: SchemaRegistry, s: DatabaseSchema)
    requires BuiltFrom(reg, s)
    ensures WellFormed(s)
  {
    hide TableOf, Wanted, WellNamed;
    forall d, x | d in s.tables && x in d.indexes
      ensures x.tableName == d.name && ToSet(x.columns) <= ColumnNames(d)
    {
      var i := BuiltItem(reg, s, d);
      IndexShape(reg, i, x);
    }
  }

  /** The table a foreign key of the schema leads to. */
  function Target(reg: SchemaRegistry, i: Item, column: string): (j: Item)
    requires WellNamed(reg) && Wanted(reg, i)
    requires i.OfType? ==> i.published
    ensures Wanted(reg, j) && j.OfType?
  {
    match i
    case OfType(t, _) => OfType(t, false)
    case OfRelation(r, published) =>
      if column == "owner_id" then OfType(Owner(reg, r), published)
      else
        var t := reg.FindType(r.targetType).value;
        OfType(t, published && t.draftAndPublish)
  }

  lemma LinkHasItsColumns(reg: SchemaRegistry, i: Item)
    requires Wanted(reg, i) && TableOf(reg, i).kind == Link
    ensures {"owner_id", "target_id"} <= ColumnNames(TableOf(reg, i))
  {
    RoleNamesTable(reg, i);
    var d := TableOf(reg, i);
    assert LINK_COLUMNS[0] in d.columns && LINK_COLUMNS[1] in d.columns;
  }

  lemma MirrorForeignKey(t: DocumentType, fk: ForeignKeyDefinition)
    requires fk in PublishedTable(t).foreignKeys
    ensures fk.columns == ["id"] && fk.referencedTable == EntityTable(t).name && fk.referencedColumns == ["id"]
  {
  }

  /** The foreign keys of a link table: its two ends. */
  function LinkKeys(table: string, ownerTable: string, targetTable: string): seq<ForeignKeyDefinition> {
    [References(LinkOwnerFkName(table), "owner_id", ownerTable),
     References(LinkTargetFkName(table), "target_id", targetTable)]
  }

  lemma LinkForeignKeys(reg: SchemaRegistry, i: Item)
    requires WellNamed(reg) && Wanted(reg, i) && i.OfRelation?
    ensures TableOf(reg, i).foreignKeys
            == LinkKeys(TableOf(reg, i).name, TableOf(reg, Target(reg, i, "owner_id")).name,
                        TableOf(reg, Target(reg, i, "target_id")).name)
  {
    var owner, target := Owner(reg, i.r), reg.FindType(i.r.targetType).value;
    hide WellNamed, EntityTable, PublishedTable;
    TypeTableNames(reg, owner);
    TypeTableNames(reg, target);
    if i.published {
      PublishedLinkKeys(reg, owner, target, i.r);
    } else {
      DraftLinkKeys(reg, owner, target, i.r);
    }
    hide DraftLinkTable, PublishedLinkTable, LinkKeys;
  }

  lemma DraftLinkKeys(reg: SchemaRegistry, owner: DocumentType, target: DocumentType, r: Relation)
    requires reg.FindType(r.targetType) == Some(target)
    ensures var d := DraftLinkTable(reg, owner, r);
            d.foreignKeys == LinkKeys(d.name, owner.TableName(), target.TableName())
  {
  }

  lemma PublishedLinkKeys(reg: SchemaRegistry, owner: DocumentType, target: DocumentType, r: Relation)
    requires reg.FindType(r.targetType) == Some(target)
    ensures var d := PublishedLinkTable(reg, owner, r);
            d.foreignKeys == LinkKeys(d.name, PublishedTableName(owner.TableName()),
                                      if target.draftAndPublish then PublishedTableName(target.TableName())
                                      else target.TableName())
  {
  }

  lemma ForeignKeyShape(reg: SchemaRegistry, i: Item, fk: ForeignKeyDefinition)
    requires WellNamed(reg) && Wanted(reg, i) && fk in TableOf(reg, i).foreignKeys
    ensures i.OfType? ==> i.published
    ensures |fk.columns| == 1 && ToSet(fk.columns) <= ColumnNames(TableOf(reg, i))
    ensures fk.referencedTable == TableOf(reg, Target(reg, i, fk.columns[0])).name
    ensures fk.referencedColumns == ["id"]
  {
    if i.OfType? {
      hide WellNamed;
      assert i.published;
      MirrorForeignKey(i.t, fk);
      TypeTablesHaveId(i.t);
    } else {
      LinkForeignKeyShape(reg, i, fk);
    }
  }

  lemma LinkForeignKeyShape(reg: SchemaRegistry, i: Item, fk: ForeignKeyDefinition)
    requires WellNamed(reg) && Wanted(reg, i) && i.OfRelation? && fk in TableOf(reg, i).foreignKeys
    ensures |fk.columns| == 1 && ToSet(fk.columns) <= ColumnNames(TableOf(reg, i))
    ensures fk.referencedTable == TableOf(reg, Target(reg, i, fk.columns[0])).name
    ensures fk.referencedColumns == ["id"]
  {
    assert TableOf(reg, i).kind == Link;
    LinkHasItsColumns(reg, i);
    LinkForeignKeys(reg, i);
    hide WellNamed, TableOf, Target, Wanted;
  }

  lemma TypeTableNames(reg: SchemaRegistry, t: DocumentType)
    ensures EntityTable(t).name == t.TableName() && PublishedTable(t).name == PublishedTableName(t.TableName())
  {
  }

  function RolePhase(role: TableRole): nat {
    match role
    case EntityRole(_) => 6
    case PublishedRole(_) => 7
    case DraftLinkRole(_, _) => 8
    case PublishedLinkRole(_, _) => 9
  }

  lemma CreationPhase(d: TableDefinition, role: TableRole)
    requires role.Valid() && d.name == role.Name() && d.kind == role.Kind()
    ensures StepClass(CreateTable(d)) == RolePhase(role)
  {
    if role.Kind() == Link {
      LinkClassesToldApart(role);
    }
  }

  lemma ItemPhase(reg: SchemaRegistry, i: Item)
    requires WellNamed(reg) && Wanted(reg, i)
    ensures StepClass(CreateTable(TableOf(reg, i))) == RolePhase(RoleOf(reg, i))
  {
    RoleNamesTable(reg, i);
    RoleIsValid(reg, i);
    CreationPhase(TableOf(reg, i), RoleOf(reg, i));
  }

  lemma ItemResolves(reg: SchemaRegistry, s: DatabaseSchema, i: Item, fk: ForeignKeyDefinition)
    requires BuiltFrom(reg, s) && Wanted(reg, i) && fk in TableOf(reg, i).foreignKeys
    ensures Resolves(s, TableOf(reg, i), fk)
  {
    hide TableOf, Wanted, WellNamed;
    ForeignKeyShape(reg, i, fk);
    var j := Target(reg, i, fk.columns[0]);
    BuiltTable(reg, s, j);
    TypeItemHasId(reg, j);
    ItemPhase(reg, i);
    ItemPhase(reg, j);
    TargetIsLower(reg, i, fk.columns[0]);
  }

  lemma TargetIsLower(reg: SchemaRegistry, i: Item, column: string)
    requires WellNamed(reg) && Wanted(reg, i) && (i.OfType? ==> i.published)
    ensures RolePhase(RoleOf(reg, Target(reg, i, column))) < RolePhase(RoleOf(reg, i))
  {
    hide WellNamed;
  }

  /** Every foreign key stays inside the schema and leads to a lower kind of table, so the
      foreign-key graph has no cycle and creation by phase finds every target. */
  lemma BuiltClosed(reg: SchemaRegistry, s: DatabaseSchema)
    requires BuiltFrom(reg, s)
    ensures Closed(s)
  {
    hide TableOf, Wanted, WellNamed, Resolves;
    forall d | d in s.tables && d.kind == Link
      ensures {"owner_id", "target_id"} <= ColumnNames(d)
    {
      var i := BuiltItem(reg, s, d);
      LinkHasItsColumns(reg, i);
    }
    forall d, fk | d in s.tables && fk in d.foreignKeys
      ensures Resolves(s, d, fk)
    {
      var i := BuiltItem(reg, s, d);
      ItemResolves(reg, s, i, fk);
    }
  }
}
