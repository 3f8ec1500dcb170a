/** Which index names of a schema collide, told from the registry. */
module Collisions {
  import opened Wrappers
  import opened SchemaAst
  import opened DomainSchema
  import opened Builder
  import opened BuiltSchema
  import opened Attainability
  import opened Naming
  import Catalog

  // ----- requests for indexes ------------------------------------------------------------------

  /** One request for an index: for a unique attribute, for a singleton, for the target or the
      owner of a link. */
  datatype Ask =
    | AttributeAsk(i: Item, f: FieldDefinition)
    | SingletonAsk(i: Item)
    | TargetAsk(i: Item)
    | OwnerAsk(i: Item)

  predicate Asked(reg: SchemaRegistry, a: Ask) {
    Wanted(reg, a.i) &&
    match a
    case AttributeAsk(i, f) => i.OfType? && f in i.t.fields && f.unique
    case SingletonAsk(i) => i.OfType? && i.t.kind.SingleType?
    case TargetAsk(i) => i.OfRelation?
    case OwnerAsk(i) => i.OfRelation? && i.r.ownerKind.HasOne?
  }

  function NameOf(reg: SchemaRegistry, a: Ask): string
    requires Asked(reg, a)
  {
    var table := TableOf(reg, a.i).name;
    match a
    case AttributeAsk(_, f) => IndexName(table, KebabToSnake(f.id))
    case SingletonAsk(_) => SingletonIndexName(table)
    case TargetAsk(_) => LinkTargetIndexName(table)
    case OwnerAsk(_) => LinkOwnerIndexName(table)
  }

  lemma AskHasIndex(reg: SchemaRegistry, a: Ask)
    requires Asked(reg, a)
    ensures NameOf(reg, a) in IndexNames(TableOf(reg, a.i))
  {
    var table := TableOf(reg, a.i).name;
    var x := match a
      case AttributeAsk(_, f) => UniqueIndex(table, f)
      case SingletonAsk(_) => SingletonIndexes(table, true)[0]
      case TargetAsk(_) => IndexDefinition(LinkTargetIndexName(table), table, ["target_id"], false)
      case OwnerAsk(_) => IndexDefinition(LinkOwnerIndexName(table), table, ["owner_id"], true);
    hide TableOf, Wanted;
    IndexesAre(reg, a.i, x);
    assert x in TableOf(reg, a.i).indexes && x.name == NameOf(reg, a);
  }

  lemma IndexHasAsk(reg: SchemaRegistry, i: Item, n: string) returns (a: Ask)
    requires Wanted(reg, i) && n in IndexNames(TableOf(reg, i))
    ensures Asked(reg, a) && a.i == i && NameOf(reg, a) == n
  {
    hide TableOf, Wanted;
    var table := TableOf(reg, i).name;
    var x :| x in TableOf(reg, i).indexes && x.name == n;
    IndexesAre(reg, i, x);
    match i
    case OfType(t, _) =>
      if f :| f in t.fields && f.unique && x == UniqueIndex(table, f) {
        a := AttributeAsk(i, f);
      } else {
        a := SingletonAsk(i);
      }
    case OfRelation(r, _) =>
      a := if r.ownerKind.HasOne? && x.name == LinkOwnerIndexName(table) then OwnerAsk(i) else TargetAsk(i);
  }

  // ----- names read from the left -----------------------------------------------------------------

  /** The prefix, what comes before the first double underscore, and what follows it. */
  datatype Shape = Shape(uq: bool, base: string, word: Option<string>)
  {
    function Tail(): string { match word case None => "" case Some(w) => "__" + w }

    function Name(): string { (if uq then "uq_" else "idx_") + (base + Tail()) }
  }

  lemma ShapesDecode(p: Shape, q: Shape)
    requires Snake(p.base) && Snake(q.base) && p.Name() == q.Name()
    ensures p == q
  {
    assert p.uq == q.uq by {
      assert p.Name()[0] == if p.uq then 'u' else 'i';
      assert q.Name()[0] == if q.uq then 'u' else 'i';
    }
    var n := if p.uq then 3 else 4;
    assert p.base + p.Tail() == p.Name()[n..] == q.base + q.Tail();
    hide Snake;
    TailShape(p);
    TailShape(q);
    BaseIsDetermined(p.base, p.Tail(), q.base, q.Tail());
    if p.word.Some? && q.word.Some? {
      assert p.word.value == p.Tail()[2..] == q.Tail()[2..] == q.word.value;
    }
  }

  lemma TailShape(p: Shape)
    ensures p.Tail() == "" || (|p.Tail()| >= 2 && p.Tail()[..2] == "__")
  {
  }

  function OwnType(reg: SchemaRegistry, i: Item): DocumentType
    requires Wanted(reg, i)
  {
    if i.OfType? then i.t else Owner(reg, i.r)
  }

  function ShapeOf(reg: SchemaRegistry, a: Ask): Shape
    requires Asked(reg, a)
  {
    var base, published := OwnType(reg, a.i).TableName(), a.i.published;
    match a
    case AttributeAsk(_, f) =>
      if published then Shape(false, base, Some("published_" + KebabToSnake(f.id)))
      else Shape(false, base + "_" + KebabToSnake(f.id), None)
    case SingletonAsk(_) => Shape(false, base, Some(if published then "published__singleton" else "singleton"))
    case TargetAsk(i) =>
      Shape(false, base,
            Some(KebabToSnake(i.r.ownerAttr) + if published then "_link__published_target" else "_link_target"))
    case OwnerAsk(i) =>
      Shape(true, base,
            Some(KebabToSnake(i.r.ownerAttr) + if published then "_link__published_owner" else "_link_owner"))
  }

  lemma SnakeJoin(a: string, b: string)
    requires Snake(a) && Snake(b)
    ensures Snake(a + "_" + b)
  {
    var s := a + "_" + b;
    assert forall i | 0 <= i < |s| :: s[i] == if i < |a| then a[i] else if i == |a| then '_' else b[i - |a| - 1];
  }

  lemma TwoUnderscores(a: string, b: string)
    ensures !Snake(a + "__" + b)
  {
    var s := a + "__" + b;
    assert s[|a|] == '_' && s[|a| + 1] == '_';
    if b == [] {
      assert s[|s| - 1] == '_';
    }
  }

  lemma RowShapes(base: string, c: string)
    ensures Shape(false, base + "_" + c, None).Name() == IndexName(base, c)
    ensures Shape(false, base, Some("published_" + c)).Name() == IndexName(PublishedTableName(base), c)
    ensures Shape(false, base, Some("singleton")).Name() == SingletonIndexName(base)
    ensures Shape(false, base, Some("published__singleton")).Name() == SingletonIndexName(PublishedTableName(base))
  {
    Regroup3("idx_", base, "_", c);
    assert "__" + ("published_" + c) == PUBLISHED + "_" + c;
    Regroup4("idx_", base, PUBLISHED, "_", c);
    assert "__" + "singleton" == "__singleton";
    assert "__" + "published__singleton" == PUBLISHED + "__singleton";
    Regroup4("idx_", base, PUBLISHED, "__singleton", "");
  }

  lemma Regroup3(a: string, b: string, c: string, d: string)
    ensures a + (b + c + d + "") == a + b + c + d
  {
  }

  lemma Regroup4(a: string, b: string, c: string, d: string, e: string)
    ensures a + (b + (c + d + e)) == a + (b + c) + d + e
    ensures a + (b + (c + d)) == a + (b + c) + d
  {
  }

  lemma LinkShapes(base: string, attr: string)
    ensures var table, c := LinkTableName(base, attr), KebabToSnake(attr);
            && Shape(false, base, Some(c + "_link_target")).Name() == LinkTargetIndexName(table)
            && Shape(true, base, Some(c + "_link_owner")).Name() == LinkOwnerIndexName(table)
  {
    hide KebabToSnake;
    var c := KebabToSnake(attr);
    assert c + "_link_target" == c + LINK + "_target" && c + "_link_owner" == c + LINK + "_owner";
    assert base + ("__" + (c + LINK + "_target")) == base + "__" + c + LINK + "_target";
    assert base + ("__" + (c + LINK + "_owner")) == base + "__" + c + LINK + "_owner";
    assert "idx_" + (base + "__" + c + LINK + "_target") == "idx_" + (base + "__" + c + LINK) + "_target";
    assert "uq_" + (base + "__" + c + LINK + "_owner") == "uq_" + (base + "__" + c + LINK) + "_owner";
  }

  lemma PublishedLinkShapes(base: string, attr: string)
    ensures var table, c := PublishedLinkTableName(LinkTableName(base, attr)), KebabToSnake(attr);
            && Shape(false, base, Some(c + "_link__published_target")).Name() == LinkTargetIndexName(table)
            && Shape(true, base, Some(c + "_link__published_owner")).Name() == LinkOwnerIndexName(table)
  {
    hide KebabToSnake;
    var c := KebabToSnake(attr);
    var all := LINK + PUBLISHED;
    assert "_link__published_target" == all + "_target" && "_link__published_owner" == all + "_owner";
    assert c + (all + "_target") == c + all + "_target" && c + (all + "_owner") == c + all + "_owner";
    assert base + ("__" + (c + all + "_target")) == base + "__" + c + all + "_target";
    assert base + ("__" + (c + all + "_owner")) == base + "__" + c + all + "_owner";
    assert base + "__" + c + LINK + PUBLISHED == base + "__" + c + all;
    assert "idx_" + (base + "__" + c + all + "_target") == "idx_" + (base + "__" + c + all) + "_target";
    assert "uq_" + (base + "__" + c + all + "_owner") == "uq_" + (base + "__" + c + all) + "_owner";
  }

  lemma ShapeIsName(reg: SchemaRegistry, a: Ask)
    requires Asked(reg, a)
    ensures ShapeOf(reg, a).Name() == NameOf(reg, a)
  {
    ItemName(reg, a.i);
    var base := OwnType(reg, a.i).TableName();
    RowShapes(base, if a.AttributeAsk? then KebabToSnake(a.f.id) else "");
    if a.i.OfRelation? {
      LinkShapes(base, a.i.r.ownerAttr);
      PublishedLinkShapes(base, a.i.r.ownerAttr);
    }
    hide KebabToSnake, TableOf, Wanted, Shape.Name, IndexName, SingletonIndexName, LinkTargetIndexName,
         LinkOwnerIndexName;
  }

  lemma ItemName(reg: SchemaRegistry, i: Item)
    requires Wanted(reg, i)
    ensures var base := OwnType(reg, i).TableName();
            TableOf(reg, i).name ==
            match i
            case OfType(_, published) => if published then PublishedTableName(base) else base
            case OfRelation(r, published) =>
              if published then PublishedLinkTableName(LinkTableName(base, r.ownerAttr))
              else LinkTableName(base, r.ownerAttr)
  {
  }

  // ----- which requests collide ----------------------------------------------------------------------

  /** Identifiers that the loader lets through. */
  ghost predicate ProperNames(reg: SchemaRegistry) {
    WellNamed(reg) && forall t | t in reg.types :: ProperAttributes(t)
  }

  lemma ShapeIsSnake(reg: SchemaRegistry, a: Ask)
    requires ProperNames(reg) && Asked(reg, a)
    ensures Snake(ShapeOf(reg, a).base)
  {
    var t := OwnType(reg, a.i);
    assert t in reg.types;
    TypeNameIsSnake(reg, t);
    if a.AttributeAsk? {
      KebabBecomesSnake(a.f.id);
      SnakeJoin(t.TableName(), KebabToSnake(a.f.id));
    }
  }

  /** Two types' unique attributes whose tables and columns run together. */
  predicate RunTogether(t: DocumentType, f: FieldDefinition, u: DocumentType, g: FieldDefinition) {
    t.TableName() + "_" + KebabToSnake(f.id) == u.TableName() + "_" + KebabToSnake(g.id)
  }

  /** A publishing type's relation attribute and unique attribute whose mirror index meets the
      link's target index: `published-x` and `x-link-target`, or `published` and `link-target`. */
  ghost predicate Meets(attr: AttributeId, field: AttributeId) {
    || (attr == "published" && field == "link-target")
    || exists x: string :: attr == "published-" + x && field == x + "-link-target"
  }

  ghost predicate AttributeMeetsLink(reg: SchemaRegistry, a: Ask, b: Ask)
    requires Asked(reg, a) && Asked(reg, b)
  {
    && a.AttributeAsk? && a.i.published && b.TargetAsk? && !b.i.published
    && OwnType(reg, a.i) == OwnType(reg, b.i) && Meets(b.i.r.ownerAttr, a.f.id)
  }

  /** The colliding pairs of requests. */
  ghost predicate Collide(reg: SchemaRegistry, a: Ask, b: Ask)
    requires Asked(reg, a) && Asked(reg, b)
  {
    || (a.AttributeAsk? && !a.i.published && b.AttributeAsk? && !b.i.published && RunTogether(a.i.t, a.f, b.i.t, b.f))
    || AttributeMeetsLink(reg, a, b) || AttributeMeetsLink(reg, b, a)
  }

  /** A string in snake case is the image of one kebab-case identifier only. */
  lemma FromSnake(s: string, u: string)
    requires Kebab(s) && KebabToSnake(s) == KebabToSnake(u) && '_' !in u
    ensures s == u
  {
    forall i | 0 <= i < |s| ensures s[i] == u[i] {
      assert KebabToSnake(s)[i] == KebabToSnake(u)[i] && u[i] in u;
      assert IsAlnum(s[i]) || s[i] == '-';
    }
  }

  lemma SnakeOfJoin(a: string, b: string)
    ensures KebabToSnake(a + b) == KebabToSnake(a) + KebabToSnake(b)
  {
  }

  lemma Literals()
    ensures KebabToSnake("published-") == "published_" && KebabToSnake("-link-target") == "_link_target"
    ensures KebabToSnake("published") == "published" && KebabToSnake("link-target") == "link_target"
  {
  }

  lemma NoUnderscore(s: string)
    requires Kebab(s)
    ensures '_' !in s
  {
    forall i | 0 <= i < |s| ensures s[i] != '_' {
      assert IsAlnum(s[i]) || s[i] == '-';
    }
  }

  lemma MeetsBySnake(attr: AttributeId, field: AttributeId)
    requires Kebab(attr) && Kebab(field)
    ensures "published_" + KebabToSnake(field) == KebabToSnake(attr) + "_link_target" <==> Meets(attr, field)
  {
    if Meets(attr, field) {
      MeetingMeets(attr, field);
    }
    hide KebabToSnake, Meets;
    if "published_" + KebabToSnake(field) == KebabToSnake(attr) + "_link_target" {
      SnakeMeets(attr, field);
    }
  }

  lemma MeetingMeets(attr: AttributeId, field: AttributeId)
    requires Meets(attr, field)
    ensures "published_" + KebabToSnake(field) == KebabToSnake(attr) + "_link_target"
  {
    Literals();
    hide KebabToSnake;
    if attr == "published" && field == "link-target" {
      assert "published_" + "link_target" == "published" + "_link_target";
    } else {
      var x :| attr == "published-" + x && field == x + "-link-target";
      SnakeOfJoin("published-", x);
      SnakeOfJoin(x, "-link-target");
      assert "published_" + (KebabToSnake(x) + "_link_target") == ("published_" + KebabToSnake(x)) + "_link_target";
    }
  }

  lemma SplitMeeting(a: string, c: string)
    requires "published_" + c == a + "_link_target"
    ensures (a == "published" && c == "link_target")
            || (|a| >= 10 && a[..10] == "published_" && c == a[10..] + "_link_target")
  {
    var whole := "published_" + c;
    assert c == whole[10..];
    if |a| >= 10 {
      assert a[..10] == whole[..10] == "published_";
      assert whole[10..] == a[10..] + "_link_target";
    } else {
      assert whole[|a|] == '_' && whole[|a|] == "published_"[|a|];
      assert |a| == 9;
      assert a == whole[..9] == "published";
      assert (a + "_link_target")[10..] == "link_target";
    }
  }

  lemma SnakeMeets(attr: AttributeId, field: AttributeId)
    requires Kebab(attr) && Kebab(field)
    requires "published_" + KebabToSnake(field) == KebabToSnake(attr) + "_link_target"
    ensures Meets(attr, field)
  {
    SplitMeeting(KebabToSnake(attr), KebabToSnake(field));
    if KebabToSnake(attr) == "published" && KebabToSnake(field) == "link_target" {
      Literals();
      hide KebabToSnake, Kebab;
      FromSnake(attr, "published");
      FromSnake(field, "link-target");
    } else {
      var x := attr[10..];
      assert KebabToSnake(attr[..10]) == KebabToSnake(attr)[..10] && KebabToSnake(x) == KebabToSnake(attr)[10..];
      NoUnderscore(attr);
      hide KebabToSnake, Kebab;
      PublishedPrefix(attr[..10]);
      assert attr == attr[..10] + x;
      Literals();
      SnakeOfJoin(x, "-link-target");
      FromSnake(field, x + "-link-target");
    }
  }

  lemma PublishedPrefix(s: string)
    requires KebabToSnake(s) == "published_" && '_' !in s
    ensures s == "published-"
  {
    forall i | 0 <= i < 10 ensures s[i] == "published-"[i] {
      assert KebabToSnake(s)[i] == "published_"[i] && s[i] in s;
    }
  }

  // ----- shapes that agree -------------------------------------------------------------------------

  lemma AskedNames(reg: SchemaRegistry, a: Ask)
    requires ProperNames(reg) && Asked(reg, a)
    ensures a.AttributeAsk? ==> Snake(KebabToSnake(a.f.id))
    ensures a.i.OfRelation? ==> Snake(KebabToSnake(a.i.r.ownerAttr))
  {
    if a.AttributeAsk? {
      assert a.i.t in reg.types;
      KebabBecomesSnake(a.f.id);
    }
    if a.i.OfRelation? {
      KebabBecomesSnake(a.i.r.ownerAttr);
    }
  }

  /** How a word of a shape reads: one part in snake case, or two around a double underscore. */
  lemma WordOf(reg: SchemaRegistry, a: Ask)
    requires ProperNames(reg) && Asked(reg, a) && ShapeOf(reg, a).word.Some?
    ensures Snake(ShapeOf(reg, a).word.value) <==> !a.i.published || a.AttributeAsk?
  {
    AskedNames(reg, a);
    hide TableOf, KebabToSnake, Wanted, ProperNames, Snake;
    if a.AttributeAsk? {
      AttributeWord(KebabToSnake(a.f.id));
    } else if a.i.OfRelation? {
      LinkWords(KebabToSnake(a.i.r.ownerAttr));
    } else {
      SingletonWords();
    }
  }

  lemma AttributeWord(c: string)
    requires Snake(c)
    ensures Snake("published_" + c)
  {
    LiteralSnakes();
    SnakeJoin("published", c);
    hide Snake;
    assert "published" + "_" + c == "published_" + c;
  }

  lemma SingletonWords()
    ensures Snake("singleton") && !Snake("published__singleton")
  {
    LiteralSnakes();
    TwoUnderscores("published", "singleton");
    hide Snake;
    assert "published" + "__" + "singleton" == "published__singleton";
  }

  lemma LiteralSnakes()
    ensures Snake("link_target") && Snake("link_owner") && Snake("published") && Snake("singleton")
  {
  }

  lemma LinkWords(c: string)
    requires Snake(c)
    ensures Snake(c + "_link_target") && !Snake(c + "_link__published_target")
    ensures Snake(c + "_link_owner") && !Snake(c + "_link__published_owner")
  {
    LiteralSnakes();
    hide Snake;
    SnakeJoin(c, "link_target");
    SnakeJoin(c, "link_owner");
    TwoUnderscores(c + "_link", "published_target");
    TwoUnderscores(c + "_link", "published_owner");
    assert c + "_" + "link_target" == c + "_link_target" && c + "_" + "link_owner" == c + "_link_owner";
    assert c + "_link" + "__" + "published_target" == c + "_link__published_target";
    assert c + "_link" + "__" + "published_owner" == c + "_link__published_owner";
  }

  lemma WordEnds(reg: SchemaRegistry, a: Ask)
    requires Asked(reg, a) && ShapeOf(reg, a).word.Some?
    ensures var w := ShapeOf(reg, a).word.value;
            && w != ""
            && (a.AttributeAsk? ==> w[0] == 'p')
            && (a.SingletonAsk? ==> (w[0] == 's' <==> !a.i.published) && w[|w| - 1] == 'n')
            && (a.TargetAsk? ==> w[|w| - 1] == 't') && (a.OwnerAsk? ==> w[|w| - 1] == 'r')
  {
    hide KebabToSnake, TableOf;
  }

  lemma SameBase(reg: SchemaRegistry, a: Ask, b: Ask)
    requires ProperNames(reg) && Asked(reg, a) && Asked(reg, b) && ShapeOf(reg, a) == ShapeOf(reg, b)
    requires ShapeOf(reg, a).word.Some?
    ensures OwnType(reg, a.i) == OwnType(reg, b.i)
  {
    var t, u := OwnType(reg, a.i), OwnType(reg, b.i);
    assert t in reg.types && u in reg.types && t.TableName() == u.TableName();
    TableNameIdentifiesType(reg, t, u);
  }

  lemma SameLink(reg: SchemaRegistry, a: Ask, b: Ask)
    requires ProperNames(reg) && Asked(reg, a) && Asked(reg, b) && ShapeOf(reg, a) == ShapeOf(reg, b)
    requires (a.TargetAsk? && b.TargetAsk?) || (a.OwnerAsk? && b.OwnerAsk?)
    ensures a.i == b.i
  {
    WordOf(reg, a);
    WordOf(reg, b);
    SameBase(reg, a, b);
    var c, e := KebabToSnake(a.i.r.ownerAttr), KebabToSnake(b.i.r.ownerAttr);
    var end := if a.TargetAsk? then (if a.i.published then "_link__published_target" else "_link_target")
               else if a.i.published then "_link__published_owner" else "_link_owner";
    assert c + end == e + end;
    assert c == (c + end)[..|c + end| - |end|] && e == (e + end)[..|e + end| - |end|];
    KebabToSnakeInjective(a.i.r.ownerAttr, b.i.r.ownerAttr);
  }

  lemma AttributeWithTarget(reg: SchemaRegistry, a: Ask, b: Ask)
    requires ProperNames(reg) && Asked(reg, a) && Asked(reg, b) && a.AttributeAsk? && a.i.published && b.TargetAsk?
    ensures ShapeOf(reg, a) == ShapeOf(reg, b) <==> AttributeMeetsLink(reg, a, b)
  {
    assert a.i.t in reg.types && Kebab(a.f.id) && Kebab(b.i.r.ownerAttr);
    MeetsBySnake(b.i.r.ownerAttr, a.f.id);
    if ShapeOf(reg, a) == ShapeOf(reg, b) {
      WordOf(reg, a);
      WordOf(reg, b);
      SameBase(reg, a, b);
    }
    hide KebabToSnake, Meets, Kebab, WellNamed, Snake;
  }

  lemma EntityAttributes(reg: SchemaRegistry, a: Ask, b: Ask)
    requires Asked(reg, a) && Asked(reg, b) && a.AttributeAsk? && !a.i.published
    ensures ShapeOf(reg, a) == ShapeOf(reg, b) <==>
            b.AttributeAsk? && !b.i.published && RunTogether(a.i.t, a.f, b.i.t, b.f)
  {
    hide KebabToSnake, TableOf;
  }

  lemma ShapesCollide(reg: SchemaRegistry, a: Ask, b: Ask)
    requires ProperNames(reg) && Asked(reg, a) && Asked(reg, b) && a.i != b.i
    ensures ShapeOf(reg, a) == ShapeOf(reg, b) <==> Collide(reg, a, b)
  {
    hide ProperNames, Wanted, RunTogether, AttributeMeetsLink;
    if a.AttributeAsk? && !a.i.published {
      EntityAttributes(reg, a, b);
      OnlyMirrorsMeet(reg, a, b);
    } else if b.AttributeAsk? && !b.i.published {
      EntityAttributes(reg, b, a);
      OnlyMirrorsMeet(reg, b, a);
    } else if a.AttributeAsk? && b.TargetAsk? {
      AttributeWithTarget(reg, a, b);
      OnlyAttributesMeet(reg, b, a);
    } else if b.AttributeAsk? && a.TargetAsk? {
      AttributeWithTarget(reg, b, a);
      OnlyAttributesMeet(reg, a, b);
    } else {
      OtherShapes(reg, a, b);
    }
  }

  lemma OnlyAttributesMeet(reg: SchemaRegistry, a: Ask, b: Ask)
    requires Asked(reg, a) && Asked(reg, b) && !a.AttributeAsk?
    ensures !AttributeMeetsLink(reg, a, b)
  {
  }

  lemma OnlyMirrorsMeet(reg: SchemaRegistry, a: Ask, b: Ask)
    requires Asked(reg, a) && Asked(reg, b) && a.AttributeAsk? && !a.i.published
    ensures !AttributeMeetsLink(reg, b, a) && !AttributeMeetsLink(reg, a, b)
  {
  }

  lemma NotMeeting(reg: SchemaRegistry, a: Ask, b: Ask)
    requires Asked(reg, a) && Asked(reg, b)
    requires (a.AttributeAsk? ==> !b.TargetAsk?) && (b.AttributeAsk? ==> !a.TargetAsk?)
    ensures !AttributeMeetsLink(reg, a, b) && !AttributeMeetsLink(reg, b, a)
  {
  }

  /** No other two requests share a name. */
  lemma OtherShapes(reg: SchemaRegistry, a: Ask, b: Ask)
    requires ProperNames(reg) && Asked(reg, a) && Asked(reg, b) && a.i != b.i
    requires a.AttributeAsk? ==> a.i.published && !b.TargetAsk?
    requires b.AttributeAsk? ==> b.i.published && !a.TargetAsk?
    ensures ShapeOf(reg, a) != ShapeOf(reg, b) && !Collide(reg, a, b)
  {
    NotMeeting(reg, a, b);
    hide AttributeMeetsLink, RunTogether;
    HasWord(reg, a);
    HasWord(reg, b);
    hide ShapeOf, Wanted, ProperNames, KebabToSnake;
    if ShapeOf(reg, a) == ShapeOf(reg, b) {
      WordEnds(reg, a);
      WordEnds(reg, b);
      SameBase(reg, a, b);
      if a.i.OfRelation? && b.i.OfRelation? {
        SameLink(reg, a, b);
      }
    }
  }

  lemma HasWord(reg: SchemaRegistry, a: Ask)
    requires Asked(reg, a)
    ensures ShapeOf(reg, a).word.Some? <==> (a.AttributeAsk? ==> a.i.published)
    ensures ShapeOf(reg, a).uq <==> a.OwnerAsk?
  {
    hide KebabToSnake;
  }

  /** Two requests of different tables share a name exactly when they are such a pair. */
  lemma NamesCollide(reg: SchemaRegistry, a: Ask, b: Ask)
    requires ProperNames(reg) && Asked(reg, a) && Asked(reg, b) && a.i != b.i
    ensures NameOf(reg, a) == NameOf(reg, b) <==> Collide(reg, a, b)
  {
    ShapeIsName(reg, a);
    ShapeIsName(reg, b);
    ShapeIsSnake(reg, a);
    ShapeIsSnake(reg, b);
    ShapesCollide(reg, a, b);
    hide ProperNames, Asked, Collide, NameOf, ShapeOf, Shape.Name, Snake;
    if NameOf(reg, a) == NameOf(reg, b) {
      ShapesDecode(ShapeOf(reg, a), ShapeOf(reg, b));
    }
  }

  // ----- told from types and relations ---------------------------------------------------------------

  ghost predicate TypesCollide(reg: SchemaRegistry) {
    exists t, f, u, g | t in reg.types && u in reg.types && f in t.fields && g in u.fields ::
      t != u && f.unique && g.unique && RunTogether(t, f, u, g)
  }

  ghost predicate MirrorMeetsLink(reg: SchemaRegistry) {
    exists r, f | r in reg.relations && reg.FindType(r.ownerType).Some? && f in Owner(reg, r).fields ::
      Owner(reg, r).draftAndPublish && f.unique && Meets(r.ownerAttr, f.id)
  }

  ghost predicate SharedName(reg: SchemaRegistry, i: Item, j: Item, n: string) {
    && Wanted(reg, i) && Wanted(reg, j) && i != j
    && n in IndexNames(TableOf(reg, i)) && n in IndexNames(TableOf(reg, j))
  }

  lemma PairsAreTypes(reg: SchemaRegistry, a: Ask, b: Ask)
    requires WellNamed(reg) && Asked(reg, a) && Asked(reg, b) && a.i != b.i && Collide(reg, a, b)
    ensures TypesCollide(reg) || MirrorMeetsLink(reg)
  {
    hide RunTogether, Meets, WellNamed, TableOf;
    if AttributeMeetsLink(reg, a, b) {
      assert b.i.r in reg.relations && a.f in Owner(reg, b.i.r).fields;
    } else if AttributeMeetsLink(reg, b, a) {
      assert a.i.r in reg.relations && b.f in Owner(reg, a.i.r).fields;
    } else {
      assert a.i.t in reg.types && b.i.t in reg.types && a.i.t != b.i.t;
    }
  }

  lemma TypesAreShared(reg: SchemaRegistry) returns (i: Item, j: Item, n: string)
    requires ProperNames(reg) && (TypesCollide(reg) || MirrorMeetsLink(reg))
    ensures SharedName(reg, i, j, n)
  {
    hide ProperNames, SharedName, RunTogether, Meets;
    if TypesCollide(reg) {
      var t, f, u, g :| t in reg.types && u in reg.types && f in t.fields && g in u.fields
                        && t != u && f.unique && g.unique && RunTogether(t, f, u, g);
      i, j := OfType(t, false), OfType(u, false);
      n := PairIsShared(reg, AttributeAsk(i, f), AttributeAsk(j, g));
    } else {
      var r, f :| r in reg.relations && reg.FindType(r.ownerType).Some? && f in Owner(reg, r).fields
                  && Owner(reg, r).draftAndPublish && f.unique && Meets(r.ownerAttr, f.id);
      i, j := OfType(Owner(reg, r), true), OfRelation(r, false);
      n := PairIsShared(reg, AttributeAsk(i, f), TargetAsk(j));
    }
  }

  lemma PairIsShared(reg: SchemaRegistry, a: Ask, b: Ask) returns (n: string)
    requires ProperNames(reg) && Asked(reg, a) && Asked(reg, b) && a.i != b.i && Collide(reg, a, b)
    ensures SharedName(reg, a.i, b.i, n)
  {
    hide ProperNames, TableOf, Collide, Wanted, NameOf;
    NamesCollide(reg, a, b);
    AskHasIndex(reg, a);
    AskHasIndex(reg, b);
    n := NameOf(reg, a);
  }

  /** Two tables of the schema ask for one index name exactly when unique attributes of two
      types run together with their tables, or a publishing type has a relation attribute
      `published-x` and a unique attribute `x-link-target`, or `published` and `link-target`. */
  lemma SharedNamesExactly(reg: SchemaRegistry)
    requires ProperNames(reg)
    ensures (exists i, j, n :: SharedName(reg, i, j, n)) <==> TypesCollide(reg) || MirrorMeetsLink(reg)
  {
    if i, j, n :| SharedName(reg, i, j, n) {
      hide ProperNames, TableOf, Wanted, Collide, TypesCollide, MirrorMeetsLink;
      var a := IndexHasAsk(reg, i, n);
      var b := IndexHasAsk(reg, j, n);
      NamesCollide(reg, a, b);
      ProperIsWellNamed(reg);
      PairsAreTypes(reg, a, b);
    }
    if TypesCollide(reg) || MirrorMeetsLink(reg) {
      var i, j, n := TypesAreShared(reg);
    }
  }

  lemma ProperIsWellNamed(reg: SchemaRegistry)
    requires ProperNames(reg)
    ensures WellNamed(reg)
  {
  }

  /** Which registries have reachable names, in conditions on their tables, attributes and
      relations. */
  lemma ReachableExactly(reg: SchemaRegistry)
    requires ProperNames(reg)
    ensures NamesReachable(reg) <==>
            && (forall i | Wanted(reg, i) :: TableOf(reg, i).name !in Catalog.SYSTEM_TABLES)
            && (forall t, f | t in reg.types && f in t.fields && f.unique :: !ReservedColumn(KebabToSnake(f.id)))
            && !TypesCollide(reg) && !MirrorMeetsLink(reg)
  {
    SharedNamesExactly(reg);
    hide ProperNames, TableOf, Wanted, TypesCollide, MirrorMeetsLink, ReservedColumn, KebabToSnake;
    UnsharedNames(reg);
    hide SharedName;
  }

  lemma UnsharedNames(reg: SchemaRegistry)
    ensures (forall i, j, n | Wanted(reg, i) && Wanted(reg, j) && n in IndexNames(TableOf(reg, i))
                              && n in IndexNames(TableOf(reg, j)) :: i == j)
            <==> !(exists i, j, n :: SharedName(reg, i, j, n))
  {
    hide TableOf, Wanted, IndexNames;
    if !(exists i, j, n :: SharedName(reg, i, j, n)) {
      forall i, j, n | Wanted(reg, i) && Wanted(reg, j) && n in IndexNames(TableOf(reg, i))
                       && n in IndexNames(TableOf(reg, j))
        ensures i == j
      {
        assert !SharedName(reg, i, j, n);
      }
    }
  }
}
