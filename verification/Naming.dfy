/** Database identifiers: how document types and relation attributes become table
    names, and how the introspector reads the kind of a table back from its name. */
module Naming {
  import opened SchemaAst

  predicate EndsWith(s: string, suffix: string) {
    |suffix| <= |s| && s[|s| - |suffix|..] == suffix
  }

  // ----- identifiers ------------------------------------------------------------

  predicate IsLower(c: char) { 'a' <= c <= 'z' }

  predicate IsAlnum(c: char) { IsLower(c) || '0' <= c <= '9' }

  /** `^[a-z][a-z0-9]*(-[a-z0-9]+)*$` with `sep` in the place of the hyphen: words of
      alphanumerics, one separator between two words and none at either end. */
  predicate Words(s: string, sep: char) {
    && s != []
    && IsLower(s[0])
    && (forall i | 0 <= i < |s| :: IsAlnum(s[i]) || s[i] == sep)
    && s[|s| - 1] != sep
    && (forall i | 0 <= i < |s| - 1 :: !(s[i] == sep && s[i + 1] == sep))
  }

  predicate Kebab(s: string) { Words(s, '-') }

  predicate Snake(s: string) { Words(s, '_') }

  function KebabToSnake(s: string): (r: string)
    ensures |r| == |s|
    ensures forall i | 0 <= i < |s| :: r[i] == if s[i] == '-' then '_' else s[i]
  {
    seq(|s|, i requires 0 <= i < |s| => if s[i] == '-' then '_' else s[i])
  }

  lemma KebabBecomesSnake(s: string)
    requires Kebab(s)
    ensures Snake(KebabToSnake(s))
  {
  }

  /** On kebab-case identifiers the conversion loses nothing. */
  lemma KebabToSnakeInjective(a: string, b: string)
    requires Kebab(a) && Kebab(b)
    ensures KebabToSnake(a) == KebabToSnake(b) <==> a == b
  {
    if KebabToSnake(a) == KebabToSnake(b) {
      forall i | 0 <= i < |a|
        ensures a[i] == b[i]
      {
        assert KebabToSnake(a)[i] == KebabToSnake(b)[i];
        assert IsAlnum(a[i]) || a[i] == '-';
        assert IsAlnum(b[i]) || b[i] == '-';
      }
    }
  }

  // ----- derived names ----------------------------------------------------------

  const PUBLISHED := "__published"
  const LINK := "_link"

  function PublishedTableName(table: string): string { table + PUBLISHED }

  function LinkTableName(ownerTable: string, ownerAttr: string): string {
    ownerTable + "__" + KebabToSnake(ownerAttr) + LINK
  }

  function PublishedLinkTableName(linkTable: string): string { linkTable + PUBLISHED }

  function IndexName(table: string, column: string): string { "idx_" + table + "_" + column }

  function SingletonIndexName(table: string): string { "idx_" + table + "__singleton" }

  function LinkOwnerIndexName(linkTable: string): string { "uq_" + linkTable + "_owner" }

  function LinkTargetIndexName(linkTable: string): string { "idx_" + linkTable + "_target" }

  function PublishedFkName(publishedTable: string): string { "fk_" + publishedTable + "_id" }

  function LinkOwnerFkName(linkTable: string): string { "fk_" + linkTable + "_owner" }

  function LinkTargetFkName(linkTable: string): string { "fk_" + linkTable + "_target" }

  // ----- unique decoding --------------------------------------------------------

  /** What a managed table stands for: the four families of tables the builder makes. */
  datatype TableRole =
    | EntityRole(base: string)
    | PublishedRole(base: string)
    | DraftLinkRole(base: string, attr: string)
    | PublishedLinkRole(base: string, attr: string)
  {
    predicate Valid() {
      Snake(base) && (DraftLinkRole? || PublishedLinkRole? ==> Kebab(attr))
    }

    function Name(): string {
      match this
      case EntityRole(base) => base
      case PublishedRole(base) => PublishedTableName(base)
      case DraftLinkRole(base, attr) => LinkTableName(base, attr)
      case PublishedLinkRole(base, attr) => PublishedLinkTableName(LinkTableName(base, attr))
    }

    function Kind(): TableKind {
      match this
      case EntityRole(_) => Entity
      case PublishedRole(_) => Published
      case DraftLinkRole(_, _) => Link
      case PublishedLinkRole(_, _) => Link
    }

    /** The part of the name that follows the base table. */
    function Tail(): string {
      match this
      case EntityRole(_) => ""
      case PublishedRole(_) => PUBLISHED
      case DraftLinkRole(_, attr) => "__" + KebabToSnake(attr) + LINK
      case PublishedLinkRole(_, attr) => "__" + KebabToSnake(attr) + LINK + PUBLISHED
    }
  }

  lemma NameSplits(r: TableRole)
    ensures r.Name() == r.base + r.Tail()
    ensures r.Tail() == "" || (|r.Tail()| >= 2 && r.Tail()[..2] == "__")
  {
  }

  /** The base is everything before the first double underscore. */
  lemma BaseIsDetermined(b1: string, t1: string, b2: string, t2: string)
    requires Snake(b1) && Snake(b2)
    requires t1 == "" || (|t1| >= 2 && t1[..2] == "__")
    requires t2 == "" || (|t2| >= 2 && t2[..2] == "__")
    ensures b1 + t1 == b2 + t2 <==> b1 == b2 && t1 == t2
  {
    if |b1| < |b2| {
      ShorterBaseDiffers(b1, t1, b2, t2);
    } else if |b2| < |b1| {
      ShorterBaseDiffers(b2, t2, b1, t1);
    } else {
      assert b1 == (b1 + t1)[..|b1|] && b2 == (b2 + t2)[..|b1|];
      assert t1 == (b1 + t1)[|b1|..] && t2 == (b2 + t2)[|b1|..];
    }
  }

  lemma ShorterBaseDiffers(b1: string, t1: string, b2: string, t2: string)
    requires Snake(b1) && Snake(b2) && |b1| < |b2|
    requires t1 == "" || (|t1| >= 2 && t1[..2] == "__")
    ensures b1 + t1 != b2 + t2
  {
    var n := |b1|;
    if t1 != "" {
      assert t1[..2][0] == '_' && t1[..2][1] == '_';
      assert (b1 + t1)[n] == '_' && (b1 + t1)[n + 1] == '_';
      assert (b2 + t2)[n] == b2[n];
      if n + 1 < |b2| {
        assert (b2 + t2)[n + 1] == b2[n + 1];
      }
    }
  }

  lemma TailLastChar(r: TableRole)
    requires !r.EntityRole?
    ensures r.Tail()[|r.Tail()| - 1] == if r.DraftLinkRole? then 'k' else 'd'
  {
  }

  /** `__published` and `__{attr}_link__published` never coincide: nothing but the
      first two characters of the former is an underscore. */
  lemma PublishedTailIsNotALink(attr: string)
    requires Kebab(attr)
    ensures PUBLISHED != "__" + KebabToSnake(attr) + LINK + PUBLISHED
  {
    assert |"__" + KebabToSnake(attr) + LINK + PUBLISHED| > |PUBLISHED|;
  }

  /** A well-formed table name has one reading only: the four families are pairwise
      disjoint and each construction is injective. */
  lemma UniqueDecoding(r1: TableRole, r2: TableRole)
    requires r1.Valid() && r2.Valid()
    ensures r1.Name() == r2.Name() <==> r1 == r2
  {
    if r1.Name() == r2.Name() {
      NameSplits(r1);
      NameSplits(r2);
      BaseIsDetermined(r1.base, r1.Tail(), r2.base, r2.Tail());
      if !r1.EntityRole? && !r2.EntityRole? {
        TailLastChar(r1);
        TailLastChar(r2);
        if r1.PublishedLinkRole? {
          PublishedTailIsNotALink(r1.attr);
        }
        if r2.PublishedLinkRole? {
          PublishedTailIsNotALink(r2.attr);
        }
        if !r1.PublishedRole? {
          TailGivesAttr(r1, r2);
        }
      }
    }
  }

  lemma TailGivesAttr(r1: TableRole, r2: TableRole)
    requires r1.Valid() && r2.Valid() && r1.Tail() == r2.Tail()
    requires (r1.DraftLinkRole? && r2.DraftLinkRole?) || (r1.PublishedLinkRole? && r2.PublishedLinkRole?)
    ensures r1.attr == r2.attr
  {
    var a1, a2 := KebabToSnake(r1.attr), KebabToSnake(r2.attr);
    var end := if r1.DraftLinkRole? then LINK else LINK + PUBLISHED;
    assert r1.Tail() == "__" + a1 + end;
    assert r2.Tail() == "__" + a2 + end;
    assert a1 == r1.Tail()[2..|r1.Tail()| - |end|] == r2.Tail()[2..|r2.Tail()| - |end|] == a2;
    KebabToSnakeInjective(r1.attr, r2.attr);
  }

  // ----- classification by suffix -----------------------------------------------

  /** How the introspector guesses the kind of a live table from its name. */
  function Classify(name: string): TableKind {
    if EndsWith(name, LINK) || EndsWith(name, LINK + PUBLISHED) then Link
    else if EndsWith(name, PUBLISHED) then Published
    else Entity
  }

  lemma SuffixOfAppend(a: string, b: string, suffix: string)
    ensures |suffix| <= |b| ==> (EndsWith(a + b, suffix) <==> EndsWith(b, suffix))
    ensures EndsWith(a + suffix, suffix)
  {
    if |suffix| <= |b| {
      assert (a + b)[|a + b| - |suffix|..] == b[|b| - |suffix|..];
    }
    assert (a + suffix)[|a|..] == suffix;
  }

  lemma EndsWithAppended(a: string, x: string, y: string)
    ensures EndsWith(a + y, x + y) <==> EndsWith(a, x)
  {
    if |x| <= |a| {
      assert (a + y)[|a + y| - |x + y|..] == a[|a| - |x|..] + y;
      assert (a[|a| - |x|..] + y)[..|x|] == a[|a| - |x|..];
      assert (x + y)[..|x|] == x;
    }
  }

  /** No double underscore, so none of the suffixes that hold one. */
  lemma SnakeDoesNotEndPublished(s: string)
    requires Snake(s)
    ensures !EndsWith(s, PUBLISHED)
    ensures !EndsWith(s, LINK + PUBLISHED)
  {
    var n := |s| - |PUBLISHED|;
    if n >= 0 {
      assert s[n..][0] == s[n] && s[n..][1] == s[n + 1];
      assert PUBLISHED[0] == '_' && PUBLISHED[1] == '_';
    }
    var m := |s| - |LINK + PUBLISHED|;
    if m >= 0 {
      assert s[m..][5] == s[m + 5] && s[m..][6] == s[m + 6];
      assert (LINK + PUBLISHED)[5] == '_' && (LINK + PUBLISHED)[6] == '_';
    }
  }

  lemma DifferentLastChar(s: string, suffix: string)
    requires |s| > 0 && |suffix| > 0 && s[|s| - 1] != suffix[|suffix| - 1]
    ensures !EndsWith(s, suffix)
  {
    if |suffix| <= |s| {
      assert s[|s| - |suffix|..][|suffix| - 1] == s[|s| - 1];
    }
  }

  /** The suffix test recovers the kind of every table, except entity and mirror tables
      of a document type whose table name itself ends in `_link`. */
  lemma ClassificationExact(r: TableRole)
    requires r.Valid()
    ensures Classify(r.Name()) == r.Kind() <==> (r.EntityRole? || r.PublishedRole? ==> !EndsWith(r.base, LINK))
  {
    match r
    case EntityRole(base) =>
      SnakeDoesNotEndPublished(base);
    case PublishedRole(base) =>
      DifferentLastChar(r.Name(), LINK);
      EndsWithAppended(base, LINK, PUBLISHED);
      SuffixOfAppend(base, PUBLISHED, PUBLISHED);
    case DraftLinkRole(base, attr) =>
      SuffixOfAppend(base + "__" + KebabToSnake(attr), LINK, LINK);
    case PublishedLinkRole(base, attr) =>
      var front := base + "__" + KebabToSnake(attr);
      SuffixOfAppend(front, LINK, LINK);
      EndsWithAppended(front + LINK, LINK, PUBLISHED);
  }

  /** The planner tells the two link classes apart by the published suffix. */
  lemma LinkClassesToldApart(r: TableRole)
    requires r.Valid() && r.Kind() == Link
    ensures EndsWith(r.Name(), PUBLISHED) <==> r.PublishedLinkRole?
  {
    if r.PublishedLinkRole? {
      SuffixOfAppend(LinkTableName(r.base, r.attr), PUBLISHED, PUBLISHED);
    } else {
      DifferentLastChar(r.Name(), PUBLISHED);
    }
  }

  /** Index names do not decode: a unique `role-name` of `user` and a unique `name` of
      `user-role` ask for the same index. */
  lemma IndexNamesCollide()
    ensures IndexName("user", "role_name") == IndexName("user_role", "name")
  {
    assert IndexName("user", "role_name") == "idx_user_role_name";
    assert IndexName("user_role", "name") == "idx_user_role_name";
  }
}
