/** Document types, their fields, relations between them, and the registry of both. */
module DomainSchema {
  import opened Wrappers
  import Naming

  type DocumentTypeId = string
  type AttributeId = string
  type RelationId = string

  datatype IntegerSize = I16 | I32 | I64

  datatype PrimitiveType =
    | Uid | Uuid | Text
    | Integer(size: IntegerSize)
    | Decimal(precision: nat, scale: nat)
    | Date | DateTime | Boolean

  datatype FieldType = Primitive(primitive: PrimitiveType) | LocalizedText | Email | Url | Json

  datatype FieldConstraint =
    | Pattern(pattern: string)
    | MinLength(length: nat)
    | MaxLength(length: nat)
    | MinInteger(integer: int)
    | MaxInteger(integer: int)
    | MinDecimal(decimal: real)
    | MaxDecimal(decimal: real)

  datatype FieldDefinition = FieldDefinition(
    id: AttributeId, fieldType: FieldType, required: bool, unique: bool, constraints: seq<FieldConstraint>)

  datatype DocumentKind = Collection | SingleType

  datatype DocumentType = DocumentType(
    id: DocumentTypeId, kind: DocumentKind, singularName: string, pluralName: string,
    draftAndPublish: bool, fields: seq<FieldDefinition>)
  {
    function GetField(attr: AttributeId): (r: Option<FieldDefinition>)
      ensures r.Some? <==> exists f | f in fields :: f.id == attr
      ensures r.Some? ==> r.value in fields && r.value.id == attr
    {
      if exists f | f in fields :: f.id == attr then
        var i := IndexOfField(fields, attr);
        Some(fields[i])
      else None
    }

    /** The raw name a table name is derived from. */
    function RawName(): string {
      match kind
      case Collection => pluralName
      case SingleType => singularName
    }

    function TableName(): string { Naming.KebabToSnake(RawName()) }
  }

  function IndexOfField(fields: seq<FieldDefinition>, attr: AttributeId): (i: nat)
    requires exists f | f in fields :: f.id == attr
    ensures i < |fields| && fields[i].id == attr
  {
    if fields[0].id == attr then 0
    else
      assert fields == [fields[0]] + fields[1..];
      1 + IndexOfField(fields[1..], attr)
  }

  // ----- relations -----------------------------------------------------------------

  datatype OwnerRelationKind = HasOne | HasMany

  datatype InverseRelationKind = BelongsToOne | BelongsToMany

  datatype RelationView =
    | OwnerSide(attr: AttributeId, kind: OwnerRelationKind, otherType: DocumentTypeId)
    | InverseSide(attr: AttributeId, inverseKind: InverseRelationKind, otherType: DocumentTypeId)
    | Unidirectional(attr: AttributeId, kind: OwnerRelationKind, targetType: DocumentTypeId)

  datatype Relation = Relation(
    id: RelationId, ownerType: DocumentTypeId, ownerAttr: AttributeId, ownerKind: OwnerRelationKind,
    targetType: DocumentTypeId, inverse: Option<AttributeId>)
  {
    function InverseKind(): Option<InverseRelationKind> {
      if inverse.None? then None
      else if ownerKind.HasOne? then Some(BelongsToOne)
      else Some(BelongsToMany)
    }

    function ViewFor(typeId: DocumentTypeId): Option<RelationView> {
      if typeId == ownerType then
        if inverse.Some? then Some(OwnerSide(ownerAttr, ownerKind, targetType))
        else Some(Unidirectional(ownerAttr, ownerKind, targetType))
      else if typeId == targetType && inverse.Some? then
        Some(InverseSide(inverse.value, InverseKind().value, ownerType))
      else None
    }

    /** The attribute names this relation, from either side. */
    predicate Answers(typeId: DocumentTypeId, attr: AttributeId) {
      (ownerType == typeId && ownerAttr == attr) || (targetType == typeId && inverse == Some(attr))
    }
  }

  // ----- the registry ----------------------------------------------------------------

  datatype SchemaRegistry = SchemaRegistry(
    types: seq<DocumentType>, byName: map<string, DocumentTypeId>, relations: seq<Relation>)
  {
    function FindType(id: DocumentTypeId): (r: Option<DocumentType>)
      ensures r.Some? <==> exists t | t in types :: t.id == id
      ensures r.Some? ==> r.value in types && r.value.id == id
    {
      FindIn(types, id)
    }

    function FindTypeByName(pluralName: string): Option<DocumentType> {
      if pluralName in byName then FindType(byName[pluralName]) else None
    }

    /** The first relation that answers to the attribute. */
    function FindRelationForAttr(typeId: DocumentTypeId, attr: AttributeId): (r: Option<Relation>)
      ensures r.Some? <==> exists x | x in relations :: x.Answers(typeId, attr)
      ensures r.Some? ==> r.value in relations && r.value.Answers(typeId, attr)
    {
      FirstAnswering(relations, typeId, attr)
    }
  }

  function FindIn(types: seq<DocumentType>, id: DocumentTypeId): (r: Option<DocumentType>)
    ensures r.Some? <==> exists t | t in types :: t.id == id
    ensures r.Some? ==> r.value in types && r.value.id == id
  {
    if types == [] then None
    else if types[0].id == id then Some(types[0])
    else
      assert types == [types[0]] + types[1..];
      FindIn(types[1..], id)
  }

  function FirstAnswering(rs: seq<Relation>, typeId: DocumentTypeId, attr: AttributeId): (r: Option<Relation>)
    ensures r.Some? <==> exists x | x in rs :: x.Answers(typeId, attr)
    ensures r.Some? ==> r.value in rs && r.value.Answers(typeId, attr)
  {
    if rs == [] then None
    else if rs[0].Answers(typeId, attr) then Some(rs[0])
    else
      assert rs == [rs[0]] + rs[1..];
      FirstAnswering(rs[1..], typeId, attr)
  }

  /** Of the relations that answer it is the first. */
  lemma {:induction false} AnsweringIsFirst(rs: seq<Relation>, typeId: DocumentTypeId, attr: AttributeId, i: nat)
    requires i < |rs| && rs[i].Answers(typeId, attr) && forall j | 0 <= j < i :: !rs[j].Answers(typeId, attr)
    ensures FirstAnswering(rs, typeId, attr) == Some(rs[i])
  {
    if i > 0 {
      assert !rs[0].Answers(typeId, attr);
      AnsweringIsFirst(rs[1..], typeId, attr, i - 1);
    }
  }

  predicate NoDuplicates<T(==)>(xs: seq<T>) {
    forall i, j | 0 <= i < j < |xs| :: xs[i] != xs[j]
  }

  /** Members with one identity are one member, as in the source's ordered sets. */
  ghost predicate DistinctTypes(types: seq<DocumentType>) {
    NoDuplicates(types) && forall t, u | t in types && u in types && t.id == u.id :: t == u
  }

  ghost predicate DistinctRelations(rs: seq<Relation>) {
    NoDuplicates(rs) && forall r, x | r in rs && x in rs && r.id == x.id :: r == x
  }

  lemma FindTypeUnique(reg: SchemaRegistry, t: DocumentType)
    requires DistinctTypes(reg.types) && t in reg.types
    ensures reg.FindType(t.id) == Some(t)
  {
  }

  /** The plural-name index: of two types with one plural name, the later is kept. */
  function ByName(types: seq<DocumentType>): map<string, DocumentTypeId> {
    if types == [] then map[]
    else
      var n := |types| - 1;
      ByName(types[..n])[types[n].pluralName := types[n].id]
  }

  lemma {:induction false} ByNameKeys(types: seq<DocumentType>)
    ensures ByName(types).Keys == set t | t in types :: t.pluralName
    ensures forall k | k in ByName(types) :: exists t | t in types :: t.pluralName == k && t.id == ByName(types)[k]
  {
    if types != [] {
      var n := |types| - 1;
      ByNameKeys(types[..n]);
      assert types == types[..n] + [types[n]];
      forall k | k in ByName(types)
        ensures exists t | t in types :: t.pluralName == k && t.id == ByName(types)[k]
      {
        if k == types[n].pluralName {
          assert types[n] in types;
        } else {
          var t :| t in types[..n] && t.pluralName == k && t.id == ByName(types[..n])[k];
          assert t in types;
        }
      }
    }
  }

  /** Of the types with one plural name it has the last. */
  lemma {:induction false} ByNameIsLast(types: seq<DocumentType>, i: nat)
    requires i < |types| && forall j | i < j < |types| :: types[j].pluralName != types[i].pluralName
    ensures types[i].pluralName in ByName(types) && ByName(types)[types[i].pluralName] == types[i].id
  {
    var n := |types| - 1;
    if i < n {
      ByNameIsLast(types[..n], i);
    }
  }

  /** An ordered set keeps the first member of an identity and drops the later ones. */
  function Firsts<T(==)>(id: T -> string, xs: seq<T>): seq<T> {
    if xs == [] then []
    else
      var n := |xs| - 1;
      var before := Firsts(id, xs[..n]);
      if exists y | y in before :: id(y) == id(xs[n]) then before else before + [xs[n]]
  }

  ghost predicate IsFirst<T>(id: T -> string, xs: seq<T>, x: T, i: nat) {
    i < |xs| && xs[i] == x && forall j | 0 <= j < i :: id(xs[j]) != id(x)
  }

  lemma {:induction false} FirstsIds<T>(id: T -> string, xs: seq<T>, k: string)
    ensures (exists x | x in Firsts(id, xs) :: id(x) == k) <==> exists x | x in xs :: id(x) == k
  {
    if xs != [] {
      var n := |xs| - 1;
      FirstsIds(id, xs[..n], k);
      FirstsIds(id, xs[..n], id(xs[n]));
      assert xs == xs[..n] + [xs[n]];
      assert xs[n] in xs;
    }
  }

  lemma IsFirstInPrefix<T>(id: T -> string, xs: seq<T>, x: T)
    requires xs != []
    ensures var n := |xs| - 1;
            (exists i :: IsFirst(id, xs, x, i)) <==>
            (exists i :: IsFirst(id, xs[..n], x, i)) || (x == xs[n] && !exists y | y in xs[..n] :: id(y) == id(x))
  {
    var n := |xs| - 1;
    assert forall j | 0 <= j < n :: xs[..n][j] == xs[j] && xs[j] in xs[..n];
    forall i: nat ensures i < n ==> (IsFirst(id, xs, x, i) <==> IsFirst(id, xs[..n], x, i)) {
    }
    assert IsFirst(id, xs, x, n) <==> x == xs[n] && !exists y | y in xs[..n] :: id(y) == id(x);
    if i: nat :| IsFirst(id, xs[..n], x, i) {
      assert IsFirst(id, xs, x, i);
    }
  }

  /** A member survives exactly when no earlier one has its identity. */
  lemma {:induction false} FirstsKeep<T>(id: T -> string, xs: seq<T>, x: T)
    ensures x in Firsts(id, xs) <==> exists i :: IsFirst(id, xs, x, i)
  {
    if xs != [] {
      var n := |xs| - 1;
      FirstsKeep(id, xs[..n], x);
      FirstsIds(id, xs[..n], id(xs[n]));
      IsFirstInPrefix(id, xs, x);
      hide IsFirst;
    }
  }

  lemma {:induction false} FirstsDistinct<T>(id: T -> string, xs: seq<T>)
    ensures NoDuplicates(Firsts(id, xs))
    ensures forall x, y | x in Firsts(id, xs) && y in Firsts(id, xs) && id(x) == id(y) :: x == y
  {
    if xs != [] {
      var n := |xs| - 1;
      var before := Firsts(id, xs[..n]);
      FirstsDistinct(id, xs[..n]);
      assert forall i | 0 <= i < |before| :: before[i] in before;
      if !exists y | y in before :: id(y) == id(xs[n]) {
        assert xs[n] !in before;
      }
    }
  }

  /** Where no identity is repeated nothing is dropped. */
  lemma {:induction false} FirstsOfDistinct<T>(id: T -> string, xs: seq<T>)
    requires forall i, j | 0 <= i < j < |xs| :: id(xs[i]) != id(xs[j])
    ensures Firsts(id, xs) == xs
  {
    if xs != [] {
      var n := |xs| - 1;
      FirstsOfDistinct(id, xs[..n]);
      assert xs == xs[..n] + [xs[n]];
    }
  }

  function TypeId(t: DocumentType): string { t.id }

  function RelationKey(r: Relation): string { r.id }

  /** The registry of what the loader read: of entries with one id the first, and of types
      with one plural name the last under that name. */
  function RegistryOf(types: seq<DocumentType>, relations: seq<Relation>): SchemaRegistry {
    SchemaRegistry(Firsts(TypeId, types), ByName(types), Firsts(RelationKey, relations))
  }

  /** A relation survives exactly when no earlier one has its id: the loader lets repeated
      ids through, and the later relation is dropped without a word. The registry has the
      distinctness that the builder relies on; its plural-name index is that of its own types
      where the loader has refused repeated type ids. */
  lemma RegistryKeepsFirsts(types: seq<DocumentType>, relations: seq<Relation>)
    ensures var reg := RegistryOf(types, relations);
            && (forall t :: t in reg.types <==> exists i :: IsFirst(TypeId, types, t, i))
            && (forall r :: r in reg.relations <==> exists i :: IsFirst(RelationKey, relations, r, i))
            && DistinctTypes(reg.types) && DistinctRelations(reg.relations)
            && ((forall i, j | 0 <= i < j < |types| :: types[i].id != types[j].id) ==>
                  reg.types == types && reg.byName == ByName(reg.types))
  {
    hide Firsts, IsFirst, NoDuplicates, ByName;
    forall t ensures t in Firsts(TypeId, types) <==> exists i :: IsFirst(TypeId, types, t, i) {
      FirstsKeep(TypeId, types, t);
    }
    forall r ensures r in Firsts(RelationKey, relations) <==> exists i :: IsFirst(RelationKey, relations, r, i) {
      FirstsKeep(RelationKey, relations, r);
    }
    FirstTypesDistinct(types);
    FirstRelationsDistinct(relations);
    if forall i, j | 0 <= i < j < |types| :: types[i].id != types[j].id {
      FirstsOfDistinct(TypeId, types);
    }
  }

  lemma FirstTypesDistinct(types: seq<DocumentType>)
    ensures DistinctTypes(Firsts(TypeId, types))
  {
    FirstsDistinct(TypeId, types);
    hide Firsts, NoDuplicates;
    forall t, u | t in Firsts(TypeId, types) && u in Firsts(TypeId, types) && t.id == u.id ensures t == u {
      assert TypeId(t) == TypeId(u);
    }
  }

  lemma FirstRelationsDistinct(relations: seq<Relation>)
    ensures DistinctRelations(Firsts(RelationKey, relations))
  {
    FirstsDistinct(RelationKey, relations);
    hide Firsts, NoDuplicates;
    forall r, x | r in Firsts(RelationKey, relations) && x in Firsts(RelationKey, relations) && r.id == x.id
      ensures r == x
    {
      assert RelationKey(r) == RelationKey(x);
    }
  }

  /** Builds the registry. The plural-name index is filled for every type given, also for
      one that the set then drops. */
  method NewRegistry(types: seq<DocumentType>, relations: seq<Relation>) returns (r: SchemaRegistry)
    ensures r == RegistryOf(types, relations)
  {
    var byName: map<string, DocumentTypeId> := map[];
    var typeSet: seq<DocumentType> := [];
    for i := 0 to |types|
      invariant typeSet == Firsts(TypeId, types[..i]) && byName == ByName(types[..i])
    {
      assert types[..i + 1][..i] == types[..i];
      byName := byName[types[i].pluralName := types[i].id];
      if !exists t | t in typeSet :: TypeId(t) == TypeId(types[i]) {
        typeSet := typeSet + [types[i]];
      }
    }
    assert types[..|types|] == types;
    var relationSet: seq<Relation> := [];
    for i := 0 to |relations|
      invariant relationSet == Firsts(RelationKey, relations[..i])
    {
      assert relations[..i + 1][..i] == relations[..i];
      if !exists x | x in relationSet :: RelationKey(x) == RelationKey(relations[i]) {
        relationSet := relationSet + [relations[i]];
      }
    }
    assert relations[..|relations|] == relations;
    r := SchemaRegistry(typeSet, byName, relationSet);
  }

  /** What the builder relies on. The loader checks distinct type ids, kebab-case ids and
      attributes, and that relation ends exist; it does not check the rest. */
  ghost predicate WellNamed(reg: SchemaRegistry) {
    && DistinctTypes(reg.types)
    && reg.byName == ByName(reg.types)
    && (forall t | t in reg.types :: Naming.Kebab(t.RawName()))
    && (forall t, u | t in reg.types && u in reg.types && t.pluralName == u.pluralName :: t == u)
    && (forall t, u | t in reg.types && u in reg.types && t.RawName() == u.RawName() :: t == u)
    && (forall r | r in reg.relations ::
          && Naming.Kebab(r.ownerAttr)
          && reg.FindType(r.ownerType).Some? && reg.FindType(r.targetType).Some?)
    && NoDuplicates(reg.relations)
    && (forall r, x | r in reg.relations && x in reg.relations && r.ownerType == x.ownerType
        && r.ownerAttr == x.ownerAttr ::
          r == x)
  }
}
