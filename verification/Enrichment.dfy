/** Batch-loading related documents and attaching them, against looking them up one
    document at a time. */
module Enrichment {
  import opened Wrappers
  import opened DomainSchema
  import opened Codec
  import opened Instance
  import opened DocumentStore
  import opened StoreInvariants
  import opened ReadBack

  /** Parent and child of one link row. */
  datatype Pair = Pair(parent: DocumentId, child: DocumentId)

  type RelationMap = map<AttributeId, map<DocumentId, seq<Document>>>

  datatype Enriched = Enriched(doc: Document, populated: map<AttributeId, seq<Document>>)

  // ----- which way a relation is followed ---------------------------------------------------

  /** The direction is told from the target type alone. */
  predicate IsInverse(r: Relation, typeId: DocumentTypeId) { r.targetType == typeId }

  function ChildType(r: Relation, typeId: DocumentTypeId): DocumentTypeId {
    if IsInverse(r, typeId) then r.ownerType else r.targetType
  }

  function PairOf(r: Relation, typeId: DocumentTypeId, l: Link): Pair {
    if IsInverse(r, typeId) then Pair(l.target, l.owner) else Pair(l.owner, l.target)
  }

  /** The link rows of the relation whose parent end is one of these documents. */
  function Pairs(s: Tables, r: Relation, typeId: DocumentTypeId, parents: set<DocumentId>): set<Pair> {
    set l | l in s.draftLinks && InTable(l, r) && PairOf(r, typeId, l).parent in parents :: PairOf(r, typeId, l)
  }

  /** The children one document has under the relation. */
  function ChildIds(s: Tables, r: Relation, typeId: DocumentTypeId, doc: DocumentId): set<DocumentId> {
    set l | l in s.draftLinks && InTable(l, r) && PairOf(r, typeId, l).parent == doc :: PairOf(r, typeId, l).child
  }

  /** `rows` lists the set, each pair once, in whatever order the database returns them. */
  ghost predicate Lists(rows: seq<Pair>, pairs: set<Pair>) {
    NoDuplicates(rows) && forall p :: p in rows <==> p in pairs
  }

  // ----- one document at a time -----------------------------------------------------------------

  /** A related document as it is attached: always shown as a draft, without relations. */
  function Child(dt: DocumentType, s: Tables, id: DocumentId): Result<Document, StorageError>
    requires Key(dt.id, id) in s.entities
  {
    var row := s.entities[Key(dt.id, id)];
    match FieldsOf(dt.fields, row.cells)
    case Ok(fields) =>
      Ok(Document(id, dt.id, fields, Draft(None), map[],
                  AuditTrail(row.createdAt, Some(row.ownerId), row.updatedAt, Some(row.ownerId), row.version)))
    case Err(e) => Err(e)
  }

  predicate Shown(dt: DocumentType, s: Tables, id: DocumentId) {
    Key(dt.id, id) in s.entities && Child(dt, s, id).Ok?
  }

  /** The naive join: go through the link rows of one parent, look each child up. */
  function Lookup(dt: DocumentType, s: Tables, rows: seq<Pair>, parent: DocumentId): seq<Document> {
    if rows == [] then []
    else
      var n := |rows| - 1;
      Lookup(dt, s, rows[..n], parent)
      + if rows[n].parent == parent && Shown(dt, s, rows[n].child) then [Child(dt, s, rows[n].child).value] else []
  }

  /** The naive join finds each child of the document once, and nothing else. */
  lemma {:induction false} LookupFinds(dt: DocumentType, s: Tables, rows: seq<Pair>, parent: DocumentId)
    requires NoDuplicates(rows)
    ensures forall d | d in Lookup(dt, s, rows, parent) ::
              Pair(parent, d.id) in rows && Shown(dt, s, d.id) && Child(dt, s, d.id) == Ok(d)
    ensures forall id | Pair(parent, id) in rows && Shown(dt, s, id) ::
            Child(dt, s, id).value in Lookup(dt, s, rows, parent)
    ensures NoDuplicates(Lookup(dt, s, rows, parent))
  {
    hide Child;
    if rows != [] {
      var n := |rows| - 1;
      assert rows == rows[..n] + [rows[n]];
      LookupFinds(dt, s, rows[..n], parent);
      assert rows[n] !in rows[..n];
      if Shown(dt, s, rows[n].child) {
        ChildHasId(dt, s, rows[n].child);
      }
    }
  }

  lemma ChildHasId(dt: DocumentType, s: Tables, id: DocumentId)
    requires Shown(dt, s, id)
    ensures Child(dt, s, id).value.id == id
  {
  }

  // ----- all documents at once ----------------------------------------------------------------------

  /** SELECT parent, child FROM link table WHERE parent IN (...), in no particular order. */
  method SelectPairs(s: Tables, r: Relation, typeId: DocumentTypeId, parents: set<DocumentId>) returns (rows: seq<Pair>)
    ensures Lists(rows, Pairs(s, r, typeId, parents))
  {
    rows := [];
    var left := Pairs(s, r, typeId, parents);
    while left != {}
      invariant NoDuplicates(rows)
      invariant forall p :: p in Pairs(s, r, typeId, parents) <==> p in rows || p in left
      invariant forall p | p in rows :: p !in left
      decreases |left|
    {
      var p :| p in left;
      rows := rows + [p];
      left := left - {p};
    }
  }

  /** SELECT ... WHERE id IN (...): the children that exist, by id. */
  method SelectChildren(dt: DocumentType, s: Tables, ids: seq<DocumentId>)
    returns (r: Result<map<DocumentId, Document>, StorageError>)
    ensures r.Ok? <==> forall id | id in ids && Key(dt.id, id) in s.entities :: Child(dt, s, id).Ok?
    ensures r.Ok? ==> forall id :: id in r.value <==> id in ids && Shown(dt, s, id)
    ensures r.Ok? ==> forall id | id in r.value :: Shown(dt, s, id) && Child(dt, s, id) == Ok(r.value[id])
  {
    hide Child;
    var children: map<DocumentId, Document> := map[];
    for i := 0 to |ids|
      invariant forall id | id in ids[..i] && Key(dt.id, id) in s.entities :: Child(dt, s, id).Ok?
      invariant forall id :: id in children <==> id in ids[..i] && Shown(dt, s, id)
      invariant forall id | id in children :: Shown(dt, s, id) && Child(dt, s, id) == Ok(children[id])
    {
      assert ids[..i + 1] == ids[..i] + [ids[i]];
      if Key(dt.id, ids[i]) in s.entities {
        var child := Child(dt, s, ids[i]);
        if child.Err? {
          assert ids[i] in ids;
          return Err(StorageError);
        }
        children := children[ids[i] := child.value];
      }
    }
    assert ids[..|ids|] == ids;
    return Ok(children);
  }

  /** Puts the children under their parents, in the order of the rows. */
  method Stitch(dt: DocumentType, s: Tables, rows: seq<Pair>, children: map<DocumentId, Document>)
    returns (byParent: map<DocumentId, seq<Document>>)
    requires forall p | p in rows :: p.child in children <==> Shown(dt, s, p.child)
    requires forall id | id in children :: Shown(dt, s, id) && Child(dt, s, id) == Ok(children[id])
    ensures forall p :: p in byParent <==> Lookup(dt, s, rows, p) != []
    ensures forall p | p in byParent :: byParent[p] == Lookup(dt, s, rows, p)
  {
    hide Child;
    byParent := map[];
    for i := 0 to |rows|
      invariant forall p :: p in byParent <==> Lookup(dt, s, rows[..i], p) != []
      invariant forall p | p in byParent :: byParent[p] == Lookup(dt, s, rows[..i], p)
    {
      assert rows[..i + 1][..i] == rows[..i];
      var Pair(parent, child) := rows[i];
      assert rows[i] in rows;
      if child in children {
        var items := if parent in byParent then byParent[parent] else [];
        byParent := byParent[parent := items + [children[child]]];
      }
    }
    assert rows[..|rows|] == rows;
  }

  /** The attributes of a type that name a relation. */
  predicate Resolves(reg: SchemaRegistry, typeId: DocumentTypeId, attr: AttributeId) {
    reg.FindRelationForAttr(typeId, attr).Some?
  }

  function RelationFor(reg: SchemaRegistry, typeId: DocumentTypeId, attr: AttributeId): Relation
    requires Resolves(reg, typeId, attr)
  {
    reg.FindRelationForAttr(typeId, attr).value
  }

  /** What the batch of one attribute must hold: for every document what a lookup of its own
      rows finds. */
  ghost predicate Joined(reg: SchemaRegistry, s: Tables, typeId: DocumentTypeId, attr: AttributeId,
                         rows: seq<Pair>, byParent: map<DocumentId, seq<Document>>)
    requires Resolves(reg, typeId, attr)
  {
    var dt := reg.FindType(ChildType(RelationFor(reg, typeId, attr), typeId));
    && (rows == [] ==> byParent == map[])
    && (rows != [] ==> dt.Some?)
    && (dt.Some? ==> forall p :: p in byParent <==> Lookup(dt.value, s, rows, p) != [])
    && (dt.Some? ==> forall p | p in byParent :: byParent[p] == Lookup(dt.value, s, rows, p))
  }

  lemma ChildrenReadable(reg: SchemaRegistry, s: Tables, dt: DocumentType, id: DocumentId)
    requires StoreReady(reg) && Sound(reg, s) && reg.FindType(dt.id) == Some(dt) && Key(dt.id, id) in s.entities
    ensures Child(dt, s, id).Ok?
  {
    SoundIsWorking(reg, s);
    hide Sound, StoreReady, Working, FieldsOf;
    var found := RowReads(reg, s, Key(dt.id, id));
  }

  method FetchAttribute(reg: SchemaRegistry, s: Tables, typeId: DocumentTypeId, attr: AttributeId,
                        parents: set<DocumentId>)
    returns (r: Result<map<DocumentId, seq<Document>>, StorageError>, ghost rows: seq<Pair>)
    requires Resolves(reg, typeId, attr)
    ensures Lists(rows, Pairs(s, RelationFor(reg, typeId, attr), typeId, parents))
    ensures r.Ok? ==> Joined(reg, s, typeId, attr, rows, r.value)
    ensures StoreReady(reg) && Sound(reg, s) ==> r.Ok?
  {
    var rel := RelationFor(reg, typeId, attr);
    var pairs := SelectPairs(s, rel, typeId, parents);
    rows := pairs;
    hide StoreReady, Sound, Pairs, Shown, Child, NoDuplicates;
    TypesKnown(reg, typeId, attr);
    if reg.FindType(rel.ownerType).None? {
      return Err(StorageError), rows;
    }
    if pairs == [] {
      return Ok(map[]), rows;
    }
    var found := reg.FindType(ChildType(rel, typeId));
    if found.None? {
      return Err(StorageError), rows;
    }
    var dt := found.value;
    var ids := Ascending(set p | p in pairs :: p.child);
    var children := SelectChildren(dt, s, ids);
    if children.Err? {
      if StoreReady(reg) && Sound(reg, s) {
        forall id | id in ids && Key(dt.id, id) in s.entities ensures Child(dt, s, id).Ok? {
          ChildrenReadable(reg, s, dt, id);
        }
      }
      return Err(StorageError), rows;
    }
    var byParent := Stitch(dt, s, pairs, children.value);
    return Ok(byParent), rows;
  }

  lemma TypesKnown(reg: SchemaRegistry, typeId: DocumentTypeId, attr: AttributeId)
    requires Resolves(reg, typeId, attr)
    ensures StoreReady(reg) ==>
              && reg.FindType(RelationFor(reg, typeId, attr).ownerType).Some?
              && reg.FindType(ChildType(RelationFor(reg, typeId, attr), typeId)).Some?
  {
  }

  function IdSet(ids: seq<DocumentId>): set<DocumentId> { set id | id in ids }

  /** One batch for every attribute; attributes that name no relation are passed over. */
  method FetchRelations(reg: SchemaRegistry, s: Tables, typeId: DocumentTypeId, attrs: seq<AttributeId>,
                        parents: seq<DocumentId>)
    returns (r: Result<RelationMap, StorageError>, ghost rows: map<AttributeId, seq<Pair>>)
    ensures r.Ok? && attrs != [] && parents != [] ==>
              forall a :: a in r.value <==> a in attrs && Resolves(reg, typeId, a)
    ensures r.Ok? ==> forall a | a in r.value ::
              && Resolves(reg, typeId, a) && a in rows
              && Lists(rows[a], Pairs(s, RelationFor(reg, typeId, a), typeId, IdSet(parents)))
              && Joined(reg, s, typeId, a, rows[a], r.value[a])
    ensures attrs == [] || parents == [] ==> r == Ok(map[])
    ensures StoreReady(reg) && Sound(reg, s) && reg.FindType(typeId).Some? ==> r.Ok?
  {
    hide StoreReady, Sound, Joined, Lists, Resolves, Pairs;
    rows := map[];
    var fetched: RelationMap := map[];
    if attrs == [] || parents == [] {
      return Ok(fetched), rows;
    }
    if reg.FindType(typeId).None? {
      return Err(StorageError), rows;
    }
    for i := 0 to |attrs|
      invariant forall a :: a in fetched <==> a in attrs[..i] && Resolves(reg, typeId, a)
      invariant forall a | a in fetched ::
                  && Resolves(reg, typeId, a) && a in rows
                  && Lists(rows[a], Pairs(s, RelationFor(reg, typeId, a), typeId, IdSet(parents)))
                  && Joined(reg, s, typeId, a, rows[a], fetched[a])
    {
      assert attrs[..i + 1] == attrs[..i] + [attrs[i]];
      if Resolves(reg, typeId, attrs[i]) {
        var byParent, its := FetchAttribute(reg, s, typeId, attrs[i], IdSet(parents));
        if byParent.Err? {
          return Err(StorageError), rows;
        }
        fetched := fetched[attrs[i] := byParent.value];
        rows := rows[attrs[i] := its];
      }
    }
    assert attrs[..|attrs|] == attrs;
    return Ok(fetched), rows;
  }

  // ----- attaching ------------------------------------------------------------------------------------

  function Taken(m: RelationMap, populate: seq<AttributeId>, id: DocumentId): map<AttributeId, seq<Document>> {
    map a | a in m && a in populate && id in m[a] :: m[a][id]
  }

  function Remaining(m: RelationMap, populate: seq<AttributeId>, ids: set<DocumentId>): RelationMap {
    map a | a in m :: if a in populate then m[a] - ids else m[a]
  }

  /** Moves the children of one document out of the map. */
  method TakeFor(m: RelationMap, populate: seq<AttributeId>, id: DocumentId)
    returns (rest: RelationMap, taken: map<AttributeId, seq<Document>>)
    ensures taken == Taken(m, populate, id)
    ensures rest == Remaining(m, populate, {id})
  {
    rest, taken := m, map[];
    for i := 0 to |populate|
      invariant rest == Remaining(m, populate[..i], {id})
      invariant taken == Taken(m, populate[..i], id)
    {
      var attr := populate[i];
      assert populate[..i + 1] == populate[..i] + [attr];
      assert forall a | a in rest :: a in populate[..i] ==> rest[a] - {id} == rest[a];
      assert attr in rest && id !in rest[attr] ==> rest[attr] - {id} == rest[attr];
      if attr in rest && id in rest[attr] {
        taken := taken[attr := rest[attr][id]];
        rest := rest[attr := rest[attr] - {id}];
      }
    }
    assert populate[..|populate|] == populate;
  }

  lemma TakenLater(m: RelationMap, populate: seq<AttributeId>, gone: set<DocumentId>, id: DocumentId)
    ensures Taken(Remaining(m, populate, gone), populate, id) == if id in gone then map[] else Taken(m, populate, id)
    ensures Remaining(Remaining(m, populate, gone), populate, {id}) == Remaining(m, populate, gone + {id})
  {
    assert forall a | a in m :: m[a] - gone - {id} == m[a] - (gone + {id});
  }

  function IdsOf(docs: seq<Document>): set<DocumentId> { set d | d in docs :: d.id }

  /** What is attached to one document when each looks its own rows up. */
  ghost predicate AttachedByLookup(reg: SchemaRegistry, s: Tables, typeId: DocumentTypeId, populate: seq<AttributeId>,
                                   rows: map<AttributeId, seq<Pair>>, e: Enriched)
  {
    && (forall a | a in e.populated :: a in populate && Resolves(reg, typeId, a) && a in rows)
    && forall a | a in populate && Resolves(reg, typeId, a) && a in rows ::
         var dt := reg.FindType(ChildType(RelationFor(reg, typeId, a), typeId));
         var found := if dt.Some? then Lookup(dt.value, s, rows[a], e.doc.id) else [];
         (a in e.populated <==> found != []) && (a in e.populated ==> e.populated[a] == found)
  }

  lemma TakenIsLookup(reg: SchemaRegistry, s: Tables, typeId: DocumentTypeId, populate: seq<AttributeId>,
                      rows: map<AttributeId, seq<Pair>>, m: RelationMap, d: Document)
    requires forall a | a in populate && Resolves(reg, typeId, a) :: a in m
    requires forall a | a in m :: Resolves(reg, typeId, a) && a in rows && Joined(reg, s, typeId, a, rows[a], m[a])
    ensures AttachedByLookup(reg, s, typeId, populate, rows, Enriched(d, Taken(m, populate, d.id)))
  {
    hide Resolves, Lookup;
    var e := Enriched(d, Taken(m, populate, d.id));
    forall a | a in populate && Resolves(reg, typeId, a) && a in rows
      ensures a in e.populated <==> d.id in m[a]
      ensures a in e.populated ==> e.populated[a] == m[a][d.id]
      ensures Joined(reg, s, typeId, a, rows[a], m[a])
    {
    }
    hide Taken, RelationFor;
  }

  lemma NothingTaken(m: RelationMap, populate: seq<AttributeId>)
    ensures Remaining(m, populate, {}) == m
  {
    assert forall a | a in m :: m[a] - {} == m[a];
  }

  lemma OneMoreId(docs: seq<Document>, i: nat)
    requires i < |docs|
    ensures IdsOf(docs[..i + 1]) == IdsOf(docs[..i]) + {docs[i].id}
  {
    assert docs[..i + 1] == docs[..i] + [docs[i]];
  }

  function Attached(fetched: RelationMap, populate: seq<AttributeId>, docs: seq<Document>, i: nat):
      map<AttributeId, seq<Document>>
    requires i < |docs|
  {
    if docs[i].id in IdsOf(docs[..i]) then map[] else Taken(fetched, populate, docs[i].id)
  }

  lemma AttachedNow(fetched: RelationMap, populate: seq<AttributeId>, docs: seq<Document>, i: nat)
    requires i < |docs|
    ensures var m, id := Remaining(fetched, populate, IdsOf(docs[..i])), docs[i].id;
            && Taken(m, populate, id) == Attached(fetched, populate, docs, i)
            && Remaining(m, populate, {id}) == Remaining(fetched, populate, IdsOf(docs[..i]) + {id})
  {
    hide Taken, Remaining, IdsOf;
    TakenLater(fetched, populate, IdsOf(docs[..i]), docs[i].id);
  }

  /** Hands each document in turn what the map holds for it. */
  method AttachAll(fetched: RelationMap, populate: seq<AttributeId>, docs: seq<Document>) returns (out: seq<Enriched>)
    ensures |out| == |docs|
    ensures forall i | 0 <= i < |docs| :: out[i] == Enriched(docs[i], Attached(fetched, populate, docs, i))
  {
    var relationMap := fetched;
    NothingTaken(fetched, populate);
    assert IdsOf(docs[..0]) == {};
    hide Taken, Remaining, IdsOf, Attached;
    out := [];
    for i := 0 to |docs|
      invariant relationMap == Remaining(fetched, populate, IdsOf(docs[..i]))
      invariant |out| == i
      invariant forall j | 0 <= j < i :: out[j] == Enriched(docs[j], Attached(fetched, populate, docs, j))
    {
      var taken;
      AttachedNow(fetched, populate, docs, i);
      OneMoreId(docs, i);
      relationMap, taken := TakeFor(relationMap, populate, docs[i].id);
      out := out + [Enriched(docs[i], taken)];
    }
  }

  method ParentIds(docs: seq<Document>) returns (parents: seq<DocumentId>)
    ensures |parents| == |docs| && IdSet(parents) == IdsOf(docs)
  {
    parents := [];
    for i := 0 to |docs|
      invariant |parents| == i && forall j | 0 <= j < i :: parents[j] == docs[j].id
    {
      parents := parents + [docs[i].id];
    }
    assert forall d | d in docs :: d.id in parents;
  }

  /** Attaches related documents to a page of documents. A document whose id came earlier in
      the page finds its children already taken. Every other one gets exactly what looking
      up its own link rows would give, in the order of those rows. */
  method Enrich(reg: SchemaRegistry, s: Tables, typeId: DocumentTypeId, populate: seq<AttributeId>, docs: seq<Document>)
    returns (r: Result<seq<Enriched>, StorageError>, ghost rows: map<AttributeId, seq<Pair>>)
    ensures StoreReady(reg) && Sound(reg, s) && reg.FindType(typeId).Some? ==> r.Ok?
    ensures r.Ok? ==> |r.value| == |docs| && forall i | 0 <= i < |docs| :: r.value[i].doc == docs[i]
    ensures r.Ok? ==> forall i | 0 <= i < |docs| && docs[i].id !in IdsOf(docs[..i]) ::
              AttachedByLookup(reg, s, typeId, populate, rows, r.value[i])
    ensures r.Ok? ==> forall i | 0 <= i < |docs| && docs[i].id in IdsOf(docs[..i]) :: r.value[i].populated == map[]
    ensures r.Ok? && StoreReady(reg) ==> forall i | 0 <= i < |docs| ::
              ShowsStored(reg, s, typeId, r.value[i])
    ensures r.Ok? && docs != [] ==> forall a | a in populate && Resolves(reg, typeId, a) ::
              a in rows && Lists(rows[a], Pairs(s, RelationFor(reg, typeId, a), typeId, IdsOf(docs)))
  {
    hide StoreReady, Sound, Joined, Resolves, Pairs, Taken, AttachedByLookup, Lists, IdsOf, IdSet, ShowsStored;
    rows := map[];
    if populate == [] || docs == [] {
      var plain := seq(|docs|, i requires 0 <= i < |docs| => Enriched(docs[i], map[]));
      forall i | 0 <= i < |docs| ensures AttachedByLookup(reg, s, typeId, populate, rows, plain[i]) {
        NothingAsked(reg, s, typeId, rows, plain[i]);
      }
      forall i | 0 <= i < |docs| ensures ShowsStored(reg, s, typeId, plain[i]) {
        NothingShown(reg, s, typeId, plain[i]);
      }
      return Ok(plain), rows;
    }
    var parents := ParentIds(docs);
    var fetched;
    fetched, rows := FetchRelations(reg, s, typeId, populate, parents);
    if fetched.Err? {
      return Err(StorageError), rows;
    }
    var out := AttachAll(fetched.value, populate, docs);
    forall i | 0 <= i < |docs| && docs[i].id !in IdsOf(docs[..i])
      ensures AttachedByLookup(reg, s, typeId, populate, rows, out[i])
    {
      TakenIsLookup(reg, s, typeId, populate, rows, fetched.value, docs[i]);
    }
    if StoreReady(reg) {
      forall i | 0 <= i < |docs| ensures ShowsStored(reg, s, typeId, out[i]) {
        if docs[i].id !in IdsOf(docs[..i]) {
          AttachedIsStored(reg, s, typeId, populate, rows, out[i]);
        } else {
          NothingShown(reg, s, typeId, out[i]);
        }
      }
    }
    return Ok(out), rows;
  }

  /** A document as it is attached shows what a lookup of it by its id returns: the attributes
      and the audit trail, but no publication and no relations. */
  ghost predicate ShownAs(reg: SchemaRegistry, s: Tables, k: Key, d: Document) {
    exists x: Document :: Find(reg, s, k) == Ok(Some(x)) && d == x.(state := Draft(None), relations := map[])
  }

  /** Everything attached to the document is of the type that its attribute leads to, and
      shows what is stored. */
  ghost predicate ShowsStored(reg: SchemaRegistry, s: Tables, typeId: DocumentTypeId, e: Enriched) {
    forall a, d | a in e.populated && d in e.populated[a] ::
      && Resolves(reg, typeId, a)
      && ShownAs(reg, s, Key(ChildType(RelationFor(reg, typeId, a), typeId), d.id), d)
  }

  lemma NothingShown(reg: SchemaRegistry, s: Tables, typeId: DocumentTypeId, e: Enriched)
    requires e.populated == map[]
    ensures ShowsStored(reg, s, typeId, e)
  {
  }

  lemma ChildIsFound(reg: SchemaRegistry, s: Tables, dt: DocumentType, id: DocumentId)
    requires reg.FindType(dt.id) == Some(dt) && Shown(dt, s, id)
    ensures ShownAs(reg, s, Key(dt.id, id), Child(dt, s, id).value)
  {
    hide FieldsOf, RelationsOf, StateOf;
    var x := Find(reg, s, Key(dt.id, id)).value.value;
    assert Find(reg, s, Key(dt.id, id)) == Ok(Some(x));
  }

  lemma {:induction false} LookupShows(dt: DocumentType, s: Tables, rows: seq<Pair>, parent: DocumentId, d: Document)
    requires d in Lookup(dt, s, rows, parent)
    ensures Shown(dt, s, d.id) && Child(dt, s, d.id) == Ok(d)
  {
    var n := |rows| - 1;
    if d in Lookup(dt, s, rows[..n], parent) {
      hide Child;
      LookupShows(dt, s, rows[..n], parent, d);
    } else {
      ChildHasId(dt, s, rows[n].child);
    }
  }

  lemma AttachedIsStored(reg: SchemaRegistry, s: Tables, typeId: DocumentTypeId, populate: seq<AttributeId>,
                         rows: map<AttributeId, seq<Pair>>, e: Enriched)
    requires StoreReady(reg) && AttachedByLookup(reg, s, typeId, populate, rows, e)
    ensures ShowsStored(reg, s, typeId, e)
  {
    forall a, d | a in e.populated && d in e.populated[a]
      ensures Resolves(reg, typeId, a)
              && ShownAs(reg, s, Key(ChildType(RelationFor(reg, typeId, a), typeId), d.id), d)
    {
      TypesKnown(reg, typeId, a);
      var dt := reg.FindType(ChildType(RelationFor(reg, typeId, a), typeId)).value;
      hide StoreReady, Child, Shown, ShownAs, Lookup;
      LookupShows(dt, s, rows[a], e.doc.id, d);
      ChildIsFound(reg, s, dt, d.id);
    }
  }

  lemma NothingAsked(reg: SchemaRegistry, s: Tables, typeId: DocumentTypeId, rows: map<AttributeId, seq<Pair>>,
                     e: Enriched)
    requires e.populated == map[]
    ensures AttachedByLookup(reg, s, typeId, [], rows, e)
  {
  }

  // ----- what is seen, as sets -----------------------------------------------------------------------

  /** Of a sound store, the lookup of one document finds its children, each once. */
  lemma LookupIsJoin(reg: SchemaRegistry, s: Tables, r: Relation, typeId: DocumentTypeId, dt: DocumentType,
                     rows: seq<Pair>, parents: set<DocumentId>, doc: DocumentId)
    requires StoreReady(reg) && Sound(reg, s) && r in reg.relations
    requires reg.FindType(ChildType(r, typeId)) == Some(dt)
    requires Lists(rows, Pairs(s, r, typeId, parents)) && doc in parents
    ensures NoDuplicates(Lookup(dt, s, rows, doc))
    ensures (set d | d in Lookup(dt, s, rows, doc) :: d.id) == ChildIds(s, r, typeId, doc)
  {
    hide StoreReady, Sound, Child, Lookup, ChildIds, Pairs;
    LookupFinds(dt, s, rows, doc);
    forall c ensures Pair(doc, c) in rows <==> c in ChildIds(s, r, typeId, doc) {
      PairIsChild(s, r, typeId, parents, doc, c);
    }
    forall c | c in ChildIds(s, r, typeId, doc) ensures Shown(dt, s, c) && Child(dt, s, c).value.id == c {
      ChildExists(reg, s, r, typeId, dt, doc, c);
      ChildHasId(dt, s, c);
    }
  }

  lemma PairIsChild(s: Tables, r: Relation, typeId: DocumentTypeId, parents: set<DocumentId>, doc: DocumentId,
                    c: DocumentId)
    requires doc in parents
    ensures Pair(doc, c) in Pairs(s, r, typeId, parents) <==> c in ChildIds(s, r, typeId, doc)
  {
  }

  lemma ChildExists(reg: SchemaRegistry, s: Tables, r: Relation, typeId: DocumentTypeId, dt: DocumentType,
                    doc: DocumentId, c: DocumentId)
    requires StoreReady(reg) && Sound(reg, s) && r in reg.relations
    requires reg.FindType(ChildType(r, typeId)) == Some(dt) && c in ChildIds(s, r, typeId, doc)
    ensures Shown(dt, s, c)
  {
    var l :| l in s.draftLinks && InTable(l, r) && PairOf(r, typeId, l) == Pair(doc, c);
    SoundIsWorking(reg, s);
    assert DraftLinkHolds(reg, s.entities, l);
    TargetTypeOf(reg, r, l);
    hide Sound, StoreReady, Working;
    ChildrenReadable(reg, s, dt, c);
  }

  /** Under a relation between two types, a document is a child of its owner exactly when the
      owner is a child of it. */
  lemma ChildrenAreDual(s: Tables, r: Relation, owner: DocumentId, target: DocumentId)
    requires r.ownerType != r.targetType
    ensures target in ChildIds(s, r, r.ownerType, owner) <==> owner in ChildIds(s, r, r.targetType, target)
    ensures target in ChildIds(s, r, r.ownerType, owner) <==>
            Link(r.ownerType, r.ownerAttr, owner, target) in s.draftLinks
  {
    var l := Link(r.ownerType, r.ownerAttr, owner, target);
    assert forall m: Link :: InTable(m, r) && m.owner == owner && m.target == target ==> m == l;
    if l in s.draftLinks {
      assert PairOf(r, r.ownerType, l) == Pair(owner, target) && PairOf(r, r.targetType, l) == Pair(target, owner);
    }
  }

  /** A document with this id is attached under the attribute. */
  ghost predicate Attaches(e: Enriched, attr: AttributeId, id: DocumentId) {
    attr in e.populated && exists d :: d in e.populated[attr] && d.id == id
  }

  /** What a fetch of link rows for a page promises about one attribute. */
  ghost predicate Fetched(reg: SchemaRegistry, s: Tables, typeId: DocumentTypeId, attr: AttributeId,
                          rows: map<AttributeId, seq<Pair>>, doc: DocumentId)
  {
    && Resolves(reg, typeId, attr) && attr in rows
    && exists parents :: doc in parents && Lists(rows[attr], Pairs(s, RelationFor(reg, typeId, attr), typeId, parents))
  }

  /** In a sound store the attached documents are the children. */
  lemma AttachedAreChildren(reg: SchemaRegistry, s: Tables, typeId: DocumentTypeId, populate: seq<AttributeId>,
                            rows: map<AttributeId, seq<Pair>>, e: Enriched, attr: AttributeId, id: DocumentId)
    requires StoreReady(reg) && Sound(reg, s) && AttachedByLookup(reg, s, typeId, populate, rows, e)
    requires attr in populate && Fetched(reg, s, typeId, attr, rows, e.doc.id)
    ensures Attaches(e, attr, id) <==> id in ChildIds(s, RelationFor(reg, typeId, attr), typeId, e.doc.id)
  {
    var r := RelationFor(reg, typeId, attr);
    TypesKnown(reg, typeId, attr);
    var dt := reg.FindType(ChildType(r, typeId)).value;
    var found := Lookup(dt, s, rows[attr], e.doc.id);
    assert (attr in e.populated <==> found != []) && (attr in e.populated ==> e.populated[attr] == found);
    var parents :| e.doc.id in parents && Lists(rows[attr], Pairs(s, r, typeId, parents));
    hide StoreReady, Sound, AttachedByLookup, Lookup, ChildIds, Pairs;
    LookupIsJoin(reg, s, r, typeId, dt, rows[attr], parents, e.doc.id);
    assert id in ChildIds(s, r, typeId, e.doc.id) <==> exists d :: d in found && d.id == id;
  }

  /** Owner and inverse see the same links: under a relation between two types, enriching a
      page of owners attaches the target to the owner exactly when enriching a page of
      targets attaches the owner to the target. */
  lemma OwnerInverseDuality(reg: SchemaRegistry, s: Tables, r: Relation, back: AttributeId,
                            owners: seq<AttributeId>, ownerRows: map<AttributeId, seq<Pair>>, owner: Enriched,
                            targets: seq<AttributeId>, targetRows: map<AttributeId, seq<Pair>>, target: Enriched)
    requires StoreReady(reg) && Sound(reg, s) && r.ownerType != r.targetType
    requires reg.FindRelationForAttr(r.ownerType, r.ownerAttr) == Some(r)
    requires reg.FindRelationForAttr(r.targetType, back) == Some(r)
    requires r.ownerAttr in owners && AttachedByLookup(reg, s, r.ownerType, owners, ownerRows, owner)
    requires Fetched(reg, s, r.ownerType, r.ownerAttr, ownerRows, owner.doc.id)
    requires back in targets && AttachedByLookup(reg, s, r.targetType, targets, targetRows, target)
    requires Fetched(reg, s, r.targetType, back, targetRows, target.doc.id)
    ensures Attaches(owner, r.ownerAttr, target.doc.id) <==> Attaches(target, back, owner.doc.id)
  {
    hide StoreReady, Sound, AttachedByLookup, Fetched, Attaches, ChildIds;
    AttachedAreChildren(reg, s, r.ownerType, owners, ownerRows, owner, r.ownerAttr, target.doc.id);
    AttachedAreChildren(reg, s, r.targetType, targets, targetRows, target, back, owner.doc.id);
    ChildrenAreDual(s, r, owner.doc.id, target.doc.id);
  }

  /** Populating an attribute shows what it links to exactly when the relation leads to
      another type. Within one type it shows the documents that link here instead. */
  lemma PopulateShowsTargets(r: Relation)
    ensures (forall s: Tables, doc :: ChildIds(s, r, r.ownerType, doc) == TargetIds(s, r, doc)) <==>
            r.ownerType != r.targetType
  {
    if r.ownerType != r.targetType {
      forall s: Tables, doc ensures ChildIds(s, r, r.ownerType, doc) == TargetIds(s, r, doc) {
        assert forall l :: PairOf(r, r.ownerType, l) == Pair(l.owner, l.target);
      }
    } else {
      var s := Tables({}, map[], map[], {Link(r.ownerType, r.ownerAttr, 1, 2)}, {});
      assert 2 in TargetIds(s, r, 1) by {
        assert Link(r.ownerType, r.ownerAttr, 1, 2) in s.draftLinks;
      }
      assert 2 !in ChildIds(s, r, r.ownerType, 1);
    }
  }

  function TargetIds(s: Tables, r: Relation, doc: DocumentId): set<DocumentId> {
    set l | l in s.draftLinks && InTable(l, r) && l.owner == doc :: l.target
  }

  /** From a save to what is seen: after it, populating a relation to another type shows
      exactly the targets that were kept. */
  lemma SavedTargetsAreSeen(reg: SchemaRegistry, s: Tables, d: Document, after: Tables, r: Relation)
    requires StoreReady(reg) && Took(reg, s, d, after)
    requires r in reg.relations && r.ownerType == d.typeId && r.ownerType != r.targetType
    ensures ChildIds(after, r, d.typeId, d.id)
            == set t | t in Kept(Locks(reg, s.live, false), r, TargetsOf(d.relations, r.ownerAttr))
  {
    PopulateShowsTargets(r);
    assert ChildIds(after, r, r.ownerType, d.id) == TargetIds(after, r, d.id);
    hide ChildIds, StoreReady, Relinked, Kept, TargetsOf, CellsOf, Locks;
    var locks := Locks(reg, s.live, false);
    assert after.draftLinks == Relinked(locks, reg.relations, d, s.draftLinks);
    forall t ensures t in TargetIds(after, r, d.id) <==> t in Kept(locks, r, TargetsOf(d.relations, r.ownerAttr)) {
      TargetsSaved(reg, locks, s.draftLinks, after, d, r, t);
      assert t in Targets(after, r, d.id) <==> t in TargetIds(after, r, d.id);
    }
  }
}
