/** What is read back after a save, and what saving it again changes. */
module ReadBack {
  import opened Wrappers
  import opened DomainSchema
  import opened Content
  import opened Validator
  import opened Codec
  import opened Instance
  import opened DocumentStore
  import opened StoreInvariants

  // ----- fields --------------------------------------------------------------------------

  lemma {:induction false} FieldsAre(fs: seq<FieldDefinition>, cells: Cells)
    requires DistinctFields(fs)
    requires forall f | f in fs :: f.id in cells && StoredCell(cells[f.id], f.fieldType)
    ensures FieldsOf(fs, cells).Ok?
    ensures forall a :: a in FieldsOf(fs, cells).value <==> exists f | f in fs :: f.id == a
    ensures forall f | f in fs ::
            Ok(ValueOf(FieldsOf(fs, cells).value, f.id)) == ReadContentValue(cells[f.id], f.fieldType)
  {
    hide StoredCell, ReadContentValue;
    if fs != [] {
      var n := |fs| - 1;
      FieldsAre(fs[..n], cells);
      ReadThenStore(cells[fs[n].id], fs[n].fieldType);
      assert fs == fs[..n] + [fs[n]];
      assert forall f | f in fs[..n] :: f.id != fs[n].id;
    }
  }

  /** Cells made from read fields are the cells that were read. */
  lemma CellsOfFields(dt: DocumentType, cells: Cells)
    requires DistinctFields(dt.fields) && Readable(dt, cells)
    ensures FieldsOf(dt.fields, cells).Ok?
    ensures CellsOf(dt.fields, FieldsOf(dt.fields, cells).value) == Ok(cells)
  {
    FieldsAre(dt.fields, cells);
    var fields := FieldsOf(dt.fields, cells).value;
    hide FieldsOf, StoredCell, ToSeaValue, Store, ReadContentValue, CellsOf;
    forall f | f in dt.fields ensures Cell(fields, f) == Ok(cells[f.id]) {
      ReadThenStore(cells[f.id], f.fieldType);
    }
    hide Cell;
    CellsAre(dt.fields, fields);
    SameCells(dt, CellsOf(dt.fields, fields).value, cells);
  }

  lemma SameCells(dt: DocumentType, a: Cells, b: Cells)
    requires forall x :: x in a <==> exists f | f in dt.fields :: f.id == x
    requires forall x | x in b :: exists f | f in dt.fields :: f.id == x
    requires forall f | f in dt.fields :: f.id in a && f.id in b && a[f.id] == b[f.id]
    ensures a == b
  {
    forall x | x in b ensures x in a && a[x] == b[x] {
      var f :| f in dt.fields && f.id == x;
    }
  }

  ghost predicate AllFit(dt: DocumentType, fields: Fields) {
    forall f | f in dt.fields :: Fits(ValueOf(fields, f.id), f.fieldType)
  }

  /** The fields with the missing ones filled by null. */
  ghost predicate Filled(dt: DocumentType, fields: Fields, back: Fields) {
    && (forall a :: a in back <==> exists f | f in dt.fields :: f.id == a)
    && (forall f | f in dt.fields :: ValueOf(back, f.id) == ValueOf(fields, f.id))
  }

  /** Write the attributes of a document, read them back. */
  function RoundTrip(dt: DocumentType, fields: Fields): Result<Fields, StorageError> {
    match CellsOf(dt.fields, fields)
    case Ok(cells) => FieldsOf(dt.fields, cells)
    case Err(e) => Err(e)
  }

  lemma ReadCells(dt: DocumentType, fields: Fields)
    requires DistinctFields(dt.fields) && CellsOf(dt.fields, fields).Ok?
    ensures RoundTrip(dt, fields).Ok?
    ensures forall a :: a in RoundTrip(dt, fields).value <==> exists f | f in dt.fields :: f.id == a
    ensures forall f | f in dt.fields ::
              Ok(ValueOf(RoundTrip(dt, fields).value, f.id)) == Through(ValueOf(fields, f.id), f.fieldType)
  {
    var cells := CellsOf(dt.fields, fields).value;
    CellsAre(dt.fields, fields);
    hide StoredCell, ToSeaValue, Store, ReadContentValue, CellsOf, FieldsOf;
    forall f | f in dt.fields ensures StoredCell(cells[f.id], f.fieldType) {
      StoredValueIsStored(ValueOf(fields, f.id), f.fieldType);
    }
    FieldsAre(dt.fields, cells);
    forall f | f in dt.fields
      ensures Through(ValueOf(fields, f.id), f.fieldType) == ReadContentValue(cells[f.id], f.fieldType)
    {
      assert Cell(fields, f) == Ok(cells[f.id]);
    }
  }

  /** Valid content is stored without loss exactly when every value fits its column. What
      fits is stored with nothing null that is required, comes back with the missing
      attributes filled by null, and is valid again. */
  lemma ValidContentSurvives(rules: Rules, dt: DocumentType, fields: Fields)
    requires DistinctFields(dt.fields) && ContentValid(dt, fields, rules)
    ensures AllFit(dt, fields) <==> RoundTrip(dt, fields).Ok? && Filled(dt, fields, RoundTrip(dt, fields).value)
    ensures AllFit(dt, fields) ==>
              && NotNull(dt, CellsOf(dt.fields, fields).value)
              && ContentValid(dt, RoundTrip(dt, fields).value, rules)
  {
    hide Through, Fits, FieldValid, ToSeaValue, Store, ReadContentValue, CellsOf, FieldsOf, TypeCorrect;
    CellsAre(dt.fields, fields);
    forall f | f in dt.fields
      ensures Through(ValueOf(fields, f.id), f.fieldType) == Ok(ValueOf(fields, f.id)) <==>
              Fits(ValueOf(fields, f.id), f.fieldType)
      ensures Fits(ValueOf(fields, f.id), f.fieldType) ==>
              Cell(fields, f).Ok? && (f.required ==> !Cell(fields, f).value.IsNull())
    {
      ValidIsTypeCorrect(rules, f, ValueOf(fields, f.id));
      CodecLossless(ValueOf(fields, f.id), f.fieldType);
      if Fits(ValueOf(fields, f.id), f.fieldType) {
        FittingCell(rules, fields, f);
      }
    }
    if CellsOf(dt.fields, fields).Ok? {
      ReadCells(dt, fields);
      FilledIsValid(rules, dt, fields);
    }
  }

  lemma FilledIsValid(rules: Rules, dt: DocumentType, fields: Fields)
    requires ContentValid(dt, fields, rules)
    ensures forall back: Fields :: Filled(dt, fields, back) ==> ContentValid(dt, back, rules)
  {
    hide FieldValid;
  }

  lemma FittingCell(rules: Rules, fields: Fields, f: FieldDefinition)
    requires FieldValid(rules, f, ValueOf(fields, f.id)) && Fits(ValueOf(fields, f.id), f.fieldType)
    ensures Cell(fields, f).Ok? && (f.required ==> !Cell(fields, f).value.IsNull())
  {
    hide FieldValid, Fits, Store, ToSeaValue;
    var v := ValueOf(fields, f.id);
    ValidIsTypeCorrect(rules, f, v);
    CodecLossless(v, f.fieldType);
    assert f.required ==> !v.Null? by { RequiredIsThere(rules, f, v); }
    if Cell(fields, f).value.IsNull() {
      NullReadsNull(Cell(fields, f).value, f.fieldType);
    }
  }

  lemma RequiredIsThere(rules: Rules, f: FieldDefinition, v: ContentValue)
    requires FieldValid(rules, f, v)
    ensures f.required ==> !v.Null?
  {
  }

  lemma NullReadsNull(cell: SqlValue, ft: FieldType)
    requires cell.IsNull()
    ensures ReadContentValue(cell, ft).Ok? ==> ReadContentValue(cell, ft).value == Null
  {
  }

  // ----- relations -----------------------------------------------------------------------

  lemma {:induction false} RelationsAre(rs: seq<Relation>, s: Tables, k: Key)
    requires OneTableEach(rs)
    ensures forall a :: a in RelationsOf(rs, s, k) <==>
            exists r | r in rs :: r.ownerType == k.typeId && r.ownerAttr == a
    ensures forall r | r in rs && r.ownerType == k.typeId ::
              r.ownerAttr in RelationsOf(rs, s, k) && RelationsOf(rs, s, k)[r.ownerAttr] == Targets(s, r, k.id)
  {
    hide Targets;
    if rs != [] {
      var n := |rs| - 1;
      assert rs == rs[..n] + [rs[n]];
      assert forall r | r in rs[..n] :: r in rs;
      RelationsAre(rs[..n], s, k);
      assert rs[n] in rs;
    }
  }

  /** The targets of a relation after a save: those kept, in ascending order. */
  lemma TargetsSaved(reg: SchemaRegistry, locks: set<Relation>, links: set<Link>, s: Tables, d: Document, r: Relation,
                     t: DocumentId)
    requires StoreReady(reg) && r in reg.relations && r.ownerType == d.typeId
    requires s.draftLinks == Relinked(locks, reg.relations, d, links)
    ensures t in Targets(s, r, d.id) <==> t in Kept(locks, r, TargetsOf(d.relations, r.ownerAttr))
  {
    var l := Link(r.ownerType, r.ownerAttr, d.id, t);
    TargetTypeOf(reg, r, l);
    OwnLinksReplaced(reg, locks, d, links, l);
    hide Relinked, TargetsOf, Kept, StoreReady;
    if l in LinksFor(locks, r, d) {
      assert Wants(locks, reg.relations, d, l);
    }
    if Wants(locks, reg.relations, d, l) {
      WantedBy(reg, locks, d, r, l);
    }
    assert t in Targets(s, r, d.id) <==> l in s.draftLinks by {
      forall m | m in s.draftLinks && InTable(m, r) && m.owner == d.id && m.target == t ensures m == l {
      }
    }
  }

  // ----- read after write --------------------------------------------------------------------

  predicate Publishes(reg: SchemaRegistry, d: Document) { HasMirror(reg, d.typeId) && d.state.Published? }

  function Publisher(d: Document): UserId
    requires d.state.Published?
  {
    match d.state.publishedBy
    case Some(user) => user
    case None => OwnerId(d)
  }

  ghost predicate FieldsNormal(fs: seq<FieldDefinition>, before: Fields, after: Fields) {
    && (forall a :: a in after <==> exists f | f in fs :: f.id == a)
    && (forall f | f in fs :: Ok(ValueOf(after, f.id)) == Through(ValueOf(before, f.id), f.fieldType))
  }

  ghost predicate RelationNormal(locks: set<Relation>, r: Relation, d: Document, after: seq<DocumentId>) {
    IsAscending(after) && forall t :: t in after <==> t in Kept(locks, r, TargetsOf(d.relations, r.ownerAttr))
  }

  ghost predicate RelationsNormal(reg: SchemaRegistry, locks: set<Relation>, d: Document, after: Relations) {
    && (forall a :: a in after <==> exists r | r in reg.relations :: r.ownerType == d.typeId && r.ownerAttr == a)
    && (forall r | r in reg.relations && r.ownerType == d.typeId ::
          r.ownerAttr in after && RelationNormal(locks, r, d, after[r.ownerAttr]))
  }

  function NormalState(reg: SchemaRegistry, d: Document): PublicationState {
    if Publishes(reg, d) then Published(d.state.revision, Micros(d.state.publishedAt), Some(Publisher(d)))
    else Draft(None)
  }

  /** What a document comes back as: attributes as their columns keep them, missing ones
      null; links of every relation it owns, ascending; the creation time of its row; the
      owner as author and editor; and, unless published, no trace of its last revision. */
  ghost predicate NormalForm(reg: SchemaRegistry, s: Tables, d: Document, x: Document) {
    && KeyOf(x) == KeyOf(d)
    && reg.FindType(d.typeId).Some?
    && FieldsNormal(reg.FindType(d.typeId).value.fields, d.fields, x.fields)
    && RelationsNormal(reg, Locks(reg, s.live, false), d, x.relations)
    && x.state == NormalState(reg, d)
    && x.audit == AuditTrail(CreatedAt(s, d), Some(OwnerId(d)), Micros(d.audit.updatedAt), Some(OwnerId(d)),
                             d.audit.version)
  }

  /** A save that succeeds has this effect, unless its transaction was aborted. */
  ghost predicate Took(reg: SchemaRegistry, s: Tables, d: Document, after: Tables) {
    && reg.FindType(d.typeId).Some?
    && var fs := reg.FindType(d.typeId).value.fields;
    && CellsOf(fs, d.fields).Ok?
    && var cells := CellsOf(fs, d.fields).value;
    && after.entities == s.entities[KeyOf(d) := EntityRowOf(d, cells, CreatedAt(s, d))]
    && after.live == s.live
    && after.draftLinks == Relinked(Locks(reg, s.live, false), reg.relations, d, s.draftLinks)
    && (Publishes(reg, d) ==> after.mirrors == s.mirrors[KeyOf(d) := MirrorRowOf(d, cells, MirrorCreatedAt(s, d))])
  }

  lemma SaveTakes(reg: SchemaRegistry, mode: LinkFailure, s: Tables, d: Document)
    requires Save(reg, mode, s, d).result.Ok?
    ensures Took(reg, s, d, Save(reg, mode, s, d).tables)
            || (mode.Abort? && Publishes(reg, d) && Save(reg, mode, s, d).tables == s)
  {
    hide CellsOf, Relinked, RelinkedPublic, RowAllowed, RowLocks, Locks, DraftTargetsExist, PublicTargetsExist;
    var dt := reg.FindType(d.typeId).value;
    var s2 := AfterWorkingPart(reg, s, d, CellsOf(dt.fields, d.fields).value);
    if Publishes(reg, d) {
      NeverAbortedWhenSkipping(reg, WithMirror(s2, d, CellsOf(dt.fields, d.fields).value), reg.relations, d);
    }
    hide TransactionAfter, EntityRowOf, MirrorRowOf;
  }

  lemma {:induction false} NeverAbortedWhenSkipping(reg: SchemaRegistry, s: Tables, rs: seq<Relation>, d: Document)
    ensures TransactionAfter(reg, Skip, s, rs, d).Live?
  {
    if rs != [] {
      NeverAbortedWhenSkipping(reg, s, rs[..|rs| - 1], d);
    }
  }

  /** Read after write: the document comes back in its normal form, or the save was
      acknowledged and lost. */
  lemma ReadAfterWrite(reg: SchemaRegistry, mode: LinkFailure, s: Tables, d: Document)
    requires StoreReady(reg) && Save(reg, mode, s, d).result.Ok?
    ensures var after := Save(reg, mode, s, d).tables;
            || (mode.Abort? && Publishes(reg, d) && after == s)
            || (exists x :: Find(reg, after, KeyOf(d)) == Ok(Some(x)) && NormalForm(reg, s, d, x))
  {
    hide Save, Took, Publishes, StoreReady;
    SaveTakes(reg, mode, s, d);
    var after := Save(reg, mode, s, d).tables;
    if Took(reg, s, d, after) {
      TookReadsBack(reg, s, d, after);
    }
  }

  lemma RelationReadsBack(reg: SchemaRegistry, s: Tables, d: Document, after: Tables, r: Relation)
    requires StoreReady(reg)
    requires after.draftLinks == Relinked(Locks(reg, s.live, false), reg.relations, d, s.draftLinks)
    requires r in reg.relations && r.ownerType == d.typeId
    ensures RelationNormal(Locks(reg, s.live, false), r, d, Targets(after, r, d.id))
  {
    hide Relinked, Targets, Kept, TargetsOf, StoreReady, IsAscending, Locks;
    var locks := Locks(reg, s.live, false);
    TargetsAscend(after, r, d.id);
    forall t ensures t in Targets(after, r, d.id) <==> t in Kept(locks, r, TargetsOf(d.relations, r.ownerAttr)) {
      TargetsSaved(reg, locks, s.draftLinks, after, d, r, t);
    }
  }

  lemma RelationsReadBack(reg: SchemaRegistry, s: Tables, d: Document, after: Tables)
    requires StoreReady(reg)
    requires after.draftLinks == Relinked(Locks(reg, s.live, false), reg.relations, d, s.draftLinks)
    ensures RelationsNormal(reg, Locks(reg, s.live, false), d, RelationsOf(reg.relations, after, KeyOf(d)))
  {
    assert OneTableEach(reg.relations);
    hide Relinked, Targets, StoreReady, RelationsOf, RelationNormal, OneTableEach, Locks;
    RelationsAre(reg.relations, after, KeyOf(d));
    forall r | r in reg.relations && r.ownerType == d.typeId
      ensures RelationNormal(Locks(reg, s.live, false), r, d, Targets(after, r, d.id))
    {
      RelationReadsBack(reg, s, d, after, r);
    }
  }

  lemma TargetsAscend(s: Tables, r: Relation, owner: DocumentId)
    ensures IsAscending(Targets(s, r, owner))
  {
  }

  lemma StateReadsBack(reg: SchemaRegistry, s: Tables, d: Document, after: Tables)
    requires Took(reg, s, d, after)
    ensures KeyOf(d) in after.entities
    ensures StateOf(reg.FindType(d.typeId).value, after, KeyOf(d)) == NormalState(reg, d)
  {
    hide CellsOf, Relinked, Locks;
  }

  lemma TookReadsBack(reg: SchemaRegistry, s: Tables, d: Document, after: Tables)
    requires StoreReady(reg) && Took(reg, s, d, after)
    ensures exists x :: Find(reg, after, KeyOf(d)) == Ok(Some(x)) && NormalForm(reg, s, d, x)
  {
    var dt := reg.FindType(d.typeId).value;
    assert DistinctFields(dt.fields);
    ReadCells(dt, d.fields);
    RelationsReadBack(reg, s, d, after);
    StateReadsBack(reg, s, d, after);
    hide CellsOf, FieldsOf, Relinked, Locks, StoreReady, RelationsOf, RelationsNormal, NormalState, StateOf,
         CreatedAt, MirrorCreatedAt, Micros, Through;
    assert NormalForm(reg, s, d, Find(reg, after, KeyOf(d)).value.value);
  }

  // ----- load, then save ------------------------------------------------------------------------

  lemma LoadedRelations(reg: SchemaRegistry, s: Tables, k: Key, r: Relation)
    requires StoreReady(reg) && r in reg.relations && r.ownerType == k.typeId
    ensures TargetsOf(RelationsOf(reg.relations, s, k), r.ownerAttr) == Targets(s, r, k.id)
  {
    assert OneTableEach(reg.relations);
    RelationsAre(reg.relations, s, k);
  }

  lemma TargetOfLink(s: Tables, r: Relation, owner: DocumentId, t: DocumentId)
    ensures t in Targets(s, r, owner) <==> Link(r.ownerType, r.ownerAttr, owner, t) in s.draftLinks
  {
    forall m | m in s.draftLinks && InTable(m, r) && m.owner == owner && m.target == t
      ensures m == Link(r.ownerType, r.ownerAttr, owner, t)
    {
    }
  }

  /** A locked relation has one target at most, so nothing is dropped when it is saved. */
  lemma AllTargetsKept(locks: set<Relation>, s: Tables, r: Relation, owner: DocumentId)
    requires OneTarget(locks, s.draftLinks)
    ensures Kept(locks, r, Targets(s, r, owner)) == Targets(s, r, owner)
  {
    var ts := Targets(s, r, owner);
    if r in locks && |ts| > 1 {
      TargetsAscend(s, r, owner);
      TargetOfLink(s, r, owner, ts[0]);
      TargetOfLink(s, r, owner, ts[1]);
      assert false;
    }
  }

  /** The links of a loaded document are its links. */
  lemma LoadedLinks(reg: SchemaRegistry, locks: set<Relation>, s: Tables, x: Document, r: Relation, l: Link)
    requires StoreReady(reg) && r in reg.relations && r.ownerType == x.typeId && OneTarget(locks, s.draftLinks)
    requires x.relations == RelationsOf(reg.relations, s, KeyOf(x))
    ensures l in LinksFor(locks, r, x) <==> l in s.draftLinks && InTable(l, r) && l.owner == x.id
  {
    LoadedRelations(reg, s, KeyOf(x), r);
    AllTargetsKept(locks, s, r, x.id);
    TargetOfLink(s, r, x.id, l.target);
    hide Targets, RelationsOf, StoreReady, OneTarget, Kept;
    assert InTable(l, r) && l.owner == x.id ==> l == Link(r.ownerType, r.ownerAttr, x.id, l.target);
  }

  lemma RelinkingLoaded(reg: SchemaRegistry, s: Tables, x: Document)
    requires StoreReady(reg) && Working(reg, s.live, s.entities, s.draftLinks)
    requires x.relations == RelationsOf(reg.relations, s, KeyOf(x))
    ensures Relinked(Locks(reg, s.live, false), reg.relations, x, s.draftLinks) == s.draftLinks
  {
    var locks := Locks(reg, s.live, false);
    assert OneTarget(locks, s.draftLinks);
    hide Working, StoreReady, LinksFor, RelationsOf, Relinked, Locks, OneTarget;
    forall l ensures l in Relinked(locks, reg.relations, x, s.draftLinks) <==> l in s.draftLinks {
      assert OneTableEach(reg.relations) by { OneEach(reg); }
      RelinkedMember(locks, reg.relations, x, s.draftLinks, l);
      if Replaces(reg.relations, x, l) {
        var r :| r in reg.relations && r.ownerType == x.typeId && InTable(l, r);
        LoadedLinks(reg, locks, s, x, r, l);
        if Wants(locks, reg.relations, x, l) {
          WantedBy(reg, locks, x, r, l);
        }
      } else if Wants(locks, reg.relations, x, l) {
        var r :| r in reg.relations && r.ownerType == x.typeId && l in LinksFor(locks, r, x);
        LoadedLinks(reg, locks, s, x, r, l);
      }
    }
  }

  lemma OneEach(reg: SchemaRegistry)
    requires StoreReady(reg)
    ensures OneTableEach(reg.relations)
  {
  }

  lemma LoadedTargetsExist(reg: SchemaRegistry, s: Tables, u: Tables, x: Document, r: Relation)
    requires StoreReady(reg) && Working(reg, s.live, s.entities, s.draftLinks)
    requires x.relations == RelationsOf(reg.relations, s, KeyOf(x)) && r in reg.relations && r.ownerType == x.typeId
    requires forall k | k in s.entities :: k in u.entities
    ensures DraftTargetsExist(Locks(reg, s.live, false), u, r, x)
  {
    var locks := Locks(reg, s.live, false);
    assert OneTarget(locks, s.draftLinks);
    hide Locks, OneTarget, RowsCompatible, RowHolds;
    forall t | t in Kept(locks, r, TargetsOf(x.relations, r.ownerAttr)) ensures Key(r.targetType, t) in s.entities {
      var l := Link(r.ownerType, r.ownerAttr, x.id, t);
      assert l in LinksFor(locks, r, x);
      LoadedLinks(reg, locks, s, x, r, l);
      assert DraftLinkHolds(reg, s.entities, l);
      TargetTypeOf(reg, r, l);
    }
  }

  // ----- stored times ---------------------------------------------------------------------------

  /** Times are kept in whole microseconds. */
  ghost predicate Aligned(s: Tables) {
    && (forall k | k in s.entities :: Micros(s.entities[k].updatedAt) == s.entities[k].updatedAt)
    && (forall k | k in s.mirrors :: Micros(s.mirrors[k].publishedAt) == s.mirrors[k].publishedAt)
  }

  lemma MicrosTwice(t: int)
    ensures Micros(Micros(t)) == Micros(t)
  {
  }

  lemma StepKeepsAligned(reg: SchemaRegistry, mode: LinkFailure, s: Tables, c: Command)
    requires Aligned(s)
    ensures Aligned(Step(reg, mode, s, c))
  {
    hide CellsOf, Relinked, RelinkedPublic, RowAllowed, RowLocks, Locks, DraftTargetsExist, TransactionAfter,
         PublicTargetsExist, PointsAt;
    if c.SaveIt? {
      MicrosTwice(c.d.audit.updatedAt);
      if c.d.state.Published? {
        MicrosTwice(c.d.state.publishedAt);
      }
    }
    hide Micros;
  }

  lemma {:induction false} ReachableIsAligned(reg: SchemaRegistry, mode: LinkFailure, s: Tables, cs: seq<Command>)
    requires Aligned(s)
    ensures Aligned(Run(reg, mode, s, cs))
  {
    if cs != [] {
      hide Step;
      ReachableIsAligned(reg, mode, s, cs[..|cs| - 1]);
      StepKeepsAligned(reg, mode, Run(reg, mode, s, cs[..|cs| - 1]), cs[|cs| - 1]);
    }
  }

  // ----- the theorem -----------------------------------------------------------------------------

  /** A row of a sound store can be read, and its attributes encode as they are stored. */
  lemma RowReads(reg: SchemaRegistry, s: Tables, k: Key) returns (dt: DocumentType)
    requires StoreReady(reg) && Working(reg, s.live, s.entities, s.draftLinks) && k in s.entities
    ensures reg.FindType(k.typeId) == Some(dt)
    ensures FieldsOf(dt.fields, s.entities[k].cells).Ok?
    ensures CellsOf(dt.fields, FieldsOf(dt.fields, s.entities[k].cells).value) == Ok(s.entities[k].cells)
  {
    assert RowHolds(reg, k, s.entities[k].cells);
    dt := reg.FindType(k.typeId).value;
    assert DistinctFields(dt.fields);
    hide StoreReady, CellsOf, FieldsOf, Working, NotNull;
    CellsOfFields(dt, s.entities[k].cells);
  }

  lemma LoadedDocument(reg: SchemaRegistry, s: Tables, k: Key, x: Document) returns (dt: DocumentType)
    requires StoreReady(reg) && Working(reg, s.live, s.entities, s.draftLinks) && Find(reg, s, k) == Ok(Some(x))
    ensures reg.FindType(k.typeId) == Some(dt) && KeyOf(x) == k && k in s.entities
    ensures CellsOf(dt.fields, x.fields) == Ok(s.entities[k].cells)
    ensures x.relations == RelationsOf(reg.relations, s, k) && x.state == StateOf(dt, s, k)
    ensures x.audit.version == s.entities[k].version && OwnerId(x) == s.entities[k].ownerId
    ensures x.audit.updatedAt == s.entities[k].updatedAt
  {
    hide StoreReady, CellsOf, FieldsOf, RelationsOf, StateOf, Working;
    dt := RowReads(reg, s, k);
  }

  lemma OwnRowAllowed(reg: SchemaRegistry, s: Tables, dt: DocumentType, k: Key)
    requires Working(reg, s.live, s.entities, s.draftLinks) && k in s.entities && reg.FindType(k.typeId) == Some(dt)
    ensures RowAllowed(RowLocks(s.live, dt, false), dt, k, s.entities[k].cells, EntityCells(s.entities))
  {
    assert RowHolds(reg, k, s.entities[k].cells);
    hide Readable, Compatible, OneTarget, NotNull, DraftLinkHolds, RowLocks, Locks;
    var rows := EntityCells(s.entities);
    assert k in rows && rows[k] == s.entities[k].cells;
  }

  /** The same for its mirror row, on account of the mirror's own indexes. */
  lemma OwnMirrorAllowed(reg: SchemaRegistry, s: Tables, dt: DocumentType, k: Key)
    requires Working(reg, s.live, s.entities, s.draftLinks) && Outward(reg, s) && Agreement(reg, s)
    requires k in s.entities && k in s.mirrors && reg.FindType(k.typeId) == Some(dt)
    ensures RowAllowed(RowLocks(s.live, dt, true), dt, k, s.entities[k].cells, MirrorCells(s.mirrors))
  {
    assert RowHolds(reg, k, s.entities[k].cells);
    hide Readable, Compatible, OneTarget, NotNull, DraftLinkHolds, RowLocks, Locks, HasMirror, Followed;
    var rows := MirrorCells(s.mirrors);
    assert k in rows && rows[k] == s.entities[k].cells;
  }

  lemma LoadedRow(reg: SchemaRegistry, s: Tables, k: Key, x: Document, cells: Cells)
    requires Aligned(s) && KeyOf(x) == k && k in s.entities && cells == s.entities[k].cells
    requires x.audit.version == s.entities[k].version && OwnerId(x) == s.entities[k].ownerId
    requires x.audit.updatedAt == s.entities[k].updatedAt
    ensures EntityRowOf(x, cells, CreatedAt(s, x)) == s.entities[k].(published := x.state.Published?)
  {
    hide Micros, OwnerId;
  }

  lemma LoadedState(reg: SchemaRegistry, s: Tables, k: Key, dt: DocumentType)
    requires Agreement(reg, s) && reg.FindType(k.typeId) == Some(dt) && k in s.entities
    ensures StateOf(dt, s, k).Published? <==> HasMirror(reg, k.typeId) && s.entities[k].published
    ensures HasMirror(reg, k.typeId) ==> (StateOf(dt, s, k).Published? <==> k in s.mirrors)
  {
  }

  lemma LoadedMirror(reg: SchemaRegistry, s: Tables, u: Tables, k: Key, dt: DocumentType, x: Document)
    requires Agreement(reg, s) && Aligned(s) && k in s.entities && KeyOf(x) == k && u.mirrors == s.mirrors
    requires x.state == StateOf(dt, s, k) && x.state.Published?
    requires OwnerId(x) == s.entities[k].ownerId && x.audit.updatedAt == s.entities[k].updatedAt
    ensures MirrorRowOf(x, s.entities[k].cells, MirrorCreatedAt(u, x)) == s.mirrors[k]
  {
    hide Micros, OwnerId, HasMirror;
  }

  ghost predicate Acceptable(reg: SchemaRegistry, s: Tables, dt: DocumentType, d: Document, cells: Cells) {
    && reg.FindType(d.typeId) == Some(dt) && CellsOf(dt.fields, d.fields) == Ok(cells)
    && RowAllowed(RowLocks(s.live, dt, false), dt, KeyOf(d), cells, EntityCells(s.entities))
    && forall r | r in reg.relations && r.ownerType == d.typeId ::
         DraftTargetsExist(Locks(reg, s.live, false), WithEntity(s, d, cells), r, d)
  }

  /** What publishing asks for in addition: the mirror's own indexes. */
  ghost predicate MirrorAccepts(s: Tables, dt: DocumentType, d: Document, cells: Cells) {
    RowAllowed(RowLocks(s.live, dt, true), dt, KeyOf(d), cells, MirrorCells(s.mirrors))
  }

  lemma SaveIsItsPublicPart(reg: SchemaRegistry, mode: LinkFailure, s: Tables, dt: DocumentType, d: Document,
                            cells: Cells)
    requires Acceptable(reg, s, dt, d, cells)
    ensures Save(reg, mode, s, d) == AfterPublicPart(reg, mode, s, AfterWorkingPart(reg, s, d, cells), dt, d, cells)
  {
    hide CellsOf, Relinked, RowAllowed, RowLocks, Locks, DraftTargetsExist, AfterPublicPart, EntityRowOf, CreatedAt;
  }

  /** The mirrors after a save. */
  function MirrorsAfter(reg: SchemaRegistry, s: Tables, d: Document, cells: Cells): map<Key, MirrorRow> {
    if Publishes(reg, d) then s.mirrors[KeyOf(d) := MirrorRowOf(d, cells, MirrorCreatedAt(s, d))]
    else if HasMirror(reg, d.typeId) then s.mirrors - {KeyOf(d)}
    else s.mirrors
  }

  lemma PublicPart(reg: SchemaRegistry, s: Tables, u: Tables, dt: DocumentType, d: Document, cells: Cells)
    requires reg.FindType(d.typeId) == Some(dt) && u.mirrors == s.mirrors
    requires Publishes(reg, d) ==> MirrorAccepts(s, dt, d, cells)
    ensures var saved := AfterPublicPart(reg, Skip, s, u, dt, d, cells);
            && saved.result.Ok? && saved.tables.entities == u.entities && saved.tables.draftLinks == u.draftLinks
            && saved.tables.mirrors == MirrorsAfter(reg, s, d, cells)
  {
    hide RowAllowed, RowLocks, RelinkedPublic, TransactionAfter, LeansOnMirror, MirrorRowOf;
    if d.state.Published? {
      NeverAbortedWhenSkipping(reg, WithMirror(u, d, cells), reg.relations, d);
    }
  }

  lemma RefusedByMirror(reg: SchemaRegistry, mode: LinkFailure, s: Tables, dt: DocumentType, d: Document, cells: Cells)
    requires Acceptable(reg, s, dt, d, cells) && Publishes(reg, d) && !MirrorAccepts(s, dt, d, cells)
    ensures Save(reg, mode, s, d) == Saved(s, Err(StorageError))
  {
    hide CellsOf, Relinked, RowAllowed, RowLocks, Locks, DraftTargetsExist, EntityRowOf, CreatedAt, Save, Acceptable;
    SaveIsItsPublicPart(reg, mode, s, dt, d, cells);
    AcceptableType(reg, s, dt, d, cells);
  }

  /** A save whose working row and links are accepted is refused only by the mirror's own
      indexes. In a sound store publishing therefore adds no way to be refused as long as the
      mirror has no column locked that the working table has not. */
  lemma AcceptedSave(reg: SchemaRegistry, s: Tables, dt: DocumentType, d: Document, cells: Cells)
    requires StoreReady(reg) && Sound(reg, s) && Acceptable(reg, s, dt, d, cells)
    ensures Save(reg, Skip, s, d).result.Ok? <==> (Publishes(reg, d) ==> MirrorAccepts(s, dt, d, cells))
    ensures RowLocks(s.live, dt, true) <= RowLocks(s.live, dt, false) ==> Save(reg, Skip, s, d).result.Ok?
    ensures Save(reg, Skip, s, d).result.Ok? ==>
              var after := Save(reg, Skip, s, d).tables;
              && after.entities == s.entities[KeyOf(d) := EntityRowOf(d, cells, CreatedAt(s, d))]
              && after.draftLinks == Relinked(Locks(reg, s.live, false), reg.relations, d, s.draftLinks)
              && after.mirrors == MirrorsAfter(reg, s, d, cells)
  {
    SoundIsWorking(reg, s);
    hide Sound, Working, StoreReady, CellsOf, Relinked, RowAllowed, RowLocks, Locks, DraftTargetsExist, EntityRowOf,
         CreatedAt, Midway, AfterPublicPart, Save, MirrorsAfter, Publishes;
    SaveReachesMidway(reg, s, dt, d, cells);
    var u := AfterWorkingPart(reg, s, d, cells);
    if RowLocks(s.live, dt, true) <= RowLocks(s.live, dt, false) {
      MirrorTakesIt(reg, s, u, dt, d, cells);
    }
    if Publishes(reg, d) && !MirrorAccepts(s, dt, d, cells) {
      RefusedByMirror(reg, Skip, s, dt, d, cells);
    } else {
      SaveIsItsPublicPart(reg, Skip, s, dt, d, cells);
      PublicPart(reg, s, u, dt, d, cells);
    }
  }

  lemma LoadedIsAcceptable(reg: SchemaRegistry, s: Tables, k: Key, x: Document) returns (dt: DocumentType)
    requires StoreReady(reg) && Working(reg, s.live, s.entities, s.draftLinks) && Find(reg, s, k) == Ok(Some(x))
    ensures k in s.entities && KeyOf(x) == k && x.state == StateOf(dt, s, k)
    ensures Acceptable(reg, s, dt, x, s.entities[k].cells)
    ensures Relinked(Locks(reg, s.live, false), reg.relations, x, s.draftLinks) == s.draftLinks
    ensures x.audit.version == s.entities[k].version && OwnerId(x) == s.entities[k].ownerId
    ensures x.audit.updatedAt == s.entities[k].updatedAt
  {
    hide Working, StoreReady, CellsOf, RelationsOf, StateOf, Relinked, RowAllowed, RowLocks, Locks, DraftTargetsExist,
         EntityRowOf, OwnerId, CreatedAt, Find;
    dt := LoadedDocument(reg, s, k, x);
    OwnRowAllowed(reg, s, dt, k);
    RelinkingLoaded(reg, s, x);
    var s1 := WithEntity(s, x, s.entities[k].cells);
    forall r | r in reg.relations && r.ownerType == x.typeId
      ensures DraftTargetsExist(Locks(reg, s.live, false), s1, r, x)
    {
      LoadedTargetsExist(reg, s, s1, x, r);
    }
  }

  lemma MirrorsOfLoaded(reg: SchemaRegistry, s: Tables, k: Key, dt: DocumentType, x: Document)
    requires Agreement(reg, s) && Aligned(s) && k in s.entities && KeyOf(x) == k
    requires reg.FindType(k.typeId) == Some(dt) && x.state == StateOf(dt, s, k)
    requires OwnerId(x) == s.entities[k].ownerId && x.audit.updatedAt == s.entities[k].updatedAt
    ensures MirrorsAfter(reg, s, x, s.entities[k].cells) == s.mirrors
    ensures x.state.Published? == s.entities[k].published <==> HasMirror(reg, k.typeId) || !s.entities[k].published
  {
    LoadedState(reg, s, k, dt);
    if x.state.Published? {
      LoadedMirror(reg, s, s, k, dt, x);
    }
    hide StateOf, Agreement, Aligned, OwnerId, HasMirror, MirrorRowOf, MirrorCreatedAt;
  }

  lemma LoadThenSaveSkipping(reg: SchemaRegistry, s: Tables, k: Key, x: Document)
    requires StoreReady(reg) && Sound(reg, s) && Aligned(s) && Find(reg, s, k) == Ok(Some(x))
    ensures Save(reg, Skip, s, x).result.Ok?
    ensures Save(reg, Skip, s, x).tables.mirrors == s.mirrors
    ensures Save(reg, Skip, s, x).tables.draftLinks == s.draftLinks
    ensures k in s.entities
    ensures Save(reg, Skip, s, x).tables.entities == s.entities <==>
            HasMirror(reg, k.typeId) || !s.entities[k].published
  {
    SoundParts(reg, s);
    hide Sound, Working, Outward, StoreReady, StateOf, Relinked, EntityRowOf, Agreement, Aligned, OwnerId, CreatedAt,
         Find, Save, HasMirror, MirrorsAfter, Acceptable, RowAllowed, RowLocks, Locks;
    var dt := LoadedIsAcceptable(reg, s, k, x);
    assert Publishes(reg, x) ==> MirrorAccepts(s, dt, x, s.entities[k].cells) by {
      AcceptableType(reg, s, dt, x, s.entities[k].cells);
      LoadedState(reg, s, k, dt);
      if k in s.mirrors {
        OwnMirrorAllowed(reg, s, dt, k);
      }
    }
    AcceptedSave(reg, s, dt, x, s.entities[k].cells);
    AcceptableType(reg, s, dt, x, s.entities[k].cells);
    LoadedRow(reg, s, k, x, s.entities[k].cells);
    MirrorsOfLoaded(reg, s, k, dt, x);
    SameRow(s.entities, k, x.state.Published?);
  }

  /** The failure mode decides about published links and about success, nothing else. */
  lemma ModesAgree(reg: SchemaRegistry, s: Tables, d: Document)
    ensures var skip, abort := Save(reg, Skip, s, d).tables, Save(reg, Abort, s, d).tables;
            || (abort.entities == skip.entities && abort.mirrors == skip.mirrors && abort.draftLinks == skip.draftLinks)
            || (HasMirror(reg, d.typeId) && abort == s)
  {
    hide CellsOf, Relinked, RelinkedPublic, RowAllowed, RowLocks, Locks, DraftTargetsExist, TransactionAfter,
         EntityRowOf, MirrorRowOf, LeansOnMirror;
    var dt := reg.FindType(d.typeId);
    if dt.Some? && CellsOf(dt.value.fields, d.fields).Ok? && d.state.Published? {
      var u := AfterWorkingPart(reg, s, d, CellsOf(dt.value.fields, d.fields).value);
      NeverAbortedWhenSkipping(reg, WithMirror(u, d, CellsOf(dt.value.fields, d.fields).value), reg.relations, d);
    }
  }

  /** Saving what was loaded leaves mirrors and working links as they are. It leaves the rows
      as they are too, except that a row of a type without mirror forgets that it was marked
      published. Where a failed statement is skipped it always succeeds. */
  lemma LoadThenSave(reg: SchemaRegistry, mode: LinkFailure, s: Tables, k: Key, x: Document)
    requires StoreReady(reg) && Sound(reg, s) && Aligned(s) && Find(reg, s, k) == Ok(Some(x))
    ensures mode.Skip? ==> Save(reg, mode, s, x).result.Ok?
    ensures Save(reg, mode, s, x).tables.mirrors == s.mirrors
    ensures Save(reg, mode, s, x).tables.draftLinks == s.draftLinks
    ensures k in s.entities
    ensures Save(reg, mode, s, x).tables.entities == s.entities <==>
            HasMirror(reg, k.typeId) || !s.entities[k].published
  {
    hide Sound, StoreReady, Aligned, Find, Save, HasMirror;
    LoadThenSaveSkipping(reg, s, k, x);
    ModesAgree(reg, s, x);
    FoundByKey(reg, s, k, x);
  }

  /** So it is for every document of every store that runs of saves and deletes reach. */
  lemma LoadThenSaveReached(reg: SchemaRegistry, mode: LinkFailure, live: set<Guard>, cs: seq<Command>, k: Key,
                            x: Document)
    requires StoreReady(reg) && Find(reg, Run(reg, mode, Empty(live), cs), k) == Ok(Some(x))
    ensures var s := Run(reg, mode, Empty(live), cs);
            var saved := Save(reg, mode, s, x);
            && (mode.Skip? ==> saved.result.Ok?)
            && saved.tables.mirrors == s.mirrors && saved.tables.draftLinks == s.draftLinks && k in s.entities
            && (saved.tables.entities == s.entities <==> HasMirror(reg, k.typeId) || !s.entities[k].published)
  {
    var s := Run(reg, mode, Empty(live), cs);
    EmptyIsSound(reg, live);
    hide StoreReady, Sound, Find, Save, Run, HasMirror;
    ReachableIsSound(reg, mode, Empty(live), cs);
    ReachableIsAligned(reg, mode, Empty(live), cs);
    hide Aligned;
    LoadThenSave(reg, mode, s, k, x);
  }

  lemma FoundByKey(reg: SchemaRegistry, s: Tables, k: Key, x: Document)
    requires Find(reg, s, k) == Ok(Some(x))
    ensures KeyOf(x) == k
  {
    hide FieldsOf, RelationsOf, StateOf;
  }

  lemma AcceptableType(reg: SchemaRegistry, s: Tables, dt: DocumentType, d: Document, cells: Cells)
    requires Acceptable(reg, s, dt, d, cells)
    ensures reg.FindType(d.typeId) == Some(dt)
  {
  }

  lemma SameRow(rows: map<Key, EntityRow>, k: Key, published: bool)
    requires k in rows
    ensures rows[k := rows[k].(published := published)] == rows <==> published == rows[k].published
  {
    if rows[k := rows[k].(published := published)] == rows {
      assert rows[k := rows[k].(published := published)][k].published == published;
    }
  }

  /** A revision does not outlive its publication: a document saved as a draft comes back
      with none, so its next publication is the first again. */
  lemma RevisionsRestart(reg: SchemaRegistry, mode: LinkFailure, s: Tables, d: Document, user: Option<UserId>, now: int)
    requires StoreReady(reg) && d.state.Draft? && Save(reg, mode, s, d).result.Ok?
    ensures exists x :: Find(reg, Save(reg, mode, s, d).tables, KeyOf(d)) == Ok(Some(x))
                        && LastRevision(AfterPublish(x, user, now)) == 1
  {
    hide Save, StoreReady, Find, FieldsNormal, RelationsNormal, CreatedAt, HasMirror, Touched;
    ReadAfterWrite(reg, mode, s, d);
    var x :| Find(reg, Save(reg, mode, s, d).tables, KeyOf(d)) == Ok(Some(x)) && NormalForm(reg, s, d, x);
    FirstRevision(x, user, now);
  }

  lemma FirstRevision(x: Document, user: Option<UserId>, now: int)
    requires x.state == Draft(None)
    ensures LastRevision(AfterPublish(x, user, now)) == 1
  {
  }

  // ----- what a save or a delete does to other documents ---------------------------------------------

  lemma {:induction false} SameRelations(rs: seq<Relation>, s: Tables, u: Tables, k: Key)
    requires forall r | r in rs && r.ownerType == k.typeId :: Targets(s, r, k.id) == Targets(u, r, k.id)
    ensures RelationsOf(rs, s, k) == RelationsOf(rs, u, k)
  {
    hide Targets;
    if rs != [] {
      assert rs == rs[..|rs| - 1] + [rs[|rs| - 1]];
      SameRelations(rs[..|rs| - 1], s, u, k);
    }
  }

  lemma OtherTargets(reg: SchemaRegistry, s: Tables, after: Tables, d: Document, o: Key, r: Relation)
    requires StoreReady(reg) && r in reg.relations && r.ownerType == o.typeId && o != KeyOf(d)
    requires after.draftLinks == Relinked(Locks(reg, s.live, false), reg.relations, d, s.draftLinks)
    ensures Targets(after, r, o.id) == Targets(s, r, o.id)
  {
    hide StoreReady, Relinked, Locks;
    forall l | InTable(l, r) && l.owner == o.id ensures l in after.draftLinks <==> l in s.draftLinks {
      TargetTypeOf(reg, r, l);
      OwnLinksReplaced(reg, Locks(reg, s.live, false), d, s.draftLinks, l);
    }
    assert (set l | l in after.draftLinks && InTable(l, r) && l.owner == o.id :: l.target)
           == (set l | l in s.draftLinks && InTable(l, r) && l.owner == o.id :: l.target);
  }

  lemma OtherMirrors(reg: SchemaRegistry, mode: LinkFailure, s: Tables, d: Document, o: Key)
    requires o != KeyOf(d)
    ensures var after := Save(reg, mode, s, d).tables;
            && (o in after.mirrors <==> o in s.mirrors)
            && (o in s.mirrors ==> after.mirrors[o] == s.mirrors[o])
  {
    hide CellsOf, Relinked, RelinkedPublic, RowAllowed, RowLocks, Locks, DraftTargetsExist, TransactionAfter,
         EntityRowOf, MirrorRowOf, LeansOnMirror;
  }

  lemma FailedSaveChangesNothing(reg: SchemaRegistry, mode: LinkFailure, s: Tables, d: Document)
    ensures Save(reg, mode, s, d).result.Err? ==> Save(reg, mode, s, d).tables == s
  {
    hide CellsOf, Relinked, RelinkedPublic, RowAllowed, RowLocks, Locks, DraftTargetsExist, TransactionAfter,
         EntityRowOf, MirrorRowOf, LeansOnMirror;
  }

  /** Saving a document changes how no other document reads. */
  lemma SaveFrame(reg: SchemaRegistry, mode: LinkFailure, s: Tables, d: Document, o: Key)
    requires StoreReady(reg) && o != KeyOf(d)
    ensures Find(reg, Save(reg, mode, s, d).tables, o) == Find(reg, s, o)
  {
    var after := Save(reg, mode, s, d).tables;
    OtherMirrors(reg, mode, s, d, o);
    FailedSaveChangesNothing(reg, mode, s, d);
    hide Save, StoreReady, CellsOf, FieldsOf, RelationsOf, Relinked, Locks, EntityRowOf, MirrorRowOf;
    if Save(reg, mode, s, d).result.Ok? {
      SaveTakes(reg, mode, s, d);
      if Took(reg, s, d, after) {
        forall r | r in reg.relations && r.ownerType == o.typeId
          ensures Targets(s, r, o.id) == Targets(after, r, o.id)
        {
          OtherTargets(reg, s, after, d, o, r);
        }
        SameRelations(reg.relations, s, after, o);
      }
    }
  }

  /** The targets of another document lose the deleted one, where they could hold it. */
  lemma TargetsWithout(reg: SchemaRegistry, s: Tables, k: Key, o: Key, r: Relation, t: DocumentId)
    requires StoreReady(reg) && r in reg.relations && r.ownerType == o.typeId && o != k
    ensures t in Targets(WithoutEntity(reg, s, k), r, o.id) <==> t in Targets(s, r, o.id) && Key(r.targetType, t) != k
  {
    TargetOfLink(s, r, o.id, t);
    TargetOfLink(WithoutEntity(reg, s, k), r, o.id, t);
    TargetTypeOf(reg, r, Link(r.ownerType, r.ownerAttr, o.id, t));
    hide Targets, StoreReady, TargetType;
  }

  ghost predicate ListWithout(r: Relation, k: Key, before: seq<DocumentId>, after: seq<DocumentId>) {
    IsAscending(after) && forall t :: t in after <==> t in before && Key(r.targetType, t) != k
  }

  ghost predicate RelationsWithout(reg: SchemaRegistry, k: Key, d: Document, after: Relations) {
    && (forall a :: a in after <==> a in d.relations)
    && forall r | r in reg.relations && r.ownerType == d.typeId ::
         && r.ownerAttr in after && r.ownerAttr in d.relations
         && ListWithout(r, k, d.relations[r.ownerAttr], after[r.ownerAttr])
  }

  lemma TargetListWithout(reg: SchemaRegistry, s: Tables, k: Key, o: Key, r: Relation)
    requires StoreReady(reg) && r in reg.relations && r.ownerType == o.typeId && o != k
    ensures ListWithout(r, k, Targets(s, r, o.id), Targets(WithoutEntity(reg, s, k), r, o.id))
  {
    hide StoreReady, Targets, WithoutEntity, IsAscending;
    TargetsAscend(WithoutEntity(reg, s, k), r, o.id);
    forall t
      ensures t in Targets(WithoutEntity(reg, s, k), r, o.id) <==> t in Targets(s, r, o.id) && Key(r.targetType, t) != k
    {
      TargetsWithout(reg, s, k, o, r, t);
    }
  }

  lemma RelationsOfOthers(reg: SchemaRegistry, s: Tables, k: Key, o: Key, before: Document)
    requires StoreReady(reg) && o != k && before.typeId == o.typeId
             && before.relations == RelationsOf(reg.relations, s, o)
    ensures RelationsWithout(reg, k, before, RelationsOf(reg.relations, WithoutEntity(reg, s, k), o))
  {
    var u := WithoutEntity(reg, s, k);
    OneEach(reg);
    hide OneTableEach, RelationsOf, Targets, StoreReady, WithoutEntity, ListWithout;
    SameAttributes(reg, s, u, o);
    forall r | r in reg.relations && r.ownerType == o.typeId
      ensures r.ownerAttr in RelationsOf(reg.relations, s, o) && r.ownerAttr in RelationsOf(reg.relations, u, o)
      ensures ListWithout(r, k, RelationsOf(reg.relations, s, o)[r.ownerAttr],
                          RelationsOf(reg.relations, u, o)[r.ownerAttr])
    {
      RelationsAre(reg.relations, s, o);
      RelationsAre(reg.relations, u, o);
      TargetListWithout(reg, s, k, o, r);
    }
  }

  lemma SameAttributes(reg: SchemaRegistry, s: Tables, u: Tables, o: Key)
    requires OneTableEach(reg.relations)
    ensures forall a :: a in RelationsOf(reg.relations, u, o) <==> a in RelationsOf(reg.relations, s, o)
  {
    hide OneTableEach, RelationsOf, Targets;
    RelationsAre(reg.relations, s, o);
    RelationsAre(reg.relations, u, o);
  }

  /** Deleting a document changes how another one reads in nothing but the lists the deleted
      one was in. */
  lemma DeleteFrame(reg: SchemaRegistry, s: Tables, k: Key, o: Key)
    requires StoreReady(reg) && o != k
    ensures var before, after := Find(reg, s, o), Find(reg, WithoutEntity(reg, s, k), o);
            if before.Ok? && before.value.Some? then
              && after.Ok? && after.value.Some?
              && after.value.value == before.value.value.(relations := after.value.value.relations)
              && RelationsWithout(reg, k, before.value.value, after.value.value.relations)
            else after == before
  {
    hide FieldsOf, RelationsOf, Targets, StoreReady, PointsAt, RelationsWithout;
    var before := Find(reg, s, o);
    if before.Ok? && before.value.Some? {
      RelationsOfOthers(reg, s, k, o, before.value.value);
    }
  }

  // ----- a publication that is acknowledged and lost -----------------------------------------------

  /** Where a failed statement aborts its transaction, publishing has these outcomes. It is
      refused if the mirror's own indexes are against it. Otherwise, if the published links
      of every relation can be inserted, it takes effect. If those of the last relation, and
      only those, cannot, it reports success and stores nothing. If any other cannot, it is
      refused. */
  lemma AbortingPublication(reg: SchemaRegistry, s: Tables, dt: DocumentType, d: Document, cells: Cells)
    requires Acceptable(reg, s, dt, d, cells) && Publishes(reg, d)
    ensures var v, saved := WithMirror(AfterWorkingPart(reg, s, d, cells), d, cells), Save(reg, Abort, s, d);
            if !MirrorAccepts(s, dt, d, cells) then
              saved == Saved(s, Err(StorageError))
            else if forall j | 0 <= j < |reg.relations| :: !Fails(reg, v, reg.relations[j], d) then
              saved.result.Ok? && Took(reg, s, d, saved.tables)
            else if exists i :: FailsFirstAndLast(reg, v, reg.relations, d, i) then
              saved == Saved(s, Ok(()))
            else
              saved == Saved(s, Err(StorageError))
  {
    hide CellsOf, Relinked, RelinkedPublic, RowAllowed, RowLocks, Locks, DraftTargetsExist, EntityRowOf, CreatedAt,
         MirrorRowOf, MirrorCreatedAt, Save, Fails, FailsFirstAndLast, TransactionAfter;
    var u := AfterWorkingPart(reg, s, d, cells);
    if !MirrorAccepts(s, dt, d, cells) {
      RefusedByMirror(reg, Abort, s, dt, d, cells);
    } else {
      SaveIsItsPublicPart(reg, Abort, s, dt, d, cells);
      AbortedExactlyWhen(reg, WithMirror(u, d, cells), reg.relations, d);
      SameMirrorRow(reg, s, u, d, cells);
    }
  }

  lemma SameMirrorRow(reg: SchemaRegistry, s: Tables, u: Tables, d: Document, cells: Cells)
    requires d.state.Published? && u.mirrors == s.mirrors
    ensures WithMirror(u, d, cells).mirrors == s.mirrors[KeyOf(d) := MirrorRowOf(d, cells, MirrorCreatedAt(s, d))]
  {
  }
}
