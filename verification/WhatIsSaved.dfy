/** What a successful save leaves in the tables and what is read back from them, told from
    the document that was saved. */
module WhatIsSaved {
  import opened Wrappers
  import opened DomainSchema
  import opened Content
  import opened Codec
  import opened Instance
  import opened DocumentStore
  import opened StoreInvariants
  import opened ReadBack
  import Enrichment

  // ----- rows -------------------------------------------------------------------------------

  /** A document's row belongs to who created it. */
  predicate OwnedBy(d: Document, owner: UserId) {
    match d.audit.createdBy
    case Some(user) => owner == user
    case None => owner == "system"
  }

  /** A row that was there keeps its creation time. */
  predicate CreatedThen(d: Document, before: Option<int>, createdAt: int) {
    match before
    case Some(time) => createdAt == time
    case None => CutsTo(d.audit.createdAt, createdAt)
  }

  function RowTime(s: Tables, k: Key): Option<int> {
    if k in s.entities then Some(s.entities[k].createdAt) else None
  }

  function MirrorTime(s: Tables, k: Key): Option<int> {
    if k in s.mirrors then Some(s.mirrors[k].createdAt) else None
  }

  ghost predicate RowSaved(s: Tables, d: Document, row: EntityRow) {
    && row.version == d.audit.version && OwnedBy(d, row.ownerId) && (row.published <==> d.state.Published?)
    && CreatedThen(d, RowTime(s, KeyOf(d)), row.createdAt) && CutsTo(d.audit.updatedAt, row.updatedAt)
  }

  ghost predicate MirrorSaved(s: Tables, d: Document, row: MirrorRow)
    requires d.state.Published?
  {
    && row.revision == d.state.revision && OwnedBy(d, row.ownerId)
    && CreatedThen(d, MirrorTime(s, KeyOf(d)), row.createdAt) && CutsTo(d.audit.updatedAt, row.updatedAt)
    && CutsTo(d.state.publishedAt, row.publishedAt)
    && (d.state.publishedBy.Some? ==> row.publishedBy == d.state.publishedBy.value)
    && (d.state.publishedBy.None? ==> OwnedBy(d, row.publishedBy))
  }

  /** The attributes of the schema, each as its column keeps it; what the document does not
      give is null. */
  ghost predicate ShowsFields(fs: seq<FieldDefinition>, given: Fields, shown: Fields) {
    && (forall a :: a in shown <==> exists f | f in fs :: f.id == a)
    && forall f | f in fs && TypeCorrect(ValueOf(given, f.id), f.fieldType) ::
         Keeps(f.fieldType, ValueOf(given, f.id), shown[f.id])
  }

  // ----- links --------------------------------------------------------------------------------

  /** A unique index on the owner is live in the relation's link table. */
  predicate OwnerLocked(reg: SchemaRegistry, live: set<Guard>, r: Relation, published: bool) {
    reg.FindType(r.ownerType).Some?
    && Guard(LinkTable(reg.FindType(r.ownerType).value, r, published), "owner_id") in live
  }

  /** The targets that a link table takes of a list: all, or under a lock the first. */
  predicate TakesTarget(locked: bool, targets: seq<DocumentId>, t: DocumentId) {
    if locked then targets != [] && t == targets[0] else t in targets
  }

  predicate Owned(r: Relation, d: Document, l: Link) {
    r.ownerType == d.typeId && l.ownerType == r.ownerType && l.attr == r.ownerAttr && l.owner == d.id
  }

  /** Of the relations that the document owns the links are those of its lists; all other
      links stay. */
  ghost predicate LinksSaved(reg: SchemaRegistry, s: Tables, d: Document, after: Tables) {
    && (forall r, l | r in reg.relations && Owned(r, d, l) ::
          l in after.draftLinks <==>
          TakesTarget(OwnerLocked(reg, s.live, r, false), TargetsOf(d.relations, r.ownerAttr), l.target))
    && forall l | forall r | r in reg.relations :: !Owned(r, d, l) :: l in after.draftLinks <==> l in s.draftLinks
  }

  /** The public may see the target: its type is never published, or it is. */
  predicate IsPublic(reg: SchemaRegistry, s: Tables, r: Relation, t: DocumentId) {
    var dt := reg.FindType(r.targetType);
    if dt.Some? && dt.value.draftAndPublish then Key(r.targetType, t) in s.mirrors
    else Key(r.targetType, t) in s.entities
  }

  /** All the targets that the published link table would take may be seen. */
  ghost predicate AllPublic(reg: SchemaRegistry, live: set<Guard>, after: Tables, r: Relation, d: Document) {
    forall t | TakesTarget(OwnerLocked(reg, live, r, true), TargetsOf(d.relations, r.ownerAttr), t) ::
      IsPublic(reg, after, r, t)
  }

  /** Publishing replaces the published links of each relation by those of its list if the
      public may see them all, and by none otherwise; all other published links stay. */
  ghost predicate LinksPublished(reg: SchemaRegistry, s: Tables, d: Document, after: Tables) {
    && (forall r, l | r in reg.relations && Owned(r, d, l) ::
          l in after.publishedLinks <==>
          && TakesTarget(OwnerLocked(reg, s.live, r, true), TargetsOf(d.relations, r.ownerAttr), l.target)
          && AllPublic(reg, s.live, after, r, d))
    && forall l | forall r | r in reg.relations :: !Owned(r, d, l) ::
         l in after.publishedLinks <==> l in s.publishedLinks
  }

  /** A draft loses its mirror row, its published links and those to it. */
  ghost predicate Withdrawn(reg: SchemaRegistry, s: Tables, d: Document, after: Tables) {
    && after.mirrors == s.mirrors - {KeyOf(d)}
    && forall l :: l in after.publishedLinks <==>
         && l in s.publishedLinks && Key(l.ownerType, l.owner) != KeyOf(d)
         && forall r | r in reg.relations && l.ownerType == r.ownerType && l.attr == r.ownerAttr ::
              Key(r.targetType, l.target) != KeyOf(d)
  }

  // ----- the whole effect -----------------------------------------------------------------------

  /** The rows and links after a save that takes effect. */
  ghost predicate SavedAs(reg: SchemaRegistry, s: Tables, d: Document, after: Tables) {
    var k := KeyOf(d);
    && after.live == s.live
    && k in after.entities && after.entities - {k} == s.entities - {k} && RowSaved(s, d, after.entities[k])
    && LinksSaved(reg, s, d, after)
    && if !HasMirror(reg, d.typeId) then after.mirrors == s.mirrors && after.publishedLinks == s.publishedLinks
       else if d.state.Draft? then Withdrawn(reg, s, d, after)
       else
         && k in after.mirrors && after.mirrors - {k} == s.mirrors - {k} && MirrorSaved(s, d, after.mirrors[k])
         && after.mirrors[k].cells == after.entities[k].cells
         && LinksPublished(reg, s, d, after)
  }

  lemma RowSavedBy(s: Tables, d: Document, cells: Cells)
    ensures RowSaved(s, d, EntityRowOf(d, cells, CreatedAt(s, d)))
  {
    MicrosCut(d.audit.createdAt, Micros(d.audit.createdAt));
    MicrosCut(d.audit.updatedAt, Micros(d.audit.updatedAt));
    hide CutsTo, Micros;
  }

  lemma MirrorSavedBy(s: Tables, d: Document, cells: Cells)
    requires d.state.Published?
    ensures MirrorSaved(s, d, MirrorRowOf(d, cells, MirrorCreatedAt(s, d)))
  {
    MicrosCut(d.audit.createdAt, Micros(d.audit.createdAt));
    MicrosCut(d.audit.updatedAt, Micros(d.audit.updatedAt));
    MicrosCut(d.state.publishedAt, Micros(d.state.publishedAt));
    hide CutsTo, Micros;
  }

  lemma LocksAre(reg: SchemaRegistry, live: set<Guard>, published: bool, r: Relation)
    requires r in reg.relations
    ensures r in Locks(reg, live, published) <==> OwnerLocked(reg, live, r, published)
  {
    hide LinkTable;
    if r in Locks(reg, live, published) {
      var table := LinkTable(reg.FindType(r.ownerType).value, r, published);
      var g :| g in live && g.table == table && g.column == "owner_id";
      assert g == Guard(table, "owner_id");
    }
    if OwnerLocked(reg, live, r, published) {
      var g := Guard(LinkTable(reg.FindType(r.ownerType).value, r, published), "owner_id");
      assert g.column in Locked(live, g.table);
    }
  }

  lemma KeptAre(locks: set<Relation>, r: Relation, targets: seq<DocumentId>, t: DocumentId)
    ensures t in Kept(locks, r, targets) <==> TakesTarget(r in locks, targets, t)
  {
  }

  lemma LinksForAre(locks: set<Relation>, r: Relation, d: Document, l: Link)
    ensures l in LinksFor(locks, r, d) <==>
            InTable(l, r) && l.owner == d.id && TakesTarget(r in locks, TargetsOf(d.relations, r.ownerAttr), l.target)
  {
    KeptAre(locks, r, TargetsOf(d.relations, r.ownerAttr), l.target);
    hide Kept, TakesTarget;
  }

  lemma WantsAre(reg: SchemaRegistry, locks: set<Relation>, d: Document, r: Relation, l: Link)
    requires OneTableEach(reg.relations) && r in reg.relations && Owned(r, d, l)
    ensures Wants(locks, reg.relations, d, l) <==>
            TakesTarget(r in locks, TargetsOf(d.relations, r.ownerAttr), l.target)
    ensures Replaces(reg.relations, d, l)
  {
    hide TakesTarget, LinksFor;
    LinksForAre(locks, r, d, l);
    if x :| x in reg.relations && x.ownerType == d.typeId && l in LinksFor(locks, x, d) {
      LinksForAre(locks, x, d, l);
      assert x == r;
    }
  }

  lemma NotOwned(reg: SchemaRegistry, locks: set<Relation>, d: Document, l: Link)
    requires forall r | r in reg.relations :: !Owned(r, d, l)
    ensures !Wants(locks, reg.relations, d, l) && !Replaces(reg.relations, d, l)
  {
    hide TakesTarget, LinksFor;
    forall x | x in reg.relations && x.ownerType == d.typeId ensures l !in LinksFor(locks, x, d) {
      LinksForAre(locks, x, d, l);
    }
  }

  lemma LinksSavedBy(reg: SchemaRegistry, s: Tables, d: Document, after: Tables)
    requires OneTableEach(reg.relations)
    requires after.draftLinks == Relinked(Locks(reg, s.live, false), reg.relations, d, s.draftLinks)
    ensures LinksSaved(reg, s, d, after)
  {
    var locks := Locks(reg, s.live, false);
    hide Locks, Relinked, TakesTarget, OneTableEach, Wants, Replaces, OwnerLocked;
    forall r, l | r in reg.relations && Owned(r, d, l)
      ensures l in after.draftLinks <==>
              TakesTarget(OwnerLocked(reg, s.live, r, false), TargetsOf(d.relations, r.ownerAttr), l.target)
    {
      LocksAre(reg, s.live, false, r);
      WantsAre(reg, locks, d, r, l);
      RelinkedMember(locks, reg.relations, d, s.draftLinks, l);
    }
    forall l | forall r | r in reg.relations :: !Owned(r, d, l) ensures l in after.draftLinks <==> l in s.draftLinks {
      NotOwned(reg, locks, d, l);
      RelinkedMember(locks, reg.relations, d, s.draftLinks, l);
    }
  }

  lemma AllPublicIs(reg: SchemaRegistry, s: Tables, after: Tables, r: Relation, d: Document)
    requires r in reg.relations && after.live == s.live && after.entities == s.entities && after.mirrors == s.mirrors
    ensures AllPublic(reg, s.live, after, r, d) <==> PublicTargetsExist(reg, s, r, d)
  {
    var locks, targets := Locks(reg, s.live, true), TargetsOf(d.relations, r.ownerAttr);
    LocksAre(reg, s.live, true, r);
    hide Locks, OwnerLocked;
    forall t ensures t in Kept(locks, r, targets) <==> TakesTarget(r in locks, targets, t) {
      KeptAre(locks, r, targets, t);
    }
    hide Kept, TakesTarget;
  }

  lemma WantsPublicAre(reg: SchemaRegistry, s: Tables, d: Document, r: Relation, l: Link)
    requires OneTableEach(reg.relations) && r in reg.relations && Owned(r, d, l)
    ensures WantsPublic(reg, s, reg.relations, d, l) <==>
            && TakesTarget(r in Locks(reg, s.live, true), TargetsOf(d.relations, r.ownerAttr), l.target)
            && PublicTargetsExist(reg, s, r, d)
    ensures Replaces(reg.relations, d, l)
  {
    hide TakesTarget, LinksFor, Locks, PublicTargetsExist;
    LinksForAre(Locks(reg, s.live, true), r, d, l);
    if x :| x in reg.relations && x.ownerType == d.typeId && l in LinksFor(Locks(reg, s.live, true), x, d)
            && PublicTargetsExist(reg, s, x, d) {
      LinksForAre(Locks(reg, s.live, true), x, d, l);
      assert x == r;
    }
  }

  lemma NotOwnedPublic(reg: SchemaRegistry, s: Tables, d: Document, l: Link)
    requires forall r | r in reg.relations :: !Owned(r, d, l)
    ensures !WantsPublic(reg, s, reg.relations, d, l) && !Replaces(reg.relations, d, l)
  {
    NotOwned(reg, Locks(reg, s.live, true), d, l);
    hide LinksFor, Locks, PublicTargetsExist;
  }

  /** `v` has the new mirror row already. */
  lemma LinksPublishedBy(reg: SchemaRegistry, s: Tables, v: Tables, d: Document, after: Tables)
    requires OneTableEach(reg.relations) && v.live == s.live && v.publishedLinks == s.publishedLinks
    requires after == v.(publishedLinks := RelinkedPublic(reg, v, reg.relations, d, v.publishedLinks))
    ensures LinksPublished(reg, s, d, after)
  {
    hide Locks, RelinkedPublic, TakesTarget, OneTableEach, WantsPublic, Replaces, OwnerLocked, PublicTargetsExist,
         AllPublic;
    forall r, l | r in reg.relations && Owned(r, d, l)
      ensures l in after.publishedLinks <==>
              && TakesTarget(OwnerLocked(reg, s.live, r, true), TargetsOf(d.relations, r.ownerAttr), l.target)
              && AllPublic(reg, s.live, after, r, d)
    {
      LocksAre(reg, s.live, true, r);
      WantsPublicAre(reg, v, d, r, l);
      AllPublicIs(reg, v, after, r, d);
      RelinkedPublicMember(reg, v, reg.relations, d, v.publishedLinks, l);
    }
    forall l | forall r | r in reg.relations :: !Owned(r, d, l)
      ensures l in after.publishedLinks <==> l in s.publishedLinks
    {
      NotOwnedPublic(reg, v, d, l);
      RelinkedPublicMember(reg, v, reg.relations, d, v.publishedLinks, l);
    }
  }

  lemma WithdrawnBy(reg: SchemaRegistry, s: Tables, u: Tables, d: Document)
    requires StoreReady(reg) && HasMirror(reg, d.typeId)
    requires u.mirrors == s.mirrors && u.publishedLinks == s.publishedLinks
    ensures Withdrawn(reg, s, d, WithoutMirror(reg, u, KeyOf(d)))
  {
    forall l
      ensures PointsAt(reg, l, KeyOf(d)) <==>
              exists r :: r in reg.relations && InTable(l, r) && Key(r.targetType, l.target) == KeyOf(d)
    {
      PointsBy(reg, l, KeyOf(d));
    }
    hide StoreReady, PointsAt, HasMirror;
  }

  lemma PointsBy(reg: SchemaRegistry, l: Link, k: Key)
    requires StoreReady(reg)
    ensures PointsAt(reg, l, k) <==>
            exists r :: r in reg.relations && InTable(l, r) && Key(r.targetType, l.target) == k
  {
    if r :| r in reg.relations && InTable(l, r) && Key(r.targetType, l.target) == k {
      TargetTypeOf(reg, r, l);
    }
    hide StoreReady;
  }

  /** The three ways in which a save can go through, apart from being lost. */
  ghost predicate WentThrough(reg: SchemaRegistry, s: Tables, d: Document, cells: Cells, after: Tables) {
    var u := AfterWorkingPart(reg, s, d, cells);
    if !HasMirror(reg, d.typeId) then after == u
    else if d.state.Draft? then after == WithoutMirror(reg, u, KeyOf(d))
    else
      var v := WithMirror(u, d, cells);
      after == v.(publishedLinks := RelinkedPublic(reg, v, reg.relations, d, v.publishedLinks))
  }

  lemma SaveGoesThrough(reg: SchemaRegistry, mode: LinkFailure, s: Tables, d: Document)
    requires Save(reg, mode, s, d).result.Ok?
    ensures reg.FindType(d.typeId).Some? && CellsOf(reg.FindType(d.typeId).value.fields, d.fields).Ok?
    ensures (mode.Abort? && Publishes(reg, d) && Save(reg, mode, s, d).tables == s)
            || WentThrough(reg, s, d, CellsOf(reg.FindType(d.typeId).value.fields, d.fields).value,
                           Save(reg, mode, s, d).tables)
  {
    hide CellsOf, Relinked, RelinkedPublic, RowAllowed, RowLocks, Locks, DraftTargetsExist, EntityRowOf, MirrorRowOf,
         CreatedAt, MirrorCreatedAt;
    if mode.Skip? && Publishes(reg, d) {
      var cells := CellsOf(reg.FindType(d.typeId).value.fields, d.fields).value;
      NeverAbortedWhenSkipping(reg, WithMirror(AfterWorkingPart(reg, s, d, cells), d, cells), reg.relations, d);
    }
    hide TransactionAfter, LeansOnMirror;
  }

  lemma ThroughIsSaved(reg: SchemaRegistry, s: Tables, d: Document, cells: Cells, after: Tables)
    requires StoreReady(reg) && WentThrough(reg, s, d, cells, after)
    ensures SavedAs(reg, s, d, after)
  {
    var u, k := AfterWorkingPart(reg, s, d, cells), KeyOf(d);
    assert OneTableEach(reg.relations);
    RowSavedBy(s, d, cells);
    LinksSavedBy(reg, s, d, u);
    if HasMirror(reg, d.typeId) {
      if d.state.Draft? {
        WithdrawnBy(reg, s, u, d);
      } else {
        MirrorSavedBy(s, d, cells);
        LinksPublishedBy(reg, s, WithMirror(u, d, cells), d, after);
        SameMirrorRow(reg, s, u, d, cells);
      }
    }
    hide StoreReady, Relinked, RelinkedPublic, Locks, RowSaved, MirrorSaved, Withdrawn, LinksPublished, EntityRowOf,
         CreatedAt, MirrorCreatedAt, HasMirror, LeansOnMirror, OneTableEach;
    LinksSavedAlso(reg, s, d, u, after);
    hide LinksSaved;
    RowsHoldCells(s, d, cells);
  }

  lemma LinksSavedAlso(reg: SchemaRegistry, s: Tables, d: Document, u: Tables, after: Tables)
    requires LinksSaved(reg, s, d, u) && after.draftLinks == u.draftLinks
    ensures LinksSaved(reg, s, d, after)
  {
    hide TakesTarget, OwnerLocked;
  }

  lemma RowsHoldCells(s: Tables, d: Document, cells: Cells)
    ensures EntityRowOf(d, cells, CreatedAt(s, d)).cells == cells
    ensures d.state.Published? ==> MirrorRowOf(d, cells, MirrorCreatedAt(s, d)).cells == cells
  {
  }

  /** A save that reports success either has its whole effect, or has been rolled back without
      an error. */
  lemma SaveSaves(reg: SchemaRegistry, mode: LinkFailure, s: Tables, d: Document)
    requires StoreReady(reg) && Save(reg, mode, s, d).result.Ok?
    ensures (mode.Abort? && Publishes(reg, d) && Save(reg, mode, s, d).tables == s)
            || SavedAs(reg, s, d, Save(reg, mode, s, d).tables)
  {
    hide StoreReady, Save, WentThrough, SavedAs, CellsOf, Publishes;
    SaveGoesThrough(reg, mode, s, d);
    var after := Save(reg, mode, s, d).tables;
    var cells := CellsOf(reg.FindType(d.typeId).value.fields, d.fields).value;
    if WentThrough(reg, s, d, cells, after) {
      ThroughIsSaved(reg, s, d, cells, after);
    }
  }

  // ----- reading it back -------------------------------------------------------------------------

  /** A list in ascending order, of all given targets, or under a lock of the first. */
  ghost predicate ShowsList(locked: bool, given: seq<DocumentId>, shown: seq<DocumentId>) {
    IsAscending(shown) && forall t :: t in shown <==> TakesTarget(locked, given, t)
  }

  ghost predicate ShowsRelations(reg: SchemaRegistry, live: set<Guard>, d: Document, shown: Relations) {
    && (forall a :: a in shown <==> exists r | r in reg.relations :: r.ownerType == d.typeId && r.ownerAttr == a)
    && forall r | r in reg.relations && r.ownerType == d.typeId ::
         && r.ownerAttr in shown
         && ShowsList(OwnerLocked(reg, live, r, false), TargetsOf(d.relations, r.ownerAttr), shown[r.ownerAttr])
  }

  /** Who wrote it and when. */
  ghost predicate ShowsAudit(s: Tables, d: Document, shown: AuditTrail) {
    && shown.version == d.audit.version
    && shown.createdBy.Some? && shown.updatedBy == shown.createdBy && OwnedBy(d, shown.createdBy.value)
    && CreatedThen(d, RowTime(s, KeyOf(d)), shown.createdAt) && CutsTo(d.audit.updatedAt, shown.updatedAt)
  }

  /** Published with its revision, time and publisher where the type publishes, else a draft
      that was never published. */
  ghost predicate ShowsState(reg: SchemaRegistry, d: Document, shown: PublicationState) {
    if Publishes(reg, d) then
      && shown.Published? && shown.revision == d.state.revision && CutsTo(d.state.publishedAt, shown.publishedAt)
      && shown.publishedBy.Some?
      && (d.state.publishedBy.Some? ==> shown.publishedBy == d.state.publishedBy)
      && (d.state.publishedBy.None? ==> OwnedBy(d, shown.publishedBy.value))
    else shown == Draft(None)
  }

  ghost predicate ShowsSaved(reg: SchemaRegistry, s: Tables, d: Document, x: Document) {
    && x.id == d.id && x.typeId == d.typeId && reg.FindType(d.typeId).Some?
    && ShowsFields(reg.FindType(d.typeId).value.fields, d.fields, x.fields)
    && ShowsRelations(reg, s.live, d, x.relations)
    && ShowsState(reg, d, x.state) && ShowsAudit(s, d, x.audit)
  }

  lemma FieldsShow(fs: seq<FieldDefinition>, given: Fields, shown: Fields)
    requires FieldsNormal(fs, given, shown)
    ensures ShowsFields(fs, given, shown)
  {
    hide Through, Keeps, TypeCorrect;
    forall f | f in fs && TypeCorrect(ValueOf(given, f.id), f.fieldType)
      ensures f.id in shown && Keeps(f.fieldType, ValueOf(given, f.id), shown[f.id])
    {
      ThroughKeeps(ValueOf(given, f.id), f.fieldType, ValueOf(shown, f.id));
    }
  }

  lemma RelationsShow(reg: SchemaRegistry, live: set<Guard>, d: Document, shown: Relations)
    requires RelationsNormal(reg, Locks(reg, live, false), d, shown)
    ensures ShowsRelations(reg, live, d, shown)
  {
    var locks := Locks(reg, live, false);
    hide Locks, OwnerLocked, IsAscending;
    forall r | r in reg.relations && r.ownerType == d.typeId
      ensures ShowsList(OwnerLocked(reg, live, r, false), TargetsOf(d.relations, r.ownerAttr), shown[r.ownerAttr])
    {
      LocksAre(reg, live, false, r);
      forall t
        ensures t in Kept(locks, r, TargetsOf(d.relations, r.ownerAttr)) <==>
                TakesTarget(r in locks, TargetsOf(d.relations, r.ownerAttr), t)
      {
        KeptAre(locks, r, TargetsOf(d.relations, r.ownerAttr), t);
      }
      hide Kept, TakesTarget;
    }
  }

  lemma NormalFormShows(reg: SchemaRegistry, s: Tables, d: Document, x: Document)
    requires NormalForm(reg, s, d, x)
    ensures ShowsSaved(reg, s, d, x)
  {
    hide FieldsNormal, RelationsNormal, ShowsFields, ShowsRelations, Locks, CutsTo, Micros;
    FieldsShow(reg.FindType(d.typeId).value.fields, d.fields, x.fields);
    RelationsShow(reg, s.live, d, x.relations);
    MicrosCut(d.audit.createdAt, Micros(d.audit.createdAt));
    MicrosCut(d.audit.updatedAt, Micros(d.audit.updatedAt));
    if Publishes(reg, d) {
      MicrosCut(d.state.publishedAt, Micros(d.state.publishedAt));
    }
  }

  /** What was saved is found under its id, and shows what was given: each attribute as its
      column keeps it, each list in ascending order, times to the microsecond. */
  lemma SavedIsFound(reg: SchemaRegistry, mode: LinkFailure, s: Tables, d: Document)
    requires StoreReady(reg) && Save(reg, mode, s, d).result.Ok?
    ensures var after := Save(reg, mode, s, d).tables;
            || (mode.Abort? && Publishes(reg, d) && after == s)
            || exists x :: Find(reg, after, KeyOf(d)) == Ok(Some(x)) && ShowsSaved(reg, s, d, x)
  {
    hide StoreReady, Save, Find, NormalForm, ShowsSaved, Publishes;
    ReadAfterWrite(reg, mode, s, d);
    var after := Save(reg, mode, s, d).tables;
    if x :| Find(reg, after, KeyOf(d)) == Ok(Some(x)) && NormalForm(reg, s, d, x) {
      NormalFormShows(reg, s, d, x);
    }
  }

  /** A document that is attached to another after it was saved shows its attributes and
      audit trail too. */
  lemma AttachedShowsSaved(reg: SchemaRegistry, mode: LinkFailure, s: Tables, d: Document, shown: Document)
    requires StoreReady(reg) && Save(reg, mode, s, d).result.Ok? && reg.FindType(d.typeId).Some?
    requires mode.Skip? || !Publishes(reg, d) || Save(reg, mode, s, d).tables != s
    requires Enrichment.ShownAs(reg, Save(reg, mode, s, d).tables, KeyOf(d), shown)
    ensures shown.id == d.id && shown.typeId == d.typeId && shown.state == Draft(None) && shown.relations == map[]
    ensures ShowsFields(reg.FindType(d.typeId).value.fields, d.fields, shown.fields)
    ensures ShowsAudit(s, d, shown.audit)
  {
    hide StoreReady, Save, Find, ShowsFields, ShowsRelations, ShowsAudit, Publishes;
    SavedIsFound(reg, mode, s, d);
  }

  /** Looking a document up fails for an unknown type only, and finds one exactly when it is
      there. */
  lemma FoundIffThere(reg: SchemaRegistry, s: Tables, k: Key)
    requires StoreReady(reg) && Sound(reg, s)
    ensures Find(reg, s, k).Ok? <==> reg.FindType(k.typeId).Some?
    ensures Find(reg, s, k).Ok? ==> (Find(reg, s, k).value.Some? <==> k in s.entities)
  {
    hide StoreReady, Sound, Working, FieldsOf, RelationsOf, StateOf, CellsOf;
    SoundIsWorking(reg, s);
    if k in s.entities {
      var dt := RowReads(reg, s, k);
    }
  }

  // ----- what is not saved ----------------------------------------------------------------------------

  /** A column takes the value, or what it keeps of it. */
  ghost predicate Storable(ft: FieldType, v: ContentValue) { exists kept :: Keeps(ft, v, kept) }

  /** The target is there, or is the document itself. */
  predicate TargetThere(s: Tables, d: Document, r: Relation, t: DocumentId) {
    Key(r.targetType, t) in s.entities || Key(r.targetType, t) == KeyOf(d)
  }

  /** Nothing required is missing, every value can be stored, no other row agrees with it in a
      locked column, and every target that a link table takes is there. */
  ghost predicate Complete(reg: SchemaRegistry, s: Tables, dt: DocumentType, d: Document, cells: Cells) {
    && (forall f | f in dt.fields :: Storable(f.fieldType, ValueOf(d.fields, f.id)))
    && (forall f | f in dt.fields && f.required :: !ValueOf(d.fields, f.id).Null?)
    && (forall o | o in s.entities && o.typeId == d.typeId && o != KeyOf(d) ::
          Compatible(RowLocks(s.live, dt, false), dt, s.entities[o].cells, cells))
    && forall r, t | r in reg.relations && r.ownerType == d.typeId
                     && TakesTarget(OwnerLocked(reg, s.live, r, false), TargetsOf(d.relations, r.ownerAttr), t) ::
         TargetThere(s, d, r, t)
  }

  lemma CellStores(given: Fields, f: FieldDefinition)
    requires TypeCorrect(ValueOf(given, f.id), f.fieldType)
    ensures Cell(given, f).Ok? <==> Storable(f.fieldType, ValueOf(given, f.id))
    ensures Cell(given, f).Ok? ==> (Cell(given, f).value.IsNull() <==> ValueOf(given, f.id).Null?)
  {
    var v, ft := ValueOf(given, f.id), f.fieldType;
    hide Keeps, Fits;
    CodecLossless(v, ft);
    if Cell(given, f).Ok? {
      CellReads(given, f);
      ThroughKeeps(v, ft, Through(v, ft).value);
    }
    if kept :| Keeps(ft, v, kept) {
      ThroughKeeps(v, ft, kept);
    }
    hide TypeCorrect, ToSeaValue, Store;
    if Cell(given, f).Ok? {
      NullStays(v, ft);
    }
  }

  lemma CellReads(given: Fields, f: FieldDefinition)
    requires Cell(given, f).Ok?
    ensures Through(ValueOf(given, f.id), f.fieldType).Ok?
  {
    var v, ft := ValueOf(given, f.id), f.fieldType;
    hide StoredCell, ToSeaValue, Store, ReadContentValue;
    StoredValueIsStored(v, ft);
    ReadThenStore(Cell(given, f).value, ft);
  }

  lemma NullStays(v: ContentValue, ft: FieldType)
    requires TypeCorrect(v, ft) && ToSeaValue(v, ft).Ok? && Store(ToSeaValue(v, ft).value, ft).Ok?
    ensures Store(ToSeaValue(v, ft).value, ft).value.IsNull() <==> v.Null?
  {
    hide StoreLimited, StoreNumeric, Micros, CleanJson;
  }

  lemma CellsStore(dt: DocumentType, d: Document)
    requires DistinctFields(dt.fields)
    requires forall f | f in dt.fields :: TypeCorrect(ValueOf(d.fields, f.id), f.fieldType)
    ensures CellsOf(dt.fields, d.fields).Ok? <==>
            forall f | f in dt.fields :: Storable(f.fieldType, ValueOf(d.fields, f.id))
    ensures CellsOf(dt.fields, d.fields).Ok? ==>
              (NotNull(dt, CellsOf(dt.fields, d.fields).value) <==>
               forall f | f in dt.fields && f.required :: !ValueOf(d.fields, f.id).Null?)
  {
    hide CellsOf, Cell, Storable, TypeCorrect;
    CellsAre(dt.fields, d.fields);
    forall f | f in dt.fields
      ensures Cell(d.fields, f).Ok? <==> Storable(f.fieldType, ValueOf(d.fields, f.id))
      ensures Cell(d.fields, f).Ok? ==> (Cell(d.fields, f).value.IsNull() <==> ValueOf(d.fields, f.id).Null?)
    {
      CellStores(d.fields, f);
    }
  }

  lemma TargetsAreThere(reg: SchemaRegistry, s: Tables, d: Document, cells: Cells, r: Relation)
    requires r in reg.relations && r.ownerType == d.typeId
    ensures DraftTargetsExist(Locks(reg, s.live, false), WithEntity(s, d, cells), r, d) <==>
            forall t | TakesTarget(OwnerLocked(reg, s.live, r, false), TargetsOf(d.relations, r.ownerAttr), t) ::
              TargetThere(s, d, r, t)
  {
    var locks, targets := Locks(reg, s.live, false), TargetsOf(d.relations, r.ownerAttr);
    LocksAre(reg, s.live, false, r);
    hide Locks, OwnerLocked, EntityRowOf;
    forall t ensures t in Kept(locks, r, targets) <==> TakesTarget(r in locks, targets, t) {
      KeptAre(locks, r, targets, t);
    }
    hide Kept, TakesTarget;
  }

  /** A document with values of its types is taken by the working tables exactly when it is
      complete. */
  lemma AcceptableIsComplete(reg: SchemaRegistry, s: Tables, dt: DocumentType, d: Document, cells: Cells)
    requires StoreReady(reg) && reg.FindType(d.typeId) == Some(dt)
    requires forall f | f in dt.fields :: TypeCorrect(ValueOf(d.fields, f.id), f.fieldType)
    ensures Acceptable(reg, s, dt, d, cells) <==>
            CellsOf(dt.fields, d.fields) == Ok(cells) && Complete(reg, s, dt, d, cells)
  {
    assert DistinctFields(dt.fields);
    CellsStore(dt, d);
    hide StoreReady, CellsOf, Storable, TypeCorrect, NotNull, RowLocks, Compatible, OwnerLocked, TakesTarget, Locks,
         TargetThere, DraftTargetsExist;
    forall r | r in reg.relations && r.ownerType == d.typeId
      ensures DraftTargetsExist(Locks(reg, s.live, false), WithEntity(s, d, cells), r, d) <==>
              forall t | TakesTarget(OwnerLocked(reg, s.live, r, false), TargetsOf(d.relations, r.ownerAttr), t) ::
                TargetThere(s, d, r, t)
    {
      TargetsAreThere(reg, s, d, cells, r);
    }
    hide WithEntity;
  }

  /** A document that its type does not publish, or that is a draft, is saved exactly when it
      is complete. */
  lemma SavedIffComplete(reg: SchemaRegistry, mode: LinkFailure, s: Tables, dt: DocumentType, d: Document)
    requires StoreReady(reg) && Sound(reg, s) && reg.FindType(d.typeId) == Some(dt) && !Publishes(reg, d)
    requires forall f | f in dt.fields :: TypeCorrect(ValueOf(d.fields, f.id), f.fieldType)
    ensures Save(reg, mode, s, d).result.Ok? <==>
            exists cells :: CellsOf(dt.fields, d.fields) == Ok(cells) && Complete(reg, s, dt, d, cells)
  {
    hide StoreReady, Sound, CellsOf, Complete, Save, Acceptable, TypeCorrect, Publishes;
    forall cells
      ensures Acceptable(reg, s, dt, d, cells) <==>
              CellsOf(dt.fields, d.fields) == Ok(cells) && Complete(reg, s, dt, d, cells)
    {
      AcceptableIsComplete(reg, s, dt, d, cells);
    }
    if cells :| Acceptable(reg, s, dt, d, cells) {
      AcceptedSave(reg, s, dt, d, cells);
      AcceptedInBothModes(reg, s, dt, d, cells, mode);
    }
    if Save(reg, mode, s, d).result.Ok? {
      SavedIsAcceptable(reg, mode, s, dt, d);
    }
  }

  lemma AcceptedInBothModes(reg: SchemaRegistry, s: Tables, dt: DocumentType, d: Document, cells: Cells,
                            mode: LinkFailure)
    requires Acceptable(reg, s, dt, d, cells) && !Publishes(reg, d)
    ensures Save(reg, mode, s, d) == Save(reg, Skip, s, d)
  {
    SaveIsItsPublicPart(reg, mode, s, dt, d, cells);
    SaveIsItsPublicPart(reg, Skip, s, dt, d, cells);
    hide Acceptable, Save, AfterWorkingPart;
  }

  lemma SavedIsAcceptable(reg: SchemaRegistry, mode: LinkFailure, s: Tables, dt: DocumentType, d: Document)
    requires reg.FindType(d.typeId) == Some(dt) && Save(reg, mode, s, d).result.Ok?
    ensures CellsOf(dt.fields, d.fields).Ok? && Acceptable(reg, s, dt, d, CellsOf(dt.fields, d.fields).value)
  {
    hide CellsOf, Relinked, RowAllowed, RowLocks, Locks, DraftTargetsExist, EntityRowOf, CreatedAt, AfterPublicPart;
  }
}
