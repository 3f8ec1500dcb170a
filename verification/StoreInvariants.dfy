/** What every run of saves and deletes keeps: referential integrity, the public filter,
    the agreement of documents and their mirrors. */
module StoreInvariants {
  import opened Wrappers
  import opened DomainSchema
  import opened Content
  import opened Codec
  import opened Instance
  import opened DocumentStore

  // ----- the invariant -------------------------------------------------------------------

  function OwnerKey(l: Link): Key { Key(l.ownerType, l.owner) }

  ghost predicate DraftLinkHolds(reg: SchemaRegistry, entities: map<Key, EntityRow>, l: Link) {
    var t := TargetType(reg, l);
    OwnerKey(l) in entities && t.Some? && Key(t.value, l.target) in entities
  }

  ghost predicate PublishedLinkHolds(reg: SchemaRegistry, s: Tables, l: Link) {
    var t := TargetType(reg, l);
    && HasMirror(reg, l.ownerType) && OwnerKey(l) in s.mirrors
    && t.Some?
    && if HasMirror(reg, t.value) then Key(t.value, l.target) in s.mirrors else Key(t.value, l.target) in s.entities
  }

  /** Every reference the foreign keys check leads to a row. */
  ghost predicate Intact(reg: SchemaRegistry, s: Tables) {
    && (forall k | k in s.mirrors :: k in s.entities)
    && (forall l | l in s.draftLinks :: DraftLinkHolds(reg, s.entities, l))
    && (forall l | l in s.publishedLinks :: PublishedLinkHolds(reg, s, l))
  }

  /** In a locked table an owner has one link at most. */
  ghost predicate OneTarget(locks: set<Relation>, links: set<Link>) {
    forall r, l, m | r in locks && l in links && m in links && InTable(l, r) && InTable(m, r) && l.owner == m.owner ::
      l == m
  }

  ghost predicate Readable(dt: DocumentType, cells: Cells) {
    && (forall f | f in dt.fields :: f.id in cells && StoredCell(cells[f.id], f.fieldType))
    && (forall a | a in cells :: exists f | f in dt.fields :: f.id == a)
  }

  ghost predicate RowHolds(reg: SchemaRegistry, k: Key, cells: Cells) {
    var dt := reg.FindType(k.typeId);
    dt.Some? && NotNull(dt.value, cells) && Readable(dt.value, cells)
  }

  ghost predicate RowsCompatible(reg: SchemaRegistry, live: set<Guard>, mirror: bool, rows: map<Key, Cells>) {
    forall k, o | k in rows && o in rows && k.typeId == o.typeId && k != o ::
      reg.FindType(k.typeId).Some? ==>
        var dt := reg.FindType(k.typeId).value;
        Compatible(RowLocks(live, dt, mirror), dt, rows[k], rows[o])
  }

  /** What the working tables owe on their own. */
  ghost predicate Working(reg: SchemaRegistry, live: set<Guard>, entities: map<Key, EntityRow>, draftLinks: set<Link>) {
    && (forall k | k in entities :: RowHolds(reg, k, entities[k].cells))
    && RowsCompatible(reg, live, false, EntityCells(entities))
    && (forall l | l in draftLinks :: DraftLinkHolds(reg, entities, l))
    && OneTarget(Locks(reg, live, false), draftLinks)
  }

  /** Where the working links of a relation are held to one target, so are its published
      ones. */
  ghost predicate Followed(reg: SchemaRegistry, live: set<Guard>, l: Link) {
    forall r | r in Locks(reg, live, false) && InTable(l, r) :: r in Locks(reg, live, true)
  }

  /** What the mirrors and the published links owe on their own. */
  ghost predicate Outward(reg: SchemaRegistry, s: Tables) {
    && RowsCompatible(reg, s.live, true, MirrorCells(s.mirrors))
    && OneTarget(Locks(reg, s.live, true), s.publishedLinks)
    && forall l | l in s.publishedLinks && Followed(reg, s.live, l) :: l in s.draftLinks
  }

  /** For types with a mirror: a row says published exactly when its mirror row exists, and
      the mirror shows what the row holds. */
  ghost predicate Agreement(reg: SchemaRegistry, s: Tables) {
    && (forall k | k in s.mirrors :: HasMirror(reg, k.typeId))
    && (forall k | k in s.entities && HasMirror(reg, k.typeId) :: s.entities[k].published <==> k in s.mirrors)
    && (forall k | k in s.mirrors && k in s.entities ::
          && s.mirrors[k].cells == s.entities[k].cells && s.mirrors[k].ownerId == s.entities[k].ownerId
          && s.mirrors[k].updatedAt == s.entities[k].updatedAt)
  }

  ghost predicate Sound(reg: SchemaRegistry, s: Tables) {
    Working(reg, s.live, s.entities, s.draftLinks) && Intact(reg, s) && Agreement(reg, s) && Outward(reg, s)
  }

  // ----- cascades ---------------------------------------------------------------------------

  ghost predicate Sub(u: Tables, s: Tables) {
    && u.live == s.live
    && (forall k | k in u.entities :: k in s.entities && u.entities[k] == s.entities[k])
    && (forall k | k in u.mirrors :: k in s.mirrors && u.mirrors[k] == s.mirrors[k])
    && u.draftLinks <= s.draftLinks && u.publishedLinks <= s.publishedLinks
  }

  /** Deleting a document leaves the largest part of the store without it in which every
      reference still holds: exactly what a cascade is. */
  lemma CascadeIsGreatest(reg: SchemaRegistry, s: Tables, k: Key, u: Tables)
    requires Intact(reg, s)
    ensures Intact(reg, WithoutEntity(reg, s, k)) && Sub(WithoutEntity(reg, s, k), s)
    ensures k !in WithoutEntity(reg, s, k).entities
    ensures Intact(reg, u) && Sub(u, s) && k !in u.entities ==> Sub(u, WithoutEntity(reg, s, k))
  {
    hide HasMirror;
    var w := WithoutEntity(reg, s, k);
    forall l | l in w.publishedLinks ensures PublishedLinkHolds(reg, w, l) {
      assert PublishedLinkHolds(reg, s, l);
    }
    if Intact(reg, u) && Sub(u, s) && k !in u.entities {
      forall l | l in u.publishedLinks ensures l in w.publishedLinks {
        assert PublishedLinkHolds(reg, u, l);
      }
      forall l | l in u.draftLinks ensures l in w.draftLinks {
        assert DraftLinkHolds(reg, u.entities, l);
      }
    }
  }

  /** The same for unpublishing. */
  lemma UnpublishIsGreatest(reg: SchemaRegistry, s: Tables, k: Key, u: Tables)
    requires Intact(reg, s)
    ensures Intact(reg, WithoutMirror(reg, s, k)) && Sub(WithoutMirror(reg, s, k), s)
    ensures k !in WithoutMirror(reg, s, k).mirrors
    ensures Intact(reg, u) && Sub(u, s) && k !in u.mirrors ==> Sub(u, WithoutMirror(reg, s, k))
  {
    hide HasMirror;
    var w := WithoutMirror(reg, s, k);
    forall l | l in w.publishedLinks ensures PublishedLinkHolds(reg, w, l) {
      assert PublishedLinkHolds(reg, s, l);
    }
    if Intact(reg, u) && Sub(u, s) && k !in u.mirrors {
      forall l | l in u.publishedLinks ensures l in w.publishedLinks {
        assert PublishedLinkHolds(reg, u, l);
      }
    }
  }

  lemma WorkingShrinks(reg: SchemaRegistry, s: Tables, w: Tables)
    requires Working(reg, s.live, s.entities, s.draftLinks) && Intact(reg, w) && Sub(w, s)
    ensures Working(reg, w.live, w.entities, w.draftLinks)
  {
    hide HasMirror, RowHolds, Compatible, PublishedLinkHolds, DraftLinkHolds, InTable, Locks, RowLocks;
  }

  lemma OutwardShrinks(reg: SchemaRegistry, s: Tables, w: Tables)
    requires Outward(reg, s) && w.live == s.live && w.publishedLinks <= s.publishedLinks
    requires forall k | k in w.mirrors :: k in s.mirrors && w.mirrors[k] == s.mirrors[k]
    requires forall l | l in w.publishedLinks && l in s.draftLinks :: l in w.draftLinks
    ensures Outward(reg, w)
  {
    hide Compatible, InTable, Locks, RowLocks, Followed;
  }

  lemma AgreementWithout(reg: SchemaRegistry, s: Tables, k: Key)
    requires Agreement(reg, s)
    ensures Agreement(reg, WithoutEntity(reg, s, k))
  {
    hide HasMirror, PointsAt;
  }

  lemma LinksWithout(reg: SchemaRegistry, s: Tables, k: Key)
    ensures forall l | l in WithoutEntity(reg, s, k).publishedLinks && l in s.draftLinks ::
              l in WithoutEntity(reg, s, k).draftLinks
  {
    hide PointsAt;
  }

  lemma DeleteKeepsSound(reg: SchemaRegistry, s: Tables, k: Key)
    requires Sound(reg, s)
    ensures Sound(reg, WithoutEntity(reg, s, k))
  {
    hide Intact, Working, WithoutEntity, Agreement, Outward;
    CascadeIsGreatest(reg, s, k, s);
    WorkingShrinks(reg, s, WithoutEntity(reg, s, k));
    AgreementWithout(reg, s, k);
    LinksWithout(reg, s, k);
    OutwardShrinks(reg, s, WithoutEntity(reg, s, k));
  }

  // ----- replaced links -----------------------------------------------------------------------

  ghost predicate OneTableEach(rs: seq<Relation>) {
    forall r, x | r in rs && x in rs && r.ownerType == x.ownerType && r.ownerAttr == x.ownerAttr :: r == x
  }

  ghost predicate Replaces(rs: seq<Relation>, d: Document, l: Link) {
    l.owner == d.id && exists r :: r in rs && r.ownerType == d.typeId && InTable(l, r)
  }

  ghost predicate Wants(locks: set<Relation>, rs: seq<Relation>, d: Document, l: Link) {
    exists r :: r in rs && r.ownerType == d.typeId && l in LinksFor(locks, r, d)
  }

  ghost predicate WantsPublic(reg: SchemaRegistry, s: Tables, rs: seq<Relation>, d: Document, l: Link) {
    exists r :: r in rs && r.ownerType == d.typeId && l in LinksFor(Locks(reg, s.live, true), r, d)
                && PublicTargetsExist(reg, s, r, d)
  }

  lemma {:induction false} RelinkedMember(locks: set<Relation>, rs: seq<Relation>, d: Document, links: set<Link>,
                                          l: Link)
    requires OneTableEach(rs)
    ensures l in Relinked(locks, rs, d, links) <==> (l in links && !Replaces(rs, d, l)) || Wants(locks, rs, d, l)
  {
    if rs != [] {
      var n := |rs| - 1;
      RelinkedMember(locks, rs[..n], d, links, l);
      assert rs == rs[..n] + [rs[n]];
      assert rs[n] in rs;
      if Wants(locks, rs[..n], d, l) {
        var r :| r in rs[..n] && r.ownerType == d.typeId && l in LinksFor(locks, r, d);
        assert r in rs;
      }
      if Replaces(rs[..n], d, l) {
        var r :| r in rs[..n] && r.ownerType == d.typeId && InTable(l, r);
        assert r in rs;
      }
    }
  }

  lemma {:induction false} RelinkedPublicMember(
    reg: SchemaRegistry, s: Tables, rs: seq<Relation>, d: Document, links: set<Link>, l: Link)
    requires OneTableEach(rs)
    ensures l in RelinkedPublic(reg, s, rs, d, links) <==>
            (l in links && !Replaces(rs, d, l)) || WantsPublic(reg, s, rs, d, l)
  {
    hide PublicTargetsExist, Locks;
    if rs != [] {
      var n := |rs| - 1;
      RelinkedPublicMember(reg, s, rs[..n], d, links, l);
      assert rs == rs[..n] + [rs[n]];
      assert rs[n] in rs;
      if WantsPublic(reg, s, rs[..n], d, l) {
        var r :| r in rs[..n] && r.ownerType == d.typeId && l in LinksFor(Locks(reg, s.live, true), r, d)
                 && PublicTargetsExist(reg, s, r, d);
        assert r in rs;
      }
      if Replaces(rs[..n], d, l) {
        var r :| r in rs[..n] && r.ownerType == d.typeId && InTable(l, r);
        assert r in rs;
      }
    }
  }

  lemma TargetTypeOf(reg: SchemaRegistry, r: Relation, l: Link)
    requires StoreReady(reg) && r in reg.relations && InTable(l, r)
    ensures TargetType(reg, l) == Some(r.targetType)
  {
  }

  /** An owner's links are replaced, all others stay. */
  lemma OwnLinksReplaced(reg: SchemaRegistry, locks: set<Relation>, d: Document, links: set<Link>, l: Link)
    requires StoreReady(reg) && TargetType(reg, l).Some?
    ensures OwnerKey(l) == KeyOf(d) ==>
            (l in Relinked(locks, reg.relations, d, links) <==> Wants(locks, reg.relations, d, l))
    ensures OwnerKey(l) != KeyOf(d) ==> (l in Relinked(locks, reg.relations, d, links) <==> l in links)
    ensures Wants(locks, reg.relations, d, l) ==> OwnerKey(l) == KeyOf(d)
  {
    RelinkedMember(locks, reg.relations, d, links, l);
  }

  lemma OwnPublicLinksReplaced(reg: SchemaRegistry, s: Tables, d: Document, links: set<Link>, l: Link)
    requires StoreReady(reg) && TargetType(reg, l).Some?
    ensures OwnerKey(l) == KeyOf(d) ==>
              (l in RelinkedPublic(reg, s, reg.relations, d, links) <==> WantsPublic(reg, s, reg.relations, d, l))
    ensures OwnerKey(l) != KeyOf(d) ==> (l in RelinkedPublic(reg, s, reg.relations, d, links) <==> l in links)
    ensures WantsPublic(reg, s, reg.relations, d, l) ==> OwnerKey(l) == KeyOf(d)
  {
    hide PublicTargetsExist, Locks;
    RelinkedPublicMember(reg, s, reg.relations, d, links, l);
  }

  // ----- saving: the working tables ------------------------------------------------------------

  lemma CellsAreReadable(dt: DocumentType, d: Document)
    requires DistinctFields(dt.fields) && CellsOf(dt.fields, d.fields).Ok?
    ensures Readable(dt, CellsOf(dt.fields, d.fields).value)
  {
    hide ToSeaValue, Store, StoredCell;
    CellsAre(dt.fields, d.fields);
    forall f | f in dt.fields ensures StoredCell(CellsOf(dt.fields, d.fields).value[f.id], f.fieldType) {
      assert Cell(d.fields, f).Ok?;
      StoredValueIsStored(ValueOf(d.fields, f.id), f.fieldType);
    }
  }

  lemma NewRowCompatible(reg: SchemaRegistry, live: set<Guard>, mirror: bool, dt: DocumentType, k: Key, cells: Cells,
                         rows: map<Key, Cells>)
    requires RowsCompatible(reg, live, mirror, rows) && reg.FindType(k.typeId) == Some(dt)
    requires RowAllowed(RowLocks(live, dt, mirror), dt, k, cells, rows)
    ensures RowsCompatible(reg, live, mirror, rows[k := cells])
  {
    hide NotNull, RowLocks;
    forall o | o in rows && o.typeId == k.typeId && o != k
      ensures Compatible(RowLocks(live, dt, mirror), dt, cells, rows[o])
    {
      assert Compatible(RowLocks(live, dt, mirror), dt, rows[o], cells);
    }
    hide Compatible;
  }

  lemma StillJoined(reg: SchemaRegistry, entities: map<Key, EntityRow>, k: Key, row: EntityRow, l: Link)
    requires DraftLinkHolds(reg, entities, l)
    ensures DraftLinkHolds(reg, entities[k := row], l)
  {
    hide TargetType;
  }

  lemma RowAdded(reg: SchemaRegistry, live: set<Guard>, entities: map<Key, EntityRow>, links: set<Link>, k: Key,
                 row: EntityRow)
    requires Working(reg, live, entities, links) && RowHolds(reg, k, row.cells)
    requires var dt := reg.FindType(k.typeId).value;
             RowAllowed(RowLocks(live, dt, false), dt, k, row.cells, EntityCells(entities))
    ensures Working(reg, live, entities[k := row], links)
  {
    var dt := reg.FindType(k.typeId).value;
    hide RowHolds, RowsCompatible, OneTarget, TargetType, EntityCells, RowAllowed, Locks, RowLocks, DraftLinkHolds;
    forall l | l in links ensures DraftLinkHolds(reg, entities[k := row], l) {
      StillJoined(reg, entities, k, row, l);
    }
    NewRowCompatible(reg, live, false, dt, k, row.cells, EntityCells(entities));
    CellsWithRow(entities, k, row);
  }

  lemma CellsWithRow(entities: map<Key, EntityRow>, k: Key, row: EntityRow)
    ensures EntityCells(entities[k := row]) == EntityCells(entities)[k := row.cells]
  {
  }

  /** Saving a row that the table takes. */
  lemma EntitySaved(reg: SchemaRegistry, s: Tables, dt: DocumentType, d: Document, cells: Cells)
    requires StoreReady(reg) && Working(reg, s.live, s.entities, s.draftLinks)
    requires reg.FindType(d.typeId) == Some(dt) && CellsOf(dt.fields, d.fields) == Ok(cells)
    requires RowAllowed(RowLocks(s.live, dt, false), dt, KeyOf(d), cells, EntityCells(s.entities))
    ensures Working(reg, s.live, WithEntity(s, d, cells).entities, s.draftLinks)
  {
    hide Working, RowLocks, Compatible;
    assert DistinctFields(dt.fields);
    CellsAreReadable(dt, d);
    RowAdded(reg, s.live, s.entities, s.draftLinks, KeyOf(d), EntityRowOf(d, cells, CreatedAt(s, d)));
  }

  lemma LinksForHold(reg: SchemaRegistry, locks: set<Relation>, s: Tables, r: Relation, d: Document, l: Link)
    requires StoreReady(reg) && r in reg.relations && r.ownerType == d.typeId
    requires KeyOf(d) in s.entities && DraftTargetsExist(locks, s, r, d) && l in LinksFor(locks, r, d)
    ensures DraftLinkHolds(reg, s.entities, l)
  {
    TargetTypeOf(reg, r, l);
  }

  lemma OneForOwner(locks: set<Relation>, r: Relation, d: Document, l: Link, m: Link)
    requires r in locks && l in LinksFor(locks, r, d) && m in LinksFor(locks, r, d)
    ensures l == m
  {
  }

  lemma WantedBy(reg: SchemaRegistry, locks: set<Relation>, d: Document, r: Relation, l: Link)
    requires StoreReady(reg) && r in reg.relations && InTable(l, r) && Wants(locks, reg.relations, d, l)
    ensures l in LinksFor(locks, r, d)
  {
    var x :| x in reg.relations && x.ownerType == d.typeId && l in LinksFor(locks, x, d);
    assert x == r;
  }

  lemma LinksSaved(reg: SchemaRegistry, s: Tables, d: Document)
    requires StoreReady(reg) && Working(reg, s.live, s.entities, s.draftLinks) && KeyOf(d) in s.entities
    requires forall r | r in reg.relations && r.ownerType == d.typeId ::
               DraftTargetsExist(Locks(reg, s.live, false), s, r, d)
    ensures Working(reg, s.live, s.entities, Relinked(Locks(reg, s.live, false), reg.relations, d, s.draftLinks))
  {
    hide RowHolds, RowsCompatible, DraftTargetsExist, Relinked, LinksFor, TargetType;
    var locks := Locks(reg, s.live, false);
    var after := Relinked(locks, reg.relations, d, s.draftLinks);
    OneTargetSaved(reg, locks, d, s.draftLinks);
    hide Locks, OneTarget;
    forall l | l in after ensures DraftLinkHolds(reg, s.entities, l) {
      RelinkedMember(locks, reg.relations, d, s.draftLinks, l);
      if Wants(locks, reg.relations, d, l) {
        var r :| r in reg.relations && r.ownerType == d.typeId && l in LinksFor(locks, r, d);
        LinksForHold(reg, locks, s, r, d, l);
      }
    }
  }

  lemma OneTargetSaved(reg: SchemaRegistry, locks: set<Relation>, d: Document, links: set<Link>)
    requires StoreReady(reg) && OneTarget(locks, links) && (forall r | r in locks :: r in reg.relations)
    ensures OneTarget(locks, Relinked(locks, reg.relations, d, links))
  {
    hide Relinked, LinksFor, InTable;
    var after := Relinked(locks, reg.relations, d, links);
    forall r, l, m | r in locks && l in after && m in after && InTable(l, r) && InTable(m, r) && l.owner == m.owner
      ensures l == m
    {
      TargetTypeOf(reg, r, l);
      TargetTypeOf(reg, r, m);
      SameTableSameOwner(r, l, m);
      OwnLinksReplaced(reg, locks, d, links, l);
      OwnLinksReplaced(reg, locks, d, links, m);
      if OwnerKey(l) == KeyOf(d) {
        WantedBy(reg, locks, d, r, l);
        WantedBy(reg, locks, d, r, m);
        OneForOwner(locks, r, d, l, m);
      }
    }
  }

  lemma WantedPublicBy(reg: SchemaRegistry, s: Tables, d: Document, r: Relation, l: Link)
    requires StoreReady(reg) && r in reg.relations && InTable(l, r) && WantsPublic(reg, s, reg.relations, d, l)
    ensures l in LinksFor(Locks(reg, s.live, true), r, d)
  {
    hide Locks, PublicTargetsExist;
    var x :| x in reg.relations && x.ownerType == d.typeId && l in LinksFor(Locks(reg, s.live, true), x, d);
    assert x == r;
  }

  lemma OnePublicTargetSaved(reg: SchemaRegistry, s: Tables, d: Document, links: set<Link>)
    requires StoreReady(reg) && OneTarget(Locks(reg, s.live, true), links)
    ensures OneTarget(Locks(reg, s.live, true), RelinkedPublic(reg, s, reg.relations, d, links))
  {
    var locks, after := Locks(reg, s.live, true), RelinkedPublic(reg, s, reg.relations, d, links);
    assert forall r | r in locks :: r in reg.relations;
    hide RelinkedPublic, LinksFor, InTable, Locks, WantsPublic;
    forall r, l, m | r in locks && l in after && m in after && InTable(l, r) && InTable(m, r) && l.owner == m.owner
      ensures l == m
    {
      TargetTypeOf(reg, r, l);
      TargetTypeOf(reg, r, m);
      SameTableSameOwner(r, l, m);
      OwnPublicLinksReplaced(reg, s, d, links, l);
      OwnPublicLinksReplaced(reg, s, d, links, m);
      if OwnerKey(l) == KeyOf(d) {
        WantedPublicBy(reg, s, d, r, l);
        WantedPublicBy(reg, s, d, r, m);
        OneForOwner(locks, r, d, l, m);
      }
    }
  }

  lemma SameTableSameOwner(r: Relation, l: Link, m: Link)
    requires InTable(l, r) && InTable(m, r) && l.owner == m.owner
    ensures OwnerKey(l) == OwnerKey(m)
  {
  }

  // ----- saving: the mirror and the published links ------------------------------------------------

  /** The store between the working part of a save and its public part. */
  ghost predicate Midway(reg: SchemaRegistry, s: Tables, u: Tables, d: Document, cells: Cells) {
    && u.live == s.live
    && KeyOf(d) in u.entities
    && u.entities[KeyOf(d)] == EntityRowOf(d, cells, CreatedAt(s, d))
    && (forall k | k != KeyOf(d) :: k in u.entities <==> k in s.entities)
    && (forall k | k != KeyOf(d) && k in s.entities :: u.entities[k] == s.entities[k])
    && u.mirrors == s.mirrors && u.publishedLinks == s.publishedLinks
    && Working(reg, u.live, u.entities, u.draftLinks)
    && (forall l | l in s.draftLinks && OwnerKey(l) != KeyOf(d) :: l in u.draftLinks)
    && (forall l | TargetType(reg, l).Some? && Wants(Locks(reg, s.live, false), reg.relations, d, l) ::
        l in u.draftLinks)
  }

  lemma KnownTarget(reg: SchemaRegistry, s: Tables, l: Link)
    requires Working(reg, s.live, s.entities, s.draftLinks) && l in s.draftLinks
    ensures TargetType(reg, l).Some?
  {
    hide RowsCompatible, OneTarget, Locks;
    assert DraftLinkHolds(reg, s.entities, l);
  }

  lemma OthersStay(reg: SchemaRegistry, s: Tables, d: Document, l: Link)
    requires StoreReady(reg) && Working(reg, s.live, s.entities, s.draftLinks)
    ensures var locks := Locks(reg, s.live, false);
            var after := Relinked(locks, reg.relations, d, s.draftLinks);
            && (l in s.draftLinks && OwnerKey(l) != KeyOf(d) ==> l in after)
            && (TargetType(reg, l).Some? && Wants(locks, reg.relations, d, l) ==> l in after)
  {
    hide Wants, Working, StoreReady, Locks;
    if l in s.draftLinks {
      KnownTarget(reg, s, l);
    }
    if TargetType(reg, l).Some? {
      OwnLinksReplaced(reg, Locks(reg, s.live, false), d, s.draftLinks, l);
    }
  }

  function AfterWorkingPart(reg: SchemaRegistry, s: Tables, d: Document, cells: Cells): Tables {
    WithEntity(s, d, cells).(draftLinks := Relinked(Locks(reg, s.live, false), reg.relations, d, s.draftLinks))
  }

  lemma SaveReachesMidway(reg: SchemaRegistry, s: Tables, dt: DocumentType, d: Document, cells: Cells)
    requires StoreReady(reg) && Working(reg, s.live, s.entities, s.draftLinks)
    requires reg.FindType(d.typeId) == Some(dt) && CellsOf(dt.fields, d.fields) == Ok(cells)
    requires RowAllowed(RowLocks(s.live, dt, false), dt, KeyOf(d), cells, EntityCells(s.entities))
    requires forall r | r in reg.relations && r.ownerType == d.typeId ::
               DraftTargetsExist(Locks(reg, s.live, false), WithEntity(s, d, cells), r, d)
    ensures Midway(reg, s, AfterWorkingPart(reg, s, d, cells), d, cells)
  {
    hide Relinked, DraftTargetsExist, CellsOf, RowAllowed, RowLocks, Locks, Working, StoreReady, Wants, TargetType,
         EntityRowOf, CreatedAt;
    EntitySaved(reg, s, dt, d, cells);
    LinksSaved(reg, WithEntity(s, d, cells), d);
    var locks := Locks(reg, s.live, false);
    forall l
      ensures l in s.draftLinks && OwnerKey(l) != KeyOf(d) ==> l in Relinked(locks, reg.relations, d, s.draftLinks)
      ensures TargetType(reg, l).Some? && Wants(locks, reg.relations, d, l) ==>
                l in Relinked(locks, reg.relations, d, s.draftLinks)
    {
      OthersStay(reg, s, d, l);
    }
  }

  lemma OthersStillHold(reg: SchemaRegistry, s: Tables, u: Tables, d: Document, cells: Cells, l: Link)
    requires Sound(reg, s) && Midway(reg, s, u, d, cells) && l in s.publishedLinks
    ensures PublishedLinkHolds(reg, u, l)
    ensures OwnerKey(l) != KeyOf(d) && l in s.draftLinks ==> l in u.draftLinks
  {
    hide Working, HasMirror, TargetType, Outward, Locks;
    assert PublishedLinkHolds(reg, s, l);
  }

  lemma Assemble(reg: SchemaRegistry, w: Tables)
    requires Working(reg, w.live, w.entities, w.draftLinks) && Agreement(reg, w) && Outward(reg, w)
    requires forall k | k in w.mirrors :: k in w.entities
    requires forall l | l in w.publishedLinks :: PublishedLinkHolds(reg, w, l)
    ensures Sound(reg, w)
  {
    hide Agreement, Outward, OneTarget, RowsCompatible, RowHolds, PublishedLinkHolds, Locks;
  }

  lemma SoundParts(reg: SchemaRegistry, s: Tables)
    requires Sound(reg, s)
    ensures Working(reg, s.live, s.entities, s.draftLinks) && Outward(reg, s)
    ensures Agreement(reg, s) && forall k | k in s.mirrors :: k in s.entities
  {
    hide Agreement, Working, HasMirror, Outward;
  }

  lemma PlainTypeKeepsSound(reg: SchemaRegistry, s: Tables, u: Tables, d: Document, cells: Cells)
    requires Sound(reg, s) && Midway(reg, s, u, d, cells) && !HasMirror(reg, d.typeId)
    ensures Sound(reg, u)
  {
    hide Sound, Working, Outward, HasMirror, PublishedLinkHolds, Wants, TargetType, EntityRowOf, Locks;
    forall l | l in u.publishedLinks
      ensures PublishedLinkHolds(reg, u, l)
      ensures l in s.draftLinks ==> l in u.draftLinks
    {
      OthersStillHold(reg, s, u, d, cells, l);
      OwnedByMirrored(reg, s, l);
    }
    SoundParts(reg, s);
    OutwardShrinks(reg, s, u);
    Assemble(reg, u);
  }

  lemma OwnedByMirrored(reg: SchemaRegistry, s: Tables, l: Link)
    requires Sound(reg, s) && l in s.publishedLinks
    ensures HasMirror(reg, l.ownerType) && TargetType(reg, l).Some?
  {
    hide Working, HasMirror, Outward;
    assert PublishedLinkHolds(reg, s, l);
  }

  lemma DraftKeepsSound(reg: SchemaRegistry, s: Tables, u: Tables, d: Document, cells: Cells)
    requires Sound(reg, s) && Midway(reg, s, u, d, cells) && HasMirror(reg, d.typeId) && d.state.Draft?
    ensures Sound(reg, WithoutMirror(reg, u, KeyOf(d)))
  {
    hide Sound, Working, Outward, HasMirror, Wants, TargetType, PointsAt, Locks;
    var w := WithoutMirror(reg, u, KeyOf(d));
    forall l | l in w.publishedLinks
      ensures PublishedLinkHolds(reg, w, l)
      ensures l in s.draftLinks ==> l in w.draftLinks
    {
      OthersStillHold(reg, s, u, d, cells, l);
      StillHoldsUnpublished(reg, u, KeyOf(d), l);
    }
    hide PublishedLinkHolds, LeansOnMirror;
    SoundParts(reg, s);
    OutwardShrinks(reg, s, w);
    Assemble(reg, w);
  }

  lemma StillHoldsUnpublished(reg: SchemaRegistry, u: Tables, k: Key, l: Link)
    requires PublishedLinkHolds(reg, u, l) && l in WithoutMirror(reg, u, k).publishedLinks
    ensures PublishedLinkHolds(reg, WithoutMirror(reg, u, k), l) && OwnerKey(l) != k
  {
    hide HasMirror;
  }

  lemma FewerLocks(locked: set<string>, fewer: set<string>, dt: DocumentType, a: Cells, b: Cells)
    requires Compatible(locked, dt, a, b) && fewer <= locked
    ensures Compatible(fewer, dt, a, b)
  {
  }

  /** In a sound store the mirror never refuses what the working table took, as long as it
      has no column locked that the working table has not. */
  lemma MirrorTakesIt(reg: SchemaRegistry, s: Tables, u: Tables, dt: DocumentType, d: Document, cells: Cells)
    requires Sound(reg, s) && Midway(reg, s, u, d, cells) && reg.FindType(d.typeId) == Some(dt)
    requires RowLocks(s.live, dt, true) <= RowLocks(s.live, dt, false)
    requires RowAllowed(RowLocks(s.live, dt, false), dt, KeyOf(d), cells, EntityCells(s.entities))
    ensures RowAllowed(RowLocks(s.live, dt, true), dt, KeyOf(d), cells, MirrorCells(u.mirrors))
  {
    hide Working, Outward, HasMirror, NotNull, Compatible, PublishedLinkHolds, RowLocks, Locks;
    var k, rows := KeyOf(d), MirrorCells(u.mirrors);
    forall o | o in rows && o.typeId == k.typeId && o != k
      ensures Compatible(RowLocks(s.live, dt, true), dt, rows[o], cells)
    {
      assert o in EntityCells(s.entities) && EntityCells(s.entities)[o] == rows[o];
      FewerLocks(RowLocks(s.live, dt, false), RowLocks(s.live, dt, true), dt, rows[o], cells);
    }
  }

  lemma PublicWants(reg: SchemaRegistry, s: Tables, d: Document, l: Link)
    requires StoreReady(reg) && WantsPublic(reg, s, reg.relations, d, l)
    requires HasMirror(reg, d.typeId) && KeyOf(d) in s.mirrors
    ensures PublishedLinkHolds(reg, s, l)
    ensures Followed(reg, s.live, l) ==> Wants(Locks(reg, s.live, false), reg.relations, d, l)
  {
    hide Locks;
    var r :| r in reg.relations && r.ownerType == d.typeId && l in LinksFor(Locks(reg, s.live, true), r, d)
             && PublicTargetsExist(reg, s, r, d);
    TargetTypeOf(reg, r, l);
    if Followed(reg, s.live, l) {
      LinksFollow(Locks(reg, s.live, true), Locks(reg, s.live, false), r, d);
    }
  }

  lemma LinksFollow(public: set<Relation>, draft: set<Relation>, r: Relation, d: Document)
    requires r in draft ==> r in public
    ensures LinksFor(public, r, d) <= LinksFor(draft, r, d)
  {
  }

  /** What a published save makes of the store that its working part left. */
  function AfterPublished(reg: SchemaRegistry, u: Tables, d: Document, cells: Cells): Tables
    requires d.state.Published?
  {
    var v := WithMirror(u, d, cells);
    v.(publishedLinks := RelinkedPublic(reg, v, reg.relations, d, v.publishedLinks))
  }

  lemma PublicLinksSaved(reg: SchemaRegistry, s: Tables, u: Tables, d: Document, cells: Cells)
    requires StoreReady(reg) && Sound(reg, s) && Midway(reg, s, u, d, cells)
    requires HasMirror(reg, d.typeId) && d.state.Published?
    ensures var w := AfterPublished(reg, u, d, cells);
            forall l | l in w.publishedLinks ::
              PublishedLinkHolds(reg, w, l) && (Followed(reg, s.live, l) ==> l in w.draftLinks)
  {
    hide Sound, Midway, HasMirror, RelinkedPublic, StoreReady, PublishedLinkHolds, Followed;
    var v, w := WithMirror(u, d, cells), AfterPublished(reg, u, d, cells);
    forall l | l in w.publishedLinks
      ensures PublishedLinkHolds(reg, w, l)
      ensures Followed(reg, s.live, l) ==> l in w.draftLinks
    {
      PublishedLinkSaved(reg, s, u, d, cells, l);
      SameLinkHolds(reg, v, w, l);
    }
  }

  lemma MidwayParts(reg: SchemaRegistry, s: Tables, u: Tables, d: Document, cells: Cells)
    requires Midway(reg, s, u, d, cells)
    ensures u.live == s.live && u.mirrors == s.mirrors && u.publishedLinks == s.publishedLinks
    ensures Working(reg, u.live, u.entities, u.draftLinks)
    ensures KeyOf(d) in u.entities && u.entities[KeyOf(d)] == EntityRowOf(d, cells, CreatedAt(s, d))
    ensures forall k | k in s.entities :: k in u.entities && (k != KeyOf(d) ==> u.entities[k] == s.entities[k])
    ensures forall k | k in u.entities && k != KeyOf(d) :: k in s.entities
  {
    hide Working, Wants, TargetType, Locks, EntityRowOf, CreatedAt;
  }

  lemma AgreementSaved(reg: SchemaRegistry, s: Tables, w: Tables, k: Key, row: EntityRow, m: MirrorRow)
    requires Agreement(reg, s) && (forall o | o in s.mirrors :: o in s.entities)
    requires HasMirror(reg, k.typeId) && row.published
    requires m.cells == row.cells && m.ownerId == row.ownerId && m.updatedAt == row.updatedAt
    requires w.mirrors == s.mirrors[k := m] && k in w.entities && w.entities[k] == row
    requires forall o | o in s.entities :: o in w.entities && (o != k ==> w.entities[o] == s.entities[o])
    requires forall o | o in w.entities && o != k :: o in s.entities
    ensures Agreement(reg, w) && forall o | o in w.mirrors :: o in w.entities
  {
    hide HasMirror;
  }

  lemma MirrorCellsWithRow(mirrors: map<Key, MirrorRow>, k: Key, m: MirrorRow)
    ensures MirrorCells(mirrors[k := m]) == MirrorCells(mirrors)[k := m.cells]
  {
  }

  lemma RowsAgree(s: Tables, u: Tables, d: Document, cells: Cells)
    requires d.state.Published?
    ensures var row, m := EntityRowOf(d, cells, CreatedAt(s, d)), MirrorRowOf(d, cells, MirrorCreatedAt(u, d));
            && row.published && m.cells == row.cells == cells && m.ownerId == row.ownerId
               && m.updatedAt == row.updatedAt
  {
    hide Micros, OwnerId;
  }

  lemma PublishedRows(reg: SchemaRegistry, s: Tables, u: Tables, d: Document, cells: Cells)
    requires Sound(reg, s) && Midway(reg, s, u, d, cells) && HasMirror(reg, d.typeId) && d.state.Published?
    ensures var w := AfterPublished(reg, u, d, cells);
            && Agreement(reg, w) && (forall k | k in w.mirrors :: k in w.entities)
            && MirrorCells(w.mirrors) == MirrorCells(s.mirrors)[KeyOf(d) := cells]
            && w.live == s.live && Working(reg, w.live, w.entities, w.draftLinks)
            && w.publishedLinks == RelinkedPublic(reg, WithMirror(u, d, cells), reg.relations, d, s.publishedLinks)
  {
    hide Sound, Midway, Working, Outward, Agreement, HasMirror, RelinkedPublic, MirrorCells, EntityRowOf, MirrorRowOf,
         CreatedAt, MirrorCreatedAt;
    SoundParts(reg, s);
    MidwayParts(reg, s, u, d, cells);
    var row, m := EntityRowOf(d, cells, CreatedAt(s, d)), MirrorRowOf(d, cells, MirrorCreatedAt(u, d));
    RowsAgree(s, u, d, cells);
    MirrorCellsWithRow(s.mirrors, KeyOf(d), m);
    AgreementSaved(reg, s, AfterPublished(reg, u, d, cells), KeyOf(d), row, m);
  }

  lemma PublishedKeepsSound(reg: SchemaRegistry, s: Tables, u: Tables, dt: DocumentType, d: Document, cells: Cells)
    requires StoreReady(reg) && Sound(reg, s) && Midway(reg, s, u, d, cells)
    requires HasMirror(reg, d.typeId) && d.state.Published? && reg.FindType(d.typeId) == Some(dt)
    requires RowAllowed(RowLocks(s.live, dt, true), dt, KeyOf(d), cells, MirrorCells(s.mirrors))
    ensures Sound(reg, AfterPublished(reg, u, d, cells))
  {
    var w := AfterPublished(reg, u, d, cells);
    hide Sound, Working, Outward, Agreement, HasMirror, RelinkedPublic, StoreReady, PublishedLinkHolds, Followed,
         Midway, RowAllowed, RowLocks, MirrorCells, MirrorRowOf, EntityRowOf, MirrorCreatedAt, CreatedAt;
    PublicLinksSaved(reg, s, u, d, cells);
    PublishedRows(reg, s, u, d, cells);
    SoundParts(reg, s);
    hide AfterPublished;
    assert WithMirror(u, d, cells).live == s.live by { MidwayParts(reg, s, u, d, cells); }
    OutwardSaved(reg, s, WithMirror(u, d, cells), w, dt, d, cells);
    Assemble(reg, w);
  }

  lemma OutwardSaved(reg: SchemaRegistry, s: Tables, v: Tables, w: Tables, dt: DocumentType, d: Document, cells: Cells)
    requires StoreReady(reg) && Outward(reg, s) && reg.FindType(d.typeId) == Some(dt)
    requires RowAllowed(RowLocks(s.live, dt, true), dt, KeyOf(d), cells, MirrorCells(s.mirrors))
    requires v.live == w.live == s.live && MirrorCells(w.mirrors) == MirrorCells(s.mirrors)[KeyOf(d) := cells]
    requires w.publishedLinks == RelinkedPublic(reg, v, reg.relations, d, s.publishedLinks)
    requires forall l | l in w.publishedLinks && Followed(reg, w.live, l) :: l in w.draftLinks
    ensures Outward(reg, w)
  {
    hide RelinkedPublic, StoreReady, Followed, RowAllowed, RowLocks, Locks, RowsCompatible, OneTarget;
    OnePublicTargetSaved(reg, v, d, s.publishedLinks);
    NewRowCompatible(reg, s.live, true, dt, KeyOf(d), cells, MirrorCells(s.mirrors));
  }

  lemma SameLinkHolds(reg: SchemaRegistry, v: Tables, w: Tables, l: Link)
    requires PublishedLinkHolds(reg, v, l) && v.entities == w.entities && v.mirrors == w.mirrors
    ensures PublishedLinkHolds(reg, w, l)
  {
  }

  lemma WantedLinkSaved(reg: SchemaRegistry, s: Tables, u: Tables, v: Tables, d: Document, cells: Cells, l: Link)
    requires StoreReady(reg) && Midway(reg, s, u, d, cells) && HasMirror(reg, d.typeId)
    requires v.live == s.live && KeyOf(d) in v.mirrors && WantsPublic(reg, v, reg.relations, d, l)
    ensures PublishedLinkHolds(reg, v, l)
    ensures Followed(reg, s.live, l) ==> l in u.draftLinks
  {
    hide Working, HasMirror, StoreReady, Locks, Wants, WantsPublic, Followed, TargetType, EntityRowOf;
    PublicWants(reg, v, d, l);
  }

  lemma OtherLinkSaved(reg: SchemaRegistry, s: Tables, u: Tables, d: Document, cells: Cells, l: Link)
    requires Sound(reg, s) && Midway(reg, s, u, d, cells) && d.state.Published?
    requires l in u.publishedLinks && !Replaces(reg.relations, d, l)
    ensures PublishedLinkHolds(reg, WithMirror(u, d, cells), l)
    ensures Followed(reg, s.live, l) ==> l in u.draftLinks
  {
    OthersStillHold(reg, s, u, d, cells, l);
    OwnedByMirrored(reg, s, l);
    StillReplaced(reg, d, l);
    hide Working, HasMirror, Locks, Replaces, Followed, TargetType, RowsCompatible, OneTarget, EntityRowOf, Wants;
  }

  lemma PublishedLinkSaved(reg: SchemaRegistry, s: Tables, u: Tables, d: Document, cells: Cells, l: Link)
    requires StoreReady(reg) && Sound(reg, s) && Midway(reg, s, u, d, cells)
    requires HasMirror(reg, d.typeId) && d.state.Published?
    requires l in RelinkedPublic(reg, WithMirror(u, d, cells), reg.relations, d, u.publishedLinks)
    ensures PublishedLinkHolds(reg, WithMirror(u, d, cells), l)
    ensures Followed(reg, s.live, l) ==> l in u.draftLinks
  {
    var v := WithMirror(u, d, cells);
    assert v.live == s.live && OneTableEach(reg.relations);
    hide RelinkedPublic, Sound, Midway, HasMirror, StoreReady, Locks, WantsPublic, Replaces, Followed,
         PublishedLinkHolds, OneTableEach;
    RelinkedPublicMember(reg, v, reg.relations, d, u.publishedLinks, l);
    if WantsPublic(reg, v, reg.relations, d, l) {
      WantedLinkSaved(reg, s, u, v, d, cells, l);
    } else {
      OtherLinkSaved(reg, s, u, d, cells, l);
    }
  }

  lemma StillReplaced(reg: SchemaRegistry, d: Document, l: Link)
    requires TargetType(reg, l).Some?
    ensures OwnerKey(l) == KeyOf(d) <==> Replaces(reg.relations, d, l)
  {
  }

  lemma SaveKeepsSound(reg: SchemaRegistry, mode: LinkFailure, s: Tables, d: Document)
    requires StoreReady(reg) && Sound(reg, s)
    ensures Sound(reg, Save(reg, mode, s, d).tables)
  {
    hide Sound, RowAllowed, RowLocks, Locks, CellsOf, DraftTargetsExist, Relinked, RelinkedPublic, Midway,
         TransactionAfter, StoreReady;
    assert Working(reg, s.live, s.entities, s.draftLinks) by { SoundIsWorking(reg, s); }
    var found := reg.FindType(d.typeId);
    if found.Some? && CellsOf(found.value.fields, d.fields).Ok? {
      var dt, cells := found.value, CellsOf(found.value.fields, d.fields).value;
      if RowAllowed(RowLocks(s.live, dt, false), dt, KeyOf(d), cells, EntityCells(s.entities))
         && forall r | r in reg.relations && r.ownerType == d.typeId ::
              DraftTargetsExist(Locks(reg, s.live, false), WithEntity(s, d, cells), r, d) {
        SaveReachesMidway(reg, s, dt, d, cells);
        var u := AfterWorkingPart(reg, s, d, cells);
        if !dt.draftAndPublish {
          PlainTypeKeepsSound(reg, s, u, d, cells);
        } else if d.state.Draft? {
          DraftKeepsSound(reg, s, u, d, cells);
        } else if RowAllowed(RowLocks(s.live, dt, true), dt, KeyOf(d), cells, MirrorCells(s.mirrors)) {
          PublishedKeepsSound(reg, s, u, dt, d, cells);
        }
      }
    }
  }

  lemma SoundIsWorking(reg: SchemaRegistry, s: Tables)
    requires Sound(reg, s)
    ensures Working(reg, s.live, s.entities, s.draftLinks)
  {
    hide Working, Intact, Agreement, Outward;
  }

  // ----- runs ----------------------------------------------------------------------------------------

  datatype Command = SaveIt(d: Document) | DeleteIt(k: Key)

  function Step(reg: SchemaRegistry, mode: LinkFailure, s: Tables, c: Command): Tables {
    match c
    case SaveIt(d) => Save(reg, mode, s, d).tables
    case DeleteIt(k) => if reg.FindType(k.typeId).Some? then WithoutEntity(reg, s, k) else s
  }

  lemma StepKeepsSound(reg: SchemaRegistry, mode: LinkFailure, s: Tables, c: Command)
    requires StoreReady(reg) && Sound(reg, s)
    ensures Sound(reg, Step(reg, mode, s, c))
  {
    hide Sound, Save, WithoutEntity, StoreReady;
    match c
    case SaveIt(d) => SaveKeepsSound(reg, mode, s, d);
    case DeleteIt(k) => DeleteKeepsSound(reg, s, k);
  }

  /** The commands one after the other, from a store that may hold documents already. */
  function Run(reg: SchemaRegistry, mode: LinkFailure, s: Tables, cs: seq<Command>): Tables {
    if cs == [] then s else Step(reg, mode, Run(reg, mode, s, cs[..|cs| - 1]), cs[|cs| - 1])
  }

  /** The start: no documents, whatever indexes are live. */
  lemma EmptyIsSound(reg: SchemaRegistry, live: set<Guard>)
    ensures Sound(reg, Empty(live))
  {
  }

  lemma SameIndexes(reg: SchemaRegistry, mode: LinkFailure, s: Tables, c: Command)
    ensures Step(reg, mode, s, c).live == s.live
  {
    hide CellsOf, Relinked, RelinkedPublic, RowAllowed, RowLocks, Locks, DraftTargetsExist, TransactionAfter,
         PointsAt, LeansOnMirror, EntityRowOf, MirrorRowOf;
  }

  /** Every store reached from a sound one, such as the empty one, whatever is saved and
      deleted, whatever a failed published-link insert does to its transaction, and whichever
      unique indexes are live. */
  lemma {:induction false} ReachableIsSound(reg: SchemaRegistry, mode: LinkFailure, s: Tables, cs: seq<Command>)
    requires StoreReady(reg) && Sound(reg, s)
    ensures Sound(reg, Run(reg, mode, s, cs)) && Run(reg, mode, s, cs).live == s.live
  {
    if cs != [] {
      var n := |cs| - 1;
      hide Sound, Step, StoreReady;
      ReachableIsSound(reg, mode, s, cs[..n]);
      StepKeepsSound(reg, mode, Run(reg, mode, s, cs[..n]), cs[n]);
      SameIndexes(reg, mode, Run(reg, mode, s, cs[..n]), cs[n]);
    }
  }

  /** The public filter: a published link leads from a published document to one that is
      published too, or whose type is never published. It is one of the working links, unless
      the working links of its relation are held to one target and the published ones are
      not. */
  lemma PublicFilter(reg: SchemaRegistry, mode: LinkFailure, s: Tables, cs: seq<Command>, l: Link)
    requires StoreReady(reg) && Sound(reg, s) && l in Run(reg, mode, s, cs).publishedLinks
    ensures var after := Run(reg, mode, s, cs);
            && OwnerKey(l) in after.entities && after.entities[OwnerKey(l)].published
            && TargetType(reg, l).Some?
            && (var target := Key(TargetType(reg, l).value, l.target);
                target in after.entities && (HasMirror(reg, target.typeId) ==> after.entities[target].published))
            && (Followed(reg, s.live, l) ==> l in after.draftLinks)
  {
    ReachableIsSound(reg, mode, s, cs);
    hide Run, Working, HasMirror, Locks, RowsCompatible, OneTarget, Followed;
    assert PublishedLinkHolds(reg, Run(reg, mode, s, cs), l);
  }

  /** A mirror row exists exactly for the documents that say they are published, and shows
      their attributes; so no run can leave a published document without its public row,
      or a public row behind. */
  lemma MirrorAgreement(reg: SchemaRegistry, mode: LinkFailure, s: Tables, cs: seq<Command>, k: Key)
    requires StoreReady(reg) && Sound(reg, s) && HasMirror(reg, k.typeId)
    ensures var after := Run(reg, mode, s, cs);
            && (k in after.mirrors <==> k in after.entities && after.entities[k].published)
            && (k in after.mirrors ==> after.mirrors[k].cells == after.entities[k].cells)
  {
    ReachableIsSound(reg, mode, s, cs);
    hide Run, Working, HasMirror, Outward;
  }

  /** Two rows of one table never agree in a locked column: a table whose singleton column
      is locked has one row at most, and a locked attribute that is not null tells rows
      apart. */
  lemma LockedStaysUnique(reg: SchemaRegistry, mode: LinkFailure, s: Tables, cs: seq<Command>, k: Key, o: Key)
    requires StoreReady(reg) && Sound(reg, s) && k.typeId == o.typeId && k != o
    requires k in Run(reg, mode, s, cs).entities && o in Run(reg, mode, s, cs).entities
    ensures reg.FindType(k.typeId).Some?
    ensures var dt, rows := reg.FindType(k.typeId).value, Run(reg, mode, s, cs).entities;
            && SINGLETON_COLUMN !in RowLocks(s.live, dt, false)
            && forall f | f in dt.fields && Naming.KebabToSnake(f.id) in RowLocks(s.live, dt, false) ::
                 && f.id in rows[k].cells && f.id in rows[o].cells
                 && (rows[k].cells[f.id] == rows[o].cells[f.id] ==> rows[k].cells[f.id].IsNull())
  {
    ReachableIsSound(reg, mode, s, cs);
    hide Run, Intact, Agreement, Outward, NotNull, RowLocks, OneTarget, Locks, StoredCell;
    var rows := Run(reg, mode, s, cs).entities;
    assert RowHolds(reg, k, rows[k].cells) && RowHolds(reg, o, rows[o].cells);
    assert k in EntityCells(rows) && o in EntityCells(rows);
  }

  /** The tables with one unique index less. */
  function Unlocked(s: Tables, table: string, column: string): Tables { s.(live := s.live - {Guard(table, column)}) }

  lemma WithoutGuard(s: Tables, table: string, column: string)
    ensures column in Locked(s.live, table) <==> Guard(table, column) in s.live
    ensures Guard(table, column) !in s.live ==> Unlocked(s, table, column) == s
  {
    if Guard(table, column) in s.live {
      assert Guard(table, column).column in Locked(s.live, table);
    }
  }

  lemma RefusedRow(reg: SchemaRegistry, mode: LinkFailure, s: Tables, dt: DocumentType, d: Document, o: Key)
    requires o in s.entities && o.typeId == d.typeId && o != KeyOf(d) && reg.FindType(d.typeId) == Some(dt)
    requires CellsOf(dt.fields, d.fields).Ok? ==>
               !Compatible(RowLocks(s.live, dt, false), dt, s.entities[o].cells, CellsOf(dt.fields, d.fields).value)
    ensures Save(reg, mode, s, d).result.Err? && Save(reg, mode, s, d).tables == s
  {
    hide CellsOf, DraftTargetsExist, AfterPublicPart, NotNull, Compatible, RowLocks, Locks;
    var rows := EntityCells(s.entities);
    assert o in rows && rows[o] == s.entities[o].cells;
    if CellsOf(dt.fields, d.fields).Ok? {
      assert !RowAllowed(RowLocks(s.live, dt, false), dt, KeyOf(d), CellsOf(dt.fields, d.fields).value, rows);
    }
  }

  /** A second document of a singleton type, one that would be saved if no index spoke
      against it: it is refused, and nothing changes, exactly when the singleton's index is
      live. It is never merged into the first: only the id is a conflict target. */
  lemma SecondSingletonIffUnlocked(reg: SchemaRegistry, mode: LinkFailure, s: Tables, dt: DocumentType, d: Document,
                                   o: Key)
    requires o in s.entities && o.typeId == d.typeId && o != KeyOf(d) && reg.FindType(d.typeId) == Some(dt)
    requires Save(reg, mode, Unlocked(s, dt.TableName(), SINGLETON_COLUMN), d).result.Ok?
    ensures Save(reg, mode, s, d).result.Ok? <==> SINGLETON_COLUMN !in RowLocks(s.live, dt, false)
    ensures Save(reg, mode, s, d).result.Err? ==> Save(reg, mode, s, d).tables == s
  {
    WithoutGuard(s, dt.TableName(), SINGLETON_COLUMN);
    if SINGLETON_COLUMN in RowLocks(s.live, dt, false) {
      RefusedRow(reg, mode, s, dt, d, o);
    }
  }

  /** The same for a value that another document already has in a unique attribute. */
  lemma DuplicateIffUnlocked(reg: SchemaRegistry, mode: LinkFailure, s: Tables, dt: DocumentType, d: Document, o: Key,
                             f: FieldDefinition, v: SqlValue)
    requires o in s.entities && o.typeId == d.typeId && o != KeyOf(d) && reg.FindType(d.typeId) == Some(dt)
    requires f in dt.fields && DistinctFields(dt.fields)
    requires Cell(d.fields, f) == Ok(v) && f.id in s.entities[o].cells && s.entities[o].cells[f.id] == v && !v.IsNull()
    requires Save(reg, mode, Unlocked(s, dt.TableName(), Naming.KebabToSnake(f.id)), d).result.Ok?
    ensures Save(reg, mode, s, d).result.Ok? <==> Naming.KebabToSnake(f.id) !in RowLocks(s.live, dt, false)
    ensures Save(reg, mode, s, d).result.Err? ==> Save(reg, mode, s, d).tables == s
  {
    hide Save, Cell, DistinctFields;
    WithoutGuard(s, dt.TableName(), Naming.KebabToSnake(f.id));
    if Naming.KebabToSnake(f.id) in RowLocks(s.live, dt, false) {
      CellsAre(dt.fields, d.fields);
      hide CellsOf, RowLocks;
      RefusedRow(reg, mode, s, dt, d, o);
    }
  }

  // ----- a save that is acknowledged and lost ----------------------------------------------------------

  ghost predicate Fails(reg: SchemaRegistry, s: Tables, r: Relation, d: Document) {
    r.ownerType == d.typeId && !PublicTargetsExist(reg, s, r, d)
  }

  ghost predicate FailsFirstAndLast(reg: SchemaRegistry, s: Tables, rs: seq<Relation>, d: Document, i: nat) {
    && i < |rs| && Fails(reg, s, rs[i], d)
    && (forall j | 0 <= j < i :: !Fails(reg, s, rs[j], d))
    && (forall j | i < j < |rs| :: rs[j].ownerType != d.typeId)
  }

  /** When a failed statement aborts its transaction, a save succeeds and keeps nothing
      exactly when the last relation the type owns is the first whose published links
      cannot be inserted. */
  lemma {:induction false} AbortedExactlyWhen(reg: SchemaRegistry, s: Tables, rs: seq<Relation>, d: Document)
    ensures TransactionAfter(reg, Abort, s, rs, d) == Aborted <==> exists i :: FailsFirstAndLast(reg, s, rs, d, i)
    ensures TransactionAfter(reg, Abort, s, rs, d) == Live <==> forall j | 0 <= j < |rs| :: !Fails(reg, s, rs[j], d)
  {
    hide PublicTargetsExist;
    if rs != [] {
      var n := |rs| - 1;
      AbortedExactlyWhen(reg, s, rs[..n], d);
      assert forall j | 0 <= j < n :: rs[..n][j] == rs[j];
      if rs[n].ownerType != d.typeId {
        assert forall i | 0 <= i < n :: FailsFirstAndLast(reg, s, rs, d, i) <==>
          FailsFirstAndLast(reg, s, rs[..n], d, i);
      } else {
        assert forall i | 0 <= i < n :: !FailsFirstAndLast(reg, s, rs, d, i);
        assert Fails(reg, s, rs[n], d) && TransactionAfter(reg, Abort, s, rs[..n], d) == Live ==>
                 FailsFirstAndLast(reg, s, rs, d, n);
      }
    }
  }
}
