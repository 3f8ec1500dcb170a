/** The tables that hold documents, their published mirrors and their links, and the
    transactions over them. */
module DocumentStore {
  import opened Wrappers
  import opened DomainSchema
  import opened Content
  import opened Codec
  import opened Instance
  import Naming

  datatype Key = Key(typeId: DocumentTypeId, id: DocumentId)

  /** A row of the link table of `(ownerType, attr)`. */
  datatype Link = Link(ownerType: DocumentTypeId, attr: AttributeId, owner: DocumentId, target: DocumentId)

  type Cells = map<AttributeId, SqlValue>

  datatype EntityRow = EntityRow(
    version: u32, ownerId: UserId, published: bool, createdAt: int, updatedAt: int, cells: Cells)

  datatype MirrorRow = MirrorRow(
    revision: u32, ownerId: UserId, createdAt: int, updatedAt: int, publishedAt: int, publishedBy: UserId, cells: Cells)

  /** A unique index on one column of one table. */
  datatype Guard = Guard(table: string, column: string)

  /** The rows, and the unique indexes that are live over them. Saving and deleting never
      changes the indexes: a synchronisation creates them, as a rule not the one that creates
      the table. */
  datatype Tables = Tables(
    live: set<Guard>,
    entities: map<Key, EntityRow>, mirrors: map<Key, MirrorRow>, draftLinks: set<Link>, publishedLinks: set<Link>)

  function Empty(live: set<Guard>): Tables { Tables(live, map[], map[], {}, {}) }

  /** What a registry must be for its tables to work; the builder's hypotheses give it. */
  ghost predicate StoreReady(reg: SchemaRegistry) {
    && DistinctTypes(reg.types)
    && (forall t | t in reg.types :: DistinctFields(t.fields))
    && (forall r | r in reg.relations :: reg.FindType(r.ownerType).Some? && reg.FindType(r.targetType).Some?)
    && (forall r, x | r in reg.relations && x in reg.relations && r.ownerType == x.ownerType
        && r.ownerAttr == x.ownerAttr ::
          r == x)
  }

  predicate DistinctFields(fs: seq<FieldDefinition>) {
    forall i, j | 0 <= i < j < |fs| :: fs[i].id != fs[j].id
  }

  predicate HasMirror(reg: SchemaRegistry, typeId: DocumentTypeId) {
    var dt := reg.FindType(typeId);
    dt.Some? && dt.value.draftAndPublish
  }

  // ----- rows ------------------------------------------------------------------------------

  function Cell(fields: Fields, f: FieldDefinition): Result<SqlValue, StorageError> {
    match ToSeaValue(ValueOf(fields, f.id), f.fieldType)
    case Ok(v) => Store(v, f.fieldType)
    case Err(e) => Err(e)
  }

  function CellsOf(fs: seq<FieldDefinition>, fields: Fields): Result<Cells, StorageError> {
    if fs == [] then Ok(map[])
    else
      var n := |fs| - 1;
      match (CellsOf(fs[..n], fields), Cell(fields, fs[n]))
      case (Ok(cells), Ok(v)) => Ok(cells[fs[n].id := v])
      case _ => Err(StorageError)
  }

  lemma {:induction false} CellsExist(fs: seq<FieldDefinition>, fields: Fields)
    ensures CellsOf(fs, fields).Ok? <==> forall f | f in fs :: Cell(fields, f).Ok?
  {
    hide Cell;
    if fs != [] {
      var n := |fs| - 1;
      CellsExist(fs[..n], fields);
      assert fs == fs[..n] + [fs[n]];
      assert fs[n] in fs;
    }
  }

  lemma {:induction false} CellsHold(fs: seq<FieldDefinition>, fields: Fields)
    requires DistinctFields(fs) && CellsOf(fs, fields).Ok?
    ensures forall a :: a in CellsOf(fs, fields).value <==> exists f | f in fs :: f.id == a
    ensures forall f | f in fs ::
            f.id in CellsOf(fs, fields).value && Cell(fields, f) == Ok(CellsOf(fs, fields).value[f.id])
  {
    hide Cell;
    if fs != [] {
      var n := |fs| - 1;
      assert forall f | f in fs[..n] :: f.id != fs[n].id;
      CellsHold(fs[..n], fields);
      hide DistinctFields;
      assert fs == fs[..n] + [fs[n]];
      assert fs[n] in fs;
    }
  }

  /** A row can be made when every attribute encodes and fits its column; it then has the
      declared attributes, each with its own value. */
  lemma CellsAre(fs: seq<FieldDefinition>, fields: Fields)
    requires DistinctFields(fs)
    ensures CellsOf(fs, fields).Ok? <==> forall f | f in fs :: Cell(fields, f).Ok?
    ensures CellsOf(fs, fields).Ok? ==>
              && (forall a :: a in CellsOf(fs, fields).value <==> exists f | f in fs :: f.id == a)
              && forall f | f in fs ::
                 f.id in CellsOf(fs, fields).value && Cell(fields, f) == Ok(CellsOf(fs, fields).value[f.id])
  {
    hide Cell, CellsOf, DistinctFields;
    CellsExist(fs, fields);
    if CellsOf(fs, fields).Ok? {
      CellsHold(fs, fields);
    }
  }

  function OwnerId(d: Document): UserId {
    match d.audit.createdBy
    case Some(user) => user
    case None => "system"
  }

  /** An existing row keeps the creation time it has. */
  function EntityRowOf(d: Document, cells: Cells, createdAt: int): EntityRow {
    EntityRow(d.audit.version, OwnerId(d), d.state.Published?, createdAt, Micros(d.audit.updatedAt), cells)
  }

  function MirrorRowOf(d: Document, cells: Cells, createdAt: int): MirrorRow
    requires d.state.Published?
  {
    MirrorRow(d.state.revision, OwnerId(d), createdAt, Micros(d.audit.updatedAt), Micros(d.state.publishedAt),
              match d.state.publishedBy { case Some(user) => user case None => OwnerId(d) }, cells)
  }

  function CreatedAt(s: Tables, d: Document): int {
    var k := KeyOf(d);
    if k in s.entities then s.entities[k].createdAt else Micros(d.audit.createdAt)
  }

  function MirrorCreatedAt(s: Tables, d: Document): int {
    var k := KeyOf(d);
    if k in s.mirrors then s.mirrors[k].createdAt else Micros(d.audit.createdAt)
  }

  function KeyOf(d: Document): Key { Key(d.typeId, d.id) }

  // ----- constraints of the entity and mirror tables ------------------------------------------

  predicate NotNull(dt: DocumentType, cells: Cells) {
    forall f | f in dt.fields && f.required :: f.id in cells && !cells[f.id].IsNull()
  }

  const SINGLETON_COLUMN := "_singleton"

  /** The columns of a table that have a live unique index. */
  function Locked(live: set<Guard>, table: string): set<string> { set g | g in live && g.table == table :: g.column }

  /** The locked columns of a type's working table, or of its mirror. */
  function RowLocks(live: set<Guard>, dt: DocumentType, mirror: bool): set<string> {
    Locked(live, if mirror then Naming.PublishedTableName(dt.TableName()) else dt.TableName())
  }

  /** Two rows of one table may both stand: they differ in every locked attribute that is
      not null, and the column that is the same in every row is not locked. */
  predicate Compatible(locked: set<string>, dt: DocumentType, a: Cells, b: Cells) {
    && SINGLETON_COLUMN !in locked
    && forall f | f in dt.fields && Naming.KebabToSnake(f.id) in locked
                  && f.id in a && f.id in b && !a[f.id].IsNull() ::
         a[f.id] != b[f.id]
  }

  predicate RowAllowed(locked: set<string>, dt: DocumentType, k: Key, cells: Cells, rows: map<Key, Cells>) {
    && NotNull(dt, cells)
    && forall o | o in rows && o.typeId == k.typeId && o != k :: Compatible(locked, dt, rows[o], cells)
  }

  function EntityCells(entities: map<Key, EntityRow>): map<Key, Cells> {
    map k | k in entities :: entities[k].cells
  }

  function MirrorCells(mirrors: map<Key, MirrorRow>): map<Key, Cells> {
    map k | k in mirrors :: mirrors[k].cells
  }

  // ----- links ------------------------------------------------------------------------------------

  predicate InTable(l: Link, r: Relation) { l.ownerType == r.ownerType && l.attr == r.ownerAttr }

  function LinkTable(owner: DocumentType, r: Relation, published: bool): string {
    var table := Naming.LinkTableName(owner.TableName(), r.ownerAttr);
    if published then Naming.PublishedLinkTableName(table) else table
  }

  /** The relations whose link table has a live unique index on its owner column. */
  function Locks(reg: SchemaRegistry, live: set<Guard>, published: bool): set<Relation> {
    set r | r in reg.relations && reg.FindType(r.ownerType).Some?
            && "owner_id" in Locked(live, LinkTable(reg.FindType(r.ownerType).value, r, published))
  }

  /** A locked table takes one target for an owner: the first is kept. */
  function Kept(locks: set<Relation>, r: Relation, targets: seq<DocumentId>): seq<DocumentId> {
    if r in locks && |targets| > 1 then targets[..1] else targets
  }

  function LinksFor(locks: set<Relation>, r: Relation, d: Document): set<Link> {
    set t | t in Kept(locks, r, TargetsOf(d.relations, r.ownerAttr)) :: Link(r.ownerType, r.ownerAttr, d.id, t)
  }

  predicate DraftTargetsExist(locks: set<Relation>, s: Tables, r: Relation, d: Document) {
    forall t | t in Kept(locks, r, TargetsOf(d.relations, r.ownerAttr)) :: Key(r.targetType, t) in s.entities
  }

  /** Where a published link may point: at a published document, or at any when the
      target's type is never published. */
  predicate PublicTarget(reg: SchemaRegistry, s: Tables, r: Relation, t: DocumentId) {
    if HasMirror(reg, r.targetType) then Key(r.targetType, t) in s.mirrors else Key(r.targetType, t) in s.entities
  }

  predicate PublicTargetsExist(reg: SchemaRegistry, s: Tables, r: Relation, d: Document) {
    forall t | t in Kept(Locks(reg, s.live, true), r, TargetsOf(d.relations, r.ownerAttr)) :: PublicTarget(reg, s, r, t)
  }

  function WithoutOwn(links: set<Link>, r: Relation, owner: DocumentId): set<Link> {
    set l | l in links && !(InTable(l, r) && l.owner == owner)
  }

  /** The links after those of the relations `d` owns are replaced. */
  function Relinked(locks: set<Relation>, rs: seq<Relation>, d: Document, links: set<Link>): set<Link> {
    if rs == [] then links
    else
      var n := |rs| - 1;
      var before := Relinked(locks, rs[..n], d, links);
      if rs[n].ownerType == d.typeId then WithoutOwn(before, rs[n], d.id) + LinksFor(locks, rs[n], d) else before
  }

  /** The same for published links: those of a relation are all inserted or none. */
  function RelinkedPublic(reg: SchemaRegistry, s: Tables, rs: seq<Relation>, d: Document, links: set<Link>): set<Link> {
    if rs == [] then links
    else
      var n := |rs| - 1;
      var before := RelinkedPublic(reg, s, rs[..n], d, links);
      if rs[n].ownerType != d.typeId then before
      else
        WithoutOwn(before, rs[n], d.id)
        + if PublicTargetsExist(reg, s, rs[n], d) then LinksFor(Locks(reg, s.live, true), rs[n], d) else {}
  }

  /** A failed statement either is skipped, or aborts its transaction: any later statement
      then fails, and a commit rolls back without an error. */
  datatype LinkFailure = Skip | Abort

  datatype Transaction = Live | Aborted | Failed

  function TransactionAfter(reg: SchemaRegistry, mode: LinkFailure, s: Tables, rs: seq<Relation>, d: Document):
    Transaction
  {
    if rs == [] then Live
    else
      var n := |rs| - 1;
      var before := TransactionAfter(reg, mode, s, rs[..n], d);
      if rs[n].ownerType != d.typeId then before
      else if before != Live then Failed
      else if mode.Skip? || PublicTargetsExist(reg, s, rs[n], d) then Live
      else Aborted
  }

  // ----- save and delete, as functions ----------------------------------------------------------------

  datatype Saved = Saved(tables: Tables, result: Result<(), StorageError>)

  function WithEntity(s: Tables, d: Document, cells: Cells): Tables {
    s.(entities := s.entities[KeyOf(d) := EntityRowOf(d, cells, CreatedAt(s, d))])
  }

  function WithMirror(s: Tables, d: Document, cells: Cells): Tables
    requires d.state.Published?
  {
    s.(mirrors := s.mirrors[KeyOf(d) := MirrorRowOf(d, cells, MirrorCreatedAt(s, d))])
  }

  /** A mirror row goes with the published links from it and to it. */
  function WithoutMirror(reg: SchemaRegistry, s: Tables, k: Key): Tables {
    s.(mirrors := s.mirrors - {k},
       publishedLinks := set l | l in s.publishedLinks && !LeansOnMirror(reg, l, k))
  }

  function TargetType(reg: SchemaRegistry, l: Link): Option<DocumentTypeId> {
    TargetTypeIn(reg.relations, l)
  }

  function TargetTypeIn(rs: seq<Relation>, l: Link): (t: Option<DocumentTypeId>)
    ensures t.Some? ==> exists r | r in rs :: InTable(l, r) && t == Some(r.targetType)
    ensures t.None? ==> forall r | r in rs :: !InTable(l, r)
  {
    if rs == [] then None
    else
      assert rs == [rs[0]] + rs[1..];
      if InTable(l, rs[0]) then Some(rs[0].targetType) else TargetTypeIn(rs[1..], l)
  }

  predicate PointsAt(reg: SchemaRegistry, l: Link, k: Key) {
    TargetType(reg, l) == Some(k.typeId) && l.target == k.id
  }

  predicate LeansOnMirror(reg: SchemaRegistry, l: Link, k: Key) {
    (l.ownerType == k.typeId && l.owner == k.id) || (HasMirror(reg, k.typeId) && PointsAt(reg, l, k))
  }

  /** A document goes with its mirror, its links, and the links to it. */
  function WithoutEntity(reg: SchemaRegistry, s: Tables, k: Key): Tables {
    Tables(
      s.live, s.entities - {k}, s.mirrors - {k},
      set l | l in s.draftLinks && !(l.ownerType == k.typeId && l.owner == k.id) && !PointsAt(reg, l, k),
      set l | l in s.publishedLinks && !(l.ownerType == k.typeId && l.owner == k.id) && !PointsAt(reg, l, k))
  }

  function AfterPublicPart(reg: SchemaRegistry, mode: LinkFailure, s: Tables, s2: Tables, dt: DocumentType, d: Document,
                           cells: Cells): Saved
  {
    if !dt.draftAndPublish then Saved(s2, Ok(()))
    else if d.state.Draft? then Saved(WithoutMirror(reg, s2, KeyOf(d)), Ok(()))
    else if !RowAllowed(RowLocks(s.live, dt, true), dt, KeyOf(d), cells, MirrorCells(s2.mirrors)) then
      Saved(s, Err(StorageError))
    else
      var s3 := WithMirror(s2, d, cells);
      match TransactionAfter(reg, mode, s3, reg.relations, d)
      case Live => Saved(s3.(publishedLinks := RelinkedPublic(reg, s3, reg.relations, d, s3.publishedLinks)), Ok(()))
      case Aborted => Saved(s, Ok(()))
      case Failed => Saved(s, Err(StorageError))
  }

  function Save(reg: SchemaRegistry, mode: LinkFailure, s: Tables, d: Document): Saved {
    match reg.FindType(d.typeId)
    case None => Saved(s, Err(StorageError))
    case Some(dt) =>
      match CellsOf(dt.fields, d.fields)
      case Err(e) => Saved(s, Err(e))
      case Ok(cells) =>
        if !RowAllowed(RowLocks(s.live, dt, false), dt, KeyOf(d), cells, EntityCells(s.entities)) then
          Saved(s, Err(StorageError))
        else
          var s1, locks := WithEntity(s, d, cells), Locks(reg, s.live, false);
          if exists r | r in reg.relations && r.ownerType == d.typeId :: !DraftTargetsExist(locks, s1, r, d)
          then Saved(s, Err(StorageError))
          else
            var s2 := s1.(draftLinks := Relinked(locks, reg.relations, d, s1.draftLinks));
            AfterPublicPart(reg, mode, s, s2, dt, d, cells)
  }

  // ----- reading one document back --------------------------------------------------------------------

  function FieldsOf(fs: seq<FieldDefinition>, cells: Cells): Result<Fields, StorageError> {
    if fs == [] then Ok(map[])
    else
      var n := |fs| - 1;
      if fs[n].id !in cells then Err(StorageError)
      else
        match (FieldsOf(fs[..n], cells), ReadContentValue(cells[fs[n].id], fs[n].fieldType))
        case (Ok(fields), Ok(v)) => Ok(fields[fs[n].id := v])
        case _ => Err(StorageError)
  }

  predicate IsLeast(m: DocumentId, ids: set<DocumentId>) { m in ids && forall x | x in ids :: m <= x }

  lemma {:induction false} LeastExists(ids: set<DocumentId>)
    requires ids != {}
    ensures exists m :: IsLeast(m, ids)
  {
    var y :| y in ids;
    var rest := ids - {y};
    if rest == {} {
      assert ids == {y};
      assert IsLeast(y, ids);
    } else {
      LeastExists(rest);
      var m :| IsLeast(m, rest);
      assert ids == rest + {y};
      assert IsLeast(if m <= y then m else y, ids);
    }
  }

  function Least(ids: set<DocumentId>): (m: DocumentId)
    requires ids != {}
    ensures IsLeast(m, ids)
  {
    LeastExists(ids);
    var m :| m in ids && IsLeast(m, ids);
    m
  }

  /** `ORDER BY target_id`. */
  function Ascending(ids: set<DocumentId>): (r: seq<DocumentId>)
    ensures forall x :: x in r <==> x in ids
    ensures IsAscending(r)
  {
    if ids == {} then []
    else
      var m := Least(ids);
      var rest := Ascending(ids - {m});
      assert forall i | 0 <= i < |rest| :: rest[i] in ids - {m};
      [m] + rest
  }

  predicate IsAscending(xs: seq<DocumentId>) { forall i, j | 0 <= i < j < |xs| :: xs[i] < xs[j] }

  function Targets(s: Tables, r: Relation, owner: DocumentId): seq<DocumentId> {
    Ascending(set l | l in s.draftLinks && InTable(l, r) && l.owner == owner :: l.target)
  }

  function RelationsOf(rs: seq<Relation>, s: Tables, k: Key): Relations {
    if rs == [] then map[]
    else
      var n := |rs| - 1;
      var before := RelationsOf(rs[..n], s, k);
      if rs[n].ownerType == k.typeId then before[rs[n].ownerAttr := Targets(s, rs[n], k.id)] else before
  }

  function StateOf(dt: DocumentType, s: Tables, k: Key): PublicationState
    requires k in s.entities
  {
    if s.entities[k].published && dt.draftAndPublish && k in s.mirrors then
      Published(s.mirrors[k].revision, s.mirrors[k].publishedAt, Some(s.mirrors[k].publishedBy))
    else Draft(None)
  }

  function Find(reg: SchemaRegistry, s: Tables, k: Key): Result<Option<Document>, StorageError> {
    match reg.FindType(k.typeId)
    case None => Err(StorageError)
    case Some(dt) =>
      if k !in s.entities then Ok(None)
      else
        var row := s.entities[k];
        match FieldsOf(dt.fields, row.cells)
        case Err(e) => Err(e)
        case Ok(fields) =>
          Ok(Some(Document(k.id, k.typeId, fields, StateOf(dt, s, k), RelationsOf(reg.relations, s, k),
                           AuditTrail(row.createdAt, Some(row.ownerId), row.updatedAt, Some(row.ownerId),
                                      row.version))))
  }

  // ----- the repository -----------------------------------------------------------------------------------

  /** Some document of the type is there. */
  predicate HasRows(s: Tables, typeId: DocumentTypeId) { exists k | k in s.entities :: k.typeId == typeId }

  class DocumentStore {
    const reg: SchemaRegistry
    const onLinkFailure: LinkFailure
    /** The unique indexes the database has. */
    const live: set<Guard>
    var entities: map<Key, EntityRow>
    var mirrors: map<Key, MirrorRow>
    var draftLinks: set<Link>
    var publishedLinks: set<Link>

    ghost function State(): Tables
      reads this
    {
      Tables(live, entities, mirrors, draftLinks, publishedLinks)
    }

    constructor (reg: SchemaRegistry, onLinkFailure: LinkFailure, live: set<Guard>)
      ensures this.reg == reg && this.onLinkFailure == onLinkFailure && State() == Empty(live)
    {
      this.reg, this.onLinkFailure, this.live := reg, onLinkFailure, live;
      entities, mirrors, draftLinks, publishedLinks := map[], map[], {}, {};
    }

    method Rollback(before: Tables)
      requires before.live == live
      modifies this
      ensures State() == before
    {
      entities, mirrors := before.entities, before.mirrors;
      draftLinks, publishedLinks := before.draftLinks, before.publishedLinks;
    }

    /** INSERT ... ON CONFLICT (id) DO UPDATE on the entity table. */
    method Upsert(dt: DocumentType, d: Document, cells: Cells) returns (ok: bool)
      modifies this`entities
      ensures ok <==> RowAllowed(RowLocks(live, dt, false), dt, KeyOf(d), cells, EntityCells(old(entities)))
      ensures State() == if ok then WithEntity(old(State()), d, cells) else old(State())
    {
      var k := KeyOf(d);
      ok := RowAllowed(RowLocks(live, dt, false), dt, k, cells, EntityCells(entities));
      if ok {
        var createdAt := if k in entities then entities[k].createdAt else Micros(d.audit.createdAt);
        entities := entities[k := EntityRowOf(d, cells, createdAt)];
      }
    }

    method PublishedUpsert(dt: DocumentType, d: Document, cells: Cells) returns (ok: bool)
      requires d.state.Published?
      modifies this`mirrors
      ensures ok <==> RowAllowed(RowLocks(live, dt, true), dt, KeyOf(d), cells, MirrorCells(old(mirrors)))
      ensures State() == if ok then WithMirror(old(State()), d, cells) else old(State())
    {
      var k := KeyOf(d);
      ok := RowAllowed(RowLocks(live, dt, true), dt, k, cells, MirrorCells(mirrors));
      if ok {
        var createdAt := if k in mirrors then mirrors[k].createdAt else Micros(d.audit.createdAt);
        mirrors := mirrors[k := MirrorRowOf(d, cells, createdAt)];
      }
    }

    /** The working links of every relation the document owns; false at the first target
        that does not exist. */
    method SaveDraftLinks(d: Document) returns (ok: bool)
      modifies this`draftLinks
      ensures ok <==> forall r | r in reg.relations && r.ownerType == d.typeId ::
                DraftTargetsExist(Locks(reg, live, false), old(State()), r, d)
      ensures ok ==>
                State() == old(State()).(draftLinks :=
                             Relinked(Locks(reg, live, false), reg.relations, d, old(draftLinks)))
    {
      hide Locks;
      var rs, locks := reg.relations, Locks(reg, live, false);
      for i := 0 to |rs|
        invariant draftLinks == Relinked(locks, rs[..i], d, old(draftLinks))
        invariant forall j | 0 <= j < i && rs[j].ownerType == d.typeId ::
                  DraftTargetsExist(locks, old(State()), rs[j], d)
      {
        assert rs[..i + 1][..i] == rs[..i];
        match rs[i].ViewFor(d.typeId) {
          case None =>
          case Some(InverseSide(_, _, _)) =>
          case Some(view) =>
            draftLinks := WithoutOwn(draftLinks, rs[i], d.id);
            var links := BatchInsert(locks, draftLinks, rs[i], d);
            if exists l | l in links - draftLinks :: Key(rs[i].targetType, l.target) !in entities {
              assert rs[i] in reg.relations && !DraftTargetsExist(locks, old(State()), rs[i], d);
              return false;
            }
            NewLinks(locks, draftLinks, rs[i], d);
            draftLinks := links;
        }
      }
      assert rs[..|rs|] == rs;
      return true;
    }

    /** The published links. An insert that fails is ignored by the caller's code; what it
        does to the transaction is the database's business. */
    method SavePublishedLinks(d: Document) returns (tx: Transaction)
      modifies this`publishedLinks
      ensures tx == TransactionAfter(reg, onLinkFailure, old(State()), reg.relations, d)
      ensures tx.Live? ==>
                State() == old(State()).(publishedLinks :=
                             RelinkedPublic(reg, old(State()), reg.relations, d, old(publishedLinks)))
    {
      hide Locks, WithoutOwn, LinksFor, PublicTargetsExist;
      var rs := reg.relations;
      ghost var s := State();
      tx := Live;
      for i := 0 to |rs|
        invariant tx == TransactionAfter(reg, onLinkFailure, s, rs[..i], d)
        invariant tx.Live? ==> publishedLinks == RelinkedPublic(reg, s, rs[..i], d, s.publishedLinks)
        invariant tx != Failed
      {
        assert rs[..i + 1][..i] == rs[..i];
        match rs[i].ViewFor(d.typeId) {
          case None =>
          case Some(InverseSide(_, _, _)) =>
          case Some(view) =>
            if tx.Aborted? {
              FailedStays(reg, onLinkFailure, s, rs, i + 1, d);
              return Failed;
            }
            var ok := ReplacePublished(rs[i], d);
            SamePublicTargets(reg, old(State()), State(), rs[i], d);
            if !ok && onLinkFailure.Abort? {
              tx := Aborted;
            }
        }
      }
      assert rs[..|rs|] == rs;
    }

    method ReplacePublished(r: Relation, d: Document) returns (ok: bool)
      modifies this`publishedLinks
      ensures ok <==> PublicTargetsExist(reg, State(), r, d)
      ensures publishedLinks == WithoutOwn(old(publishedLinks), r, d.id)
                                + if ok then LinksFor(Locks(reg, live, true), r, d) else {}
    {
      hide Locks;
      var locks := Locks(reg, live, true);
      publishedLinks := WithoutOwn(publishedLinks, r, d.id);
      var links := BatchInsert(locks, publishedLinks, r, d);
      NewLinks(locks, publishedLinks, r, d);
      ok := forall l | l in links - publishedLinks :: Public(r, l.target);
      if ok {
        publishedLinks := links;
      }
    }

    predicate Public(r: Relation, t: DocumentId)
      reads this
    {
      if HasMirror(reg, r.targetType) then Key(r.targetType, t) in mirrors else Key(r.targetType, t) in entities
    }

    method DeleteMirror(k: Key)
      modifies this`mirrors, this`publishedLinks
      ensures State() == WithoutMirror(reg, old(State()), k)
    {
      mirrors := mirrors - {k};
      publishedLinks := set l | l in publishedLinks && !LeansOnMirror(reg, l, k);
    }

    method SaveDocument(d: Document) returns (r: Result<(), StorageError>)
      modifies this
      ensures State() == Save(reg, onLinkFailure, old(State()), d).tables
      ensures r == Save(reg, onLinkFailure, old(State()), d).result
    {
      hide Relinked, RelinkedPublic, RowAllowed, RowLocks, Locks, DraftTargetsExist, TransactionAfter, WithoutMirror;
      var found := reg.FindType(d.typeId);
      if found.None? {
        return Err(StorageError);
      }
      var dt := found.value;
      var before := Tables(live, entities, mirrors, draftLinks, publishedLinks);

      // 1. The working row
      var built := BuildCells(dt, d.fields);
      if built.Err? {
        return Err(StorageError);
      }
      var ok := Upsert(dt, d, built.value);
      if !ok {
        return Err(StorageError);
      }

      // 2. Working links
      ok := SaveDraftLinks(d);
      if !ok {
        Rollback(before);
        return Err(StorageError);
      }

      // 3. The mirror and the published links
      if dt.draftAndPublish {
        match d.state {
          case Published(_, _, _) =>
            ok := PublishedUpsert(dt, d, built.value);
            if !ok {
              Rollback(before);
              return Err(StorageError);
            }
            var tx := SavePublishedLinks(d);
            match tx {
              case Live =>
              case Aborted =>
                Rollback(before);
              case Failed =>
                Rollback(before);
                return Err(StorageError);
            }
          case Draft(_) =>
            DeleteMirror(KeyOf(d));
        }
      }
      return Ok(());
    }

    /** One DELETE; the foreign keys take the rest along. */
    method DeleteDocument(k: Key) returns (r: Result<(), StorageError>)
      modifies this
      ensures r.Ok? <==> reg.FindType(k.typeId).Some?
      ensures State() == if r.Ok? then WithoutEntity(reg, old(State()), k) else old(State())
    {
      if reg.FindType(k.typeId).None? {
        return Err(StorageError);
      }
      entities := entities - {k};
      draftLinks := set l | l in draftLinks && !(l.ownerType == k.typeId && l.owner == k.id) && !PointsAt(reg, l, k);
      mirrors := mirrors - {k};
      publishedLinks :=
        set l | l in publishedLinks && !(l.ownerType == k.typeId && l.owner == k.id) && !PointsAt(reg, l, k);
      return Ok(());
    }

    method FindById(k: Key) returns (r: Result<Option<Document>, StorageError>)
      ensures r == Find(reg, State(), k)
    {
      var found := reg.FindType(k.typeId);
      if found.None? {
        return Err(StorageError);
      }
      var dt := found.value;
      if k !in entities {
        return Ok(None);
      }
      var row := entities[k];

      var fields := ReadFields(dt.fields, row.cells);
      if fields.Err? {
        return Err(StorageError);
      }
      var relations := ReadRelations(k);
      var state := Draft(None);
      if row.published && dt.draftAndPublish && k in mirrors {
        state := Published(mirrors[k].revision, mirrors[k].publishedAt, Some(mirrors[k].publishedBy));
      }
      return Ok(Some(Document(k.id, k.typeId, fields.value, state, relations,
                              AuditTrail(row.createdAt, Some(row.ownerId), row.updatedAt, Some(row.ownerId),
                                         row.version))));
    }

    method ReadRelations(k: Key) returns (relations: Relations)
      ensures relations == RelationsOf(reg.relations, State(), k)
    {
      var rs := reg.relations;
      relations := map[];
      for i := 0 to |rs|
        invariant relations == RelationsOf(rs[..i], State(), k)
      {
        assert rs[..i + 1][..i] == rs[..i];
        match rs[i].ViewFor(k.typeId) {
          case None =>
          case Some(InverseSide(_, _, _)) =>
          case Some(view) =>
            var targets := Ascending(set l | l in draftLinks && InTable(l, rs[i]) && l.owner == k.id :: l.target);
            relations := relations[rs[i].ownerAttr := targets];
        }
      }
      assert rs[..|rs|] == rs;
    }

    method ExistsForType(typeId: DocumentTypeId) returns (r: Result<bool, StorageError>)
      ensures r.Ok? <==> reg.FindType(typeId).Some?
      ensures r.Ok? ==> r.value == HasRows(State(), typeId)
    {
      if reg.FindType(typeId).None? {
        return Err(StorageError);
      }
      return Ok(exists k | k in entities :: k.typeId == typeId);
    }
  }

  lemma SamePublicTargets(reg: SchemaRegistry, s: Tables, u: Tables, r: Relation, d: Document)
    requires s.live == u.live && s.entities == u.entities && s.mirrors == u.mirrors
    ensures PublicTargetsExist(reg, s, r, d) <==> PublicTargetsExist(reg, u, r, d)
  {
  }

  method BuildCells(dt: DocumentType, fields: Fields) returns (r: Result<Cells, StorageError>)
    ensures r == CellsOf(dt.fields, fields)
  {
    hide Cell;
    var cells: Cells := map[];
    for i := 0 to |dt.fields|
      invariant CellsOf(dt.fields[..i], fields) == Ok(cells)
    {
      assert dt.fields[..i + 1][..i] == dt.fields[..i];
      var v := Cell(fields, dt.fields[i]);
      if v.Err? {
        BuildFails(dt.fields, fields, i + 1);
        return Err(StorageError);
      }
      cells := cells[dt.fields[i].id := v.value];
    }
    assert dt.fields[..|dt.fields|] == dt.fields;
    return Ok(cells);
  }

  method ReadFields(fs: seq<FieldDefinition>, cells: Cells) returns (r: Result<Fields, StorageError>)
    ensures r == FieldsOf(fs, cells)
  {
    hide ReadContentValue;
    var fields: Fields := map[];
    for i := 0 to |fs|
      invariant FieldsOf(fs[..i], cells) == Ok(fields)
    {
      assert fs[..i + 1][..i] == fs[..i];
      if fs[i].id !in cells {
        ReadFails(fs, cells, i + 1);
        return Err(StorageError);
      }
      var v := ReadContentValue(cells[fs[i].id], fs[i].fieldType);
      if v.Err? {
        ReadFails(fs, cells, i + 1);
        return Err(StorageError);
      }
      fields := fields[fs[i].id := v.value];
    }
    assert fs[..|fs|] == fs;
    return Ok(fields);
  }

  lemma {:induction false} BuildFails(fs: seq<FieldDefinition>, fields: Fields, i: nat)
    requires i <= |fs| && CellsOf(fs[..i], fields).Err?
    ensures CellsOf(fs, fields).Err?
    decreases |fs| - i
  {
    if i == |fs| {
      assert fs[..i] == fs;
    } else {
      assert fs[..i + 1][..i] == fs[..i];
      BuildFails(fs, fields, i + 1);
    }
  }

  lemma {:induction false} ReadFails(fs: seq<FieldDefinition>, cells: Cells, i: nat)
    requires i <= |fs| && FieldsOf(fs[..i], cells).Err?
    ensures FieldsOf(fs, cells).Err?
    decreases |fs| - i
  {
    if i == |fs| {
      assert fs[..i] == fs;
    } else {
      assert fs[..i + 1][..i] == fs[..i];
      ReadFails(fs, cells, i + 1);
    }
  }

  lemma {:induction false} FailedStays(
    reg: SchemaRegistry, mode: LinkFailure, s: Tables, rs: seq<Relation>, i: nat, d: Document)
    requires i <= |rs| && TransactionAfter(reg, mode, s, rs[..i], d) == Failed
    ensures TransactionAfter(reg, mode, s, rs, d) == Failed
    decreases |rs| - i
  {
    if i == |rs| {
      assert rs[..i] == rs;
    } else {
      assert rs[..i + 1][..i] == rs[..i];
      FailedStays(reg, mode, s, rs, i + 1, d);
    }
  }

  /** INSERT ... ON CONFLICT DO NOTHING, into a table cleared of the owner's links: a row
      that meets the primary key or a live unique index is passed over. */
  method BatchInsert(locks: set<Relation>, links: set<Link>, r: Relation, d: Document) returns (after: set<Link>)
    requires forall l | l in links && InTable(l, r) :: l.owner != d.id
    ensures after == links + LinksFor(locks, r, d)
  {
    var targets := TargetsOf(d.relations, r.ownerAttr);
    after := links;
    for i := 0 to |targets|
      invariant after == links + set t | t in Kept(locks, r, targets[..i]) :: Link(r.ownerType, r.ownerAttr, d.id, t)
    {
      var l := Link(r.ownerType, r.ownerAttr, d.id, targets[i]);
      assert targets[..i + 1] == targets[..i] + [targets[i]];
      var taken := exists o | o in after :: InTable(o, r) && o.owner == d.id;
      if i > 0 {
        assert targets[0] in Kept(locks, r, targets[..i]);
        assert Link(r.ownerType, r.ownerAttr, d.id, targets[0]) in after;
      }
      if l !in after && !(r in locks && taken) {
        after := after + {l};
      }
    }
    assert targets[..|targets|] == targets;
  }

  lemma NewLinks(locks: set<Relation>, links: set<Link>, r: Relation, d: Document)
    requires forall l | l in links && InTable(l, r) :: l.owner != d.id
    ensures links + LinksFor(locks, r, d) - links == LinksFor(locks, r, d)
    ensures forall t :: t in Kept(locks, r, TargetsOf(d.relations, r.ownerAttr)) <==>
                        Link(r.ownerType, r.ownerAttr, d.id, t) in LinksFor(locks, r, d)
  {
  }
}
