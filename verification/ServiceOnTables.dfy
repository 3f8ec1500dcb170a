/** The service over the SQL repository: what is safe on the port stays safe in the tables,
    exactly as far as the rules of the fields survive their columns. */
module ServiceOnTables {
  import opened Wrappers
  import opened DomainSchema
  import opened Content
  import opened Validator
  import opened Codec
  import opened Instance
  import opened DocumentStore
  import opened StoreInvariants
  import opened ReadBack
  import opened Survival
  import opened DocumentsService
  import ServiceRuns
  import WhatIsSaved

  /** Every owner's attribute resolves to its own relation. */
  ghost predicate OwnersResolve(reg: SchemaRegistry) {
    forall r | r in reg.relations :: reg.FindRelationForAttr(r.ownerType, r.ownerAttr) == Some(r)
  }

  // ----- one document ---------------------------------------------------------------------

  lemma AscendingIsDistinct(xs: seq<DocumentId>)
    requires IsAscending(xs)
    ensures NoDuplicates(xs)
  {
  }

  /** A has-one list has one target at most because the service gave it no more, whether or
      not the link table is locked. */
  lemma ListReadsBackSafe(reg: SchemaRegistry, locks: set<Relation>, r: Relation, d: Document, list: seq<DocumentId>)
    requires OwnersResolve(reg) && r in reg.relations && r.ownerType == d.typeId && RelationNormal(locks, r, d, list)
    requires ServiceRuns.RelationsHold(reg, d.typeId, d.relations)
    ensures ServiceRuns.ListHolds(reg, d.typeId, r.ownerAttr, list)
  {
    AscendingIsDistinct(list);
    if r.ownerKind.HasOne? {
      if r.ownerAttr in d.relations {
        assert ServiceRuns.ListHolds(reg, d.typeId, r.ownerAttr, d.relations[r.ownerAttr]);
      }
      var kept := Kept(locks, r, TargetsOf(d.relations, r.ownerAttr));
      assert |kept| <= 1;
      if kept == [] {
        ServiceRuns.FewElements(list, {});
      } else {
        assert kept == [kept[0]];
        ServiceRuns.FewElements(list, {kept[0]});
      }
    }
  }

  lemma FieldsReadBackValid(rules: Rules, dt: DocumentType, before: Fields, after: Fields)
    requires ContentValid(dt, before, rules) && FieldsNormal(dt.fields, before, after)
    requires forall f | f in dt.fields :: Survives(rules, f)
    ensures ContentValid(dt, after, rules)
  {
    hide Through, Survives, FieldValid;
    forall f | f in dt.fields ensures FieldValid(rules, f, ValueOf(after, f.id)) {
      SurvivesExactly(rules, f);
      assert ReadsBackValid(rules, f, ValueOf(before, f.id));
    }
  }

  /** A safe document reads back safe, if the rules of its fields survive their columns. */
  lemma NormalFormIsSafe(reg: SchemaRegistry, rules: Rules, s: Tables, d: Document, x: Document)
    requires OwnersResolve(reg) && ServiceRuns.DocumentHolds(reg, rules, KeyOf(d), d)
    requires NormalForm(reg, s, d, x) && forall f | f in reg.FindType(d.typeId).value.fields :: Survives(rules, f)
    ensures ServiceRuns.DocumentHolds(reg, rules, KeyOf(d), x)
  {
    hide OwnersResolve, Survives, FieldsNormal, ContentValid, RelationNormal, ServiceRuns.ListHolds, CreatedAt, Locks;
    FieldsReadBackValid(rules, reg.FindType(d.typeId).value, d.fields, x.fields);
    forall a | a in x.relations ensures ServiceRuns.ListHolds(reg, d.typeId, a, x.relations[a]) {
      var r :| r in reg.relations && r.ownerType == d.typeId && r.ownerAttr == a;
      ListReadsBackSafe(reg, Locks(reg, s.live, false), r, d, x.relations[a]);
    }
  }

  /** Losing a target keeps a list safe. */
  lemma ShorterListIsSafe(reg: SchemaRegistry, typeId: DocumentTypeId, r: Relation, k: Key, before: seq<DocumentId>,
                          after: seq<DocumentId>)
    requires ServiceRuns.ListHolds(reg, typeId, r.ownerAttr, before) && ListWithout(r, k, before, after)
    ensures ServiceRuns.ListHolds(reg, typeId, r.ownerAttr, after)
  {
    AscendingIsDistinct(after);
    if |before| <= 1 {
      ServiceRuns.ElementsOfDistinct(before);
      ServiceRuns.FewElements(after, Elements(before));
    }
  }

  lemma RelationsWithoutAreSafe(reg: SchemaRegistry, k: Key, d: Document, after: Relations)
    requires RelationsWithout(reg, k, d, after) && ServiceRuns.RelationsHold(reg, d.typeId, d.relations)
    ensures ServiceRuns.RelationsHold(reg, d.typeId, after)
  {
    hide ListWithout;
    forall a | a in after ensures ServiceRuns.ListHolds(reg, d.typeId, a, after[a]) {
      assert ServiceRuns.ListHolds(reg, d.typeId, a, d.relations[a]);
      var r := reg.FindRelationForAttr(d.typeId, a).value;
      assert r in reg.relations && r.ownerType == d.typeId && r.ownerAttr == a;
      ShorterListIsSafe(reg, d.typeId, r, k, d.relations[a], after[a]);
    }
  }

  // ----- the tables as the port shows them ------------------------------------------------------

  predicate Shows(reg: SchemaRegistry, s: Tables, k: Key) {
    var found := Find(reg, s, k);
    found.Ok? && found.value.Some?
  }

  /** The documents of the tables, each as a lookup returns it. */
  function Loaded(reg: SchemaRegistry, s: Tables): Documents {
    map k | k in s.entities && Shows(reg, s, k) :: Find(reg, s, k).value.value
  }

  ghost predicate Reads(reg: SchemaRegistry, rules: Rules, s: Tables, k: Key) {
    Shows(reg, s, k) && ServiceRuns.DocumentHolds(reg, rules, k, Find(reg, s, k).value.value)
  }

  /** The tables are sound, every row reads back as a safe document, and singletons are
      single: also where no index enforces it. */
  ghost predicate TablesSafe(reg: SchemaRegistry, rules: Rules, s: Tables) {
    && Sound(reg, s)
    && (forall k | k in s.entities :: Reads(reg, rules, s, k))
    && ServiceRuns.Singletons(reg, Loaded(reg, s))
  }

  lemma LoadedIsSafe(reg: SchemaRegistry, rules: Rules, s: Tables)
    requires TablesSafe(reg, rules, s)
    ensures ServiceRuns.Safe(reg, rules, Loaded(reg, s))
  {
    hide Find, Shows, Sound, ServiceRuns.DocumentHolds, ServiceRuns.Singletons;
    var docs := Loaded(reg, s);
    forall k | k in docs ensures ServiceRuns.DocumentHolds(reg, rules, k, docs[k]) {
      assert Reads(reg, rules, s, k);
    }
  }

  lemma EmptyIsTablesSafe(reg: SchemaRegistry, rules: Rules, live: set<Guard>)
    ensures TablesSafe(reg, rules, Empty(live))
  {
    hide Sound, Find;
    EmptyIsSound(reg, live);
  }

  /** The service's guard against a second singleton is what the repository answers for the
      type. */
  lemma SingletonGuardIsHasRows(reg: SchemaRegistry, rules: Rules, s: Tables, typeId: DocumentTypeId)
    requires TablesSafe(reg, rules, s)
    ensures Exists(Loaded(reg, s), typeId) <==> HasRows(s, typeId)
  {
    LoadedKeys(reg, rules, s);
    hide TablesSafe, Loaded;
    assert forall k :: k in Loaded(reg, s) <==> k in s.entities;
  }

  // ----- commands over the tables -----------------------------------------------------------------

  /** What a command asks of the repository, given the documents that the tables show. */
  function WriteOf(reg: SchemaRegistry, rules: Rules, docs: Documents, q: Request): Option<StoreInvariants.Command> {
    var after, k := Perform(reg, rules, docs, q).docs, ServiceRuns.Subject(q);
    if after == docs then None else if k in after then Some(SaveIt(after[k])) else Some(DeleteIt(k))
  }

  function Written(reg: SchemaRegistry, mode: LinkFailure, s: Tables, w: Option<StoreInvariants.Command>): Tables {
    match w
    case None => s
    case Some(c) => Step(reg, mode, s, c)
  }

  function StepOnTables(reg: SchemaRegistry, rules: Rules, mode: LinkFailure, s: Tables, q: Request): Tables {
    Written(reg, mode, s, WriteOf(reg, rules, Loaded(reg, s), q))
  }

  // ----- which types' rules survive ---------------------------------------------------------------

  ghost predicate Storable(rules: Rules, dt: DocumentType, fields: Fields) {
    ContentValid(dt, fields, rules) && CellsOf(dt.fields, fields).Ok?
  }

  /** Some content of the type is valid and accepted by its columns. */
  ghost predicate Creatable(rules: Rules, dt: DocumentType) { exists fields :: Storable(rules, dt, fields) }

  /** Of every type that can have documents at all, the rules of every field survive. */
  ghost predicate SchemaSurvives(reg: SchemaRegistry, rules: Rules) {
    forall t, f | t in reg.types && Creatable(rules, t) && f in t.fields :: Survives(rules, f)
  }

  lemma SavedIsStorable(reg: SchemaRegistry, rules: Rules, mode: LinkFailure, s: Tables, d: Document)
    requires Save(reg, mode, s, d).result.Ok? && ServiceRuns.DocumentHolds(reg, rules, KeyOf(d), d)
    ensures reg.FindType(d.typeId).Some? && Creatable(rules, reg.FindType(d.typeId).value)
  {
    hide CellsOf, ContentValid, ServiceRuns.RelationsHold, AfterPublicPart, RowAllowed, RowLocks, Locks,
         DraftTargetsExist;
    assert Storable(rules, reg.FindType(d.typeId).value, d.fields);
  }

  lemma SavedReads(reg: SchemaRegistry, rules: Rules, mode: LinkFailure, s: Tables, d: Document, k: Key)
    requires StoreReady(reg) && OwnersResolve(reg) && SchemaSurvives(reg, rules) && TablesSafe(reg, rules, s)
    requires ServiceRuns.DocumentHolds(reg, rules, KeyOf(d), d)
    requires k in Save(reg, mode, s, d).tables.entities
    ensures Reads(reg, rules, Save(reg, mode, s, d).tables, k)
  {
    hide StoreReady, OwnersResolve, Sound, Find, Save, ServiceRuns.DocumentHolds, ServiceRuns.Singletons, NormalForm,
         Survives, Creatable;
    var after := Save(reg, mode, s, d).tables;
    if k != KeyOf(d) {
      SaveFrame(reg, mode, s, d, k);
      OtherRows(reg, mode, s, d, k);
      assert Reads(reg, rules, s, k);
    } else if after == s {
      assert Reads(reg, rules, s, k);
    } else {
      FailedSaveChangesNothing(reg, mode, s, d);
      SavedIsStorable(reg, rules, mode, s, d);
      ReadAfterWrite(reg, mode, s, d);
      var x :| Find(reg, after, k) == Ok(Some(x)) && NormalForm(reg, s, d, x);
      NormalFormIsSafe(reg, rules, s, d, x);
    }
  }

  lemma OtherRows(reg: SchemaRegistry, mode: LinkFailure, s: Tables, d: Document, k: Key)
    requires k != KeyOf(d)
    ensures k in Save(reg, mode, s, d).tables.entities <==> k in s.entities
  {
    hide CellsOf, Relinked, RelinkedPublic, RowAllowed, DraftTargetsExist, TransactionAfter, EntityRowOf, MirrorRowOf,
         LeansOnMirror;
  }

  lemma LeftReads(reg: SchemaRegistry, rules: Rules, s: Tables, k: Key, o: Key)
    requires StoreReady(reg) && TablesSafe(reg, rules, s) && o in s.entities && o != k
    ensures Reads(reg, rules, WithoutEntity(reg, s, k), o)
  {
    hide StoreReady, Sound, Find, WithoutEntity, ValidFor, RelationsWithout, ServiceRuns.RelationsHold;
    assert Reads(reg, rules, s, o);
    DeleteFrame(reg, s, k, o);
    var before, after := Find(reg, s, o).value.value, Find(reg, WithoutEntity(reg, s, k), o).value.value;
    RelationsWithoutAreSafe(reg, k, before, after.relations);
  }

  lemma DeletedIsGone(reg: SchemaRegistry, s: Tables, k: Key, o: Key)
    requires o in WithoutEntity(reg, s, k).entities
    ensures o in s.entities && o != k
  {
  }

  lemma WriteReads(reg: SchemaRegistry, rules: Rules, mode: LinkFailure, s: Tables, c: StoreInvariants.Command, k: Key)
    requires StoreReady(reg) && OwnersResolve(reg) && SchemaSurvives(reg, rules) && TablesSafe(reg, rules, s)
    requires c.SaveIt? ==> ServiceRuns.DocumentHolds(reg, rules, KeyOf(c.d), c.d)
    requires k in Step(reg, mode, s, c).entities
    ensures Reads(reg, rules, Step(reg, mode, s, c), k)
  {
    hide StoreReady, OwnersResolve, Sound, Save, WithoutEntity, ServiceRuns.DocumentHolds, ServiceRuns.Singletons,
         Reads, SchemaSurvives, Loaded;
    match c
    case SaveIt(d) => SavedReads(reg, rules, mode, s, d, k);
    case DeleteIt(o) =>
      if reg.FindType(o.typeId).Some? {
        DeletedIsGone(reg, s, o, k);
        LeftReads(reg, rules, s, o, k);
      }
  }

  lemma KnownType(reg: SchemaRegistry, rules: Rules, s: Tables, k: Key)
    requires TablesSafe(reg, rules, s) && k in s.entities
    ensures reg.FindType(k.typeId).Some?
  {
    hide Sound, ServiceRuns.Singletons, FieldsOf, RelationsOf;
    assert Reads(reg, rules, s, k);
  }

  lemma LoadedKeys(reg: SchemaRegistry, rules: Rules, s: Tables)
    requires TablesSafe(reg, rules, s)
    ensures Loaded(reg, s).Keys == s.entities.Keys
  {
    hide Sound, Find, ServiceRuns.DocumentHolds, ServiceRuns.Singletons;
    forall k | k in s.entities ensures k in Loaded(reg, s) {
      assert Reads(reg, rules, s, k);
    }
  }

  lemma RowsAfterSave(reg: SchemaRegistry, mode: LinkFailure, s: Tables, d: Document, docs: Documents, after: Documents)
    requires docs.Keys == s.entities.Keys && KeyOf(d) in after && after - {KeyOf(d)} == docs - {KeyOf(d)}
    ensures Save(reg, mode, s, d).tables.entities.Keys <= after.Keys
  {
    hide Save;
    forall k | k in Save(reg, mode, s, d).tables.entities ensures k in after {
      if k != KeyOf(d) {
        OtherRows(reg, mode, s, d, k);
        assert k in docs - {KeyOf(d)};
      }
    }
  }

  lemma RowsAfterDelete(reg: SchemaRegistry, mode: LinkFailure, s: Tables, k: Key, docs: Documents, after: Documents)
    requires docs.Keys == s.entities.Keys && after - {k} == docs - {k}
    requires k in s.entities ==> reg.FindType(k.typeId).Some?
    ensures Step(reg, mode, s, DeleteIt(k)).entities.Keys <= after.Keys
  {
    hide Save, PointsAt;
    forall o | o in Step(reg, mode, s, DeleteIt(k)).entities ensures o in after {
      assert o in docs - {k};
    }
  }

  /** A write leaves rows of the command's own outcome only. */
  lemma WrittenRows(reg: SchemaRegistry, rules: Rules, mode: LinkFailure, s: Tables, q: Request,
                    c: StoreInvariants.Command)
    requires TablesSafe(reg, rules, s) && WriteOf(reg, rules, Loaded(reg, s), q) == Some(c)
    ensures Step(reg, mode, s, c).entities.Keys <= Perform(reg, rules, Loaded(reg, s), q).docs.Keys
    ensures c.SaveIt? ==> ServiceRuns.DocumentHolds(reg, rules, KeyOf(c.d), c.d)
  {
    hide TablesSafe, Loaded, Perform, Save, ServiceRuns.DocumentHolds, ServiceRuns.Singletons;
    var docs, k := Loaded(reg, s), ServiceRuns.Subject(q);
    LoadedIsSafe(reg, rules, s);
    LoadedKeys(reg, rules, s);
    ServiceRuns.CommandFrame(reg, rules, docs, q);
    ServiceRuns.CommandKeepsSafe(reg, rules, docs, q);
    if c.SaveIt? {
      HoldsUnderItsKey(reg, rules, k, c.d);
      RowsAfterSave(reg, mode, s, c.d, docs, Perform(reg, rules, docs, q).docs);
    } else {
      if k in s.entities {
        KnownType(reg, rules, s, k);
      }
      RowsAfterDelete(reg, mode, s, k, docs, Perform(reg, rules, docs, q).docs);
    }
  }

  lemma FewerSingletons(reg: SchemaRegistry, docs: Documents, fewer: Documents)
    requires ServiceRuns.Singletons(reg, docs) && fewer.Keys <= docs.Keys
    ensures ServiceRuns.Singletons(reg, fewer)
  {
  }

  lemma LoadedRows(reg: SchemaRegistry, s: Tables)
    ensures Loaded(reg, s).Keys <= s.entities.Keys
  {
    hide Find;
  }

  lemma StepKeepsTablesSafe(reg: SchemaRegistry, rules: Rules, mode: LinkFailure, s: Tables, q: Request)
    requires StoreReady(reg) && OwnersResolve(reg) && SchemaSurvives(reg, rules) && TablesSafe(reg, rules, s)
    ensures TablesSafe(reg, rules, StepOnTables(reg, rules, mode, s, q))
  {
    var docs := Loaded(reg, s);
    var w := WriteOf(reg, rules, docs, q);
    if w.Some? {
      WriteKeepsTablesSafe(reg, rules, mode, s, q, w.value);
    }
    hide TablesSafe, StoreReady, OwnersResolve, SchemaSurvives, WriteOf, Loaded, Step;
  }

  lemma WriteKeepsTablesSafe(reg: SchemaRegistry, rules: Rules, mode: LinkFailure, s: Tables, q: Request,
                             c: StoreInvariants.Command)
    requires StoreReady(reg) && OwnersResolve(reg) && SchemaSurvives(reg, rules) && TablesSafe(reg, rules, s)
    requires WriteOf(reg, rules, Loaded(reg, s), q) == Some(c)
    ensures TablesSafe(reg, rules, Step(reg, mode, s, c))
  {
    var after, docs := Step(reg, mode, s, c), Loaded(reg, s);
    StepKeepsSound(reg, mode, s, c);
    hide StoreReady, OwnersResolve, SchemaSurvives, WriteOf, Step, Perform, Loaded, Sound, Reads,
         ServiceRuns.DocumentHolds, ServiceRuns.Singletons;
    WrittenRows(reg, rules, mode, s, q, c);
    forall k | k in after.entities ensures Reads(reg, rules, after, k) {
      WriteReads(reg, rules, mode, s, c, k);
    }
    LoadedIsSafe(reg, rules, s);
    ServiceRuns.CommandKeepsSafe(reg, rules, docs, q);
    LoadedRows(reg, after);
    FewerSingletons(reg, Perform(reg, rules, docs, q).docs, Loaded(reg, after));
  }

  lemma HoldsUnderItsKey(reg: SchemaRegistry, rules: Rules, k: Key, d: Document)
    requires ServiceRuns.DocumentHolds(reg, rules, k, d)
    ensures KeyOf(d) == k
  {
  }

  // ----- runs ---------------------------------------------------------------------------------------

  function ServedOnTables(reg: SchemaRegistry, rules: Rules, mode: LinkFailure, s: Tables, qs: seq<Request>): Tables {
    if qs == [] then s
    else StepOnTables(reg, rules, mode, ServedOnTables(reg, rules, mode, s, qs[..|qs| - 1]), qs[|qs| - 1])
  }

  /** After any sequence of commands served from SQL tables, whatever saves are refused or
      lost, whatever deletions cascade and whichever indexes are live, the tables are sound,
      every row reads back as a document that is valid for its type, with its own
      duplicate-free lists of the right length, and singletons are single. */
  lemma {:induction false} ServedTablesAreSafe(reg: SchemaRegistry, rules: Rules, mode: LinkFailure, s: Tables,
                                               qs: seq<Request>)
    requires StoreReady(reg) && OwnersResolve(reg) && SchemaSurvives(reg, rules) && TablesSafe(reg, rules, s)
    ensures TablesSafe(reg, rules, ServedOnTables(reg, rules, mode, s, qs))
  {
    if qs != [] {
      hide StoreReady, OwnersResolve, SchemaSurvives, StepOnTables, TablesSafe;
      var n := |qs| - 1;
      ServedTablesAreSafe(reg, rules, mode, s, qs[..n]);
      StepKeepsTablesSafe(reg, rules, mode, ServedOnTables(reg, rules, mode, s, qs[..n]), qs[n]);
    }
  }

  // ----- the condition is exact ------------------------------------------------------------------------

  lemma EncodedNotNull(v: ContentValue, ft: FieldType)
    requires !v.Null? && ToSeaValue(v, ft).Ok?
    ensures !ToSeaValue(v, ft).value.IsNull()
  {
  }

  lemma KeptNotNull(v: SqlValue, ft: FieldType)
    requires !v.IsNull() && Store(v, ft).Ok?
    ensures !Store(v, ft).value.IsNull()
  {
    hide StoreLimited, StoreNumeric, Micros;
  }

  lemma StorableNotNull(rules: Rules, dt: DocumentType, fields: Fields)
    requires DistinctFields(dt.fields) && Storable(rules, dt, fields)
    ensures NotNull(dt, CellsOf(dt.fields, fields).value)
  {
    CellsAre(dt.fields, fields);
    hide CellsOf, ToSeaValue, Store, FieldValid;
    forall f | f in dt.fields && f.required ensures !CellsOf(dt.fields, fields).value[f.id].IsNull() {
      RequiredIsThere(rules, f, ValueOf(fields, f.id));
      assert Cell(fields, f) == Ok(CellsOf(dt.fields, fields).value[f.id]);
      EncodedNotNull(ValueOf(fields, f.id), f.fieldType);
      KeptNotNull(ToSeaValue(ValueOf(fields, f.id), f.fieldType).value, f.fieldType);
    }
  }

  /** A plain creation of the first document of a type. */
  function Creation(t: DocumentType, fields: Fields): Request {
    Request(Create(t.id, 0, fields, map[], NotAsked), "system", 0, true, true, true)
  }

  function FirstDocument(t: DocumentType, fields: Fields): Document {
    NewDocument(0, t.id, Some("system"), 0).(fields := fields)
  }

  lemma NothingMutated()
    ensures Mutated(map[], map[]) == map[]
  {
  }

  lemma CreationWrites(reg: SchemaRegistry, rules: Rules, live: set<Guard>, t: DocumentType, fields: Fields)
    requires StoreReady(reg) && t in reg.types && ContentValid(t, fields, rules)
    ensures WriteOf(reg, rules, Loaded(reg, Empty(live)), Creation(t, fields)) == Some(SaveIt(FirstDocument(t, fields)))
  {
    CreationPerformed(reg, rules, t, fields);
    hide StoreReady, ContentValid, Perform, Find, FirstDocument;
    var docs := Loaded(reg, Empty(live));
    assert docs == map[];
    var after := Perform(reg, rules, docs, Creation(t, fields)).docs;
    assert Key(t.id, 0) in after && after != docs;
  }

  lemma CreationPerformed(reg: SchemaRegistry, rules: Rules, t: DocumentType, fields: Fields)
    requires StoreReady(reg) && t in reg.types && ContentValid(t, fields, rules)
    ensures Perform(reg, rules, map[], Creation(t, fields)).docs == map[Key(t.id, 0) := FirstDocument(t, fields)]
  {
    FindTypeUnique(reg, t);
    NothingMutated();
    hide StoreReady, ContentValid, Mutated;
    var q, d := Creation(t, fields), FirstDocument(t, fields);
    assert AllAllowed(reg, t.id, map[], map[]) && !Exists(map[], t.id);
    assert Created(q, t.id, 0, fields, map[]) == d;
    assert PerformCreate(reg, rules, map[], q) == Stored(map[], q, d, NotAsked);
  }

  lemma FirstIsAcceptable(reg: SchemaRegistry, rules: Rules, live: set<Guard>, t: DocumentType, fields: Fields)
    requires StoreReady(reg) && t in reg.types && Storable(rules, t, fields)
    ensures Acceptable(reg, Empty(live), t, FirstDocument(t, fields), CellsOf(t.fields, fields).value)
  {
    FindTypeUnique(reg, t);
    StorableNotNull(rules, t, fields);
    hide StoreReady, CellsOf, ContentValid, NotNull, RowLocks, Locks;
  }

  /** The first document of a type is stored and reads back as its columns keep it. */
  lemma CreationStores(reg: SchemaRegistry, rules: Rules, mode: LinkFailure, live: set<Guard>, t: DocumentType,
                       fields: Fields)
    requires StoreReady(reg) && t in reg.types && Storable(rules, t, fields)
    ensures var after := StepOnTables(reg, rules, mode, Empty(live), Creation(t, fields));
            exists x: Document ::
                Find(reg, after, Key(t.id, 0)) == Ok(Some(x)) && FieldsNormal(t.fields, fields, x.fields)
  {
    var s, d, cells := Empty(live), FirstDocument(t, fields), CellsOf(t.fields, fields).value;
    CreationWrites(reg, rules, live, t, fields);
    FirstIsAcceptable(reg, rules, live, t, fields);
    hide StoreReady, CellsOf, ContentValid, WriteOf, Loaded, Creation, Save, Find, RelationsNormal, Locks, Storable;
    SaveIsItsPublicPart(reg, mode, s, t, d, cells);
    AcceptableType(reg, s, t, d, cells);
    hide Acceptable, AfterWorkingPart, WithoutMirror;
    assert Save(reg, mode, s, d).result.Ok?;
    ReadAfterWrite(reg, mode, s, d);
  }

  lemma OtherField(rules: Rules, fields: Fields, f: FieldDefinition, v: ContentValue, g: FieldDefinition)
    requires g.id == f.id ==> g == f
    ensures g.id == f.id ==> ValueOf(fields[f.id := v], g.id) == v
    ensures g.id != f.id ==> Cell(fields[f.id := v], g) == Cell(fields, g)
    ensures g.id != f.id ==> ValueOf(fields[f.id := v], g.id) == ValueOf(fields, g.id)
  {
    hide ToSeaValue, Store;
  }

  lemma AcceptedCell(fields: Fields, g: FieldDefinition)
    ensures Through(ValueOf(fields, g.id), g.fieldType).Ok? ==> Cell(fields, g).Ok?
  {
    hide ToSeaValue, Store, ReadContentValue;
  }

  lemma WithField(rules: Rules, t: DocumentType, fields: Fields, f: FieldDefinition, v: ContentValue)
    requires DistinctFields(t.fields) && Storable(rules, t, fields) && f in t.fields
    requires FieldValid(rules, f, v) && Through(v, f.fieldType).Ok?
    ensures Storable(rules, t, fields[f.id := v])
  {
    assert forall g | g in t.fields && g.id == f.id :: g == f;
    assert t.GetField(f.id).Some?;
    hide CellsOf, Cell, FieldValid, Through, DistinctFields;
    CellsExist(t.fields, fields);
    CellsExist(t.fields, fields[f.id := v]);
    forall g | g in t.fields
      ensures FieldValid(rules, g, ValueOf(fields[f.id := v], g.id)) && Cell(fields[f.id := v], g).Ok?
    {
      OtherField(rules, fields, f, v, g);
      AcceptedCell(fields[f.id := v], g);
    }
  }

  /** A field whose rules do not survive can be lost by one creation. */
  lemma OneCreationIsUnsafe(reg: SchemaRegistry, rules: Rules, mode: LinkFailure, live: set<Guard>, t: DocumentType,
                            f: FieldDefinition)
    requires StoreReady(reg) && t in reg.types && Creatable(rules, t) && f in t.fields && !Survives(rules, f)
    ensures exists q :: !TablesSafe(reg, rules, StepOnTables(reg, rules, mode, Empty(live), q))
  {
    assert DistinctFields(t.fields);
    SurvivesExactly(rules, f);
    var v :| !ReadsBackValid(rules, f, v);
    var base :| Storable(rules, t, base);
    var fields := base[f.id := v];
    hide Survives, StoreReady, Storable, FieldValid, Through, StepOnTables, Creation, DistinctFields;
    WithField(rules, t, base, f, v);
    CreationStores(reg, rules, mode, live, t, fields);
    var after := StepOnTables(reg, rules, mode, Empty(live), Creation(t, fields));
    var x: Document :| Find(reg, after, Key(t.id, 0)) == Ok(Some(x)) && FieldsNormal(t.fields, fields, x.fields);
    InvalidRow(reg, rules, after, Key(t.id, 0), t, f, x);
  }

  lemma InvalidRow(reg: SchemaRegistry, rules: Rules, s: Tables, k: Key, t: DocumentType, f: FieldDefinition,
                   x: Document)
    requires StoreReady(reg) && t in reg.types && k.typeId == t.id && Find(reg, s, k) == Ok(Some(x))
    requires f in t.fields && !FieldValid(rules, f, ValueOf(x.fields, f.id))
    ensures !TablesSafe(reg, rules, s)
  {
    FindTypeUnique(reg, t);
    hide StoreReady, FieldValid, FieldsOf, RelationsOf, Sound, ServiceRuns.RelationsHold, ServiceRuns.Singletons;
    assert !Reads(reg, rules, s, k);
  }

  /** Every run is safe exactly when the rules of every field of every type that can have
      documents survive their columns. */
  lemma ServedSafeIffSurvives(reg: SchemaRegistry, rules: Rules, mode: LinkFailure, live: set<Guard>)
    requires StoreReady(reg) && OwnersResolve(reg)
    ensures (forall qs :: TablesSafe(reg, rules, ServedOnTables(reg, rules, mode, Empty(live), qs)))
            <==> SchemaSurvives(reg, rules)
  {
    hide StoreReady, OwnersResolve, TablesSafe, StepOnTables, Survives, Creatable;
    if SchemaSurvives(reg, rules) {
      EmptyIsTablesSafe(reg, rules, live);
      forall qs ensures TablesSafe(reg, rules, ServedOnTables(reg, rules, mode, Empty(live), qs)) {
        ServedTablesAreSafe(reg, rules, mode, Empty(live), qs);
      }
    } else {
      var t, f :| t in reg.types && Creatable(rules, t) && f in t.fields && !Survives(rules, f);
      OneCreationIsUnsafe(reg, rules, mode, live, t, f);
      var q :| !TablesSafe(reg, rules, StepOnTables(reg, rules, mode, Empty(live), q));
      var qs := [q];
      assert qs[..0] == [] && ServedOnTables(reg, rules, mode, Empty(live), []) == Empty(live);
      assert ServedOnTables(reg, rules, mode, Empty(live), qs) == StepOnTables(reg, rules, mode, Empty(live), q);
      assert !TablesSafe(reg, rules, ServedOnTables(reg, rules, mode, Empty(live), qs));
    }
  }

  // ----- what happens to such a document ------------------------------------------------------------------

  /** While a document holds an invalid value, every update that leaves it alone is refused. */
  lemma InvalidFieldBlocksUpdates(reg: SchemaRegistry, rules: Rules, docs: Documents, q: Request, dt: DocumentType,
                                  f: FieldDefinition)
    requires q.command.Update? && q.canRead && q.permitted && ServiceRuns.Subject(q) in docs
    requires var d := docs[ServiceRuns.Subject(q)];
             && reg.FindType(d.typeId) == Some(dt) && f in dt.fields && f.id !in q.command.fields
             && !FieldValid(rules, f, ValueOf(d.fields, f.id))
    ensures Perform(reg, rules, docs, q) == Outcome(docs, Err(Invalid))
  {
    hide AllAllowed, FieldValid, Mutated;
    var d := docs[ServiceRuns.Subject(q)];
    assert ValueOf(d.fields + q.command.fields, f.id) == ValueOf(d.fields, f.id);
  }

  const ITEM := DocumentType("item", Collection, "item", "items", false, [PRICE])
  const SHOP := SchemaRegistry([ITEM], ByName([ITEM]), [])

  /** An item priced at a thousandth is valid and acknowledged, and from then on no update
      goes through that does not change the price. */
  lemma CheapItemIsStuck(rules: Rules, mode: LinkFailure, live: set<Guard>, q: Request)
    requires q.command.Update? && q.command.typeId == "item" && q.command.id == 0 && q.canRead && q.permitted
    requires "price" !in q.command.fields
    ensures StoreReady(SHOP) && ContentValid(ITEM, map["price" := OfDecimal(0.001)], rules)
    ensures var s := StepOnTables(SHOP, rules, mode, Empty(live), Creation(ITEM, map["price" := OfDecimal(0.001)]));
            && ServiceRuns.Subject(q) in Loaded(SHOP, s)
            && Perform(SHOP, rules, Loaded(SHOP, s), q) == Outcome(Loaded(SHOP, s), Err(Invalid))
  {
    var fields: Fields := map["price" := OfDecimal(0.001)];
    LeastPriceIsLost(rules);
    ShopIsReady();
    CheapItemIsStorable(rules, fields);
    hide StepOnTables, Creation, FieldValid, Through, Storable, StoreReady, ContentValid, Perform;
    CreationStores(SHOP, rules, mode, live, ITEM, fields);
    var s := StepOnTables(SHOP, rules, mode, Empty(live), Creation(ITEM, fields));
    var x: Document :| Find(SHOP, s, Key("item", 0)) == Ok(Some(x)) && FieldsNormal(ITEM.fields, fields, x.fields);
    assert PRICE in ITEM.fields && ValueOf(x.fields, "price") == OfDecimal(0.0);
    FoundIsLoaded(SHOP, s, Key("item", 0), x);
    InvalidFieldBlocksUpdates(SHOP, rules, Loaded(SHOP, s), q, ITEM, PRICE);
  }

  lemma ShopIsReady()
    ensures StoreReady(SHOP) && ITEM in SHOP.types && SHOP.FindType("item") == Some(ITEM)
  {
    assert SHOP.types[0] == ITEM;
    FindTypeUnique(SHOP, ITEM);
  }

  lemma CheapItemIsStorable(rules: Rules, fields: Fields)
    requires fields == map["price" := OfDecimal(0.001)] && FieldValid(rules, PRICE, OfDecimal(0.001))
    requires Through(OfDecimal(0.001), PRICE.fieldType).Ok?
    ensures Storable(rules, ITEM, fields)
  {
    assert ITEM.fields[0] == PRICE;
    CellsAre(ITEM.fields, fields);
    hide FieldValid, CellsOf, ReadContentValue, ToSeaValue, Store;
    assert forall f | f in ITEM.fields :: f == PRICE;
  }

  lemma FoundIsLoaded(reg: SchemaRegistry, s: Tables, k: Key, x: Document)
    requires Find(reg, s, k) == Ok(Some(x))
    ensures k in Loaded(reg, s) && Loaded(reg, s)[k] == x && KeyOf(x) == k
  {
    hide FieldsOf, RelationsOf, StateOf;
  }

  // ----- what a command leaves in the tables ------------------------------------------------------

  /** A delete that goes through takes the row, its mirror row and every link from it or to it,
      and nothing else; one that does not go through changes nothing. */
  lemma DeletedFromTables(reg: SchemaRegistry, rules: Rules, mode: LinkFailure, s: Tables, q: Request)
    requires StoreReady(reg) && TablesSafe(reg, rules, s) && q.command.Delete?
    ensures var k, after := Key(q.command.typeId, q.command.id), StepOnTables(reg, rules, mode, s, q);
            if q.canRead && q.canWrite && q.permitted && k in s.entities then Gone(reg, s, k, after) else after == s
  {
    hide StoreReady, TablesSafe, Loaded, WriteOf, WithoutEntity, Save, Gone;
    var k := Key(q.command.typeId, q.command.id);
    LoadedKeys(reg, rules, s);
    DeleteWrites(reg, rules, Loaded(reg, s), q);
    DeletedRows(reg, s, k);
    if k in s.entities {
      KnownType(reg, rules, s, k);
    }
  }

  /** Without the document, its mirror row and the links that touch it. */
  ghost predicate Gone(reg: SchemaRegistry, s: Tables, k: Key, after: Tables) {
    && after.entities == s.entities - {k} && after.mirrors == s.mirrors - {k}
    && (forall l :: l in after.draftLinks <==> l in s.draftLinks && !Touches(reg, l, k))
    && (forall l :: l in after.publishedLinks <==> l in s.publishedLinks && !Touches(reg, l, k))
  }

  lemma DeleteWrites(reg: SchemaRegistry, rules: Rules, docs: Documents, q: Request)
    requires q.command.Delete?
    ensures var k := Key(q.command.typeId, q.command.id);
            WriteOf(reg, rules, docs, q)
            == if q.canRead && q.canWrite && q.permitted && k in docs then Some(DeleteIt(k)) else None
  {
    DeleteKeepsPromise(docs, q);
    hide PerformDelete;
  }

  lemma DeletedRows(reg: SchemaRegistry, s: Tables, k: Key)
    requires StoreReady(reg)
    ensures Gone(reg, s, k, WithoutEntity(reg, s, k))
  {
    forall l ensures Touches(reg, l, k) <==> (l.ownerType == k.typeId && l.owner == k.id) || PointsAt(reg, l, k) {
      WhatIsSaved.PointsBy(reg, l, k);
    }
    hide StoreReady, Touches, PointsAt;
  }

  /** The link leads from the document or to it. */
  ghost predicate Touches(reg: SchemaRegistry, l: Link, k: Key) {
    || Key(l.ownerType, l.owner) == k
    || exists r :: r in reg.relations && InTable(l, r) && Key(r.targetType, l.target) == k
  }

  /** What a command stores on the port is what it saves in the tables; if the save goes
      through and is not lost, it can be read there. */
  lemma StoredIsRead(reg: SchemaRegistry, rules: Rules, mode: LinkFailure, s: Tables, q: Request)
    requires StoreReady(reg) && TablesSafe(reg, rules, s) && !q.command.Delete?
    requires Perform(reg, rules, Loaded(reg, s), q).docs != Loaded(reg, s)
    ensures var k, docs := ServiceRuns.Subject(q), Perform(reg, rules, Loaded(reg, s), q).docs;
            && k in docs && KeyOf(docs[k]) == k
            && var after := StepOnTables(reg, rules, mode, s, q);
            && after == Save(reg, mode, s, docs[k]).tables
            && (Save(reg, mode, s, docs[k]).result.Ok? && after != s ==>
                  WhatIsSaved.SavedAs(reg, s, docs[k], after)
                  && exists x :: Find(reg, after, k) == Ok(Some(x)) && WhatIsSaved.ShowsSaved(reg, s, docs[k], x))
  {
    var k, before := ServiceRuns.Subject(q), Loaded(reg, s);
    var docs := Perform(reg, rules, before, q).docs;
    LoadedIsSafe(reg, rules, s);
    StoredIsWritten(reg, rules, before, q);
    hide StoreReady, TablesSafe, Loaded, Perform, Save, WriteOf, ServiceRuns.Safe, Find, WhatIsSaved.SavedAs,
         WhatIsSaved.ShowsSaved, Publishes;
    if Save(reg, mode, s, docs[k]).result.Ok? && Save(reg, mode, s, docs[k]).tables != s {
      WhatIsSaved.SaveSaves(reg, mode, s, docs[k]);
      WhatIsSaved.SavedIsFound(reg, mode, s, docs[k]);
    }
  }

  lemma StoredIsWritten(reg: SchemaRegistry, rules: Rules, docs: Documents, q: Request)
    requires ServiceRuns.Safe(reg, rules, docs) && !q.command.Delete? && Perform(reg, rules, docs, q).docs != docs
    ensures var k, after := ServiceRuns.Subject(q), Perform(reg, rules, docs, q).docs;
            k in after && KeyOf(after[k]) == k && WriteOf(reg, rules, docs, q) == Some(SaveIt(after[k]))
  {
    var k := ServiceRuns.Subject(q);
    SubjectStored(reg, rules, docs, q);
    hide Perform, ServiceRuns.DocumentHolds, ServiceRuns.Singletons;
    ServiceRuns.CommandKeepsSafe(reg, rules, docs, q);
    HoldsUnderItsKey(reg, rules, k, Perform(reg, rules, docs, q).docs[k]);
  }

  lemma SubjectStored(reg: SchemaRegistry, rules: Rules, docs: Documents, q: Request)
    requires ServiceRuns.Safe(reg, rules, docs) && !q.command.Delete? && Perform(reg, rules, docs, q).docs != docs
    ensures ServiceRuns.Subject(q) in Perform(reg, rules, docs, q).docs
  {
    var k := ServiceRuns.Subject(q);
    if k in docs {
      assert ServiceRuns.DocumentHolds(reg, rules, k, docs[k]);
      HoldsUnderItsKey(reg, rules, k, docs[k]);
    }
    hide ServiceRuns.Safe, ServiceRuns.DocumentHolds, PerformCreate, PerformUpdate, PerformTransition, MayActOnAll,
         AcceptedFor, CreatedFrom, UpdatedFrom, OnlyAt;
    match q.command
    case Create(_, _, _, _, _) => CreateKeepsPromise(reg, rules, docs, q);
    case Update(_, _, _, _, _) => UpdateKeepsPromise(reg, rules, docs, q);
    case Publish(_, _) => TransitionKeepsPromise(reg, docs, q);
    case Unpublish(_, _) => TransitionKeepsPromise(reg, docs, q);
  }
}
