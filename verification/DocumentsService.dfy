/** The application service: commands on documents kept behind a port, a map from type and
    id to document. */
module DocumentsService {
  import opened Wrappers
  import opened DomainSchema
  import opened Content
  import opened Validator
  import opened Instance
  import opened DocumentStore

  datatype ServiceError =
    | Forbidden | TypeNotFound | InstanceNotFound | SingleTypeAlreadyExists
    | Invalid | Conflict | BadTransition | StorageFailed

  datatype RelationAction =
    | SetTo(targets: seq<DocumentId>)
    | Connect(targets: seq<DocumentId>)
    | Disconnect(targets: seq<DocumentId>)
    | Unset

  type Actions = map<AttributeId, RelationAction>

  type Documents = map<Key, Document>

  // ----- relation actions ----------------------------------------------------------------

  function ListAt(relations: Relations, attr: AttributeId): Option<seq<DocumentId>> {
    if attr in relations then Some(relations[attr]) else None
  }

  function Elements(list: seq<DocumentId>): set<DocumentId> { set x | x in list }

  /** May the action be taken on the attribute, whose list is `list`? Only from the owner's
      side, and a has-one relation never gets two targets. */
  predicate ActionAllowed(reg: SchemaRegistry, typeId: DocumentTypeId, attr: AttributeId, list: Option<seq<DocumentId>>,
                          action: RelationAction)
  {
    match reg.FindRelationForAttr(typeId, attr)
    case None => false
    case Some(rel) =>
      && rel.ownerType == typeId && rel.ownerAttr == attr
      && (rel.ownerKind.HasOne? ==>
            match action
            case SetTo(targets) => |Elements(targets)| <= 1
            case Connect(targets) => |Elements(targets) + Elements(if list.Some? then list.value else [])| <= 1
            case Disconnect(_) => true
            case Unset => true)
  }

  /** The list after the action. */
  function Acted(list: Option<seq<DocumentId>>, action: RelationAction): Option<seq<DocumentId>> {
    match action
    case SetTo(targets) => Some(Appended([], targets))
    case Connect(targets) => Some(Appended(if list.Some? then list.value else [], targets))
    case Disconnect(targets) => if list.Some? then Some(Without(list.value, targets)) else None
    case Unset => None
  }

  predicate AllAllowed(reg: SchemaRegistry, typeId: DocumentTypeId, relations: Relations, actions: Actions) {
    forall a | a in actions :: ActionAllowed(reg, typeId, a, ListAt(relations, a), actions[a])
  }

  /** Every attribute as its own action leaves it. */
  ghost predicate IsMutated(before: Relations, actions: Actions, after: Relations) {
    forall a :: ListAt(after, a) == if a in actions then Acted(ListAt(before, a), actions[a]) else ListAt(before, a)
  }

  function Mutated(before: Relations, actions: Actions): (after: Relations)
    ensures IsMutated(before, actions, after)
  {
    map a | a in before.Keys + actions.Keys
            && (if a in actions then Acted(ListAt(before, a), actions[a]) else ListAt(before, a)).Some?
         :: (if a in actions then Acted(ListAt(before, a), actions[a]) else ListAt(before, a)).value
  }

  lemma MutatedIsUnique(before: Relations, actions: Actions, x: Relations, y: Relations)
    requires IsMutated(before, actions, x) && IsMutated(before, actions, y)
    ensures x == y
  {
    forall a ensures a in x <==> a in y {
      assert ListAt(x, a) == ListAt(y, a);
    }
    forall a | a in x ensures x[a] == y[a] {
      assert ListAt(x, a) == ListAt(y, a);
    }
  }

  method ApplyAction(reg: SchemaRegistry, typeId: DocumentTypeId, inst: DocumentInstance, attr: AttributeId,
                     action: RelationAction)
    returns (r: Result<(), ServiceError>)
    modifies inst
    ensures r.Ok? <==> ActionAllowed(reg, typeId, attr, ListAt(old(inst.relations), attr), action)
    ensures r.Err? ==> r.error == Invalid && inst.View() == old(inst.View())
    ensures inst.View() == old(inst.View()).(relations := inst.relations)
    ensures r.Ok? ==> forall a :: ListAt(inst.relations, a)
                        == (if a == attr then Acted(ListAt(old(inst.relations), a), action)
                            else ListAt(old(inst.relations), a))
  {
    var found := reg.FindRelationForAttr(typeId, attr);
    if found.None? {
      return Err(Invalid);
    }
    var rel := found.value;
    var isOwner := rel.ownerType == typeId && rel.ownerAttr == attr;
    var isHasOne := if isOwner then rel.ownerKind.HasOne? else rel.InverseKind() == Some(BelongsToOne);
    if !isOwner {
      return Err(Invalid);
    }
    match action {
      case SetTo(targets) =>
        if isHasOne && |Elements(targets)| > 1 {
          return Err(Invalid);
        }
        inst.SetRelations(attr, targets);
      case Connect(targets) =>
        if isHasOne && |Elements(targets) + Elements(TargetsOf(inst.relations, attr))| > 1 {
          return Err(Invalid);
        }
        inst.ConnectRelations(attr, targets);
      case Disconnect(targets) =>
        inst.DisconnectRelations(attr, targets);
      case Unset =>
        inst.UnsetRelations(attr);
    }
    return Ok(());
  }

  /** One attribute at a time, in whatever order a hash map gives them: the outcome does not
      depend on it. */
  method ValidateAndApplyRelations(reg: SchemaRegistry, typeId: DocumentTypeId, inst: DocumentInstance,
                                   actions: Actions)
    returns (r: Result<(), ServiceError>)
    modifies inst
    ensures r.Ok? <==> AllAllowed(reg, typeId, old(inst.relations), actions)
    ensures r.Err? ==> r.error == Invalid
    ensures r.Ok? ==> inst.View() == old(inst.View()).(relations := Mutated(old(inst.relations), actions))
  {
    hide ActionAllowed, Acted, ListAt, Mutated;
    ghost var before := inst.relations;
    var left := actions.Keys;
    while left != {}
      invariant left <= actions.Keys
      invariant forall a | a in actions && a !in left :: ActionAllowed(reg, typeId, a, ListAt(before, a), actions[a])
      invariant forall a | a in left :: ListAt(inst.relations, a) == ListAt(before, a)
      invariant IsMutated(before, actions - left, inst.relations)
      invariant inst.View() == old(inst.View()).(relations := inst.relations)
      decreases |left|
    {
      var attr :| attr in left;
      var applied := ApplyAction(reg, typeId, inst, attr, actions[attr]);
      if applied.Err? {
        return Err(applied.error);
      }
      left := left - {attr};
    }
    assert actions - {} == actions;
    MutatedIsUnique(before, actions, inst.relations, Mutated(before, actions));
    return Ok(());
  }

  // ----- commands, as functions --------------------------------------------------------------

  /** Whether related documents are asked for after a save, and whether fetching them works. */
  datatype Populate = NotAsked | Attached | FetchFails

  datatype Command =
    | Create(typeId: DocumentTypeId, newId: DocumentId, fields: Fields, actions: Actions, populate: Populate)
    | Update(typeId: DocumentTypeId, id: DocumentId, fields: Fields, actions: Actions, populate: Populate)
    | Delete(typeId: DocumentTypeId, id: DocumentId)
    | Publish(typeId: DocumentTypeId, id: DocumentId)
    | Unpublish(typeId: DocumentTypeId, id: DocumentId)

  /** Who asks and when, what the permission check says, and whether the port answers reads
      and takes writes. */
  datatype Request = Request(command: Command, user: UserId, now: int, permitted: bool, canRead: bool, canWrite: bool)

  datatype Outcome = Outcome(docs: Documents, result: Result<(), ServiceError>)

  predicate ValidFor(reg: SchemaRegistry, rules: Rules, typeId: DocumentTypeId, fields: Fields) {
    var dt := reg.FindType(typeId);
    dt.Some? && ContentValid(dt.value, fields, rules)
  }

  predicate Exists(docs: Documents, typeId: DocumentTypeId) { exists k | k in docs :: k.typeId == typeId }

  function Stored(docs: Documents, q: Request, d: Document, populate: Populate): Outcome {
    if !q.canWrite then Outcome(docs, Err(StorageFailed))
    else Outcome(docs[KeyOf(d) := d], if populate.FetchFails? then Err(StorageFailed) else Ok(()))
  }

  function Created(q: Request, typeId: DocumentTypeId, id: DocumentId, fields: Fields, actions: Actions): Document {
    NewDocument(id, typeId, Some(q.user), q.now).(fields := fields, relations := Mutated(map[], actions))
  }

  function Updated(q: Request, d: Document, fields: Fields, actions: Actions): Document {
    Touched(d.(fields := d.fields + fields, relations := Mutated(d.relations, actions)), Some(q.user), q.now)
  }

  function PerformCreate(reg: SchemaRegistry, rules: Rules, docs: Documents, q: Request): Outcome
    requires q.command.Create?
  {
    var Create(typeId, newId, fields, actions, populate) := q.command;
    if !q.permitted then Outcome(docs, Err(Forbidden))
    else if reg.FindType(typeId).None? then Outcome(docs, Err(TypeNotFound))
    else if reg.FindType(typeId).value.kind.SingleType? && !q.canRead then Outcome(docs, Err(StorageFailed))
    else if reg.FindType(typeId).value.kind.SingleType? && Exists(docs, typeId) then
      Outcome(docs, Err(SingleTypeAlreadyExists))
    else if !AllAllowed(reg, typeId, map[], actions) then Outcome(docs, Err(Invalid))
    else if !ValidFor(reg, rules, typeId, fields) then Outcome(docs, Err(Invalid))
    else Stored(docs, q, Created(q, typeId, newId, fields, actions), populate)
  }

  function PerformUpdate(reg: SchemaRegistry, rules: Rules, docs: Documents, q: Request): Outcome
    requires q.command.Update?
  {
    var Update(typeId, id, fields, actions, populate) := q.command;
    var k := Key(typeId, id);
    if !q.canRead then Outcome(docs, Err(StorageFailed))
    else if k !in docs then Outcome(docs, Err(InstanceNotFound))
    else if !q.permitted then Outcome(docs, Err(Forbidden))
    else if !AllAllowed(reg, typeId, docs[k].relations, actions) then Outcome(docs, Err(Invalid))
    else
      var d := Updated(q, docs[k], fields, actions);
      if !ValidFor(reg, rules, d.typeId, d.fields) then Outcome(docs, Err(Invalid))
      else Stored(docs, q, d, populate)
  }

  function PerformDelete(docs: Documents, q: Request): Outcome
    requires q.command.Delete?
  {
    var k := Key(q.command.typeId, q.command.id);
    if !q.canRead then Outcome(docs, Err(StorageFailed))
    else if k !in docs then Outcome(docs, Err(InstanceNotFound))
    else if !q.permitted then Outcome(docs, Err(Forbidden))
    else if !q.canWrite then Outcome(docs, Err(StorageFailed))
    else Outcome(docs - {k}, Ok(()))
  }

  function PerformTransition(reg: SchemaRegistry, docs: Documents, q: Request): Outcome
    requires q.command.Publish? || q.command.Unpublish?
  {
    var k := Key(q.command.typeId, q.command.id);
    if !q.canRead then Outcome(docs, Err(StorageFailed))
    else if k !in docs then Outcome(docs, Err(InstanceNotFound))
    else if !q.permitted then Outcome(docs, Err(Forbidden))
    else if reg.FindType(k.typeId).None? then Outcome(docs, Err(TypeNotFound))
    else if !reg.FindType(k.typeId).value.draftAndPublish then Outcome(docs, Err(Conflict))
    else if q.command.Publish? then Stored(docs, q, AfterPublish(docs[k], Some(q.user), q.now), NotAsked)
    else if docs[k].state.Draft? then Outcome(docs, Err(BadTransition))
    else Stored(docs, q, AfterUnpublish(docs[k], q.now), NotAsked)
  }

  function Perform(reg: SchemaRegistry, rules: Rules, docs: Documents, q: Request): Outcome {
    match q.command
    case Create(_, _, _, _, _) => PerformCreate(reg, rules, docs, q)
    case Update(_, _, _, _, _) => PerformUpdate(reg, rules, docs, q)
    case Delete(_, _) => PerformDelete(docs, q)
    case Publish(_, _) => PerformTransition(reg, docs, q)
    case Unpublish(_, _) => PerformTransition(reg, docs, q)
  }

  // ----- what the commands promise -----------------------------------------------------------

  /** The documents that a list links to after an action that adds to it. */
  predicate Adds(list: Option<seq<DocumentId>>, action: RelationAction, x: DocumentId) {
    match action
    case SetTo(targets) => x in targets
    case Connect(targets) => x in targets || (list.Some? && x in list.value)
    case Disconnect(_) => false
    case Unset => false
  }

  /** An attribute may be acted on when it names a relation from its owner's side; nothing
      makes a has-one relation lead to two documents. */
  ghost predicate MayAct(reg: SchemaRegistry, typeId: DocumentTypeId, attr: AttributeId,
                         list: Option<seq<DocumentId>>, action: RelationAction)
  {
    var found := reg.FindRelationForAttr(typeId, attr);
    && found.Some? && found.value.ownerType == typeId && found.value.ownerAttr == attr
    && (found.value.ownerKind.HasOne? ==> forall x, y | Adds(list, action, x) && Adds(list, action, y) :: x == y)
  }

  lemma AtMostOne(xs: set<DocumentId>)
    ensures |xs| <= 1 <==> forall x, y | x in xs && y in xs :: x == y
  {
    if xs != {} {
      var x :| x in xs;
      if forall y, z | y in xs && z in xs :: y == z {
        assert xs == {x};
      } else {
        var y :| y in xs && y != x;
        assert {x, y} <= xs && xs == {x, y} + (xs - {x, y});
      }
    }
  }

  lemma AllowedIsMayAct(reg: SchemaRegistry, typeId: DocumentTypeId, attr: AttributeId,
                        list: Option<seq<DocumentId>>, action: RelationAction)
    ensures ActionAllowed(reg, typeId, attr, list, action) <==> MayAct(reg, typeId, attr, list, action)
  {
    match action
    case SetTo(targets) =>
      AtMostOne(Elements(targets));
      assert forall x :: x in Elements(targets) <==> Adds(list, action, x);
    case Connect(targets) =>
      var both := Elements(targets) + Elements(if list.Some? then list.value else []);
      AtMostOne(both);
      assert forall x :: x in both <==> Adds(list, action, x);
    case Disconnect(_) =>
    case Unset =>
  }

  /** What an action makes of a list. */
  ghost predicate ActsAs(list: Option<seq<DocumentId>>, action: RelationAction, after: Option<seq<DocumentId>>) {
    match action
    case SetTo(targets) =>
      after.Some? && NoDuplicates(after.value) && forall x :: x in after.value <==> x in targets
    case Connect(targets) =>
      var before := if list.Some? then list.value else [];
      && after.Some? && before <= after.value && (NoDuplicates(before) ==> NoDuplicates(after.value))
      && forall x :: x in after.value <==> x in before || x in targets
    case Disconnect(targets) =>
      && (after.Some? <==> list.Some?)
      && (list.Some? ==>
            && (NoDuplicates(list.value) ==> NoDuplicates(after.value))
            && forall x :: x in after.value <==> x in list.value && x !in targets)
    case Unset => after.None?
  }

  lemma ActedActs(list: Option<seq<DocumentId>>, action: RelationAction)
    ensures ActsAs(list, action, Acted(list, action))
  {
    match action
    case SetTo(targets) => AppendedIsUnion([], targets);
    case Connect(targets) => AppendedIsUnion(if list.Some? then list.value else [], targets);
    case Disconnect(targets) =>
      if list.Some? {
        WithoutIsDifference(list.value, targets);
      }
    case Unset =>
  }

  /** Every attribute that is acted on ends as its action says, the others stay. */
  ghost predicate ActedOn(before: Relations, actions: Actions, after: Relations) {
    forall a ::
      if a in actions then ActsAs(ListAt(before, a), actions[a], ListAt(after, a))
      else ListAt(after, a) == ListAt(before, a)
  }

  lemma MutatedIsActedOn(before: Relations, actions: Actions)
    ensures ActedOn(before, actions, Mutated(before, actions))
  {
    var after := Mutated(before, actions);
    hide Acted, ActsAs, Mutated, ListAt;
    forall a | a in actions ensures ActsAs(ListAt(before, a), actions[a], ListAt(after, a)) {
      ActedActs(ListAt(before, a), actions[a]);
    }
  }

  ghost predicate MayActOnAll(reg: SchemaRegistry, typeId: DocumentTypeId, relations: Relations, actions: Actions) {
    forall a | a in actions :: MayAct(reg, typeId, a, ListAt(relations, a), actions[a])
  }

  lemma AllAllowedIsMayAct(reg: SchemaRegistry, typeId: DocumentTypeId, relations: Relations, actions: Actions)
    ensures AllAllowed(reg, typeId, relations, actions) <==> MayActOnAll(reg, typeId, relations, actions)
  {
    hide ActionAllowed, MayAct;
    forall a | a in actions
      ensures ActionAllowed(reg, typeId, a, ListAt(relations, a), actions[a]) <==>
              MayAct(reg, typeId, a, ListAt(relations, a), actions[a])
    {
      AllowedIsMayAct(reg, typeId, a, ListAt(relations, a), actions[a]);
    }
  }

  ghost predicate AcceptedFor(reg: SchemaRegistry, rules: Rules, typeId: DocumentTypeId, fields: Fields) {
    reg.FindType(typeId).Some? && ContentAccepted(reg.FindType(typeId).value, fields, rules)
  }

  lemma ValidForIsAccepted(reg: SchemaRegistry, rules: Rules, typeId: DocumentTypeId, fields: Fields)
    ensures ValidFor(reg, rules, typeId, fields) <==> AcceptedFor(reg, rules, typeId, fields)
  {
    if reg.FindType(typeId).Some? {
      ValidContentIsAccepted(reg.FindType(typeId).value, fields, rules);
    }
  }

  /** Nothing but this document is there or not there, or different, after. */
  ghost predicate OnlyAt(k: Key, before: Documents, after: Documents) {
    && (forall o | o != k :: o in after <==> o in before)
    && forall o | o != k && o in before :: after[o] == before[o]
  }

  /** A create is refused without permission, for an unknown type, for a second document of a
      singleton type, for actions that may not be taken and for content that is not accepted,
      in this order; else it stores a draft, version 1, of what was asked for. */
  ghost predicate CreatePromise(reg: SchemaRegistry, rules: Rules, docs: Documents, q: Request, o: Outcome)
    requires q.command.Create?
  {
    var Create(typeId, id, fields, actions, populate) := q.command;
    var k, known := Key(typeId, id), reg.FindType(typeId).Some?;
    var single := known && reg.FindType(typeId).value.kind.SingleType?;
    var taken := single && q.canRead && exists x :: x in docs && x.typeId == typeId;
    var sound := MayActOnAll(reg, typeId, map[], actions) && AcceptedFor(reg, rules, typeId, fields);
    var stored := q.permitted && known && (single ==> q.canRead) && !taken && sound && q.canWrite;
    && (o.result == Err(Forbidden) <==> !q.permitted)
    && (o.result == Err(TypeNotFound) <==> q.permitted && !known)
    && (o.result == Err(SingleTypeAlreadyExists) <==> q.permitted && taken)
    && (o.result == Err(Invalid) <==> q.permitted && known && (single ==> q.canRead) && !taken && !sound)
    && (o.result.Ok? <==> stored && !populate.FetchFails?)
    && (o.result.Err? ==> o.result.error in {Forbidden, TypeNotFound, SingleTypeAlreadyExists, Invalid, StorageFailed})
    && (!stored ==> o.docs == docs)
    && (stored ==>
          k in o.docs && OnlyAt(k, docs, o.docs) && CreatedFrom(q, typeId, id, fields, actions, o.docs[k]))
  }

  ghost predicate CreatedFrom(q: Request, typeId: DocumentTypeId, id: DocumentId, fields: Fields, actions: Actions,
                              x: Document)
  {
    && x.id == id && x.typeId == typeId && x.fields == fields && x.state == Draft(None)
    && ActedOn(map[], actions, x.relations)
    && x.audit == AuditTrail(q.now, Some(q.user), q.now, Some(q.user), 1)
  }

  lemma CreatedIs(q: Request, typeId: DocumentTypeId, id: DocumentId, fields: Fields, actions: Actions)
    ensures CreatedFrom(q, typeId, id, fields, actions, Created(q, typeId, id, fields, actions))
  {
    MutatedIsActedOn(map[], actions);
    hide Mutated, ActedOn;
  }

  /** An update is refused for a document that is not there, without permission, for actions
      that may not be taken and for content that would not be accepted; else it replaces the
      attributes that it names and leaves the publication state and the creation alone. */
  ghost predicate UpdatePromise(reg: SchemaRegistry, rules: Rules, docs: Documents, q: Request, o: Outcome)
    requires q.command.Update?
  {
    var Update(typeId, id, fields, actions, populate) := q.command;
    var k := Key(typeId, id);
    if !q.canRead then o == Outcome(docs, Err(StorageFailed))
    else if k !in docs then o == Outcome(docs, Err(InstanceNotFound))
    else if !q.permitted then o == Outcome(docs, Err(Forbidden))
    else
      var d := docs[k];
      var sound := MayActOnAll(reg, typeId, d.relations, actions)
                   && AcceptedFor(reg, rules, d.typeId, d.fields + fields);
      if !sound then o == Outcome(docs, Err(Invalid))
      else if !q.canWrite then o == Outcome(docs, Err(StorageFailed))
      else
        var t := KeyOf(d);
        && o.result == (if populate.FetchFails? then Err(StorageFailed) else Ok(()))
        && t in o.docs && OnlyAt(t, docs, o.docs) && UpdatedFrom(d, q, fields, actions, o.docs[t])
  }

  ghost predicate UpdatedFrom(d: Document, q: Request, fields: Fields, actions: Actions, x: Document) {
    && x.id == d.id && x.typeId == d.typeId && x.state == d.state
    && (forall a :: a in x.fields <==> a in d.fields || a in fields)
    && (forall a | a in x.fields :: x.fields[a] == if a in fields then fields[a] else d.fields[a])
    && ActedOn(d.relations, actions, x.relations)
    && x.audit.createdAt == d.audit.createdAt && x.audit.createdBy == d.audit.createdBy
    && x.audit.updatedAt == q.now && x.audit.updatedBy == Some(q.user)
    && NextOf(d.audit.version, x.audit.version)
  }

  lemma UpdatedIs(d: Document, q: Request, fields: Fields, actions: Actions)
    ensures UpdatedFrom(d, q, fields, actions, Updated(q, d, fields, actions))
  {
    MutatedIsActedOn(d.relations, actions);
    WrapIsNext(d.audit.version);
    hide Mutated, ActedOn, Wrap, NextOf;
  }

  /** One more, from the greatest number back to nought. */
  predicate NextOf(n: u32, m: u32) { if n == 0xFFFF_FFFF then m == 0 else m == n + 1 }

  /** A delete that succeeds removes its document and nothing else; it succeeds exactly when
      the port answers and takes writes, the document is there and the caller is permitted. */
  ghost predicate DeletePromise(docs: Documents, q: Request, o: Outcome)
    requires q.command.Delete?
  {
    var k := Key(q.command.typeId, q.command.id);
    && (o.result.Ok? <==> q.canRead && k in docs && q.permitted && q.canWrite)
    && (o.result == Err(InstanceNotFound) <==> q.canRead && k !in docs)
    && (o.result == Err(Forbidden) <==> q.canRead && k in docs && !q.permitted)
    && (o.result.Err? ==> o.result.error in {StorageFailed, InstanceNotFound, Forbidden} && o.docs == docs)
    && (o.result.Ok? ==> k !in o.docs && OnlyAt(k, docs, o.docs))
  }

  /** Publishing and unpublishing go by the guards in this order. Publishing gives the next
      revision, the time and the publisher; unpublishing keeps the revision in mind and
      leaves the editor. Content, relations and creation stay. */
  ghost predicate TransitionPromise(reg: SchemaRegistry, docs: Documents, q: Request, o: Outcome)
    requires q.command.Publish? || q.command.Unpublish?
  {
    var k := Key(q.command.typeId, q.command.id);
    if !q.canRead then o == Outcome(docs, Err(StorageFailed))
    else if k !in docs then o == Outcome(docs, Err(InstanceNotFound))
    else if !q.permitted then o == Outcome(docs, Err(Forbidden))
    else if reg.FindType(k.typeId).None? then o == Outcome(docs, Err(TypeNotFound))
    else if !reg.FindType(k.typeId).value.draftAndPublish then o == Outcome(docs, Err(Conflict))
    else if q.command.Unpublish? && docs[k].state.Draft? then o == Outcome(docs, Err(BadTransition))
    else if !q.canWrite then o == Outcome(docs, Err(StorageFailed))
    else
      var d := docs[k];
      var t := KeyOf(d);
      && o.result.Ok? && t in o.docs && OnlyAt(t, docs, o.docs)
      && var x := o.docs[t];
      && x.id == d.id && x.typeId == d.typeId && x.fields == d.fields && x.relations == d.relations
      && x.audit.createdAt == d.audit.createdAt && x.audit.createdBy == d.audit.createdBy
      && x.audit.updatedAt == q.now && NextOf(d.audit.version, x.audit.version)
      && if q.command.Publish? then
           && x.state.Published? && x.state.publishedAt == q.now && x.state.publishedBy == Some(q.user)
           && x.audit.updatedBy == Some(q.user)
           && match d.state
              case Draft(None) => x.state.revision == 1
              case Draft(Some(r)) => NextOf(r, x.state.revision)
              case Published(r, _, _) => NextOf(r, x.state.revision)
         else x.state == Draft(Some(d.state.revision)) && x.audit.updatedBy == d.audit.updatedBy
  }

  lemma WrapIsNext(n: u32)
    ensures NextOf(n, Wrap(n + 1))
  {
  }

  lemma CreateKeepsPromise(reg: SchemaRegistry, rules: Rules, docs: Documents, q: Request)
    requires q.command.Create?
    ensures CreatePromise(reg, rules, docs, q, PerformCreate(reg, rules, docs, q))
  {
    var Create(typeId, id, fields, actions, populate) := q.command;
    AllAllowedIsMayAct(reg, typeId, map[], actions);
    ValidForIsAccepted(reg, rules, typeId, fields);
    CreatedIs(q, typeId, id, fields, actions);
    assert KeyOf(Created(q, typeId, id, fields, actions)) == Key(typeId, id);
    hide AllAllowed, ValidFor, MayActOnAll, AcceptedFor, Created, CreatedFrom;
  }

  lemma UpdateKeepsPromise(reg: SchemaRegistry, rules: Rules, docs: Documents, q: Request)
    requires q.command.Update?
    ensures UpdatePromise(reg, rules, docs, q, PerformUpdate(reg, rules, docs, q))
  {
    var Update(typeId, id, fields, actions, populate) := q.command;
    var k := Key(typeId, id);
    if k in docs {
      AllAllowedIsMayAct(reg, typeId, docs[k].relations, actions);
      ValidForIsAccepted(reg, rules, docs[k].typeId, docs[k].fields + fields);
      UpdatedIs(docs[k], q, fields, actions);
      assert KeyOf(Updated(q, docs[k], fields, actions)) == KeyOf(docs[k]);
    }
    hide AllAllowed, ValidFor, MayActOnAll, AcceptedFor, UpdatedFrom, Updated;
  }

  lemma DeleteKeepsPromise(docs: Documents, q: Request)
    requires q.command.Delete?
    ensures DeletePromise(docs, q, PerformDelete(docs, q))
  {
  }

  lemma TransitionKeepsPromise(reg: SchemaRegistry, docs: Documents, q: Request)
    requires q.command.Publish? || q.command.Unpublish?
    ensures TransitionPromise(reg, docs, q, PerformTransition(reg, docs, q))
  {
    var k := Key(q.command.typeId, q.command.id);
    if k in docs {
      WrapIsNext(docs[k].audit.version);
      WrapIsNext(LastRevision(docs[k]));
    }
    assert Wrap(0 + 1) == 1;
    hide Wrap, NextOf;
  }

  /** The result of a command without the document that it returns. */
  function Reported<T>(r: Result<T, ServiceError>): Result<(), ServiceError> {
    match r
    case Ok(_) => Ok(())
    case Err(e) => Err(e)
  }

  // ----- the service -----------------------------------------------------------------------------

  class Service {
    const reg: SchemaRegistry
    const rules: Rules
    /** What the port holds. */
    var docs: Documents

    constructor (reg: SchemaRegistry, rules: Rules)
      ensures this.reg == reg && this.rules == rules && docs == map[]
    {
      this.reg, this.rules, docs := reg, rules, map[];
    }

    ghost predicate SchemaOk() {
      forall t | t in reg.types :: DistinctFields(t.fields)
    }

    /** Content validation of the type by id; an unknown type is an error too. */
    method Validate(typeId: DocumentTypeId, fields: Fields) returns (ok: bool)
      requires SchemaOk()
      ensures ok <==> ValidFor(reg, rules, typeId, fields)
    {
      hide ContentValid, Violates;
      var found := reg.FindType(typeId);
      if found.None? {
        return false;
      }
      var errors := ValidateContent(found.value, fields, rules);
      ValidForIsAccepted(reg, rules, typeId, fields);
      hide ContentAccepted;
      return errors == [];
    }

    method Save(q: Request, d: Document) returns (ok: bool)
      modifies this`docs
      ensures ok == q.canWrite && docs == if ok then old(docs)[KeyOf(d) := d] else old(docs)
    {
      ok := q.canWrite;
      if ok {
        docs := docs[KeyOf(d) := d];
      }
    }

    method Create(q: Request) returns (r: Result<Document, ServiceError>)
      requires SchemaOk() && q.command.Create?
      modifies this`docs
      ensures Outcome(docs, Reported(r)) == PerformCreate(reg, rules, old(docs), q)
      ensures CreatePromise(reg, rules, old(docs), q, Outcome(docs, Reported(r)))
      ensures r.Ok? ==> KeyOf(r.value) in docs && docs[KeyOf(r.value)] == r.value
    {
      CreateKeepsPromise(reg, rules, docs, q);
      hide Mutated, ValidFor, AllAllowed, CreatePromise;
      var Create(typeId, newId, fields, actions, populate) := q.command;
      if !q.permitted {
        return Err(Forbidden);
      }
      var found := reg.FindType(typeId);
      if found.None? {
        return Err(TypeNotFound);
      }
      if found.value.kind.SingleType? {
        if !q.canRead {
          return Err(StorageFailed);
        }
        if Exists(docs, typeId) {
          return Err(SingleTypeAlreadyExists);
        }
      }
      var inst := new DocumentInstance(newId, typeId, Some(q.user), q.now);
      inst.fields := fields;
      var applied := ValidateAndApplyRelations(reg, typeId, inst, actions);
      if applied.Err? {
        return Err(applied.error);
      }
      var valid := Validate(typeId, inst.fields);
      if !valid {
        return Err(Invalid);
      }
      var d := Document(inst.id, inst.typeId, inst.fields, inst.state, inst.relations, inst.audit);
      var ok := Save(q, d);
      if !ok || populate.FetchFails? {
        return Err(StorageFailed);
      }
      return Ok(d);
    }

    method Update(q: Request) returns (r: Result<Document, ServiceError>)
      requires SchemaOk() && q.command.Update?
      modifies this`docs
      ensures Outcome(docs, Reported(r)) == PerformUpdate(reg, rules, old(docs), q)
      ensures UpdatePromise(reg, rules, old(docs), q, Outcome(docs, Reported(r)))
      ensures r.Ok? ==> KeyOf(r.value) in docs && docs[KeyOf(r.value)] == r.value
    {
      UpdateKeepsPromise(reg, rules, docs, q);
      hide Mutated, ValidFor, AllAllowed, UpdatePromise;
      var Update(typeId, id, fields, actions, populate) := q.command;
      var k := Key(typeId, id);
      if !q.canRead {
        return Err(StorageFailed);
      }
      if k !in docs {
        return Err(InstanceNotFound);
      }
      if !q.permitted {
        return Err(Forbidden);
      }
      var inst := new DocumentInstance.Load(docs[k]);
      inst.fields := inst.fields + fields;
      var applied := ValidateAndApplyRelations(reg, typeId, inst, actions);
      if applied.Err? {
        return Err(applied.error);
      }
      inst.Touch(Some(q.user), q.now);
      var valid := Validate(inst.typeId, inst.fields);
      if !valid {
        return Err(Invalid);
      }
      var d := Document(inst.id, inst.typeId, inst.fields, inst.state, inst.relations, inst.audit);
      var ok := Save(q, d);
      if !ok || populate.FetchFails? {
        return Err(StorageFailed);
      }
      return Ok(d);
    }

    method Delete(q: Request) returns (r: Result<(), ServiceError>)
      requires q.command.Delete?
      modifies this`docs
      ensures Outcome(docs, r) == PerformDelete(old(docs), q)
      ensures DeletePromise(old(docs), q, Outcome(docs, r))
    {
      DeleteKeepsPromise(docs, q);
      hide DeletePromise;
      var k := Key(q.command.typeId, q.command.id);
      if !q.canRead {
        return Err(StorageFailed);
      }
      if k !in docs {
        return Err(InstanceNotFound);
      }
      if !q.permitted {
        return Err(Forbidden);
      }
      if !q.canWrite {
        return Err(StorageFailed);
      }
      docs := docs - {k};
      return Ok(());
    }

    /** Publishing and unpublishing. */
    method Transition(q: Request) returns (r: Result<Document, ServiceError>)
      requires q.command.Publish? || q.command.Unpublish?
      modifies this`docs
      ensures Outcome(docs, Reported(r)) == PerformTransition(reg, old(docs), q)
      ensures TransitionPromise(reg, old(docs), q, Outcome(docs, Reported(r)))
      ensures r.Ok? ==> KeyOf(r.value) in docs && docs[KeyOf(r.value)] == r.value
    {
      TransitionKeepsPromise(reg, docs, q);
      hide TransitionPromise;
      var k := Key(q.command.typeId, q.command.id);
      if !q.canRead {
        return Err(StorageFailed);
      }
      if k !in docs {
        return Err(InstanceNotFound);
      }
      if !q.permitted {
        return Err(Forbidden);
      }
      var found := reg.FindType(k.typeId);
      if found.None? {
        return Err(TypeNotFound);
      }
      if !found.value.draftAndPublish {
        return Err(Conflict);
      }
      var inst := new DocumentInstance.Load(docs[k]);
      if q.command.Publish? {
        var revision := inst.Publish(Some(q.user), q.now);
      } else {
        var done := inst.Unpublish(q.now);
        if done.Err? {
          return Err(BadTransition);
        }
      }
      var d := Document(inst.id, inst.typeId, inst.fields, inst.state, inst.relations, inst.audit);
      var ok := Save(q, d);
      if !ok {
        return Err(StorageFailed);
      }
      return Ok(d);
    }
  }
}
