/** What holds after any sequence of commands, succeeding or not. */
module ServiceRuns {
  import opened Wrappers
  import opened DomainSchema
  import opened Content
  import opened Validator
  import opened Instance
  import opened DocumentStore
  import opened DocumentsService

  // ----- the invariant --------------------------------------------------------------------

  ghost predicate ListHolds(reg: SchemaRegistry, typeId: DocumentTypeId, attr: AttributeId, list: seq<DocumentId>) {
    var rel := reg.FindRelationForAttr(typeId, attr);
    && rel.Some? && rel.value.ownerType == typeId && rel.value.ownerAttr == attr
    && NoDuplicates(list)
    && (rel.value.ownerKind.HasOne? ==> |list| <= 1)
  }

  ghost predicate RelationsHold(reg: SchemaRegistry, typeId: DocumentTypeId, relations: Relations) {
    forall a | a in relations :: ListHolds(reg, typeId, a, relations[a])
  }

  ghost predicate DocumentHolds(reg: SchemaRegistry, rules: Rules, k: Key, d: Document) {
    && KeyOf(d) == k
    && ValidFor(reg, rules, k.typeId, d.fields)
    && RelationsHold(reg, k.typeId, d.relations)
    && (!reg.FindType(k.typeId).value.draftAndPublish ==> d.state == Draft(None))
  }

  ghost predicate Singletons(reg: SchemaRegistry, docs: Documents) {
    forall k, o | k in docs && o in docs && k.typeId == o.typeId && reg.FindType(k.typeId).Some?
                  && reg.FindType(k.typeId).value.kind.SingleType? :: k == o
  }

  ghost predicate Safe(reg: SchemaRegistry, rules: Rules, docs: Documents) {
    (forall k | k in docs :: DocumentHolds(reg, rules, k, docs[k])) && Singletons(reg, docs)
  }

  // ----- relation lists --------------------------------------------------------------------

  lemma {:induction false} ElementsOfDistinct(list: seq<DocumentId>)
    requires NoDuplicates(list)
    ensures |Elements(list)| == |list|
  {
    if list != [] {
      var n := |list| - 1;
      ElementsOfDistinct(list[..n]);
      assert list == list[..n] + [list[n]];
      assert Elements(list) == Elements(list[..n]) + {list[n]};
      assert list[n] !in Elements(list[..n]);
    }
  }

  lemma FewElements(list: seq<DocumentId>, xs: set<DocumentId>)
    requires NoDuplicates(list) && (forall x | x in list :: x in xs) && |xs| <= 1
    ensures |list| <= 1
  {
    ElementsOfDistinct(list);
    assert xs == Elements(list) + (xs - Elements(list));
    assert |xs| == |Elements(list)| + |xs - Elements(list)|;
  }

  lemma ActionKeepsList(reg: SchemaRegistry, typeId: DocumentTypeId, attr: AttributeId, list: Option<seq<DocumentId>>,
                        action: RelationAction)
    requires ActionAllowed(reg, typeId, attr, list, action)
    requires list.Some? ==> ListHolds(reg, typeId, attr, list.value)
    ensures Acted(list, action).Some? ==> ListHolds(reg, typeId, attr, Acted(list, action).value)
  {
    var before := if list.Some? then list.value else [];
    match action
    case SetTo(targets) =>
      AppendedIsUnion([], targets);
      if reg.FindRelationForAttr(typeId, attr).value.ownerKind.HasOne? {
        FewElements(Appended([], targets), Elements(targets));
      }
    case Connect(targets) =>
      AppendedIsUnion(before, targets);
      if reg.FindRelationForAttr(typeId, attr).value.ownerKind.HasOne? {
        FewElements(Appended(before, targets), Elements(targets) + Elements(before));
      }
    case Disconnect(targets) =>
      WithoutIsDifference(before, targets);
    case Unset =>
  }

  lemma ActionsKeepRelations(reg: SchemaRegistry, typeId: DocumentTypeId, before: Relations, actions: Actions)
    requires RelationsHold(reg, typeId, before) && AllAllowed(reg, typeId, before, actions)
    ensures RelationsHold(reg, typeId, Mutated(before, actions))
  {
    hide ListHolds, ActionAllowed, Acted, Mutated;
    var after := Mutated(before, actions);
    forall a | a in after ensures ListHolds(reg, typeId, a, after[a]) {
      assert ListAt(after, a) == if a in actions then Acted(ListAt(before, a), actions[a]) else ListAt(before, a);
      if a in actions {
        ActionKeepsList(reg, typeId, a, ListAt(before, a), actions[a]);
      }
    }
  }

  // ----- one command -----------------------------------------------------------------------

  /** The document a command is about. */
  function Subject(q: Request): Key {
    Key(q.command.typeId, if q.command.Create? then q.command.newId else q.command.id)
  }

  lemma StoredKeepsSafe(reg: SchemaRegistry, rules: Rules, docs: Documents, d: Document)
    requires Safe(reg, rules, docs) && DocumentHolds(reg, rules, KeyOf(d), d)
    requires KeyOf(d) in docs || !Exists(docs, d.typeId) || !reg.FindType(d.typeId).value.kind.SingleType?
    ensures Safe(reg, rules, docs[KeyOf(d) := d])
  {
    hide DocumentHolds;
    var after := docs[KeyOf(d) := d];
    assert forall k | k in docs :: Exists(docs, k.typeId);
  }

  lemma CreateKeepsSafe(reg: SchemaRegistry, rules: Rules, docs: Documents, q: Request)
    requires Safe(reg, rules, docs) && q.command.Create?
    ensures Safe(reg, rules, PerformCreate(reg, rules, docs, q).docs)
  {
    hide Safe, ValidFor, RelationsHold, Mutated, AllAllowed, Exists;
    var Create(typeId, newId, fields, actions, populate) := q.command;
    if PerformCreate(reg, rules, docs, q).docs != docs {
      assert RelationsHold(reg, typeId, map[]) by { NoRelations(reg, typeId); }
      ActionsKeepRelations(reg, typeId, map[], actions);
      var d := Created(q, typeId, newId, fields, actions);
      assert DocumentHolds(reg, rules, KeyOf(d), d);
      StoredKeepsSafe(reg, rules, docs, d);
    }
  }

  lemma NoRelations(reg: SchemaRegistry, typeId: DocumentTypeId)
    ensures RelationsHold(reg, typeId, map[])
  {
  }

  lemma UpdateKeepsSafe(reg: SchemaRegistry, rules: Rules, docs: Documents, q: Request)
    requires Safe(reg, rules, docs) && q.command.Update?
    ensures Safe(reg, rules, PerformUpdate(reg, rules, docs, q).docs)
  {
    hide ValidFor, RelationsHold, Mutated, AllAllowed, Singletons;
    var Update(typeId, id, fields, actions, populate) := q.command;
    var k := Key(typeId, id);
    if PerformUpdate(reg, rules, docs, q).docs != docs {
      assert DocumentHolds(reg, rules, k, docs[k]);
      ActionsKeepRelations(reg, typeId, docs[k].relations, actions);
      var d := Updated(q, docs[k], fields, actions);
      assert DocumentHolds(reg, rules, k, d);
      hide Safe;
      StoredKeepsSafe(reg, rules, docs, d);
    }
  }

  lemma TransitionKeepsSafe(reg: SchemaRegistry, rules: Rules, docs: Documents, q: Request)
    requires Safe(reg, rules, docs) && (q.command.Publish? || q.command.Unpublish?)
    ensures Safe(reg, rules, PerformTransition(reg, docs, q).docs)
  {
    hide ValidFor, RelationsHold, Singletons;
    var k := Key(q.command.typeId, q.command.id);
    if PerformTransition(reg, docs, q).docs != docs {
      assert DocumentHolds(reg, rules, k, docs[k]);
      var d := if q.command.Publish? then AfterPublish(docs[k], Some(q.user), q.now)
               else AfterUnpublish(docs[k], q.now);
      assert DocumentHolds(reg, rules, k, d);
      hide Safe;
      StoredKeepsSafe(reg, rules, docs, d);
    }
  }

  lemma CommandKeepsSafe(reg: SchemaRegistry, rules: Rules, docs: Documents, q: Request)
    requires Safe(reg, rules, docs)
    ensures Safe(reg, rules, Perform(reg, rules, docs, q).docs)
  {
    match q.command
    case Create(_, _, _, _, _) => CreateKeepsSafe(reg, rules, docs, q);
    case Update(_, _, _, _, _) => UpdateKeepsSafe(reg, rules, docs, q);
    case Delete(_, _) => hide DocumentHolds;
    case Publish(_, _) => TransitionKeepsSafe(reg, rules, docs, q);
    case Unpublish(_, _) => TransitionKeepsSafe(reg, rules, docs, q);
  }

  /** A command that fails leaves the documents as they were, with one exception: it has
      saved its document, and only fetching the related ones failed. Then exactly what the
      command without that request does is done, and reported as a failure. */
  lemma FailedCommand(reg: SchemaRegistry, rules: Rules, docs: Documents, q: Request)
    requires Perform(reg, rules, docs, q).result.Err?
    ensures var asked := (q.command.Create? || q.command.Update?) && q.command.populate.FetchFails?;
            && (!asked ==> Perform(reg, rules, docs, q).docs == docs)
            && (asked ==> Perform(reg, rules, docs, q).docs
                          == Perform(reg, rules, docs, q.(command := q.command.(populate := NotAsked))).docs)
  {
    hide ValidFor, AllAllowed, Mutated;
  }

  lemma StoredElsewhere(docs: Documents, q: Request, d: Document, populate: Populate)
    ensures Stored(docs, q, d, populate).docs - {KeyOf(d)} == docs - {KeyOf(d)}
  {
  }

  lemma UpdateElsewhere(reg: SchemaRegistry, rules: Rules, docs: Documents, q: Request)
    requires q.command.Update? && (Subject(q) in docs ==> KeyOf(docs[Subject(q)]) == Subject(q))
    ensures PerformUpdate(reg, rules, docs, q).docs - {Subject(q)} == docs - {Subject(q)}
  {
    hide ValidFor, AllAllowed, Mutated, Wrap, Stored;
    if Subject(q) in docs {
      StoredElsewhere(docs, q, Updated(q, docs[Subject(q)], q.command.fields, q.command.actions), q.command.populate);
    }
  }

  lemma TransitionElsewhere(reg: SchemaRegistry, docs: Documents, q: Request)
    requires (q.command.Publish? || q.command.Unpublish?)
             && (Subject(q) in docs ==> KeyOf(docs[Subject(q)]) == Subject(q))
    ensures PerformTransition(reg, docs, q).docs - {Subject(q)} == docs - {Subject(q)}
  {
    hide Wrap;
  }

  lemma CreateElsewhere(reg: SchemaRegistry, rules: Rules, docs: Documents, q: Request)
    requires q.command.Create?
    ensures PerformCreate(reg, rules, docs, q).docs - {Subject(q)} == docs - {Subject(q)}
  {
    hide ValidFor, AllAllowed, Mutated, Stored, Exists;
    var Create(typeId, newId, fields, actions, populate) := q.command;
    StoredElsewhere(docs, q, Created(q, typeId, newId, fields, actions), populate);
  }

  lemma DeleteElsewhere(docs: Documents, q: Request)
    requires q.command.Delete?
    ensures PerformDelete(docs, q).docs - {Subject(q)} == docs - {Subject(q)}
  {
  }

  /** A command touches no document but its own. */
  lemma CommandFrame(reg: SchemaRegistry, rules: Rules, docs: Documents, q: Request)
    requires Safe(reg, rules, docs)
    ensures Perform(reg, rules, docs, q).docs - {Subject(q)} == docs - {Subject(q)}
  {
    assert Subject(q) in docs ==> DocumentHolds(reg, rules, Subject(q), docs[Subject(q)]);
    hide Safe, ValidFor, RelationsHold, PerformCreate, PerformUpdate, PerformDelete, PerformTransition;
    match q.command
    case Create(_, _, _, _, _) => CreateElsewhere(reg, rules, docs, q);
    case Update(_, _, _, _, _) => UpdateElsewhere(reg, rules, docs, q);
    case Delete(_, _) => DeleteElsewhere(docs, q);
    case Publish(_, _) => TransitionElsewhere(reg, docs, q);
    case Unpublish(_, _) => TransitionElsewhere(reg, docs, q);
  }

  /** An update keeps the attributes it does not name and replaces those it names; it takes
      each relation action on the list that was there; it never moves a document between
      draft and published. */
  lemma UpdateIsPartial(reg: SchemaRegistry, rules: Rules, docs: Documents, q: Request)
    requires Safe(reg, rules, docs) && q.command.Update? && Perform(reg, rules, docs, q).result.Ok?
    ensures var k := Subject(q);
            && k in docs && k in Perform(reg, rules, docs, q).docs
            && var before, after := docs[k], Perform(reg, rules, docs, q).docs[k];
            && (forall a ::
                  ValueOf(after.fields, a)
                  == ValueOf(if a in q.command.fields then q.command.fields else before.fields, a))
            && IsMutated(before.relations, q.command.actions, after.relations)
            && after.state == before.state
            && after.audit.createdBy == before.audit.createdBy && after.audit.createdAt == before.audit.createdAt
            && after.audit.updatedBy == Some(q.user) && after.audit.updatedAt == q.now
  {
    assert Subject(q) in docs ==> DocumentHolds(reg, rules, Subject(q), docs[Subject(q)]);
    hide Safe, ValidFor, AllAllowed, Wrap, RelationsHold, IsMutated, PerformCreate, PerformDelete, PerformTransition;
  }

  // ----- runs --------------------------------------------------------------------------------

  function Served(reg: SchemaRegistry, rules: Rules, qs: seq<Request>): Documents {
    if qs == [] then map[] else Perform(reg, rules, Served(reg, rules, qs[..|qs| - 1]), qs[|qs| - 1]).docs
  }

  /** After any sequence of commands every stored document is valid for its type, its
      relation lists are its own, free of duplicates and no longer than their kind allows,
      only types with draft-and-publish have published documents, and a singleton has one
      document at most. */
  lemma {:induction false} ServedIsSafe(reg: SchemaRegistry, rules: Rules, qs: seq<Request>)
    ensures Safe(reg, rules, Served(reg, rules, qs))
  {
    if qs != [] {
      hide Safe, Perform;
      ServedIsSafe(reg, rules, qs[..|qs| - 1]);
      CommandKeepsSafe(reg, rules, Served(reg, rules, qs[..|qs| - 1]), qs[|qs| - 1]);
    }
  }

  // ----- publication history -------------------------------------------------------------------

  /** What a command that goes through does to the document with this key. */
  function ChangeTo(reg: SchemaRegistry, rules: Rules, docs: Documents, q: Request, k: Key): Option<Change> {
    var after := Perform(reg, rules, docs, q).docs;
    if k !in docs || k !in after || after[k] == docs[k] then None
    else
      match q.command
      case Create(_, _, _, _, _) => None
      case Update(typeId, id, fields, actions, _) =>
        Some(Change.Update(Some(q.user), q.now, docs[k].fields + fields, Mutated(docs[k].relations, actions)))
      case Delete(_, _) => None
      case Publish(_, _) => Some(PublishIt(Some(q.user), q.now))
      case Unpublish(_, _) => Some(UnpublishIt(q.now))
  }

  predicate Creates(reg: SchemaRegistry, rules: Rules, docs: Documents, q: Request, k: Key) {
    q.command.Create? && k == Subject(q) && Perform(reg, rules, docs, q).docs != docs
  }

  /** The document as it was last created, and the changes to it since. */
  datatype Past = Past(born: Option<Document>, changes: seq<Change>)

  function PastOf(reg: SchemaRegistry, rules: Rules, qs: seq<Request>, k: Key): Past {
    if qs == [] then Past(None, [])
    else
      var n := |qs| - 1;
      var past, docs := PastOf(reg, rules, qs[..n], k), Served(reg, rules, qs[..n]);
      var after := Perform(reg, rules, docs, qs[n]).docs;
      if Creates(reg, rules, docs, qs[n], k) && k in after then Past(Some(after[k]), [])
      else if k !in after then Past(None, [])
      else
        match ChangeTo(reg, rules, docs, qs[n], k)
        case Some(c) => Past(past.born, past.changes + [c])
        case None => past
  }

  /** How one command changes one document: it creates it, or changes it by one change that
      the aggregate takes, or leaves it. */
  ghost predicate Explained(reg: SchemaRegistry, rules: Rules, docs: Documents, q: Request, k: Key) {
    var after, change := Perform(reg, rules, docs, q).docs, ChangeTo(reg, rules, docs, q, k);
    if Creates(reg, rules, docs, q, k) then
      k in after && after[k].state == Draft(None) && after[k].audit.version == 1
    else
      k in after ==>
        && k in docs
        && (change.None? ==> after[k] == docs[k])
        && (change.Some? ==> Takes(docs[k], change.value) && after[k] == AfterChange(docs[k], change.value))
  }

  lemma CreateExplained(reg: SchemaRegistry, rules: Rules, docs: Documents, q: Request, k: Key)
    requires q.command.Create?
    ensures Explained(reg, rules, docs, q, k)
  {
    hide ValidFor, Mutated, AllAllowed, AfterChange;
  }

  lemma UpdateExplained(reg: SchemaRegistry, rules: Rules, docs: Documents, q: Request, k: Key)
    requires q.command.Update? && (Subject(q) in docs ==> KeyOf(docs[Subject(q)]) == Subject(q))
    ensures Explained(reg, rules, docs, q, k)
  {
    hide ValidFor, Mutated, AllAllowed, Wrap;
  }

  lemma TransitionExplained(reg: SchemaRegistry, rules: Rules, docs: Documents, q: Request, k: Key)
    requires (q.command.Publish? || q.command.Unpublish?)
             && (Subject(q) in docs ==> KeyOf(docs[Subject(q)]) == Subject(q))
    ensures Explained(reg, rules, docs, q, k)
  {
    hide Wrap;
  }

  lemma DeleteExplained(reg: SchemaRegistry, rules: Rules, docs: Documents, q: Request, k: Key)
    requires q.command.Delete?
    ensures Explained(reg, rules, docs, q, k)
  {
    hide AfterChange;
  }

  lemma CommandExplained(reg: SchemaRegistry, rules: Rules, docs: Documents, q: Request, k: Key)
    requires Safe(reg, rules, docs)
    ensures Explained(reg, rules, docs, q, k)
  {
    assert Subject(q) in docs ==> DocumentHolds(reg, rules, Subject(q), docs[Subject(q)]);
    hide Explained, Safe, Perform;
    match q.command
    case Create(_, _, _, _, _) => CreateExplained(reg, rules, docs, q, k);
    case Update(_, _, _, _, _) => UpdateExplained(reg, rules, docs, q, k);
    case Delete(_, _) => DeleteExplained(reg, rules, docs, q, k);
    case Publish(_, _) => TransitionExplained(reg, rules, docs, q, k);
    case Unpublish(_, _) => TransitionExplained(reg, rules, docs, q, k);
  }

  lemma {:induction false} StoredIsItsPast(reg: SchemaRegistry, rules: Rules, qs: seq<Request>, k: Key)
    requires k in Served(reg, rules, qs)
    ensures var past := PastOf(reg, rules, qs, k);
            && past.born.Some? && past.born.value.state == Draft(None) && past.born.value.audit.version == 1
            && Served(reg, rules, qs)[k] == Life(past.born.value, past.changes)
            && Effective(past.born.value, past.changes) == |past.changes|
  {
    hide Perform, ChangeTo, Creates, Safe, AfterChange, Takes;
    var n := |qs| - 1;
    var docs := Served(reg, rules, qs[..n]);
    ServedIsSafe(reg, rules, qs[..n]);
    CommandExplained(reg, rules, docs, qs[n], k);
    if !Creates(reg, rules, docs, qs[n], k) {
      StoredIsItsPast(reg, rules, qs[..n], k);
      var past := PastOf(reg, rules, qs[..n], k);
      var change := ChangeTo(reg, rules, docs, qs[n], k);
      if change.Some? {
        assert (past.changes + [change.value])[..|past.changes|] == past.changes;
      }
    }
  }

  lemma AllTakeEffect(d: Document, cs: seq<Change>)
    requires d.state == Draft(None) && d.audit.version == 1 && Effective(d, cs) == |cs|
    ensures LastRevision(Life(d, cs)) == Wrap(Publications(cs)) && Life(d, cs).audit.version == Wrap(1 + |cs|)
    ensures Publications(cs) <= |cs|
    ensures 1 + |cs| < U32_RANGE ==>
            LastRevision(Life(d, cs)) == Publications(cs) < Life(d, cs).audit.version == 1 + |cs|
  {
    hide Wrap, Life, LastRevision, Publications, Effective;
    PublicationHistory(d, cs);
  }

  /** The revision of a stored document is the number of times it was published since it was
      created, through any unpublishing between; its version counts its changes; and as long
      as the version has not wrapped, the revision is below it. */
  lemma RevisionsCountPublications(reg: SchemaRegistry, rules: Rules, qs: seq<Request>, k: Key)
    requires k in Served(reg, rules, qs)
    ensures var d, cs := Served(reg, rules, qs)[k], PastOf(reg, rules, qs, k).changes;
            && LastRevision(d) == Wrap(Publications(cs)) && d.audit.version == Wrap(1 + |cs|)
            && Publications(cs) <= |cs|
            && (1 + |cs| < U32_RANGE ==> LastRevision(d) == Publications(cs) < d.audit.version == 1 + |cs|)
  {
    hide Wrap, Served, PastOf, Life, LastRevision, Publications, Effective;
    StoredIsItsPast(reg, rules, qs, k);
    var past := PastOf(reg, rules, qs, k);
    AllTakeEffect(past.born.value, past.changes);
  }
}
