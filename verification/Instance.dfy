/** The document aggregate: relation lists, the audit trail and the publication state. */
module Instance {
  import opened Wrappers
  import opened DomainSchema
  import opened Content

  type DocumentId = nat

  type UserId = s: string | 0 < |s| <= 255 witness "system"

  const U32_RANGE: int := 0x1_0000_0000

  type u32 = x: int | 0 <= x < U32_RANGE

  /** Addition on `u32` as an optimised build does it: it wraps. */
  function Wrap(n: nat): u32 { n % U32_RANGE }

  datatype PublicationState =
    | Draft(lastPublishedRevision: Option<u32>)
    | Published(revision: u32, publishedAt: int, publishedBy: Option<UserId>)

  datatype AuditTrail = AuditTrail(
    createdAt: int, createdBy: Option<UserId>, updatedAt: int, updatedBy: Option<UserId>, version: u32)

  type Relations = map<AttributeId, seq<DocumentId>>

  datatype Document = Document(
    id: DocumentId, typeId: DocumentTypeId, fields: Fields, state: PublicationState,
    relations: Relations, audit: AuditTrail)

  datatype TransitionError = InvalidStateTransition

  // ----- relation lists ---------------------------------------------------------------

  /** `list`, then the targets not yet met. */
  function Appended(list: seq<DocumentId>, targets: seq<DocumentId>): seq<DocumentId> {
    if targets == [] then list
    else
      var n := |targets| - 1;
      var r := Appended(list, targets[..n]);
      if targets[n] in r then r else r + [targets[n]]
  }

  function Without(list: seq<DocumentId>, gone: seq<DocumentId>): seq<DocumentId> {
    if list == [] then []
    else
      var n := |list| - 1;
      Without(list[..n], gone) + if list[n] in gone then [] else [list[n]]
  }

  /** Connecting is an ordered union: old targets stay in place, new ones follow, once. */
  lemma {:induction false} AppendedIsUnion(list: seq<DocumentId>, targets: seq<DocumentId>)
    ensures list <= Appended(list, targets)
    ensures forall x :: x in Appended(list, targets) <==> x in list || x in targets
    ensures NoDuplicates(list) ==> NoDuplicates(Appended(list, targets))
  {
    if targets != [] {
      var n := |targets| - 1;
      AppendedIsUnion(list, targets[..n]);
      assert targets == targets[..n] + [targets[n]];
    }
  }

  lemma {:induction false} AppendedInStages(list: seq<DocumentId>, xs: seq<DocumentId>, ys: seq<DocumentId>)
    ensures Appended(list, xs + ys) == Appended(Appended(list, xs), ys)
  {
    if ys == [] {
      assert xs + ys == xs;
    } else {
      var n := |ys| - 1;
      AppendedInStages(list, xs, ys[..n]);
      assert (xs + ys)[..|xs| + n] == xs + ys[..n];
    }
  }

  /** Disconnecting is an ordered difference. */
  lemma {:induction false} WithoutIsDifference(list: seq<DocumentId>, gone: seq<DocumentId>)
    ensures forall x :: x in Without(list, gone) <==> x in list && x !in gone
    ensures NoDuplicates(list) ==> NoDuplicates(Without(list, gone))
    ensures |Without(list, gone)| <= |list|
  {
    if list != [] {
      var n := |list| - 1;
      WithoutIsDifference(list[..n], gone);
      assert list == list[..n] + [list[n]];
    }
  }

  /** Disconnecting what was just connected gives the list back, unless part of it was
      there before. */
  lemma DisconnectUndoesConnect(list: seq<DocumentId>, targets: seq<DocumentId>)
    ensures Without(Appended(list, targets), targets) == Without(list, targets)
    ensures Without(list, targets) == list <==> forall x | x in targets :: x !in list
  {
    WithoutAppended(list, targets, targets);
    WithoutIsDifference(list, targets);
    if forall x | x in targets :: x !in list {
      WithoutNothing(list, targets);
    }
  }

  lemma {:induction false} WithoutAppended(list: seq<DocumentId>, targets: seq<DocumentId>, gone: seq<DocumentId>)
    requires forall x | x in targets :: x in gone
    ensures Without(Appended(list, targets), gone) == Without(list, gone)
  {
    if targets != [] {
      var n := |targets| - 1;
      WithoutAppended(list, targets[..n], gone);
      var r := Appended(list, targets[..n]);
      assert (r + [targets[n]])[..|r|] == r;
    }
  }

  lemma {:induction false} WithoutNothing(list: seq<DocumentId>, gone: seq<DocumentId>)
    requires forall x | x in gone :: x !in list
    ensures Without(list, gone) == list
  {
    if list != [] {
      var n := |list| - 1;
      WithoutNothing(list[..n], gone);
    }
  }

  // ----- transitions --------------------------------------------------------------------

  function Touched(d: Document, user: Option<UserId>, now: int): Document {
    d.(audit := d.audit.(updatedAt := now, updatedBy := user, version := Wrap(d.audit.version + 1)))
  }

  /** The last revision ever published, 0 for none. */
  function LastRevision(d: Document): u32 {
    match d.state
    case Draft(None) => 0
    case Draft(Some(r)) => r
    case Published(r, _, _) => r
  }

  function AfterPublish(d: Document, user: Option<UserId>, now: int): Document {
    Touched(d.(state := Published(Wrap(LastRevision(d) + 1), now, user)), user, now)
  }

  function AfterUnpublish(d: Document, now: int): Document
    requires d.state.Published?
  {
    d.(state := Draft(Some(d.state.revision)),
       audit := d.audit.(updatedAt := now, version := Wrap(d.audit.version + 1)))
  }

  function NewDocument(id: DocumentId, typeId: DocumentTypeId, user: Option<UserId>, now: int): Document {
    Document(id, typeId, map[], Draft(None), map[], AuditTrail(now, user, now, user, 1))
  }

  class DocumentInstance {
    const id: DocumentId
    const typeId: DocumentTypeId
    var fields: Fields
    var state: PublicationState
    var relations: Relations
    var audit: AuditTrail

    ghost function View(): Document
      reads this
    {
      Document(id, typeId, fields, state, relations, audit)
    }

    constructor (id: DocumentId, typeId: DocumentTypeId, user: Option<UserId>, now: int)
      ensures View() == NewDocument(id, typeId, user, now)
    {
      this.id, this.typeId := id, typeId;
      fields, state, relations := map[], Draft(None), map[];
      audit := AuditTrail(now, user, now, user, 1);
    }

    /** A document loaded from storage. */
    constructor Load(d: Document)
      ensures View() == d
    {
      id, typeId := d.id, d.typeId;
      fields, state, relations, audit := d.fields, d.state, d.relations, d.audit;
    }

    method SetRelations(attr: AttributeId, targets: seq<DocumentId>)
      modifies this
      ensures View() == old(View()).(relations := old(relations)[attr := Appended([], targets)])
    {
      var list := AppendNew([], {}, targets);
      relations := relations[attr := list];
    }

    method ConnectRelations(attr: AttributeId, targets: seq<DocumentId>)
      modifies this
      ensures View()
              == old(View()).(relations := old(relations)[attr := Appended(TargetsOf(old(relations), attr), targets)])
    {
      var list := TargetsOf(relations, attr);
      list := AppendNew(list, (set x | x in list), targets);
      relations := relations[attr := list];
    }

    method DisconnectRelations(attr: AttributeId, targets: seq<DocumentId>)
      modifies this
      ensures View() == old(View()).(relations :=
                if attr in old(relations) then old(relations)[attr := Without(old(relations)[attr], targets)]
                else old(relations))
    {
      if attr in relations {
        var kept := Retain(relations[attr], (set x | x in targets), targets);
        relations := relations[attr := kept];
      }
    }

    method UnsetRelations(attr: AttributeId)
      modifies this
      ensures View() == old(View()).(relations := old(relations) - {attr})
    {
      relations := relations - {attr};
    }

    /** Always succeeds; returns the new revision. */
    method Publish(user: Option<UserId>, now: int) returns (revision: u32)
      modifies this
      ensures View() == AfterPublish(old(View()), user, now)
      ensures revision == Wrap(LastRevision(old(View())) + 1)
      ensures state.Published? && state.revision == revision
    {
      revision := match state
        case Draft(last) => Wrap((match last case Some(r) => r case None => 0) + 1)
        case Published(r, _, _) => Wrap(r + 1);
      state := Published(revision, now, user);
      Touch(user, now);
    }

    method Unpublish(now: int) returns (r: Result<(), TransitionError>)
      modifies this
      ensures r.Ok? <==> old(state).Published?
      ensures View() == if old(state).Published? then AfterUnpublish(old(View()), now) else old(View())
    {
      match state {
        case Published(revision, _, _) =>
          state := Draft(Some(revision));
          audit := audit.(updatedAt := now, version := Wrap(audit.version + 1));
          return Ok(());
        case Draft(_) =>
          return Err(InvalidStateTransition);
      }
    }

    method Touch(user: Option<UserId>, now: int)
      modifies this
      ensures View() == Touched(old(View()), user, now)
    {
      audit := audit.(updatedAt := now, updatedBy := user, version := Wrap(audit.version + 1));
    }
  }

  function TargetsOf(relations: Relations, attr: AttributeId): seq<DocumentId> {
    if attr in relations then relations[attr] else []
  }

  method AppendNew(list: seq<DocumentId>, met: set<DocumentId>, targets: seq<DocumentId>) returns (r: seq<DocumentId>)
    requires forall x :: x in met <==> x in list
    ensures r == Appended(list, targets)
  {
    r := list;
    var seen := met;
    for i := 0 to |targets|
      invariant r == Appended(list, targets[..i])
      invariant forall x :: x in seen <==> x in r
    {
      assert targets[..i + 1][..i] == targets[..i];
      if targets[i] !in seen {
        seen := seen + {targets[i]};
        r := r + [targets[i]];
      }
    }
    assert targets[..|targets|] == targets;
  }

  method Retain(list: seq<DocumentId>, gone: set<DocumentId>, ghost targets: seq<DocumentId>)
    returns (r: seq<DocumentId>)
    requires forall x :: x in gone <==> x in targets
    ensures r == Without(list, targets)
  {
    r := [];
    for i := 0 to |list|
      invariant r == Without(list[..i], targets)
    {
      assert list[..i + 1][..i] == list[..i];
      if list[i] !in gone {
        r := r + [list[i]];
      }
    }
    assert list[..|list|] == list;
  }

  // ----- the life of one document -------------------------------------------------------------

  datatype Change =
    | Update(user: Option<UserId>, at: int, fields: Fields, relations: Relations)
    | PublishIt(user: Option<UserId>, at: int)
    | UnpublishIt(at: int)

  predicate Takes(d: Document, c: Change) { c.UnpublishIt? ==> d.state.Published? }

  function AfterChange(d: Document, c: Change): Document {
    match c
    case Update(user, at, fields, relations) => Touched(d.(fields := fields, relations := relations), user, at)
    case PublishIt(user, at) => AfterPublish(d, user, at)
    case UnpublishIt(at) => if Takes(d, c) then AfterUnpublish(d, at) else d
  }

  function Life(d: Document, cs: seq<Change>): Document {
    if cs == [] then d else AfterChange(Life(d, cs[..|cs| - 1]), cs[|cs| - 1])
  }

  /** How many of the changes are publications, and how many took effect at all. */
  function Publications(cs: seq<Change>): nat {
    if cs == [] then 0 else Publications(cs[..|cs| - 1]) + if cs[|cs| - 1].PublishIt? then 1 else 0
  }

  function Effective(d: Document, cs: seq<Change>): nat {
    if cs == [] then 0
    else
      var n := |cs| - 1;
      Effective(d, cs[..n]) + if Takes(Life(d, cs[..n]), cs[n]) then 1 else 0
  }

  lemma WrapNext(n: nat)
    ensures Wrap(Wrap(n) + 1) == Wrap(n + 1)
  {
  }

  lemma OneChange(d: Document, c: Change)
    ensures LastRevision(AfterChange(d, c)) == if c.PublishIt? then Wrap(LastRevision(d) + 1) else LastRevision(d)
    ensures AfterChange(d, c).audit.version == if Takes(d, c) then Wrap(d.audit.version + 1) else d.audit.version
    ensures AfterChange(d, c).state == Draft(None) <==> d.state == Draft(None) && !c.PublishIt?
  {
    hide Wrap;
  }

  /** The n-th publication is revision n, whatever came between; the version counts every
      change that took effect; and until the version wraps, revisions stay below it. */
  lemma {:induction false} PublicationHistory(d: Document, cs: seq<Change>)
    requires d.state == Draft(None) && d.audit.version == 1
    ensures LastRevision(Life(d, cs)) == Wrap(Publications(cs))
    ensures Life(d, cs).state == Draft(None) <==> Publications(cs) == 0
    ensures Life(d, cs).audit.version == Wrap(1 + Effective(d, cs))
    ensures Publications(cs) <= Effective(d, cs)
    ensures 1 + Effective(d, cs) < U32_RANGE ==>
              && Life(d, cs).audit.version == 1 + Effective(d, cs)
              && LastRevision(Life(d, cs)) == Publications(cs) < Life(d, cs).audit.version
  {
    hide Wrap, AfterChange;
    if cs != [] {
      hide LastRevision;
      var n := |cs| - 1;
      PublicationHistory(d, cs[..n]);
      OneChange(Life(d, cs[..n]), cs[n]);
      WrapNext(Publications(cs[..n]));
      WrapNext(1 + Effective(d, cs[..n]));
    }
    WrapSmall(Publications(cs));
    WrapSmall(1 + Effective(d, cs));
  }

  lemma WrapSmall(n: nat)
    ensures n < U32_RANGE <==> Wrap(n) == n
  {
  }
}
