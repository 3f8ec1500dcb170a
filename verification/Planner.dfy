/** Orders diff steps into twelve phases: drops from the dependents down, then
    creations from the base tables up. */
module Planner {
  import opened SchemaAst
  import opened SchemaDiff
  import Naming

  const CLASSES := 12

  /** The phase of a step, counted from zero. */
  function StepClass(step: MigrationStep): (k: nat)
    ensures k < CLASSES
  {
    match step
    case DropIndex(_, _) => 0
    case DropTable(name, kind) =>
      (match kind
       case Link => if Naming.EndsWith(name, Naming.PUBLISHED) then 1 else 2
       case Published => 3
       case Entity => 4)
    case DropColumn(_, _) => 5
    case CreateTable(t) =>
      (match t.kind
       case Entity => 6
       case Published => 7
       case Link => if Naming.EndsWith(t.name, Naming.PUBLISHED) then 9 else 8)
    case AddColumn(_, _) => 10
    case CreateIndex(_) => 11
  }

  function OfClass(steps: seq<MigrationStep>, k: nat): seq<MigrationStep> {
    if steps == [] then []
    else
      var n := |steps| - 1;
      OfClass(steps[..n], k) + if StepClass(steps[n]) == k then [steps[n]] else []
  }

  /** Phases lo, lo + 1, ..., hi - 1 one after the other. */
  function Phases(steps: seq<MigrationStep>, lo: nat, hi: nat): seq<MigrationStep>
    decreases hi - lo
  {
    if lo >= hi then [] else OfClass(steps, lo) + Phases(steps, lo + 1, hi)
  }

  function PlanOf(steps: seq<MigrationStep>): seq<MigrationStep> { Phases(steps, 0, CLASSES) }

  method PlanMigrations(raw: seq<MigrationStep>) returns (planned: seq<MigrationStep>)
    ensures planned == PlanOf(raw)
  {
    var dropIndexes, dropPublishedLinkTables, dropDraftLinkTables := [], [], [];
    var dropPublishedTables, dropEntityTables, dropColumns := [], [], [];
    var createEntityTables, createPublishedTables, createDraftLinkTables := [], [], [];
    var createPublishedLinkTables, addColumns, createIndexes := [], [], [];

    for i := 0 to |raw|
      invariant dropIndexes == OfClass(raw[..i], 0)
      invariant dropPublishedLinkTables == OfClass(raw[..i], 1)
      invariant dropDraftLinkTables == OfClass(raw[..i], 2)
      invariant dropPublishedTables == OfClass(raw[..i], 3)
      invariant dropEntityTables == OfClass(raw[..i], 4)
      invariant dropColumns == OfClass(raw[..i], 5)
      invariant createEntityTables == OfClass(raw[..i], 6)
      invariant createPublishedTables == OfClass(raw[..i], 7)
      invariant createDraftLinkTables == OfClass(raw[..i], 8)
      invariant createPublishedLinkTables == OfClass(raw[..i], 9)
      invariant addColumns == OfClass(raw[..i], 10)
      invariant createIndexes == OfClass(raw[..i], 11)
    {
      var step := raw[i];
      assert raw[..i + 1][..i] == raw[..i];
      match step {
        case DropIndex(_, _) => dropIndexes := dropIndexes + [step];
        case DropTable(name, kind) =>
          match kind {
            case Link =>
              if Naming.EndsWith(name, Naming.PUBLISHED) {
                dropPublishedLinkTables := dropPublishedLinkTables + [step];
              } else {
                dropDraftLinkTables := dropDraftLinkTables + [step];
              }
            case Published => dropPublishedTables := dropPublishedTables + [step];
            case Entity => dropEntityTables := dropEntityTables + [step];
          }
        case DropColumn(_, _) => dropColumns := dropColumns + [step];
        case CreateTable(table) =>
          match table.kind {
            case Entity => createEntityTables := createEntityTables + [step];
            case Published => createPublishedTables := createPublishedTables + [step];
            case Link =>
              if Naming.EndsWith(table.name, Naming.PUBLISHED) {
                createPublishedLinkTables := createPublishedLinkTables + [step];
              } else {
                createDraftLinkTables := createDraftLinkTables + [step];
              }
          }
        case AddColumn(_, _) => addColumns := addColumns + [step];
        case CreateIndex(_) => createIndexes := createIndexes + [step];
      }
    }
    assert raw[..|raw|] == raw;
    planned := dropIndexes + (dropPublishedLinkTables + (dropDraftLinkTables + (dropPublishedTables + (
               dropEntityTables + (dropColumns + (createEntityTables + (createPublishedTables + (
               createDraftLinkTables + (createPublishedLinkTables + (addColumns + (createIndexes + [])))))))))));
    PhasesUnfold(raw);
  }

  lemma PhasesUnfold(raw: seq<MigrationStep>)
    ensures PlanOf(raw) ==
            OfClass(raw, 0) + (OfClass(raw, 1) + (OfClass(raw, 2) + (OfClass(raw, 3) + (
            OfClass(raw, 4) + (OfClass(raw, 5) + (OfClass(raw, 6) + (OfClass(raw, 7) + (
            OfClass(raw, 8) + (OfClass(raw, 9) + (OfClass(raw, 10) + (OfClass(raw, 11) + [])))))))))))
  {
    PhasesFrom(raw, 6);
    PhasesFrom(raw, 3);
    PhasesFrom(raw, 0);
    PhasesFrom(raw, 9);
  }

  lemma PhasesFrom(raw: seq<MigrationStep>, k: nat)
    requires k <= 9
    ensures Phases(raw, k, CLASSES)
            == OfClass(raw, k) + (OfClass(raw, k + 1) + (OfClass(raw, k + 2) + Phases(raw, k + 3, CLASSES)))
  {
    assert Phases(raw, k + 1, CLASSES) == OfClass(raw, k + 1) + Phases(raw, k + 2, CLASSES);
    assert Phases(raw, k + 2, CLASSES) == OfClass(raw, k + 2) + Phases(raw, k + 3, CLASSES);
  }

  // ----- the plan is the stable sort of the steps by phase ---------------------------

  predicate Sorted(steps: seq<MigrationStep>) {
    forall i, j | 0 <= i < j < |steps| :: StepClass(steps[i]) <= StepClass(steps[j])
  }

  /** The same steps in the same order, phase by phase. */
  ghost predicate SamePerClass(xs: seq<MigrationStep>, ys: seq<MigrationStep>) {
    forall k: nat | k < CLASSES :: OfClass(xs, k) == OfClass(ys, k)
  }

  lemma {:induction false} OfClassConcat(xs: seq<MigrationStep>, ys: seq<MigrationStep>, k: nat)
    ensures OfClass(xs + ys, k) == OfClass(xs, k) + OfClass(ys, k)
  {
    if ys == [] {
      assert xs + ys == xs;
    } else {
      var n := |ys| - 1;
      OfClassConcat(xs, ys[..n], k);
      assert (xs + ys)[..|xs + ys| - 1] == xs + ys[..n];
    }
  }

  lemma {:induction false} OfClassUniform(xs: seq<MigrationStep>, k: nat, c: nat)
    requires forall s | s in xs :: StepClass(s) == c
    ensures OfClass(xs, k) == if k == c then xs else []
  {
    if xs != [] {
      var n := |xs| - 1;
      OfClassUniform(xs[..n], k, c);
      assert xs == xs[..n] + [xs[n]];
    }
  }

  lemma {:induction false} InOfClass(xs: seq<MigrationStep>, k: nat, s: MigrationStep)
    ensures s in OfClass(xs, k) <==> s in xs && StepClass(s) == k
  {
    if xs != [] {
      var n := |xs| - 1;
      InOfClass(xs[..n], k, s);
      assert xs == xs[..n] + [xs[n]];
    }
  }

  lemma {:induction false} PhasesPerClass(raw: seq<MigrationStep>, lo: nat, hi: nat, k: nat)
    ensures OfClass(Phases(raw, lo, hi), k) == if lo <= k < hi then OfClass(raw, k) else []
    decreases hi - lo
  {
    if lo < hi {
      hide StepClass, OfClass;
      PhasesPerClass(raw, lo + 1, hi, k);
      OnePhase(raw, lo, hi);
      hide Phases;
      OfClassConcat(OfClass(raw, lo), Phases(raw, lo + 1, hi), k);
      OfOneClass(raw, lo, k);
    }
  }

  lemma OnePhase(raw: seq<MigrationStep>, lo: nat, hi: nat)
    requires lo < hi
    ensures Phases(raw, lo, hi) == OfClass(raw, lo) + Phases(raw, lo + 1, hi)
  {
  }

  lemma OfOneClass(raw: seq<MigrationStep>, c: nat, k: nat)
    ensures OfClass(OfClass(raw, c), k) == if k == c then OfClass(raw, c) else []
  {
    hide StepClass, OfClass;
    forall s | s in OfClass(raw, c) ensures StepClass(s) == c {
      InOfClass(raw, c, s);
    }
    OfClassUniform(OfClass(raw, c), k, c);
  }

  lemma {:induction false} PhasesSorted(raw: seq<MigrationStep>, lo: nat, hi: nat)
    ensures forall s | s in Phases(raw, lo, hi) :: lo <= StepClass(s)
    ensures Sorted(Phases(raw, lo, hi))
    decreases hi - lo
  {
    if lo < hi {
      var first, rest := OfClass(raw, lo), Phases(raw, lo + 1, hi);
      PhasesSorted(raw, lo + 1, hi);
      forall s | s in first ensures StepClass(s) == lo { InOfClass(raw, lo, s); }
      forall i, j | 0 <= i < j < |first + rest|
        ensures StepClass((first + rest)[i]) <= StepClass((first + rest)[j])
      {
        assert (first + rest)[i] in (if i < |first| then first else rest);
        assert (first + rest)[j] in (if j < |first| then first else rest);
      }
    }
  }

  /** The plan is sorted by phase and keeps the order of the diff within each phase. */
  lemma PlanIsSortedAndStable(raw: seq<MigrationStep>)
    ensures Sorted(PlanOf(raw)) && SamePerClass(PlanOf(raw), raw)
  {
    forall k: nat | k < CLASSES
      ensures OfClass(PlanOf(raw), k) == OfClass(raw, k)
    {
      PhasesPerClass(raw, 0, CLASSES, k);
    }
    PhasesSorted(raw, 0, CLASSES);
  }

  /** Nothing is lost and nothing is added: the plan is a permutation of the diff. */
  lemma SamePerClassIsPermutation(xs: seq<MigrationStep>, ys: seq<MigrationStep>)
    requires SamePerClass(xs, ys)
    ensures multiset(xs) == multiset(ys)
  {
    forall s: MigrationStep
      ensures multiset(xs)[s] == multiset(ys)[s]
    {
      CountInClass(xs, s);
      CountInClass(ys, s);
    }
  }

  lemma {:induction false} CountInClass(xs: seq<MigrationStep>, s: MigrationStep)
    ensures multiset(OfClass(xs, StepClass(s)))[s] == multiset(xs)[s]
  {
    if xs != [] {
      var n := |xs| - 1;
      CountInClass(xs[..n], s);
      assert xs == xs[..n] + [xs[n]];
    }
  }

  lemma {:induction false} SameLastStep(xs: seq<MigrationStep>, ys: seq<MigrationStep>)
    requires Sorted(xs) && Sorted(ys) && SamePerClass(xs, ys) && |xs| == |ys| > 0
    ensures xs[|xs| - 1] == ys[|ys| - 1]
  {
    var x, y := xs[|xs| - 1], ys[|ys| - 1];
    InOfClass(xs, StepClass(y), y);
    InOfClass(ys, StepClass(y), y);
    InOfClass(xs, StepClass(x), x);
    InOfClass(ys, StepClass(x), x);
    assert x in ys && y in xs;
    assert StepClass(x) == StepClass(y);
    var k := StepClass(x);
    assert x == OfClass(xs, k)[|OfClass(xs, k)| - 1];
    assert y == OfClass(ys, k)[|OfClass(ys, k)| - 1];
  }

  lemma SameFront(xs: seq<MigrationStep>, ys: seq<MigrationStep>)
    requires |xs| == |ys| > 0 && xs[|xs| - 1] == ys[|ys| - 1] && SamePerClass(xs, ys)
    ensures SamePerClass(xs[..|xs| - 1], ys[..|ys| - 1])
  {
    var n := |xs| - 1;
    forall j: nat | j < CLASSES
      ensures OfClass(xs[..n], j) == OfClass(ys[..n], j)
    {
      assert OfClass(xs, j) == OfClass(ys, j);
      var last := if StepClass(xs[n]) == j then [xs[n]] else [];
      assert OfClass(xs[..n], j) == OfClass(xs, j)[..|OfClass(xs, j)| - |last|];
      assert OfClass(ys[..n], j) == OfClass(ys, j)[..|OfClass(ys, j)| - |last|];
    }
  }

  /** Sortedness and stability leave one list only, so they say all there is to say
      about the planner. */
  lemma {:induction false} StableSortIsUnique(xs: seq<MigrationStep>, ys: seq<MigrationStep>)
    requires Sorted(xs) && Sorted(ys) && SamePerClass(xs, ys)
    ensures xs == ys
    decreases |xs|
  {
    SamePerClassIsPermutation(xs, ys);
    assert |xs| == |multiset(xs)| == |multiset(ys)| == |ys|;
    if xs != [] {
      var n := |xs| - 1;
      SameLastStep(xs, ys);
      SameFront(xs, ys);
      StableSortIsUnique(xs[..n], ys[..n]);
      assert xs == xs[..n] + [xs[n]] && ys == ys[..n] + [ys[n]];
    }
  }

  /** Planning a plan changes nothing. */
  lemma PlanIsIdempotent(raw: seq<MigrationStep>)
    ensures PlanOf(PlanOf(raw)) == PlanOf(raw)
  {
    PlanIsSortedAndStable(raw);
    PlanIsSortedAndStable(PlanOf(raw));
    StableSortIsUnique(PlanOf(PlanOf(raw)), PlanOf(raw));
  }

  // ----- what comes before what -------------------------------------------------------------------

  /** A table of the first family refers to tables of the second, directly or not: published
      links, links, mirrors, tables of types. */
  predicate LeansOn(n: string, k: TableKind, m: string, l: TableKind) {
    match (k, l)
    case (Link, Link) => Naming.EndsWith(n, Naming.PUBLISHED) && !Naming.EndsWith(m, Naming.PUBLISHED)
    case (Link, _) => true
    case (Published, Entity) => true
    case _ => false
  }

  /** What has to be done before what: indexes are dropped first and created last; tables go
      before those they lean on and come after them; whatever goes does so before anything
      comes, and new tables come before new columns. */
  predicate Precedes(x: MigrationStep, y: MigrationStep) {
    match (x, y)
    case (DropIndex(_, _), _) => !y.DropIndex?
    case (DropTable(n, k), DropTable(m, l)) => LeansOn(n, k, m, l)
    case (DropTable(_, _), _) => !y.DropIndex?
    case (DropColumn(_, _), _) => y.CreateTable? || y.AddColumn? || y.CreateIndex?
    case (CreateTable(d), CreateTable(e)) => LeansOn(e.name, e.kind, d.name, d.kind)
    case (CreateTable(_), _) => y.AddColumn? || y.CreateIndex?
    case (AddColumn(_, _), _) => y.CreateIndex?
    case (CreateIndex(_), _) => false
  }

  lemma PhasesPrecede(x: MigrationStep, y: MigrationStep)
    ensures StepClass(x) < StepClass(y) <==> Precedes(x, y)
  {
    hide Naming.EndsWith;
  }

  /** No step of a plan comes after one that it has to precede. */
  lemma PlanKeepsOrder(raw: seq<MigrationStep>, i: nat, j: nat)
    requires i < j < |PlanOf(raw)|
    ensures !Precedes(PlanOf(raw)[j], PlanOf(raw)[i])
  {
    PlanIsSortedAndStable(raw);
    PhasesPrecede(PlanOf(raw)[j], PlanOf(raw)[i]);
  }

  lemma InPlan(raw: seq<MigrationStep>, s: MigrationStep)
    ensures s in PlanOf(raw) <==> s in raw
  {
    PlanIsSortedAndStable(raw);
    SamePerClassIsPermutation(PlanOf(raw), raw);
    assert s in multiset(PlanOf(raw)) <==> s in multiset(raw);
  }
}
