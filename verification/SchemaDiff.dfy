/** Drift detection: the steps that separate an actual schema from the desired one. */
module SchemaDiff {
  import opened Wrappers
  import opened SchemaAst

  datatype SafetyPolicy = AdditiveOnly | AllowDestructive

  datatype MigrationStep =
    | CreateTable(definition: TableDefinition)
    | DropTable(name: string, kind: TableKind)
    | AddColumn(table: string, newColumn: ColumnDefinition)
    | DropColumn(table: string, column: string)
    | CreateIndex(index: IndexDefinition)
    | DropIndex(name: string, table: string)
  {
    predicate Destructive() { DropTable? || DropColumn? || DropIndex? }
  }

  datatype DiffError = DestructiveOperationBlocked(operation: MigrationStep)

  // ----- the unrestricted step list, in the order the source emits it -------------

  function AddColumnSteps(actual: TableDefinition, table: string, cs: seq<ColumnDefinition>): seq<MigrationStep> {
    if cs == [] then []
    else
      var n := |cs| - 1;
      AddColumnSteps(actual, table, cs[..n])
      + if cs[n].name !in ColumnNames(actual) then [AddColumn(table, cs[n])] else []
  }

  function DropColumnSteps(desired: TableDefinition, cs: seq<ColumnDefinition>): seq<MigrationStep> {
    if cs == [] then []
    else
      var n := |cs| - 1;
      DropColumnSteps(desired, cs[..n])
      + if cs[n].name !in ColumnNames(desired) then [DropColumn(desired.name, cs[n].name)] else []
  }

  function CreateIndexSteps(actual: TableDefinition, xs: seq<IndexDefinition>): seq<MigrationStep> {
    if xs == [] then []
    else
      var n := |xs| - 1;
      CreateIndexSteps(actual, xs[..n])
      + if xs[n].name !in IndexNames(actual) then [CreateIndex(xs[n])] else []
  }

  function DropIndexSteps(desired: TableDefinition, table: string, xs: seq<IndexDefinition>): seq<MigrationStep> {
    if xs == [] then []
    else
      var n := |xs| - 1;
      DropIndexSteps(desired, table, xs[..n])
      + if xs[n].name !in IndexNames(desired) then [DropIndex(xs[n].name, table)] else []
  }

  function KeptTableSteps(a: TableDefinition, d: TableDefinition): seq<MigrationStep> {
    AddColumnSteps(a, d.name, d.columns) + DropColumnSteps(d, a.columns)
    + CreateIndexSteps(a, d.indexes) + DropIndexSteps(d, a.name, a.indexes)
  }

  function DesiredTableSteps(actual: DatabaseSchema, d: TableDefinition): seq<MigrationStep> {
    match FindTable(actual, d.name)
    case None => [CreateTable(d)]
    case Some(a) => KeptTableSteps(a, d)
  }

  function DesiredSteps(actual: DatabaseSchema, ds: seq<TableDefinition>): seq<MigrationStep> {
    if ds == [] then []
    else DesiredSteps(actual, ds[..|ds| - 1]) + DesiredTableSteps(actual, ds[|ds| - 1])
  }

  function DropTableSteps(desired: DatabaseSchema, ts: seq<TableDefinition>): seq<MigrationStep> {
    if ts == [] then []
    else
      var n := |ts| - 1;
      DropTableSteps(desired, ts[..n])
      + if ts[n].name !in TableNames(desired) then [DropTable(ts[n].name, ts[n].kind)] else []
  }

  function DiffSteps(actual: DatabaseSchema, desired: DatabaseSchema): seq<MigrationStep> {
    DesiredSteps(actual, desired.tables) + DropTableSteps(desired, actual.tables)
  }

  // ----- the policy ---------------------------------------------------------------

  predicate Additive(steps: seq<MigrationStep>) {
    forall s | s in steps :: !s.Destructive()
  }

  function FirstDestructive(steps: seq<MigrationStep>): (s: MigrationStep)
    requires !Additive(steps)
    ensures s in steps && s.Destructive()
    ensures exists k | 0 <= k < |steps| :: steps[k] == s && Additive(steps[..k])
  {
    if steps[0].Destructive() then
      assert Additive(steps[..0]);
      steps[0]
    else
      assert steps == [steps[0]] + steps[1..];
      var s := FirstDestructive(steps[1..]);
      var k :| 0 <= k < |steps[1..]| && steps[1..][k] == s && Additive(steps[1..][..k]);
      assert steps[..k + 1] == [steps[0]] + steps[1..][..k];
      assert steps[k + 1] == s && Additive(steps[..k + 1]);
      s
  }

  /** Everything goes through under AllowDestructive; under AdditiveOnly a list with a
      destructive step is refused, naming the first such step. */
  function Guarded(steps: seq<MigrationStep>, policy: SafetyPolicy): Result<seq<MigrationStep>, DiffError> {
    if policy.AllowDestructive? || Additive(steps) then Ok(steps)
    else Err(DestructiveOperationBlocked(FirstDestructive(steps)))
  }

  /** Refusal is decided left to right. */
  lemma {:induction false} GuardedConcat(xs: seq<MigrationStep>, ys: seq<MigrationStep>, policy: SafetyPolicy)
    ensures Guarded(xs + ys, policy) ==
            if Guarded(xs, policy).Err? then Guarded(xs, policy)
            else if Guarded(ys, policy).Err? then Guarded(ys, policy)
            else Ok(xs + ys)
  {
    assert forall s | s in xs + ys :: s in xs || s in ys;
    assert forall s | s in xs || s in ys :: s in xs + ys;
    if xs == [] {
      assert xs + ys == ys;
    } else if xs[0].Destructive() {
      assert (xs + ys)[0] == xs[0];
    } else {
      assert xs == [xs[0]] + xs[1..] && (xs + ys)[1..] == xs[1..] + ys;
      GuardedConcat(xs[1..], ys, policy);
    }
  }

  lemma RefusalIsFinal(prefix: seq<MigrationStep>, whole: seq<MigrationStep>, policy: SafetyPolicy)
    requires prefix <= whole && Guarded(prefix, policy).Err?
    ensures Guarded(whole, policy) == Guarded(prefix, policy)
  {
    assert whole == prefix + whole[|prefix|..];
    GuardedConcat(prefix, whole[|prefix|..], policy);
  }

  // A longer input only appends steps.

  lemma {:induction false} DesiredStepsGrow(actual: DatabaseSchema, ds: seq<TableDefinition>, n: nat)
    requires n <= |ds|
    ensures DesiredSteps(actual, ds[..n]) <= DesiredSteps(actual, ds)
  {
    if n < |ds| {
      DesiredStepsGrow(actual, ds[..|ds| - 1], n);
      assert ds[..|ds| - 1][..n] == ds[..n];
    } else {
      assert ds[..n] == ds;
    }
  }

  lemma {:induction false} DropTableStepsGrow(desired: DatabaseSchema, ts: seq<TableDefinition>, n: nat)
    requires n <= |ts|
    ensures DropTableSteps(desired, ts[..n]) <= DropTableSteps(desired, ts)
  {
    if n < |ts| {
      DropTableStepsGrow(desired, ts[..|ts| - 1], n);
      assert ts[..|ts| - 1][..n] == ts[..n];
    } else {
      assert ts[..n] == ts;
    }
  }

  lemma {:induction false} DropColumnStepsGrow(desired: TableDefinition, cs: seq<ColumnDefinition>, n: nat)
    requires n <= |cs|
    ensures DropColumnSteps(desired, cs[..n]) <= DropColumnSteps(desired, cs)
  {
    if n < |cs| {
      DropColumnStepsGrow(desired, cs[..|cs| - 1], n);
      assert cs[..|cs| - 1][..n] == cs[..n];
    } else {
      assert cs[..n] == cs;
    }
  }

  lemma {:induction false} DropIndexStepsGrow(desired: TableDefinition, table: string, xs: seq<IndexDefinition>, n: nat)
    requires n <= |xs|
    ensures DropIndexSteps(desired, table, xs[..n]) <= DropIndexSteps(desired, table, xs)
  {
    if n < |xs| {
      DropIndexStepsGrow(desired, table, xs[..|xs| - 1], n);
      assert xs[..|xs| - 1][..n] == xs[..n];
    } else {
      assert xs[..n] == xs;
    }
  }

  // ----- the algorithm --------------------------------------------------------------

  method ComputeDiff(actual: DatabaseSchema, desired: DatabaseSchema, policy: SafetyPolicy)
    returns (r: Result<seq<MigrationStep>, DiffError>)
    ensures r == Guarded(DiffSteps(actual, desired), policy)
  {
    var steps: seq<MigrationStep> := [];
    assert Guarded(steps, policy) == Ok(steps);
    assert steps == DesiredSteps(actual, desired.tables[..0]);
    hide Guarded, DesiredSteps, DesiredTableSteps, DropTableSteps, FindTable;

    // 1. Tables to create, and drift in the tables present on both sides
    for i := 0 to |desired.tables|
      invariant steps == DesiredSteps(actual, desired.tables[..i])
      invariant Guarded(steps, policy) == Ok(steps)
    {
      var d := desired.tables[i];
      OneMoreTable(actual, desired.tables, i);
      var found := DiffDesiredTable(actual, d, policy);
      GuardedConcat(steps, DesiredTableSteps(actual, d), policy);
      if found.Err? {
        RefusedEarly(actual, desired, policy, i + 1);
        return found;
      }
      steps := steps + found.value;
    }
    assert desired.tables[..|desired.tables|] == desired.tables;

    // 2. Tables no longer desired
    var dropped := DiffOldTables(actual, desired, policy);
    GuardedConcat(steps, DropTableSteps(desired, actual.tables), policy);
    if dropped.Err? {
      return dropped;
    }
    return Ok(steps + dropped.value);
  }

  lemma OneMoreTable(actual: DatabaseSchema, ts: seq<TableDefinition>, i: nat)
    requires i < |ts|
    ensures DesiredSteps(actual, ts[..i + 1]) == DesiredSteps(actual, ts[..i]) + DesiredTableSteps(actual, ts[i])
  {
    hide DesiredTableSteps;
    assert ts[..i + 1][..i] == ts[..i];
  }

  lemma RefusedEarly(actual: DatabaseSchema, desired: DatabaseSchema, policy: SafetyPolicy, n: nat)
    requires n <= |desired.tables| && Guarded(DesiredSteps(actual, desired.tables[..n]), policy).Err?
    ensures Guarded(DiffSteps(actual, desired), policy) == Guarded(DesiredSteps(actual, desired.tables[..n]), policy)
  {
    hide Guarded, DropTableSteps, DesiredTableSteps;
    DesiredStepsGrow(actual, desired.tables, n);
    RefusalIsFinal(DesiredSteps(actual, desired.tables[..n]), DiffSteps(actual, desired), policy);
  }

  method DiffDesiredTable(actual: DatabaseSchema, d: TableDefinition, policy: SafetyPolicy)
    returns (r: Result<seq<MigrationStep>, DiffError>)
    ensures r == Guarded(DesiredTableSteps(actual, d), policy)
  {
    match FindTable(actual, d.name)
    case None =>
      return Ok([CreateTable(d)]);
    case Some(a) =>
      r := DiffKeptTable(a, d, policy);
  }

  method DiffOldTables(actual: DatabaseSchema, desired: DatabaseSchema, policy: SafetyPolicy)
    returns (r: Result<seq<MigrationStep>, DiffError>)
    ensures r == Guarded(DropTableSteps(desired, actual.tables), policy)
  {
    var ts := actual.tables;
    var steps := [];
    for i := 0 to |ts|
      invariant steps == DropTableSteps(desired, ts[..i])
      invariant policy.AdditiveOnly? ==> steps == []
    {
      assert ts[..i + 1][..i] == ts[..i];
      if FindTable(desired, ts[i].name).None? {
        steps := steps + [DropTable(ts[i].name, ts[i].kind)];
        if policy.AdditiveOnly? {
          assert steps[0].Destructive();
          DropTableStepsGrow(desired, ts, i + 1);
          RefusalIsFinal(steps, DropTableSteps(desired, ts), policy);
          return Err(DestructiveOperationBlocked(DropTable(ts[i].name, ts[i].kind)));
        }
      }
    }
    assert ts[..|ts|] == ts;
    return Ok(steps);
  }

  /** Column and index drift of one table present on both sides. */
  method DiffKeptTable(a: TableDefinition, d: TableDefinition, policy: SafetyPolicy)
    returns (r: Result<seq<MigrationStep>, DiffError>)
    ensures r == Guarded(KeptTableSteps(a, d), policy)
  {
    var adds := DiffNewColumns(a, d);
    var drops := DiffOldColumns(a, d, policy);
    GuardedConcat(adds, DropColumnSteps(d, a.columns), policy);
    GuardedConcat(adds + DropColumnSteps(d, a.columns), CreateIndexSteps(a, d.indexes), policy);
    GuardedConcat(adds + DropColumnSteps(d, a.columns) + CreateIndexSteps(a, d.indexes),
                  DropIndexSteps(d, a.name, a.indexes), policy);
    if drops.Err? {
      return drops;
    }
    var creates := DiffNewIndexes(a, d);
    var dropped := DiffOldIndexes(a, d, policy);
    if dropped.Err? {
      return dropped;
    }
    return Ok(adds + drops.value + creates + dropped.value);
  }

  /** 1a. New columns in desired. */
  method DiffNewColumns(a: TableDefinition, d: TableDefinition) returns (steps: seq<MigrationStep>)
    ensures steps == AddColumnSteps(a, d.name, d.columns)
    ensures Additive(steps)
  {
    var cs := d.columns;
    steps := [];
    for i := 0 to |cs|
      invariant steps == AddColumnSteps(a, d.name, cs[..i])
      invariant Additive(steps)
    {
      assert cs[..i + 1][..i] == cs[..i];
      if cs[i].name !in ColumnNames(a) {
        steps := steps + [AddColumn(d.name, cs[i])];
      }
    }
    assert cs[..|cs|] == cs;
  }

  /** 1b. Dropped columns in actual. */
  method DiffOldColumns(a: TableDefinition, d: TableDefinition, policy: SafetyPolicy)
    returns (r: Result<seq<MigrationStep>, DiffError>)
    ensures r == Guarded(DropColumnSteps(d, a.columns), policy)
  {
    var cs := a.columns;
    var steps := [];
    for i := 0 to |cs|
      invariant steps == DropColumnSteps(d, cs[..i])
      invariant policy.AdditiveOnly? ==> steps == []
    {
      assert cs[..i + 1][..i] == cs[..i];
      if cs[i].name !in ColumnNames(d) {
        steps := steps + [DropColumn(d.name, cs[i].name)];
        if policy.AdditiveOnly? {
          assert steps[0].Destructive();
          DropColumnStepsGrow(d, cs, i + 1);
          RefusalIsFinal(steps, DropColumnSteps(d, cs), policy);
          return Err(DestructiveOperationBlocked(DropColumn(d.name, cs[i].name)));
        }
      }
    }
    assert cs[..|cs|] == cs;
    return Ok(steps);
  }

  /** 1c. New indexes in desired. */
  method DiffNewIndexes(a: TableDefinition, d: TableDefinition) returns (steps: seq<MigrationStep>)
    ensures steps == CreateIndexSteps(a, d.indexes)
    ensures Additive(steps)
  {
    var xs := d.indexes;
    steps := [];
    for i := 0 to |xs|
      invariant steps == CreateIndexSteps(a, xs[..i])
      invariant Additive(steps)
    {
      assert xs[..i + 1][..i] == xs[..i];
      if xs[i].name !in IndexNames(a) {
        steps := steps + [CreateIndex(xs[i])];
      }
    }
    assert xs[..|xs|] == xs;
  }

  /** 1d. Dropped indexes in actual. */
  method DiffOldIndexes(a: TableDefinition, d: TableDefinition, policy: SafetyPolicy)
    returns (r: Result<seq<MigrationStep>, DiffError>)
    ensures r == Guarded(DropIndexSteps(d, a.name, a.indexes), policy)
  {
    var xs := a.indexes;
    var steps := [];
    for i := 0 to |xs|
      invariant steps == DropIndexSteps(d, a.name, xs[..i])
      invariant policy.AdditiveOnly? ==> steps == []
    {
      assert xs[..i + 1][..i] == xs[..i];
      if xs[i].name !in IndexNames(d) {
        steps := steps + [DropIndex(xs[i].name, a.name)];
        if policy.AdditiveOnly? {
          assert steps[0].Destructive();
          DropIndexStepsGrow(d, a.name, xs, i + 1);
          RefusalIsFinal(steps, DropIndexSteps(d, a.name, xs), policy);
          return Err(DestructiveOperationBlocked(DropIndex(xs[i].name, a.name)));
        }
      }
    }
    assert xs[..|xs|] == xs;
    return Ok(steps);
  }

  // ----- which steps are in the list ------------------------------------------------

  /** A step belongs to the diff exactly when it repairs one difference of names. */
  ghost predicate Repairs(step: MigrationStep, actual: DatabaseSchema, desired: DatabaseSchema) {
    match step
    case CreateTable(d) => d in desired.tables && d.name !in TableNames(actual)
    case DropTable(n, k) => exists a | a in actual.tables :: a.name == n && a.kind == k && n !in TableNames(desired)
    case AddColumn(t, c) =>
      exists d | d in desired.tables && d.name in TableNames(actual) ::
        t == d.name && c in d.columns && c.name !in ColumnNames(FindTable(actual, d.name).value)
    case DropColumn(t, c) =>
      exists d | d in desired.tables && d.name in TableNames(actual) ::
        t == d.name && c in ColumnNames(FindTable(actual, d.name).value) && c !in ColumnNames(d)
    case CreateIndex(x) =>
      exists d | d in desired.tables && d.name in TableNames(actual) ::
        x in d.indexes && x.name !in IndexNames(FindTable(actual, d.name).value)
    case DropIndex(n, t) =>
      exists d | d in desired.tables && d.name in TableNames(actual) ::
        t == d.name && n in IndexNames(FindTable(actual, d.name).value) && n !in IndexNames(d)
  }

  lemma {:induction false} InAddColumnSteps(a: TableDefinition, t: string, cs: seq<ColumnDefinition>,
                                            step: MigrationStep)
    ensures step in AddColumnSteps(a, t, cs) <==>
            step.AddColumn? && step.table == t && step.newColumn in cs && step.newColumn.name !in ColumnNames(a)
  {
    if cs != [] {
      var n := |cs| - 1;
      InAddColumnSteps(a, t, cs[..n], step);
      assert cs == cs[..n] + [cs[n]];
    }
  }

  lemma {:induction false} InDropColumnSteps(d: TableDefinition, cs: seq<ColumnDefinition>, step: MigrationStep)
    ensures step in DropColumnSteps(d, cs) <==>
            step.DropColumn? && step.table == d.name && step.column in (set c | c in cs :: c.name)
            && step.column !in ColumnNames(d)
  {
    if cs != [] {
      var n := |cs| - 1;
      InDropColumnSteps(d, cs[..n], step);
      assert cs == cs[..n] + [cs[n]];
    }
  }

  lemma {:induction false} InCreateIndexSteps(a: TableDefinition, xs: seq<IndexDefinition>, step: MigrationStep)
    ensures step in CreateIndexSteps(a, xs) <==>
            step.CreateIndex? && step.index in xs && step.index.name !in IndexNames(a)
  {
    if xs != [] {
      var n := |xs| - 1;
      InCreateIndexSteps(a, xs[..n], step);
      assert xs == xs[..n] + [xs[n]];
    }
  }

  lemma {:induction false} InDropIndexSteps(d: TableDefinition, t: string, xs: seq<IndexDefinition>,
                                            step: MigrationStep)
    ensures step in DropIndexSteps(d, t, xs) <==>
            step.DropIndex? && step.table == t && step.name in (set x | x in xs :: x.name)
            && step.name !in IndexNames(d)
  {
    if xs != [] {
      var n := |xs| - 1;
      InDropIndexSteps(d, t, xs[..n], step);
      assert xs == xs[..n] + [xs[n]];
    }
  }

  lemma {:induction false} InDropTableSteps(desired: DatabaseSchema, ts: seq<TableDefinition>, step: MigrationStep)
    ensures step in DropTableSteps(desired, ts) <==>
            step.DropTable? && step.name !in TableNames(desired)
            && exists a | a in ts :: a.name == step.name && a.kind == step.kind
  {
    if ts != [] {
      var n := |ts| - 1;
      InDropTableSteps(desired, ts[..n], step);
      assert ts == ts[..n] + [ts[n]];
      if step.DropTable? && ts[n].name == step.name && ts[n].kind == step.kind {
        assert ts[n] in ts;
      }
    }
  }

  lemma InKeptTableSteps(a: TableDefinition, d: TableDefinition, step: MigrationStep)
    ensures step in KeptTableSteps(a, d) <==>
            match step
            case CreateTable(_) => false
            case DropTable(_, _) => false
            case AddColumn(t, c) => t == d.name && c in d.columns && c.name !in ColumnNames(a)
            case DropColumn(t, c) => t == d.name && c in ColumnNames(a) && c !in ColumnNames(d)
            case CreateIndex(x) => x in d.indexes && x.name !in IndexNames(a)
            case DropIndex(n, t) => t == a.name && n in IndexNames(a) && n !in IndexNames(d)
  {
    InAddColumnSteps(a, d.name, d.columns, step);
    InDropColumnSteps(d, a.columns, step);
    InCreateIndexSteps(a, d.indexes, step);
    InDropIndexSteps(d, a.name, a.indexes, step);
  }

  lemma {:induction false} InDesiredSteps(actual: DatabaseSchema, ds: seq<TableDefinition>, step: MigrationStep)
    ensures step in DesiredSteps(actual, ds) <==> FoundAmong(actual, ds, step)
  {
    if ds != [] {
      var n := |ds| - 1;
      var front, last := ds[..n], ds[n];
      InDesiredSteps(actual, front, step);
      assert ds == front + [last];
      if FoundAmong(actual, front, step) {
        var d :| d in front && step in DesiredTableSteps(actual, d);
        assert d in ds;
      }
      assert last in ds;
    }
  }

  ghost predicate FoundAmong(actual: DatabaseSchema, ds: seq<TableDefinition>, step: MigrationStep) {
    exists d | d in ds :: step in DesiredTableSteps(actual, d)
  }

  /** The diff is sound and complete: a step is in it exactly when it repairs a difference. */
  lemma DiffIsExact(actual: DatabaseSchema, desired: DatabaseSchema, step: MigrationStep)
    ensures step in DiffSteps(actual, desired) <==> Repairs(step, actual, desired)
  {
    InDesiredSteps(actual, desired.tables, step);
    InDropTableSteps(desired, actual.tables, step);
    forall d | d in desired.tables && d.name in TableNames(actual)
      ensures step in DesiredTableSteps(actual, d) <==> step in KeptTableSteps(FindTable(actual, d.name).value, d)
    {
    }
    if FoundAmong(actual, desired.tables, step) {
      var d :| d in desired.tables && step in DesiredTableSteps(actual, d);
      if d.name in TableNames(actual) {
        InKeptTableSteps(FindTable(actual, d.name).value, d, step);
      }
      assert Repairs(step, actual, desired);
    }
    if Repairs(step, actual, desired) && !step.DropTable? {
      if step.CreateTable? {
        assert step in DesiredTableSteps(actual, step.definition);
      } else {
        var d := RepairedTable(actual, desired, step);
        InKeptTableSteps(FindTable(actual, d.name).value, d, step);
        assert step in DesiredTableSteps(actual, d);
      }
      assert FoundAmong(actual, desired.tables, step);
    }
  }

  // ----- each step once ------------------------------------------------------------------------

  predicate Once(steps: seq<MigrationStep>) { forall i, j | 0 <= i < j < |steps| :: steps[i] != steps[j] }

  lemma OnceConcat(xs: seq<MigrationStep>, ys: seq<MigrationStep>)
    requires Once(xs) && Once(ys) && forall y | y in ys :: y !in xs
    ensures Once(xs + ys)
  {
    forall i, j | 0 <= i < j < |xs + ys| ensures (xs + ys)[i] != (xs + ys)[j] {
      assert j >= |xs| ==> (xs + ys)[j] in ys;
    }
  }

  /** No table has two columns, or two indexes, of one name. */
  predicate NamesOnce(t: TableDefinition) { DistinctColumns(t.columns) && DistinctIndexes(t.indexes) }

  lemma {:induction false} AddColumnsOnce(a: TableDefinition, t: string, cs: seq<ColumnDefinition>)
    requires DistinctColumns(cs)
    ensures Once(AddColumnSteps(a, t, cs))
  {
    if cs != [] {
      var n := |cs| - 1;
      AddColumnsOnce(a, t, cs[..n]);
      InAddColumnSteps(a, t, cs[..n], AddColumn(t, cs[n]));
    }
  }

  lemma {:induction false} DropColumnsOnce(d: TableDefinition, cs: seq<ColumnDefinition>)
    requires DistinctColumns(cs)
    ensures Once(DropColumnSteps(d, cs))
  {
    if cs != [] {
      var n := |cs| - 1;
      DropColumnsOnce(d, cs[..n]);
      InDropColumnSteps(d, cs[..n], DropColumn(d.name, cs[n].name));
    }
  }

  lemma {:induction false} CreateIndexesOnce(a: TableDefinition, xs: seq<IndexDefinition>)
    requires DistinctIndexes(xs)
    ensures Once(CreateIndexSteps(a, xs))
  {
    if xs != [] {
      var n := |xs| - 1;
      CreateIndexesOnce(a, xs[..n]);
      InCreateIndexSteps(a, xs[..n], CreateIndex(xs[n]));
    }
  }

  lemma {:induction false} DropIndexesOnce(d: TableDefinition, t: string, xs: seq<IndexDefinition>)
    requires DistinctIndexes(xs)
    ensures Once(DropIndexSteps(d, t, xs))
  {
    if xs != [] {
      var n := |xs| - 1;
      DropIndexesOnce(d, t, xs[..n]);
      InDropIndexSteps(d, t, xs[..n], DropIndex(xs[n].name, t));
    }
  }

  lemma {:induction false} DropTablesOnce(desired: DatabaseSchema, ts: seq<TableDefinition>)
    requires DistinctTables(ts)
    ensures Once(DropTableSteps(desired, ts))
  {
    if ts != [] {
      var n := |ts| - 1;
      DropTablesOnce(desired, ts[..n]);
      InDropTableSteps(desired, ts[..n], DropTable(ts[n].name, ts[n].kind));
    }
  }

  lemma KeptTableOnce(a: TableDefinition, d: TableDefinition)
    requires NamesOnce(a) && NamesOnce(d)
    ensures Once(KeptTableSteps(a, d))
  {
    var s1, s2 := AddColumnSteps(a, d.name, d.columns), DropColumnSteps(d, a.columns);
    var s3, s4 := CreateIndexSteps(a, d.indexes), DropIndexSteps(d, a.name, a.indexes);
    AddColumnsOnce(a, d.name, d.columns);
    DropColumnsOnce(d, a.columns);
    CreateIndexesOnce(a, d.indexes);
    DropIndexesOnce(d, a.name, a.indexes);
    hide AddColumnSteps, DropColumnSteps, CreateIndexSteps, DropIndexSteps, Once;
    forall x
      ensures (x in s1 ==> x.AddColumn?) && (x in s2 ==> x.DropColumn?)
      ensures (x in s3 ==> x.CreateIndex?) && (x in s4 ==> x.DropIndex?)
    {
      InAddColumnSteps(a, d.name, d.columns, x);
      InDropColumnSteps(d, a.columns, x);
      InCreateIndexSteps(a, d.indexes, x);
      InDropIndexSteps(d, a.name, a.indexes, x);
    }
    OnceConcat(s1, s2);
    OnceConcat(s1 + s2, s3);
    OnceConcat(s1 + s2 + s3, s4);
  }

  /** The table that a step is about. */
  function About(step: MigrationStep): string {
    match step
    case CreateTable(d) => d.name
    case DropTable(n, _) => n
    case AddColumn(t, _) => t
    case DropColumn(t, _) => t
    case CreateIndex(x) => x.tableName
    case DropIndex(_, t) => t
  }

  predicate OwnIndexes(d: TableDefinition) { forall x | x in d.indexes :: x.tableName == d.name }

  lemma TableStepsOnce(actual: DatabaseSchema, d: TableDefinition)
    requires (forall t | t in actual.tables :: NamesOnce(t)) && NamesOnce(d) && OwnIndexes(d)
    ensures Once(DesiredTableSteps(actual, d))
    ensures forall x | x in DesiredTableSteps(actual, d) :: About(x) == d.name && !x.DropTable?
  {
    if d.name in TableNames(actual) {
      var a := FindTable(actual, d.name).value;
      KeptTableOnce(a, d);
      hide KeptTableSteps, NamesOnce, Once;
      forall x | x in KeptTableSteps(a, d) ensures About(x) == d.name && !x.DropTable? {
        InKeptTableSteps(a, d, x);
      }
    }
  }

  lemma {:induction false} DesiredOnce(actual: DatabaseSchema, ds: seq<TableDefinition>)
    requires forall t | t in actual.tables :: NamesOnce(t)
    requires DistinctTables(ds) && forall d | d in ds :: NamesOnce(d) && OwnIndexes(d)
    ensures Once(DesiredSteps(actual, ds))
    ensures forall x | x in DesiredSteps(actual, ds) :: !x.DropTable? && exists d | d in ds :: About(x) == d.name
  {
    if ds != [] {
      var n := |ds| - 1;
      assert ds == ds[..n] + [ds[n]];
      assert ds[n] in ds;
      hide DesiredTableSteps, NamesOnce, OwnIndexes, Once, About;
      DesiredOnce(actual, ds[..n]);
      TableStepsOnce(actual, ds[n]);
      OnceConcat(DesiredSteps(actual, ds[..n]), DesiredTableSteps(actual, ds[n]));
    }
  }

  /** No step is listed twice. */
  lemma DiffListsOnce(actual: DatabaseSchema, desired: DatabaseSchema)
    requires DistinctTables(actual.tables) && forall t | t in actual.tables :: NamesOnce(t)
    requires DistinctTables(desired.tables) && forall d | d in desired.tables :: NamesOnce(d) && OwnIndexes(d)
    ensures Once(DiffSteps(actual, desired))
  {
    DesiredOnce(actual, desired.tables);
    DropTablesOnce(desired, actual.tables);
    hide DesiredSteps, DropTableSteps, NamesOnce, OwnIndexes, Once, About;
    forall x | x in DropTableSteps(desired, actual.tables) ensures x.DropTable? {
      InDropTableSteps(desired, actual.tables, x);
    }
    OnceConcat(DesiredSteps(actual, desired.tables), DropTableSteps(desired, actual.tables));
  }

  ghost function RepairedTable(actual: DatabaseSchema, desired: DatabaseSchema, step: MigrationStep):
      (d: TableDefinition)
    requires Repairs(step, actual, desired) && !step.DropTable? && !step.CreateTable?
    ensures d in desired.tables && d.name in TableNames(actual)
    ensures var a := FindTable(actual, d.name).value;
            match step
            case AddColumn(t, c) => t == d.name && c in d.columns && c.name !in ColumnNames(a)
            case DropColumn(t, c) => t == d.name && c in ColumnNames(a) && c !in ColumnNames(d)
            case CreateIndex(x) => x in d.indexes && x.name !in IndexNames(a)
            case DropIndex(n, t) => t == d.name && n in IndexNames(a) && n !in IndexNames(d)
            case _ => false
  {
    match step
    case AddColumn(t, c) =>
      var d :| d in desired.tables && d.name in TableNames(actual) && t == d.name && c in d.columns
               && c.name !in ColumnNames(FindTable(actual, d.name).value); d
    case DropColumn(t, c) =>
      var d :| d in desired.tables && d.name in TableNames(actual) && t == d.name
               && c in ColumnNames(FindTable(actual, d.name).value) && c !in ColumnNames(d); d
    case CreateIndex(x) =>
      var d :| d in desired.tables && d.name in TableNames(actual) && x in d.indexes
               && x.name !in IndexNames(FindTable(actual, d.name).value); d
    case DropIndex(n, t) =>
      var d :| d in desired.tables && d.name in TableNames(actual) && t == d.name
               && n in IndexNames(FindTable(actual, d.name).value) && n !in IndexNames(d); d
  }

  // ----- no difference, no step -----------------------------------------------------

  /** Table names agree, and so do the column and index names of each table. */
  ghost predicate SameNames(actual: DatabaseSchema, desired: DatabaseSchema) {
    && TableNames(actual) == TableNames(desired)
    && forall d | d in desired.tables ::
         && d.name in TableNames(actual)
         && ColumnNames(FindTable(actual, d.name).value) == ColumnNames(d)
         && IndexNames(FindTable(actual, d.name).value) == IndexNames(d)
  }

  lemma EmptyDiffIffSameNames(actual: DatabaseSchema, desired: DatabaseSchema)
    ensures DiffSteps(actual, desired) == [] <==> SameNames(actual, desired)
  {
    if DiffSteps(actual, desired) == [] {
      forall s: MigrationStep
        ensures !Repairs(s, actual, desired)
      {
        DiffIsExact(actual, desired, s);
      }
      NothingToRepair(actual, desired);
    } else {
      var s := DiffSteps(actual, desired)[0];
      DiffIsExact(actual, desired, s);
    }
  }

  lemma NothingToRepair(actual: DatabaseSchema, desired: DatabaseSchema)
    requires forall s: MigrationStep :: !Repairs(s, actual, desired)
    ensures SameNames(actual, desired)
  {
    forall d | d in desired.tables
      ensures d.name in TableNames(actual)
      ensures ColumnNames(FindTable(actual, d.name).value) == ColumnNames(d)
      ensures IndexNames(FindTable(actual, d.name).value) == IndexNames(d)
    {
      assert !Repairs(CreateTable(d), actual, desired);
      var a := FindTable(actual, d.name).value;
      forall c | c in d.columns ensures c.name in ColumnNames(a) {
        assert !Repairs(AddColumn(d.name, c), actual, desired);
      }
      forall c | c in ColumnNames(a) ensures c in ColumnNames(d) {
        assert !Repairs(DropColumn(d.name, c), actual, desired);
      }
      forall x | x in d.indexes ensures x.name in IndexNames(a) {
        assert !Repairs(CreateIndex(x), actual, desired);
      }
      forall n | n in IndexNames(a) ensures n in IndexNames(d) {
        assert !Repairs(DropIndex(n, d.name), actual, desired);
      }
    }
    forall a | a in actual.tables ensures a.name in TableNames(desired) {
      assert !Repairs(DropTable(a.name, a.kind), actual, desired);
    }
  }

  // ----- AdditiveOnly ---------------------------------------------------------------

  /** Every actual name is desired. */
  ghost predicate OnlyAdds(actual: DatabaseSchema, desired: DatabaseSchema) {
    && TableNames(actual) <= TableNames(desired)
    && forall d | d in desired.tables && d.name in TableNames(actual) ::
         && ColumnNames(FindTable(actual, d.name).value) <= ColumnNames(d)
         && IndexNames(FindTable(actual, d.name).value) <= IndexNames(d)
  }

  /** The production policy accepts exactly the drifts in which no existing name is lost,
      and what it accepts is the very list the permissive policy yields. */
  lemma AdditiveOnlyIsExact(actual: DatabaseSchema, desired: DatabaseSchema)
    ensures Guarded(DiffSteps(actual, desired), AdditiveOnly).Ok? <==> OnlyAdds(actual, desired)
    ensures OnlyAdds(actual, desired) ==>
              Guarded(DiffSteps(actual, desired), AdditiveOnly) == Guarded(DiffSteps(actual, desired), AllowDestructive)
  {
    var steps := DiffSteps(actual, desired);
    if OnlyAdds(actual, desired) {
      forall s | s in steps ensures !s.Destructive() {
        DiffIsExact(actual, desired, s);
      }
    }
    if Additive(steps) {
      forall s: MigrationStep | s.Destructive()
        ensures !Repairs(s, actual, desired)
      {
        DiffIsExact(actual, desired, s);
      }
      NothingToDrop(actual, desired);
    }
  }

  lemma NothingToDrop(actual: DatabaseSchema, desired: DatabaseSchema)
    requires forall s: MigrationStep | s.Destructive() :: !Repairs(s, actual, desired)
    ensures OnlyAdds(actual, desired)
  {
    forall d | d in desired.tables && d.name in TableNames(actual)
      ensures ColumnNames(FindTable(actual, d.name).value) <= ColumnNames(d)
      ensures IndexNames(FindTable(actual, d.name).value) <= IndexNames(d)
    {
      var a := FindTable(actual, d.name).value;
      forall c | c in ColumnNames(a) ensures c in ColumnNames(d) {
        assert !Repairs(DropColumn(d.name, c), actual, desired);
      }
      forall n | n in IndexNames(a) ensures n in IndexNames(d) {
        assert !Repairs(DropIndex(n, d.name), actual, desired);
      }
    }
    forall a | a in actual.tables ensures a.name in TableNames(desired) {
      assert !Repairs(DropTable(a.name, a.kind), actual, desired);
    }
  }
}
