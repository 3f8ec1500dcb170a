/** What a list of steps, in any order and of any length, does to one table or one index. */
module StepEffects {
  import opened SchemaAst
  import opened SchemaDiff
  import opened Catalog

  function DropNames(xs: seq<MigrationStep>): set<string> { set s | s in xs && s.DropTable? :: s.name }

  function CreateNames(xs: seq<MigrationStep>): set<string> {
    set s | s in xs && s.CreateTable? :: s.definition.name
  }

  function DroppedColumns(xs: seq<MigrationStep>, t: string): set<string> {
    set s | s in xs && s.DropColumn? && s.table == t :: s.column
  }

  function AddedColumns(xs: seq<MigrationStep>, t: string): set<string> {
    set s | s in xs && s.AddColumn? && s.table == t :: s.newColumn.name
  }

  function DropIndexNames(xs: seq<MigrationStep>): set<string> { set s | s in xs && s.DropIndex? :: s.name }

  function CreateIndexNames(xs: seq<MigrationStep>): set<string> {
    set s | s in xs && s.CreateIndex? :: s.index.name
  }

  /** Which tables exist afterwards. */
  lemma {:induction false} TablesAfter(db: Catalog, xs: seq<MigrationStep>)
    requires Run(db, xs).ok
    requires DropNames(xs) !! CreateNames(xs)
    ensures Run(db, xs).db.tables.Keys == (db.tables.Keys - DropNames(xs)) + CreateNames(xs)
    decreases |xs|
  {
    if xs != [] {
      var rest := xs[1..];
      assert xs == [xs[0]] + rest;
      assert DropNames(xs) == DropNames(rest) + if xs[0].DropTable? then {xs[0].name} else {};
      assert CreateNames(xs) == CreateNames(rest) + if xs[0].CreateTable? then {xs[0].definition.name} else {};
      TablesAfter(Apply(db, xs[0]), rest);
    }
  }

  /** A foreign key goes with any column it uses. */
  function KeptForeignKeys(t: string, fks: set<ForeignKeyDefinition>, dropped: set<string>): set<ForeignKeyDefinition> {
    set fk | fk in fks
      && ToSet(fk.columns) !! dropped
      && !(fk.referencedTable == t && !(ToSet(fk.referencedColumns) !! dropped))
  }

  /** The columns and foreign keys of a table that was there and was not dropped. */
  lemma {:induction false} TableAfter(db: Catalog, xs: seq<MigrationStep>, t: string)
    requires Run(db, xs).ok
    requires t in db.tables && t !in DropNames(xs)
    requires DroppedColumns(xs, t) !! AddedColumns(xs, t)
    ensures t in Run(db, xs).db.tables
    ensures Run(db, xs).db.tables[t].columns == (db.tables[t].columns - DroppedColumns(xs, t)) + AddedColumns(xs, t)
    ensures Run(db, xs).db.tables[t].foreignKeys
            == KeptForeignKeys(t, db.tables[t].foreignKeys, DroppedColumns(xs, t))
    decreases |xs|
  {
    if xs != [] {
      var x, rest := xs[0], xs[1..];
      assert xs == [x] + rest;
      assert DroppedColumns(xs, t)
        == DroppedColumns(rest, t) + if x.DropColumn? && x.table == t then {x.column} else {};
      assert AddedColumns(xs, t)
        == AddedColumns(rest, t) + if x.AddColumn? && x.table == t then {x.newColumn.name} else {};
      assert DropNames(rest) <= DropNames(xs);
      TableAfter(Apply(db, x), rest, t);
      KeptTwice(t, db.tables[t].foreignKeys, if x.DropColumn? && x.table == t then {x.column} else {},
                DroppedColumns(rest, t));
      KeptNone(t, db.tables[t].foreignKeys);
    } else {
      KeptNone(t, db.tables[t].foreignKeys);
    }
  }

  lemma KeptTwice(t: string, fks: set<ForeignKeyDefinition>, c1: set<string>, c2: set<string>)
    ensures KeptForeignKeys(t, KeptForeignKeys(t, fks, c1), c2) == KeptForeignKeys(t, fks, c2 + c1)
  {
  }

  lemma KeptNone(t: string, fks: set<ForeignKeyDefinition>)
    ensures KeptForeignKeys(t, fks, {}) == fks
  {
  }

  /** A created table is the table that was asked for. */
  lemma {:induction false} TableCreated(db: Catalog, xs: seq<MigrationStep>, d: TableDefinition)
    requires Run(db, xs).ok
    requires CreateTable(d) in xs && d.name !in db.tables && d.name !in DropNames(xs)
    requires forall e | CreateTable(e) in xs && e.name == d.name :: e == d
    requires DroppedColumns(xs, d.name) == {} && AddedColumns(xs, d.name) == {}
    ensures d.name in Run(db, xs).db.tables
    ensures Run(db, xs).db.tables[d.name] == LiveTable(ColumnNames(d), set fk | fk in d.foreignKeys)
    decreases |xs|
  {
    var x, rest := xs[0], xs[1..];
    assert xs == [x] + rest;
    assert DroppedColumns(rest, d.name) <= DroppedColumns(xs, d.name);
    assert AddedColumns(rest, d.name) <= AddedColumns(xs, d.name);
    assert DropNames(rest) <= DropNames(xs);
    if x == CreateTable(d) {
      TableAfter(Apply(db, x), rest, d.name);
      KeptNone(d.name, set fk | fk in d.foreignKeys);
    } else {
      assert x.CreateTable? ==> x == CreateTable(x.definition);
      TableCreated(Apply(db, x), rest, d);
    }
  }

  /** A table without indexes stays without until one is created on it: creating the table
      brings none along. */
  lemma {:induction false} NoIndexOn(db: Catalog, xs: seq<MigrationStep>, t: string)
    requires forall n | n in db.indexes :: db.indexes[n].table != t
    requires forall s | s in xs && s.CreateIndex? :: s.index.tableName != t
    ensures forall n | n in Run(db, xs).db.indexes :: Run(db, xs).db.indexes[n].table != t
    decreases |xs|
  {
    if xs != [] && Enabled(db, xs[0]) {
      assert xs[0] in xs;
      NoIndexOn(Apply(db, xs[0]), xs[1..], t);
    }
  }

  /** Where a run stops: what it executed is a prefix that ran to its end, and the step after
      it, if any, is the one that was refused. */
  lemma {:induction false} Executed(db: Catalog, xs: seq<MigrationStep>) returns (k: nat)
    ensures k <= |xs| && Run(db, xs[..k]) == Outcome(Run(db, xs).db, true)
    ensures Run(db, xs).ok <==> k == |xs|
    ensures k < |xs| ==> !Enabled(Run(db, xs).db, xs[k])
    decreases |xs|
  {
    if xs == [] || !Enabled(db, xs[0]) {
      k := 0;
    } else {
      var j := Executed(Apply(db, xs[0]), xs[1..]);
      k := j + 1;
      assert xs[..k][0] == xs[0] && xs[..k][1..] == xs[1..][..j];
    }
  }

  lemma RunPrefix(db: Catalog, xs: seq<MigrationStep>, k: nat)
    requires k < |xs| && Run(db, xs).ok
    ensures Run(db, xs[..k]).ok && Enabled(Run(db, xs[..k]).db, xs[k])
  {
    assert xs == xs[..k] + xs[k..];
    RunConcat(db, xs[..k], xs[k..]);
  }

  /** Dropping tables and indexes leaves every other table as it is. */
  lemma {:induction false} DropsOnly(db: Catalog, xs: seq<MigrationStep>)
    requires Run(db, xs).ok && forall s | s in xs :: s.DropTable? || s.DropIndex?
    ensures Run(db, xs).db.tables == db.tables - DropNames(xs)
    decreases |xs|
  {
    if xs != [] {
      assert xs == [xs[0]] + xs[1..];
      assert xs[0] in xs;
      assert DropNames(xs) == DropNames(xs[1..]) + if xs[0].DropTable? then {xs[0].name} else {};
      DropsOnly(Apply(db, xs[0]), xs[1..]);
    }
  }

  /** An index outlives steps that drop neither it, nor its table, nor a column of it. */
  predicate Survives(db: Catalog, xs: seq<MigrationStep>, n: string)
    requires n in db.indexes
  {
    && n !in DropIndexNames(xs)
    && db.indexes[n].table !in DropNames(xs)
    && db.indexes[n].columns !! DroppedColumns(xs, db.indexes[n].table)
  }

  lemma SurvivesSplit(db: Catalog, xs: seq<MigrationStep>, n: string)
    requires n in db.indexes && xs != []
    ensures Survives(db, xs, n) <==> Survives(db, [xs[0]], n) && Survives(db, xs[1..], n)
  {
    var x, rest, t := xs[0], xs[1..], db.indexes[n].table;
    assert xs == [x] + rest;
    assert DropIndexNames(xs) == DropIndexNames(rest) + DropIndexNames([x]);
    assert DropNames(xs) == DropNames(rest) + DropNames([x]);
    assert DroppedColumns(xs, t) == DroppedColumns(rest, t) + DroppedColumns([x], t);
  }

  lemma SurvivesOne(db: Catalog, x: MigrationStep, n: string)
    requires n in db.indexes && Enabled(db, x)
    ensures n in Apply(db, x).indexes <==> Survives(db, [x], n)
    ensures n in Apply(db, x).indexes ==> Apply(db, x).indexes[n] == db.indexes[n]
  {
    var t := db.indexes[n].table;
    if x.DropTable? {
      assert DropNames([x]) == {x.name};
    } else if x.DropIndex? {
      assert DropIndexNames([x]) == {x.name};
    } else if x.DropColumn? {
      assert DroppedColumns([x], x.table) == {x.column};
    }
  }

  /** Without CreateIndex the indexes only shrink, to those that survive. */
  lemma {:induction false} IndexesShrink(db: Catalog, xs: seq<MigrationStep>)
    requires forall s | s in xs :: !s.CreateIndex?
    ensures forall n | n in Run(db, xs).db.indexes ::
              n in db.indexes && Run(db, xs).db.indexes[n] == db.indexes[n]
    ensures Run(db, xs).ok ==>
              forall n | n in db.indexes :: n in Run(db, xs).db.indexes <==> Survives(db, xs, n)
    decreases |xs|
  {
    if xs != [] && Enabled(db, xs[0]) {
      var x, rest := xs[0], xs[1..];
      var next := Apply(db, x);
      assert xs == [x] + rest;
      IndexesShrink(next, rest);
      assert next.indexes.Keys <= db.indexes.Keys;
      forall n | n in db.indexes
        ensures Run(db, xs).ok ==> (n in Run(db, xs).db.indexes <==> Survives(db, xs, n))
      {
        SurvivesSplit(db, xs, n);
        SurvivesOne(db, x, n);
        if n in next.indexes {
          assert Survives(next, rest, n) <==> Survives(db, rest, n);
        }
      }
      forall n | n in next.indexes ensures next.indexes[n] == db.indexes[n] {
        SurvivesOne(db, x, n);
      }
    }
  }

  /** An index that survives is never touched, whether or not the run completes. */
  lemma {:induction false} IndexKept(db: Catalog, xs: seq<MigrationStep>, n: string)
    requires n in db.indexes && Survives(db, xs, n)
    ensures n in Run(db, xs).db.indexes && Run(db, xs).db.indexes[n] == db.indexes[n]
    decreases |xs|
  {
    if xs != [] && Enabled(db, xs[0]) {
      SurvivesSplit(db, xs, n);
      SurvivesOne(db, xs[0], n);
      var next := Apply(db, xs[0]);
      assert Survives(next, xs[1..], n) <==> Survives(db, xs[1..], n);
      IndexKept(next, xs[1..], n);
    }
  }

  function Live(x: IndexDefinition): LiveIndex { LiveIndex(x.tableName, ToSet(x.columns), x.unique) }

  /** Creating indexes leaves the tables and the existing indexes alone. */
  lemma {:induction false} IndexesCreated(db: Catalog, ys: seq<MigrationStep>)
    requires forall s | s in ys :: s.CreateIndex?
    requires Run(db, ys).ok
    ensures Run(db, ys).db.tables == db.tables
    ensures Run(db, ys).db.indexes.Keys == db.indexes.Keys + CreateIndexNames(ys)
    ensures forall n | n in db.indexes :: Run(db, ys).db.indexes[n] == db.indexes[n]
    ensures forall n | n in Run(db, ys).db.indexes && n !in db.indexes ::
              exists s | s in ys :: s.CreateIndex? && s.index.name == n && Run(db, ys).db.indexes[n] == Live(s.index)
    decreases |ys|
  {
    if ys != [] {
      var y, rest := ys[0], ys[1..];
      assert ys == [y] + rest;
      var next := Apply(db, y);
      IndexesCreated(next, rest);
      assert CreateIndexNames(ys) == CreateIndexNames(rest) + {y.index.name};
      var last := Run(db, ys).db;
      hide Enabled, CreateIndexNames, Run;
      forall n | n in last.indexes && n !in db.indexes
        ensures exists s | s in ys :: s.CreateIndex? && s.index.name == n && last.indexes[n] == Live(s.index)
      {
        if n in next.indexes {
          assert y in ys && y.index.name == n && last.indexes[n] == next.indexes[n];
        } else {
          var s :| s in rest && s.CreateIndex? && s.index.name == n && last.indexes[n] == Live(s.index);
          assert s in ys;
        }
      }
    }
  }

  /** A list of CreateIndex steps over ready tables runs to the end. */
  lemma {:induction false} CreateIndexesComplete(db: Catalog, ys: seq<MigrationStep>)
    requires forall s | s in ys :: s.CreateIndex? && s.index.tableName in db.tables
                                   && ToSet(s.index.columns) <= db.tables[s.index.tableName].columns
    ensures Run(db, ys).ok
    decreases |ys|
  {
    if ys != [] {
      assert ys[0] in ys;
      CreateIndexesComplete(Apply(db, ys[0]), ys[1..]);
    }
  }

  /** A run completes when each step is accepted in the state its predecessors leave. */
  lemma {:induction false} RunCompletes(db: Catalog, xs: seq<MigrationStep>, k: nat)
    requires k <= |xs|
    requires forall i | 0 <= i < k :: Run(db, xs[..i]).ok ==> Enabled(Run(db, xs[..i]).db, xs[i])
    ensures Run(db, xs[..k]).ok
  {
    if k > 0 {
      RunCompletes(db, xs, k - 1);
      assert xs[..k] == xs[..k - 1] + [xs[k - 1]];
      RunConcat(db, xs[..k - 1], [xs[k - 1]]);
    }
  }
}
