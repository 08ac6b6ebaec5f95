/** Migrations driven by the schema they find: 20260616_003 indexes every table with
    lineage columns, 20260626_002 drops ingestion_reconcile_hashes and can create
    it again. */
module Lineage {
  import opened Options
  import opened Database
  import opened Sorting

  const HASHES := "ingestion_reconcile_hashes"
  const SCOPE_HASH := "ix_ingestion_reconcile_hashes_scope_hash"
  const SCOPE_COLUMNS := ["ingestion_run_id", "ingestion_file_member_id", "target_table", "arquivo_origem", "ano_origem", "hash_origem"]
  const LINEAGE_COLUMNS := ["arquivo_origem", "ano_origem", "hash_origem"]

  // ----- Tables with lineage -----

  predicate HasLineage(db: Db, table: string) {
    HasColumns(db, table, LINEAGE_COLUMNS)
  }

  function LineageTables(db: Db): set<string> {
    set t | t in db.tables && HasLineage(db, t)
  }

  /** What _table_names_with_lineage returns. */
  ghost predicate IsLineageList(db: Db, names: seq<string>) {
    Sorted(StringLe, names) && multiset(names) == multiset(LineageTables(db))
  }

  lemma LineageMembers(db: Db, names: seq<string>)
    requires IsLineageList(db, names)
    ensures forall t :: t in names <==> t in db.tables && HasLineage(db, t)
  {
    forall t
      ensures t in names <==> t in LineageTables(db)
    {
      assert t in names <==> t in multiset(names);
    }
  }

  ghost predicate Distinct(xs: seq<string>) {
    forall i, j :: 0 <= i < j < |xs| ==> xs[i] != xs[j]
  }

  lemma {:induction false} MultisetOfDistinct(xs: seq<string>, s: set<string>)
    requires Distinct(xs) && forall x :: x in xs <==> x in s
    ensures multiset(xs) == multiset(s)
  {
    if xs != [] {
      var x, rest := xs[0], xs[1..];
      assert xs == [x] + rest;
      assert forall y :: y in rest <==> y in s - {x};
      MultisetOfDistinct(rest, s - {x});
      assert multiset(s) == multiset(s - {x}) + multiset{x};
    } else {
      assert s == {};
    }
  }

  /** The inspector lists the tables in an order of its own; the result does not
      depend on it. */
  method TableNamesWithLineage(db: Db, tableNames: seq<string>) returns (names: seq<string>)
    requires Distinct(tableNames) && forall t :: t in tableNames <==> t in db.tables
    ensures IsLineageList(db, names)
  {
    var tables: seq<string> := [];
    for i := 0 to |tableNames|
      invariant forall t :: t in tables <==> t in tableNames[..i] && HasLineage(db, t)
      invariant Distinct(tables)
    {
      assert tableNames[..i + 1] == tableNames[..i] + [tableNames[i]];
      if HasColumns(db, tableNames[i], LINEAGE_COLUMNS) {
        assert tableNames[i] !in tableNames[..i];
        tables := tables + [tableNames[i]];
      }
    }
    assert tableNames[..|tableNames|] == tableNames;
    MultisetOfDistinct(tables, LineageTables(db));
    StringLeIsTotalOrder();
    SortSorts(StringLe, tables);
    names := Sort(StringLe, tables);
  }

  lemma LineageListIsUnique(db: Db, a: seq<string>, b: seq<string>)
    requires IsLineageList(db, a) && IsLineageList(db, b)
    ensures a == b
  {
    StringLeIsTotalOrder();
    SortedFormIsUnique(StringLe, a, b);
  }

  // ----- 20260616_003 -----

  function IndexName(table: string): string {
    "ix_" + table + "_lineage_scope_hash"
  }

  lemma IndexNameIsInjective(t: string, u: string)
    requires IndexName(t) == IndexName(u)
    ensures t == u
  {
    var n, m := IndexName(t), IndexName(u);
    assert n == "ix_" + (t + "_lineage_scope_hash") && m == "ix_" + (u + "_lineage_scope_hash");
    assert |t| == |u|;
    assert n[3..3 + |t|] == t && m[3..3 + |u|] == u;
  }

  function UpLineage(names: seq<string>): seq<Op> {
    if names == [] then []
    else if names[0] == HASHES then UpLineage(names[1..])
    else [CreateIndexIfNotExists(names[0], IndexName(names[0]), LINEAGE_COLUMNS)] + UpLineage(names[1..])
  }

  function DownLineage(names: seq<string>): seq<Op> {
    if names == [] then []
    else if names[0] == HASHES then DownLineage(names[1..])
    else [DropIndexIfExists(IndexName(names[0]))] + DownLineage(names[1..])
  }

  /** The index each of these tables is to have. */
  ghost predicate IsWanted(names: seq<string>, n: string, x: Index) {
    exists t :: t in names && t != HASHES && n == IndexName(t) && x == Index(t, LINEAGE_COLUMNS, false)
  }

  ghost predicate IsWantedName(names: seq<string>, n: string) {
    exists t :: t in names && t != HASHES && n == IndexName(t)
  }

  /** The loop leaves every relation as it was and adds exactly the wanted indexes
      whose names were free. */
  ghost predicate Indexed(db: Db, db': Db, names: seq<string>) {
    && db'.tables == db.tables
    && (forall n :: n in db.indexes ==> n in db'.indexes && db'.indexes[n] == db.indexes[n])
    && (forall n :: n in db'.indexes && n !in db.indexes ==> n !in db.tables && IsWanted(names, n, db'.indexes[n]))
    && (forall n :: IsWantedName(names, n) ==> Taken(db', n))
  }

  lemma IndexedStep(db: Db, db1: Db, db': Db, t: string, rest: seq<string>)
    requires HasLineage(db, t) && t != HASHES
    requires Apply(CreateIndexIfNotExists(t, IndexName(t), LINEAGE_COLUMNS), db) == Some(db1)
    requires Indexed(db1, db', rest)
    ensures Indexed(db, db', [t] + rest)
  {
    var names, n := [t] + rest, IndexName(t);
    forall m | IsWantedName(names, m)
      ensures Taken(db', m)
    {
      assert m == n || IsWantedName(rest, m);
    }
    forall m | m in db'.indexes && m !in db.indexes
      ensures m !in db.tables && IsWanted(names, m, db'.indexes[m])
    {
      if m in db1.indexes {
        assert m == n && t in names;
      } else {
        assert IsWanted(rest, m, db'.indexes[m]);
        var u :| u in rest && u != HASHES && m == IndexName(u) && db'.indexes[m] == Index(u, LINEAGE_COLUMNS, false);
        assert u in names;
      }
    }
  }

  lemma {:induction false} UpLineageIndexes(db: Db, names: seq<string>) returns (db': Db)
    requires forall t :: t in names ==> HasLineage(db, t)
    ensures Run(Some(db), UpLineage(names)) == Some(db') && Indexed(db, db', names)
    decreases |names|
  {
    if names == [] {
      return db;
    }
    var t, rest := names[0], names[1..];
    assert names == [t] + rest;
    assert forall u :: u in rest ==> u in names;
    if t == HASHES {
      db' := UpLineageIndexes(db, rest);
      WantedWithoutHashes(names);
      assert forall n, x :: IsWanted(rest, n, x) ==> IsWanted(names, n, x);
    } else {
      var op := CreateIndexIfNotExists(t, IndexName(t), LINEAGE_COLUMNS);
      RunCons(Some(db), op, UpLineage(rest));
      assert HasLineage(db, t);
      var db1 := Apply(op, db).value;
      assert db1.tables == db.tables;
      forall u | u in rest
        ensures HasLineage(db1, u)
      {
        assert HasLineage(db, u);
      }
      db' := UpLineageIndexes(db1, rest);
      IndexedStep(db, db1, db', t, rest);
    }
  }

  /** Some wanted name belongs to a table or to a constraint, so it cannot be dropped. */
  ghost predicate Blocked(db: Db, names: seq<string>) {
    exists t :: t in names && t != HASHES && BlockedName(db, IndexName(t))
  }

  predicate BlockedName(db: Db, n: string) {
    n in db.tables || (n in db.indexes && db.indexes[n].unique)
  }

  ghost predicate Unindexed(db: Db, db': Db, names: seq<string>) {
    && db'.tables == db.tables
    && (forall n :: n in db'.indexes <==> n in db.indexes && !IsWantedName(names, n))
    && (forall n :: n in db'.indexes ==> db'.indexes[n] == db.indexes[n])
  }

  lemma {:induction false} DownLineageDrops(db: Db, names: seq<string>)
    requires forall n :: n in db.indexes ==> n !in db.tables
    ensures Run(Some(db), DownLineage(names)).None? <==> Blocked(db, names)
    ensures !Blocked(db, names) ==> Unindexed(db, Run(Some(db), DownLineage(names)).value, names)
    decreases |names|, 0
  {
    if names == [] {
    } else {
      var t, rest := names[0], names[1..];
      assert names == [t] + rest;
      if t == HASHES {
        DownLineageDrops(db, rest);
        WantedWithoutHashes(names);
        assert Blocked(db, names) <==> Blocked(db, rest);
      } else {
        DropOneThenRest(db, t, rest);
      }
    }
  }

  lemma WantedWithoutHashes(names: seq<string>)
    requires names != [] && names[0] == HASHES
    ensures forall n :: IsWantedName(names, n) <==> IsWantedName(names[1..], n)
  {
  }

  lemma {:induction false} DropOneThenRest(db: Db, t: string, rest: seq<string>)
    requires forall n :: n in db.indexes ==> n !in db.tables
    requires t != HASHES
    ensures var run := Run(Some(db), DownLineage([t] + rest));
      && (run.None? <==> Blocked(db, [t] + rest))
      && (run.Some? ==> Unindexed(db, run.value, [t] + rest))
    decreases |rest|, 1
  {
    var names := [t] + rest;
    var n := IndexName(t);
    assert names[1..] == rest;
    RunCons(Some(db), DropIndexIfExists(n), DownLineage(rest));
    assert t in names;
    if BlockedName(db, n) {
      RunOfFailed(DownLineage(rest));
    } else {
      var db1 := Apply(DropIndexIfExists(n), db).value;
      assert db1.tables == db.tables && db1.indexes == db.indexes - {n};
      DownLineageDrops(db1, rest);
      BlockedAfterDrop(db, db1, t, rest);
      if !Blocked(db, names) {
        var db2 := Run(Some(db1), DownLineage(rest)).value;
        forall m
          ensures m in db2.indexes <==> m in db.indexes && !IsWantedName(names, m)
        {
          assert IsWantedName(names, m) <==> m == n || IsWantedName(rest, m);
        }
      }
    }
  }

  lemma BlockedAfterDrop(db: Db, db1: Db, t: string, rest: seq<string>)
    requires t != HASHES && !BlockedName(db, IndexName(t))
    requires db1.tables == db.tables && db1.indexes == db.indexes - {IndexName(t)}
    ensures Blocked(db, [t] + rest) <==> Blocked(db1, rest)
  {
  }

  function Up20260616_003(names: seq<string>): seq<Op> {
    [CreateIndex(HASHES, SCOPE_HASH, SCOPE_COLUMNS)] + UpLineage(names)
  }

  function Down20260616_003(names: seq<string>): seq<Op> {
    DownLineage(names) + [DropIndex(SCOPE_HASH)]
  }

  /** A table has lineage when it has these three columns. */
  lemma LineageExactly(db: Db, t: string)
    requires t in db.tables
    ensures HasLineage(db, t) <==>
      var columns := db.tables[t].columns;
      "arquivo_origem" in columns && "ano_origem" in columns && "hash_origem" in columns
  {
    assert LINEAGE_COLUMNS[0] == "arquivo_origem" && LINEAGE_COLUMNS[1] == "ano_origem" && LINEAGE_COLUMNS[2] == "hash_origem";
    forall c | c in LINEAGE_COLUMNS
      ensures c == "arquivo_origem" || c == "ano_origem" || c == "hash_origem"
    {
    }
  }

  /** The same with the names spelled out. */
  lemma LoopIndexes(db: Db, names: seq<string>, t: string)
    requires IsLineageList(db, names) && t in db.tables
    requires forall u :: u in names && u != "ingestion_reconcile_hashes" ==> !Taken(db, "ix_" + u + "_lineage_scope_hash")
    ensures var up := Run(Some(db), UpLineage(names));
      var n, columns := "ix_" + t + "_lineage_scope_hash", db.tables[t].columns;
      && up.Some? && up.value.tables == db.tables
      && (n in up.value.indexes && n !in db.indexes <==>
          t != "ingestion_reconcile_hashes" && "arquivo_origem" in columns && "ano_origem" in columns && "hash_origem" in columns)
      && (n in up.value.indexes && n !in db.indexes ==>
          up.value.indexes[n] == Index(t, ["arquivo_origem", "ano_origem", "hash_origem"], false))
  {
    var db' := LoopIndexesExactly(db, names);
    LineageExactly(db, t);
    if IndexName(t) in db'.indexes && IndexName(t) !in db.indexes {
      IndexNameIsInjective(t, db'.indexes[IndexName(t)].table);
    }
  }

  /** When no name is taken, the loop adds the index of every table that holds all
      three lineage columns, but for ingestion_reconcile_hashes, and no other. */
  lemma LoopIndexesExactly(db: Db, names: seq<string>) returns (db': Db)
    requires IsLineageList(db, names)
    requires forall t :: t in names && t != HASHES ==> !Taken(db, IndexName(t))
    ensures Run(Some(db), UpLineage(names)) == Some(db') && db'.tables == db.tables
    ensures forall n :: n in db.indexes ==> n in db'.indexes && db'.indexes[n] == db.indexes[n]
    ensures forall t :: t in db.tables ==>
      (IndexName(t) in db'.indexes && IndexName(t) !in db.indexes <==> HasLineage(db, t) && t != HASHES)
    ensures forall n :: n in db'.indexes && n !in db.indexes ==>
      n == IndexName(db'.indexes[n].table) && db'.indexes[n] == Index(db'.indexes[n].table, LINEAGE_COLUMNS, false)
  {
    LineageMembers(db, names);
    db' := UpLineageIndexes(db, names);
    forall t | t in db.tables
      ensures IndexName(t) in db'.indexes && IndexName(t) !in db.indexes <==> HasLineage(db, t) && t != HASHES
    {
      if IndexName(t) in db'.indexes && IndexName(t) !in db.indexes {
        var u :| u in names && u != HASHES && IndexName(t) == IndexName(u);
        IndexNameIsInjective(t, u);
      }
      if HasLineage(db, t) && t != HASHES {
        assert IsWantedName(names, IndexName(t));
      }
    }
  }

  lemma SameTablesSameList(db: Db, db': Db, names: seq<string>)
    requires db.tables == db'.tables
    ensures IsLineageList(db, names) <==> IsLineageList(db', names)
  {
  }

  method Upgrade20260616_003(op: Operations, tableNames: seq<string>)
    requires Distinct(tableNames) && forall t :: t in tableNames <==> t in op.db.tables
    modifies op
    ensures forall names :: IsLineageList(old(op.db), names) ==>
      op.Outcome() == Run(old(op.Outcome()), Up20260616_003(names))
  {
    ghost var start := op.Outcome();
    op.Do(CreateIndex(HASHES, SCOPE_HASH, SCOPE_COLUMNS));
    assert op.db.tables == old(op.db.tables);
    var names := TableNamesWithLineage(op.db, tableNames);
    SameTablesSameList(old(op.db), op.db, names);
    ghost var created := op.Outcome();
    for i := 0 to |names|
      invariant Run(op.Outcome(), UpLineage(names[i..])) == Run(created, UpLineage(names))
    {
      assert names[i..][0] == names[i] && names[i..][1..] == names[i + 1..];
      if names[i] != HASHES {
        RunCons(op.Outcome(), CreateIndexIfNotExists(names[i], IndexName(names[i]), LINEAGE_COLUMNS), UpLineage(names[i + 1..]));
        op.Do(CreateIndexIfNotExists(names[i], IndexName(names[i]), LINEAGE_COLUMNS));
      }
    }
    RunCons(start, CreateIndex(HASHES, SCOPE_HASH, SCOPE_COLUMNS), UpLineage(names));
    forall other | IsLineageList(old(op.db), other)
      ensures other == names
    {
      LineageListIsUnique(old(op.db), names, other);
    }
  }

  method Downgrade20260616_003(op: Operations, tableNames: seq<string>)
    requires Distinct(tableNames) && forall t :: t in tableNames <==> t in op.db.tables
    modifies op
    ensures forall names :: IsLineageList(old(op.db), names) ==>
      op.Outcome() == Run(old(op.Outcome()), Down20260616_003(names))
  {
    ghost var start := op.Outcome();
    var names := TableNamesWithLineage(op.db, tableNames);
    for i := 0 to |names|
      invariant Run(op.Outcome(), DownLineage(names[i..])) == Run(start, DownLineage(names))
    {
      assert names[i..][0] == names[i] && names[i..][1..] == names[i + 1..];
      if names[i] != HASHES {
        RunCons(op.Outcome(), DropIndexIfExists(IndexName(names[i])), DownLineage(names[i + 1..]));
        op.Do(DropIndexIfExists(IndexName(names[i])));
      }
    }
    RunAppend(start, DownLineage(names), [DropIndex(SCOPE_HASH)]);
    RunCons(op.Outcome(), DropIndex(SCOPE_HASH), []);
    op.Do(DropIndex(SCOPE_HASH));
    forall other | IsLineageList(old(op.db), other)
      ensures other == names
    {
      LineageListIsUnique(old(op.db), names, other);
    }
  }
}
