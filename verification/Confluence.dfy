/** The fork and the merge 8e9f0a1b2c3d: two branches of the history may be
    applied in any interleaving.

    Tables and indexes share one name space, so a branch is described by the set
    of relations it touches. */
module Confluence {
  import opened Options
  import opened Database

  /** The operation names no relation outside the footprint. */
  predicate Local(op: Op, footprint: set<string>) {
    match op
    case AddColumn(t, _, _) => t in footprint
    case DropColumn(t, _) => t in footprint
    case SetNullable(t, _, _) => t in footprint
    case SetNumeric(t, _, _, _) => t in footprint
    case DropConstraint(t, n) => t in footprint && n in footprint
    case CreateUnique(t, n, _) => t in footprint && n in footprint
    case CreateIndex(t, n, _) => t in footprint && n in footprint
    case CreateIndexIfNotExists(t, n, _) => t in footprint && n in footprint
    case DropIndex(n) => n in footprint
    case DropIndexIfExists(n) => n in footprint
    case RenameTable(t, t') => t in footprint && t' in footprint
    case RenameIndexIfExists(n, n') => n in footprint && n' in footprint
    case CreateTable(t, _) => t in footprint
    case DropTable(t) => t in footprint
    case Update(t, _, _, _) => t in footprint
  }

  ghost predicate AllLocal(ops: seq<Op>, footprint: set<string>) {
    forall op :: op in ops ==> Local(op, footprint)
  }

  /** The footprint holds a table together with its indexes. */
  predicate Closed(db: Db, footprint: set<string>) {
    forall n :: n in db.indexes ==> (n in footprint <==> db.indexes[n].table in footprint)
  }

  function Inside<V>(m: map<string, V>, footprint: set<string>): map<string, V> {
    map k | k in m && k in footprint :: m[k]
  }

  lemma InsideOutside<V>(m: map<string, V>, f: set<string>, k: string, v: V)
    requires k in f
    ensures (m - f) + Inside(m, f) == m
    ensures (m - f) + Inside(m, f)[k := v] == m[k := v]
    ensures (m - f) + (Inside(m, f) - {k}) == m - {k}
  {
  }

  function Part(db: Db, footprint: set<string>): Db {
    Db(Inside(db.tables, footprint), Inside(db.indexes, footprint))
  }

  function Rest(db: Db, footprint: set<string>): Db {
    Db(db.tables - footprint, db.indexes - footprint)
  }

  function Merge(rest: Db, part: Db): Db {
    Db(rest.tables + part.tables, rest.indexes + part.indexes)
  }

  predicate Within(db: Db, footprint: set<string>) {
    db.tables.Keys <= footprint && db.indexes.Keys <= footprint
  }

  function Over(rest: Db, part: Option<Db>): Option<Db> {
    if part.Some? then Some(Merge(rest, part.value)) else None
  }

  lemma {:induction false} PartKeysHold(db: Db, f: set<string>, t: string, rows: seq<Row>)
    requires Closed(db, f) && t in f
    ensures KeysHold(db, t, rows) == KeysHold(Part(db, f), t, rows)
  {
    var p := Part(db, f);
    assert forall n :: n in p.indexes ==> n in db.indexes && p.indexes[n] == db.indexes[n];
    assert forall n :: n in db.indexes && db.indexes[n].table == t ==> n in p.indexes;
  }

  lemma ColumnOpIsLocal(op: Op, db: Db, f: set<string>)
    requires Local(op, f) && Closed(db, f)
    requires op.AddColumn? || op.SetNullable?
    ensures Apply(op, db) == Over(Rest(db, f), Apply(op, Part(db, f)))
  {
    if op.table in db.tables {
      var next := Apply(op, db);
      var t := if next.Some? then next.value.tables[op.table] else db.tables[op.table];
      InsideOutside(db.tables, f, op.table, t);
      InsideOutside(db.indexes, f, op.table, Index("", [], false));
      assert next.Some? ==> next.value.tables == db.tables[op.table := t];
      var p := Apply(op, Part(db, f));
      assert p.Some? && next.Some? ==> p.value.tables == Inside(db.tables, f)[op.table := t];
    }
  }

  lemma RowOpIsLocal(op: Op, db: Db, f: set<string>)
    requires Local(op, f) && Closed(db, f)
    requires op.SetNumeric? || op.Update?
    ensures Apply(op, db) == Over(Rest(db, f), Apply(op, Part(db, f)))
  {
    if HasColumn(db, op.table, op.column) {
      var next := Apply(op, db);
      var t := if next.Some? then next.value.tables[op.table] else db.tables[op.table];
      InsideOutside(db.tables, f, op.table, t);
      InsideOutside(db.indexes, f, op.table, Index("", [], false));
      assert next.Some? ==> next.value.tables == db.tables[op.table := t];
      var p := Apply(op, Part(db, f));
      assert p.Some? && next.Some? ==> p.value.tables == Inside(db.tables, f)[op.table := t];
      if op.SetNumeric? {
        PartKeysHold(db, f, op.table, RoundColumn(db.tables[op.table].rows, op.column, op.scale));
      } else {
        var rows := Updated(db.tables[op.table].rows, op.column, op.value, op.condition);
        if rows.Some? {
          PartKeysHold(db, f, op.table, rows.value);
        }
      }
    }
  }

  lemma DropColumnIsLocal(op: Op, db: Db, f: set<string>)
    requires Local(op, f) && Closed(db, f) && op.DropColumn?
    ensures Apply(op, db) == Over(Rest(db, f), Apply(op, Part(db, f)))
  {
    var next := Apply(op, db);
    if next.Some? {
      InsideOutside(db.tables, f, op.table, next.value.tables[op.table]);
      WithoutColumnIsLocal(db, f, op.table, op.column);
    }
  }

  lemma WithoutColumnIsLocal(db: Db, f: set<string>, t: string, c: string)
    requires t in f && Closed(db, f)
    ensures (db.indexes - f) + WithoutColumn(Inside(db.indexes, f), t, c) == WithoutColumn(db.indexes, t, c)
  {
  }

  lemma CreateIsLocal(op: Op, db: Db, f: set<string>)
    requires Local(op, f) && Closed(db, f)
    requires op.CreateUnique? || op.CreateIndex? || op.CreateIndexIfNotExists?
    ensures Apply(op, db) == Over(Rest(db, f), Apply(op, Part(db, f)))
  {
    InsideOutside(db.indexes, f, op.name, Index(op.table, op.cols, op.CreateUnique?));
    InsideOutside(db.tables, f, op.table, Table(map[], []));
  }

  lemma DropIndexIsLocal(op: Op, db: Db, f: set<string>)
    requires Local(op, f) && Closed(db, f)
    requires op.DropConstraint? || op.DropIndex? || op.DropIndexIfExists?
    ensures Apply(op, db) == Over(Rest(db, f), Apply(op, Part(db, f)))
  {
    InsideOutside(db.indexes, f, op.name, Index("", [], false));
    InsideOutside(db.tables, f, op.name, Table(map[], []));
  }

  lemma RenameIndexIsLocal(op: Op, db: Db, f: set<string>)
    requires Local(op, f) && Closed(db, f) && op.RenameIndexIfExists?
    ensures Apply(op, db) == Over(Rest(db, f), Apply(op, Part(db, f)))
  {
    InsideOutside(db.indexes, f, op.name, Index("", [], false));
    InsideOutside(db.tables, f, op.name, Table(map[], []));
    if op.name in db.indexes {
      MovedIsLocal(db.indexes, f, op.name, op.newName);
    }
    InsideOutside(db.indexes, f, op.newName, Index("", [], false));
    InsideOutside(db.tables, f, op.newName, Table(map[], []));
  }

  lemma RenameTableIsLocal(op: Op, db: Db, f: set<string>)
    requires Local(op, f) && Closed(db, f) && op.RenameTable?
    ensures Apply(op, db) == Over(Rest(db, f), Apply(op, Part(db, f)))
  {
    InsideOutside(db.tables, f, op.newName, Table(map[], []));
    InsideOutside(db.indexes, f, op.newName, Index("", [], false));
    if op.table in db.tables {
      RetargetedIsLocal(db, f, op.table, op.newName);
      MovedIsLocal(db.tables, f, op.table, op.newName);
    }
  }

  lemma RetargetedIsLocal(db: Db, f: set<string>, t: string, t': string)
    requires t in f && Closed(db, f)
    ensures (db.indexes - f) + RetargetIndexes(Inside(db.indexes, f), t, t') == RetargetIndexes(db.indexes, t, t')
  {
  }

  lemma MovedIsLocal<V>(m: map<string, V>, f: set<string>, k: string, k': string)
    requires k in f && k' in f && k in m
    ensures (m - f) + (Inside(m, f) - {k})[k' := m[k]] == (m - {k})[k' := m[k]]
  {
  }

  lemma CreateTableIsLocal(op: Op, db: Db, f: set<string>)
    requires Local(op, f) && Closed(db, f) && op.CreateTable?
    ensures Apply(op, db) == Over(Rest(db, f), Apply(op, Part(db, f)))
  {
    InsideOutside(db.indexes, f, op.table, Index("", [], false));
    InsideOutside(db.tables, f, op.table, Table(op.columns, []));
  }

  lemma DropTableIsLocal(op: Op, db: Db, f: set<string>)
    requires Local(op, f) && Closed(db, f) && op.DropTable?
    ensures Apply(op, db) == Over(Rest(db, f), Apply(op, Part(db, f)))
  {
    InsideOutside(db.tables, f, op.table, Table(map[], []));
    var next := Apply(op, db);
    if next.Some? {
      var p := Apply(op, Part(db, f)).value;
      assert (db.indexes - f) + p.indexes == next.value.indexes;
    }
  }

  /** An operation sees and changes its footprint only: it does to the database
      what it does to that part of it alone, and leaves the rest. */
  lemma ApplyIsLocal(op: Op, db: Db, f: set<string>)
    requires Local(op, f) && Closed(db, f)
    ensures Apply(op, db) == Over(Rest(db, f), Apply(op, Part(db, f)))
  {
    match op
    case AddColumn(_, _, _) => ColumnOpIsLocal(op, db, f);
    case SetNullable(_, _, _) => ColumnOpIsLocal(op, db, f);
    case SetNumeric(_, _, _, _) => RowOpIsLocal(op, db, f);
    case Update(_, _, _, _) => RowOpIsLocal(op, db, f);
    case DropColumn(_, _) => DropColumnIsLocal(op, db, f);
    case RenameTable(_, _) => RenameTableIsLocal(op, db, f);
    case CreateTable(_, _) => CreateTableIsLocal(op, db, f);
    case DropTable(_) => DropTableIsLocal(op, db, f);
    case RenameIndexIfExists(_, _) => RenameIndexIsLocal(op, db, f);
    case DropConstraint(_, _) => DropIndexIsLocal(op, db, f);
    case DropIndex(_) => DropIndexIsLocal(op, db, f);
    case DropIndexIfExists(_) => DropIndexIsLocal(op, db, f);
    case _ => CreateIsLocal(op, db, f);
  }

  /** On a database that lies within the footprint the operation stays within it. */
  lemma ApplyStaysWithin(op: Op, p: Db, f: set<string>)
    requires Local(op, f) && Within(p, f) && Closed(p, f) && Apply(op, p).Some?
    ensures Within(Apply(op, p).value, f) && Closed(Apply(op, p).value, f)
  {
  }

  // ----- Interleavings -----

  /** xs interleaves a and b, keeping the order of each. */
  ghost predicate IsShuffle(xs: seq<Op>, a: seq<Op>, b: seq<Op>)
    decreases |xs|
  {
    if xs == [] then a == [] && b == []
    else
      || (a != [] && a[0] == xs[0] && IsShuffle(xs[1..], a[1..], b))
      || (b != [] && b[0] == xs[0] && IsShuffle(xs[1..], a, b[1..]))
  }

  /** The operations a choice gives to one branch, in their order. */
  ghost function Chosen(xs: seq<Op>, choice: seq<bool>, branch: bool): seq<Op>
    requires |choice| == |xs|
  {
    if xs == [] then []
    else (if choice[0] == branch then [xs[0]] else []) + Chosen(xs[1..], choice[1..], branch)
  }

  /** The interleavings are all the ways of giving each operation to one of the two
      branches so that each is given its own list. */
  lemma {:induction false} ShuffleExactly(xs: seq<Op>, a: seq<Op>, b: seq<Op>)
    ensures IsShuffle(xs, a, b) <==> exists choice: seq<bool> :: |choice| == |xs| && Chosen(xs, choice, true) == a && Chosen(xs, choice, false) == b
    decreases |xs|
  {
    if IsShuffle(xs, a, b) {
      var choice := ChoiceOf(xs, a, b);
    }
    forall choice: seq<bool> | |choice| == |xs| && Chosen(xs, choice, true) == a && Chosen(xs, choice, false) == b
      ensures IsShuffle(xs, a, b)
    {
      ChosenIsShuffle(xs, choice);
    }
  }

  lemma {:induction false} ChoiceOf(xs: seq<Op>, a: seq<Op>, b: seq<Op>) returns (choice: seq<bool>)
    requires IsShuffle(xs, a, b)
    ensures |choice| == |xs| && Chosen(xs, choice, true) == a && Chosen(xs, choice, false) == b
    decreases |xs|
  {
    if xs == [] {
      choice := [];
    } else if a != [] && a[0] == xs[0] && IsShuffle(xs[1..], a[1..], b) {
      var rest := ChoiceOf(xs[1..], a[1..], b);
      choice := [true] + rest;
      assert choice[1..] == rest && a == [a[0]] + a[1..];
    } else {
      var rest := ChoiceOf(xs[1..], a, b[1..]);
      choice := [false] + rest;
      assert choice[1..] == rest && b == [b[0]] + b[1..];
    }
  }

  lemma {:induction false} ChosenIsShuffle(xs: seq<Op>, choice: seq<bool>)
    requires |choice| == |xs|
    ensures IsShuffle(xs, Chosen(xs, choice, true), Chosen(xs, choice, false))
    decreases |xs|
  {
    if xs != [] {
      ChosenIsShuffle(xs[1..], choice[1..]);
      var mine, other := Chosen(xs, choice, choice[0]), Chosen(xs, choice, !choice[0]);
      assert mine == [xs[0]] + Chosen(xs[1..], choice[1..], choice[0]);
      assert mine[0] == xs[0] && mine[1..] == Chosen(xs[1..], choice[1..], choice[0]);
      assert other == Chosen(xs[1..], choice[1..], !choice[0]);
      if choice[0] {
        assert IsShuffle(xs[1..], mine[1..], other);
      } else {
        assert IsShuffle(xs[1..], other, mine[1..]);
      }
    }
  }

  lemma {:induction false} ShuffleOfNone(b: seq<Op>)
    ensures IsShuffle(b, [], b)
    decreases |b|
  {
    if b != [] {
      ShuffleOfNone(b[1..]);
    }
  }

  lemma {:induction false} ConcatIsShuffle(a: seq<Op>, b: seq<Op>)
    ensures IsShuffle(a + b, a, b)
    decreases |a|
  {
    if a == [] {
      assert a + b == b;
      ShuffleOfNone(b);
    } else {
      assert (a + b)[1..] == a[1..] + b;
      ConcatIsShuffle(a[1..], b);
    }
  }

  lemma {:induction false} ShuffleIsSymmetric(xs: seq<Op>, a: seq<Op>, b: seq<Op>)
    requires IsShuffle(xs, a, b)
    ensures IsShuffle(xs, b, a)
    decreases |xs|
  {
    if xs != [] {
      if a != [] && a[0] == xs[0] && IsShuffle(xs[1..], a[1..], b) {
        ShuffleIsSymmetric(xs[1..], a[1..], b);
      } else {
        ShuffleIsSymmetric(xs[1..], a, b[1..]);
      }
    }
  }

  function Join(rest: Db, p: Option<Db>, q: Option<Db>): Option<Db> {
    if p.Some? && q.Some? then Some(Merge(Merge(rest, p.value), q.value)) else None
  }

  lemma PartReplaced<V>(m: map<string, V>, part: map<string, V>, f: set<string>, g: set<string>)
    requires f !! g && part.Keys <= f
    ensures Inside((m - f) + part, f) == part
    ensures Inside((m - f) + part, g) == Inside(m, g)
    ensures ((m - f) + part) - (f + g) == m - (f + g)
  {
  }

  /** After a step of the branch that owns f, that branch's part has made the step
      and the other branch's part and the rest are as before. */
  lemma StepOfOneBranch(op: Op, db: Db, f: set<string>, g: set<string>) returns (db': Db)
    requires f !! g && Local(op, f) && Closed(db, f) && Closed(db, g) && Apply(op, Part(db, f)).Some?
    ensures Apply(op, db) == Some(db')
    ensures Apply(op, Part(db, f)) == Some(Part(db', f)) && Part(db', g) == Part(db, g)
    ensures Rest(db', f + g) == Rest(db, f + g)
    ensures Closed(db', f) && Closed(db', g)
  {
    ApplyIsLocal(op, db, f);
    assert Closed(Part(db, f), f) && Within(Part(db, f), f);
    ApplyStaysWithin(op, Part(db, f), f);
    var p := Apply(op, Part(db, f)).value;
    db' := Merge(Rest(db, f), p);
    PartReplaced(db.tables, p.tables, f, g);
    PartReplaced(db.indexes, p.indexes, f, g);
    ClosedAfter(db, p, f, g);
  }

  lemma ClosedAfter(db: Db, p: Db, f: set<string>, g: set<string>)
    requires f !! g && Closed(db, f) && Closed(db, g) && Within(p, f) && Closed(p, f)
    ensures Closed(Merge(Rest(db, f), p), f) && Closed(Merge(Rest(db, f), p), g)
  {
  }

  lemma PartsMakeWhole(db: Db, f: set<string>, g: set<string>)
    requires f !! g
    ensures Merge(Merge(Rest(db, f + g), Part(db, f)), Part(db, g)) == db
    ensures Rest(db, f + g) == Rest(db, g + f)
  {
    assert f + g == g + f;
    var whole := Merge(Merge(Rest(db, f + g), Part(db, f)), Part(db, g));
    assert whole.tables == db.tables && whole.indexes == db.indexes;
  }

  /** What an interleaving does: each branch runs on its own part of the database
      as if it were alone; the run fails exactly when one of them does. */
  lemma {:induction false} ShuffleRunsBranchesApart(db: Db, xs: seq<Op>, a: seq<Op>, b: seq<Op>, f: set<string>, g: set<string>)
    requires f !! g && Closed(db, f) && Closed(db, g)
    requires IsShuffle(xs, a, b) && AllLocal(a, f) && AllLocal(b, g)
    ensures Run(Some(db), xs) == Join(Rest(db, f + g), Run(Some(Part(db, f)), a), Run(Some(Part(db, g)), b))
    decreases |xs|
  {
    if xs == [] {
      PartsMakeWhole(db, f, g);
    } else if a != [] && a[0] == xs[0] && IsShuffle(xs[1..], a[1..], b) {
      if Apply(a[0], Part(db, f)).Some? {
        var db' := StepOfOneBranch(a[0], db, f, g);
        ShuffleRunsBranchesApart(db', xs[1..], a[1..], b, f, g);
      } else {
        ApplyIsLocal(a[0], db, f);
        RunOfFailed(xs[1..]);
        RunOfFailed(a[1..]);
      }
    } else {
      if Apply(b[0], Part(db, g)).Some? {
        var db' := StepOfOneBranch(b[0], db, g, f);
        assert f + g == g + f;
        ShuffleRunsBranchesApart(db', xs[1..], a, b[1..], f, g);
      } else {
        ApplyIsLocal(b[0], db, g);
        RunOfFailed(xs[1..]);
        RunOfFailed(b[1..]);
      }
    }
  }

  /** Any two interleavings of operation lists on disjoint relations agree, in
      success and in the database they leave. */
  lemma ShufflesAgree(db: Db, xs: seq<Op>, ys: seq<Op>, a: seq<Op>, b: seq<Op>, f: set<string>, g: set<string>)
    requires f !! g && Closed(db, f) && Closed(db, g)
    requires IsShuffle(xs, a, b) && IsShuffle(ys, a, b) && AllLocal(a, f) && AllLocal(b, g)
    ensures Run(Some(db), xs) == Run(Some(db), ys)
  {
    ShuffleRunsBranchesApart(db, xs, a, b, f, g);
    ShuffleRunsBranchesApart(db, ys, a, b, f, g);
  }

  /** A table and its indexes. */
  function Family(db: Db, table: string): set<string> {
    {table} + set n | n in db.indexes && db.indexes[n].table == table
  }

}
