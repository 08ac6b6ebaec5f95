/** The non-unique indexes of one table, created and dropped together with it. */
module TableIndexes {
  import opened Options
  import opened Database

  datatype Named = Named(name: string, cols: seq<string>)

  ghost predicate NamesDiffer(list: seq<Named>) {
    forall i, j :: 0 <= i < j < |list| ==> list[i].name != list[j].name
  }

  function Creates(table: string, list: seq<Named>): seq<Op> {
    if list == [] then [] else [CreateIndex(table, list[0].name, list[0].cols)] + Creates(table, list[1..])
  }

  ghost predicate Listed(table: string, list: seq<Named>, n: string, x: Index) {
    exists e :: e in list && e.name == n && x == Index(table, e.cols, false)
  }

  ghost predicate Created(table: string, db: Db, db': Db, list: seq<Named>) {
    && db'.tables == db.tables
    && (forall n :: n in db.indexes ==> n in db'.indexes && db'.indexes[n] == db.indexes[n])
    && (forall e :: e in list ==> e.name in db'.indexes && db'.indexes[e.name] == Index(table, e.cols, false))
    && (forall n :: n in db'.indexes && n !in db.indexes ==> Listed(table, list, n, db'.indexes[n]))
  }

  lemma CreatedStep(table: string, db: Db, e: Named, rest: seq<Named>, db': Db)
    requires !Taken(db, e.name)
    requires Created(table, db.(indexes := db.indexes[e.name := Index(table, e.cols, false)]), db', rest)
    ensures Created(table, db, db', [e] + rest)
  {
  }

  /** The listed indexes can all be created. */
  ghost predicate Creatable(table: string, db: Db, list: seq<Named>) {
    forall e :: e in list ==> !Taken(db, e.name) && HasColumns(db, table, e.cols)
  }

  lemma NamesDifferRest(e: Named, rest: seq<Named>)
    requires NamesDiffer([e] + rest)
    ensures NamesDiffer(rest) && forall d :: d in rest ==> d.name != e.name
  {
    var list := [e] + rest;
    assert forall i :: 0 <= i < |rest| ==> rest[i] == list[i + 1];
    assert list[0] == e;
  }

  lemma CreatableRest(table: string, db: Db, e: Named, rest: seq<Named>)
    requires NamesDiffer([e] + rest) && Creatable(table, db, [e] + rest)
    ensures !Taken(db, e.name) && HasColumns(db, table, e.cols) && NamesDiffer(rest)
    ensures Creatable(table, db.(indexes := db.indexes[e.name := Index(table, e.cols, false)]), rest)
  {
    NamesDifferRest(e, rest);
    assert e in [e] + rest && forall d :: d in rest ==> d in [e] + rest;
  }

  lemma {:induction false} CreatesRun(table: string, db: Db, list: seq<Named>) returns (db': Db)
    requires NamesDiffer(list) && Creatable(table, db, list)
    ensures Run(Some(db), Creates(table, list)) == Some(db') && Created(table, db, db', list)
    decreases |list|
  {
    if list == [] {
      return db;
    }
    var e, rest := list[0], list[1..];
    assert list == [e] + rest;
    CreatableRest(table, db, e, rest);
    var db1 := db.(indexes := db.indexes[e.name := Index(table, e.cols, false)]);
    db' := CreatesRun(table, db1, rest);
    RunCons(Some(db), CreateIndex(table, e.name, e.cols), Creates(table, rest));
    CreatedStep(table, db, e, rest, db');
  }

  lemma CreatesFrom(table: string, state: Option<Db>, list: seq<Named>, i: nat)
    requires i < |list|
    ensures Run(state, Creates(table, list[i..])) == Run(Then(state, CreateIndex(table, list[i].name, list[i].cols)), Creates(table, list[i + 1..]))
  {
  }

  lemma CreatesOfSeven(table: string, state: Option<Db>, list: seq<Named>)
    requires |list| == 7
    ensures
      var s3 := CreatesThree(table, state, list[0], list[1], list[2]);
      var s6 := CreatesThree(table, s3, list[3], list[4], list[5]);
      Run(state, Creates(table, list)) == Then(s6, CreateIndex(table, list[6].name, list[6].cols))
  {
    assert list[0..] == list;
    CreatesFromThree(table, state, list, 0);
    var s3 := CreatesThree(table, state, list[0], list[1], list[2]);
    CreatesFromThree(table, s3, list, 3);
    CreatesFrom(table, CreatesThree(table, s3, list[3], list[4], list[5]), list, 6);
  }

  function CreatesThree(table: string, state: Option<Db>, a: Named, b: Named, c: Named): Option<Db> {
    Then(Then(Then(state, CreateIndex(table, a.name, a.cols)), CreateIndex(table, b.name, b.cols)), CreateIndex(table, c.name, c.cols))
  }

  lemma CreatesFromThree(table: string, state: Option<Db>, list: seq<Named>, i: nat)
    requires i + 2 < |list|
    ensures Run(state, Creates(table, list[i..])) == Run(CreatesThree(table, state, list[i], list[i + 1], list[i + 2]), Creates(table, list[i + 3..]))
  {
    var s1 := Then(state, CreateIndex(table, list[i].name, list[i].cols));
    CreatesFrom(table, state, list, i);
    CreatesFrom(table, s1, list, i + 1);
    CreatesFrom(table, Then(s1, CreateIndex(table, list[i + 1].name, list[i + 1].cols)), list, i + 2);
  }

  method CreateIndexOf(op: Operations, table: string, e: Named)
    modifies op
    ensures op.Outcome() == Then(old(op.Outcome()), CreateIndex(table, e.name, e.cols))
  {
    op.Do(CreateIndex(table, e.name, e.cols));
  }

  lemma DropTableForgetsIndex(table: string, db: Db, n: string)
    requires n in db.indexes && db.indexes[n].table == table
    ensures Apply(DropTable(table), db.(indexes := db.indexes - {n})) == Apply(DropTable(table), db)
  {
    var db1 := db.(indexes := db.indexes - {n});
    assert (map m | m in db1.indexes && db1.indexes[m].table != table :: db1.indexes[m])
        == (map m | m in db.indexes && db.indexes[m].table != table :: db.indexes[m]);
  }

  function Drops(list: seq<Named>): seq<Op> {
    if list == [] then [] else [DropIndex(list[0].name)] + Drops(list[1..])
  }

  predicate Droppable(table: string, db: Db, name: string) {
    name in db.indexes && db.indexes[name].table == table && !db.indexes[name].unique
  }

  /** Dropping indexes of a table before the table itself makes no difference to what is left. */
  lemma {:induction false} DropsRun(table: string, db: Db, list: seq<Named>) returns (db': Db)
    requires NamesDiffer(list) && forall e :: e in list ==> Droppable(table, db, e.name)
    ensures Run(Some(db), Drops(list)) == Some(db')
    ensures Apply(DropTable(table), db') == Apply(DropTable(table), db)
    decreases |list|
  {
    if list == [] {
      return db;
    }
    var e, rest := list[0], list[1..];
    assert list == [e] + rest && e in list;
    NamesDifferRest(e, rest);
    var db1 := db.(indexes := db.indexes - {e.name});
    forall d | d in rest
      ensures Droppable(table, db1, d.name)
    {
      assert d in list && Droppable(table, db, d.name);
    }
    assert Droppable(table, db, e.name);
    db' := DropsRun(table, db1, rest);
    RunCons(Some(db), DropIndex(e.name), Drops(rest));
    DropTableForgetsIndex(table, db, e.name);
  }

  lemma CreatesOfFive(table: string, state: Option<Db>, list: seq<Named>)
    requires |list| == 5
    ensures Run(state, Creates(table, list)) ==
      Then(Then(CreatesThree(table, state, list[0], list[1], list[2]), CreateIndex(table, list[3].name, list[3].cols)),
           CreateIndex(table, list[4].name, list[4].cols))
  {
    assert list[0..] == list;
    CreatesFromThree(table, state, list, 0);
    var s3 := CreatesThree(table, state, list[0], list[1], list[2]);
    CreatesFrom(table, s3, list, 3);
    CreatesFrom(table, Then(s3, CreateIndex(table, list[3].name, list[3].cols)), list, 4);
  }

  lemma DropsFrom(state: Option<Db>, list: seq<Named>, i: nat)
    requires i < |list|
    ensures Run(state, Drops(list[i..])) == Run(Then(state, DropIndex(list[i].name)), Drops(list[i + 1..]))
  {
  }

  function DropsThree(state: Option<Db>, a: Named, b: Named, c: Named): Option<Db> {
    Then(Then(Then(state, DropIndex(a.name)), DropIndex(b.name)), DropIndex(c.name))
  }

  lemma DropsOfFive(state: Option<Db>, list: seq<Named>)
    requires |list| == 5
    ensures Run(state, Drops(list)) ==
      Then(Then(DropsThree(state, list[0], list[1], list[2]), DropIndex(list[3].name)), DropIndex(list[4].name))
  {
    assert list[0..] == list;
    DropsFrom(state, list, 0);
    var s1 := Then(state, DropIndex(list[0].name));
    DropsFrom(s1, list, 1);
    DropsFrom(Then(s1, DropIndex(list[1].name)), list, 2);
    var s3 := DropsThree(state, list[0], list[1], list[2]);
    DropsFrom(s3, list, 3);
    DropsFrom(Then(s3, DropIndex(list[3].name)), list, 4);
  }
}
