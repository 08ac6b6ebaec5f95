/** 20260626_002 drops ingestion_reconcile_hashes with its indexes and creates it
    again; together with 20260616_003 it is undone exactly when no lineage index
    name was taken. */
module ReconcileHashes {
  import opened Options
  import opened Database
  import opened Integrity
  import opened Lineage
  import opened TableIndexes

  /** In the order of the tuple that upgrade goes through. */
  const HASHES_INDEXES := [
    Named(SCOPE_HASH, SCOPE_COLUMNS),
    Named("ix_ingestion_reconcile_hashes_ano_origem", ["ano_origem"]),
    Named("ix_ingestion_reconcile_hashes_arquivo_origem", ["arquivo_origem"]),
    Named("ix_ingestion_reconcile_hashes_hash_origem", ["hash_origem"]),
    Named("ix_ingestion_reconcile_hashes_ingestion_file_member_id", ["ingestion_file_member_id"]),
    Named("ix_ingestion_reconcile_hashes_ingestion_run_id", ["ingestion_run_id"]),
    Named("ix_ingestion_reconcile_hashes_target_table", ["target_table"])]

  const HASHES_COLUMNS: map<string, Column> := map[
    "id" := Column(Uuid, false, Null),
    "ingestion_run_id" := Column(Uuid, false, Null),
    "ingestion_file_member_id" := Column(Uuid, true, Null),
    "target_table" := Column(Varchar(120), false, Null),
    "arquivo_origem" := Column(Varchar(255), false, Null),
    "ano_origem" := Column(Integer, true, Null),
    "hash_origem" := Column(Varchar(64), false, Null),
    "created_at" := Column(Timestamp, false, Str("now()"))]

  // ----- upgrade -----

  predicate OnHashes(db: Db, n: string) {
    n in db.indexes && db.indexes[n].table == HASHES
  }

  /** The guard looks at the indexes the table had before the loop. */
  function GuardedDrops(before: Db, list: seq<Named>): seq<Op> {
    if list == [] then []
    else if OnHashes(before, list[0].name) then [DropIndex(list[0].name)] + GuardedDrops(before, list[1..])
    else GuardedDrops(before, list[1..])
  }

  function Up(before: Db, list: seq<Named>): seq<Op> {
    if HASHES !in before.tables then [] else GuardedDrops(before, list) + [DropTable(HASHES)]
  }

  /** Constraints of the table under one of the listed names. */
  ghost predicate Constrained(db: Db, list: seq<Named>) {
    exists e :: e in list && OnHashes(db, e.name) && db.indexes[e.name].unique
  }

  ghost predicate SameListed(a: Db, b: Db, list: seq<Named>) {
    forall e :: e in list ==> (OnHashes(a, e.name) <==> OnHashes(b, e.name)) && (OnHashes(a, e.name) ==> a.indexes[e.name] == b.indexes[e.name])
  }

  lemma ConstrainedCons(db: Db, e: Named, rest: seq<Named>)
    ensures Constrained(db, [e] + rest) <==> (OnHashes(db, e.name) && db.indexes[e.name].unique) || Constrained(db, rest)
  {
  }

  ghost predicate DropsLead(before: Db, db: Db, list: seq<Named>) {
    var run := Run(Some(db), GuardedDrops(before, list));
    && (run.None? <==> Constrained(before, list))
    && (run.Some? ==> Apply(DropTable(HASHES), run.value) == Apply(DropTable(HASHES), db))
  }

  lemma DropOneThenRest(before: Db, db: Db, e: Named, rest: seq<Named>)
    requires OnHashes(before, e.name) && OnHashes(db, e.name) && db.indexes[e.name] == before.indexes[e.name]
    requires db.indexes[e.name].unique || DropsLead(before, db.(indexes := db.indexes - {e.name}), rest)
    ensures DropsLead(before, db, [e] + rest)
  {
    assert ([e] + rest)[1..] == rest;
    ConstrainedCons(before, e, rest);
    RunCons(Some(db), DropIndex(e.name), GuardedDrops(before, rest));
    if db.indexes[e.name].unique {
      RunOfFailed(GuardedDrops(before, rest));
    } else {
      DropTableForgetsIndex(HASHES, db, e.name);
    }
  }

  lemma {:induction false} GuardedDropsRun(before: Db, db: Db, list: seq<Named>)
    requires NamesDiffer(list) && SameListed(before, db, list)
    ensures DropsLead(before, db, list)
    decreases |list|
  {
    if list != [] {
      var e, rest := list[0], list[1..];
      assert list == [e] + rest;
      NamesDifferRest(e, rest);
      SameListedRest(before, db, e, rest);
      if OnHashes(before, e.name) {
        if !db.indexes[e.name].unique {
          GuardedDropsRun(before, db.(indexes := db.indexes - {e.name}), rest);
        }
        DropOneThenRest(before, db, e, rest);
      } else {
        GuardedDropsRun(before, db, rest);
        SkipOneThenRest(before, db, e, rest);
      }
    }
  }

  lemma SameListedRest(before: Db, db: Db, e: Named, rest: seq<Named>)
    requires NamesDiffer([e] + rest) && SameListed(before, db, [e] + rest)
    ensures OnHashes(before, e.name) ==> OnHashes(db, e.name) && db.indexes[e.name] == before.indexes[e.name]
    ensures SameListed(before, db, rest)
    ensures SameListed(before, db.(indexes := db.indexes - {e.name}), rest)
  {
    assert e in [e] + rest;
    NamesDifferRest(e, rest);
    forall d | d in rest
      ensures d in [e] + rest && d.name != e.name
    {
    }
  }

  lemma SkipOneThenRest(before: Db, db: Db, e: Named, rest: seq<Named>)
    requires !OnHashes(before, e.name) && DropsLead(before, db, rest)
    ensures DropsLead(before, db, [e] + rest)
  {
    assert ([e] + rest)[1..] == rest;
    ConstrainedCons(before, e, rest);
  }

  /** The upgrade fails exactly when a listed index backs a constraint of the table.
      Otherwise it leaves what DROP TABLE alone would leave, and a database without
      the table is not changed. */
  lemma UpIsDropTable(db: Db, list: seq<Named>)
    requires NamesDiffer(list)
    ensures Run(Some(db), Up(db, list)) ==
      if HASHES !in db.tables then Some(db)
      else if Constrained(db, list) then None
      else Apply(DropTable(HASHES), db)
  {
    if HASHES in db.tables {
      GuardedDropsRun(db, db, list);
      var run := Run(Some(db), GuardedDrops(db, list));
      RunAppend(Some(db), GuardedDrops(db, list), [DropTable(HASHES)]);
      RunCons(run, DropTable(HASHES), []);
    }
  }

  method Upgrade20260626_002(op: Operations)
    modifies op
    ensures op.Outcome() == Run(old(op.Outcome()), Up(old(op.db), HASHES_INDEXES))
  {
    if HASHES !in op.db.tables {
      return;
    }
    ghost var before, start := op.db, op.Outcome();
    var indexes := set n | n in op.db.indexes && op.db.indexes[n].table == HASHES;
    var list := HASHES_INDEXES;
    for i := 0 to |list|
      invariant Run(op.Outcome(), GuardedDrops(before, list[i..])) == Run(start, GuardedDrops(before, list))
    {
      assert list[i..][0] == list[i] && list[i..][1..] == list[i + 1..];
      if list[i].name in indexes {
        RunCons(op.Outcome(), DropIndex(list[i].name), GuardedDrops(before, list[i + 1..]));
        op.Do(DropIndex(list[i].name));
      }
    }
    RunAppend(start, GuardedDrops(before, list), [DropTable(HASHES)]);
    RunCons(op.Outcome(), DropTable(HASHES), []);
    op.Do(DropTable(HASHES));
  }

  // ----- downgrade -----

  function Down(list: seq<Named>): seq<Op> {
    [CreateTable(HASHES, HASHES_COLUMNS)] + Creates(HASHES, list)
  }

  method Downgrade20260626_002(op: Operations)
    modifies op
    ensures op.Outcome() == Run(old(op.Outcome()), Down(HASHES_INDEXES))
  {
    ghost var start := op.Outcome();
    op.Do(CreateTable(HASHES, HASHES_COLUMNS));
    ghost var created := op.Outcome();
    CreateIndexOf(op, HASHES, HASHES_INDEXES[0]);
    CreateIndexOf(op, HASHES, HASHES_INDEXES[1]);
    CreateIndexOf(op, HASHES, HASHES_INDEXES[2]);
    CreateIndexOf(op, HASHES, HASHES_INDEXES[3]);
    CreateIndexOf(op, HASHES, HASHES_INDEXES[4]);
    CreateIndexOf(op, HASHES, HASHES_INDEXES[5]);
    CreateIndexOf(op, HASHES, HASHES_INDEXES[6]);
    CreatesOfSeven(HASHES, created, HASHES_INDEXES);
    RunCons(start, CreateTable(HASHES, HASHES_COLUMNS), Creates(HASHES, HASHES_INDEXES));
  }

  // ----- Down after up -----

  /** The table as the migrations leave it: its columns, and the listed indexes and no other. */
  ghost predicate AsLeft(db: Db, list: seq<Named>) {
    && HASHES in db.tables && db.tables[HASHES].columns == HASHES_COLUMNS
    && (forall e :: e in list ==> e.name in db.indexes && db.indexes[e.name] == Index(HASHES, e.cols, false))
    && (forall n :: OnHashes(db, n) ==> exists e :: e in list && e.name == n)
  }

  /** The same schema, the table emptied. */
  function Emptied(db: Db): Db
    requires HASHES in db.tables
  {
    SetRows(db, HASHES, [])
  }

  /** Dropping the table and creating it again restores everything but its rows. */
  lemma DropIsUndone(db: Db, list: seq<Named>)
    requires Valid(db) && NamesDiffer(list) && AsLeft(db, list)
    ensures Run(Run(Some(db), Up(db, list)), Down(list)) == Some(Emptied(db))
  {
    UpIsDropTable(db, list);
    var gone := Apply(DropTable(HASHES), db).value;
    var back := gone.(tables := gone.tables[HASHES := Table(HASHES_COLUMNS, [])]);
    RunCons(Some(gone), CreateTable(HASHES, HASHES_COLUMNS), Creates(HASHES, list));
    assert HASHES !in gone.indexes && HASHES !in gone.tables;
    forall e | e in list
      ensures !Taken(back, e.name) && HasColumns(back, HASHES, e.cols)
    {
      assert IndexFits(db, db.indexes[e.name]);
      assert e.name != HASHES;
    }
    var restored := CreatesRun(HASHES, back, list);
    RestoredIsEmptied(db, list, gone, back, restored);
  }

  lemma RestoredIsEmptied(db: Db, list: seq<Named>, gone: Db, back: Db, restored: Db)
    requires AsLeft(db, list) && Apply(DropTable(HASHES), db) == Some(gone)
    requires back == gone.(tables := gone.tables[HASHES := Table(HASHES_COLUMNS, [])])
    requires Created(HASHES, back, restored, list)
    ensures restored == Emptied(db)
  {
    assert restored.tables == Emptied(db).tables;
    forall n
      ensures n in restored.indexes <==> n in db.indexes
      ensures n in db.indexes ==> restored.indexes[n] == db.indexes[n]
    {
      if n in restored.indexes && n !in gone.indexes {
        assert Listed(HASHES, list, n, restored.indexes[n]);
      }
      if OnHashes(db, n) {
        var e :| e in list && e.name == n;
      } else if n in db.indexes {
        assert n in gone.indexes;
      }
    }
    assert restored.indexes == db.indexes;
  }

  // ----- Up through 20260616_003 and 20260626_002, and back -----

  /** The table as 20260616_002 left it. */
  ghost predicate AtStart(db: Db, list: seq<Named>) {
    && |list| > 0 && NamesDiffer(list)
    && list[0] == Named(SCOPE_HASH, SCOPE_COLUMNS)
    && AsLeft(db, list[1..]) && !Taken(db, SCOPE_HASH)
    && HasColumns(db, HASHES, SCOPE_COLUMNS)
  }

  function WithScope(db: Db): Db {
    db.(indexes := db.indexes[SCOPE_HASH := Index(HASHES, SCOPE_COLUMNS, false)])
  }

  lemma ScopeIsNotLineage(t: string)
    ensures IndexName(t) != SCOPE_HASH
  {
    var n := IndexName(t);
    assert |"_lineage_scope_hash"| == 19 && "_lineage_scope_hash"[7] == 'e';
    assert n == ("ix_" + t) + "_lineage_scope_hash";
    assert n[|n| - 12] == 'e';
    assert |SCOPE_HASH| == 40 && SCOPE_HASH[28] == 's';
  }

  lemma AsLeftAfterLoop(db: Db, up: Db, list: seq<Named>, names: seq<string>)
    requires AtStart(db, list) && Indexed(WithScope(db), up, names)
    ensures AsLeft(up, list)
  {
    assert list == [list[0]] + list[1..];
    forall n | OnHashes(up, n)
      ensures exists e :: e in list && e.name == n
    {
      if n == SCOPE_HASH {
        assert list[0] in list;
      } else {
        assert n !in db.indexes ==> IsWanted(names, n, up.indexes[n]);
        assert OnHashes(db, n);
        var e :| e in list[1..] && e.name == n;
        assert e in list;
      }
    }
    forall e | e in list
      ensures e.name in up.indexes && up.indexes[e.name] == Index(HASHES, e.cols, false)
    {
      if e != list[0] {
        assert e in list[1..];
        assert e.name in db.indexes;
      }
    }
  }

  lemma ScopeIsCreated(db: Db, rest: seq<Op>)
    requires !Taken(db, SCOPE_HASH) && HasColumns(db, HASHES, SCOPE_COLUMNS)
    ensures Run(Some(db), [CreateIndex(HASHES, SCOPE_HASH, SCOPE_COLUMNS)] + rest) == Run(Some(WithScope(db)), rest)
  {
  }

  /** The upgrade of 20260616_003: it never fails, and leaves the table with all its indexes. */
  lemma FirstUpgrade(db: Db, list: seq<Named>, names: seq<string>) returns (up: Db)
    requires Valid(db) && AtStart(db, list) && IsLineageList(db, names)
    ensures Run(Some(db), Up20260616_003(names)) == Some(up)
    ensures Valid(up) && AsLeft(up, list) && Indexed(WithScope(db), up, names)
  {
    ScopeIsCreated(db, UpLineage(names));
    SameLineage(db, WithScope(db), names);
    LineageMembers(WithScope(db), names);
    up := UpLineageIndexes(WithScope(db), names);
    RunKeepsValid(Some(db), Up20260616_003(names));
    AsLeftAfterLoop(db, up, list, names);
  }

  lemma SameLineage(a: Db, b: Db, names: seq<string>)
    requires a.tables.Keys == b.tables.Keys && forall t :: t in a.tables ==> a.tables[t].columns == b.tables[t].columns
    ensures IsLineageList(a, names) <==> IsLineageList(b, names)
  {
  }

  predicate NameTaken(db: Db, t: string) {
    t != HASHES && Taken(db, IndexName(t))
  }

  /** A name that was taken is not what it was at the end, if the end is reached. */
  lemma TakenNameIsLost(db: Db, up: Db, names: seq<string>, t: string)
    requires Indexed(WithScope(db), up, names) && HASHES in db.tables
    requires t in names && NameTaken(db, t) && !Blocked(Emptied(up), names)
    ensures IndexName(t) in db.indexes && IsWantedName(names, IndexName(t))
  {
  }

  lemma LastDropFrom(e: Db)
    ensures Run(Some(e), [DropIndex(SCOPE_HASH)]) == Apply(DropIndex(SCOPE_HASH), e)
    ensures Apply(DropIndex(SCOPE_HASH), e).Some? ==> Apply(DropIndex(SCOPE_HASH), e).value.indexes == e.indexes - {SCOPE_HASH}
  {
  }

  /** The last leg, from the database in which the table has been created again. */
  lemma LastDowngrade(db: Db, up: Db, names: seq<string>)
    requires Valid(db) && Valid(up) && Indexed(WithScope(db), up, names) && HASHES in db.tables && !Taken(db, SCOPE_HASH)
    ensures Run(Some(Emptied(up)), Down20260616_003(names)) == Some(Emptied(db)) <==>
      forall t :: t in names ==> !NameTaken(db, t)
  {
    var d := Emptied(up);
    DownLineageDrops(d, names);
    RunAppend(Some(d), DownLineage(names), [DropIndex(SCOPE_HASH)]);
    if Blocked(d, names) {
      RunOfFailed([DropIndex(SCOPE_HASH)]);
      if forall t :: t in names ==> !NameTaken(db, t) {
        NothingBlocked(db, up, names);
      }
    } else {
      var e := Run(Some(d), DownLineage(names)).value;
      LastDropFrom(e);
      if t :| t in names && NameTaken(db, t) {
        TakenNameIsLost(db, up, names, t);
      } else {
        LastDropsRestore(db, up, names, e);
      }
    }
  }

  lemma NothingBlocked(db: Db, up: Db, names: seq<string>)
    requires Indexed(WithScope(db), up, names) && HASHES in db.tables
    requires forall t :: t in names ==> !NameTaken(db, t)
    ensures !Blocked(Emptied(up), names)
  {
  }

  lemma FreeNamesAreNew(db: Db, names: seq<string>, n: string)
    requires forall t :: t in names ==> !NameTaken(db, t)
    requires IsWantedName(names, n)
    ensures n !in db.indexes && n != SCOPE_HASH
  {
    var t :| t in names && t != HASHES && n == IndexName(t);
    assert !NameTaken(db, t);
    ScopeIsNotLineage(t);
  }

  lemma LastEntry(db: Db, up: Db, names: seq<string>, e: Db, n: string)
    requires Indexed(WithScope(db), up, names) && HASHES in db.tables && !Taken(db, SCOPE_HASH)
    requires forall t :: t in names ==> !NameTaken(db, t)
    requires Unindexed(Emptied(up), e, names)
    ensures n in e.indexes <==> n in db.indexes || n == SCOPE_HASH
    ensures n in db.indexes ==> e.indexes[n] == db.indexes[n]
    ensures n == SCOPE_HASH ==> !e.indexes[n].unique
  {
    if IsWantedName(names, n) {
      FreeNamesAreNew(db, names, n);
    }
    if n in up.indexes && n !in WithScope(db).indexes {
      assert IsWanted(names, n, up.indexes[n]);
    }
  }

  lemma LastDropsRestore(db: Db, up: Db, names: seq<string>, e: Db)
    requires Indexed(WithScope(db), up, names) && HASHES in db.tables && !Taken(db, SCOPE_HASH)
    requires forall t :: t in names ==> !NameTaken(db, t)
    requires Unindexed(Emptied(up), e, names)
    ensures Apply(DropIndex(SCOPE_HASH), e) == Some(Emptied(db))
  {
    forall n
      ensures n in e.indexes <==> n in db.indexes || n == SCOPE_HASH
      ensures n in db.indexes ==> e.indexes[n] == db.indexes[n]
      ensures n == SCOPE_HASH ==> !e.indexes[n].unique
    {
      LastEntry(db, up, names, e, n);
    }
    assert e.indexes - {SCOPE_HASH} == db.indexes;
  }

  /** From any valid database with the table as 20260616_002 left it, upgrading
      through both revisions and back through both never fails before the last
      downgrade, and restores the database, the rows of the dropped table aside,
      exactly when no lineage index name was taken beforehand. */
  lemma RoundTripExactly(db: Db, list: seq<Named>, names: seq<string>) returns (up: Db, down: Db)
    requires Valid(db) && AtStart(db, list) && IsLineageList(db, names)
    ensures Run(Some(db), Up20260616_003(names)) == Some(up)
    ensures Run(Run(Some(up), Up(up, list)), Down(list)) == Some(down) && IsLineageList(down, names)
    ensures Run(Some(down), Down20260616_003(names)) == Some(Emptied(db)) <==>
      forall t :: t in names ==> !NameTaken(db, t)
  {
    up := FirstUpgrade(db, list, names);
    DropIsUndone(up, list);
    down := Emptied(up);
    assert up.tables == db.tables;
    SameLineage(db, down, names);
    LastDowngrade(db, up, names);
  }

  lemma HashesIndexesDiffer()
    ensures NamesDiffer(HASHES_INDEXES)
  {
  }

  lemma ScopeColumnsExist()
    ensures forall c :: c in SCOPE_COLUMNS ==> c in HASHES_COLUMNS
  {
  }

  /** The premise of the round trip is what 20260616_002 leaves. */
  lemma PreviousRevisionIsStart(db: Db)
    requires AsLeft(db, HASHES_INDEXES[1..]) && !Taken(db, SCOPE_HASH)
    ensures AtStart(db, HASHES_INDEXES)
  {
    HashesIndexesDiffer();
    ScopeColumnsExist();
  }
}
