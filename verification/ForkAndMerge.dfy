/** The fork of the history at e1c2b3a4d5f6: branch A, 6f2e9b7c1a4d then
    7b5c9d2e4f11, on demonstracoes_financeiras, branch B, 1c2d3e4f5a6b, on
    fca_dri. 8e9f0a1b2c3d merges them and does nothing itself. */
module ForkAndMerge {
  import opened Options
  import opened Database
  import opened NaturalKeys
  import opened KeyHistory
  import opened ColumnKeys
  import opened Confluence

  /** first adds the column to a key, second widens that key again, other widens a
      key of another table. */
  datatype Fork = Fork(first: Widening, column: string, spec: Column, second: Widening, other: Widening) {
    function UpA(): seq<Op> {
      AddToKey(first, column, spec) + Rekey(second.New())
    }

    function UpB(): seq<Op> {
      Rekey(other.New())
    }

    function DownA(): seq<Op> {
      Rekey(second.Old()) + RemoveFromKey(first, column)
    }

    function DownB(): seq<Op> {
      Rekey(other.Old())
    }

    ghost predicate Proper() {
      && Adds(first, column) && FitsColumn(spec.default, spec)
      && first.New() == second.Old() && second.Proper() && other.Proper()
      && first.table != other.table
    }

    /** The database before the fork. */
    ghost predicate At(db: Db) {
      && Valid(db)
      && WithoutKeyColumn(db, first, column)
      && (forall c :: c in second.wide ==> c == column || c in db.tables[first.table].columns)
      && Stored(db, other.Old()) && HasColumns(db, other.table, other.wide)
    }
  }

  /** Branch A alone. */
  lemma BranchA(k: Fork, db: Db) returns (a: Db)
    requires k.Proper() && k.At(db)
    ensures Run(Some(db), k.UpA()) == Some(a) && Valid(a)
    ensures Run(Some(a), k.DownA()) == Some(db)
    ensures Stored(a, k.second.New()) && Stored(a, k.other.Old()) && HasColumns(a, k.other.table, k.other.wide)
  {
    AddToKeySucceeds(db, k.first, k.column, k.spec);
    var added := WithColumn(db, k.first.table, k.column, k.spec);
    var a1 := Rekeyed(added, [k.first.New()]);
    RekeyedElsewhere(added, [k.first.New()], k.other.name);
    var key := RekeyedAt(added, [k.first.New()], k.first.name);
    WidenAndBack(a1, k.second);
    RunAppend(Some(db), AddToKey(k.first, k.column, k.spec), Rekey(k.second.New()));
    a := Rekeyed(a1, [k.second.New()]);
    RekeyedElsewhere(a1, [k.second.New()], k.other.name);
    var key2 := RekeyedAt(a1, [k.second.New()], k.second.name);
    RunAppend(Some(a), Rekey(k.second.Old()), RemoveFromKey(k.first, k.column));
  }

  /** Branch A, then branch B; and back, in the opposite order. */
  lemma BothBranches(k: Fork, db: Db) returns (up: Db)
    requires k.Proper() && k.At(db)
    ensures Run(Some(db), k.UpA() + k.UpB()) == Some(up) && Valid(up)
    ensures Run(Some(up), k.DownB() + k.DownA()) == Some(db)
    ensures Stored(up, k.second.New()) && Stored(up, k.other.New())
  {
    var a := BranchA(k, db);
    WidenAndBack(a, k.other);
    up := Rekeyed(a, [k.other.New()]);
    RunAppend(Some(db), k.UpA(), k.UpB());
    RunAppend(Some(up), k.DownB(), k.DownA());
    RekeyedElsewhere(a, [k.other.New()], k.second.name);
    var key := RekeyedAt(a, [k.other.New()], k.other.name);
  }

  lemma ForkIsLocal(k: Fork, db: Db)
    requires k.Proper() && Valid(db)
    requires k.first.name in db.indexes && db.indexes[k.first.name].table == k.first.table
    requires k.other.name in db.indexes && db.indexes[k.other.name].table == k.other.table
    ensures AllLocal(k.UpA(), Family(db, k.first.table)) && AllLocal(k.DownA(), Family(db, k.first.table))
    ensures AllLocal(k.UpB(), Family(db, k.other.table)) && AllLocal(k.DownB(), Family(db, k.other.table))
    ensures Closed(db, Family(db, k.first.table)) && Closed(db, Family(db, k.other.table))
    ensures Family(db, k.first.table) !! Family(db, k.other.table)
  {
  }

  /** Whatever the order in which the operations of the two branches are
      interleaved, the upgrade succeeds with one and the same valid database, and
      the downgrade, interleaved in any order too, restores the database. */
  lemma ForkIsConfluent(k: Fork, db: Db, xs: seq<Op>, zs: seq<Op>) returns (up: Db)
    requires k.Proper() && k.At(db)
    requires IsShuffle(xs, k.UpA(), k.UpB()) && IsShuffle(zs, k.DownA(), k.DownB())
    ensures Run(Some(db), k.UpA() + k.UpB()) == Some(up) && Valid(up)
    ensures Run(Some(db), xs) == Some(up) && Run(Some(up), zs) == Some(db)
  {
    up := BothBranches(k, db);
    ForkIsLocal(k, db);
    ConcatIsShuffle(k.UpA(), k.UpB());
    ShufflesAgree(db, xs, k.UpA() + k.UpB(), k.UpA(), k.UpB(), Family(db, k.first.table), Family(db, k.other.table));
    ForkIsLocal(k, up);
    ConcatIsShuffle(k.DownB(), k.DownA());
    ShuffleIsSymmetric(k.DownB() + k.DownA(), k.DownB(), k.DownA());
    ShufflesAgree(up, zs, k.DownB() + k.DownA(), k.DownA(), k.DownB(), Family(up, k.first.table), Family(up, k.other.table));
  }

  const FORK_E1C2 := Fork(DEMONSTRACOES_FINANCEIRAS_6F2E, "coluna_df", COLUNA_DF, DEMONSTRACOES_FINANCEIRAS_7B5C, FCA_DRI_1C2D)

  lemma ForkE1c2IsProper()
    ensures FORK_E1C2.Proper()
  {
  }

  /** The operations of the branches are those of the migrations. */
  lemma BranchesAreTheMigrations(state: Option<Db>)
    ensures Run(state, FORK_E1C2.UpA()) == Run(Run(state, Up6f2e9b7c1a4d()), Rekeys(Ups(REVISION_7B5C)))
    ensures Run(state, FORK_E1C2.UpB()) == Run(state, Rekeys(Ups(REVISION_1C2D)))
    ensures Run(state, FORK_E1C2.DownA()) == Run(Run(state, Rekeys(Downs(REVISION_7B5C))), Down6f2e9b7c1a4d())
    ensures Run(state, FORK_E1C2.DownB()) == Run(state, Rekeys(Downs(REVISION_1C2D)))
  {
    var k := FORK_E1C2;
    RekeysOfOne(k.second.New());
    RekeysOfOne(k.second.Old());
    RekeysOfOne(k.other.New());
    RekeysOfOne(k.other.Old());
    assert Ups(REVISION_7B5C) == [k.second.New()] && Downs(REVISION_7B5C) == [k.second.Old()];
    assert Ups(REVISION_1C2D) == [k.other.New()] && Downs(REVISION_1C2D) == [k.other.Old()];
    RunAppend(state, Up6f2e9b7c1a4d(), Rekey(k.second.New()));
    RunAppend(state, Rekey(k.second.Old()), Down6f2e9b7c1a4d());
  }

  /** The merge is sound: every linearisation of the two branches, up or down, has
      the same outcome. */
  lemma MergeIsSound(db: Db, xs: seq<Op>, zs: seq<Op>) returns (up: Db)
    requires FORK_E1C2.At(db)
    requires IsShuffle(xs, FORK_E1C2.UpA(), FORK_E1C2.UpB()) && IsShuffle(zs, FORK_E1C2.DownA(), FORK_E1C2.DownB())
    ensures Run(Run(Run(Some(db), Up6f2e9b7c1a4d()), Rekeys(Ups(REVISION_7B5C))), Rekeys(Ups(REVISION_1C2D))) == Some(up)
    ensures Valid(up) && Run(Some(db), xs) == Some(up) && Run(Some(up), zs) == Some(db)
  {
    ForkE1c2IsProper();
    up := ForkIsConfluent(FORK_E1C2, db, xs, zs);
    RunAppend(Some(db), FORK_E1C2.UpA(), FORK_E1C2.UpB());
    BranchesAreTheMigrations(Some(db));
    BranchesAreTheMigrations(Run(Some(db), FORK_E1C2.UpA()));
  }
}
