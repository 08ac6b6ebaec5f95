/** Replacing the columns of unique constraints: 6e7f8a9b0c1d, cfcc31a7815b,
    e768d8885a52, 7b5c9d2e4f11, 1c2d3e4f5a6b and their downgrades. */
module NaturalKeys {
  import opened Options
  import opened Database

  /** One constraint and the columns it is to have. */
  datatype Key = Key(table: string, name: string, cols: seq<string>)

  /** drop_constraint followed by create_unique_constraint. */
  function Rekey(k: Key): seq<Op> {
    [DropConstraint(k.table, k.name), CreateUnique(k.table, k.name, k.cols)]
  }

  function Rekeys(ks: seq<Key>): seq<Op> {
    if ks == [] then [] else Rekey(ks[0]) + Rekeys(ks[1..])
  }

  /** The database with the constraints replaced, whether or not its rows allow it. */
  function Rekeyed(db: Db, ks: seq<Key>): Db
    decreases |ks|
  {
    if ks == [] then db
    else Rekeyed(db.(indexes := db.indexes[ks[0].name := Index(ks[0].table, ks[0].cols, true)]), ks[1..])
  }

  /** The constraint exists on its table, and the table has the columns. */
  predicate Present(db: Db, k: Key) {
    && k.name in db.indexes && db.indexes[k.name].table == k.table && db.indexes[k.name].unique
    && HasColumns(db, k.table, k.cols)
  }

  predicate Holds(db: Db, k: Key) {
    k.table in db.tables && UniqueOver(db.tables[k.table].rows, k.cols)
  }

  predicate AllPresent(db: Db, ks: seq<Key>) {
    forall k :: k in ks ==> Present(db, k)
  }

  /** The old columns of the constraint are among the new ones. */
  predicate Widens(db: Db, k: Key) {
    k.name in db.indexes && forall c :: c in db.indexes[k.name].cols ==> c in k.cols
  }

  /** A key holds exactly when no two rows have the same values, none of them NULL, in
      all its columns. */
  lemma UniqueExactly(rows: seq<Row>, cols: seq<string>)
    ensures UniqueOver(rows, cols) <==> forall i, j :: 0 <= i < j < |rows| ==> !SameValues(rows[i], rows[j], cols)
  {
    forall r: Row, q: Row
      ensures AgreeOn(r, q, cols) <==> SameValues(r, q, cols)
    {
      if SameValues(r, q, cols) {
        forall c | c in cols
          ensures c in r && c in q && r[c] == q[c] && r[c] != Null
        {
          var k :| 0 <= k < |cols| && cols[k] == c;
        }
      }
    }
  }

  predicate SameValues(r: Row, q: Row, cols: seq<string>) {
    forall k :: 0 <= k < |cols| ==> cols[k] in r && cols[k] in q && r[cols[k]] != Null && r[cols[k]] == q[cols[k]]
  }

  /** NULLs are distinct, so agreeing on more columns is rarer. */
  lemma WiderKeyHolds(rows: seq<Row>, narrow: seq<string>, wider: seq<string>)
    requires UniqueOver(rows, narrow) && forall c :: c in narrow ==> c in wider
    ensures UniqueOver(rows, wider)
  {
  }

  predicate NamesApart(db: Db) {
    forall n :: n in db.indexes ==> n !in db.tables
  }

  lemma RekeyOne(db: Db, k: Key)
    requires NamesApart(db) && Present(db, k)
    ensures Run(Some(db), Rekey(k)) ==
      if Holds(db, k) then Some(db.(indexes := db.indexes[k.name := Index(k.table, k.cols, true)])) else None
  {
    var dropped := db.(indexes := db.indexes - {k.name});
    var create := CreateUnique(k.table, k.name, k.cols);
    assert Rekey(k) == [DropConstraint(k.table, k.name)] + [create];
    RunCons(Some(db), DropConstraint(k.table, k.name), [create]);
    RunCons(Some(dropped), create, []);
    assert (db.indexes - {k.name})[k.name := Index(k.table, k.cols, true)] == db.indexes[k.name := Index(k.table, k.cols, true)];
  }

  /** A run of replacements succeeds exactly when the rows meet every new key, and
      then it has replaced the constraints and touched nothing else. */
  lemma {:induction false} RekeysRun(db: Db, ks: seq<Key>)
    requires NamesApart(db) && AllPresent(db, ks)
    ensures Run(Some(db), Rekeys(ks)) ==
      if forall k :: k in ks ==> Holds(db, k) then Some(Rekeyed(db, ks)) else None
    decreases |ks|
  {
    if ks != [] {
      var k, rest := ks[0], ks[1..];
      var db' := db.(indexes := db.indexes[k.name := Index(k.table, k.cols, true)]);
      assert ks == [k] + rest && k in ks;
      RekeyOne(db, k);
      RunAppend(Some(db), Rekey(k), Rekeys(rest));
      if Holds(db, k) {
        StillPresent(db, k, rest);
        RekeysRun(db', rest);
      } else {
        RunOfFailed(Rekeys(rest));
      }
    }
  }

  lemma StillPresent(db: Db, k: Key, rest: seq<Key>)
    requires NamesApart(db) && AllPresent(db, [k] + rest)
    ensures var db' := db.(indexes := db.indexes[k.name := Index(k.table, k.cols, true)]);
      && NamesApart(db') && AllPresent(db', rest)
      && forall q :: q in rest ==> (Holds(db', q) <==> Holds(db, q))
  {
    assert k in [k] + rest;
    forall q | q in rest
      ensures Present(db, q)
    {
      assert q in [k] + rest;
    }
  }

  ghost function Names(ks: seq<Key>): set<string> {
    set k | k in ks :: k.name
  }

  /** What the replacement leaves alone: the tables and every other index. */
  lemma {:induction false} RekeyedElsewhere(db: Db, ks: seq<Key>, n: string)
    ensures Rekeyed(db, ks).tables == db.tables
    ensures n !in Names(ks) ==>
      (n in Rekeyed(db, ks).indexes <==> n in db.indexes) &&
      (n in db.indexes ==> Rekeyed(db, ks).indexes[n] == db.indexes[n])
    decreases |ks|
  {
    if ks != [] {
      assert ks == [ks[0]] + ks[1..];
      RekeyedElsewhere(db.(indexes := db.indexes[ks[0].name := Index(ks[0].table, ks[0].cols, true)]), ks[1..], n);
      assert n !in Names(ks) ==> n !in Names(ks[1..]) && n != ks[0].name;
    }
  }

  /** Under a given name it leaves columns that were given for it. */
  lemma {:induction false} RekeyedAt(db: Db, ks: seq<Key>, n: string) returns (k: Key)
    requires n in Names(ks)
    ensures k in ks && k.name == n
    ensures n in Rekeyed(db, ks).indexes && Rekeyed(db, ks).indexes[n] == Index(k.table, k.cols, true)
    decreases |ks|
  {
    var rest := ks[1..];
    assert ks == [ks[0]] + rest;
    var db' := db.(indexes := db.indexes[ks[0].name := Index(ks[0].table, ks[0].cols, true)]);
    if n in Names(rest) {
      k := RekeyedAt(db', rest, n);
    } else {
      RekeyedElsewhere(db', rest, n);
      k := ks[0];
    }
  }

  lemma RekeyedIsValid(db: Db, ks: seq<Key>)
    requires Valid(db) && AllPresent(db, ks) && forall k :: k in ks ==> Holds(db, k)
    ensures Valid(Rekeyed(db, ks))
  {
    var db' := Rekeyed(db, ks);
    RekeyedElsewhere(db, ks, "");
    forall n | n in db'.indexes
      ensures n !in db.tables && IndexFits(db', db'.indexes[n])
    {
      if n in Names(ks) {
        var k := RekeyedAt(db, ks, n);
        assert Present(db, k) && Holds(db, k);
      } else {
        RekeyedElsewhere(db, ks, n);
        assert IndexFits(db, db.indexes[n]);
      }
    }
  }

  /** No widening can be refused, whatever the rows: data valid under the old keys
      is valid under the new ones. */
  lemma WideningSucceeds(db: Db, ks: seq<Key>)
    requires Valid(db) && AllPresent(db, ks) && forall k :: k in ks ==> Widens(db, k)
    ensures Run(Some(db), Rekeys(ks)) == Some(Rekeyed(db, ks))
    ensures Valid(Rekeyed(db, ks)) && Rekeyed(db, ks).tables == db.tables
  {
    forall k | k in ks
      ensures Holds(db, k)
    {
      assert Present(db, k) && Widens(db, k) && IndexFits(db, db.indexes[k.name]);
      WiderKeyHolds(db.tables[k.table].rows, db.indexes[k.name].cols, k.cols);
    }
    RekeysRun(db, ks);
    RekeyedIsValid(db, ks);
    RekeyedElsewhere(db, ks, "");
  }

  /** Narrowing is refused exactly when two rows of some table agree, without
      NULLs, on the narrow key. */
  lemma NarrowingSucceedsExactly(db: Db, ks: seq<Key>)
    requires Valid(db) && AllPresent(db, ks)
    ensures Run(Some(db), Rekeys(ks)).None? <==>
      exists k, i, j {:trigger k in ks, db.tables[k.table].rows[i], db.tables[k.table].rows[j]} ::
        k in ks && k.table in db.tables && 0 <= i < j < |db.tables[k.table].rows|
        && AgreeOn(db.tables[k.table].rows[i], db.tables[k.table].rows[j], k.cols)
  {
    RekeysRun(db, ks);
    if k :| k in ks && !Holds(db, k) {
      assert Present(db, k);
      var i, j :| 0 <= i < j < |db.tables[k.table].rows| && AgreeOn(db.tables[k.table].rows[i], db.tables[k.table].rows[j], k.cols);
    }
  }

  predicate Stored(db: Db, k: Key) {
    k.name in db.indexes && db.indexes[k.name] == Index(k.table, k.cols, true)
  }

  lemma OldKeyStillFits(db: Db, ks: seq<Key>, o: Key)
    requires Valid(db) && AllPresent(db, ks)
    requires o.name in Names(ks) && Stored(db, o)
    ensures Present(Rekeyed(db, ks), o) && Holds(Rekeyed(db, ks), o)
  {
    RekeyedElsewhere(db, ks, o.name);
    assert IndexFits(db, db.indexes[o.name]);
    var k := RekeyedAt(db, ks, o.name);
    assert Present(db, k);
  }

  lemma OldEntryIsBack(db: Db, ks: seq<Key>, olds: seq<Key>, n: string)
    requires Names(ks) == Names(olds)
    requires forall o :: o in olds ==> Stored(db, o)
    ensures var down := Rekeyed(Rekeyed(db, ks), olds);
      (n in down.indexes <==> n in db.indexes) && (n in db.indexes ==> down.indexes[n] == db.indexes[n])
  {
    if n in Names(ks) {
      var o := RekeyedAt(Rekeyed(db, ks), olds, n);
      assert Stored(db, o);
    } else {
      RekeyedElsewhere(db, ks, n);
      RekeyedElsewhere(Rekeyed(db, ks), olds, n);
    }
  }

  lemma OldEntriesAreBack(db: Db, ks: seq<Key>, olds: seq<Key>)
    requires Names(ks) == Names(olds)
    requires forall o :: o in olds ==> Stored(db, o)
    ensures Rekeyed(Rekeyed(db, ks), olds) == db
  {
    var down := Rekeyed(Rekeyed(db, ks), olds);
    forall n
      ensures n in down.indexes <==> n in db.indexes
      ensures n in db.indexes ==> down.indexes[n] == db.indexes[n]
    {
      OldEntryIsBack(db, ks, olds, n);
    }
    RekeyedElsewhere(db, ks, "");
    RekeyedElsewhere(Rekeyed(db, ks), olds, "");
    assert down.indexes == db.indexes;
  }

  /** Upgrading and downgrading again restores the database. */
  lemma WideningIsUndone(db: Db, ks: seq<Key>, olds: seq<Key>)
    requires Valid(db) && AllPresent(db, ks) && forall k :: k in ks ==> Widens(db, k)
    requires Names(ks) == Names(olds) && forall o :: o in olds ==> Stored(db, o)
    ensures Run(Run(Some(db), Rekeys(ks)), Rekeys(olds)) == Some(db)
  {
    WideningSucceeds(db, ks);
    var up := Rekeyed(db, ks);
    forall o | o in olds
      ensures Present(up, o) && Holds(up, o)
    {
      assert o.name in Names(olds);
      OldKeyStillFits(db, ks, o);
    }
    RekeysRun(up, olds);
    OldEntriesAreBack(db, ks, olds);
  }
}
