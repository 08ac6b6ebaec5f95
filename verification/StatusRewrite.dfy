/** The rewrite of pending_updates by 20260715_001, spelled out on rows: which texts
    the cast reads, which updates become unchanged, and when the statement fails. */
module StatusRewrite {
  import opened Options
  import opened Database
  import opened Rewrites
  import opened TableIndexes
  import opened DecimalText
  import opened PendingUpdates

  // ----- text::integer -----

  predicate IsBlank(c: char) {
    c in {' ', '\t', '\n', '\U{0b}', '\U{0c}', '\r'}
  }

  /** The integer a text stands for: blanks, a sign or none, digits, blanks, and the
      number fits 32 bits. */
  ghost predicate Integer32(text: string, n: int) {
    exists left, core, right, sign, digits :: Cut(text, left, core, right) && SignedDigits(core, sign, digits, n)
  }

  ghost predicate Cut(text: string, left: string, core: string, right: string) {
    text == left + core + right && All(left, IsBlank) && All(right, IsBlank)
  }

  ghost predicate SignedDigits(core: string, sign: string, digits: string, n: int) {
    && core == sign + digits && (sign == "" || sign == "+" || sign == "-") && digits != "" && AllDigits(digits)
    && n == (if sign == "-" then 0 - ValueOf(digits) else ValueOf(digits))
    && -2147483648 <= n <= 2147483647
  }

  lemma Blanks(c: char)
    ensures Blank(c) <==> IsBlank(c)
  {
  }

  lemma {:induction false} DigitsExactly(s: string, value: nat)
    ensures Digits(s, value).Some? <==> AllDigits(s)
    ensures AllDigits(s) ==> Digits(s, value) == Some(value * Power(|s|) + ValueOf(s))
    decreases |s|
  {
    if s != "" && '0' <= s[0] <= '9' {
      var d := (s[0] - '0') as nat;
      assert s == [s[0]] + s[1..];
      DigitsExactly(s[1..], value * 10 + d);
      if AllDigits(s[1..]) {
        ValueOfCons(s[0], s[1..]);
        Shifted(value, d, Power(|s[1..]|));
      }
    }
  }

  lemma {:induction false} SkipLeftIs(text: string) returns (left: string)
    ensures text == left + SkipLeft(text) && All(left, Blank)
  {
    if text != "" && Blank(text[0]) {
      var rest := SkipLeftIs(text[1..]);
      left := [text[0]] + rest;
      FirstApart(text, rest, SkipLeft(text));
    } else {
      left := "";
    }
  }

  lemma {:induction false} SkipRightIs(text: string) returns (right: string)
    ensures text == SkipRight(text) + right && All(right, Blank)
    decreases |text|
  {
    if text != "" && Blank(text[|text| - 1]) {
      var rest := SkipRightIs(text[..|text| - 1]);
      right := rest + [text[|text| - 1]];
      LastApart(text, SkipRight(text), rest);
    } else {
      right := "";
    }
  }

  lemma {:induction false} SkipLeftOf(left: string, core: string)
    requires All(left, Blank) && (core != "" ==> !Blank(core[0]))
    ensures SkipLeft(left + core) == core
  {
    if left == "" {
      assert left + core == core;
    } else {
      assert (left + core)[1..] == left[1..] + core;
      SkipLeftOf(left[1..], core);
    }
  }

  lemma {:induction false} SkipRightOf(core: string, right: string)
    requires All(right, Blank) && (core != "" ==> !Blank(core[|core| - 1]))
    ensures SkipRight(core + right) == core
    decreases |right|
  {
    if right == "" {
      assert core + right == core;
    } else {
      assert (core + right)[..|core + right| - 1] == core + right[..|right| - 1];
      SkipRightOf(core, right[..|right| - 1]);
    }
  }

  lemma SignThenDigits(sign: string, digits: string)
    requires (sign == "" || sign == "+" || sign == "-") && digits != "" && AllDigits(digits)
    ensures var core := sign + digits;
      && core != "" && !Blank(core[0]) && !Blank(core[|core| - 1])
      && if core[0] == '-' || core[0] == '+' then sign == [core[0]] && digits == core[1..] else sign == "" && digits == core
  {
    var core := sign + digits;
    assert core[|core| - 1] == digits[|digits| - 1];
    if sign == "" {
      assert core == digits;
    } else {
      assert core[0] == sign[0] && core[1..] == digits && sign == [sign[0]];
    }
  }

  lemma SignedCast(core: string, n: int) returns (sign: string, digits: string)
    requires CastSigned(core) == Some(n)
    ensures SignedDigits(core, sign, digits, n)
  {
    if core != "" && (core[0] == '-' || core[0] == '+') {
      sign, digits := [core[0]], core[1..];
      assert core == sign + digits;
    } else {
      sign, digits := "", core;
      assert core == sign + digits;
    }
    DigitsExactly(digits, 0);
  }

  lemma CastOfSigned(core: string, sign: string, digits: string, n: int)
    requires SignedDigits(core, sign, digits, n)
    ensures CastSigned(core) == Some(n)
  {
    SignThenDigits(sign, digits);
    DigitsExactly(digits, 0);
  }

  lemma CutIsSkipped(text: string, left: string, core: string, right: string)
    requires Cut(text, left, core, right) && core != "" && !Blank(core[0]) && !Blank(core[|core| - 1])
    ensures SkipRight(SkipLeft(text)) == core
  {
    forall c: char ensures Blank(c) <==> IsBlank(c) { Blanks(c); }
    assert left + core + right == left + (core + right);
    SkipLeftOf(left, core + right);
    SkipRightOf(core, right);
  }

  lemma SkippedIsCut(text: string) returns (left: string, right: string)
    ensures Cut(text, left, SkipRight(SkipLeft(text)), right)
  {
    forall c: char ensures Blank(c) <==> IsBlank(c) { Blanks(c); }
    left := SkipLeftIs(text);
    right := SkipRightIs(SkipLeft(text));
  }

  /** The cast gives n for exactly these texts. */
  lemma CastExactly(text: string, n: int)
    ensures CastInteger(text) == Some(n) <==> Integer32(text, n)
  {
    if CastInteger(text) == Some(n) {
      var left, right := SkippedIsCut(text);
      var sign, digits := SignedCast(SkipRight(SkipLeft(text)), n);
      assert Integer32(text, n);
    }
    if Integer32(text, n) {
      var left, core, right, sign, digits :| Cut(text, left, core, right) && SignedDigits(core, sign, digits, n);
      SignThenDigits(sign, digits);
      CutIsSkipped(text, left, core, right);
      CastOfSigned(core, sign, digits, n);
    }
  }

  // ----- The rows -----

  /** A ready update whose summary has a total. */
  predicate HasTotal(r: Row) {
    && "status" in r && r["status"] == Str("ready_for_ingestion")
    && "change_summary" in r && r["change_summary"].Document? && "total_changes" in r["change_summary"].fields
  }

  ghost predicate TotalIs(r: Row, n: int) {
    HasTotal(r) && Integer32(r["change_summary"].fields["total_changes"], n)
  }

  /** The cast raises on it. */
  ghost predicate BadTotal(r: Row) {
    HasTotal(r) && forall n :: !Integer32(r["change_summary"].fields["total_changes"], n)
  }

  lemma ConditionExactly(r: Row)
    ensures IsUnchanged(r).None? <==> BadTotal(r)
    ensures IsUnchanged(r) == Some(true) <==> TotalIs(r, 0)
  {
    if HasTotal(r) {
      var text := r["change_summary"].fields["total_changes"];
      forall n ensures CastInteger(text) == Some(n) <==> Integer32(text, n) { CastExactly(text, n); }
    }
  }

  /** What the upgrade makes of a row. */
  ghost predicate UpgradedRow(r: Row, r': Row) {
    r' == if TotalIs(r, 0) then r["status" := Str("content_unchanged")] else r
  }

  ghost predicate UpgradedRows(rows: seq<Row>, rows': seq<Row>) {
    |rows'| == |rows| && forall i :: 0 <= i < |rows| ==> UpgradedRow(rows[i], rows'[i])
  }

  /** On PostgreSQL the upgrade fails exactly when a ready update has a total that is
      no 32-bit integer; otherwise exactly the ready updates with a total of 0 become
      unchanged, and every other row stays as it is. */
  lemma UpgradeRewritesExactly(db: Db, list: seq<Named>)
    requires Before(db, list)
    ensures var r := Run(Some(db), Up(list, true));
      && "pending_updates" in db.tables
      && (r.None? <==> exists i :: 0 <= i < |db.tables["pending_updates"].rows| && BadTotal(db.tables["pending_updates"].rows[i]))
      && (r.Some? ==> "pending_updates" in r.value.tables && UpgradedRows(db.tables["pending_updates"].rows, r.value.tables["pending_updates"].rows))
  {
    var added := UpRuns(db, list, true);
    RaisesExactly(db.tables[PENDING].rows);
    UpRowsExactly(db.tables[PENDING].rows);
  }

  lemma RaisesExactly(rows: seq<Row>)
    ensures Raises(rows, IsUnchanged) <==> exists i :: 0 <= i < |rows| && BadTotal(rows[i])
  {
    forall i | 0 <= i < |rows|
      ensures IsUnchanged(rows[i]).None? <==> BadTotal(rows[i])
    {
      ConditionExactly(rows[i]);
    }
  }

  lemma UpRowsExactly(rows: seq<Row>)
    ensures UpgradedRows(rows, UpRows(rows))
  {
    forall i | 0 <= i < |rows|
      ensures UpgradedRow(rows[i], UpRows(rows)[i])
    {
      ConditionExactly(rows[i]);
    }
  }

  /** An empty table of acknowledged references is there with its unique key and its
      indexes, and so is every relation of before. */
  ghost predicate ReferencesMade(db: Db, after: Db, list: seq<Named>) {
    && "acknowledged_artifact_references" in after.tables && after.tables["acknowledged_artifact_references"].rows == []
    && "uq_acknowledged_artifact_reference_pending_resource" in after.indexes
    && after.indexes["uq_acknowledged_artifact_reference_pending_resource"] ==
         Index("acknowledged_artifact_references", ["pending_update_id", "resource_key"], true)
    && (forall e :: e in list ==> e.name in after.indexes && after.indexes[e.name] == Index("acknowledged_artifact_references", e.cols, false))
    && (forall n :: n in db.indexes ==> n in after.indexes && after.indexes[n] == db.indexes[n])
    && (forall t :: t in db.tables && t != "pending_updates" ==> t in after.tables && after.tables[t] == db.tables[t])
  }

  lemma AddedIsMade(db: Db, added: Db, list: seq<Named>)
    requires Before(db, list) && SchemaAdded(db, added, list)
    ensures ReferencesMade(db, added, list)
  {
  }

  lemma RowsLeaveItMade(db: Db, added: Db, list: seq<Named>, rows: seq<Row>)
    requires ReferencesMade(db, added, list) && PENDING in added.tables && PENDING != REFERENCES
    ensures ReferencesMade(db, SetRows(added, PENDING, rows), list)
  {
  }

  /** The upgrade adds the references and changes no other table. */
  lemma UpgradeCreates(db: Db, list: seq<Named>, postgresql: bool)
    requires Before(db, list) && Run(Some(db), Up(list, postgresql)).Some?
    ensures ReferencesMade(db, Run(Some(db), Up(list, postgresql)).value, list)
  {
    var added := UpRuns(db, list, postgresql);
    AddedIsMade(db, added, list);
    RowsLeaveItMade(db, added, list, UpRows(db.tables[PENDING].rows));
  }

  lemma IntTextIsInteger(n: int)
    requires -2147483648 <= n <= 2147483647
    ensures Integer32(Numbers.IntText(n), n)
  {
    var text, digits, sign := Numbers.IntText(n), Numbers.Decimal(if n < 0 then 0 - n else n), if n < 0 then "-" else "";
    DecimalDenotes(if n < 0 then 0 - n else n);
    assert text == sign + digits && text == "" + text + "";
    assert Cut(text, "", text, "") && SignedDigits(text, sign, digits, n);
  }

  /** A total written as the decimal text of a 32-bit number is read as that number. */
  lemma DecimalTotal(r: Row, n: int)
    requires HasTotal(r) && r["change_summary"].fields["total_changes"] == Numbers.IntText(n)
    requires -2147483648 <= n <= 2147483647
    ensures TotalIs(r, n) && (TotalIs(r, 0) <==> n == 0)
  {
    IntTextIsInteger(n);
    CastExactly(Numbers.IntText(n), n);
    CastExactly(Numbers.IntText(n), 0);
  }

  /** What the downgrade makes of a row. */
  predicate DowngradedRow(r: Row, r': Row) {
    r' == if "status" in r && (r["status"] == Str("content_unchanged") || r["status"] == Str("reference_updated"))
          then r["status" := Str("ready_for_ingestion")] else r
  }

  /** On PostgreSQL the downgrade makes exactly the updates with one of the new
      statuses ready again, whatever the rows have become. */
  lemma DowngradeRewritesExactly(db: Db, added: Db, list: seq<Named>, rows: seq<Row>)
    requires Before(db, list) && SchemaAdded(db, added, list) && PENDING in added.tables
    requires Valid(SetRows(added, PENDING, rows))
    ensures var r := Run(Some(SetRows(added, PENDING, rows)), Down(list, true));
      && r.Some? && "pending_updates" in r.value.tables && |r.value.tables["pending_updates"].rows| == |rows|
      && forall i :: 0 <= i < |rows| ==> DowngradedRow(rows[i], r.value.tables["pending_updates"].rows[i])
  {
    DownRuns(db, added, list, rows);
    forall i | 0 <= i < |rows|
      ensures DowngradedRow(rows[i], DownRows(rows)[i])
    {
      assert DownRows(rows)[i] == DownRow(rows[i]);
    }
  }
}
