/** 3b4c5d6e7f8a: numeric columns widened from 30 to 38 digits in one loop and
    narrowed again in the reversed loop, at a scale of 10. */
module NumericWidening {
  import opened Options
  import opened Database
  import opened Integrity

  datatype NumericColumn = NumericColumn(table: string, column: string)

  const FRE_NUMERIC_COLUMNS := [
    NumericColumn("fre_acoes_entregues", "preco_medio_ponderado_aquisicao"),
    NumericColumn("fre_acoes_entregues", "preco_medio_ponderado_mercado"),
    NumericColumn("fre_acoes_entregues", "valor_diferenca_aquisicao_mercado"),
    NumericColumn("fre_administradores_membros_conselho_fiscal", "percentual_participacao_reunioes"),
    NumericColumn("fre_auditores", "remuneracao_auditor"),
    NumericColumn("fre_capital_social", "valor_capital"),
    NumericColumn("fre_capital_social_aumento_classes_acoes", "quantidade_acoes"),
    NumericColumn("fre_capital_social_aumentos", "valor_aumento"),
    NumericColumn("fre_capital_social_aumentos", "quantidade_acoes_ordinarias"),
    NumericColumn("fre_capital_social_aumentos", "quantidade_acoes_preferenciais"),
    NumericColumn("fre_capital_social_aumentos", "quantidade_total_acoes"),
    NumericColumn("fre_capital_social_desdobramento_classes_acoes", "quantidade_acoes"),
    NumericColumn("fre_capital_social_desdobramentos", "proporcao_acoes_novas"),
    NumericColumn("fre_capital_social_desdobramentos", "proporcao_acoes_antigas"),
    NumericColumn("fre_capital_social_desdobramentos", "quantidade_acoes_ordinarias"),
    NumericColumn("fre_capital_social_desdobramentos", "quantidade_acoes_preferenciais"),
    NumericColumn("fre_capital_social_desdobramentos", "quantidade_total_acoes"),
    NumericColumn("fre_capital_social_reducao_classes_acoes", "quantidade_acoes"),
    NumericColumn("fre_capital_social_reducoes", "valor_reducao"),
    NumericColumn("fre_capital_social_reducoes", "quantidade_acoes_ordinarias"),
    NumericColumn("fre_capital_social_reducoes", "quantidade_acoes_preferenciais"),
    NumericColumn("fre_capital_social_reducoes", "quantidade_total_acoes"),
    NumericColumn("fre_membros_comites", "percentual_participacao_reunioes"),
    NumericColumn("fre_participacoes_sociedades", "valor_mercado"),
    NumericColumn("fre_participacoes_sociedades", "valor_contabil"),
    NumericColumn("fre_plano_recompra_classes_acoes", "quantidade_acoes_adquiridas"),
    NumericColumn("fre_planos_recompra", "quantidade_total_ordinarias_adquiridas"),
    NumericColumn("fre_planos_recompra", "quantidade_total_preferenciais_adquiridas"),
    NumericColumn("fre_remuneracoes_acoes", "preco_medio_ponderado_opcoes_em_aberto"),
    NumericColumn("fre_remuneracoes_acoes", "preco_medio_ponderado_opcoes_exercidas"),
    NumericColumn("fre_remuneracoes_acoes", "preco_medio_ponderado_opcoes_perdidas"),
    NumericColumn("fre_remuneracoes_maximas_minimas_medias", "valor_maior_remuneracao"),
    NumericColumn("fre_remuneracoes_maximas_minimas_medias", "valor_medio_remuneracao"),
    NumericColumn("fre_remuneracoes_maximas_minimas_medias", "valor_menor_remuneracao"),
    NumericColumn("fre_remuneracoes_totais_orgaos", "total_remuneracao"),
    NumericColumn("fre_remuneracoes_totais_orgaos", "total_remuneracao_orgao"),
    NumericColumn("fre_remuneracoes_totais_orgaos", "salario"),
    NumericColumn("fre_remuneracoes_totais_orgaos", "beneficios_diretos_indiretos"),
    NumericColumn("fre_remuneracoes_totais_orgaos", "participacoes_comites"),
    NumericColumn("fre_remuneracoes_totais_orgaos", "outros_valores_fixos"),
    NumericColumn("fre_remuneracoes_totais_orgaos", "bonus"),
    NumericColumn("fre_remuneracoes_totais_orgaos", "participacao_resultados"),
    NumericColumn("fre_remuneracoes_totais_orgaos", "participacao_reunioes"),
    NumericColumn("fre_remuneracoes_totais_orgaos", "outros_valores_variaveis"),
    NumericColumn("fre_remuneracoes_totais_orgaos", "comissoes"),
    NumericColumn("fre_remuneracoes_totais_orgaos", "pos_emprego"),
    NumericColumn("fre_remuneracoes_totais_orgaos", "cessacao_cargo"),
    NumericColumn("fre_remuneracoes_totais_orgaos", "baseada_acoes"),
    NumericColumn("fre_remuneracoes_variaveis", "bonus_valor_minimo"),
    NumericColumn("fre_remuneracoes_variaveis", "bonus_valor_maximo"),
    NumericColumn("fre_remuneracoes_variaveis", "bonus_valor_metas_atingidas"),
    NumericColumn("fre_remuneracoes_variaveis", "bonus_valor_efetivo"),
    NumericColumn("fre_remuneracoes_variaveis", "participacao_valor_minimo"),
    NumericColumn("fre_remuneracoes_variaveis", "participacao_valor_maximo"),
    NumericColumn("fre_remuneracoes_variaveis", "participacao_valor_metas_atingidas"),
    NumericColumn("fre_remuneracoes_variaveis", "participacao_valor_efetivo"),
    NumericColumn("fre_titulares_valores_mobiliarios", "quantidade_valores_mobiliarios"),
    NumericColumn("fre_titulares_valores_mobiliarios", "percentual_classe"),
    NumericColumn("fre_transacoes_partes_relacionadas", "montante_envolvido"),
    NumericColumn("fre_transacoes_partes_relacionadas", "saldo_existente"),
    NumericColumn("fre_transacoes_partes_relacionadas", "montante_interesse_parte_relacionada"),
    NumericColumn("fre_transacoes_partes_relacionadas", "taxa_juros"),
    NumericColumn("fre_valores_mobiliarios_tesouraria_movimentacoes", "quantidade_movimentada"),
    NumericColumn("fre_valores_mobiliarios_tesouraria_ultimos_exercicios", "quantidade_acoes_tesouraria"),
    NumericColumn("fre_volumes_valores_mobiliarios", "volume_negociacao")]

  // ----- Ranges -----

  lemma {:induction false} Pow10Add(m: nat, n: nat)
    ensures Pow10(m + n) == Pow10(m) * Pow10(n)
  {
    if m > 0 {
      Pow10Add(m - 1, n);
    }
  }

  lemma {:induction false} Pow10Grows(m: nat, n: nat)
    requires m <= n
    ensures Pow10(m) <= Pow10(n)
  {
    if m < n {
      Pow10Grows(m, n - 1);
    }
  }

  lemma UnitsOfRounded(v: real, scale: nat) returns (p: int, u: int)
    requires RoundTo(v, scale) == v
    ensures p == Pow10(scale) > 0 && u == Units(v, scale) && v * (p as real) == u as real
  {
    Pow10Positive(scale);
    p, u := Pow10(scale), Units(v, scale);
    assert (u as real / p as real) * (p as real) == u as real;
  }

  /** A value with `scale` decimals fits `precision` digits exactly when its
      magnitude is below 10^(precision - scale). */
  lemma RangeIsMagnitude(v: real, precision: nat, scale: nat)
    requires RoundTo(v, scale) == v && scale <= precision
    ensures InRange(v, precision, scale) <==> -(Pow10(precision - scale) as real) < v < Pow10(precision - scale) as real
  {
    var p, u := UnitsOfRounded(v, scale);
    Pow10Add(precision - scale, scale);
    Magnitude(v, Pow10(precision - scale), p, u, Pow10(precision));
  }

  lemma Magnitude(v: real, b: int, p: int, u: int, bound: int)
    requires p > 0 && v * (p as real) == u as real && bound == b * p
    ensures 0 - bound < u < bound <==> 0.0 - b as real < v < b as real
  {
  }

  // ----- One column -----

  /** The column is numeric at the scale. */
  predicate AtScale(db: Db, c: NumericColumn, scale: nat) {
    && HasColumn(db, c.table, c.column)
    && db.tables[c.table].columns[c.column].kind.Numeric?
    && db.tables[c.table].columns[c.column].kind.scale == scale
  }

  function Retyped(db: Db, c: NumericColumn, precision: nat, scale: nat): Db
    requires HasColumn(db, c.table, c.column)
  {
    SetColumn(db, c.table, c.column, db.tables[c.table].columns[c.column].(kind := Numeric(precision, scale)))
  }

  predicate Fits(db: Db, c: NumericColumn, precision: nat, scale: nat) {
    c.table in db.tables && NumericFits(db.tables[c.table].rows, c.column, precision, scale)
  }

  lemma RoundingKeepsRows(db: Db, c: NumericColumn, scale: nat)
    requires Valid(db) && AtScale(db, c, scale)
    ensures RoundColumn(db.tables[c.table].rows, c.column, scale) == db.tables[c.table].rows
  {
    var t := db.tables[c.table];
    forall i | 0 <= i < |t.rows|
      ensures RoundColumn(t.rows, c.column, scale)[i] == t.rows[i]
    {
      assert RowFits(t.rows[i], t.columns);
      assert FitsColumn(t.rows[i][c.column], t.columns[c.column]);
    }
  }

  /** Changing the precision alone fails exactly when a value is out of range, and
      changes no value. */
  lemma PrecisionChangesExactly(db: Db, c: NumericColumn, precision: nat, scale: nat)
    requires Valid(db) && AtScale(db, c, scale)
    ensures Apply(SetNumeric(c.table, c.column, precision, scale), db)
         == if Fits(db, c, precision, scale) then Some(Retyped(db, c, precision, scale)) else None
  {
    RoundingKeepsRows(db, c, scale);
    var t := db.tables[c.table];
    forall n | n in db.indexes && db.indexes[n].table == c.table && db.indexes[n].unique
      ensures UniqueOver(t.rows, db.indexes[n].cols)
    {
      assert IndexFits(db, db.indexes[n]);
    }
    assert KeysHold(db, c.table, t.rows);
    assert t.(rows := t.rows) == t && db.tables[c.table := t] == db.tables;
    assert SetRows(db, c.table, t.rows) == db;
  }

  // ----- A list of columns -----

  function Alters(cs: seq<NumericColumn>, precision: nat, scale: nat): seq<Op> {
    if cs == [] then [] else [SetNumeric(cs[0].table, cs[0].column, precision, scale)] + Alters(cs[1..], precision, scale)
  }

  predicate AllAtScale(db: Db, cs: seq<NumericColumn>, scale: nat) {
    forall c :: c in cs ==> AtScale(db, c, scale)
  }

  predicate AllFit(db: Db, cs: seq<NumericColumn>, precision: nat, scale: nat) {
    forall c :: c in cs ==> Fits(db, c, precision, scale)
  }

  /** Only the precision of the listed columns differs. */
  ghost predicate RetypedAll(db: Db, db': Db, cs: seq<NumericColumn>, precision: nat, scale: nat) {
    && db'.indexes == db.indexes && db'.tables.Keys == db.tables.Keys
    && forall t :: t in db.tables ==> RetypedTable(t, db.tables[t], db'.tables[t], cs, precision, scale)
  }

  ghost predicate RetypedTable(name: string, t: Table, t': Table, cs: seq<NumericColumn>, precision: nat, scale: nat) {
    && t'.rows == t.rows && t'.columns.Keys == t.columns.Keys
    && forall c :: c in t.columns ==>
         t'.columns[c] == if NumericColumn(name, c) in cs then t.columns[c].(kind := Numeric(precision, scale)) else t.columns[c]
  }

  lemma RetypedStep(db: Db, c: NumericColumn, rest: seq<NumericColumn>, db': Db, precision: nat, scale: nat)
    requires HasColumn(db, c.table, c.column) && RetypedAll(Retyped(db, c, precision, scale), db', rest, precision, scale)
    ensures RetypedAll(db, db', [c] + rest, precision, scale)
  {
    var db1, cs := Retyped(db, c, precision, scale), [c] + rest;
    forall t | t in db.tables
      ensures RetypedTable(t, db.tables[t], db'.tables[t], cs, precision, scale)
    {
      assert RetypedTable(t, db1.tables[t], db'.tables[t], rest, precision, scale);
      forall d | d in db.tables[t].columns
        ensures d in db'.tables[t].columns
        ensures db'.tables[t].columns[d] ==
          if NumericColumn(t, d) in cs then db.tables[t].columns[d].(kind := Numeric(precision, scale)) else db.tables[t].columns[d]
      {
        assert NumericColumn(t, d) in cs <==> NumericColumn(t, d) == c || NumericColumn(t, d) in rest;
      }
    }
  }

  /** The loop fails exactly when some value of some listed column is out of range. */
  lemma {:induction false} AltersRunExactly(db: Db, cs: seq<NumericColumn>, precision: nat, scale: nat) returns (db': Db)
    requires Valid(db) && AllAtScale(db, cs, scale)
    ensures Run(Some(db), Alters(cs, precision, scale)) == if AllFit(db, cs, precision, scale) then Some(db') else None
    ensures AllFit(db, cs, precision, scale) ==> Valid(db') && RetypedAll(db, db', cs, precision, scale)
    decreases |cs|
  {
    if cs == [] {
      return db;
    }
    var c, rest := cs[0], cs[1..];
    assert cs == [c] + rest && c in cs;
    var op := SetNumeric(c.table, c.column, precision, scale);
    RunCons(Some(db), op, Alters(rest, precision, scale));
    PrecisionChangesExactly(db, c, precision, scale);
    if Fits(db, c, precision, scale) {
      var db1 := Retyped(db, c, precision, scale);
      ApplyKeepsValid(op, db);
      forall d | d in rest
        ensures AtScale(db1, d, scale)
      {
        assert d in cs && AtScale(db, d, scale);
      }
      assert AllFit(db1, rest, precision, scale) <==> AllFit(db, rest, precision, scale);
      db' := AltersRunExactly(db1, rest, precision, scale);
      assert AllFit(db, cs, precision, scale) <==> AllFit(db, rest, precision, scale);
      if AllFit(db, cs, precision, scale) {
        RetypedStep(db, c, rest, db', precision, scale);
      }
    } else {
      db' := db;
      RunOfFailed(Alters(rest, precision, scale));
    }
  }

  const SCALE := 10
  const NARROW := 30
  const WIDE := 38

  /** Every listed column is numeric(precision, 10). */
  predicate AllAt(db: Db, cs: seq<NumericColumn>, precision: nat) {
    && AllAtScale(db, cs, SCALE)
    && forall c :: c in cs ==> AtScale(db, c, SCALE) && db.tables[c.table].columns[c.column].kind.precision == precision
  }

  lemma StoredValueFits(db: Db, c: NumericColumn, i: nat)
    requires Valid(db) && AtScale(db, c, SCALE) && i < |db.tables[c.table].rows|
    ensures var cell := db.tables[c.table].rows[i];
      c.column in cell && (cell[c.column].Num? ==>
        Representable(cell[c.column].value, db.tables[c.table].columns[c.column].kind.precision, SCALE))
  {
  }

  lemma WideIsEnough(db: Db, cs: seq<NumericColumn>)
    requires Valid(db) && AllAt(db, cs, NARROW)
    ensures AllFit(db, cs, WIDE, SCALE) && AllFit(db, cs, NARROW, SCALE)
  {
  }

  /** Widening cannot fail, and every stored value stays what it was. */
  lemma WideningSucceeds(db: Db, cs: seq<NumericColumn>) returns (up: Db)
    requires Valid(db) && AllAt(db, cs, NARROW)
    ensures Run(Some(db), Alters(cs, WIDE, SCALE)) == Some(up)
    ensures Valid(up) && RetypedAll(db, up, cs, WIDE, SCALE) && AllAt(up, cs, WIDE)
  {
    WideIsEnough(db, cs);
    up := AltersRunExactly(db, cs, WIDE, SCALE);
    forall c | c in cs
      ensures AtScale(up, c, SCALE) && up.tables[c.table].columns[c.column].kind.precision == WIDE
    {
      assert RetypedTable(c.table, db.tables[c.table], up.tables[c.table], cs, WIDE, SCALE);
    }
  }

  lemma RetypedBack(db: Db, up: Db, down: Db, cs: seq<NumericColumn>)
    requires AllAt(db, cs, NARROW)
    requires RetypedAll(db, up, cs, WIDE, SCALE) && RetypedAll(up, down, Reversed(cs), NARROW, SCALE)
    ensures down == db
  {
    forall t | t in db.tables
      ensures down.tables[t] == db.tables[t]
    {
      assert RetypedTable(t, db.tables[t], up.tables[t], cs, WIDE, SCALE);
      assert RetypedTable(t, up.tables[t], down.tables[t], Reversed(cs), NARROW, SCALE);
      forall d | d in db.tables[t].columns
        ensures down.tables[t].columns[d] == db.tables[t].columns[d]
      {
        assert NumericColumn(t, d) in cs ==> AtScale(db, NumericColumn(t, d), SCALE);
      }
      assert down.tables[t].columns == db.tables[t].columns;
    }
    assert down.tables == db.tables;
  }

  /** The reversed loop restores the database, whatever the list of columns. */
  lemma NarrowingUndoesWidening(db: Db, cs: seq<NumericColumn>)
    requires Valid(db) && AllAt(db, cs, NARROW)
    ensures Run(Run(Some(db), Alters(cs, WIDE, SCALE)), Alters(Reversed(cs), NARROW, SCALE)) == Some(db)
  {
    var up := WideningSucceeds(db, cs);
    WideIsEnough(db, cs);
    forall c | c in Reversed(cs)
      ensures Fits(up, c, NARROW, SCALE) && AtScale(up, c, SCALE)
    {
      assert c in cs && Fits(db, c, NARROW, SCALE);
      assert RetypedTable(c.table, db.tables[c.table], up.tables[c.table], cs, WIDE, SCALE);
    }
    var down := AltersRunExactly(up, Reversed(cs), NARROW, SCALE);
    RetypedBack(db, up, down, cs);
  }

  /** A value too large for numeric(30, 10). */
  predicate TooLarge(v: real) {
    v <= -(Pow10(20) as real) || Pow10(20) as real <= v
  }

  lemma TooLargeExactly(v: real)
    ensures TooLarge(v) <==> v <= -100000000000000000000.0 || 100000000000000000000.0 <= v
  {
    assert Pow10(5) == 100000;
    assert Pow10(10) == 100000 * Pow10(5);
    assert Pow10(15) == 100000 * Pow10(10);
    assert Pow10(20) == 100000 * Pow10(15);
  }

  ghost predicate HoldsTooLarge(db: Db, c: NumericColumn) {
    c.table in db.tables && exists i :: 0 <= i < |db.tables[c.table].rows| && LargeCell(db.tables[c.table].rows[i], c.column)
  }

  predicate LargeCell(r: Row, column: string) {
    column in r && r[column].Num? && TooLarge(r[column].value)
  }

  lemma LargeIsOutOfRange(db: Db, c: NumericColumn)
    requires Valid(db) && AtScale(db, c, SCALE)
    ensures HoldsTooLarge(db, c) <==> !Fits(db, c, NARROW, SCALE)
  {
    var rows: seq<Row> := db.tables[c.table].rows;
    forall i: nat | i < |rows| && c.column in rows[i] && rows[i][c.column].Num?
      ensures LargeCell(rows[i], c.column) <==> !InRange(rows[i][c.column].value, NARROW, SCALE)
    {
      StoredValueFits(db, c, i);
      RangeIsMagnitude(rows[i][c.column].value, NARROW, SCALE);
    }
  }

  /** Later, after further writes, narrowing fails exactly when some listed column
      holds a value of magnitude 10^20 or more. */
  lemma NarrowingFailsExactly(db: Db, cs: seq<NumericColumn>)
    requires Valid(db) && AllAt(db, cs, WIDE)
    ensures Run(Some(db), Alters(Reversed(cs), NARROW, SCALE)).None? <==> exists c :: c in cs && HoldsTooLarge(db, c)
  {
    var down := AltersRunExactly(db, Reversed(cs), NARROW, SCALE);
    forall c | c in cs
      ensures HoldsTooLarge(db, c) <==> !Fits(db, c, NARROW, SCALE)
    {
      LargeIsOutOfRange(db, c);
    }
  }

  // ----- The migration -----

  method Widen(op: Operations, columns: seq<NumericColumn>)
    modifies op
    ensures op.Outcome() == Run(old(op.Outcome()), Alters(columns, WIDE, SCALE))
  {
    ghost var start := op.Outcome();
    for i := 0 to |columns|
      invariant Run(op.Outcome(), Alters(columns[i..], WIDE, SCALE)) == Run(start, Alters(columns, WIDE, SCALE))
    {
      assert columns[i..][0] == columns[i] && columns[i..][1..] == columns[i + 1..];
      RunCons(op.Outcome(), SetNumeric(columns[i].table, columns[i].column, WIDE, SCALE), Alters(columns[i + 1..], WIDE, SCALE));
      op.Do(SetNumeric(columns[i].table, columns[i].column, WIDE, SCALE));
    }
  }

  method Narrow(op: Operations, columns: seq<NumericColumn>)
    modifies op
    ensures op.Outcome() == Run(old(op.Outcome()), Alters(Reversed(columns), NARROW, SCALE))
  {
    ghost var start := op.Outcome();
    ghost var back := Reversed(columns);
    assert back[0..] == back;
    for i := |columns| downto 0
      invariant Run(op.Outcome(), Alters(back[|columns| - i..], NARROW, SCALE)) == Run(start, Alters(back, NARROW, SCALE))
    {
      ghost var j := |columns| - 1 - i;
      assert back[j..][0] == columns[i] && back[j..][1..] == back[j + 1..];
      RunCons(op.Outcome(), SetNumeric(columns[i].table, columns[i].column, NARROW, SCALE), Alters(back[j + 1..], NARROW, SCALE));
      op.Do(SetNumeric(columns[i].table, columns[i].column, NARROW, SCALE));
    }
  }

  method Upgrade3b4c5d6e7f8a(op: Operations)
    modifies op
    ensures op.Outcome() == Run(old(op.Outcome()), Alters(FRE_NUMERIC_COLUMNS, 38, 10))
  {
    Widen(op, FRE_NUMERIC_COLUMNS);
  }

  method Downgrade3b4c5d6e7f8a(op: Operations)
    modifies op
    ensures op.Outcome() == Run(old(op.Outcome()), Alters(Reversed(FRE_NUMERIC_COLUMNS), 30, 10))
  {
    Narrow(op, FRE_NUMERIC_COLUMNS);
  }
}
