/** Lists whose rows are bare columns, the one place where the dialects can answer apart. */
module ColumnLists {
  import opened Wrappers
  import opened Json
  import opened JsonTexts
  import opened Quoting
  import opened Sql
  import opened RowOrder
  import opened Render
  import opened RenderTheorems
  import opened DialectAgreement

  // ----- MySQL and ClickHouse skip NULL

  predicate HasColumn(column: nat, env: Env) { column < |env.columns| && env.columns[column].Some? }

  /** The values of a column that are not NULL. */
  function Present(column: nat, group: seq<Env>): seq<Json> {
    if group == [] then []
    else
      var rest := Present(column, group[1..]);
      if HasColumn(column, group[0]) then [group[0].columns[column].value] + rest
      else rest
  }

  lemma {:induction false} PresentIsAllIff(column: nat, group: seq<Env>)
    ensures |Present(column, group)| <= |group|
    ensures |Present(column, group)| == |group| <==> forall i | 0 <= i < |group| :: HasColumn(column, group[i])
    ensures |Present(column, group)| == |group| ==> Present(column, group) == RowMeanings(Leaf(column), group)
  {
    if group != [] {
      PresentIsAllIff(column, group[1..]);
    }
  }

  /** One serialized column, handed up and cast to text. */
  lemma ColumnText(d: Dialect, column: nat, env: Env)
    requires EnvOk(env) && (d.MySql? || d.ClickHouse?)
    ensures var v := Eval(d, AsText(RowValue(Serialize(Column(column)))), env, []);
      if HasColumn(column, env) then v.Some? && v.value.Text? && Reads(v.value.text, env.columns[column].value)
      else v == Some(Null)
  {
    hide Reads, Print, Printable, EnvOk;
    LeafDenotes(d, column, env);
    var present := HasColumn(column, env);
    assert Eval(d, Column(column), env, []) ==
      if present then Some(Scalar(env.columns[column].value)) else Some(Null);
    assert Eval(d, Serialize(Column(column)), env, []) ==
      if present then Some(Text(Print(env.columns[column].value))) else Some(Null);
    RowValueEvaluates(d, Serialize(Column(column)), env);
    AsTextEvaluates(d, RowValue(Serialize(Column(column))), env, []);
  }

  lemma {:induction false} PresentRowTexts(d: Dialect, column: nat, group: seq<Env>)
    requires (d.MySql? || d.ClickHouse?) && forall env | env in group :: EnvOk(env)
    ensures var vals := EvalRows(d, AsText(RowValue(Serialize(Column(column)))), group);
      && AllSome(vals)
      && PresentTexts(Values(vals)).Some?
      && AllRead(PresentTexts(Values(vals)).value, Present(column, group))
  {
    if group != [] {
      hide Eval, Reads, EnvOk, Print, Present, HasColumn, EvalRows, PresentTexts, AllRead;
      var row := AsText(RowValue(Serialize(Column(column))));
      PresentRowTexts(d, column, group[1..]);
      PresentCons(column, group);
      ReadFirst(d, column, group[0]);
      FirstRowPresent(d, row, group);
      var rest := PresentTexts(Values(EvalRows(d, row, group[1..]))).value;
      AllReadCons(TextOf(Eval(d, row, group[0], []).value), rest,
        if HasColumn(column, group[0]) then [group[0].columns[column].value] else [], Present(column, group[1..]));
    }
  }

  function TextOf(v: Val): seq<string> { if v.Text? then [v.text] else [] }

  lemma ReadFirst(d: Dialect, column: nat, env: Env)
    requires EnvOk(env) && (d.MySql? || d.ClickHouse?)
    ensures var v := Eval(d, AsText(RowValue(Serialize(Column(column)))), env, []);
      && v.Some? && (v.value.Text? || v.value.Null?)
      && AllRead(TextOf(v.value), if HasColumn(column, env) then [env.columns[column].value] else [])
  {
    ColumnText(d, column, env);
    hide Eval, Reads, EnvOk;
  }

  lemma PresentCons(column: nat, group: seq<Env>)
    requires group != []
    ensures Present(column, group)
      == (if HasColumn(column, group[0]) then [group[0].columns[column].value] else []) + Present(column, group[1..])
  {
  }

  lemma FirstRowPresent(d: Dialect, row: Expr, group: seq<Env>)
    requires group != []
    requires var rest := EvalRows(d, row, group[1..]); AllSome(rest) && PresentTexts(Values(rest)).Some?
    requires var v := Eval(d, row, group[0], []); v.Some? && (v.value.Text? || v.value.Null?)
    ensures var vals, rest := EvalRows(d, row, group), EvalRows(d, row, group[1..]);
      var v := Eval(d, row, group[0], []).value;
      && AllSome(vals)
      && PresentTexts(Values(vals))
        == Some(TextOf(v) + PresentTexts(Values(rest)).value)
  {
    hide Eval;
    var vals, rest := EvalRows(d, row, group), EvalRows(d, row, group[1..]);
    assert vals == [Eval(d, row, group[0], [])] + rest;
    assert Values(vals)[1..] == Values(rest);
    var texts := PresentTexts(Values(rest)).value;
    assert [] + texts == texts;
  }

  lemma AllReadCons(first: seq<string>, texts: seq<string>, one: seq<Json>, js: seq<Json>)
    requires AllRead(first, one) && AllRead(texts, js)
    ensures AllRead(first + texts, one + js)
  {
    hide Reads;
  }

  /** What MySQL answers for a list of bare columns in any order, and ClickHouse for one in no order. */
  lemma ColumnListAnswer(d: Dialect, rows: nat, column: nat, order: Option<nat>, env: Env)
    requires EnvOk(env) && (d.MySql? || (d.ClickHouse? && order.None?))
    ensures Answer(d, List(rows, Leaf(column), order), env)
      == Some(Arr(Present(column, Arranged(order, RowsOf(rows, env)))))
  {
    hide Eval, Reads, EnvOk, Lit, Arranged;
    var group := RowsOf(rows, env);
    var arranged := Arranged(order, group);
    RowsAreOk(rows, env);
    ArrangedKeeps(order, group);
    PresentRowTexts(d, column, arranged);
    var row, js := RowValue(Serialize(Column(column))), Present(column, arranged);
    var texts := PresentTexts(Values(EvalRows(d, AsText(row), arranged))).value;
    PresentTextsAggregate(d, row, order, env, group, texts);
    ArrayReads(texts, js, ",");
    ReadsParses(ArrayText(texts, ","), Arr(js));
    var sql := JsonArrayAgg(d, row, order);
    OverEvaluates(d, rows, sql, env);
    assert Rendered(d, List(rows, Leaf(column), order)) == Over(rows, sql);
    assert Eval(d, Over(rows, sql), env, []) == Some(Text(ArrayText(texts, ",")));
  }

  lemma PresentTextsAggregate(
    d: Dialect, row: Expr, order: Option<nat>, env: Env, group: seq<Env>, texts: seq<string>)
    requires d.MySql? || (d.ClickHouse? && order.None?)
    requires var vals := EvalRows(d, AsText(row), Arranged(order, group));
      AllSome(vals) && PresentTexts(Values(vals)) == Some(texts)
    ensures Eval(d, JsonArrayAgg(d, row, order), env, group) == Some(Text(ArrayText(texts, ",")))
  {
    hide Eval, Lit, PresentTexts;
    var vals := Values(EvalRows(d, AsText(row), Arranged(order, group)));
    if d.MySql? {
      var agg := GroupConcat(AsText(row), order);
      AggregateEvaluates(MySql, AsText(row), order, env, group, vals);
      EvalLit(MySql, "", env, group);
      CoalesceEvaluates(MySql, agg, Lit(MySql, ""), env, group);
      BracketsEvaluate(MySql, Coalesce(agg, Lit(MySql, "")), env, group, Join(texts, ","));
    } else {
      GroupsEvaluate(ClickHouse, AsText(row), 0, env, group, vals);
      JoinEvaluates(ClickHouse, GroupArray(AsText(row)), env, group, texts);
      BracketsEvaluate(ClickHouse, JoinTexts(GroupArray(AsText(row))), env, group, Join(texts, ","));
    }
  }

  lemma PostgresColumnList(rows: nat, column: nat, order: Option<nat>, env: Env)
    requires EnvOk(env)
    ensures Answer(Postgres, List(rows, Leaf(column), order), env)
      == Some(Arr(RowMeanings(Leaf(column), Arranged(order, RowsOf(rows, env)))))
  {
    AnswersItsMeaning(Postgres, List(rows, Leaf(column), order), env);
    hide Answer, Arranged, RowsOf, EnvOk;
  }

  /**
   * A list of bare columns is where the text dialects differ: the answer of MySQL in any order, and of ClickHouse in
   * none, leaves the NULL rows out, so it is the list Postgres gives exactly when no row's column is NULL.
   */
  lemma ColumnListsAgreeIffNoNull(d: Dialect, rows: nat, column: nat, order: Option<nat>, env: Env)
    requires EnvOk(env) && (d.MySql? || (d.ClickHouse? && order.None?))
    ensures var tree := List(rows, Leaf(column), order);
      Answer(d, tree, env) == Answer(Postgres, tree, env)
      <==> forall r | r in RowsOf(rows, env) :: HasColumn(column, r)
  {
    var group := RowsOf(rows, env);
    var arranged := Arranged(order, group);
    ColumnListAnswer(d, rows, column, order, env);
    PostgresColumnList(rows, column, order, env);
    ArrangedKeeps(order, group);
    PresentIsAllIff(column, arranged);
    hide Answer, Present, EnvOk, Arranged;
    assert forall i | 0 <= i < |arranged| :: arranged[i] in arranged;
  }

  /** In any order, lists of bare columns without NULL are the same in ClickHouse. */
  lemma FullColumnListsAgree(rows: nat, column: nat, order: Option<nat>, env: Env)
    requires EnvOk(env) && forall r | r in RowsOf(rows, env) :: HasColumn(column, r)
    ensures Answer(ClickHouse, List(rows, Leaf(column), order), env)
      == Answer(Postgres, List(rows, Leaf(column), order), env)
  {
    var tree, group := List(rows, Leaf(column), order), RowsOf(rows, env);
    var arranged, row := Arranged(order, group), Rendered(ClickHouse, Leaf(column));
    var js := RowMeanings(Leaf(column), arranged);
    PostgresColumnList(rows, column, order, env);
    RowsAreOk(rows, env);
    ArrangedKeeps(order, group);
    FullRowsAreGood(column, group);
    FullRowsAreGood(column, arranged);
    hide Eval, Reads, EnvOk, Arranged, RowsGood, JsonArrayAgg, RowsOf;
    RowsAreHandedUp(ClickHouse, row, group, RowMeanings(Leaf(column), group));
    RowsAreHandedUp(ClickHouse, row, arranged, js);
    ArrayDenotes(ClickHouse, RowValue(row), order, env, group, RowMeanings(Leaf(column), group), js);
    OverEvaluates(ClickHouse, rows, JsonArrayAgg(ClickHouse, RowValue(row), order), env);
    ReadsParses(Eval(ClickHouse, Rendered(ClickHouse, tree), env, []).value.text, Arr(js));
  }

  lemma FullRowsAreGood(column: nat, rows: seq<Env>)
    requires forall r | r in rows :: EnvOk(r) && HasColumn(column, r)
    ensures RowsGood(ClickHouse, Rendered(ClickHouse, Leaf(column)), rows, RowMeanings(Leaf(column), rows))
  {
    RowMeaningsAre(Leaf(column), rows);
    forall i | 0 <= i < |rows|
      ensures Evaluates(ClickHouse, Rendered(ClickHouse, Leaf(column)), rows[i], [], RowMeanings(Leaf(column), rows)[i])
      ensures Eval(ClickHouse, Rendered(ClickHouse, Leaf(column)), rows[i], []) != Some(Null)
    {
      assert rows[i] in rows;
      LeafDenotes(ClickHouse, column, rows[i]);
    }
  }

  // ----- SQLite reads every row as JSON

  lemma {:induction false} ReadStringShortens(s: string)
    requires ReadString(s).Some?
    ensures |ReadString(s).value.0| + |ReadString(s).value.1| < |s|
  {
    if s[0] != '\"' {
      var n := if s[0] != '\\' then 1 else if s[1] == 'u' then 6 else 2;
      ReadStringShortens(s[n..]);
    }
  }

  /** No text is the JSON string of itself. */
  lemma ParsesToSomethingElse(text: string)
    ensures Parse(text) != Some(Str(text))
  {
    var t := Skip(text);
    if t != "" && t[0] == '\"' && ReadString(t[1..]).Some? {
      ReadStringShortens(t[1..]);
    }
  }

  /** A column, handed up and read as JSON: a NULL or a number as it is, a text as whatever JSON it spells. */
  function ReadColumn(column: nat, env: Env): Option<Json> {
    if !HasColumn(column, env) then Some(NULL)
    else if env.columns[column].value.Str? then Parse(env.columns[column].value.text)
    else Some(env.columns[column].value)
  }

  lemma ReadColumnEvaluates(column: nat, env: Env)
    ensures var v := Eval(Sqlite, ReadJson(RowValue(Column(column))), env, []);
      if ReadColumn(column, env).None? then v == None
      else v.Some? && AsTree(v.value) == ReadColumn(column, env)
  {
    hide Parse;
    RowValueEvaluates(Sqlite, Column(column), env);
  }

  lemma ReadColumnIff(column: nat, env: Env)
    ensures ReadColumn(column, env) == Some(Meaning(Leaf(column), env))
      <==> !HasColumn(column, env) || !env.columns[column].value.Str?
  {
    if HasColumn(column, env) && env.columns[column].value.Str? {
      ParsesToSomethingElse(env.columns[column].value.text);
    }
  }

  function ReadColumns(column: nat, rows: seq<Env>): (r: seq<Option<Json>>)
    ensures |r| == |rows|
  {
    seq(|rows|, i requires 0 <= i < |rows| => ReadColumn(column, rows[i]))
  }

  lemma SqliteRows(column: nat, rows: seq<Env>)
    ensures var r := EvalRows(Sqlite, ReadJson(RowValue(Column(column))), rows);
      && (AllSome(r) <==> AllSome(ReadColumns(column, rows)))
      && (AllSome(r) ==> TreesAll(Values(r)) == ReadColumns(column, rows))
  {
    hide Eval, ReadColumn, AsTree;
    EvalRowsIs(Sqlite, ReadJson(RowValue(Column(column))), rows);
    var r, read := EvalRows(Sqlite, ReadJson(RowValue(Column(column))), rows), ReadColumns(column, rows);
    forall i | 0 <= i < |rows|
      ensures r[i].None? <==> read[i].None?
      ensures r[i].Some? ==> AsTree(r[i].value) == read[i]
    {
      ReadColumnEvaluates(column, rows[i]);
    }
    if AllSome(r) {
      assert TreesAll(Values(r)) == read;
    }
  }

  lemma SqliteAggregate(row: Expr, order: Option<nat>, env: Env, group: seq<Env>)
    ensures var r := EvalRows(Sqlite, row, Arranged(order, group));
      Eval(Sqlite, JsonAgg(row, order), env, group) == if AllSome(r) then JsonAggVals(Sqlite, Values(r)) else None
  {
    hide JsonAggVals, Arranged;
  }

  lemma CoalesceKeeps(first: Expr, second: Expr, env: Env, group: seq<Env>)
    requires Eval(Sqlite, first, env, group) != Some(Null)
    ensures Eval(Sqlite, Coalesce(first, second), env, group) == Eval(Sqlite, first, env, group)
  {
  }

  /** SQLite answers with the JSON every row spells, or not at all. */
  lemma SqliteColumnList(rows: nat, column: nat, order: Option<nat>, env: Env)
    ensures var read := ReadColumns(column, Arranged(order, RowsOf(rows, env)));
      Answer(Sqlite, List(rows, Leaf(column), order), env) == if AllSome(read) then Some(Arr(Values(read))) else None
  {
    var group, row := RowsOf(rows, env), ReadJson(RowValue(Column(column)));
    var sql := Coalesce(JsonAgg(row, order), EmptyArray);
    assert Rendered(Sqlite, List(rows, Leaf(column), order)) == Over(rows, sql);
    hide Eval, AsTree, ReadColumns, Arranged, Rendered, RowsOf;
    SqliteRows(column, Arranged(order, group));
    SqliteAggregate(row, order, env, group);
    CoalesceKeeps(JsonAgg(row, order), EmptyArray, env, group);
    OverEvaluates(Sqlite, rows, sql, env);
  }

  /** A list of bare columns in SQLite is the one Postgres gives exactly when no row's column is a text. */
  lemma SqliteColumnListsAgreeIffNoText(rows: nat, column: nat, order: Option<nat>, env: Env)
    requires EnvOk(env)
    ensures var tree := List(rows, Leaf(column), order);
      Answer(Sqlite, tree, env) == Answer(Postgres, tree, env)
      <==> forall r | r in RowsOf(rows, env) :: !HasColumn(column, r) || !r.columns[column].value.Str?
  {
    var group := RowsOf(rows, env);
    var arranged := Arranged(order, group);
    var read, js := ReadColumns(column, arranged), RowMeanings(Leaf(column), arranged);
    SqliteColumnList(rows, column, order, env);
    PostgresColumnList(rows, column, order, env);
    ArrangedKeeps(order, group);
    RowMeaningsAre(Leaf(column), arranged);
    forall r ensures ReadColumn(column, r) == Some(Meaning(Leaf(column), r))
        <==> !HasColumn(column, r) || !r.columns[column].value.Str?
    {
      ReadColumnIff(column, r);
    }
    hide Answer, EnvOk, Arranged, RowsOf, ReadColumn, Meaning;
    ReadsAllIff(read, js);
    assert forall i | 0 <= i < |arranged| :: arranged[i] in arranged && read[i] == ReadColumn(column, arranged[i]);
  }

  lemma ReadsAllIff(read: seq<Option<Json>>, js: seq<Json>)
    requires |read| == |js|
    ensures (AllSome(read) && Values(read) == js) <==> forall i | 0 <= i < |read| :: read[i] == Some(js[i])
  {
    if AllSome(read) && Values(read) == js {
      assert forall i | 0 <= i < |read| :: Values(read)[i] == js[i];
    }
    if forall i | 0 <= i < |read| :: read[i] == Some(js[i]) {
      assert Values(read) == js;
    }
  }
}
