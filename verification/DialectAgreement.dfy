/** The four dialects answer a selection tree with the same ordered JSON. */
module DialectAgreement {
  import opened Wrappers
  import opened Json
  import opened JsonTexts
  import opened Quoting
  import opened Sql
  import opened RowOrder
  import opened Render
  import opened RenderTheorems
  import opened BuiltinObjects

  // ----- What is assumed of the data and asked of the tree

  /** Every column value, in a row or below it, prints to a JSON token or string. */
  ghost predicate EnvOk(env: Env) {
    && (forall i | 0 <= i < |env.columns| && env.columns[i].Some? :: Printable(env.columns[i].value))
    && (forall set_ | set_ in env.sets :: RowsOk(set_))
  }

  ghost predicate RowsOk(set_: RowSet) { forall r | r in set_.rows :: EnvOk(r) }

  predicate IsComposite(tree: Tree) { tree.Object? || tree.List? }

  /** Keys SQLite can build in chunks: nameable in a path once there are more than 63, and later ones not repeated. */
  ghost predicate SqliteKeysFit(fields: seq<TreeField>) {
    var pairs := RenderFields(Sqlite, fields);
    (|pairs| <= 63 || KeysArePathExpressible(pairs)) && LaterKeysAreNew(pairs)
  }

  ghost predicate Supported(d: Dialect, tree: Tree) {
    match tree
    case Leaf(_) => true
    case NullLeaf => true
    case Object(fields) =>
      (d.Sqlite? ==> SqliteKeysFit(fields)) && forall f | f in fields :: Supported(d, f.tree)
    case List(_, row, _) => (d.Postgres? || IsComposite(row)) && Supported(d, row)
  }

  predicate IsJson(v: Option<Val>) { v.Some? && (v.value.JsonText? || v.value.Tree? || v.value.Text?) }

  ghost predicate Good(d: Dialect, tree: Tree, env: Env) {
    && Evaluates(d, Rendered(d, tree), env, [], Meaning(tree, env))
    && (IsComposite(tree) ==> IsJson(Eval(d, Rendered(d, tree), env, [])))
  }

  // ----- Rows and their order

  function RowText(d: Dialect, row: Expr, env: Env): string {
    match Eval(d, row, env, [])
    case Some(Text(t)) => t
    case _ => ""
  }

  function RowTexts(d: Dialect, row: Expr, group: seq<Env>): (r: seq<string>)
    ensures |r| == |group|
  {
    seq(|group|, i requires 0 <= i < |group| => RowText(d, row, group[i]))
  }

  function WithTexts(d: Dialect, row: Expr, s: seq<(int, Env)>): (r: seq<(int, string)>)
    ensures |r| == |s|
  {
    seq(|s|, i requires 0 <= i < |s| => (s[i].0, RowText(d, row, s[i].1)))
  }

  lemma WithTextsCons(d: Dialect, row: Expr, x: (int, Env), s: seq<(int, Env)>)
    ensures WithTexts(d, row, [x] + s) == [(x.0, RowText(d, row, x.1))] + WithTexts(d, row, s)
  {
    hide RowText;
  }

  lemma {:induction false} InsertCommutes(d: Dialect, row: Expr, x: (int, Env), s: seq<(int, Env)>)
    ensures InsertSorted((x.0, RowText(d, row, x.1)), WithTexts(d, row, s)) == WithTexts(d, row, InsertSorted(x, s))
  {
    if s == [] {
      WithTextsCons(d, row, x, []);
      assert [x] + [] == [x];
    } else if x.0 <= s[0].0 {
      WithTextsCons(d, row, x, s);
    } else {
      hide RowText, WithTexts;
      assert s == [s[0]] + s[1..];
      WithTextsCons(d, row, s[0], s[1..]);
      WithTextsCons(d, row, s[0], InsertSorted(x, s[1..]));
      InsertCommutes(d, row, x, s[1..]);
      var w := WithTexts(d, row, s);
      assert w[0].0 == s[0].0 && w[1..] == WithTexts(d, row, s[1..]);
    }
  }

  /** Sorting the rows and taking their texts is taking the texts and sorting them by the same keys. */
  lemma {:induction false} SortCommutes(d: Dialect, row: Expr, s: seq<(int, Env)>)
    ensures Sorted(WithTexts(d, row, s)) == WithTexts(d, row, Sorted(s))
  {
    hide RowText;
    if s != [] {
      SortCommutes(d, row, s[1..]);
      assert WithTexts(d, row, s)[1..] == WithTexts(d, row, s[1..]);
      InsertCommutes(d, row, s[0], Sorted(s[1..]));
    }
  }

  // ----- Rows of composites

  /** Every row evaluates, and none is NULL. */
  ghost predicate RowsGood(d: Dialect, row: Expr, group: seq<Env>, js: seq<Json>) {
    && |js| == |group|
    && forall i | 0 <= i < |group| ::
      Evaluates(d, row, group[i], [], js[i]) && (d.Postgres? || Eval(d, row, group[i], []) != Some(Null))
  }

  function RowVals(d: Dialect, row: Expr, group: seq<Env>): (r: seq<Val>)
    requires forall i | 0 <= i < |group| :: Eval(d, row, group[i], []).Some?
    ensures |r| == |group|
  {
    seq(|group|, i requires 0 <= i < |group| => Eval(d, row, group[i], []).value)
  }

  lemma {:induction false} EvalRowsIs(d: Dialect, row: Expr, group: seq<Env>)
    ensures forall i | 0 <= i < |group| :: EvalRows(d, row, group)[i] == Eval(d, row, group[i], [])
  {
    hide Eval;
    if group != [] {
      EvalRowsIs(d, row, group[1..]);
    }
  }

  lemma RowsYield(d: Dialect, row: Expr, group: seq<Env>, js: seq<Json>)
    requires RowsGood(d, row, group, js)
    ensures |js| == |group| && forall i | 0 <= i < |group| :: Eval(d, row, group[i], []).Some?
    ensures AllSome(EvalRows(d, row, group)) && Values(EvalRows(d, row, group)) == RowVals(d, row, group)
    ensures forall i | 0 <= i < |group| :: Denotes(d, RowVals(d, row, group)[i], js[i])
  {
    hide Eval, Denotes;
    EvalRowsIs(d, row, group);
    forall i | 0 <= i < |group|
      ensures Eval(d, row, group[i], []).Some? && Denotes(d, Eval(d, row, group[i], []).value, js[i])
    {
      assert Evaluates(d, row, group[i], [], js[i]);
    }
  }

  // ----- Postgres arrays

  lemma PostgresArray(row: Expr, order: Option<nat>, env: Env, group: seq<Env>, js: seq<Json>)
    requires RowsGood(Postgres, row, Arranged(order, group), js)
    ensures Evaluates(Postgres, JsonArrayAgg(Postgres, row, order), env, group, Arr(js))
    ensures IsJson(Eval(Postgres, JsonArrayAgg(Postgres, row, order), env, group))
  {
    hide Eval, Reads, RowsGood, RowVals, Arranged, Lit, AsTree;
    var rows := Arranged(order, group);
    RowsYield(Postgres, row, rows, js);
    var vals := RowVals(Postgres, row, rows);
    var agg, empty := JsonAgg(row, order), AsJson(Lit(Postgres, "[]"));
    AggregateEvaluates(Postgres, row, order, env, group, vals);
    CoalesceEvaluates(Postgres, agg, empty, env, group);
    EvalLit(Postgres, "[]", env, group);
    EmptyArrayText();
    AsJsonEvaluates(Postgres, Lit(Postgres, "[]"), env, group, "[]");
    if vals == [] {
      assert js == [];
    } else {
      EmbeddedTexts(vals, js);
    }
  }

  /** The aggregates evaluate their row on every row of the arranged group. */
  lemma AggregateEvaluates(
    d: Dialect, row: Expr, order: Option<nat>, env: Env, group: seq<Env>, vals: seq<Val>)
    requires var r := EvalRows(d, row, Arranged(order, group)); AllSome(r) && Values(r) == vals
    ensures Eval(d, JsonAgg(row, order), env, group) == JsonAggVals(d, vals)
    ensures Eval(d, GroupConcat(row, order), env, group) == GroupConcatVals(vals)
  {
    hide JsonAggVals, GroupConcatVals;
  }

  lemma GroupsEvaluate(d: Dialect, row: Expr, key: nat, env: Env, group: seq<Env>, vals: seq<Val>)
    requires var r := EvalRows(d, row, group); AllSome(r) && Values(r) == vals
    ensures Eval(d, GroupPairs(key, row), env, group) == PairVals(key, group, vals)
    ensures PresentTexts(vals).Some? ==> Eval(d, GroupArray(row), env, group) == Some(Texts(PresentTexts(vals).value))
  {
    hide PresentTexts, PairVals;
  }

  lemma JoinEvaluates(d: Dialect, arg: Expr, env: Env, group: seq<Env>, texts: seq<string>)
    requires Eval(d, arg, env, group) == Some(Texts(texts))
    ensures Eval(d, JoinTexts(arg), env, group) == Some(Text(Join(texts, ",")))
  {
    hide Join;
  }

  /** The text a JSON row is handed up as, read again. */
  lemma ReadJsonEvaluates(row: Expr, env: Env, j: Json)
    requires Eval(Sqlite, row, env, []) == Some(Val.Tree(j)) && Printable(j)
    ensures Eval(Sqlite, RowValue(row), env, []) == Some(Text(Print(j)))
    ensures Eval(Sqlite, ReadJson(RowValue(row)), env, []) == Some(Val.Tree(j))
  {
    PrintReads(j);
    ReadsParses(Print(j), j);
    hide Print, Printable, Reads, Parse;
    RowValueEvaluates(Sqlite, row, env);
    TextIsRead(RowValue(row), env, Print(j), j);
  }

  lemma TextIsRead(arg: Expr, env: Env, text: string, j: Json)
    requires Eval(Sqlite, arg, env, []) == Some(Text(text)) && Parse(text) == Some(j)
    ensures Eval(Sqlite, ReadJson(arg), env, []) == Some(Val.Tree(j))
  {
    hide Parse;
  }

  lemma RowValueEvaluates(d: Dialect, row: Expr, env: Env)
    ensures var v := Eval(d, row, env, []);
      Eval(d, RowValue(row), env, [])
      == if v.Some? && v.value.Tree? then Some(Text(Print(v.value.tree))) else v
  {
    hide Print, Parse, Read, EvalAll, EvalRows, ConcatVals, Arranged, RowsOf, AsReadTree, Sorted, Seconds;
  }

  /** Every other engine hands its rows up as they are. */
  lemma RowsAreHandedUp(d: Dialect, row: Expr, rows: seq<Env>, js: seq<Json>)
    requires !d.Sqlite? && RowsGood(d, row, rows, js)
    ensures RowsGood(d, RowValue(row), rows, js)
  {
    hide Eval, Reads, Print;
    forall i | 0 <= i < |rows| ensures Eval(d, RowValue(row), rows[i], []) == Eval(d, row, rows[i], []) {
      assert Evaluates(d, row, rows[i], [], js[i]);
      RowValueEvaluates(d, row, rows[i]);
    }
  }

  lemma EmptyArrayText()
    ensures Reads("[]", Arr([])) && Parse("[]").Some?
  {
    ArrayReads([], [], ",");
    assert ArrayText([], ",") == "[]";
    ReadsParses("[]", Arr([]));
  }

  lemma EmbeddedTexts(vals: seq<Val>, js: seq<Json>)
    requires |vals| == |js| && forall i | 0 <= i < |vals| :: Denotes(Postgres, vals[i], js[i])
    ensures AllSome(EmbeddedAll(vals))
    ensures Reads(ArrayText(Values(EmbeddedAll(vals)), ", "), Arr(js))
  {
    hide Reads;
    assert AllSome(EmbeddedAll(vals));
    var texts := Values(EmbeddedAll(vals));
    forall i | 0 <= i < |vals| ensures Reads(texts[i], js[i]) {
      ValueTextReads(Postgres, vals[i], js[i]);
    }
    ArrayReads(texts, js, ", ");
  }

  // ----- SQLite arrays

  /** Rows that are JSON trees in SQLite, and print. */
  ghost predicate TreeRows(row: Expr, rows: seq<Env>, js: seq<Json>) {
    && |js| == |rows|
    && forall i | 0 <= i < |rows| :: Eval(Sqlite, row, rows[i], []) == Some(Val.Tree(js[i])) && Printable(js[i])
  }

  lemma SqliteArray(row: Expr, order: Option<nat>, env: Env, group: seq<Env>, js: seq<Json>)
    requires TreeRows(row, Arranged(order, group), js)
    ensures Evaluates(Sqlite, JsonArrayAgg(Sqlite, RowValue(row), order), env, group, Arr(js))
    ensures IsJson(Eval(Sqlite, JsonArrayAgg(Sqlite, RowValue(row), order), env, group))
  {
    hide Eval, AsTree, Arranged, Print, Printable;
    var rows := Arranged(order, group);
    var read := ReadJson(RowValue(row));
    forall i | 0 <= i < |rows| ensures Eval(Sqlite, read, rows[i], []) == Some(Val.Tree(js[i])) {
      ReadJsonEvaluates(row, rows[i], js[i]);
    }
    EvalRowsIs(Sqlite, read, rows);
    var vals := Values(EvalRows(Sqlite, read, rows));
    AggregateEvaluates(Sqlite, read, order, env, group, vals);
    TreesAggregate(vals, js);
    CoalesceEvaluates(Sqlite, JsonAgg(read, order), EmptyArray, env, group);
  }

  /** Without `json(...)` around them the same rows come back as strings of their own text, encoded twice. */
  lemma UnreadRowsAreStrings(row: Expr, order: Option<nat>, env: Env, group: seq<Env>, js: seq<Json>)
    requires TreeRows(row, Arranged(order, group), js)
    ensures Eval(Sqlite, JsonAgg(RowValue(row), order), env, group)
      == Some(Val.Tree(Arr(seq(|js|, i requires 0 <= i < |js| => Str(Print(js[i]))))))
  {
    hide Eval, Arranged, Print, Printable;
    var rows := Arranged(order, group);
    forall i | 0 <= i < |rows| ensures Eval(Sqlite, RowValue(row), rows[i], []) == Some(Text(Print(js[i]))) {
      ReadJsonEvaluates(row, rows[i], js[i]);
    }
    EvalRowsIs(Sqlite, RowValue(row), rows);
    var vals := Values(EvalRows(Sqlite, RowValue(row), rows));
    AggregateEvaluates(Sqlite, RowValue(row), order, env, group, vals);
    var strings := seq(|js|, i requires 0 <= i < |js| => Str(Print(js[i])));
    assert TreesAll(vals) == seq(|js|, i requires 0 <= i < |js| => Some(strings[i]));
    assert Values(TreesAll(vals)) == strings;
  }

  lemma TreesAggregate(vals: seq<Val>, js: seq<Json>)
    requires |vals| == |js| && forall i | 0 <= i < |vals| :: vals[i] == Val.Tree(js[i])
    ensures JsonAggVals(Sqlite, vals) == Some(Val.Tree(Arr(js)))
  {
    assert TreesAll(vals) == seq(|js|, i requires 0 <= i < |js| => Some(js[i]));
    assert Values(TreesAll(vals)) == js;
  }

  // ----- MySQL and ClickHouse arrays

  lemma RowsAreTexts(d: Dialect, row: Expr, group: seq<Env>, js: seq<Json>)
    requires (d.MySql? || d.ClickHouse?) && RowsGood(d, row, group, js)
    ensures forall i | 0 <= i < |group| :: Eval(d, row, group[i], []) == Some(Text(RowText(d, row, group[i])))
    ensures AllRead(RowTexts(d, row, group), js)
  {
    hide Reads, Eval;
    forall i | 0 <= i < |group|
      ensures Eval(d, row, group[i], []) == Some(Text(RowText(d, row, group[i])))
      ensures Reads(RowTexts(d, row, group)[i], js[i])
    {
      assert Evaluates(d, row, group[i], [], js[i]);
    }
  }

  function AsVals(texts: seq<string>): (r: seq<Val>)
    ensures |r| == |texts|
  {
    seq(|texts|, i requires 0 <= i < |texts| => Text(texts[i]))
  }

  lemma {:induction false} AllPresent(texts: seq<string>)
    ensures PresentTexts(AsVals(texts)) == Some(texts)
  {
    if texts != [] {
      assert AsVals(texts)[1..] == AsVals(texts[1..]);
      AllPresent(texts[1..]);
      assert texts == [texts[0]] + texts[1..];
    }
  }

  lemma CastRowsYield(d: Dialect, row: Expr, group: seq<Env>)
    requires forall i | 0 <= i < |group| :: Eval(d, row, group[i], []) == Some(Text(RowText(d, row, group[i])))
    ensures AllSome(EvalRows(d, AsText(row), group))
    ensures Values(EvalRows(d, AsText(row), group)) == AsVals(RowTexts(d, row, group))
  {
    EvalRowsIs(d, AsText(row), group);
    forall i | 0 <= i < |group| ensures Eval(d, AsText(row), group[i], []) == Some(Text(RowText(d, row, group[i]))) {
      AsTextEvaluates(d, row, group[i], []);
    }
  }

  /** The brackets around a text, concatenated. */
  lemma BracketsEvaluate(d: Dialect, inner: Expr, env: Env, group: seq<Env>, text: string)
    requires Eval(d, inner, env, group) == Some(Text(text))
    ensures Eval(d, Concat([Lit(d, "["), inner, Lit(d, "]")]), env, group) == Some(Text("[" + text + "]"))
  {
    EvalLit(d, "[", env, group);
    EvalLit(d, "]", env, group);
    hide Eval, Lit, Spells;
    SpellsOne(d, Lit(d, "["), env, group, "[");
    SpellsOne(d, inner, env, group, text);
    SpellsOne(d, Lit(d, "]"), env, group, "]");
    SpellsConcat(d, [Lit(d, "[")], [inner], env, group, "[", text);
    SpellsConcat(d, [Lit(d, "[")] + [inner], [Lit(d, "]")], env, group, "[" + text, "]");
    assert [Lit(d, "[")] + [inner] + [Lit(d, "]")] == [Lit(d, "["), inner, Lit(d, "]")];
    SpellsEvaluates(d, [Lit(d, "["), inner, Lit(d, "]")], env, group, "[" + text + "]");
  }

  lemma MySqlArray(row: Expr, order: Option<nat>, env: Env, group: seq<Env>, js: seq<Json>)
    requires RowsGood(MySql, row, Arranged(order, group), js)
    ensures Evaluates(MySql, JsonArrayAgg(MySql, row, order), env, group, Arr(js))
    ensures IsJson(Eval(MySql, JsonArrayAgg(MySql, row, order), env, group))
  {
    hide Eval, Reads, RowsGood, Arranged, RowText, Lit;
    var rows := Arranged(order, group);
    RowsAreTexts(MySql, row, rows, js);
    var texts := RowTexts(MySql, row, rows);
    CastRowsYield(MySql, row, rows);
    AllPresent(texts);
    var agg := GroupConcat(AsText(row), order);
    AggregateEvaluates(MySql, AsText(row), order, env, group, AsVals(texts));
    EvalLit(MySql, "", env, group);
    CoalesceEvaluates(MySql, agg, Lit(MySql, ""), env, group);
    BracketsEvaluate(MySql, Coalesce(agg, Lit(MySql, "")), env, group, Join(texts, ","));
    ArrayReads(texts, js, ",");
  }

  function ClickHouseTexts(row: Expr, order: Option<nat>): Expr {
    match order
    case None => GroupArray(AsText(row))
    case Some(key) => SecondOfPairs(SortPairs(GroupPairs(key, AsText(row))))
  }

  lemma PairsOfTexts(row: Expr, key: nat, group: seq<Env>)
    ensures PairVals(key, group, AsVals(RowTexts(ClickHouse, row, group)))
         == Some(Pairs(WithTexts(ClickHouse, row, WithKeys(key, group))))
  {
    hide RowText;
    var vals, pairs := AsVals(RowTexts(ClickHouse, row, group)), WithTexts(ClickHouse, row, WithKeys(key, group));
    assert KeyedTexts(key, group, vals) == pairs;
  }

  lemma SortedPairsEvaluate(row: Expr, key: nat, env: Env, group: seq<Env>, pairs: seq<(int, string)>)
    requires Eval(ClickHouse, GroupPairs(key, row), env, group) == Some(Pairs(pairs))
    ensures Eval(ClickHouse, SecondOfPairs(SortPairs(GroupPairs(key, row))), env, group)
         == Some(Texts(Seconds(Sorted(pairs))))
  {
    hide Sorted, Seconds;
    assert Eval(ClickHouse, SortPairs(GroupPairs(key, row)), env, group) == Some(Pairs(Sorted(pairs)));
  }

  lemma ClickHouseTextsEvaluate(row: Expr, order: Option<nat>, env: Env, group: seq<Env>)
    requires forall i | 0 <= i < |group| ::
      Eval(ClickHouse, row, group[i], []) == Some(Text(RowText(ClickHouse, row, group[i])))
    ensures Eval(ClickHouse, ClickHouseTexts(row, order), env, group)
         == Some(Texts(RowTexts(ClickHouse, row, Arranged(order, group))))
  {
    hide Eval, RowText, Sorted;
    CastRowsYield(ClickHouse, row, group);
    var texts := RowTexts(ClickHouse, row, group);
    match order
    case None =>
      AllPresent(texts);
      GroupsEvaluate(ClickHouse, AsText(row), 0, env, group, AsVals(texts));
    case Some(key) =>
      var keyed := WithKeys(key, group);
      var pairs := WithTexts(ClickHouse, row, keyed);
      PairsOfTexts(row, key, group);
      GroupsEvaluate(ClickHouse, AsText(row), key, env, group, AsVals(texts));
      SortedPairsEvaluate(AsText(row), key, env, group, pairs);
      SortCommutes(ClickHouse, row, keyed);
      assert Seconds(WithTexts(ClickHouse, row, Sorted(keyed))) == RowTexts(ClickHouse, row, Seconds(Sorted(keyed)));
  }

  lemma ClickHouseArray(row: Expr, order: Option<nat>, env: Env, group: seq<Env>, all: seq<Json>, js: seq<Json>)
    requires RowsGood(ClickHouse, row, group, all) && RowsGood(ClickHouse, row, Arranged(order, group), js)
    ensures Evaluates(ClickHouse, JsonArrayAgg(ClickHouse, row, order), env, group, Arr(js))
    ensures IsJson(Eval(ClickHouse, JsonArrayAgg(ClickHouse, row, order), env, group))
  {
    hide Eval, Reads, RowsGood, Arranged, RowText, Lit;
    var rows := Arranged(order, group);
    RowsAreTexts(ClickHouse, row, group, all);
    RowsAreTexts(ClickHouse, row, rows, js);
    var texts := RowTexts(ClickHouse, row, rows);
    ClickHouseTextsEvaluate(row, order, env, group);
    var inner := JoinTexts(ClickHouseTexts(row, order));
    JoinEvaluates(ClickHouse, ClickHouseTexts(row, order), env, group, texts);
    BracketsEvaluate(ClickHouse, inner, env, group, Join(texts, ","));
    ArrayReads(texts, js, ",");
  }

  // ----- Objects, in each dialect

  lemma DenotedTree(v: Val, j: Json)
    requires Denotes(Sqlite, v, j)
    ensures AsTree(v) == Some(j)
  {
  }

  lemma SqliteObjectDenotes(pairs: seq<Pair>, env: Env, js: seq<Json>)
    requires PairsEvaluate(Sqlite, pairs, env, [], js)
    requires (|pairs| <= 63 || KeysArePathExpressible(pairs)) && LaterKeysAreNew(pairs)
    ensures Eval(Sqlite, SqliteObject(pairs), env, []) == Some(Val.Tree(Obj(Named(pairs, js))))
  {
    hide Eval, Denotes, AsTree, SqliteObject, LaterKeysAreNew, KeysArePathExpressible;
    ValsOfPairs(Sqlite, pairs, env, [], js);
    var vals := ValsOf(Sqlite, pairs, env, []);
    forall i | 0 <= i < |vals| ensures AsTree(vals[i]) == Some(js[i]) {
      DenotedTree(vals[i], js[i]);
    }
    SqliteObjectIsWholeIff(pairs, env, [], vals, js);
  }

  lemma PostgresObjectDenotes(pairs: seq<Pair>, env: Env, js: seq<Json>)
    requires |js| == |pairs| && PairsEvaluate(Postgres, pairs, env, [], js)
    ensures Evaluates(Postgres, JsonObject(Postgres, pairs), env, [], Obj(Named(pairs, js)))
    ensures IsJson(Eval(Postgres, JsonObject(Postgres, pairs), env, []))
  {
    hide Eval, Reads, PairsEvaluate, ConcatObject;
    if |pairs| <= POSTGRES_JSON_OBJECT_PAIRS {
      NarrowObjectEvaluates(pairs, env, [], js);
    } else {
      ConcatObjectEvaluates(Postgres, pairs, env, [], js);
      var text := ObjectText(FieldsFrom(Postgres, pairs, env, []), ":", ",");
      ReadsParses(text, Obj(Named(pairs, js)));
      AsJsonEvaluates(Postgres, ConcatObject(Postgres, pairs), env, [], text);
    }
  }

  lemma TextObjectDenotes(d: Dialect, pairs: seq<Pair>, env: Env, js: seq<Json>)
    requires (d.MySql? || d.ClickHouse?) && PairsEvaluate(d, pairs, env, [], js)
    ensures Evaluates(d, JsonObject(d, pairs), env, [], Obj(Named(pairs, js)))
    ensures IsJson(Eval(d, JsonObject(d, pairs), env, []))
  {
    hide Eval, Reads, ConcatObject, Lit;
    if pairs == [] {
      EvalLit(d, "{}", env, []);
      ObjectReads([], [], ":", ",");
      assert ObjectText([], ":", ",") == "{}" && Zip([], []) == Named(pairs, js);
    } else {
      ConcatObjectEvaluates(d, pairs, env, [], js);
    }
  }

  lemma ObjectDenotes(d: Dialect, pairs: seq<Pair>, env: Env, js: seq<Json>)
    requires |js| == |pairs| && PairsEvaluate(d, pairs, env, [], js)
    requires d.Sqlite? ==> (|pairs| <= 63 || KeysArePathExpressible(pairs)) && LaterKeysAreNew(pairs)
    ensures Evaluates(d, JsonObject(d, pairs), env, [], Obj(Named(pairs, js)))
    ensures IsJson(Eval(d, JsonObject(d, pairs), env, []))
  {
    hide Eval, Reads, PairsEvaluate, SqliteObject, LaterKeysAreNew, KeysArePathExpressible;
    match d
    case Postgres => PostgresObjectDenotes(pairs, env, js);
    case Sqlite => SqliteObjectDenotes(pairs, env, js);
    case _ => TextObjectDenotes(d, pairs, env, js);
  }

  // ----- Leaves

  lemma LeafDenotes(d: Dialect, column: nat, env: Env)
    requires EnvOk(env)
    ensures Good(d, Leaf(column), env)
  {
    NullReads();
    if column < |env.columns| && env.columns[column].Some? {
      PrintReads(env.columns[column].value);
    }
    hide Reads, Print, Printable, EnvOk;
    var v := if column < |env.columns| && env.columns[column].Some? then Scalar(env.columns[column].value) else Null;
    assert Eval(d, Column(column), env, []) == Some(v);
    if d.MySql? || d.ClickHouse? {
      assert Eval(d, Serialize(Column(column)), env, []) ==
        Some(if v.Null? then Null else Text(Print(v.scalar)));
    }
  }

  // ----- Arrays, in each dialect

  lemma CompositeRows(d: Dialect, row: Tree, rows: seq<Env>)
    requires d.Postgres? || IsComposite(row)
    requires forall env | env in rows :: Good(d, row, env)
    ensures RowsGood(d, Rendered(d, row), rows, RowMeanings(row, rows))
    ensures IsComposite(row) ==> forall env | env in rows :: IsJson(Eval(d, Rendered(d, row), env, []))
  {
    hide Eval, Denotes, Meaning, Rendered;
    RowMeaningsAre(row, rows);
    forall i | 0 <= i < |rows|
      ensures Evaluates(d, Rendered(d, row), rows[i], [], RowMeanings(row, rows)[i])
      ensures d.Postgres? || Eval(d, Rendered(d, row), rows[i], []) != Some(Null)
    {
      assert Good(d, row, rows[i]);
    }
  }

  lemma {:induction false} RowMeaningsAre(row: Tree, rows: seq<Env>)
    ensures forall i | 0 <= i < |rows| :: RowMeanings(row, rows)[i] == Meaning(row, rows[i])
  {
    hide Meaning;
    if rows != [] {
      RowMeaningsAre(row, rows[1..]);
    }
  }

  lemma {:induction false} MeaningPrints(tree: Tree, env: Env)
    requires EnvOk(env)
    ensures Printable(Meaning(tree, env))
    decreases tree, 1
  {
    match tree
    case Leaf(column) => NullReads();
    case NullLeaf => NullReads();
    case Object(fields) => MeaningsPrint(fields, env);
    case List(rows, row, order) =>
      RowsAreOk(rows, env);
      var arranged := Arranged(order, RowsOf(rows, env));
      ArrangedKeeps(order, RowsOf(rows, env));
      RowMeaningsAre(row, arranged);
      hide EnvOk, Arranged, RowsOf;
      forall i | 0 <= i < |arranged| ensures Printable(RowMeanings(row, arranged)[i]) {
        MeaningPrints(row, arranged[i]);
      }
  }

  lemma {:induction false} MeaningsPrint(fields: seq<TreeField>, env: Env)
    requires EnvOk(env)
    ensures forall m | m in Meanings(fields, env) :: Printable(m.value)
    decreases fields, 0
  {
    if fields != [] {
      MeaningPrints(fields[0].tree, env);
      MeaningsPrint(fields[1..], env);
    }
  }

  lemma SqliteComposites(row: Tree, rows: seq<Env>)
    requires IsComposite(row) && forall env | env in rows :: EnvOk(env) && Good(Sqlite, row, env)
    ensures TreeRows(Rendered(Sqlite, row), rows, RowMeanings(row, rows))
  {
    hide Eval, Meaning, Rendered, EnvOk, Printable;
    RowMeaningsAre(row, rows);
    forall i | 0 <= i < |rows|
      ensures Eval(Sqlite, Rendered(Sqlite, row), rows[i], []) == Some(Val.Tree(RowMeanings(row, rows)[i]))
      ensures Printable(RowMeanings(row, rows)[i])
    {
      assert Good(Sqlite, row, rows[i]);
      MeaningPrints(row, rows[i]);
    }
  }

  lemma ListDenotes(d: Dialect, rows: nat, row: Tree, order: Option<nat>, env: Env)
    requires d.Postgres? || IsComposite(row)
    requires forall r | r in RowsOf(rows, env) :: EnvOk(r) && Good(d, row, r)
    ensures Good(d, List(rows, row, order), env)
  {
    var group := RowsOf(rows, env);
    var arranged := Arranged(order, group);
    var e, js := Rendered(d, row), RowMeanings(row, arranged);
    hide Eval, Denotes, Good, RowsGood, JsonArrayAgg, Arranged, RowsOf, EnvOk;
    ArrangedKeeps(order, group);
    if d.Sqlite? {
      SqliteComposites(row, arranged);
      SqliteArray(e, order, env, group, js);
    } else {
      CompositeRows(d, row, arranged);
      RowsAreHandedUp(d, e, arranged, js);
      CompositeRows(d, row, group);
      RowsAreHandedUp(d, e, group, RowMeanings(row, group));
      ArrayDenotes(d, RowValue(e), order, env, group, RowMeanings(row, group), js);
    }
    OverEvaluates(d, rows, JsonArrayAgg(d, RowValue(e), order), env);
    ListIsGood(d, rows, row, order, env, js);
  }

  lemma ArrayDenotes(
    d: Dialect, row: Expr, order: Option<nat>, env: Env, group: seq<Env>, all: seq<Json>, js: seq<Json>)
    requires !d.Sqlite? && RowsGood(d, row, group, all) && RowsGood(d, row, Arranged(order, group), js)
    ensures Evaluates(d, JsonArrayAgg(d, row, order), env, group, Arr(js))
    ensures IsJson(Eval(d, JsonArrayAgg(d, row, order), env, group))
  {
    hide Eval, Denotes, RowsGood, JsonArrayAgg, Arranged;
    match d
    case Postgres => PostgresArray(row, order, env, group, js);
    case MySql => MySqlArray(row, order, env, group, js);
    case ClickHouse => ClickHouseArray(row, order, env, group, all, js);
  }

  lemma OverEvaluates(d: Dialect, rows: nat, aggregate: Expr, env: Env)
    ensures Eval(d, Over(rows, aggregate), env, []) == Eval(d, aggregate, env, RowsOf(rows, env))
  {
  }

  lemma ListIsGood(d: Dialect, rows: nat, row: Tree, order: Option<nat>, env: Env, js: seq<Json>)
    requires js == RowMeanings(row, Arranged(order, RowsOf(rows, env)))
    requires var over := Over(rows, JsonArrayAgg(d, RowValue(Rendered(d, row)), order));
      && Evaluates(d, over, env, [], Arr(js))
      && IsJson(Eval(d, over, env, []))
    ensures Good(d, List(rows, row, order), env)
  {
    hide Eval, Denotes, JsonArrayAgg, Arranged, RowsOf;
  }

  // ----- Trees

  lemma PairsCons(d: Dialect, pair: Pair, pairs: seq<Pair>, env: Env, j: Json, js: seq<Json>)
    requires Evaluates(d, pair.value, env, [], j) && PairsEvaluate(d, pairs, env, [], js)
    ensures PairsEvaluate(d, [pair] + pairs, env, [], [j] + js)
    ensures Named([pair] + pairs, [j] + js) == [Member(pair.key, j)] + Named(pairs, js)
  {
    hide Evaluates;
  }

  lemma MeaningValuesCons(fields: seq<TreeField>, env: Env)
    requires fields != []
    ensures MeaningValues(fields, env) == [Meaning(fields[0].tree, env)] + MeaningValues(fields[1..], env)
  {
    hide Meaning;
  }

  lemma {:induction false} FieldsDenote(d: Dialect, fields: seq<TreeField>, env: Env)
    requires EnvOk(env) && forall f | f in fields :: Supported(d, f.tree)
    ensures PairsEvaluate(d, RenderFields(d, fields), env, [], MeaningValues(fields, env))
    ensures Named(RenderFields(d, fields), MeaningValues(fields, env)) == Meanings(fields, env)
    decreases fields, 0
  {
    if fields != [] {
      hide Eval, Evaluates, Meaning, Rendered, EnvOk, Supported, PairsEvaluate, Named, Denotes;
      var first, rest := fields[0], fields[1..];
      RenderDenotes(d, first.tree, env);
      FieldsDenote(d, rest, env);
      MeaningValuesCons(fields, env);
      PairsCons(d, Pair(first.key, Rendered(d, first.tree)), RenderFields(d, rest), env,
        Meaning(first.tree, env), MeaningValues(rest, env));
    }
  }

  function MeaningValues(fields: seq<TreeField>, env: Env): (r: seq<Json>)
    ensures |r| == |fields|
  {
    seq(|fields|, i requires 0 <= i < |fields| => Meanings(fields, env)[i].value)
  }

  /** Whatever the tree, a dialect that supports it evaluates its rendering to the tree's meaning. */
  lemma {:induction false} RenderDenotes(d: Dialect, tree: Tree, env: Env)
    requires EnvOk(env) && Supported(d, tree)
    ensures Good(d, tree, env)
    decreases tree, 1
  {
    match tree
    case Leaf(column) => LeafDenotes(d, column, env);
    case NullLeaf =>
    case Object(fields) =>
      FieldsDenote(d, fields, env);
      SqliteFieldsFit(d, fields);
      hide Eval, Denotes, PairsEvaluate, EnvOk, Supported, JsonObject, LaterKeysAreNew, KeysArePathExpressible;
      ObjectDenotes(d, RenderFields(d, fields), env, MeaningValues(fields, env));
    case List(rows, row, order) =>
      RowsAreOk(rows, env);
      forall r | r in RowsOf(rows, env) ensures Good(d, row, r) {
        RenderDenotes(d, row, r);
      }
      hide Eval, Denotes, Good, EnvOk;
      ListDenotes(d, rows, row, order, env);
  }

  lemma SqliteFieldsFit(d: Dialect, fields: seq<TreeField>)
    requires Supported(d, Object(fields))
    ensures var pairs := RenderFields(d, fields);
      d.Sqlite? ==> (|pairs| <= 63 || KeysArePathExpressible(pairs)) && LaterKeysAreNew(pairs)
  {
  }

  lemma RowsAreOk(rows: nat, env: Env)
    requires EnvOk(env)
    ensures forall r | r in RowsOf(rows, env) :: EnvOk(r)
  {
    if rows < |env.sets| {
      assert RowsOk(env.sets[rows]);
    }
  }

  // ----- Agreement

  /** The JSON a dialect's answer is read as. */
  function Answer(d: Dialect, tree: Tree, env: Env): Option<Json> {
    match Eval(d, Rendered(d, tree), env, [])
    case Some(JsonText(t)) => Parse(t)
    case Some(Text(t)) => Parse(t)
    case Some(Tree(j)) => Some(j)
    case _ => None
  }

  /** Each dialect answers a supported tree with the tree's own ordered JSON. */
  lemma AnswersItsMeaning(d: Dialect, tree: Tree, env: Env)
    requires EnvOk(env) && Supported(d, tree) && IsComposite(tree)
    ensures Answer(d, tree, env) == Some(Meaning(tree, env))
  {
    RenderDenotes(d, tree, env);
    hide Eval, EnvOk, Supported, Meaning, Rendered;
    var v, j := Eval(d, Rendered(d, tree), env, []).value, Meaning(tree, env);
    if v.JsonText? {
      ReadsParses(v.json, j);
    } else if v.Text? {
      ReadsParses(v.text, j);
    }
  }

  /** The answer is the list of what the row stands for in the rows of `group` at `places`, in that order. */
  ghost predicate ListsRows(answer: Option<Json>, row: Tree, group: seq<Env>, places: seq<nat>) {
    && answer.Some? && answer.value.Arr? && |answer.value.items| == |places|
    && forall i | 0 <= i < |places| ::
         places[i] < |group| && answer.value.items[i] == Meaning(row, group[places[i]])
  }

  /** A list answers with every row once: as they come, or by ascending key with the rows of one key as they come. */
  lemma ListAnswersInOrder(d: Dialect, rows: nat, row: Tree, order: Option<nat>, env: Env)
    requires EnvOk(env) && Supported(d, List(rows, row, order))
    ensures var group := if rows < |env.sets| then env.sets[rows].rows else [];
      var answer := Answer(d, List(rows, row, order), env);
      match order {
        case None => ListsRows(answer, row, group, seq(|group|, i requires 0 <= i < |group| => i))
        case Some(key) =>
          exists places :: IsStableOrder(KeyList(key, group), places) && ListsRows(answer, row, group, places)
      }
  {
    var group := RowsOf(rows, env);
    var tree := List(rows, row, order);
    AnswersItsMeaning(d, tree, env);
    var arranged := Arranged(order, group);
    assert Meaning(tree, env) == Arr(RowMeanings(row, arranged));
    hide Answer, Supported, EnvOk, Meaning, RowMeanings;
    RowMeaningsAre(row, arranged);
    if order.Some? {
      hide Arranged;
      ArrangedStably(order.value, group);
      var places :| IsStableOrder(KeyList(order.value, group), places) && Takes(arranged, group, places);
      assert ListsRows(Answer(d, tree, env), row, group, places);
    }
  }

  /** Whatever the tree, the dialects that support it answer alike, key for key in the same order. */
  lemma DialectsAgree(a: Dialect, b: Dialect, tree: Tree, env: Env)
    requires EnvOk(env) && IsComposite(tree) && Supported(a, tree) && Supported(b, tree)
    ensures Answer(a, tree, env) == Answer(b, tree, env) && Answer(a, tree, env).Some?
  {
    hide Answer, Supported, EnvOk;
    AnswersItsMeaning(a, tree, env);
    AnswersItsMeaning(b, tree, env);
  }

  // ----- When the conditions are met, and what happens when they are not

  /** Pairwise different keys without a quote, such as GraphQL names, always suit SQLite, however many there are. */
  lemma {:induction false} NamesSuitSqlite(fields: seq<TreeField>)
    requires forall i, j | 0 <= i < j < |fields| :: fields[i].key != fields[j].key
    requires forall f | f in fields :: '\"' !in f.key
    ensures SqliteKeysFit(fields)
  {
    RenderedKeys(Sqlite, fields);
  }

  lemma {:induction false} RenderedKeys(d: Dialect, fields: seq<TreeField>)
    ensures forall i | 0 <= i < |fields| :: RenderFields(d, fields)[i].key == fields[i].key
  {
    hide Rendered;
    if fields != [] {
      RenderedKeys(d, fields[1..]);
    }
  }
}
