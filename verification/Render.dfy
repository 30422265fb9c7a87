/** How each dialect assembles JSON objects and arrays: the leaf operations, and trees rendered through them. */
module Render {
  import opened Wrappers
  import opened Json
  import opened Quoting
  import opened Sql

  const POSTGRES_JSON_OBJECT_PAIRS: nat := 50
  const SQLITE_JSON_OBJECT_PAIRS: nat := 50

  datatype Pair = Pair(key: string, value: Expr)

  function Lit(d: Dialect, text: string): Expr { LiteralText(QuoteLiteral(d, text)) }

  /** The key as JSON, with its colon. */
  function KeyText(key: string): string { PrintString(key) + ":" }

  // ----- Concatenated objects

  function ValuePart(d: Dialect, value: Expr): Expr {
    match d
    case Postgres =>
      if value.NullWord? then Lit(d, "null") else Coalesce(AsText(ToJson(value)), Lit(d, "null"))
    case ClickHouse => Coalesce(value, Lit(d, "null"))
    case _ => Coalesce(AsText(value), Lit(d, "null"))
  }

  /** The parts between the braces; every pair but the first is preceded by a comma. */
  function PairParts(d: Dialect, pairs: seq<Pair>, first: bool): seq<Expr> {
    if pairs == [] then []
    else
      (if first then [] else [Lit(d, ",")]) +
      [Lit(d, KeyText(pairs[0].key)), ValuePart(d, pairs[0].value)] +
      PairParts(d, pairs[1..], false)
  }

  function ConcatObject(d: Dialect, pairs: seq<Pair>): Expr {
    Concat([Lit(d, "{")] + PairParts(d, pairs, true) + [Lit(d, "}")])
  }

  lemma {:induction false} PairPartsAppend(d: Dialect, pairs: seq<Pair>, last: Pair, first: bool)
    ensures PairParts(d, pairs + [last], first) ==
      PairParts(d, pairs, first) + (if first && pairs == [] then [] else [Lit(d, ",")]) +
      [Lit(d, KeyText(last.key)), ValuePart(d, last.value)]
  {
    hide Lit, KeyText, ValuePart;
    if pairs == [] {
      assert (pairs + [last])[1..] == [];
    } else {
      assert (pairs + [last])[1..] == pairs[1..] + [last];
      PairPartsAppend(d, pairs[1..], last, false);
    }
  }

  /** The loop shared by the wide Postgres object and the MySQL and ClickHouse objects. */
  method ConcatParts(d: Dialect, pairs: seq<Pair>) returns (sql: Expr)
    ensures sql == ConcatObject(d, pairs)
  {
    hide Lit, KeyText, ValuePart;
    var open := [Lit(d, "{")];
    var parts := open;
    for index := 0 to |pairs|
      invariant parts == open + PairParts(d, pairs[..index], true)
    {
      ghost var done := PairParts(d, pairs[..index], true);
      PairPartsAppend(d, pairs[..index], pairs[index], true);
      assert pairs[..index + 1] == pairs[..index] + [pairs[index]];
      ghost var separator := if index == 0 then [] else [Lit(d, ",")];
      if index > 0 {
        parts := parts + [Lit(d, ",")];
      }
      assert parts == open + (done + separator);
      parts := parts + [Lit(d, KeyText(pairs[index].key))];
      parts := parts + [ValuePart(d, pairs[index].value)];
      assert parts == open + (done + separator + [Lit(d, KeyText(pairs[index].key)), ValuePart(d, pairs[index].value)]);
    }
    assert pairs[..|pairs|] == pairs;
    sql := Concat(parts + [Lit(d, "}")]);
  }

  // ----- Builtin objects

  function Interleaved(d: Dialect, pairs: seq<Pair>): seq<Expr> {
    if pairs == [] then [] else [Lit(d, pairs[0].key), pairs[0].value] + Interleaved(d, pairs[1..])
  }

  function JsonPathLiteral(key: string): Expr { Lit(Sqlite, "$.\"" + key + "\"") }

  function PathArguments(pairs: seq<Pair>): seq<Expr> {
    if pairs == [] then [] else [JsonPathLiteral(pairs[0].key), pairs[0].value] + PathArguments(pairs[1..])
  }

  predicate KeysArePathExpressible(pairs: seq<Pair>) { forall p | p in pairs :: '\"' !in p.key }

  /** The rest of a wide SQLite object, one `json_insert` around another for each chunk. */
  function Chunked(sql: Expr, rest: seq<Pair>): Expr
    decreases |rest|
  {
    if rest == [] then sql
    else if |rest| <= SQLITE_JSON_OBJECT_PAIRS then Insert(sql, PathArguments(rest))
    else Chunked(Insert(sql, PathArguments(rest[..SQLITE_JSON_OBJECT_PAIRS])), rest[SQLITE_JSON_OBJECT_PAIRS..])
  }

  predicate IsChunked(pairs: seq<Pair>) {
    |pairs| > SQLITE_JSON_OBJECT_PAIRS && KeysArePathExpressible(pairs)
  }

  function SqliteObject(pairs: seq<Pair>): Expr {
    var split := if IsChunked(pairs) then SQLITE_JSON_OBJECT_PAIRS else |pairs|;
    Chunked(BuildObject(Interleaved(Sqlite, pairs[..split])), pairs[split..])
  }

  method SqliteJsonObject(pairs: seq<Pair>) returns (sql: Expr)
    ensures sql == SqliteObject(pairs)
  {
    var split := if IsChunked(pairs) then SQLITE_JSON_OBJECT_PAIRS else |pairs|;
    var rest := pairs[split..];
    sql := BuildObject(Interleaved(Sqlite, pairs[..split]));
    while rest != []
      invariant Chunked(sql, rest) == SqliteObject(pairs)
      decreases |rest|
    {
      var size := if |rest| < SQLITE_JSON_OBJECT_PAIRS then |rest| else SQLITE_JSON_OBJECT_PAIRS;
      assert rest[..|rest|] == rest;
      sql := Insert(sql, PathArguments(rest[..size]));
      rest := rest[size..];
    }
  }

  function JsonObject(d: Dialect, pairs: seq<Pair>): Expr {
    match d
    case Postgres =>
      if |pairs| > POSTGRES_JSON_OBJECT_PAIRS then AsJson(ConcatObject(d, pairs))
      else BuildObject(Interleaved(d, pairs))
    case Sqlite => SqliteObject(pairs)
    case _ => if pairs == [] then Lit(d, "{}") else ConcatObject(d, pairs)
  }

  function JsonArrayAgg(d: Dialect, row: Expr, order: Option<nat>): Expr {
    match d
    case Postgres => Coalesce(JsonAgg(row, order), AsJson(Lit(d, "[]")))
    case Sqlite => Coalesce(JsonAgg(ReadJson(row), order), EmptyArray)
    case MySql =>
      Concat([Lit(d, "["), Coalesce(GroupConcat(AsText(row), order), Lit(d, "")), Lit(d, "]")])
    case ClickHouse =>
      var texts := match order
        case None => GroupArray(AsText(row))
        case Some(key) => SecondOfPairs(SortPairs(GroupPairs(key, AsText(row))));
      Concat([Lit(d, "["), JoinTexts(texts), Lit(d, "]")])
  }

  // ----- Selection trees

  datatype Tree =
    | Leaf(column: nat)
    | NullLeaf
    | Object(fields: seq<TreeField>)
    | List(rows: nat, row: Tree, order: Option<nat>)

  datatype TreeField = TreeField(key: string, tree: Tree)

  function RenderFields(d: Dialect, fields: seq<TreeField>): (r: seq<Pair>)
    ensures |r| == |fields|
    decreases fields, 0
  {
    if fields == [] then [] else [Pair(fields[0].key, Rendered(d, fields[0].tree))] + RenderFields(d, fields[1..])
  }

  /** The text dialects are given already serialized leaves; a list aggregates what the row set below it hands up. */
  function Rendered(d: Dialect, tree: Tree): Expr
    decreases tree, 0
  {
    match tree
    case Leaf(column) => if d.MySql? || d.ClickHouse? then Serialize(Column(column)) else Column(column)
    case NullLeaf => NullWord
    case Object(fields) => JsonObject(d, RenderFields(d, fields))
    case List(rows, row, order) => Over(rows, JsonArrayAgg(d, RowValue(Rendered(d, row)), order))
  }

  /** What a tree stands for, in no dialect. */
  function Meanings(fields: seq<TreeField>, env: Env): (r: seq<Member>)
    ensures |r| == |fields|
    decreases fields, 0
  {
    if fields == [] then [] else [Member(fields[0].key, Meaning(fields[0].tree, env))] + Meanings(fields[1..], env)
  }

  function RowMeanings(row: Tree, group: seq<Env>): (r: seq<Json>)
    ensures |r| == |group|
    decreases row, 1, |group|
  {
    if group == [] then [] else [Meaning(row, group[0])] + RowMeanings(row, group[1..])
  }

  function Meaning(tree: Tree, env: Env): Json
    decreases tree, 0
  {
    match tree
    case Leaf(column) =>
      if column < |env.columns| && env.columns[column].Some? then env.columns[column].value else NULL
    case NullLeaf => NULL
    case Object(fields) => Obj(Meanings(fields, env))
    case List(rows, row, order) => Arr(RowMeanings(row, Arranged(order, RowsOf(rows, env))))
  }
}
