/**
 * The SQL expressions the dialects emit, and what the four engines make of them.
 *
 * An evaluation that a real engine would refuse (too many arguments, a bare NULL given to `to_json`, a path that
 * is no path, text that is no JSON) has the result `None`.
 */
module Sql {
  import opened Wrappers
  import opened Json
  import opened JsonTexts
  import opened Quoting

  datatype Expr =
    | LiteralText(source: string)                      // as spelled, quotes and all
    | NullWord                                         // a bare NULL
    | Column(index: nat)
    | Serialize(arg: Expr)                             // the JSON text sqlgen hands to the text dialects
    | Concat(args: seq<Expr>)                          // a || b, CONCAT, concat
    | Coalesce(first: Expr, second: Expr)
    | AsText(arg: Expr)                                // ::text, CAST(x AS CHAR), CAST(x AS String)
    | ToJson(arg: Expr)                                // to_json
    | AsJson(arg: Expr)                                // ::json
    | BuildObject(args: seq<Expr>)                     // json_build_object, json_object
    | Insert(base: Expr, args: seq<Expr>)              // json_insert
    | ReadJson(arg: Expr)                              // json(x)
    | RowValue(arg: Expr)                              // a column of the row set below, e.j
    | EmptyArray                                       // json_array()
    | JsonAgg(row: Expr, order: Option<nat>)           // json_agg, json_group_array
    | GroupConcat(row: Expr, order: Option<nat>)       // GROUP_CONCAT(... SEPARATOR ',')
    | GroupArray(row: Expr)                            // groupArray
    | GroupPairs(key: nat, row: Expr)                  // groupArray((key, row))
    | SortPairs(arg: Expr)                             // arraySort(item -> item.1, ...)
    | SecondOfPairs(arg: Expr)                         // arrayMap(item -> item.2, ...)
    | JoinTexts(arg: Expr)                             // arrayStringConcat(..., ',')
    | Over(rows: nat, aggregate: Expr)                 // the query level an aggregate belongs to

  datatype Val =
    | Null
    | Scalar(scalar: Json)
    | Text(text: string)
    | JsonText(json: string)                           // Postgres json keeps its text
    | Tree(tree: Json)                                 // SQLite's JSON subtype, which no row set hands on
    | Texts(texts: seq<string>)
    | Pairs(pairs: seq<(int, string)>)

  /** One row: its columns, the values of the possible orderings, and the row sets below it. */
  datatype Env = Env(columns: seq<Option<Json>>, keys: seq<int>, sets: seq<RowSet>)

  datatype RowSet = RowSet(rows: seq<Env>)

  function Key(order: nat, env: Env): int { if order < |env.keys| then env.keys[order] else 0 }

  function RowsOf(rows: nat, env: Env): seq<Env> { if rows < |env.sets| then env.sets[rows].rows else [] }

  // ----- Ordering: a stable sort by key

  function InsertSorted<T>(x: (int, T), s: seq<(int, T)>): seq<(int, T)> {
    if s == [] then [x]
    else if x.0 <= s[0].0 then [x] + s
    else [s[0]] + InsertSorted(x, s[1..])
  }

  function Sorted<T>(s: seq<(int, T)>): (r: seq<(int, T)>)
  {
    if s == [] then [] else InsertSorted(s[0], Sorted(s[1..]))
  }

  function Seconds<T>(s: seq<(int, T)>): (r: seq<T>)
    ensures |r| == |s|
  {
    seq(|s|, i requires 0 <= i < |s| => s[i].1)
  }

  function WithKeys(order: nat, group: seq<Env>): (r: seq<(int, Env)>)
    ensures |r| == |group|
  {
    seq(|group|, i requires 0 <= i < |group| => (Key(order, group[i]), group[i]))
  }

  function Arranged(order: Option<nat>, group: seq<Env>): seq<Env> {
    match order
    case None => group
    case Some(key) => Seconds(Sorted(WithKeys(key, group)))
  }

  // ----- Values

  predicate AllSome<T>(s: seq<Option<T>>) { forall i | 0 <= i < |s| :: s[i].Some? }

  function Values<T>(s: seq<Option<T>>): (r: seq<T>)
    requires AllSome(s)
    ensures |r| == |s|
  {
    seq(|s|, i requires 0 <= i < |s| => s[i].value)
  }

  /** What an engine gives a function at most; 100 for Postgres, 127 for SQLite's default build. */
  function MaximumArguments(d: Dialect): nat { if d.Postgres? then 100 else 127 }

  /** The text `json_build_object` and `json_agg` write for a value. */
  function Embedded(v: Val): Option<string> {
    match v
    case Null => Some("null")
    case Scalar(j) => Some(Print(j))
    case JsonText(t) => Some(t)
    case Text(t) => Some(PrintString(t))
    case _ => None
  }

  /** The value SQLite's JSON functions take an argument for. */
  function AsTree(v: Val): Option<Json> {
    match v
    case Null => Some(NULL)
    case Scalar(j) => Some(j)
    case Tree(j) => Some(j)
    case Text(t) => Some(Str(t))
    case _ => None
  }

  /** What `json(x)` reads: the text of a string, or the value any other scalar spells. */
  function AsReadTree(j: Json): Option<Val> {
    if !j.Str? then Some(Tree(j))
    else match Parse(j.text)
      case None => None
      case Some(read) => Some(Tree(read))
  }

  function ConcatTexts(vals: seq<Val>): Option<string> {
    if vals == [] then Some("")
    else if !vals[0].Text? then None
    else match ConcatTexts(vals[1..])
      case None => None
      case Some(rest) => Some(vals[0].text + rest)
  }

  function ConcatVals(vals: seq<Val>): Option<Val> {
    if Null in vals then Some(Null)
    else match ConcatTexts(vals)
      case None => None
      case Some(t) => Some(Text(t))
  }

  /** Keys at even places, values at odd ones, as Postgres writes them. */
  function FieldsOf(vals: seq<Val>): Option<seq<Field>> {
    if vals == [] then Some([])
    else if |vals| == 1 || !vals[0].Text? then None
    else match (Embedded(vals[1]), FieldsOf(vals[2..]))
      case (Some(text), Some(rest)) => Some([Field(vals[0].text, text)] + rest)
      case _ => None
  }

  function MembersOf(vals: seq<Val>): Option<seq<Member>> {
    if vals == [] then Some([])
    else if |vals| == 1 || !vals[0].Text? then None
    else match (AsTree(vals[1]), MembersOf(vals[2..]))
      case (Some(j), Some(rest)) => Some([Member(vals[0].text, j)] + rest)
      case _ => None
  }

  /** The member a path `$."name"` names; SQLite has no escape inside the quotes. */
  function PathKey(path: string): Option<string> {
    if |path| < 4 || path[..3] != "$.\"" || path[|path| - 1] != '\"' then None
    else
      var name := path[3..|path| - 1];
      if '\"' in name then None else Some(name)
  }

  predicate HasKey(members: seq<Member>, key: string) { exists m | m in members :: m.key == key }

  /** `json_insert` adds members that are absent, at the end, and leaves the others as they are. */
  function InsertAll(members: seq<Member>, vals: seq<Val>): Option<seq<Member>>
    decreases |vals|
  {
    if vals == [] then Some(members)
    else if |vals| == 1 || !vals[0].Text? then None
    else match (PathKey(vals[0].text), AsTree(vals[1]))
      case (Some(key), Some(j)) =>
        InsertAll(if HasKey(members, key) then members else members + [Member(key, j)], vals[2..])
      case _ => None
  }

  function BuildObjectVals(d: Dialect, vals: seq<Val>): Option<Val> {
    if |vals| > MaximumArguments(d) then None
    else if d.Postgres? then
      match FieldsOf(vals)
      case None => None
      case Some(fields) => Some(JsonText(ObjectText(fields, " : ", ", ")))
    else if d.Sqlite? then
      match MembersOf(vals)
      case None => None
      case Some(members) => Some(Tree(Obj(members)))
    else None
  }

  function InsertVals(d: Dialect, base: Val, vals: seq<Val>): Option<Val> {
    if !d.Sqlite? || 1 + |vals| > MaximumArguments(d) || !base.Tree? || !base.tree.Obj? then None
    else match InsertAll(base.tree.members, vals)
      case None => None
      case Some(members) => Some(Tree(Obj(members)))
  }

  function EmbeddedAll(vals: seq<Val>): seq<Option<string>> {
    seq(|vals|, i requires 0 <= i < |vals| => Embedded(vals[i]))
  }

  function TreesAll(vals: seq<Val>): seq<Option<Json>> {
    seq(|vals|, i requires 0 <= i < |vals| => AsTree(vals[i]))
  }

  /** `json_agg` keeps NULLs and is NULL over no rows; `json_group_array` is an empty array then. */
  function JsonAggVals(d: Dialect, vals: seq<Val>): Option<Val> {
    if d.Postgres? then
      if vals == [] then Some(Null)
      else if AllSome(EmbeddedAll(vals)) then Some(JsonText(ArrayText(Values(EmbeddedAll(vals)), ", ")))
      else None
    else if d.Sqlite? && AllSome(TreesAll(vals)) then Some(Tree(Arr(Values(TreesAll(vals)))))
    else None
  }

  /** The texts among the values; the aggregates of MySQL and ClickHouse skip NULLs. */
  function PresentTexts(vals: seq<Val>): Option<seq<string>> {
    if vals == [] then Some([])
    else match PresentTexts(vals[1..])
      case None => None
      case Some(rest) =>
        if vals[0].Null? then Some(rest) else if vals[0].Text? then Some([vals[0].text] + rest) else None
  }

  function GroupConcatVals(vals: seq<Val>): Option<Val> {
    match PresentTexts(vals)
    case None => None
    case Some(texts) => if texts == [] then Some(Null) else Some(Text(Join(texts, ",")))
  }

  predicate AllTexts(vals: seq<Val>) { forall i | 0 <= i < |vals| :: vals[i].Text? }

  function KeyedTexts(key: nat, group: seq<Env>, vals: seq<Val>): (r: seq<(int, string)>)
    requires |group| == |vals| && AllTexts(vals)
    ensures |r| == |vals|
  {
    seq(|vals|, i requires 0 <= i < |vals| => (Key(key, group[i]), vals[i].text))
  }

  /** A pair with a NULL second component is outside this model. */
  function PairVals(key: nat, group: seq<Env>, vals: seq<Val>): Option<Val>
    requires |group| == |vals|
  {
    if AllTexts(vals) then Some(Pairs(KeyedTexts(key, group, vals))) else None
  }

  // ----- Evaluation

  function EvalAll(d: Dialect, args: seq<Expr>, env: Env, group: seq<Env>): (r: seq<Option<Val>>)
    ensures |r| == |args|
    decreases args, 0
  {
    if args == [] then [] else [Eval(d, args[0], env, group)] + EvalAll(d, args[1..], env, group)
  }

  /** A row expression on each row of a group; rows bring their own row sets. */
  function EvalRows(d: Dialect, row: Expr, group: seq<Env>): (r: seq<Option<Val>>)
    ensures |r| == |group|
    decreases row, 1, |group|
  {
    if group == [] then [] else [Eval(d, row, group[0], [])] + EvalRows(d, row, group[1..])
  }

  function Eval(d: Dialect, e: Expr, env: Env, group: seq<Env>): Option<Val>
    decreases e, 0
  {
    match e
    case LiteralText(source) =>
      var r := Read(d, Literal, source);
      if r.Some? && r.value.1 == "" then Some(Text(r.value.0)) else None
    case NullWord => Some(Null)
    case Column(index) =>
      if index < |env.columns| && env.columns[index].Some? then Some(Scalar(env.columns[index].value)) else Some(Null)
    case Serialize(arg) =>
      (match Eval(d, arg, env, group)
       case Some(Null) => Some(Null)
       case Some(Scalar(j)) => Some(Text(Print(j)))
       case _ => None)
    case Concat(args) =>
      var vals := EvalAll(d, args, env, group);
      if AllSome(vals) then ConcatVals(Values(vals)) else None
    case Coalesce(first, second) =>
      (match Eval(d, first, env, group)
       case Some(Null) => Eval(d, second, env, group)
       case other => other)
    case AsText(arg) =>
      (match Eval(d, arg, env, group)
       case Some(Null) => Some(Null)
       case Some(Text(t)) => Some(Text(t))
       case Some(JsonText(t)) => Some(Text(t))
       case _ => None)
    case ToJson(arg) =>
      if arg.NullWord? then None
      else
        (match Eval(d, arg, env, group)
         case Some(Null) => Some(Null)
         case Some(Scalar(j)) => Some(JsonText(Print(j)))
         case Some(JsonText(t)) => Some(JsonText(t))
         case Some(Text(t)) => Some(JsonText(PrintString(t)))
         case _ => None)
    case AsJson(arg) =>
      (match Eval(d, arg, env, group)
       case Some(Null) => Some(Null)
       case Some(Text(t)) => if Parse(t).Some? then Some(JsonText(t)) else None
       case _ => None)
    case BuildObject(args) =>
      var vals := EvalAll(d, args, env, group);
      if AllSome(vals) then BuildObjectVals(d, Values(vals)) else None
    case Insert(base, args) =>
      var vals := EvalAll(d, args, env, group);
      (match Eval(d, base, env, group)
       case None => None
       case Some(b) => if AllSome(vals) then InsertVals(d, b, Values(vals)) else None)
    case ReadJson(arg) =>
      (match Eval(d, arg, env, group)
       case Some(Null) => Some(Null)
       case Some(Tree(j)) => Some(Tree(j))
       case Some(Text(t)) => AsReadTree(Str(t))
       case Some(Scalar(j)) => AsReadTree(j)
       case _ => None)
    case RowValue(arg) =>
      (match Eval(d, arg, env, group)
       case Some(Tree(j)) => Some(Text(Print(j)))
       case other => other)
    case EmptyArray => Some(Tree(Arr([])))
    case JsonAgg(row, order) =>
      var vals := EvalRows(d, row, Arranged(order, group));
      if AllSome(vals) then JsonAggVals(d, Values(vals)) else None
    case GroupConcat(row, order) =>
      var vals := EvalRows(d, row, Arranged(order, group));
      if AllSome(vals) then GroupConcatVals(Values(vals)) else None
    case GroupArray(row) =>
      var vals := EvalRows(d, row, group);
      if !AllSome(vals) then None
      else
        (match PresentTexts(Values(vals))
         case None => None
         case Some(texts) => Some(Texts(texts)))
    case GroupPairs(key, row) =>
      var vals := EvalRows(d, row, group);
      if AllSome(vals) then PairVals(key, group, Values(vals)) else None
    case SortPairs(arg) =>
      (match Eval(d, arg, env, group)
       case Some(Pairs(pairs)) => Some(Pairs(Sorted(pairs)))
       case _ => None)
    case SecondOfPairs(arg) =>
      (match Eval(d, arg, env, group)
       case Some(Pairs(pairs)) => Some(Texts(Seconds(pairs)))
       case _ => None)
    case JoinTexts(arg) =>
      (match Eval(d, arg, env, group)
       case Some(Texts(texts)) => Some(Text(Join(texts, ",")))
       case _ => None)
    case Over(rows, aggregate) => Eval(d, aggregate, env, RowsOf(rows, env))
  }
}
