/** Every dialect's rendering of a selection tree denotes the tree's JSON, keys in selection order. */
module RenderTheorems {
  import opened Wrappers
  import opened Json
  import opened JsonTexts
  import opened Quoting
  import opened Sql
  import opened Render

  // ----- What an evaluated expression denotes in each engine

  ghost predicate Denotes(d: Dialect, v: Val, j: Json) {
    match v
    case Null => j == NULL
    case Scalar(k) => (d.Postgres? || d.Sqlite?) && j == k && Printable(k)
    case JsonText(t) => d.Postgres? && Reads(t, j)
    case Tree(k) => d.Sqlite? && j == k
    case Text(t) => (d.MySql? || d.ClickHouse?) && Reads(t, j)
    case _ => false
  }

  ghost predicate Evaluates(d: Dialect, e: Expr, env: Env, group: seq<Env>, j: Json) {
    var v := Eval(d, e, env, group);
    v.Some? && Denotes(d, v.value, j)
  }

  ghost predicate PairsEvaluate(d: Dialect, pairs: seq<Pair>, env: Env, group: seq<Env>, js: seq<Json>) {
    |js| == |pairs| && forall i | 0 <= i < |pairs| :: Evaluates(d, pairs[i].value, env, group, js[i])
  }

  function Named(pairs: seq<Pair>, js: seq<Json>): (r: seq<Member>)
    requires |js| == |pairs|
    ensures |r| == |pairs|
  {
    seq(|pairs|, i requires 0 <= i < |pairs| => Member(pairs[i].key, js[i]))
  }

  lemma EvalLit(d: Dialect, text: string, env: Env, group: seq<Env>)
    ensures Eval(d, Lit(d, text), env, group) == Some(Text(text))
  {
    ReadInvertsQuote(d, Literal, text, "");
    assert QuoteLiteral(d, text) + "" == QuoteLiteral(d, text);
  }

  lemma NullReads()
    ensures Reads("null", NULL) && Printable(NULL)
  {
    AtomReads("null");
  }

  // ----- Evaluating argument lists

  lemma {:induction false} EvalAllConcat(d: Dialect, a: seq<Expr>, b: seq<Expr>, env: Env, group: seq<Env>)
    ensures EvalAll(d, a + b, env, group) == EvalAll(d, a, env, group) + EvalAll(d, b, env, group)
  {
    hide Eval;
    if a == [] {
      assert a + b == b;
    } else {
      assert (a + b)[1..] == a[1..] + b;
      EvalAllConcat(d, a[1..], b, env, group);
    }
  }

  /** The arguments evaluate to these values, none failing. */
  ghost predicate Yields(d: Dialect, args: seq<Expr>, env: Env, group: seq<Env>, vals: seq<Val>) {
    var r := EvalAll(d, args, env, group);
    AllSome(r) && Values(r) == vals
  }

  lemma YieldsNothing(d: Dialect, env: Env, group: seq<Env>)
    ensures Yields(d, [], env, group, [])
  {
  }

  lemma YieldsOne(d: Dialect, e: Expr, env: Env, group: seq<Env>, v: Val)
    requires Eval(d, e, env, group) == Some(v)
    ensures Yields(d, [e], env, group, [v])
  {
    assert [e][1..] == [];
    assert EvalAll(d, [e], env, group) == [Some(v)];
  }

  lemma YieldsConcat(
    d: Dialect, a: seq<Expr>, b: seq<Expr>, env: Env, group: seq<Env>, va: seq<Val>, vb: seq<Val>)
    requires Yields(d, a, env, group, va) && Yields(d, b, env, group, vb)
    ensures Yields(d, a + b, env, group, va + vb)
  {
    EvalAllConcat(d, a, b, env, group);
    hide EvalAll;
    var ra, rb := EvalAll(d, a, env, group), EvalAll(d, b, env, group);
    assert AllSome(ra + rb);
    assert Values(ra + rb) == Values(ra) + Values(rb);
  }

  lemma YieldsTwo(d: Dialect, e: Expr, f: Expr, env: Env, group: seq<Env>, v: Val, w: Val)
    requires Eval(d, e, env, group) == Some(v) && Eval(d, f, env, group) == Some(w)
    ensures Yields(d, [e, f], env, group, [v, w])
  {
    YieldsOne(d, e, env, group, v);
    YieldsOne(d, f, env, group, w);
    YieldsConcat(d, [e], [f], env, group, [v], [w]);
    hide Yields;
    assert [e] + [f] == [e, f] && [v] + [w] == [v, w];
  }

  // ----- Concatenated objects

  lemma ConcatTextsOne(t: string)
    ensures ConcatTexts([Text(t)]) == Some(t)
  {
    assert [Text(t)][1..] == [] && t + "" == t;
  }

  lemma {:induction false} ConcatTextsConcat(a: seq<Val>, b: seq<Val>)
    requires ConcatTexts(a).Some? && ConcatTexts(b).Some?
    ensures ConcatTexts(a + b) == Some(ConcatTexts(a).value + ConcatTexts(b).value)
  {
    if a == [] {
      assert a + b == b && "" + ConcatTexts(b).value == ConcatTexts(b).value;
    } else {
      assert (a + b)[1..] == a[1..] + b;
      ConcatTextsConcat(a[1..], b);
      var head, middle, tail := a[0].text, ConcatTexts(a[1..]).value, ConcatTexts(b).value;
      assert head + (middle + tail) == head + middle + tail;
    }
  }

  /** The expressions concatenate to this text. */
  ghost predicate Spells(d: Dialect, parts: seq<Expr>, env: Env, group: seq<Env>, text: string) {
    exists vals :: Yields(d, parts, env, group, vals) && ConcatTexts(vals) == Some(text)
  }

  lemma SpellsConcat(d: Dialect, a: seq<Expr>, b: seq<Expr>, env: Env, group: seq<Env>, s: string, t: string)
    requires Spells(d, a, env, group, s) && Spells(d, b, env, group, t)
    ensures Spells(d, a + b, env, group, s + t)
  {
    var va :| Yields(d, a, env, group, va) && ConcatTexts(va) == Some(s);
    var vb :| Yields(d, b, env, group, vb) && ConcatTexts(vb) == Some(t);
    YieldsConcat(d, a, b, env, group, va, vb);
    ConcatTextsConcat(va, vb);
  }

  lemma SpellsOne(d: Dialect, e: Expr, env: Env, group: seq<Env>, text: string)
    requires Eval(d, e, env, group) == Some(Text(text))
    ensures Spells(d, [e], env, group, text)
  {
    YieldsOne(d, e, env, group, Text(text));
    ConcatTextsOne(text);
  }

  lemma {:induction false} TextsHaveNoNull(vals: seq<Val>)
    requires ConcatTexts(vals).Some?
    ensures Null !in vals
  {
    if vals != [] {
      TextsHaveNoNull(vals[1..]);
      assert vals == [vals[0]] + vals[1..];
    }
  }

  lemma SpellsEvaluates(d: Dialect, parts: seq<Expr>, env: Env, group: seq<Env>, text: string)
    requires Spells(d, parts, env, group, text)
    ensures Eval(d, Concat(parts), env, group) == Some(Text(text))
  {
    var vals :| Yields(d, parts, env, group, vals) && ConcatTexts(vals) == Some(text);
    TextsHaveNoNull(vals);
  }

  /** The text a value contributes to a concatenated object. */
  function ValueText(v: Val): string {
    match v
    case Null => "null"
    case Scalar(j) => Print(j)
    case JsonText(t) => t
    case Text(t) => t
    case _ => ""
  }

  lemma ValueTextReads(d: Dialect, v: Val, j: Json)
    requires Denotes(d, v, j) && !d.Sqlite?
    ensures Reads(ValueText(v), j)
  {
    NullReads();
    if v.Scalar? {
      PrintReads(v.scalar);
    }
  }

  lemma CoalesceEvaluates(d: Dialect, first: Expr, second: Expr, env: Env, group: seq<Env>)
    ensures Eval(d, Coalesce(first, second), env, group) ==
      if Eval(d, first, env, group) == Some(Null) then Eval(d, second, env, group) else Eval(d, first, env, group)
  {
  }

  lemma AsTextEvaluates(d: Dialect, arg: Expr, env: Env, group: seq<Env>)
    ensures Eval(d, arg, env, group) == Some(Null) ==> Eval(d, AsText(arg), env, group) == Some(Null)
    ensures forall t :: Eval(d, arg, env, group) in {Some(Text(t)), Some(JsonText(t))} ==>
      Eval(d, AsText(arg), env, group) == Some(Text(t))
  {
  }

  lemma AsJsonEvaluates(d: Dialect, arg: Expr, env: Env, group: seq<Env>, t: string)
    requires Eval(d, arg, env, group) == Some(Text(t)) && Parse(t).Some?
    ensures Eval(d, AsJson(arg), env, group) == Some(JsonText(t))
  {
  }

  lemma ToJsonEvaluates(arg: Expr, env: Env, group: seq<Env>, j: Json)
    requires !arg.NullWord? && Evaluates(Postgres, arg, env, group, j)
    ensures var v := Eval(Postgres, arg, env, group).value;
      Eval(Postgres, ToJson(arg), env, group) == Some(if v.Null? then Null else JsonText(ValueText(v)))
  {
  }

  /** A NULL never swallows the concatenation, and a bare NULL never reaches `to_json`. */
  lemma ValuePartSpells(d: Dialect, value: Expr, env: Env, group: seq<Env>, j: Json)
    requires !d.Sqlite? && Evaluates(d, value, env, group, j)
    ensures Spells(d, [ValuePart(d, value)], env, group, ValueText(Eval(d, value, env, group).value))
  {
    EvalLit(d, "null", env, group);
    var nullText, v := Lit(d, "null"), Eval(d, value, env, group).value;
    if d.ClickHouse? {
      CoalesceEvaluates(d, value, nullText, env, group);
    } else if !value.NullWord? {
      var inner := if d.Postgres? then ToJson(value) else value;
      if d.Postgres? {
        ToJsonEvaluates(value, env, group, j);
      }
      AsTextEvaluates(d, inner, env, group);
      CoalesceEvaluates(d, AsText(inner), nullText, env, group);
    } else if !d.Postgres? {
      AsTextEvaluates(d, value, env, group);
      CoalesceEvaluates(d, AsText(value), nullText, env, group);
    }
    assert v == Eval(d, value, env, group).value;
    assert value.NullWord? ==> v == Null;
    hide Eval, Lit;
    SpellsOne(d, ValuePart(d, value), env, group, ValueText(v));
  }

  function FieldOf(d: Dialect, pair: Pair, env: Env, group: seq<Env>): Field {
    var v := Eval(d, pair.value, env, group);
    Field(pair.key, if v.Some? then ValueText(v.value) else "")
  }

  function FieldsFrom(d: Dialect, pairs: seq<Pair>, env: Env, group: seq<Env>): (r: seq<Field>)
    ensures |r| == |pairs|
  {
    seq(|pairs|, i requires 0 <= i < |pairs| => FieldOf(d, pairs[i], env, group))
  }

  lemma FieldsFromRead(d: Dialect, pairs: seq<Pair>, env: Env, group: seq<Env>, js: seq<Json>)
    requires !d.Sqlite? && PairsEvaluate(d, pairs, env, group, js)
    ensures FieldsRead(FieldsFrom(d, pairs, env, group), js)
    ensures Zip(FieldsFrom(d, pairs, env, group), js) == Named(pairs, js)
  {
    hide Eval, Reads, Denotes;
    forall i | 0 <= i < |pairs| ensures Reads(FieldsFrom(d, pairs, env, group)[i].text, js[i]) {
      assert Evaluates(d, pairs[i].value, env, group, js[i]);
      ValueTextReads(d, Eval(d, pairs[i].value, env, group).value, js[i]);
    }
  }

  /** The text of the pairs, with a comma before each but possibly the first. */
  function PairsText(fields: seq<Field>, first: bool): string {
    if fields == [] then ""
    else (if first then "" else ",") + FieldText(fields[0], ":") + PairsText(fields[1..], false)
  }

  lemma KeyThenValue(field: Field)
    ensures KeyText(field.key) + field.text == FieldText(field, ":")
  {
    hide PrintString;
  }

  lemma KeyAndValueSpell(d: Dialect, pair: Pair, env: Env, group: seq<Env>, j: Json)
    requires !d.Sqlite? && Evaluates(d, pair.value, env, group, j)
    ensures Spells(d, [Lit(d, KeyText(pair.key)), ValuePart(d, pair.value)], env, group,
      FieldText(FieldOf(d, pair, env, group), ":"))
  {
    var field, key := FieldOf(d, pair, env, group), KeyText(pair.key);
    ValuePartSpells(d, pair.value, env, group, j);
    EvalLit(d, key, env, group);
    hide Lit, ValuePart, Spells, Eval, KeyText, FieldText, Evaluates;
    SpellsOne(d, Lit(d, key), env, group, key);
    SpellsConcat(d, [Lit(d, key)], [ValuePart(d, pair.value)], env, group, key, field.text);
    assert [Lit(d, key)] + [ValuePart(d, pair.value)] == [Lit(d, key), ValuePart(d, pair.value)];
    KeyThenValue(field);
  }

  lemma OnePairSpells(d: Dialect, pair: Pair, first: bool, env: Env, group: seq<Env>, j: Json)
    requires !d.Sqlite? && Evaluates(d, pair.value, env, group, j)
    ensures Spells(d,
      (if first then [] else [Lit(d, ",")]) + [Lit(d, KeyText(pair.key)), ValuePart(d, pair.value)], env, group,
      (if first then "" else ",") + FieldText(FieldOf(d, pair, env, group), ":"))
  {
    hide Lit, ValuePart, Spells, Eval, KeyText, FieldText, FieldOf, Evaluates;
    var both := [Lit(d, KeyText(pair.key)), ValuePart(d, pair.value)];
    var text := FieldText(FieldOf(d, pair, env, group), ":");
    KeyAndValueSpell(d, pair, env, group, j);
    EvalLit(d, ",", env, group);
    if first {
      assert [] + both == both && "" + text == text;
    } else {
      SpellsOne(d, Lit(d, ","), env, group, ",");
      SpellsConcat(d, [Lit(d, ",")], both, env, group, ",", text);
    }
  }

  lemma {:induction false} PairPartsSpell(
    d: Dialect, pairs: seq<Pair>, first: bool, env: Env, group: seq<Env>, js: seq<Json>)
    requires !d.Sqlite? && PairsEvaluate(d, pairs, env, group, js)
    ensures Spells(d, PairParts(d, pairs, first), env, group, PairsText(FieldsFrom(d, pairs, env, group), first))
  {
    if pairs == [] {
      NoPartsSpell(d, pairs, first, env, group);
    } else {
      hide Lit, ValuePart, Spells, Eval, FieldText, FieldOf, KeyText, Evaluates, PairParts, PairsText, FieldsFrom;
      OnePairSpells(d, pairs[0], first, env, group, js[0]);
      PairPartsSpell(d, pairs[1..], false, env, group, js[1..]);
      FieldsFromCons(d, pairs, env, group);
      FirstThenOthersSpell(d, pairs, first, env, group, FieldsFrom(d, pairs, env, group));
    }
  }

  lemma NoPartsSpell(d: Dialect, pairs: seq<Pair>, first: bool, env: Env, group: seq<Env>)
    requires pairs == []
    ensures Spells(d, PairParts(d, pairs, first), env, group, PairsText(FieldsFrom(d, pairs, env, group), first))
  {
    YieldsNothing(d, env, group);
    assert ConcatTexts([]) == Some("");
  }

  lemma FieldsFromCons(d: Dialect, pairs: seq<Pair>, env: Env, group: seq<Env>)
    requires pairs != []
    ensures FieldsFrom(d, pairs, env, group)[0] == FieldOf(d, pairs[0], env, group)
    ensures FieldsFrom(d, pairs, env, group)[1..] == FieldsFrom(d, pairs[1..], env, group)
  {
    hide FieldOf;
  }

  lemma FirstThenOthersSpell(
    d: Dialect, pairs: seq<Pair>, first: bool, env: Env, group: seq<Env>, fields: seq<Field>)
    requires |fields| == |pairs| > 0
    requires Spells(d,
      (if first then [] else [Lit(d, ",")]) + [Lit(d, KeyText(pairs[0].key)), ValuePart(d, pairs[0].value)], env, group,
      (if first then "" else ",") + FieldText(fields[0], ":"))
    requires Spells(d, PairParts(d, pairs[1..], false), env, group, PairsText(fields[1..], false))
    ensures Spells(d, PairParts(d, pairs, first), env, group, PairsText(fields, first))
  {
    hide Lit, ValuePart, Spells, FieldText, KeyText;
    var parts := (if first then [] else [Lit(d, ",")]) + [Lit(d, KeyText(pairs[0].key)), ValuePart(d, pairs[0].value)];
    var text := (if first then "" else ",") + FieldText(fields[0], ":");
    SpellsConcat(d, parts, PairParts(d, pairs[1..], false), env, group, text, PairsText(fields[1..], false));
  }

  lemma {:induction false} PairsTextIsJoin(fields: seq<Field>)
    requires fields != []
    ensures PairsText(fields, true) == Join(FieldTexts(fields, ":"), ",")
    ensures PairsText(fields, false) == "," + Join(FieldTexts(fields, ":"), ",")
  {
    hide FieldText;
    if |fields| == 1 {
      assert fields[1..] == [];
    } else {
      PairsTextIsJoin(fields[1..]);
      assert FieldTexts(fields, ":")[1..] == FieldTexts(fields[1..], ":");
    }
  }

  /** The concatenation is the compact object text of the pairs, in order. */
  lemma ConcatObjectEvaluates(d: Dialect, pairs: seq<Pair>, env: Env, group: seq<Env>, js: seq<Json>)
    requires !d.Sqlite? && PairsEvaluate(d, pairs, env, group, js)
    ensures var text := ObjectText(FieldsFrom(d, pairs, env, group), ":", ",");
      Eval(d, ConcatObject(d, pairs), env, group) == Some(Text(text)) && Reads(text, Obj(Named(pairs, js)))
  {
    var fields := FieldsFrom(d, pairs, env, group);
    FieldsFromRead(d, pairs, env, group, js);
    ObjectReads(fields, js, ":", ",");
    PairPartsSpell(d, pairs, true, env, group, js);
    EvalLit(d, "{", env, group);
    EvalLit(d, "}", env, group);
    hide Lit, PairParts, Spells, Eval, PairsEvaluate, Reads;
    if fields != [] {
      PairsTextIsJoin(fields);
    }
    var inner := Join(FieldTexts(fields, ":"), ",");
    assert PairsText(fields, true) == inner;
    SpellsOne(d, Lit(d, "{"), env, group, "{");
    SpellsOne(d, Lit(d, "}"), env, group, "}");
    SpellsConcat(d, [Lit(d, "{")], PairParts(d, pairs, true), env, group, "{", inner);
    SpellsConcat(d, [Lit(d, "{")] + PairParts(d, pairs, true), [Lit(d, "}")], env, group, "{" + inner, "}");
    SpellsEvaluates(d, [Lit(d, "{")] + PairParts(d, pairs, true) + [Lit(d, "}")], env, group, "{" + inner + "}");
  }
}
