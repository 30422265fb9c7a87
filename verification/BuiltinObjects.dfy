/** Objects built by functions: `json_build_object`, `json_object` and SQLite's chained `json_insert`. */
module BuiltinObjects {
  import opened Wrappers
  import opened Json
  import opened JsonTexts
  import opened Quoting
  import opened Sql
  import opened Render
  import opened RenderTheorems

  // ----- Argument lists

  function KeyedVals(pairs: seq<Pair>, vals: seq<Val>): (r: seq<Val>)
    requires |pairs| == |vals|
    ensures |r| == 2 * |pairs|
  {
    if pairs == [] then [] else [Text(pairs[0].key), vals[0]] + KeyedVals(pairs[1..], vals[1..])
  }

  function PathVals(pairs: seq<Pair>, vals: seq<Val>): (r: seq<Val>)
    requires |pairs| == |vals|
    ensures |r| == 2 * |pairs|
  {
    if pairs == [] then [] else [Text("$.\"" + pairs[0].key + "\""), vals[0]] + PathVals(pairs[1..], vals[1..])
  }

  ghost predicate PairsYield(d: Dialect, pairs: seq<Pair>, env: Env, group: seq<Env>, vals: seq<Val>) {
    |vals| == |pairs| && forall i | 0 <= i < |pairs| :: Eval(d, pairs[i].value, env, group) == Some(vals[i])
  }

  lemma {:induction false} InterleavedYields(d: Dialect, pairs: seq<Pair>, env: Env, group: seq<Env>, vals: seq<Val>)
    requires PairsYield(d, pairs, env, group, vals)
    ensures Yields(d, Interleaved(d, pairs), env, group, KeyedVals(pairs, vals))
  {
    hide Eval, Yields, Lit;
    if pairs == [] {
      YieldsNothing(d, env, group);
    } else {
      EvalLit(d, pairs[0].key, env, group);
      YieldsTwo(d, Lit(d, pairs[0].key), pairs[0].value, env, group, Text(pairs[0].key), vals[0]);
      InterleavedYields(d, pairs[1..], env, group, vals[1..]);
      YieldsConcat(d, [Lit(d, pairs[0].key), pairs[0].value], Interleaved(d, pairs[1..]), env, group,
        [Text(pairs[0].key), vals[0]], KeyedVals(pairs[1..], vals[1..]));
    }
  }

  lemma {:induction false} PathsYield(pairs: seq<Pair>, env: Env, group: seq<Env>, vals: seq<Val>)
    requires PairsYield(Sqlite, pairs, env, group, vals)
    ensures Yields(Sqlite, PathArguments(pairs), env, group, PathVals(pairs, vals))
  {
    hide Eval, Yields, Lit;
    if pairs == [] {
      YieldsNothing(Sqlite, env, group);
    } else {
      var path := "$.\"" + pairs[0].key + "\"";
      EvalLit(Sqlite, path, env, group);
      YieldsTwo(Sqlite, JsonPathLiteral(pairs[0].key), pairs[0].value, env, group, Text(path), vals[0]);
      PathsYield(pairs[1..], env, group, vals[1..]);
      YieldsConcat(Sqlite, [JsonPathLiteral(pairs[0].key), pairs[0].value], PathArguments(pairs[1..]), env, group,
        [Text(path), vals[0]], PathVals(pairs[1..], vals[1..]));
    }
  }

  lemma YieldsBuildsObject(d: Dialect, args: seq<Expr>, env: Env, group: seq<Env>, vals: seq<Val>)
    requires Yields(d, args, env, group, vals)
    ensures Eval(d, BuildObject(args), env, group) == BuildObjectVals(d, vals)
  {
  }

  lemma YieldsInserts(base: Expr, args: seq<Expr>, env: Env, group: seq<Env>, b: Val, vals: seq<Val>)
    requires Yields(Sqlite, args, env, group, vals) && Eval(Sqlite, base, env, group) == Some(b)
    ensures Eval(Sqlite, Insert(base, args), env, group) == InsertVals(Sqlite, b, vals)
  {
  }

  // ----- The narrow Postgres object

  function EmbeddedFields(pairs: seq<Pair>, vals: seq<Val>): (r: seq<Field>)
    requires |pairs| == |vals|
    ensures |r| == |pairs|
  {
    seq(|pairs|, i requires 0 <= i < |pairs| => Field(pairs[i].key, ValueText(vals[i])))
  }

  lemma {:induction false} FieldsOfKeyed(pairs: seq<Pair>, vals: seq<Val>, js: seq<Json>)
    requires |pairs| == |vals| == |js| && forall i | 0 <= i < |vals| :: Denotes(Postgres, vals[i], js[i])
    ensures FieldsOf(KeyedVals(pairs, vals)) == Some(EmbeddedFields(pairs, vals))
  {
    if pairs != [] {
      hide Reads;
      var all := KeyedVals(pairs, vals);
      assert all[0] == Text(pairs[0].key) && all[1] == vals[0] && all[2..] == KeyedVals(pairs[1..], vals[1..]);
      FieldsOfKeyed(pairs[1..], vals[1..], js[1..]);
      assert Denotes(Postgres, vals[0], js[0]);
      assert EmbeddedFields(pairs, vals) ==
        [Field(pairs[0].key, ValueText(vals[0]))] + EmbeddedFields(pairs[1..], vals[1..]);
    }
  }

  function ValsOf(d: Dialect, pairs: seq<Pair>, env: Env, group: seq<Env>): (r: seq<Val>)
    requires forall i | 0 <= i < |pairs| :: Eval(d, pairs[i].value, env, group).Some?
    ensures |r| == |pairs|
  {
    seq(|pairs|, i requires 0 <= i < |pairs| => Eval(d, pairs[i].value, env, group).value)
  }

  lemma ValsOfPairs(d: Dialect, pairs: seq<Pair>, env: Env, group: seq<Env>, js: seq<Json>)
    requires PairsEvaluate(d, pairs, env, group, js)
    ensures forall i | 0 <= i < |pairs| :: Eval(d, pairs[i].value, env, group).Some?
    ensures PairsYield(d, pairs, env, group, ValsOf(d, pairs, env, group))
    ensures forall i | 0 <= i < |pairs| :: Denotes(d, ValsOf(d, pairs, env, group)[i], js[i])
  {
    hide Eval, Denotes;
    forall i | 0 <= i < |pairs|
      ensures Eval(d, pairs[i].value, env, group).Some? && Denotes(d, Eval(d, pairs[i].value, env, group).value, js[i])
    {
      assert Evaluates(d, pairs[i].value, env, group, js[i]);
    }
  }

  lemma NarrowObjectEvaluates(pairs: seq<Pair>, env: Env, group: seq<Env>, js: seq<Json>)
    requires |pairs| <= POSTGRES_JSON_OBJECT_PAIRS && PairsEvaluate(Postgres, pairs, env, group, js)
    ensures var v := Eval(Postgres, BuildObject(Interleaved(Postgres, pairs)), env, group);
      v.Some? && v.value.JsonText? && Reads(v.value.json, Obj(Named(pairs, js)))
  {
    ValsOfPairs(Postgres, pairs, env, group, js);
    var vals := ValsOf(Postgres, pairs, env, group);
    InterleavedYields(Postgres, pairs, env, group, vals);
    YieldsBuildsObject(Postgres, Interleaved(Postgres, pairs), env, group, KeyedVals(pairs, vals));
    FieldsOfKeyed(pairs, vals, js);
    var fields := EmbeddedFields(pairs, vals);
    hide Eval, Reads, Denotes, Yields, PairsEvaluate;
    forall i | 0 <= i < |pairs| ensures Reads(fields[i].text, js[i]) {
      ValueTextReads(Postgres, vals[i], js[i]);
    }
    ObjectReads(fields, js, " : ", ", ");
    assert Zip(fields, js) == Named(pairs, js);
  }

  // ----- SQLite

  lemma {:induction false} MembersOfKeyed(pairs: seq<Pair>, vals: seq<Val>, js: seq<Json>)
    requires |pairs| == |vals| == |js| && forall i | 0 <= i < |vals| :: AsTree(vals[i]) == Some(js[i])
    ensures MembersOf(KeyedVals(pairs, vals)) == Some(Named(pairs, js))
  {
    hide AsTree;
    if pairs != [] {
      var all := KeyedVals(pairs, vals);
      assert all[0] == Text(pairs[0].key) && all[1] == vals[0] && all[2..] == KeyedVals(pairs[1..], vals[1..]);
      MembersOfKeyed(pairs[1..], vals[1..], js[1..]);
      assert Named(pairs, js) == [Member(pairs[0].key, js[0])] + Named(pairs[1..], js[1..]);
    }
  }

  /** What inserting does to an object: absent members are added in order, present ones ignored. */
  function Extended(members: seq<Member>, more: seq<Member>): seq<Member>
    decreases |more|
  {
    if more == [] then members
    else Extended(if HasKey(members, more[0].key) then members else members + [more[0]], more[1..])
  }

  lemma PathKeyOf(key: string)
    requires '\"' !in key
    ensures PathKey("$.\"" + key + "\"") == Some(key)
  {
    var path := "$.\"" + key + "\"";
    assert path[..3] == "$.\"" && path[3..|path| - 1] == key;
  }

  lemma {:induction false} InsertsExtend(members: seq<Member>, pairs: seq<Pair>, vals: seq<Val>, js: seq<Json>)
    requires |pairs| == |vals| == |js| && forall i | 0 <= i < |vals| :: AsTree(vals[i]) == Some(js[i])
    requires KeysArePathExpressible(pairs)
    ensures InsertAll(members, PathVals(pairs, vals)) == Some(Extended(members, Named(pairs, js)))
    decreases |pairs|
  {
    hide AsTree, PathKey, HasKey;
    if pairs != [] {
      var all := PathVals(pairs, vals);
      var head := Member(pairs[0].key, js[0]);
      assert all[0] == Text("$.\"" + pairs[0].key + "\"") && all[1] == vals[0];
      assert all[2..] == PathVals(pairs[1..], vals[1..]);
      assert pairs[0] in pairs && forall p | p in pairs[1..] :: p in pairs;
      PathKeyOf(pairs[0].key);
      InsertsExtend(if HasKey(members, head.key) then members else members + [head], pairs[1..], vals[1..], js[1..]);
      assert Named(pairs, js) == [head] + Named(pairs[1..], js[1..]);
    }
  }

  lemma {:induction false} ExtendedTwice(members: seq<Member>, more: seq<Member>, last: seq<Member>)
    ensures Extended(Extended(members, more), last) == Extended(members, more + last)
    decreases |more|
  {
    if more == [] {
      assert more + last == last;
    } else {
      assert (more + last)[1..] == more[1..] + last;
      ExtendedTwice(if HasKey(members, more[0].key) then members else members + [more[0]], more[1..], last);
    }
  }

  /** No key of the added members repeats one before it. */
  ghost predicate AddsOnlyNew(members: seq<Member>, more: seq<Member>) {
    forall i | 0 <= i < |more| :: !HasKey(members + more[..i], more[i].key)
  }

  /** Inserting never shortens, and appends everything exactly when every key is new. */
  lemma {:induction false} ExtendedIsConcatIffNew(members: seq<Member>, more: seq<Member>)
    ensures |Extended(members, more)| <= |members| + |more|
    ensures Extended(members, more) == members + more <==> AddsOnlyNew(members, more)
    decreases |more|
  {
    if more == [] {
      assert members + more == members;
    } else {
      var head, tail := more[0], more[1..];
      assert more[..0] == [] && members + [] == members;
      if HasKey(members, head.key) {
        ExtendedIsConcatIffNew(members, tail);
      } else {
        ExtendedIsConcatIffNew(members + [head], tail);
        assert members + more == members + [head] + tail;
        NewAfterHead(members, head, tail);
      }
    }
  }

  lemma NewAfterHead(members: seq<Member>, head: Member, tail: seq<Member>)
    requires !HasKey(members, head.key)
    ensures AddsOnlyNew(members + [head], tail) <==> AddsOnlyNew(members, [head] + tail)
  {
    hide HasKey;
    var more := [head] + tail;
    forall i | 0 <= i < |tail| ensures members + more[..i + 1] == members + [head] + tail[..i] {
    }
    assert members + more[..0] == members;
    if AddsOnlyNew(members, more) {
      forall i | 0 <= i < |tail| ensures !HasKey(members + [head] + tail[..i], tail[i].key) {
        assert more[i + 1] == tail[i];
        assert !HasKey(members + more[..i + 1], more[i + 1].key);
      }
    }
    if AddsOnlyNew(members + [head], tail) {
      forall i | 0 <= i < |more| ensures !HasKey(members + more[..i], more[i].key) {
        if i > 0 {
          assert more[i] == tail[i - 1];
          assert !HasKey(members + [head] + tail[..i - 1], tail[i - 1].key);
        }
      }
    }
  }

  /** The SQLite object of some pairs, with values in hand. */
  ghost predicate SqlitePairs(pairs: seq<Pair>, env: Env, group: seq<Env>, vals: seq<Val>, js: seq<Json>) {
    && PairsYield(Sqlite, pairs, env, group, vals)
    && |js| == |pairs|
    && forall i | 0 <= i < |vals| :: AsTree(vals[i]) == Some(js[i])
  }

  lemma InsertEvaluates(
    sql: Expr, members: seq<Member>, chunk: seq<Pair>, env: Env, group: seq<Env>, vals: seq<Val>, js: seq<Json>)
    requires Eval(Sqlite, sql, env, group) == Some(Tree(Obj(members)))
    requires SqlitePairs(chunk, env, group, vals, js) && KeysArePathExpressible(chunk)
    requires |chunk| <= SQLITE_JSON_OBJECT_PAIRS
    ensures Eval(Sqlite, Insert(sql, PathArguments(chunk)), env, group)
         == Some(Tree(Obj(Extended(members, Named(chunk, js)))))
  {
    hide Eval, AsTree, HasKey, PathKey, Yields;
    PathsYield(chunk, env, group, vals);
    YieldsInserts(sql, PathArguments(chunk), env, group, Tree(Obj(members)), PathVals(chunk, vals));
    InsertsExtend(members, chunk, vals, js);
  }

  lemma PartOfPairs(
    pairs: seq<Pair>, env: Env, group: seq<Env>, vals: seq<Val>, js: seq<Json>, from: nat, to: nat)
    requires SqlitePairs(pairs, env, group, vals, js) && from <= to <= |pairs|
    ensures SqlitePairs(pairs[from..to], env, group, vals[from..to], js[from..to])
    ensures KeysArePathExpressible(pairs) ==> KeysArePathExpressible(pairs[from..to])
  {
    hide Eval, AsTree;
    assert forall p | p in pairs[from..to] :: p in pairs;
  }

  lemma {:induction false} ChunkedEvaluates(
    sql: Expr, members: seq<Member>, rest: seq<Pair>, env: Env, group: seq<Env>, vals: seq<Val>, js: seq<Json>)
    requires Eval(Sqlite, sql, env, group) == Some(Tree(Obj(members)))
    requires SqlitePairs(rest, env, group, vals, js) && KeysArePathExpressible(rest)
    ensures Eval(Sqlite, Chunked(sql, rest), env, group) == Some(Tree(Obj(Extended(members, Named(rest, js)))))
    decreases |rest|
  {
    hide Eval, AsTree, HasKey, PathKey, KeysArePathExpressible, PathArguments;
    if |rest| <= SQLITE_JSON_OBJECT_PAIRS {
      if rest != [] {
        InsertEvaluates(sql, members, rest, env, group, vals, js);
      }
    } else {
      var n := SQLITE_JSON_OBJECT_PAIRS;
      var m := |rest|;
      var inserted := Insert(sql, PathArguments(rest[..n]));
      var extended := Extended(members, Named(rest[..n], js[..n]));
      PartOfPairs(rest, env, group, vals, js, 0, n);
      PartOfPairs(rest, env, group, vals, js, n, m);
      assert rest[n..m] == rest[n..] && vals[n..m] == vals[n..] && js[n..m] == js[n..];
      InsertEvaluates(sql, members, rest[..n], env, group, vals[..n], js[..n]);
      ChunkedEvaluates(inserted, extended, rest[n..], env, group, vals[n..], js[n..]);
      ExtendedTwice(members, Named(rest[..n], js[..n]), Named(rest[n..], js[n..]));
      assert Named(rest, js) == Named(rest[..n], js[..n]) + Named(rest[n..], js[n..]);
    }
  }

  lemma HeadEvaluates(
    pairs: seq<Pair>, env: Env, group: seq<Env>, vals: seq<Val>, js: seq<Json>)
    requires SqlitePairs(pairs, env, group, vals, js)
    ensures Eval(Sqlite, BuildObject(Interleaved(Sqlite, pairs)), env, group) ==
      if 2 * |pairs| <= 127 then Some(Tree(Obj(Named(pairs, js)))) else None
  {
    hide AsTree, Eval, Yields;
    InterleavedYields(Sqlite, pairs, env, group, vals);
    YieldsBuildsObject(Sqlite, Interleaved(Sqlite, pairs), env, group, KeyedVals(pairs, vals));
    MembersOfKeyed(pairs, vals, js);
  }

  /** How many pairs the first call carries. */
  function Split(pairs: seq<Pair>): (n: nat)
    ensures n <= |pairs|
  {
    if IsChunked(pairs) then SQLITE_JSON_OBJECT_PAIRS else |pairs|
  }

  /**
   * The exact meaning of SQLite's object: it is refused exactly when more than 63 pairs meet a key with a quote;
   * otherwise it is the first call's members extended by the chunks.
   */
  lemma SqliteObjectEvaluates(pairs: seq<Pair>, env: Env, group: seq<Env>, vals: seq<Val>, js: seq<Json>)
    requires SqlitePairs(pairs, env, group, vals, js)
    ensures var n := Split(pairs);
      Eval(Sqlite, SqliteObject(pairs), env, group) ==
      if |pairs| <= 63 || KeysArePathExpressible(pairs)
      then Some(Tree(Obj(Extended(Named(pairs[..n], js[..n]), Named(pairs[n..], js[n..])))))
      else None
  {
    hide Eval, AsTree, HasKey, PathKey;
    var n := Split(pairs);
    HeadEvaluates(pairs[..n], env, group, vals[..n], js[..n]);
    assert forall p | p in pairs[n..] :: p in pairs;
    if IsChunked(pairs) {
      ChunkedEvaluates(
        BuildObject(Interleaved(Sqlite, pairs[..n])), Named(pairs[..n], js[..n]), pairs[n..], env, group, vals[n..],
        js[n..]);
    } else {
      assert pairs[n..] == [] && Chunked(BuildObject(Interleaved(Sqlite, pairs[..n])), pairs[n..])
        == BuildObject(Interleaved(Sqlite, pairs[..n]));
      assert js[n..] == [] && Named(pairs[n..], js[n..]) == [];
    }
  }

  /** No key after the first call repeats an earlier one. */
  ghost predicate LaterKeysAreNew(pairs: seq<Pair>) {
    forall i, j | 0 <= i < j < |pairs| && Split(pairs) <= j :: pairs[i].key != pairs[j].key
  }

  /** SQLite's object is the ordered object of all its pairs exactly when it is not refused and no later key repeats. */
  lemma SqliteObjectIsWholeIff(pairs: seq<Pair>, env: Env, group: seq<Env>, vals: seq<Val>, js: seq<Json>)
    requires SqlitePairs(pairs, env, group, vals, js)
    ensures Eval(Sqlite, SqliteObject(pairs), env, group) == Some(Tree(Obj(Named(pairs, js)))) <==>
      (|pairs| <= 63 || KeysArePathExpressible(pairs)) && LaterKeysAreNew(pairs)
  {
    var n := Split(pairs);
    SqliteObjectEvaluates(pairs, env, group, vals, js);
    var head, more := Named(pairs[..n], js[..n]), Named(pairs[n..], js[n..]);
    ExtendedIsConcatIffNew(head, more);
    assert Named(pairs, js) == head + more;
    NewIffLaterKeysNew(pairs, js);
  }

  lemma NewIffLaterKeysNew(pairs: seq<Pair>, js: seq<Json>)
    requires |js| == |pairs|
    ensures var n := Split(pairs);
      AddsOnlyNew(Named(pairs[..n], js[..n]), Named(pairs[n..], js[n..])) <==> LaterKeysAreNew(pairs)
  {
    var n := Split(pairs);
    var head, more := Named(pairs[..n], js[..n]), Named(pairs[n..], js[n..]);
    var all := Named(pairs, js);
    forall k | 0 <= k < |more| ensures head + more[..k] == all[..n + k] && more[k].key == pairs[n + k].key {
    }
    if LaterKeysAreNew(pairs) {
      forall k | 0 <= k < |more| ensures !HasKey(head + more[..k], more[k].key) {
        assert forall i | 0 <= i < n + k :: all[..n + k][i].key == pairs[i].key;
      }
    }
    if AddsOnlyNew(head, more) {
      forall i, j | 0 <= i < j < |pairs| && n <= j ensures pairs[i].key != pairs[j].key {
        assert !HasKey(head + more[..j - n], more[j - n].key);
        assert all[..j][i] in all[..j];
      }
    }
  }
}
