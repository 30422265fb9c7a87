/** The order of an ordered list's rows: ascending keys, and the rows of one key in the order they came. */
module RowOrder {
  import opened Wrappers
  import opened Sql

  predicate Precedes(keys: seq<int>, p: nat, q: nat) {
    && p < |keys| && q < |keys|
    && (keys[p] < keys[q] || (keys[p] == keys[q] && p < q))
  }

  /** Every index of `keys` once, by ascending key and, under one key, by ascending index. */
  ghost predicate IsStableOrder(keys: seq<int>, places: seq<nat>) {
    && |places| == |keys|
    && (forall i | 0 <= i < |places| :: places[i] < |keys|)
    && (forall k: nat | k < |keys| :: k in places)
    && (forall i, j | 0 <= i < j < |places| :: Precedes(keys, places[i], places[j]))
  }

  function Firsts<T>(s: seq<(int, T)>): (r: seq<int>)
    ensures |r| == |s|
  {
    seq(|s|, i requires 0 <= i < |s| => s[i].0)
  }

  /** The elements of `s` at some places, in their order. */
  ghost predicate Takes<T>(r: seq<T>, s: seq<T>, places: seq<nat>) {
    && |r| == |places|
    && forall i | 0 <= i < |places| :: places[i] < |s| && r[i] == s[places[i]]
  }

  lemma {:induction false} InsertedAt<T>(x: (int, T), s: seq<(int, T)>) returns (n: nat)
    ensures n <= |s| && InsertSorted(x, s) == s[..n] + [x] + s[n..]
    ensures forall i | 0 <= i < n :: s[i].0 < x.0
    ensures n < |s| ==> x.0 <= s[n].0
  {
    if s == [] || x.0 <= s[0].0 {
      n := 0;
    } else {
      var m := InsertedAt(x, s[1..]);
      n := m + 1;
      assert [s[0]] + (s[1..][..m] + [x] + s[1..][m..]) == s[..n] + [x] + s[n..];
    }
  }

  function Shifted(places: seq<nat>): (r: seq<nat>)
    ensures |r| == |places|
  {
    seq(|places|, i requires 0 <= i < |places| => places[i] + 1)
  }

  /** Insertion sort is stable: its result takes the elements in the stable order of their keys. */
  lemma {:induction false} SortedStably<T>(s: seq<(int, T)>) returns (places: seq<nat>)
    ensures IsStableOrder(Firsts(s), places) && Takes(Sorted(s), s, places)
  {
    if s == [] {
      places := [];
    } else {
      var rest := SortedStably(s[1..]);
      var n := InsertedAt(s[0], Sorted(s[1..]));
      places := Shifted(rest)[..n] + [0] + Shifted(rest)[n..];
      OneMoreStably(s, Sorted(s[1..]), rest, n);
    }
  }

  lemma OneMoreStably<T>(s: seq<(int, T)>, sorted: seq<(int, T)>, rest: seq<nat>, n: nat)
    requires s != [] && IsStableOrder(Firsts(s[1..]), rest) && Takes(sorted, s[1..], rest) && n <= |sorted|
    requires forall i | 0 <= i < n :: sorted[i].0 < s[0].0
    requires n < |sorted| ==> s[0].0 <= sorted[n].0
    ensures var places := Shifted(rest)[..n] + [0] + Shifted(rest)[n..];
      && IsStableOrder(Firsts(s), places)
      && Takes(sorted[..n] + [s[0]] + sorted[n..], s, places)
  {
    hide IsStableOrder;
    assert Firsts(s)[1..] == Firsts(s[1..]);
    assert forall i | 0 <= i < |rest| :: sorted[i].0 == Firsts(s)[1..][rest[i]];
    InsertedIsStable(Firsts(s), rest, n);
    assert Takes(sorted, s, Shifted(rest)) by {
      assert forall i | 0 <= i < |rest| :: sorted[i] == s[1..][rest[i]] == s[rest[i] + 1];
    }
    InsertedTakes(s, sorted, Shifted(rest), n);
  }

  lemma InsertedTakes<T>(s: seq<(int, T)>, sorted: seq<(int, T)>, shifted: seq<nat>, n: nat)
    requires s != [] && Takes(sorted, s, shifted) && n <= |sorted|
    ensures Takes(sorted[..n] + [s[0]] + sorted[n..], s, shifted[..n] + [0] + shifted[n..])
  {
  }

  lemma InsertedIsStable(keys: seq<int>, rest: seq<nat>, n: nat)
    requires keys != [] && IsStableOrder(keys[1..], rest) && n <= |rest|
    requires forall i | 0 <= i < n :: keys[1..][rest[i]] < keys[0]
    requires n < |rest| ==> keys[0] <= keys[1..][rest[n]]
    ensures IsStableOrder(keys, Shifted(rest)[..n] + [0] + Shifted(rest)[n..])
  {
    var shifted := Shifted(rest);
    var places := shifted[..n] + [0] + shifted[n..];
    forall k: nat | k < |keys| ensures k in places {
      if k == 0 {
        assert places[n] == 0;
      } else {
        var before: nat := k - 1;
        assert before in rest;
        var i :| 0 <= i < |rest| && rest[i] == before;
        assert places[if i < n then i else i + 1] == shifted[i];
      }
    }
    forall i, j | 0 <= i < j < |places| ensures Precedes(keys, places[i], places[j]) {
      InsertedPrecedes(keys, rest, n, i, j);
    }
  }

  lemma InsertedPrecedes(keys: seq<int>, rest: seq<nat>, n: nat, i: nat, j: nat)
    requires keys != [] && IsStableOrder(keys[1..], rest) && n <= |rest|
    requires forall i | 0 <= i < n :: keys[1..][rest[i]] < keys[0]
    requires n < |rest| ==> keys[0] <= keys[1..][rest[n]]
    requires i < j <= |rest|
    ensures var places := Shifted(rest)[..n] + [0] + Shifted(rest)[n..];
      |places| == |rest| + 1 && Precedes(keys, places[i], places[j])
  {
    var places := Shifted(rest)[..n] + [0] + Shifted(rest)[n..];
    var p, q := if i < n then i else i - 1, if j < n then j else j - 1;
    assert i != n ==> places[i] == rest[p] + 1;
    assert j != n ==> places[j] == rest[q] + 1;
    if i != n && j != n {
      assert Precedes(keys[1..], rest[p], rest[q]);
    } else if i == n {
      assert n < q ==> Precedes(keys[1..], rest[n], rest[q]);
    }
  }

  // ----- Rows

  function KeyList(order: nat, group: seq<Env>): (r: seq<int>)
    ensures |r| == |group|
    ensures forall i | 0 <= i < |group| && order < |group[i].keys| :: r[i] == group[i].keys[order]
  {
    seq(|group|, i requires 0 <= i < |group| => Key(order, group[i]))
  }

  /** An ordered group is its rows by ascending key, the rows of one key in the order they came. */
  lemma ArrangedStably(order: nat, group: seq<Env>)
    ensures exists places ::
      IsStableOrder(KeyList(order, group), places) && Takes(Arranged(Some(order), group), group, places)
  {
    var keyed := WithKeys(order, group);
    var places := SortedStably(keyed);
    hide Sorted;
    assert Firsts(keyed) == KeyList(order, group);
    assert Takes(Arranged(Some(order), group), group, places);
  }

  /** Arranging a group loses and adds no row. */
  lemma ArrangedKeeps(order: Option<nat>, group: seq<Env>)
    ensures forall env :: env in Arranged(order, group) <==> env in group
    ensures |Arranged(order, group)| == |group|
  {
    if order.Some? {
      ArrangedStably(order.value, group);
      var arranged := Arranged(order, group);
      var places :| IsStableOrder(KeyList(order.value, group), places) && Takes(arranged, group, places);
      hide Arranged;
      forall env | env in group ensures env in arranged {
        var k: nat :| k < |group| && group[k] == env;
        assert k in places;
        var i :| 0 <= i < |places| && places[i] == k;
        assert arranged[i] == env;
      }
    }
  }

  /** There is only one stable order, so it says of every row where it stands. */
  lemma {:induction false} StableOrderIsUnique(keys: seq<int>, a: seq<nat>, b: seq<nat>, n: nat)
    requires IsStableOrder(keys, a) && IsStableOrder(keys, b) && n <= |keys|
    ensures a[..n] == b[..n]
  {
    if n > 0 {
      StableOrderIsUnique(keys, a, b, n - 1);
      StandsNoLater(keys, a, b, n - 1);
      StandsNoLater(keys, b, a, n - 1);
      assert a[..n] == a[..n - 1] + [a[n - 1]] && b[..n] == b[..n - 1] + [b[n - 1]];
    }
  }

  lemma StandsNoLater(keys: seq<int>, a: seq<nat>, b: seq<nat>, n: nat)
    requires IsStableOrder(keys, a) && IsStableOrder(keys, b) && n < |keys| && a[..n] == b[..n]
    ensures a[n] == b[n] || Precedes(keys, a[n], b[n])
  {
    var k: nat := b[n];
    assert k in a;
    var i :| 0 <= i < |a| && a[i] == k;
    assert forall j | 0 <= j < n :: a[..n][j] == a[j] && b[..n][j] == b[j];
    assert i < n ==> !Precedes(keys, k, k);
  }
}
