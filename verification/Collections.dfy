/** Keys collected into a set: when they are pairwise distinct, and what equal counts then force. */
module Collections {

  predicate Distinct<T(==)>(keys: seq<T>) {
    forall i, j | 0 <= i < j < |keys| :: keys[i] != keys[j]
  }

  function ToSet<T>(keys: seq<T>): set<T> { set key <- keys }

  lemma NoKeys<T>(keys: seq<T>)
    ensures ToSet(keys[..0]) == {} && Distinct(keys[..0])
    ensures keys[..|keys|] == keys
  {
  }

  lemma SomeKeyIsThere<T>(keys: seq<T>)
    ensures keys != [] ==> ToSet(keys) != {}
  {
    if keys != [] {
      assert keys[0] in ToSet(keys);
    }
  }

  lemma AddKey<T>(keys: seq<T>, i: nat)
    requires i < |keys|
    ensures ToSet(keys[..i + 1]) == ToSet(keys[..i]) + {keys[i]}
    ensures Distinct(keys[..i + 1]) <==> Distinct(keys[..i]) && keys[i] !in ToSet(keys[..i])
    ensures Distinct(keys) ==> Distinct(keys[..i + 1])
  {
    var before, after := keys[..i], keys[..i + 1];
    assert after == before + [keys[i]];
    if Distinct(before) && keys[i] !in ToSet(before) {
      forall j, k | 0 <= j < k < |after| ensures after[j] != after[k] {
        assert after[j] == before[j] && after[j] in ToSet(before);
      }
    }
    if Distinct(after) {
      forall j | 0 <= j < i ensures before[j] != keys[i] {
        assert after[j] == before[j] && after[i] == keys[i];
      }
    }
  }

  /** A loop that inserts keys into a set, after `i` keys and no repetition. */
  ghost predicate Collected<T>(keys: seq<T>, i: nat, seen: set<T>) {
    i <= |keys| && seen == ToSet(keys[..i]) && Distinct(keys[..i])
  }

  lemma CollectNone<T>(keys: seq<T>)
    ensures Collected(keys, 0, {})
  {
  }

  lemma CollectOne<T>(keys: seq<T>, i: nat, seen: set<T>)
    requires i < |keys| && Collected(keys, i, seen)
    ensures keys[i] in seen ==> !Distinct(keys)
    ensures keys[i] !in seen ==> Collected(keys, i + 1, seen + {keys[i]})
  {
    AddKey(keys, i);
  }

  lemma CollectAll<T>(keys: seq<T>, seen: set<T>)
    requires Collected(keys, |keys|, seen)
    ensures Distinct(keys) && seen == ToSet(keys)
  {
    assert keys[..|keys|] == keys;
  }

  lemma {:induction false} DistinctIffFullCount<T>(keys: seq<T>)
    ensures |ToSet(keys)| <= |keys|
    ensures |ToSet(keys)| == |keys| <==> Distinct(keys)
  {
    if keys != [] {
      var last := |keys| - 1;
      AddKey(keys, last);
      assert keys[..last + 1] == keys;
      DistinctIffFullCount(keys[..last]);
    }
  }

  lemma DistinctCons<T>(first: T, rest: seq<T>)
    ensures Distinct([first] + rest) <==> Distinct(rest) && first !in rest
  {
    var all := [first] + rest;
    forall i | 0 <= i < |rest| ensures all[i + 1] == rest[i] {}
    if Distinct(all) {
      forall i | 0 <= i < |rest| ensures rest[i] != first {
        assert all[0] != all[i + 1];
      }
      forall i, j | 0 <= i < j < |rest| ensures rest[i] != rest[j] {
        assert all[i + 1] != all[j + 1];
      }
    }
  }

  lemma DistinctConcat<T>(a: seq<T>, b: seq<T>)
    ensures Distinct(a + b) <==> Distinct(a) && Distinct(b) && ToSet(a) !! ToSet(b)
  {
    var all := a + b;
    assert forall i | 0 <= i < |b| :: all[|a| + i] == b[i];
    if Distinct(all) {
      forall i, j | 0 <= i < j < |a| ensures a[i] != a[j] {
        assert all[i] != all[j];
      }
      forall i, j | 0 <= i < j < |b| ensures b[i] != b[j] {
        assert all[|a| + i] != all[|a| + j];
      }
      forall i, j | 0 <= i < |a| && 0 <= j < |b| ensures a[i] != b[j] {
        assert all[i] != all[|a| + j];
      }
      assert ToSet(a) !! ToSet(b);
    }
    if Distinct(a) && Distinct(b) && ToSet(a) !! ToSet(b) {
      forall i, j | 0 <= i < j < |all| ensures all[i] != all[j] {
        if i < |a| <= j {
          assert all[i] in ToSet(a) && all[j] == b[j - |a|] && all[j] in ToSet(b);
        } else if i >= |a| {
          assert all[i] == b[i - |a|] && all[j] == b[j - |a|];
        }
      }
    }
  }

  lemma {:induction false} SubsetIsSmaller<T>(a: set<T>, b: set<T>)
    requires a <= b
    ensures |a| <= |b|
    ensures |a| == |b| ==> a == b
  {
    assert b == a + (b - a);
    assert |b| == |a| + |b - a|;
    if |b - a| == 0 {
      assert b - a == {};
    }
  }

  /** Distinct keys drawn from a list of the same length are all of it, and the list repeats nothing. */
  lemma Pigeonhole<T>(keys: seq<T>, slots: seq<T>)
    requires Distinct(keys) && |keys| == |slots| && ToSet(keys) <= ToSet(slots)
    ensures ToSet(keys) == ToSet(slots) && Distinct(slots)
  {
    DistinctIffFullCount(keys);
    DistinctIffFullCount(slots);
    SubsetIsSmaller(ToSet(keys), ToSet(slots));
  }
}
