// Sorted association lists, and the finite maps they stand for.
module SortedEntries {
  import opened Comparators

  ghost predicate Sorted<K(!new), V>(cmp: (K, K) -> int, s: seq<(K, V)>) {
    forall i, j {:trigger cmp(s[i].0, s[j].0)} :: 0 <= i < j < |s| ==> cmp(s[i].0, s[j].0) < 0
  }

  // Every key of the list lies below (above) `key`.
  ghost predicate AllBelow<K(!new), V>(cmp: (K, K) -> int, s: seq<(K, V)>, key: K) {
    forall i {:trigger cmp(s[i].0, key)} :: 0 <= i < |s| ==> cmp(s[i].0, key) < 0
  }

  ghost predicate AllAbove<K(!new), V>(cmp: (K, K) -> int, s: seq<(K, V)>, key: K) {
    forall i {:trigger cmp(key, s[i].0)} :: 0 <= i < |s| ==> cmp(key, s[i].0) < 0
  }

  ghost predicate HasKey<K, V>(s: seq<(K, V)>, key: K) {
    exists i :: 0 <= i < |s| && s[i].0 == key
  }

  ghost predicate DistinctKeys<K, V>(s: seq<(K, V)>) {
    forall i, j :: 0 <= i < j < |s| ==> s[i].0 != s[j].0
  }

  function ToMap<K(==), V>(s: seq<(K, V)>): map<K, V> {
    if s == [] then map[] else ToMap(s[..|s| - 1])[s[|s| - 1].0 := s[|s| - 1].1]
  }

  lemma {:induction false} ToMapConcat<K, V>(a: seq<(K, V)>, b: seq<(K, V)>)
    ensures ToMap(a + b) == ToMap(a) + ToMap(b)
  {
    if b == [] {
      assert a + b == a;
    } else {
      var n := |b| - 1;
      assert (a + b)[..|a| + n] == a + b[..n];
      ToMapConcat(a, b[..n]);
    }
  }

  lemma {:induction false} ToMapKey<K, V>(s: seq<(K, V)>, key: K)
    ensures key in ToMap(s) <==> HasKey(s, key)
  {
    if s == [] {
    } else {
      var n := |s| - 1;
      ToMapKey(s[..n], key);
      if HasKey(s[..n], key) {
        var i :| 0 <= i < n && s[..n][i].0 == key;
        assert s[i].0 == key;
      }
      if HasKey(s, key) && s[n].0 != key {
        var i :| 0 <= i < |s| && s[i].0 == key;
        assert s[..n][i].0 == key;
      }
    }
  }

  // A list that holds each key once agrees with its map entry by entry.
  lemma {:induction false} ToMapDistinct<K, V>(s: seq<(K, V)>)
    requires DistinctKeys(s)
    ensures |ToMap(s)| == |s|
    ensures forall i :: 0 <= i < |s| ==> s[i].0 in ToMap(s) && ToMap(s)[s[i].0] == s[i].1
  {
    if s == [] {
    } else {
      var n := |s| - 1;
      ToMapDistinct(s[..n]);
      ToMapKey(s[..n], s[n].0);
      assert s[n].0 !in ToMap(s[..n]);
      forall i | 0 <= i < |s|
        ensures s[i].0 in ToMap(s) && ToMap(s)[s[i].0] == s[i].1
      {
        assert i < n ==> s[..n][i] == s[i];
      }
    }
  }

  lemma ToMapPut<K, V>(before: seq<(K, V)>, key: K, value: V, after: seq<(K, V)>)
    requires !HasKey(after, key)
    ensures ToMap(before + [(key, value)] + after) == ToMap(before + after)[key := value]
  {
    ToMapConcat(before + [(key, value)], after);
    ToMapConcat(before, [(key, value)]);
    ToMapConcat(before, after);
    ToMapKey(after, key);
    assert ToMap([(key, value)]) == map[key := value];
  }

  lemma ToMapRemove<K, V>(before: seq<(K, V)>, key: K, value: V, after: seq<(K, V)>)
    requires !HasKey(before, key) && !HasKey(after, key)
    ensures ToMap(before + after) == ToMap(before + [(key, value)] + after) - {key}
  {
    ToMapPut(before, key, value, after);
    ToMapConcat(before, after);
    ToMapKey(before, key);
    ToMapKey(after, key);
  }

  lemma SortedIsDistinct<K(!new), V>(cmp: (K, K) -> int, s: seq<(K, V)>)
    requires IsTotalOrder(cmp) && Sorted(cmp, s)
    ensures DistinctKeys(s)
  {
    forall i, j | 0 <= i < j < |s|
      ensures s[i].0 != s[j].0
    {
      assert cmp(s[i].0, s[j].0) < 0;
    }
  }

  lemma BoundedHasNot<K(!new), V>(cmp: (K, K) -> int, s: seq<(K, V)>, key: K)
    requires IsTotalOrder(cmp) && (AllBelow(cmp, s, key) || AllAbove(cmp, s, key))
    ensures !HasKey(s, key)
  {
    forall i | 0 <= i < |s|
      ensures s[i].0 != key
    {
      assert cmp(s[i].0, key) < 0 || cmp(key, s[i].0) < 0;
    }
  }

  lemma SortedPut<K(!new), V>(cmp: (K, K) -> int, before: seq<(K, V)>, key: K, value: V, after: seq<(K, V)>)
    requires AllBelow(cmp, before, key) && AllAbove(cmp, after, key)
    requires Sorted(cmp, before + after)
    ensures Sorted(cmp, before + [(key, value)] + after)
  {
    var s, u := before + after, before + [(key, value)] + after;
    forall i, j | 0 <= i < j < |u|
      ensures cmp(u[i].0, u[j].0) < 0
    {
      var i' := if i > |before| then i - 1 else i;
      var j' := if j > |before| then j - 1 else j;
      assert i != |before| ==> u[i] == s[i'];
      assert j != |before| ==> u[j] == s[j'];
      assert i == |before| ==> u[j] == after[j - |before| - 1];
      assert j == |before| ==> u[i] == before[i];
    }
  }

  // Reading off a sorted list: the pieces on either side of an entry lie on
  // either side of its key, and dropping the entry leaves a sorted list.
  lemma SortedSplit<K(!new), V>(cmp: (K, K) -> int, before: seq<(K, V)>, key: K, value: V, after: seq<(K, V)>)
    requires Sorted(cmp, before + [(key, value)] + after)
    ensures AllBelow(cmp, before, key) && AllAbove(cmp, after, key)
    ensures Sorted(cmp, before + after)
  {
    var s, u := before + after, before + [(key, value)] + after;
    forall i | 0 <= i < |before|
      ensures cmp(before[i].0, key) < 0
    {
      assert u[i] == before[i] && u[|before|] == (key, value);
    }
    forall i | 0 <= i < |after|
      ensures cmp(key, after[i].0) < 0
    {
      assert u[|before| + 1 + i] == after[i] && u[|before|] == (key, value);
    }
    forall i, j | 0 <= i < j < |s|
      ensures cmp(s[i].0, s[j].0) < 0
    {
      assert s[i] == u[if i < |before| then i else i + 1];
      assert s[j] == u[if j < |before| then j else j + 1];
    }
  }

  // A bound moves to a key further out, and takes the entry in between along.
  lemma AboveExtend<K(!new), V>(cmp: (K, K) -> int, key: K, e: (K, V), after: seq<(K, V)>)
    requires IsTotalOrder(cmp) && cmp(key, e.0) < 0 && AllAbove(cmp, after, e.0)
    ensures AllAbove(cmp, [e] + after, key)
  {
    forall i | 0 <= i < |after|
      ensures cmp(key, after[i].0) < 0
    {
      assert cmp(e.0, after[i].0) < 0;
    }
  }

  lemma BelowExtend<K(!new), V>(cmp: (K, K) -> int, before: seq<(K, V)>, e: (K, V), key: K)
    requires IsTotalOrder(cmp) && cmp(e.0, key) < 0 && AllBelow(cmp, before, e.0)
    ensures AllBelow(cmp, before + [e], key)
  {
    forall i | 0 <= i < |before|
      ensures cmp(before[i].0, key) < 0
    {
      assert cmp(before[i].0, e.0) < 0;
    }
  }

  // What the map of a list says about a key that all of the list brackets.
  lemma ToMapFound<K(!new), V>(cmp: (K, K) -> int, before: seq<(K, V)>, key: K, value: V, after: seq<(K, V)>)
    requires IsTotalOrder(cmp) && AllBelow(cmp, before, key) && AllAbove(cmp, after, key)
    ensures var m := ToMap(before + [(key, value)] + after);
            && key in m && m[key] == value
            && ToMap(before + after) == m - {key}
  {
    BoundedHasNot(cmp, before, key);
    BoundedHasNot(cmp, after, key);
    ToMapPut(before, key, value, after);
    ToMapRemove(before, key, value, after);
  }

  lemma ToMapAbsent<K(!new), V>(cmp: (K, K) -> int, before: seq<(K, V)>, key: K, after: seq<(K, V)>)
    requires IsTotalOrder(cmp) && AllBelow(cmp, before, key) && AllAbove(cmp, after, key)
    ensures key !in ToMap(before + after)
  {
    BoundedHasNot(cmp, before, key);
    BoundedHasNot(cmp, after, key);
    ToMapConcat(before, after);
    ToMapKey(before, key);
    ToMapKey(after, key);
  }

  // ---------- The three updates of a sorted list at one key ----------

  lemma PutNew<K(!new), V>(cmp: (K, K) -> int, before: seq<(K, V)>, key: K, value: V, after: seq<(K, V)>)
    requires IsTotalOrder(cmp) && Sorted(cmp, before + after)
    requires AllBelow(cmp, before, key) && AllAbove(cmp, after, key)
    ensures Sorted(cmp, before + [(key, value)] + after)
    ensures ToMap(before + [(key, value)] + after) == ToMap(before + after)[key := value]
  {
    SortedPut(cmp, before, key, value, after);
    BoundedHasNot(cmp, after, key);
    ToMapPut(before, key, value, after);
  }

  lemma PutExisting<K(!new), V>(cmp: (K, K) -> int, before: seq<(K, V)>, key: K, value: V, value': V,
          after: seq<(K, V)>)
    requires IsTotalOrder(cmp) && Sorted(cmp, before + [(key, value)] + after)
    ensures Sorted(cmp, before + [(key, value')] + after)
    ensures ToMap(before + [(key, value')] + after) == ToMap(before + [(key, value)] + after)[key := value']
  {
    SortedSplit(cmp, before, key, value, after);
    PutNew(cmp, before, key, value, after);
    PutNew(cmp, before, key, value', after);
  }

  lemma TakeOut<K(!new), V>(cmp: (K, K) -> int, before: seq<(K, V)>, key: K, value: V, after: seq<(K, V)>)
    requires IsTotalOrder(cmp) && Sorted(cmp, before + [(key, value)] + after)
    ensures Sorted(cmp, before + after)
    ensures key in ToMap(before + [(key, value)] + after)
    ensures ToMap(before + [(key, value)] + after)[key] == value
    ensures ToMap(before + after) == ToMap(before + [(key, value)] + after) - {key}
  {
    SortedSplit(cmp, before, key, value, after);
    ToMapFound(cmp, before, key, value, after);
  }

  lemma TakeAround<T>(before: seq<T>, e: T, after: seq<T>)
    ensures var s := before + [e] + after;
            s[..|before|] == before && s[|before|] == e && s[|before| + 1..] == after
  {
  }
}
