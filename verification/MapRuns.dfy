// Whole runs of a map: any sequence of updates leaves the finite map that the same
// updates give on values, in a red-black tree of logarithmic height.
module MapRuns {
  import opened Comparators
  import RedBlackTrees
  import opened RedBlackMap

  datatype Update<K, V> = Put(key: K, value: V) | Remove(key: K) | Clear

  ghost function ApplyAll<K, V>(m: map<K, V>, ops: seq<Update<K, V>>): map<K, V> {
    if ops == [] then m
    else
      var before := ApplyAll(m, ops[..|ops| - 1]);
      match ops[|ops| - 1]
      case Put(key, value) => before[key := value]
      case Remove(key) => before - {key}
      case Clear => map[]
  }

  // The update concerns `key`.
  ghost predicate Touches<K, V>(op: Update<K, V>, key: K) {
    op.Clear? || op.key == key
  }

  // A key is bound to a value exactly if the last update that concerns the key puts
  // that value there.
  lemma {:induction false} LastUpdateDecides<K, V>(ops: seq<Update<K, V>>, key: K, value: V)
    ensures (key in ApplyAll(map[], ops) && ApplyAll(map[], ops)[key] == value)
            <==> exists i :: 0 <= i < |ops| && ops[i] == Put(key, value)
                             && forall j :: i < j < |ops| ==> !Touches(ops[j], key)
  {
    if ops == [] {
    } else {
      var n := |ops| - 1;
      var before := ops[..n];
      LastUpdateDecides(before, key, value);
      assert forall i :: 0 <= i < n ==> before[i] == ops[i];
      if Touches(ops[n], key) {
        assert ops[n] == Put(key, value) ==> key in ApplyAll(map[], ops) && ApplyAll(map[], ops)[key] == value;
      } else {
        if i :| 0 <= i < n && before[i] == Put(key, value) && forall j :: i < j < n ==> !Touches(before[j], key) {
          assert ops[i] == Put(key, value) && forall j :: i < j <= n ==> !Touches(ops[j], key);
        }
        if i :| 0 <= i <= n && ops[i] == Put(key, value) && forall j :: i < j <= n ==> !Touches(ops[j], key) {
          assert i < n && before[i] == Put(key, value);
          assert forall j :: i < j < n ==> !Touches(before[j], key);
        }
      }
    }
  }

  // 2^(height / 2) <= size + 1 for every map in a valid state.
  lemma HeightBound<K(!new), V>(m: Map<K, V>)
    requires m.Valid()
    ensures m.size == |m.Model()|
    ensures RedBlackTrees.Pow2(RedBlackTrees.Height(m.tree) / 2) <= m.size + 1
  {
    m.SizeIsCardinality();
    RedBlackTrees.HeightIsLogarithmic(m.tree);
  }

  method Replay<K(!new), V>(cmp: (K, K) -> int, ops: seq<Update<K, V>>) returns (m: Map<K, V>)
    requires IsTotalOrder(cmp)
    ensures m.Valid() && m.Comparator == cmp
    ensures m.Model() == ApplyAll(map[], ops) && m.size == |ApplyAll(map[], ops)|
    ensures RedBlackTrees.Pow2(RedBlackTrees.Height(m.tree) / 2) <= m.size + 1
    ensures m.rotations <= 3 * |ops|
  {
    m := new Map(cmp);
    var i := 0;
    assert ops[..0] == [];
    while i < |ops|
      invariant 0 <= i <= |ops| && m.Valid()
      invariant fresh(m) && forall n :: n in RedBlackTrees.Ids(m.tree) ==> fresh(n)
      invariant m.Model() == ApplyAll(map[], ops[..i])
      invariant m.rotations <= 3 * i
    {
      assert ops[..i + 1][..i] == ops[..i];
      match ops[i] {
        case Put(key, value) =>
          ghost var steps := m.Put(key, value);
        case Remove(key) =>
          m.Remove(key);
        case Clear =>
          m.Clear();
      }
      i := i + 1;
    }
    assert ops[..i] == ops;
    HeightBound(m);
  }
}
