// The hash ring object: an id -> owner map, the sorted tree of the same ids, and
// the member set, updated one virtual node at a time.
module HashRings {
  import opened Comparators
  import opened Wrappers
  import opened SortedEntries
  import opened RedBlackTrees
  import opened RedBlackMap
  import MapIterator
  import opened RingSpec

  datatype RingError = ErrEmptyRing

  // The first entry not below `key` is the successor of `key` among the ids.
  lemma CeilingIsSuccessor(s: seq<(UInt32, bool)>, key: UInt32, i: nat)
    requires Sorted(CompareUInt32, s) && i < |s|
    requires CompareUInt32(key, s[i].0) <= 0 && AllBelow(CompareUInt32, s[..i], key)
    ensures IsSuccessor(ToMap(s).Keys, key, s[i].0)
  {
    ToMapKey(s, s[i].0);
    forall k | 0 <= k < i
      ensures s[k].0 < key
    {
      assert CompareUInt32(s[..i][k].0, key) < 0;
    }
    forall j: UInt32 | j in ToMap(s).Keys && j >= key
      ensures s[i].0 <= j
    {
      ToMapKey(s, j);
      var k :| 0 <= k < |s| && s[k].0 == j;
      assert k > i ==> CompareUInt32(s[i].0, s[k].0) < 0;
    }
  }

  // With every id below `key` the ring wraps around to the first id.
  lemma FirstIsSuccessor(s: seq<(UInt32, bool)>, key: UInt32)
    requires Sorted(CompareUInt32, s) && s != [] && AllBelow(CompareUInt32, s, key)
    ensures IsSuccessor(ToMap(s).Keys, key, s[0].0)
  {
    ToMapKey(s, s[0].0);
    assert CompareUInt32(s[0].0, key) < 0;
    forall j: UInt32 | j in ToMap(s).Keys
      ensures j < key && s[0].0 <= j
    {
      ToMapKey(s, j);
      var k :| 0 <= k < |s| && s[k].0 == j;
      assert CompareUInt32(s[k].0, key) < 0;
      assert k > 0 ==> CompareUInt32(s[0].0, s[k].0) < 0;
    }
  }

  class HashRing {
    var m_RingMap: map<UInt32, GoString>
    var m_MemberMap: map<GoString, bool>
    const m_SortedKeys: Map<UInt32, bool>
    const rRep: UInt32
    const rLen: UInt32
    const hashKey: Hash

    // The tree holds exactly the ids of the map.
    ghost predicate InStep()
      reads this, m_SortedKeys, Ids(m_SortedKeys.tree)
    {
      && m_SortedKeys.Valid() && m_SortedKeys.Comparator == CompareUInt32
      && m_SortedKeys.Model().Keys == m_RingMap.Keys
    }

    ghost predicate Valid()
      reads this, m_SortedKeys, Ids(m_SortedKeys.tree)
    {
      InStep() && Good(hashKey, rRep, State())
    }

    ghost function State(): Ring
      reads this
    {
      Ring(m_RingMap, m_MemberMap.Keys)
    }

    constructor (hash: Hash, rep: UInt32, len: UInt32)
      ensures Valid() && State() == EMPTY
      ensures hashKey == hash && rRep == rep && rLen == len
      ensures fresh(m_SortedKeys) && fresh(Ids(m_SortedKeys.tree))
    {
      hashKey, rRep, rLen := hash, rep, len;
      m_RingMap, m_MemberMap := map[], map[];
      m_SortedKeys := new Map(CompareUInt32);
      new;
      UInt32IsTotalOrder();
    }

    // One virtual node of `elt` put into both the map and the tree.
    method Place(id: UInt32, elt: GoString)
      requires InStep()
      modifies `m_RingMap, m_SortedKeys, Ids(m_SortedKeys.tree)
      ensures InStep() && m_RingMap == old(m_RingMap)[id := elt]
      ensures forall n :: n in Ids(m_SortedKeys.tree) ==> n in old(Ids(m_SortedKeys.tree)) || fresh(n)
    {
      m_RingMap := m_RingMap[id := elt];
      ghost var steps := m_SortedKeys.Put(id, true);
    }

    // One virtual node taken out of both, whoever owns it.
    method Clear(id: UInt32)
      requires InStep()
      modifies `m_RingMap, m_SortedKeys, Ids(m_SortedKeys.tree)
      ensures InStep() && m_RingMap == old(m_RingMap) - {id}
      ensures Ids(m_SortedKeys.tree) <= old(Ids(m_SortedKeys.tree))
    {
      m_RingMap := m_RingMap - {id};
      m_SortedKeys.Remove(id);
    }

    // The loop of `add`: every virtual node of `elt`, whoever owned it.
    method PlaceAll(elt: GoString) returns (rst: seq<UInt32>)
      requires InStep()
      modifies `m_RingMap, m_SortedKeys, Ids(m_SortedKeys.tree)
      ensures InStep() && m_RingMap == old(m_RingMap) + Claim(NodeIds(hashKey, rRep, elt), elt)
      ensures rst == IdList(hashKey, elt, rRep)
      ensures forall n :: n in Ids(m_SortedKeys.tree) ==> n in old(Ids(m_SortedKeys.tree)) || fresh(n)
    {
      ghost var owner := m_RingMap;
      rst := [];
      var i := 0;
      NodeIdsStep(hashKey, 0, elt);
      while i < rRep
        invariant 0 <= i <= rRep && InStep()
        invariant m_RingMap == owner + Claim(NodeIds(hashKey, i, elt), elt)
        invariant rst == IdList(hashKey, elt, i)
        invariant forall n :: n in Ids(m_SortedKeys.tree) ==> n in old(Ids(m_SortedKeys.tree)) || fresh(n)
      {
        var id := hashKey(EltKey(elt, i));
        Place(id, elt);
        rst := rst + [id];
        ClaimStep(hashKey, i, owner, elt);
        i := i + 1;
      }
    }

    method Add(elt: GoString) returns (rst: seq<UInt32>)
      requires Valid()
      modifies this, m_SortedKeys, Ids(m_SortedKeys.tree)
      ensures Valid() && State() == Added(hashKey, rRep, old(State()), elt)
      ensures |rst| == rRep && forall i :: 0 <= i < rRep ==> rst[i] == hashKey(Itoa(i) + elt)
      ensures forall id :: id in m_RingMap <==> id in old(m_RingMap) || id in rst
      ensures forall id :: id in m_RingMap ==> m_RingMap[id] == if id in rst then elt else old(m_RingMap)[id]
      ensures m_MemberMap.Keys == old(m_MemberMap).Keys + {elt}
      ensures forall n :: n in Ids(m_SortedKeys.tree) ==> n in old(Ids(m_SortedKeys.tree)) || fresh(n)
    {
      rst := PlaceAll(elt);
      m_MemberMap := m_MemberMap[elt := true];
      ApplyKeepsGood(hashKey, rRep, old(State()), RingSpec.Add(elt));
      AddedIs(hashKey, rRep, old(State()), elt);
      IdListIs(hashKey, elt, rRep);
    }

    // The loop of `remove`: every virtual node of `elt`, whoever owns it.
    method ClearAll(elt: GoString)
      requires InStep()
      modifies `m_RingMap, m_SortedKeys, Ids(m_SortedKeys.tree)
      ensures InStep() && m_RingMap == old(m_RingMap) - NodeIds(hashKey, rRep, elt)
      ensures Ids(m_SortedKeys.tree) <= old(Ids(m_SortedKeys.tree))
    {
      ghost var owner := m_RingMap;
      var i := 0;
      NodeIdsStep(hashKey, 0, elt);
      while i < rRep
        invariant 0 <= i <= rRep && InStep()
        invariant m_RingMap == owner - NodeIds(hashKey, i, elt)
        invariant Ids(m_SortedKeys.tree) <= old(Ids(m_SortedKeys.tree))
      {
        var id := hashKey(EltKey(elt, i));
        Clear(id);
        ClaimStep(hashKey, i, owner, elt);
        i := i + 1;
      }
    }

    method Remove(elt: GoString)
      requires Valid()
      modifies this, m_SortedKeys, Ids(m_SortedKeys.tree)
      ensures Valid() && State() == Removed(hashKey, rRep, old(State()), elt)
      ensures forall id :: id in m_RingMap <==> id in old(m_RingMap) && id !in IdList(hashKey, elt, rRep)
      ensures forall id :: id in m_RingMap ==> m_RingMap[id] == old(m_RingMap)[id]
      ensures m_MemberMap.Keys == old(m_MemberMap).Keys - {elt}
      ensures Ids(m_SortedKeys.tree) <= old(Ids(m_SortedKeys.tree))
    {
      ClearAll(elt);
      m_MemberMap := m_MemberMap - {elt};
      ApplyKeepsGood(hashKey, rRep, old(State()), RingSpec.Remove(elt));
      RemovedIs(hashKey, rRep, old(State()), elt);
    }

    method HasMember(elt: GoString) returns (has: bool)
      ensures has <==> elt in State().members
    {
      has := elt in m_MemberMap;
    }

    // Every member once, in an order of the runtime's choosing.
    method Members() returns (m: seq<GoString>)
      ensures multiset(m) == multiset(State().members)
    {
      m := [];
      var rest := m_MemberMap.Keys;
      while rest != {}
        invariant rest <= m_MemberMap.Keys
        invariant multiset(m) == multiset(m_MemberMap.Keys - rest)
        decreases rest
      {
        var k :| k in rest;
        assert m_MemberMap.Keys - (rest - {k}) == (m_MemberMap.Keys - rest) + {k};
        m := m + [k];
        rest := rest - {k};
      }
      assert m_MemberMap.Keys - rest == m_MemberMap.Keys;
    }

    // The id a hash value is routed to: the ceiling, or else the first id.
    method FindId(key: UInt32) returns (id: UInt32)
      requires Valid() && m_RingMap != map[]
      ensures Valid() && id in m_RingMap && id == Successor(m_RingMap.Keys, key)
    {
      var node, found;
      ghost var i, steps;
      node, found, i, steps := m_SortedKeys.Ceiling(key);
      ghost var s := Entries(m_SortedKeys.tree);
      assert ToMap(s).Keys == m_RingMap.Keys && s != [];
      if !found {
        var itr := new MapIterator.Iterator(m_SortedKeys);
        var first := itr.First();
        if !first {
          assert false;
        }
        id := itr.Key();
        FirstIsSuccessor(s, key);
      } else {
        id := node.Key;
        CeilingIsSuccessor(s, key, i);
      }
    }

    method Get(name: GoString) returns (r: Result<GoString, RingError>)
      requires Valid()
      ensures Valid()
      ensures r == match Route(State(), hashKey(name)) case None => Err(ErrEmptyRing) case Some(elt) => Ok(elt)
      ensures r.Err? <==> m_RingMap == map[]
      ensures r.Ok? ==>
                var k := hashKey(name);
                exists id :: id in m_RingMap && m_RingMap[id] == r.value
                             && forall j :: j in m_RingMap ==> Clockwise(k, id) <= Clockwise(k, j)
    {
      if m_RingMap.Keys == {} {
        return Err(ErrEmptyRing);
      }
      var id := FindId(hashKey(name));
      SuccessorIsNearest(m_RingMap.Keys, hashKey(name), id);
      return Ok(m_RingMap[id]);
    }

    // The hash of what `Get` returns for the decimal form of the value.
    method Get64(val: int) returns (r: Result<UInt32, RingError>)
      requires Valid()
      ensures Valid()
      ensures r == match Route(State(), hashKey(FormatInt(val)))
                   case None => Err(ErrEmptyRing)
                   case Some(elt) => Ok(hashKey(elt))
      ensures r.Err? <==> m_RingMap == map[]
      ensures r.Ok? ==>
                var k := hashKey(FormatInt(val));
                exists id :: id in m_RingMap && hashKey(m_RingMap[id]) == r.value
                             && forall j :: j in m_RingMap ==> Clockwise(k, id) <= Clockwise(k, j)
    {
      if m_RingMap.Keys == {} {
        return Err(ErrEmptyRing);
      }
      var id := FindId(hashKey(FormatInt(val)));
      SuccessorIsNearest(m_RingMap.Keys, hashKey(FormatInt(val)), id);
      return Ok(hashKey(m_RingMap[id]));
    }
  }
}
