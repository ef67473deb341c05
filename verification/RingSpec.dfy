// The consistent hash ring as a value: which member owns which id, where a hash
// value is routed, and what adding and removing members does to the routing.
// The hash function is a parameter: nothing here depends on which one it is.
module RingSpec {
  import opened Comparators
  import opened Wrappers

  type Hash = GoString -> UInt32

  // ---------- Virtual node ids ----------

  // Decimal digits, as `strconv.Itoa` writes them.
  function Itoa(n: nat): GoString {
    if n < 10 then [48 + n] else Itoa(n / 10) + [48 + n % 10]
  }

  function FormatInt(v: int): GoString {
    if v < 0 then [45] + Itoa(-v) else Itoa(v)
  }

  function EltKey(elt: GoString, idx: nat): GoString {
    Itoa(idx) + elt
  }

  function NodeId(h: Hash, elt: GoString, idx: nat): UInt32 {
    h(EltKey(elt, idx))
  }

  ghost function NodeIds(h: Hash, rep: nat, elt: GoString): set<UInt32> {
    set i | 0 <= i < rep :: NodeId(h, elt, i)
  }

  lemma NodeIdsStep(h: Hash, rep: nat, elt: GoString)
    ensures NodeIds(h, 0, elt) == {}
    ensures NodeIds(h, rep + 1, elt) == NodeIds(h, rep, elt) + {NodeId(h, elt, rep)}
  {
    assert NodeId(h, elt, rep) in NodeIds(h, rep + 1, elt);
  }

  lemma {:induction false} ItoaDigits(n: nat)
    ensures |Itoa(n)| >= 1
    ensures n < 10 ==> Itoa(n) == [48 + n]
    ensures n >= 10 ==> |Itoa(n)| >= 2
    ensures forall k :: 0 <= k < |Itoa(n)| ==> 48 <= Itoa(n)[k] < 58
  {
    if n < 10 {
    } else {
      ItoaDigits(n / 10);
    }
  }

  // Virtual node keys tell elements and indices apart.
  ghost predicate KeysApart(rep: nat) {
    forall e, f, i: nat, j: nat :: i < rep && j < rep && EltKey(e, i) == EltKey(f, j) ==> e == f && i == j
  }

  // The key is the index followed by the element without a separator, so this
  // holds exactly as long as every index is a single digit.
  lemma KeysApartIff(rep: nat)
    ensures KeysApart(rep) <==> rep <= 10
  {
    if rep <= 10 {
      forall e, f, i: nat, j: nat | i < rep && j < rep && EltKey(e, i) == EltKey(f, j)
        ensures e == f && i == j
      {
        ItoaDigits(i);
        ItoaDigits(j);
        assert EltKey(e, i)[0] == 48 + i && EltKey(f, j)[0] == 48 + j;
        assert EltKey(e, i)[1..] == e && EltKey(f, j)[1..] == f;
      }
    } else {
      var e, f: GoString := [], [48];
      assert Itoa(10) == Itoa(1) + [48];
      assert EltKey(e, 10) == EltKey(f, 1);
      assert e != f;
    }
  }

  // Reading digits from left to right, after what has been read so far.
  function ReadOn(acc: int, s: GoString): int
    decreases s
  {
    if s == [] then acc else ReadOn(10 * acc + (s[0] as int - 48), s[1..])
  }

  // The decimal numeral of `n`: digits without a leading zero that read as `n`.
  ghost predicate IsNumeral(s: GoString, n: nat) {
    && s != [] && (forall k :: 0 <= k < |s| ==> IsDigit(s[k]))
    && (|s| > 1 ==> s[0] != 48)
    && ReadOn(0, s) == n
  }

  lemma {:induction false} ReadOnSnoc(acc: int, s: GoString, b: Byte)
    ensures ReadOn(acc, s + [b]) == 10 * ReadOn(acc, s) + (b as int - 48)
    decreases s
  {
    if s == [] {
      assert [b][1..] == [] && ReadOn(10 * acc + (b as int - 48), []) == 10 * acc + (b as int - 48);
      assert s + [b] == [b];
    } else {
      assert (s + [b])[1..] == s[1..] + [b];
      ReadOnSnoc(10 * acc + (s[0] as int - 48), s[1..], b);
    }
  }

  lemma {:induction false} ItoaIsNumeral(n: nat)
    ensures IsNumeral(Itoa(n), n) && (n > 0 ==> Itoa(n)[0] != 48)
  {
    ItoaDigits(n);
    if n < 10 {
      ReadOnSnoc(0, [], 48 + n);
      assert [] + [48 + n] == Itoa(n);
    } else {
      ItoaIsNumeral(n / 10);
      ReadOnSnoc(0, Itoa(n / 10), 48 + n % 10);
      assert Itoa(n)[0] == Itoa(n / 10)[0];
    }
  }

  // A number has one numeral, which is what `Itoa` writes.
  lemma {:induction false} NumeralIsItoa(s: GoString, n: nat)
    ensures IsNumeral(s, n) <==> s == Itoa(n)
  {
    if IsNumeral(s, n) {
      var front, last := s[..|s| - 1], s[|s| - 1];
      assert s == front + [last] && IsDigit(last);
      ReadOnSnoc(0, front, last);
      if front == [] {
        assert n == last as int - 48;
      } else {
        assert IsDigit(front[0]) && front[0] == s[0];
        ReadOnGrows(1, front[1..]);
        ReadOnGrows(front[0] as int - 48, front[1..]);
        var m := ReadOn(0, front);
        assert n == 10 * m + (last as int - 48);
        assert n / 10 == m && n % 10 == last as int - 48;
        NumeralIsItoa(front, m);
      }
    }
    ItoaIsNumeral(n);
  }

  lemma {:induction false} ReadOnGrows(acc: int, s: GoString)
    requires acc >= 0 && forall k :: 0 <= k < |s| ==> IsDigit(s[k])
    ensures ReadOn(acc, s) >= acc
    decreases s
  {
    if s == [] {
    } else {
      assert IsDigit(s[0]);
      ReadOnGrows(10 * acc + (s[0] as int - 48), s[1..]);
    }
  }

  // A sign and a numeral.
  function ReadSigned(s: GoString): int {
    if s != [] && s[0] == 45 then -ReadOn(0, s[1..]) else ReadOn(0, s)
  }

  // The decimal form of a value reads back, and only a negative one has a sign.
  lemma FormatIntReadsBack(v: int)
    ensures ReadSigned(FormatInt(v)) == v
    ensures v >= 0 ==> IsNumeral(FormatInt(v), v)
    ensures v < 0 ==> FormatInt(v)[0] == 45 && IsNumeral(FormatInt(v)[1..], -v)
  {
    var digits := Itoa(if v < 0 then -v else v);
    ItoaIsNumeral(if v < 0 then -v else v);
    assert IsDigit(digits[0]);
    if v < 0 {
      assert FormatInt(v)[1..] == digits;
    }
  }

  predicate IsDigit(b: Byte) {
    48 <= b < 58
  }

  lemma {:induction false} ItoaInjective(m: nat, n: nat)
    requires Itoa(m) == Itoa(n)
    ensures m == n
  {
    ItoaDigits(m);
    ItoaDigits(n);
    if m < 10 {
    } else {
      var a, b := Itoa(m / 10), Itoa(n / 10);
      assert Itoa(m)[..|a|] == a && Itoa(n)[..|b|] == b && |a| == |b|;
      ItoaInjective(m / 10, n / 10);
      assert Itoa(m)[|a|] == 48 + m % 10 && Itoa(n)[|b|] == 48 + n % 10;
    }
  }

  // Of two ways to split a key after leading digits, the shorter leaves a digit.
  lemma LongerDigits(a: GoString, e: GoString, b: GoString, f: GoString)
    requires a + e == b + f && forall k :: 0 <= k < |b| ==> IsDigit(b[k])
    ensures |a| < |b| ==> e != [] && IsDigit(e[0])
  {
    if |a| < |b| {
      assert (a + e)[|a|] == (b + f)[|a|] == b[|a|];
    }
  }

  // With any number of replicas, elements that do not begin with a digit have keys
  // of their own.
  lemma PathKeysApart(e: GoString, f: GoString, i: nat, j: nat)
    requires e != [] ==> !IsDigit(e[0])
    requires f != [] ==> !IsDigit(f[0])
    requires EltKey(e, i) == EltKey(f, j)
    ensures e == f && i == j
  {
    var key, a, b := EltKey(e, i), Itoa(i), Itoa(j);
    ItoaDigits(i);
    ItoaDigits(j);
    LongerDigits(a, e, b, f);
    LongerDigits(b, f, a, e);
    assert key[..|a|] == a && key[|a|..] == e && key[..|b|] == b && key[|b|..] == f;
    ItoaInjective(i, j);
  }

  // ---------- The ring and its updates ----------

  datatype Ring = Ring(owner: map<UInt32, GoString>, members: set<GoString>)

  const EMPTY: Ring := Ring(map[], {})

  ghost function Claim(ids: set<UInt32>, elt: GoString): map<UInt32, GoString> {
    map id | id in ids :: elt
  }

  ghost function Added(h: Hash, rep: nat, r: Ring, elt: GoString): Ring {
    Ring(r.owner + Claim(NodeIds(h, rep, elt), elt), r.members + {elt})
  }

  ghost function Removed(h: Hash, rep: nat, r: Ring, elt: GoString): Ring {
    Ring(r.owner - NodeIds(h, rep, elt), r.members - {elt})
  }

  // One more virtual node claimed, or given up.
  lemma ClaimStep(h: Hash, rep: nat, owner: map<UInt32, GoString>, elt: GoString)
    ensures (owner + Claim(NodeIds(h, rep, elt), elt))[NodeId(h, elt, rep) := elt]
            == owner + Claim(NodeIds(h, rep + 1, elt), elt)
    ensures (owner - NodeIds(h, rep, elt)) - {NodeId(h, elt, rep)} == owner - NodeIds(h, rep + 1, elt)
  {
    NodeIdsStep(h, rep, elt);
  }

  ghost function IdList(h: Hash, elt: GoString, n: nat): seq<UInt32> {
    if n == 0 then [] else IdList(h, elt, n - 1) + [NodeId(h, elt, n - 1)]
  }

  lemma {:induction false} IdListIs(h: Hash, elt: GoString, n: nat)
    ensures |IdList(h, elt, n)| == n
    ensures forall i :: 0 <= i < n ==> IdList(h, elt, n)[i] == h(Itoa(i) + elt)
    ensures forall id :: id in IdList(h, elt, n) <==> id in NodeIds(h, n, elt)
  {
    NodeIdsStep(h, if n == 0 then 0 else n - 1, elt);
    if n == 0 {
    } else {
      IdListIs(h, elt, n - 1);
    }
  }

  // What adding and removing do to single ids.
  lemma AddedIs(h: Hash, rep: nat, r: Ring, elt: GoString)
    ensures var r', ids := Added(h, rep, r, elt), IdList(h, elt, rep);
            && r'.members == r.members + {elt}
            && (forall id :: id in r'.owner <==> id in r.owner || id in ids)
            && (forall id :: id in r'.owner ==> r'.owner[id] == if id in ids then elt else r.owner[id])
  {
    IdListIs(h, elt, rep);
  }

  lemma RemovedIs(h: Hash, rep: nat, r: Ring, elt: GoString)
    ensures var r', ids := Removed(h, rep, r, elt), IdList(h, elt, rep);
            && r'.members == r.members - {elt}
            && (forall id :: id in r'.owner <==> id in r.owner && id !in ids)
            && (forall id :: id in r'.owner ==> r'.owner[id] == r.owner[id])
  {
    IdListIs(h, elt, rep);
  }

  // Every id is owned by a current member that has it among its virtual nodes.
  ghost predicate Good(h: Hash, rep: nat, r: Ring) {
    forall id :: id in r.owner ==> r.owner[id] in r.members && id in NodeIds(h, rep, r.owner[id])
  }

  datatype Op = Add(elt: GoString) | Remove(elt: GoString)

  ghost function Apply(h: Hash, rep: nat, r: Ring, op: Op): Ring {
    match op
    case Add(elt) => Added(h, rep, r, elt)
    case Remove(elt) => Removed(h, rep, r, elt)
  }

  ghost function Run(h: Hash, rep: nat, ops: seq<Op>): Ring {
    if ops == [] then EMPTY else Apply(h, rep, Run(h, rep, ops[..|ops| - 1]), ops[|ops| - 1])
  }

  lemma ApplyKeepsGood(h: Hash, rep: nat, r: Ring, op: Op)
    requires Good(h, rep, r)
    ensures Good(h, rep, Apply(h, rep, r, op))
  {
  }

  // In every run, even with colliding ids.
  lemma {:induction false} RunIsGood(h: Hash, rep: nat, ops: seq<Op>)
    ensures Good(h, rep, Run(h, rep, ops))
  {
    if ops == [] {
    } else {
      RunIsGood(h, rep, ops[..|ops| - 1]);
      ApplyKeepsGood(h, rep, Run(h, rep, ops[..|ops| - 1]), ops[|ops| - 1]);
    }
  }

  // ---------- Routing ----------

  // The smallest id not below `k`, or the smallest id at all if there is none.
  ghost predicate IsSuccessor(ids: set<UInt32>, k: UInt32, id: UInt32) {
    && id in ids
    && (if id >= k then forall j :: j in ids && j >= k ==> id <= j
        else forall j :: j in ids ==> j < k && id <= j)
  }

  // How far `id` lies from `k` on the circle of the uint32 values.
  function Clockwise(k: UInt32, id: UInt32): nat {
    if id >= k then id - k else 0x1_0000_0000 - (k - id)
  }

  // The successor is the nearest id clockwise.
  lemma SuccessorIsNearest(ids: set<UInt32>, k: UInt32, id: UInt32)
    ensures IsSuccessor(ids, k, id) <==> id in ids && forall j :: j in ids ==> Clockwise(k, id) <= Clockwise(k, j)
  {
    if id in ids && forall j :: j in ids ==> Clockwise(k, id) <= Clockwise(k, j) {
      forall j | j in ids
        ensures if id >= k then j >= k ==> id <= j else j < k && id <= j
      {
        assert Clockwise(k, id) <= Clockwise(k, j);
      }
    }
  }

  lemma {:induction false} LeastExists(ids: set<UInt32>) returns (least: UInt32)
    requires ids != {}
    ensures least in ids && forall j :: j in ids ==> least <= j
    decreases |ids|
  {
    var some: UInt32 :| some in ids;
    var rest := ids - {some};
    assert forall j :: j in ids ==> j == some || j in rest;
    if rest == {} {
      return some;
    }
    var other := LeastExists(rest);
    least := if other < some then other else some;
  }

  lemma SuccessorExists(ids: set<UInt32>, k: UInt32)
    requires ids != {}
    ensures exists id :: IsSuccessor(ids, k, id)
  {
    var above := set j | j in ids && j >= k;
    assert forall j :: j in ids && j >= k ==> j in above;
    if above != {} {
      var id := LeastExists(above);
      assert id in above;
      assert IsSuccessor(ids, k, id);
    } else {
      var id := LeastExists(ids);
      assert IsSuccessor(ids, k, id);
    }
  }

  ghost function Successor(ids: set<UInt32>, k: UInt32): (id: UInt32)
    requires ids != {}
    ensures IsSuccessor(ids, k, id)
    ensures forall other :: IsSuccessor(ids, k, other) ==> other == id
  {
    SuccessorExists(ids, k);
    var id :| IsSuccessor(ids, k, id);
    id
  }

  ghost function Route(r: Ring, k: UInt32): Option<GoString> {
    if r.owner.Keys == {} then None else Some(r.owner[Successor(r.owner.Keys, k)])
  }

  lemma RoutesToMembers(h: Hash, rep: nat, r: Ring, k: UInt32)
    requires Good(h, rep, r)
    ensures Route(r, k).None? <==> r.owner == map[]
    ensures Route(r, k).Some? ==> Route(r, k).value in r.members
  {
    if r.owner.Keys == {} {
      assert r.owner == map[];
    }
  }

  // Routing as the owner of the nearest id clockwise.
  lemma RouteIsNearestOwner(r: Ring, k: UInt32, elt: GoString)
    ensures Route(r, k) == Some(elt)
            <==> exists id :: id in r.owner && r.owner[id] == elt
                              && forall j :: j in r.owner ==> Clockwise(k, id) <= Clockwise(k, j)
  {
    if Route(r, k) == Some(elt) {
      var id := Successor(r.owner.Keys, k);
      SuccessorIsNearest(r.owner.Keys, k, id);
    }
    if id :| id in r.owner && r.owner[id] == elt && forall j :: j in r.owner ==> Clockwise(k, id) <= Clockwise(k, j) {
      SuccessorIsNearest(r.owner.Keys, k, id);
      assert IsSuccessor(r.owner.Keys, k, id);
    }
  }

  // ---------- Minimal disruption ----------

  // Ids that are merely added either become the successor or leave it alone.
  lemma SuccessorAfterAdd(ids: set<UInt32>, more: set<UInt32>, k: UInt32)
    requires ids != {}
    ensures Successor(ids + more, k) in more || Successor(ids + more, k) == Successor(ids, k)
  {
    var id := Successor(ids + more, k);
    if id !in more {
      assert IsSuccessor(ids, k, id);
    }
  }

  lemma SuccessorAfterRemove(ids: set<UInt32>, less: set<UInt32>, k: UInt32)
    requires ids != {} && Successor(ids, k) !in less
    ensures ids - less != {} && Successor(ids - less, k) == Successor(ids, k)
  {
    var id := Successor(ids, k);
    assert id in ids - less;
    assert IsSuccessor(ids - less, k, id);
  }

  // Adding a member moves a hash value to the new member or not at all, even when
  // ids collide.
  lemma AddDisruptsMinimally(h: Hash, rep: nat, r: Ring, elt: GoString, k: UInt32)
    requires r.owner != map[]
    ensures Route(Added(h, rep, r, elt), k) == Route(r, k) || Route(Added(h, rep, r, elt), k) == Some(elt)
  {
    assert r.owner.Keys != {};
    var ids := NodeIds(h, rep, elt);
    assert Added(h, rep, r, elt).owner.Keys == r.owner.Keys + ids;
    SuccessorAfterAdd(r.owner.Keys, ids, k);
  }

  // Removing a member leaves every hash value alone whose id does not disappear.
  lemma RemoveKeepsSurvivors(h: Hash, rep: nat, r: Ring, elt: GoString, k: UInt32)
    requires r.owner != map[] && Successor(r.owner.Keys, k) !in NodeIds(h, rep, elt)
    ensures Route(Removed(h, rep, r, elt), k) == Route(r, k)
  {
    assert r.owner.Keys != {};
    assert Removed(h, rep, r, elt).owner.Keys == r.owner.Keys - NodeIds(h, rep, elt);
    SuccessorAfterRemove(r.owner.Keys, NodeIds(h, rep, elt), k);
  }

  // Nobody else owns an id of `elt`.
  ghost predicate OwnsItsIds(h: Hash, rep: nat, r: Ring, elt: GoString) {
    forall id :: id in NodeIds(h, rep, elt) && id in r.owner ==> r.owner[id] == elt
  }

  lemma RemoveDisruptsMinimally(h: Hash, rep: nat, r: Ring, elt: GoString, k: UInt32)
    requires r.owner != map[] && OwnsItsIds(h, rep, r, elt) && Route(r, k) != Some(elt)
    ensures Route(Removed(h, rep, r, elt), k) == Route(r, k)
  {
    assert r.owner.Keys != {};
    RemoveKeepsSurvivors(h, rep, r, elt, k);
  }

  // The route of every name that does not belong to `elt` is kept.
  ghost predicate KeepsOthers(h: Hash, rep: nat, r: Ring, elt: GoString) {
    forall k :: Route(r, k) != Some(elt) ==> Route(Removed(h, rep, r, elt), k) == Route(r, k)
  }

  // An id of `elt` that another member owns falls to that member again.
  ghost predicate FallsBack(h: Hash, rep: nat, r: Ring, elt: GoString) {
    forall id :: id in NodeIds(h, rep, elt) && id in r.owner && r.owner[id] != elt ==>
      Route(Removed(h, rep, r, elt), id) == Some(r.owner[id])
  }

  // If the successor of `k` disappears, `k` goes where that successor goes.
  lemma SuccessorThrough(ids: set<UInt32>, less: set<UInt32>, k: UInt32)
    requires ids != {} && ids - less != {}
    ensures Successor(ids, k) in less ==> Successor(ids - less, k) == Successor(ids - less, Successor(ids, k))
  {
    var id := Successor(ids, k);
    var next := Successor(ids - less, id);
    assert id in less ==> IsSuccessor(ids - less, k, next);
  }

  lemma RouteAtId(r: Ring, id: UInt32)
    requires id in r.owner
    ensures Route(r, id) == Some(r.owner[id])
  {
    assert IsSuccessor(r.owner.Keys, id, id);
  }

  // The exact condition, which owning all of its ids is one way to meet.
  lemma RemoveKeepsOthersIff(h: Hash, rep: nat, r: Ring, elt: GoString)
    ensures KeepsOthers(h, rep, r, elt) <==> FallsBack(h, rep, r, elt)
    ensures OwnsItsIds(h, rep, r, elt) ==> FallsBack(h, rep, r, elt)
  {
    var ids, less := r.owner.Keys, NodeIds(h, rep, elt);
    var r' := Removed(h, rep, r, elt);
    assert r'.owner.Keys == ids - less;
    if KeepsOthers(h, rep, r, elt) {
      forall id | id in less && id in r.owner && r.owner[id] != elt
        ensures Route(r', id) == Some(r.owner[id])
      {
        RouteAtId(r, id);
      }
    }
    if FallsBack(h, rep, r, elt) {
      forall k | Route(r, k) != Some(elt)
        ensures Route(r', k) == Route(r, k)
      {
        if r.owner != map[] {
          FallsBackAt(h, rep, r, elt, k);
        }
      }
    }
  }

  lemma FallsBackAt(h: Hash, rep: nat, r: Ring, elt: GoString, k: UInt32)
    requires FallsBack(h, rep, r, elt) && r.owner != map[] && Route(r, k) != Some(elt)
    ensures Route(Removed(h, rep, r, elt), k) == Route(r, k)
  {
    var ids, less := r.owner.Keys, NodeIds(h, rep, elt);
    var r' := Removed(h, rep, r, elt);
    assert r'.owner.Keys == ids - less && ids != {};
    var id := Successor(ids, k);
    if id in less {
      assert Route(r', id) == Some(r.owner[id]);
      SuccessorThrough(ids, less, k);
    } else {
      RemoveKeepsSurvivors(h, rep, r, elt, k);
    }
  }

  // ---------- Undoing ----------

  lemma AddTwice(h: Hash, rep: nat, r: Ring, elt: GoString)
    ensures Added(h, rep, Added(h, rep, r, elt), elt) == Added(h, rep, r, elt)
  {
  }

  // Remove undoes Add exactly for a new member whose ids were all free.
  lemma RemoveUndoesAddIff(h: Hash, rep: nat, r: Ring, elt: GoString)
    ensures Removed(h, rep, Added(h, rep, r, elt), elt) == r
            <==> elt !in r.members && NodeIds(h, rep, elt) !! r.owner.Keys
  {
    var ids := NodeIds(h, rep, elt);
    var back := Removed(h, rep, Added(h, rep, r, elt), elt);
    assert back.owner == r.owner - ids;
    if NodeIds(h, rep, elt) !! r.owner.Keys {
      assert r.owner - ids == r.owner;
    } else {
      var id :| id in ids && id in r.owner;
      assert id !in back.owner;
    }
  }

  // ---------- Agreement between processes ----------

  ghost predicate Disjoint(h: Hash, rep: nat, e: GoString, f: GoString) {
    NodeIds(h, rep, e) !! NodeIds(h, rep, f)
  }

  // No two different elements of `elts` share an id.
  ghost predicate NoClash(h: Hash, rep: nat, elts: set<GoString>) {
    forall e, f :: e in elts && f in elts && e != f ==> Disjoint(h, rep, e, f)
  }

  ghost predicate Over(elts: set<GoString>, ops: seq<Op>) {
    forall i :: 0 <= i < |ops| ==> ops[i].elt in elts
  }

  // What the members alone say the owners should be.
  ghost predicate Canonical(h: Hash, rep: nat, r: Ring) {
    && Good(h, rep, r)
    && forall m, id :: m in r.members && id in NodeIds(h, rep, m) ==> id in r.owner && r.owner[id] == m
  }

  lemma ApplyKeepsCanonical(h: Hash, rep: nat, elts: set<GoString>, r: Ring, op: Op)
    requires NoClash(h, rep, elts) && Canonical(h, rep, r) && r.members <= elts && op.elt in elts
    ensures Canonical(h, rep, Apply(h, rep, r, op))
  {
    ApplyKeepsGood(h, rep, r, op);
    var r' := Apply(h, rep, r, op);
    forall m, id | m in r'.members && id in NodeIds(h, rep, m)
      ensures id in r'.owner && r'.owner[id] == m
    {
      assert m != op.elt ==> Disjoint(h, rep, m, op.elt);
    }
  }

  lemma {:induction false} RunIsCanonical(h: Hash, rep: nat, elts: set<GoString>, ops: seq<Op>)
    requires NoClash(h, rep, elts) && Over(elts, ops)
    ensures Canonical(h, rep, Run(h, rep, ops)) && Run(h, rep, ops).members <= elts
  {
    if ops == [] {
    } else {
      RunIsCanonical(h, rep, elts, ops[..|ops| - 1]);
      ApplyKeepsCanonical(h, rep, elts, Run(h, rep, ops[..|ops| - 1]), ops[|ops| - 1]);
    }
  }

  lemma CanonicalIsUnique(h: Hash, rep: nat, r: Ring, s: Ring)
    requires Canonical(h, rep, r) && Canonical(h, rep, s) && r.members == s.members
    ensures r == s
  {
    assert r.owner.Keys == s.owner.Keys;
  }

  // Two processes that saw different events but hold the same members route every
  // hash value to the same member.
  ghost predicate AlwaysAgree(h: Hash, rep: nat, elts: set<GoString>) {
    forall ops, ops', k ::
      Over(elts, ops) && Over(elts, ops') && Run(h, rep, ops).members == Run(h, rep, ops').members
      ==> Route(Run(h, rep, ops), k) == Route(Run(h, rep, ops'), k)
  }

  lemma Agreement(h: Hash, rep: nat, elts: set<GoString>, ops: seq<Op>, ops': seq<Op>, k: UInt32)
    requires NoClash(h, rep, elts) && Over(elts, ops) && Over(elts, ops')
    requires Run(h, rep, ops).members == Run(h, rep, ops').members
    ensures Run(h, rep, ops) == Run(h, rep, ops')
    ensures Route(Run(h, rep, ops), k) == Route(Run(h, rep, ops'), k)
  {
    RunIsCanonical(h, rep, elts, ops);
    RunIsCanonical(h, rep, elts, ops');
    CanonicalIsUnique(h, rep, Run(h, rep, ops), Run(h, rep, ops'));
  }

  // Two members that share an id: the one added last owns it.
  lemma ClashBreaksAgreement(h: Hash, rep: nat, e: GoString, f: GoString, id: UInt32)
    requires e != f && id in NodeIds(h, rep, e) && id in NodeIds(h, rep, f)
    ensures var r, s := Run(h, rep, [Add(e), Add(f)]), Run(h, rep, [Add(f), Add(e)]);
            r.members == s.members && Route(r, id) == Some(f) && Route(s, id) == Some(e)
  {
    LastAddOwns(h, rep, e, f, id);
    LastAddOwns(h, rep, f, e, id);
  }

  lemma LastAddOwns(h: Hash, rep: nat, e: GoString, f: GoString, id: UInt32)
    requires id in NodeIds(h, rep, f)
    ensures var r := Run(h, rep, [Add(e), Add(f)]);
            r.members == {e, f} && Route(r, id) == Some(f)
  {
    var ops := [Add(e), Add(f)];
    assert ops[..1] == [Add(e)] && ops[..1][..0] == [];
    var r := Run(h, rep, ops);
    assert Run(h, rep, ops[..1]) == Added(h, rep, EMPTY, e) by {
      assert Run(h, rep, ops[..1][..0]) == EMPTY;
    }
    assert r == Added(h, rep, Added(h, rep, EMPTY, e), f);
    assert id in r.owner && r.owner[id] == f;
    assert IsSuccessor(r.owner.Keys, id, id);
  }

  lemma NoClashAgrees(h: Hash, rep: nat, elts: set<GoString>)
    requires NoClash(h, rep, elts)
    ensures AlwaysAgree(h, rep, elts)
  {
    forall ops, ops', k | Over(elts, ops) && Over(elts, ops') && Run(h, rep, ops).members == Run(h, rep, ops').members
      ensures Route(Run(h, rep, ops), k) == Route(Run(h, rep, ops'), k)
    {
      Agreement(h, rep, elts, ops, ops', k);
    }
  }

  lemma TwoAddsOver(elts: set<GoString>, e: GoString, f: GoString)
    requires e in elts && f in elts
    ensures Over(elts, [Add(e), Add(f)])
  {
  }

  lemma ClashDisagrees(h: Hash, rep: nat, elts: set<GoString>, e: GoString, f: GoString, id: UInt32)
    requires e in elts && f in elts && e != f && id in NodeIds(h, rep, e) && id in NodeIds(h, rep, f)
    ensures !AlwaysAgree(h, rep, elts)
  {
    ClashBreaksAgreement(h, rep, e, f, id);
    var ops, ops' := [Add(e), Add(f)], [Add(f), Add(e)];
    TwoAddsOver(elts, e, f);
    TwoAddsOver(elts, f, e);
    assert Route(Run(h, rep, ops), id) != Route(Run(h, rep, ops'), id);
  }

  // Agreement in all runs is exactly the absence of shared ids.
  lemma AgreementIff(h: Hash, rep: nat, elts: set<GoString>)
    ensures AlwaysAgree(h, rep, elts) <==> NoClash(h, rep, elts)
  {
    if NoClash(h, rep, elts) {
      NoClashAgrees(h, rep, elts);
    } else {
      var e, f :| e in elts && f in elts && e != f && !Disjoint(h, rep, e, f);
      var id :| id in NodeIds(h, rep, e) && id in NodeIds(h, rep, f);
      ClashDisagrees(h, rep, elts, e, f, id);
    }
  }
}
