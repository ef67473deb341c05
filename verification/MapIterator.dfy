// The bidirectional iterator over a map, and the listings built with it.
module MapIterator {
  import opened Comparators
  import opened SortedEntries
  import opened RedBlackTrees
  import opened TreeSearch
  import opened NodeHeap
  import opened RedBlackMap
  import opened Wrappers

  datatype Position = AtBegin | Between | AtEnd

  // ---------- The in-order index of a node ----------

  ghost function Index<N, K, V>(c: Ctx<N, K, V>, t: Tree<N, K, V>): nat
    requires t.Branch?
  {
    |Before(c)| + |Entries(t.left)|
  }

  lemma EntryAt<N, K, V>(c: Ctx<N, K, V>, t: Tree<N, K, V>)
    requires t.Branch?
    ensures Index(c, t) < |Entries(Plug(c, t))| && Entries(Plug(c, t))[Index(c, t)] == Entry(t.cell)
    ensures |Entries(Plug(c, t))| == |Before(c)| + |Entries(t)| + |After(c)|
  {
    PlugEntries(c, t);
    AroundNode(c, t);
  }

  // The node at the end of a subtree on side `s` has the subtree's first or last index.
  lemma OutermostIndex<N, K, V>(s: Side, c: Ctx<N, K, V>, t: Tree<N, K, V>)
    requires t.Branch?
    ensures var c', t' := OutermostCtx(s, c, t), OutermostTree(s, t);
            && Plug(c', t') == Plug(c, t)
            && Index(c', t') == (if s.L? then |Before(c)| else |Before(c)| + |Entries(t)| - 1)
  {
    Outermost(s, c, t);
    var c', t' := OutermostCtx(s, c, t), OutermostTree(s, t);
    EntryAt(c, t);
    EntryAt(c', t');
  }

  // One step up: the parent is a neighbour of the subtree on the side it lies on.
  lemma ParentIndex<N, K, V>(c: Ctx<N, K, V>, t: Tree<N, K, V>)
    requires c.Frame?
    ensures var p := Join(c.side, t, c.cell, c.sibling);
            && Index(c.up, p) == (if c.side.L? then |Before(c)| + |Entries(t)| else |Before(c)| - 1)
            && |Before(c.up)| + |Entries(p)| + |After(c.up)| == |Before(c)| + |Entries(t)| + |After(c)|
            && (c.side.R? ==> |Before(c.up)| + |Entries(p)| == |Before(c)| + |Entries(t)|)
            && (c.side.L? ==> |Before(c.up)| == |Before(c)|)
  {
  }

  // Keys compare like their indices, which is what the climb relies on.
  lemma CompareIndices<N, K(!new), V>(cmp: (K, K) -> int, c: Ctx<N, K, V>, t: Tree<N, K, V>, c': Ctx<N, K, V>,
          t': Tree<N, K, V>)
    requires t.Branch? && t'.Branch? && Plug(c, t) == Plug(c', t')
    requires IsTotalOrder(cmp) && Sorted(cmp, Entries(Plug(c, t)))
    ensures Index(c, t) < Index(c', t') ==> cmp(t.cell.key, t'.cell.key) < 0
    ensures Index(c, t) > Index(c', t') ==> cmp(t.cell.key, t'.cell.key) > 0
  {
    EntryAt(c, t);
    EntryAt(c', t');
  }

  class Iterator<K(!new), V> {
    const maps: Map<K, V>
    var node: Node?<K, V>
    var position: Position

    // Where the current node is in the map's tree.
    ghost var ctx: NCtx<K, V>
    ghost var sub: NTree<K, V>

    ghost predicate OnNode()
      reads this, maps, CtxIds(ctx), Ids(sub)
    {
      && sub.Branch? && sub.cell.id == node
      && Focus(maps.Root, ctx, sub) && Plug(ctx, sub) == maps.tree
    }

    ghost predicate Valid()
      reads this, maps, Ids(maps.tree), CtxIds(ctx), Ids(sub)
    {
      && maps.Valid()
      && (if position.Between? then OnNode() else node == null)
    }

    // The cursor: -1 before the first entry, the number of entries after the last.
    ghost function Cursor(): int
      reads this, maps
    {
      match position
      case AtBegin => -1
      case AtEnd => |Entries(maps.tree)|
      case Between => if sub.Branch? then Index(ctx, sub) else 0
    }

    lemma CursorRange()
      requires Valid()
      ensures -1 <= Cursor() <= |Entries(maps.tree)|
      ensures position.Between? <==> 0 <= Cursor() < |Entries(maps.tree)|
    {
      if position.Between? {
        EntryAt(ctx, sub);
      }
    }

    constructor (m: Map<K, V>)
      requires m.Valid()
      ensures maps == m && Valid() && Cursor() == -1
    {
      maps := m;
      node, position := null, AtBegin;
      ctx, sub := Top, Leaf;
    }

    method Point(n: Node<K, V>, ghost c: NCtx<K, V>, ghost t: NTree<K, V>)
      modifies this
      ensures node == n && position == Between && ctx == c && sub == t
    {
      node, position := n, Between;
      ctx, sub := c, t;
    }

    // The three ways a move ends.
    method Settle(n: Node<K, V>, ghost c: NCtx<K, V>, ghost t: NTree<K, V>)
      requires maps.Valid() && Focus(maps.Root, c, t) && Plug(c, t) == maps.tree
      requires t.Branch? && t.cell.id == n
      modifies this
      ensures Valid() && Cursor() == Index(c, t) && position.Between?
    {
      assert allocated(CtxIds(c)) && allocated(Ids(t)) && allocated(Ids(maps.tree));
      Point(n, c, t);
      Settled();
    }

    lemma Settled()
      requires position.Between? && sub.Branch? && sub.cell.id == node
      requires maps.Valid() && Focus(maps.Root, ctx, sub) && Plug(ctx, sub) == maps.tree
      ensures Valid() && Cursor() == Index(ctx, sub)
    {
    }

    method Begin()
      requires maps.Valid()
      modifies this
      ensures Valid() && Cursor() == -1 && position.AtBegin?
    {
      node, position := null, AtBegin;
    }

    method End()
      requires maps.Valid()
      modifies this
      ensures Valid() && Cursor() == |Entries(maps.tree)| && position.AtEnd?
    {
      node, position := null, AtEnd;
    }

    // Down to the first or last node of a subtree.
    method Descend(s: Side, start: Node<K, V>, ghost c: NCtx<K, V>, ghost t: NTree<K, V>)
      requires maps.Valid() && Focus(maps.Root, c, t) && Plug(c, t) == maps.tree
      requires t.Branch? && t.cell.id == start
      modifies this
      ensures Valid() && position.Between?
      ensures Cursor() == if s.L? then |Before(c)| else |Before(c)| + |Entries(t)| - 1
    {
      OutermostIndex(s, c, t);
      var n := start;
      ghost var c', t' := c, t;
      FocusNode(maps.Root, c', t');
      while (if s == L then n.Left else n.Right) != null
        invariant maps.Valid() && Focus(maps.Root, c', t') && t'.Branch? && t'.cell.id == n
        invariant n.Left == RootId(t'.left) && n.Right == RootId(t'.right)
        invariant OutermostTree(s, t') == OutermostTree(s, t) && OutermostCtx(s, c', t') == OutermostCtx(s, c, t)
        decreases t'
      {
        FocusDown(s, maps.Root, c', t');
        n := if s == L then n.Left else n.Right;
        c', t' := Down(s, c', t'), Child(s, t');
        FocusNode(maps.Root, c', t');
      }
      Settle(n, c', t');
    }

    // `Next` is a saturating +1 on the cursor.
    method Next() returns (more: bool)
      requires Valid()
      modifies this
      ensures Valid()
      ensures Cursor() == if old(Cursor()) < |Entries(maps.tree)| then old(Cursor()) + 1 else old(Cursor())
      ensures more == (Cursor() < |Entries(maps.tree)|) == position.Between?
    {
      if position == AtEnd {
        End();
        return false;
      }
      if position == AtBegin {
        var left := maps.Left();
        if left == null {
          End();
          return false;
        }
        OutermostIndex(L, Top, maps.tree);
        EntryAt(OutermostCtx(L, Top, maps.tree), OutermostTree(L, maps.tree));
        Settle(left, OutermostCtx(L, Top, maps.tree), OutermostTree(L, maps.tree));
        return true;
      }
      FocusNode(maps.Root, ctx, sub);
      EntryAt(ctx, sub);
      if node.Right != null {
        FocusDown(R, maps.Root, ctx, sub);
        Descend(L, node.Right, Down(R, ctx, sub), sub.right);
        EntryAt(ctx, sub);
        return true;
      }
      more := ClimbNext();
    }

    // From a node without a right child: up to the first key that is not smaller.
    method ClimbNext() returns (more: bool)
      requires Valid() && position.Between? && sub.right.Leaf?
      modifies this
      ensures Valid() && Cursor() == old(Cursor()) + 1
      ensures more == (Cursor() < |Entries(maps.tree)|) == position.Between?
    {
      var current := node;
      ghost var c, t := ctx, sub;
      FocusNode(maps.Root, c, t);
      while current.Parent != null
        invariant Valid() && position.Between? && node == old(node) && ctx == old(ctx) && sub == old(sub)
        invariant Focus(maps.Root, c, t) && Plug(c, t) == maps.tree && t.Branch? && t.cell.id == current
        invariant current.Parent == CtxParent(c)
        invariant |Before(c)| + |Entries(t)| == Cursor() + 1
        decreases Depth(c)
      {
        ghost var p := Join(c.side, t, c.cell, c.sibling);
        ParentIndex(c, t);
        CompareIndices(maps.Comparator, ctx, sub, c.up, p);
        EntryAt(c.up, p);
        FocusNode(maps.Root, ctx, sub);
        FocusUp(maps.Root, c, t);
        FocusNode(maps.Root, c.up, p);
        current := current.Parent;
        if maps.Comparator(node.Key, current.Key) <= 0 {
          Settle(current, c.up, p);
          return true;
        }
        c, t := c.up, p;
      }
      End();
      return false;
    }

    // `Prev` is a saturating -1 on the cursor.
    method Prev() returns (more: bool)
      requires Valid()
      modifies this
      ensures Valid()
      ensures Cursor() == if old(Cursor()) > -1 then old(Cursor()) - 1 else old(Cursor())
      ensures more == (Cursor() > -1) == position.Between?
    {
      if position == AtBegin {
        Begin();
        return false;
      }
      if position == AtEnd {
        var right := maps.Right();
        if right == null {
          Begin();
          return false;
        }
        OutermostIndex(R, Top, maps.tree);
        Settle(right, OutermostCtx(R, Top, maps.tree), OutermostTree(R, maps.tree));
        return true;
      }
      FocusNode(maps.Root, ctx, sub);
      if node.Left != null {
        FocusDown(L, maps.Root, ctx, sub);
        Descend(R, node.Left, Down(L, ctx, sub), sub.left);
        return true;
      }
      more := ClimbPrev();
    }

    // From a node without a left child: up to the first key that is not larger.
    method ClimbPrev() returns (more: bool)
      requires Valid() && position.Between? && sub.left.Leaf?
      modifies this
      ensures Valid() && Cursor() == old(Cursor()) - 1
      ensures more == (Cursor() > -1) == position.Between?
    {
      var current := node;
      ghost var c, t := ctx, sub;
      FocusNode(maps.Root, c, t);
      while current.Parent != null
        invariant Valid() && position.Between? && node == old(node) && ctx == old(ctx) && sub == old(sub)
        invariant Focus(maps.Root, c, t) && Plug(c, t) == maps.tree && t.Branch? && t.cell.id == current
        invariant current.Parent == CtxParent(c)
        invariant |Before(c)| == Cursor()
        decreases Depth(c)
      {
        ghost var p := Join(c.side, t, c.cell, c.sibling);
        ParentIndex(c, t);
        CompareIndices(maps.Comparator, ctx, sub, c.up, p);
        FocusNode(maps.Root, ctx, sub);
        FocusUp(maps.Root, c, t);
        FocusNode(maps.Root, c.up, p);
        current := current.Parent;
        if maps.Comparator(node.Key, current.Key) >= 0 {
          Settle(current, c.up, p);
          return true;
        }
        c, t := c.up, p;
      }
      Begin();
      return false;
    }

    method First() returns (more: bool)
      requires maps.Valid()
      modifies this
      ensures Valid() && more == (Entries(maps.tree) != []) == position.Between?
      ensures more ==> Cursor() == 0
    {
      Begin();
      more := Next();
    }

    method Last() returns (more: bool)
      requires maps.Valid()
      modifies this
      ensures Valid() && more == (Entries(maps.tree) != []) == position.Between?
      ensures more ==> Cursor() == |Entries(maps.tree)| - 1
    {
      End();
      more := Prev();
    }

    method Key() returns (key: K)
      requires Valid() && position.Between?
      ensures Valid() && 0 <= Cursor() < |Entries(maps.tree)| && key == Entries(maps.tree)[Cursor()].0
    {
      FocusNode(maps.Root, ctx, sub);
      EntryAt(ctx, sub);
      key := node.Key;
    }

    method Value() returns (value: V)
      requires Valid() && position.Between?
      ensures Valid() && 0 <= Cursor() < |Entries(maps.tree)| && value == Entries(maps.tree)[Cursor()].1
    {
      FocusNode(maps.Root, ctx, sub);
      EntryAt(ctx, sub);
      value := node.Value;
    }
  }

  // One turn of a scan: `Next`, then `Key` and `Value`.
  method NextEntry<K(!new), V>(it: Iterator<K, V>) returns (e: Option<(K, V)>)
    requires it.Valid()
    modifies it
    ensures it.Valid()
    ensures it.Cursor() == if old(it.Cursor()) < |Entries(it.maps.tree)| then old(it.Cursor()) + 1 else old(it.Cursor())
    ensures e == if it.Cursor() < |Entries(it.maps.tree)| then Some(Entries(it.maps.tree)[it.Cursor()]) else None
  {
    var more := it.Next();
    if !more {
      return None;
    }
    var key := it.Key();
    var value := it.Value();
    return Some((key, value));
  }

  // A step and a step back cancel out exactly where the first step moves.
  method NextThenPrev<K(!new), V>(it: Iterator<K, V>)
    requires it.Valid()
    modifies it
    ensures it.Valid() && (it.Cursor() == old(it.Cursor()) <==> old(it.Cursor()) < |Entries(it.maps.tree)|)
  {
    assert allocated(Ids(it.maps.tree));
    var step := it.Next();
    var back := it.Prev();
  }

  method PrevThenNext<K(!new), V>(it: Iterator<K, V>)
    requires it.Valid()
    modifies it
    ensures it.Valid() && (it.Cursor() == old(it.Cursor()) <==> old(it.Cursor()) > -1)
  {
    assert allocated(Ids(it.maps.tree));
    it.CursorRange();
    var step := it.Prev();
    var back := it.Next();
  }

  // ---------- Listings ----------

  // The listed keys are the map's keys in strictly increasing order.
  ghost predicate Lists<K(!new), V>(cmp: (K, K) -> int, keys: seq<K>, m: map<K, V>) {
    && (forall i, j :: 0 <= i < j < |keys| ==> cmp(keys[i], keys[j]) < 0)
    && (forall k :: k in keys <==> k in m)
    && |keys| == |m|
  }

  function Firsts<K, V>(s: seq<(K, V)>): seq<K> {
    seq(|s|, i requires 0 <= i < |s| => s[i].0)
  }

  function Seconds<K, V>(s: seq<(K, V)>): seq<V> {
    seq(|s|, i requires 0 <= i < |s| => s[i].1)
  }

  lemma EntriesList<K(!new), V>(cmp: (K, K) -> int, s: seq<(K, V)>)
    requires IsTotalOrder(cmp) && Sorted(cmp, s)
    ensures Lists(cmp, Firsts(s), ToMap(s))
  {
    var keys := Firsts(s);
    SortedIsDistinct(cmp, s);
    ToMapDistinct(s);
    forall k
      ensures k in keys <==> k in ToMap(s)
    {
      ToMapKey(s, k);
      if k in keys {
        var i :| 0 <= i < |keys| && keys[i] == k;
        assert s[i].0 == k;
      }
      if HasKey(s, k) {
        var i :| 0 <= i < |s| && s[i].0 == k;
        assert keys[i] == k;
      }
    }
  }

  lemma TakeOneMore<T>(s: seq<T>, n: nat)
    requires n < |s|
    ensures s[..n + 1] == s[..n] + [s[n]]
  {
  }

  // The loop that `Keys` and `Values` share: a full scan visits each entry once, in order.
  method Scan<K(!new), V>(m: Map<K, V>) returns (s: seq<(K, V)>)
    requires m.Valid()
    ensures m.Valid() && s == Entries(m.tree)
  {
    assert allocated(Ids(m.tree));
    ghost var all := Entries(m.tree);
    s := [];
    var it := new Iterator(m);
    while true
      invariant it.Valid() && m.tree == old(m.tree)
      invariant it.Cursor() == |s| - 1 < |all| && s == all[..|s|]
      decreases |all| - |s|
    {
      var e := NextEntry(it);
      if e.None? {
        break;
      }
      TakeOneMore(all, |s|);
      s := s + [e.value];
    }
  }

  method Keys<K(!new), V>(m: Map<K, V>) returns (keys: seq<K>)
    requires m.Valid()
    ensures m.Valid() && keys == Firsts(Entries(m.tree))
    ensures Lists(m.Comparator, keys, m.Model())
  {
    var s := Scan(m);
    keys := Firsts(s);
    EntriesList(m.Comparator, Entries(m.tree));
  }

  // Values line up with the keys: the second component of each entry in key order.
  method Values<K(!new), V>(m: Map<K, V>) returns (values: seq<V>)
    requires m.Valid()
    ensures m.Valid()
    ensures var keys := Firsts(Entries(m.tree));
            && |values| == |keys|
            && forall i :: 0 <= i < |values| ==> keys[i] in m.Model() && values[i] == m.Model()[keys[i]]
  {
    var s := Scan(m);
    values := Seconds(s);
    EntriesValues(m.Comparator, Entries(m.tree));
  }

  lemma EntriesValues<K(!new), V>(cmp: (K, K) -> int, s: seq<(K, V)>)
    requires IsTotalOrder(cmp) && Sorted(cmp, s)
    ensures forall i :: 0 <= i < |s| ==> s[i].0 in ToMap(s) && ToMap(s)[s[i].0] == s[i].1
  {
    SortedIsDistinct(cmp, s);
    ToMapDistinct(s);
  }
}
