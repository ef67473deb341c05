// Searching a sorted tree: what a descent from the root knows about the entries
// around its hole, and where the rightmost node of a subtree is.
module TreeSearch {
  import opened Comparators
  import opened SortedEntries
  import opened RedBlackTrees

  // The context after moving down to the child on side `s`.
  ghost function Down<N, K, V>(s: Side, c: Ctx<N, K, V>, t: Tree<N, K, V>): Ctx<N, K, V>
    requires t.Branch?
  {
    Frame(c, s, t.cell, Child(Flip(s), t))
  }

  // Everything left of the hole is below `key` and everything right of it above,
  // so that `key` can only be inside the hole.
  ghost predicate Brackets<N, K(!new), V>(cmp: (K, K) -> int, c: Ctx<N, K, V>, key: K) {
    AllBelow(cmp, Before(c), key) && AllAbove(cmp, After(c), key)
  }

  lemma DownAround<N, K, V>(s: Side, c: Ctx<N, K, V>, t: Tree<N, K, V>)
    requires t.Branch?
    ensures Around(Down(s, c, t), Child(s, t)) == Around(c, t)
    ensures Plug(Down(s, c, t), Child(s, t)) == Plug(c, t)
  {
    FrameAround(Down(s, c, t), Child(s, t));
  }

  lemma AroundNode<N, K, V>(c: Ctx<N, K, V>, t: Tree<N, K, V>)
    requires t.Branch?
    ensures Around(c, t) == (Before(c) + Entries(t.left)) + [Entry(t.cell)] + (Entries(t.right) + After(c))
  {
    var b, l, e, r, a := Before(c), Entries(t.left), [Entry(t.cell)], Entries(t.right), After(c);
    Regroup(b, l + e, r, a);
    assert b + (l + e) == (b + l) + e;
  }

  // The entries around a node, split at the node.
  lemma SplitAtNode<N, K(!new), V>(cmp: (K, K) -> int, c: Ctx<N, K, V>, t: Tree<N, K, V>)
    requires t.Branch? && Sorted(cmp, Around(c, t))
    ensures Around(c, t) == (Before(c) + Entries(t.left)) + [Entry(t.cell)] + (Entries(t.right) + After(c))
    ensures AllBelow(cmp, Before(c) + Entries(t.left), t.cell.key)
    ensures AllAbove(cmp, Entries(t.right) + After(c), t.cell.key)
    ensures Sorted(cmp, (Before(c) + Entries(t.left)) + (Entries(t.right) + After(c)))
  {
    var before, after := Before(c) + Entries(t.left), Entries(t.right) + After(c);
    AroundNode(c, t);
    SortedSplit(cmp, before, t.cell.key, t.cell.value, after);
  }

  // What lies to both sides one step further down.
  lemma DownSides<N, K, V>(c: Ctx<N, K, V>, t: Tree<N, K, V>)
    requires t.Branch?
    ensures Before(Down(L, c, t)) == Before(c)
    ensures After(Down(L, c, t)) == [Entry(t.cell)] + (Entries(t.right) + After(c))
    ensures Before(Down(R, c, t)) == (Before(c) + Entries(t.left)) + [Entry(t.cell)]
    ensures After(Down(R, c, t)) == After(c)
  {
    var l, e, r := Entries(t.left), [Entry(t.cell)], Entries(t.right);
    assert (e + r) + After(c) == e + (r + After(c));
  }

  lemma Descend<N, K(!new), V>(cmp: (K, K) -> int, s: Side, c: Ctx<N, K, V>, t: Tree<N, K, V>, key: K)
    requires IsTotalOrder(cmp) && Brackets(cmp, c, key)
    requires t.Branch? && Sorted(cmp, Around(c, t))
    requires if s.L? then cmp(key, t.cell.key) < 0 else cmp(key, t.cell.key) > 0
    ensures Brackets(cmp, Down(s, c, t), key)
  {
    SplitAtNode(cmp, c, t);
    DownSides(c, t);
    if s.L? {
      AboveExtend(cmp, key, Entry(t.cell), Entries(t.right) + After(c));
    } else {
      BelowExtend(cmp, Before(c) + Entries(t.left), Entry(t.cell), key);
    }
  }

  // ---------- The last node of a subtree on one side ----------

  // Following children on side `s` as far as they go.
  ghost function OutermostCtx<N, K, V>(s: Side, c: Ctx<N, K, V>, t: Tree<N, K, V>): Ctx<N, K, V>
    requires t.Branch?
    decreases t
  {
    if Child(s, t).Leaf? then c else OutermostCtx(s, Down(s, c, t), Child(s, t))
  }

  ghost function OutermostTree<N, K, V>(s: Side, t: Tree<N, K, V>): (last: Tree<N, K, V>)
    requires t.Branch?
    ensures last.Branch? && Child(s, last).Leaf?
    decreases t
  {
    if Child(s, t).Leaf? then t else OutermostTree(s, Child(s, t))
  }

  lemma {:induction false} Outermost<N, K, V>(s: Side, c: Ctx<N, K, V>, t: Tree<N, K, V>)
    requires t.Branch?
    ensures var c', t' := OutermostCtx(s, c, t), OutermostTree(s, t);
            && Plug(c', t') == Plug(c, t)
            && Around(c', t') == Around(c, t)
            && (if s.L? then Before(c') == Before(c) else After(c') == After(c))
    decreases t
  {
    if Child(s, t).Leaf? {
    } else {
      DownAround(s, c, t);
      Outermost(s, Down(s, c, t), Child(s, t));
    }
  }

  lemma {:induction false} OutermostEntry<N, K, V>(s: Side, t: Tree<N, K, V>)
    requires t.Branch?
    ensures Entries(t) != []
    ensures Entry(OutermostTree(s, t).cell) == if s.L? then Entries(t)[0] else Entries(t)[|Entries(t)| - 1]
    decreases t
  {
    if Child(s, t).Leaf? {
    } else {
      OutermostEntry(s, Child(s, t));
    }
  }
}
