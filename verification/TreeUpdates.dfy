// What `Put` and `Remove` do to a sorted red-black tree, seen as values: the
// result is again sorted and red-black, and its map changed at one key only.
module TreeUpdates {
  import opened Comparators
  import opened SortedEntries
  import opened RedBlackTrees
  import opened RedBlackRepair
  import opened TreeSearch

  ghost predicate GoodTree<N, K(!new), V>(cmp: (K, K) -> int, t: Tree<N, K, V>) {
    IsTotalOrder(cmp) && IsRedBlack(t) && Sorted(cmp, Entries(t))
  }

  ghost function Recell<N, K, V>(t: Tree<N, K, V>, key: K, value: V): Tree<N, K, V>
    requires t.Branch?
  {
    t.(cell := t.cell.(key := key, value := value))
  }

  lemma RecellIsRedBlack<N, K, V>(c: Ctx<N, K, V>, t: Tree<N, K, V>, key: K, value: V)
    requires t.Branch? && IsRedBlack(Plug(c, t))
    ensures IsRedBlack(Plug(c, Recell(t, key, value)))
  {
    var h := SplitRedBlack(c, t);
    PlugIsRedBlack(c, Recell(t, key, value), h);
  }

  lemma RecellEntries<N, K, V>(c: Ctx<N, K, V>, t: Tree<N, K, V>, key: K, value: V)
    requires t.Branch?
    ensures Entries(Plug(c, Recell(t, key, value)))
            == (Before(c) + Entries(t.left)) + [(key, value)] + (Entries(t.right) + After(c))
    ensures Ids(Plug(c, Recell(t, key, value))) == Ids(Plug(c, t))
  {
    PlugEntries(c, Recell(t, key, value));
    AroundNode(c, Recell(t, key, value));
    PlugIds(c, t);
    PlugIds(c, Recell(t, key, value));
  }

  // A node that already has the key gets a new value.
  lemma OverwriteTree<N, K(!new), V>(cmp: (K, K) -> int, c: Ctx<N, K, V>, t: Tree<N, K, V>, value: V)
    requires t.Branch? && GoodTree(cmp, Plug(c, t))
    ensures var t' := Plug(c, Recell(t, t.cell.key, value));
            && GoodTree(cmp, t') && Ids(t') == Ids(Plug(c, t)) && |Entries(t')| == |Entries(Plug(c, t))|
            && ToMap(Entries(t')) == ToMap(Entries(Plug(c, t)))[t.cell.key := value]
  {
    assert Recell(t, t.cell.key, t.cell.value) == t;
    RecellIsRedBlack(c, t, t.cell.key, value);
    RecellEntries(c, t, t.cell.key, t.cell.value);
    RecellEntries(c, t, t.cell.key, value);
    PutExisting(cmp, Before(c) + Entries(t.left), t.cell.key, t.cell.value, value, Entries(t.right) + After(c));
  }

  lemma HoleContents<N, K, V>(c: Ctx<N, K, V>)
    ensures Entries(Plug(c, Leaf)) == Before(c) + After(c) && Ids(Plug(c, Leaf)) == CtxIds(c)
  {
    var hole: Tree<N, K, V> := Leaf;
    PlugEntries(c, hole);
    PlugIds(c, hole);
  }

  lemma InsertContents<N, K, V>(c: Ctx<N, K, V>, cell: Cell<N, K, V>)
    requires CtxNoRedRed(c)
    ensures var t' := InsertFix(c, Branch(Leaf, cell, Leaf));
            && Entries(t') == Before(c) + [Entry(cell)] + After(c)
            && Ids(t') == CtxIds(c) + {cell.id}
  {
    var t := Branch(Leaf, cell, Leaf);
    InsertFixContents(c, t);
    assert Entries(t) == [Entry(cell)] && Ids(t) == {cell.id};
  }

  // A new red node in the hole a search for its key has ended in, then the repair.
  lemma InsertTree<N, K(!new), V>(cmp: (K, K) -> int, c: Ctx<N, K, V>, cell: Cell<N, K, V>)
    requires GoodTree(cmp, Plug(c, Leaf)) && Brackets(cmp, c, cell.key) && cell.color.Red?
    ensures CtxNoRedRed(c)
    ensures var t', old' := InsertFix(c, Branch(Leaf, cell, Leaf)), Plug(c, Leaf);
            && GoodTree(cmp, t') && Ids(t') == CtxIds(c) + {cell.id} && CtxIds(c) == Ids(old')
            && |Entries(t')| == |Entries(old')| + 1
            && ToMap(Entries(t')) == ToMap(Entries(old'))[cell.key := cell.value]
  {
    var h := SplitRedBlack<N, K, V>(c, Leaf);
    InsertFixIsRedBlack(c, Branch(Leaf, cell, Leaf), h);
    HoleContents(c);
    InsertContents(c, cell);
    PutNew(cmp, Before(c), cell.key, cell.value, After(c));
  }

  // ---------- Taking a node out ----------

  ghost function OnlyChildSide<N, K, V>(t: Tree<N, K, V>): Side
    requires t.Branch?
  {
    if t.right.Leaf? then L else R
  }

  ghost function OnlyChild<N, K, V>(t: Tree<N, K, V>): Tree<N, K, V>
    requires t.Branch?
  {
    Child(OnlyChildSide(t), t)
  }

  ghost function BlackenRoot<N, K, V>(c: Ctx<N, K, V>, t: Tree<N, K, V>): Tree<N, K, V> {
    if c.Top? && t.Branch? then Paint(t, Black) else t
  }

  // A node with at most one child leaves the tree. If it is black the context is
  // repaired first, with the node painted like its child and still in place.
  ghost function SpliceCtx<N, K, V>(c: Ctx<N, K, V>, t: Tree<N, K, V>, h: nat): Ctx<N, K, V>
    requires t.Branch? && Fits(c, t, h)
  {
    if t.cell.color.Black? then DeleteFix(c, h - 1) else c
  }

  ghost predicate Fits<N, K, V>(c: Ctx<N, K, V>, t: Tree<N, K, V>, h: nat) {
    && CtxBalanced(c, h) && CtxNoRedRed(c) && Balanced(t, h) && NoRedRed(t)
    && (TreeColor(t).Red? ==> c.Frame? && CtxColor(c).Black?)
  }

  ghost function Splice<N, K, V>(c: Ctx<N, K, V>, t: Tree<N, K, V>, h: nat): Tree<N, K, V>
    requires t.Branch? && Fits(c, t, h)
  {
    var c' := SpliceCtx(c, t, h);
    Plug(c', BlackenRoot(c', OnlyChild(t)))
  }

  lemma SpliceIsRedBlack<N, K, V>(c: Ctx<N, K, V>, t: Tree<N, K, V>, h: nat)
    requires t.Branch? && Fits(c, t, h) && (t.left.Leaf? || t.right.Leaf?)
    ensures IsRedBlack(Splice(c, t, h))
  {
    var c', child := SpliceCtx(c, t, h), OnlyChild(t);
    if t.cell.color.Black? {
      DeleteFixRepairs(c, h - 1);
      if c'.Top? && TreeColor(child).Red? {
        assert Balanced(child, h - 1) && NoRedRed(child);
        PlugIsRedBlack(c', Paint(child, Black), h);
      } else {
        PlugIsRedBlack(c', BlackenRoot(c', child), h - 1);
      }
    } else {
      assert Balanced(t.left, h) && Balanced(t.right, h);
      assert child.Leaf?;
      PlugIsRedBlack(c', child, h);
    }
  }

  lemma BlackenContents<N, K, V>(c: Ctx<N, K, V>, t: Tree<N, K, V>)
    ensures Entries(BlackenRoot(c, t)) == Entries(t) && Ids(BlackenRoot(c, t)) == Ids(t)
  {
  }

  lemma SpliceCtxContents<N, K, V>(c: Ctx<N, K, V>, t: Tree<N, K, V>, h: nat)
    requires t.Branch? && Fits(c, t, h)
    ensures SameContents(c, SpliceCtx(c, t, h))
  {
    if t.cell.color.Black? {
      DeleteFixContents(c, h - 1);
    }
  }

  lemma SpliceContents<N, K, V>(c: Ctx<N, K, V>, t: Tree<N, K, V>, h: nat)
    requires t.Branch? && Fits(c, t, h) && (t.left.Leaf? || t.right.Leaf?)
    ensures Entries(Splice(c, t, h)) == (Before(c) + Entries(t.left)) + (Entries(t.right) + After(c))
    ensures Ids(Splice(c, t, h)) == CtxIds(c) + Ids(t.left) + Ids(t.right)
  {
    var c', child := SpliceCtx(c, t, h), BlackenRoot(SpliceCtx(c, t, h), OnlyChild(t));
    SpliceCtxContents(c, t, h);
    BlackenContents(c', OnlyChild(t));
    PlugEntries(c', child);
    PlugIds(c', child);
    assert Entries(child) == Entries(t.left) + Entries(t.right) && Ids(child) == Ids(t.left) + Ids(t.right);
    Regroup(Before(c), Entries(t.left), Entries(t.right), After(c));
  }

  // `Remove` at a node with two children copies the predecessor's entry into the
  // node and takes the predecessor out instead. `c`, `t` is the node; `c'`, `p` is
  // the predecessor after the copy.
  ghost function PredTree<N, K, V>(t: Tree<N, K, V>): (p: Tree<N, K, V>)
    requires t.Branch? && t.left.Branch?
    ensures p.Branch? && p.right.Leaf?
  {
    OutermostTree(R, t.left)
  }

  ghost function PredCtx<N, K, V>(c: Ctx<N, K, V>, t: Tree<N, K, V>): Ctx<N, K, V>
    requires t.Branch? && t.left.Branch?
  {
    var p := PredTree(t).cell;
    OutermostCtx(R, Down(L, c, Recell(t, p.key, p.value)), t.left)
  }

  lemma PredContents<N, K, V>(c: Ctx<N, K, V>, t: Tree<N, K, V>)
    requires t.Branch? && t.left.Branch?
    ensures var p, c' := PredTree(t), PredCtx(c, t);
            && Plug(c', p) == Plug(c, Recell(t, p.cell.key, p.cell.value))
            && (Before(c') + Entries(p.left)) + (Entries(p.right) + After(c'))
               == (Before(c) + Entries(t.left)) + (Entries(t.right) + After(c))
  {
    var p, c' := PredTree(t), PredCtx(c, t);
    var c0 := Down(L, c, Recell(t, p.cell.key, p.cell.value));
    Outermost(R, c0, t.left);
    AroundNode(c', p);
    var e, z := Entry(p.cell), Entries(t.right) + After(c);
    assert After(c') == [e] + z by {
      assert [e] + Entries(t.right) + After(c) == [e] + z;
    }
    assert Entries(p.right) + After(c') == [e] + z;
    ShiftEntry(Before(c') + Entries(p.left), Before(c) + Entries(t.left), e, z);
  }

  lemma ShiftEntry<T>(x: seq<T>, y: seq<T>, e: T, z: seq<T>)
    requires x + [e] + ([e] + z) == y + ([e] + z)
    ensures x + ([e] + z) == y + z
  {
    var s, n := y + ([e] + z), |x| + 1;
    assert |y| == n;
    assert x + [e] == s[..n] && y == s[..n];
  }

  // What is left to do once a node is chosen: take `t` out of `c`, where the
  // result is good and lacks exactly `key`.
  ghost predicate Removes<N, K(!new), V>(cmp: (K, K) -> int, old': Tree<N, K, V>, key: K, c: Ctx<N, K, V>,
          t: Tree<N, K, V>, h: nat) {
    && t.Branch? && Fits(c, t, h) && (t.left.Leaf? || t.right.Leaf?)
    && var t' := Splice(c, t, h);
    && GoodTree(cmp, t') && |Entries(t')| == |Entries(old')| - 1 && Ids(t') <= CtxIds(c) + Ids(t)
    && ToMap(Entries(t')) == ToMap(Entries(old')) - {key}
  }

  lemma SpliceRemoves<N, K(!new), V>(cmp: (K, K) -> int, old': Tree<N, K, V>, before: seq<(K, V)>, key: K, value: V,
          after: seq<(K, V)>,
                                     c: Ctx<N, K, V>, t: Tree<N, K, V>, h: nat)
    requires GoodTree(cmp, old') && Entries(old') == before + [(key, value)] + after
    requires t.Branch? && Fits(c, t, h) && (t.left.Leaf? || t.right.Leaf?)
    requires (Before(c) + Entries(t.left)) + (Entries(t.right) + After(c)) == before + after
    ensures Removes(cmp, old', key, c, t, h)
  {
    TakeOut(cmp, before, key, value, after);
    var t' := Splice(c, t, h);
    assert Entries(t') == before + after && Ids(t') <= CtxIds(c) + Ids(t) by {
      SpliceContents(c, t, h);
    }
    assert IsRedBlack(t') by {
      SpliceIsRedBlack(c, t, h);
    }
  }

  // The node `t` that holds its key has at most one child.
  lemma RemoveTree<N, K(!new), V>(cmp: (K, K) -> int, c: Ctx<N, K, V>, t: Tree<N, K, V>) returns (h: nat)
    requires t.Branch? && (t.left.Leaf? || t.right.Leaf?) && GoodTree(cmp, Plug(c, t))
    ensures Removes(cmp, Plug(c, t), t.cell.key, c, t, h)
  {
    h := SplitRedBlack(c, t);
    PlugEntries(c, t);
    AroundNode(c, t);
    var before, after := Before(c) + Entries(t.left), Entries(t.right) + After(c);
    SpliceRemoves(cmp, Plug(c, t), before, t.cell.key, t.cell.value, after, c, t, h);
  }

  // It has two children: its predecessor is taken out of the tree in which the node
  // already carries the predecessor's entry.
  lemma RemovePredecessor<N, K(!new), V>(cmp: (K, K) -> int, c: Ctx<N, K, V>, t: Tree<N, K, V>) returns (h: nat)
    requires t.Branch? && t.left.Branch? && GoodTree(cmp, Plug(c, t))
    ensures Removes(cmp, Plug(c, t), t.cell.key, PredCtx(c, t), PredTree(t), h)
  {
    var c', p := PredCtx(c, t), PredTree(t);
    PredContents(c, t);
    RecellIsRedBlack(c, t, p.cell.key, p.cell.value);
    h := SplitRedBlack(c', p);
    PlugEntries(c, t);
    AroundNode(c, t);
    var before, after := Before(c) + Entries(t.left), Entries(t.right) + After(c);
    SpliceRemoves(cmp, Plug(c, t), before, t.cell.key, t.cell.value, after, c', p, h);
  }
}
