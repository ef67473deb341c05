// The two repairs of a red-black tree as functions on values, and why they are
// right. The heap methods of `RedBlackMap` are proved to compute these functions.
module RedBlackRepair {
  import opened RedBlackTrees

  // ---------- Repair after an insertion ----------

  // Both children of the red parent's parent are red: push the red colour two
  // levels up.
  ghost function PushRed<N, K, V>(c: Ctx<N, K, V>, t: Tree<N, K, V>): Tree<N, K, V>
    requires c.Frame? && c.up.Frame? && c.up.sibling.Branch?
  {
    var parent := Join(c.side, t, c.cell.(color := Black), c.sibling);
    Join(c.up.side, parent, c.up.cell.(color := Red), Paint(c.up.sibling, Black))
  }

  // The parent takes the grandparent's place; parent and node are outer children
  // on the same side.
  ghost function RotateOuter<N, K, V>(c: Ctx<N, K, V>, t: Tree<N, K, V>): Tree<N, K, V>
    requires c.Frame? && c.up.Frame?
  {
    var s := c.up.side;
    Join(s, t, c.cell.(color := Black), Join(s, c.sibling, c.up.cell.(color := Red), c.up.sibling))
  }

  // The node is an inner child: rotating its parent makes the parent an outer
  // child below it. The result is again a context and a subtree.
  ghost function RotateInnerCtx<N, K, V>(c: Ctx<N, K, V>, t: Tree<N, K, V>): Ctx<N, K, V>
    requires c.Frame? && c.up.Frame? && t.Branch?
  {
    Frame(c.up, c.up.side, t.cell, Child(Flip(c.up.side), t))
  }

  ghost function RotateInnerSub<N, K, V>(c: Ctx<N, K, V>, t: Tree<N, K, V>): Tree<N, K, V>
    requires c.Frame? && c.up.Frame? && t.Branch?
  {
    Join(c.up.side, c.sibling, c.cell, Child(c.up.side, t))
  }

  // Cases 4 and 5 of the insertion.
  ghost function InsertRotate<N, K, V>(c: Ctx<N, K, V>, t: Tree<N, K, V>): Tree<N, K, V>
    requires c.Frame? && c.up.Frame? && t.Branch?
  {
    var top :=
      if c.side == c.up.side then RotateOuter(c, t)
      else RotateOuter(RotateInnerCtx(c, t), RotateInnerSub(c, t));
    Plug(c.up.up, top)
  }

  // The whole insertion repair: `t` is a red subtree whose parent may be red too.
  ghost function InsertFix<N, K, V>(c: Ctx<N, K, V>, t: Tree<N, K, V>): Tree<N, K, V>
    requires t.Branch? && CtxNoRedRed(c)
    decreases c
  {
    if c.Top? then Paint(t, Black)
    else if c.cell.color.Black? then Plug(c, t)
    else
      assert CtxNoRedRed(c.up);
      if TreeColor(c.up.sibling).Red? then InsertFix(c.up.up, PushRed(c, t))
      else InsertRotate(c, t)
  }

  lemma {:induction false} InsertFixIsRedBlack<N, K, V>(c: Ctx<N, K, V>, t: Tree<N, K, V>, h: nat)
    requires CtxBalanced(c, h) && CtxNoRedRed(c)
    requires Balanced(t, h) && NoRedRed(t) && TreeColor(t).Red?
    ensures IsRedBlack(InsertFix(c, t))
    decreases c
  {
    if c.Top? {
      BalancedHeight(Paint(t, Black), h + 1);
    } else if c.cell.color.Black? {
      PlugIsRedBlack(c, t, h);
    } else if TreeColor(c.up.sibling).Red? {
      InsertFixIsRedBlack(c.up.up, PushRed(c, t), h + 1);
    } else if c.side == c.up.side {
      PlugIsRedBlack(c.up.up, RotateOuter(c, t), h + 1);
    } else {
      PlugIsRedBlack(c.up.up, RotateOuter(RotateInnerCtx(c, t), RotateInnerSub(c, t)), h + 1);
    }
  }

  lemma PushRedContents<N, K, V>(c: Ctx<N, K, V>, t: Tree<N, K, V>)
    requires c.Frame? && c.up.Frame? && c.up.sibling.Branch?
    ensures Around(c.up.up, PushRed(c, t)) == Around(c, t)
    ensures CtxIds(c.up.up) + Ids(PushRed(c, t)) == CtxIds(c) + Ids(t)
  {
    var parent := Join(c.side, t, c.cell.(color := Black), c.sibling);
    FrameAround(c, t);
    FrameAround(c.up, parent);
    assert Entries(Paint(c.up.sibling, Black)) == Entries(c.up.sibling);
  }

  lemma RotateOuterContents<N, K, V>(c: Ctx<N, K, V>, t: Tree<N, K, V>)
    requires c.Frame? && c.up.Frame? && c.side == c.up.side
    ensures Around(c.up.up, RotateOuter(c, t)) == Around(c, t)
    ensures CtxIds(c.up.up) + Ids(RotateOuter(c, t)) == CtxIds(c) + Ids(t)
  {
    FrameAround(c, t);
    FrameAround(c.up, Join(c.side, t, c.cell, c.sibling));
    var parent := Join(c.side, t, c.cell, c.sibling);
    assert Entries(RotateOuter(c, t)) == Entries(Join(c.side, parent, c.up.cell, c.up.sibling));
  }

  lemma RotateInnerContents<N, K, V>(c: Ctx<N, K, V>, t: Tree<N, K, V>)
    requires c.Frame? && c.up.Frame? && t.Branch? && c.side != c.up.side
    ensures Around(RotateInnerCtx(c, t), RotateInnerSub(c, t)) == Around(c, t)
    ensures CtxIds(RotateInnerCtx(c, t)) + Ids(RotateInnerSub(c, t)) == CtxIds(c) + Ids(t)
  {
  }

  lemma InsertRotateContents<N, K, V>(c: Ctx<N, K, V>, t: Tree<N, K, V>)
    requires c.Frame? && c.up.Frame? && t.Branch?
    ensures Entries(InsertRotate(c, t)) == Around(c, t)
    ensures Ids(InsertRotate(c, t)) == CtxIds(c) + Ids(t)
  {
    var c', t' := c, t;
    if c.side != c.up.side {
      RotateInnerContents(c, t);
      c', t' := RotateInnerCtx(c, t), RotateInnerSub(c, t);
    }
    RotateOuterContents(c', t');
    PlugEntries(c.up.up, RotateOuter(c', t'));
    PlugIds(c.up.up, RotateOuter(c', t'));
  }

  lemma {:induction false} InsertFixContents<N, K, V>(c: Ctx<N, K, V>, t: Tree<N, K, V>)
    requires t.Branch? && CtxNoRedRed(c)
    ensures Entries(InsertFix(c, t)) == Around(c, t)
    ensures Ids(InsertFix(c, t)) == CtxIds(c) + Ids(t)
    decreases c
  {
    if c.Top? {
    } else if c.cell.color.Black? {
      PlugEntries(c, t);
      PlugIds(c, t);
    } else if TreeColor(c.up.sibling).Red? {
      PushRedContents(c, t);
      InsertFixContents(c.up.up, PushRed(c, t));
    } else {
      InsertRotateContents(c, t);
    }
  }

  // ---------- Repair after a deletion ----------

  // The hole holds a subtree one black short: the context wants height h + 1.
  ghost predicate Deficient<N, K, V>(c: Ctx<N, K, V>, h: nat) {
    CtxBalanced(c, h + 1) && CtxNoRedRed(c)
  }

  // Case 2: a red sibling is rotated above the parent, which turns red.
  ghost function RaiseSibling<N, K, V>(c: Ctx<N, K, V>): Ctx<N, K, V>
    requires c.Frame? && c.sibling.Branch?
  {
    var s := c.side;
    var raised := Frame(c.up, s, c.sibling.cell.(color := Black), Child(Flip(s), c.sibling));
    Frame(raised, s, c.cell.(color := Red), Child(s, c.sibling))
  }

  // The parent of the raised context is red and its sibling black, so that case 3
  // cannot move up after case 2.
  lemma RaiseSiblingDeficient<N, K, V>(c: Ctx<N, K, V>, h: nat)
    requires Deficient(c, h) && c.Frame? && TreeColor(c.sibling).Red?
    ensures Deficient(RaiseSibling(c), h)
    ensures CtxColor(RaiseSibling(c)).Red? && TreeColor(RaiseSibling(c).sibling).Black?
  {
    assert CtxNoRedRed(RaiseSibling(c).up) && CtxBalanced(RaiseSibling(c).up, h + 1);
  }

  // Case 5: the near nephew is red and the far one black; the near nephew
  // becomes the sibling.
  ghost function TurnSibling<N, K, V>(s: Side, sibling: Tree<N, K, V>): Tree<N, K, V>
    requires sibling.Branch? && Child(s, sibling).Branch?
  {
    var near := Child(s, sibling);
    var lowered := Join(s, Child(Flip(s), near), sibling.cell.(color := Red), Child(Flip(s), sibling));
    Join(s, Child(s, near), near.cell.(color := Black), lowered)
  }

  // Case 6: the far nephew is red; the sibling takes the parent's place and colour.
  ghost function BorrowSibling<N, K, V>(c: Ctx<N, K, V>): Ctx<N, K, V>
    requires c.Frame? && c.sibling.Branch? && Child(Flip(c.side), c.sibling).Branch?
  {
    var s := c.side;
    var raised := Frame(c.up, s, c.sibling.cell.(color := c.cell.color), Paint(Child(Flip(s), c.sibling), Black));
    Frame(raised, s, c.cell.(color := Black), Child(s, c.sibling))
  }

  ghost predicate BlackNephews<N, K, V>(sibling: Tree<N, K, V>)
    requires sibling.Branch?
  {
    TreeColor(sibling.left).Black? && TreeColor(sibling.right).Black?
  }

  // Only the context changes: the deficient subtree itself is never looked at.
  ghost function DeleteFix<N, K, V>(c: Ctx<N, K, V>, h: nat): Ctx<N, K, V>
    requires Deficient(c, h)
    decreases Depth(c), 1
  {
    if c.Top? then Top
    else if TreeColor(c.sibling).Red? then
      RaiseSiblingDeficient(c, h);
      DeleteFixBlack(RaiseSibling(c), h)
    else DeleteFixBlack(c, h)
  }

  // Cases 3 to 6: the sibling is black.
  ghost function DeleteFixBlack<N, K, V>(c: Ctx<N, K, V>, h: nat): Ctx<N, K, V>
    requires Deficient(c, h) && c.Frame? && TreeColor(c.sibling).Black?
    decreases if CtxColor(c).Red? then 0 else Depth(c), 0
  {
    if BlackNephews(c.sibling) then
      if c.cell.color.Black? then
        Frame(DeleteFix(c.up, h + 1), c.side, c.cell, Paint(c.sibling, Red))
      else
        Frame(c.up, c.side, c.cell.(color := Black), Paint(c.sibling, Red))
    else DeleteRotate(c)
  }

  // Cases 5 and 6.
  ghost function DeleteRotate<N, K, V>(c: Ctx<N, K, V>): Ctx<N, K, V>
    requires c.Frame? && c.sibling.Branch? && !BlackNephews(c.sibling)
  {
    if TreeColor(Child(Flip(c.side), c.sibling)).Black? then
      BorrowSibling(c.(sibling := TurnSibling(c.side, c.sibling)))
    else BorrowSibling(c)
  }

  // What a repaired context `r` of a deficient context `c` is: it accepts the
  // shorter subtree, the hole's parent is the same node on the same side, and it
  // is black, so that even a red subtree may sit in the hole.
  ghost predicate Repairs<N, K, V>(c: Ctx<N, K, V>, r: Ctx<N, K, V>, h: nat) {
    && CtxBalanced(r, h) && CtxNoRedRed(r) && CtxColor(r).Black?
    && (r.Top? <==> c.Top?)
    && (r.Frame? ==> r.side == c.side && r.cell.id == c.cell.id)
  }

  ghost predicate SameContents<N, K, V>(c: Ctx<N, K, V>, r: Ctx<N, K, V>) {
    Before(r) == Before(c) && After(r) == After(c) && CtxIds(r) == CtxIds(c)
  }

  lemma {:induction false} DeleteFixRepairs<N, K, V>(c: Ctx<N, K, V>, h: nat)
    requires Deficient(c, h)
    ensures Repairs(c, DeleteFix(c, h), h)
    decreases Depth(c), 1
  {
    if c.Top? {
    } else if TreeColor(c.sibling).Red? {
      RaiseSiblingDeficient(c, h);
      DeleteFixBlackRepairs(RaiseSibling(c), h);
    } else {
      DeleteFixBlackRepairs(c, h);
    }
  }

  lemma TurnSiblingBalanced<N, K, V>(s: Side, sibling: Tree<N, K, V>, h: nat)
    requires sibling.Branch? && TreeColor(sibling).Black? && Balanced(sibling, h + 1) && NoRedRed(sibling)
    requires TreeColor(Child(s, sibling)).Red? && TreeColor(Child(Flip(s), sibling)).Black?
    ensures Balanced(TurnSibling(s, sibling), h + 1) && NoRedRed(TurnSibling(s, sibling))
    ensures TreeColor(Child(Flip(s), TurnSibling(s, sibling))).Red?
  {
    var near := Child(s, sibling);
    var far := Child(Flip(s), sibling);
    assert Balanced(near, h) && Balanced(far, h) && NoRedRed(near) && NoRedRed(far);
    assert Balanced(near.left, h) && Balanced(near.right, h) && NoRedRed(near.left) && NoRedRed(near.right);
    var lowered := Join(s, Child(Flip(s), near), sibling.cell.(color := Red), far);
    assert Balanced(lowered, h) && NoRedRed(lowered);
  }

  lemma BorrowSiblingRepairs<N, K, V>(c: Ctx<N, K, V>, h: nat)
    requires Deficient(c, h) && c.Frame? && c.sibling.Branch? && TreeColor(c.sibling).Black?
    requires TreeColor(Child(Flip(c.side), c.sibling)).Red?
    ensures Repairs(c, BorrowSibling(c), h)
  {
    var near, far := Child(c.side, c.sibling), Child(Flip(c.side), c.sibling);
    assert Balanced(near, h) && Balanced(far, h) && NoRedRed(near) && NoRedRed(far);
    assert Balanced(Paint(far, Black), h + 1) && NoRedRed(Paint(far, Black));
    assert CtxBalanced(BorrowSibling(c).up, h + 1);
  }

  lemma {:induction false} DeleteFixBlackRepairs<N, K, V>(c: Ctx<N, K, V>, h: nat)
    requires Deficient(c, h) && c.Frame? && TreeColor(c.sibling).Black?
    ensures Repairs(c, DeleteFixBlack(c, h), h)
    decreases if CtxColor(c).Red? then 0 else Depth(c), 0
  {
    if BlackNephews(c.sibling) {
      if c.cell.color.Black? {
        DeleteFixRepairs(c.up, h + 1);
      }
    } else if TreeColor(Child(Flip(c.side), c.sibling)).Black? {
      TurnSiblingBalanced(c.side, c.sibling, h);
      BorrowSiblingRepairs(c.(sibling := TurnSibling(c.side, c.sibling)), h);
    } else {
      BorrowSiblingRepairs(c, h);
    }
  }

  lemma {:induction false} DeleteFixContents<N, K, V>(c: Ctx<N, K, V>, h: nat)
    requires Deficient(c, h)
    ensures SameContents(c, DeleteFix(c, h))
    decreases Depth(c), 1
  {
    if c.Top? {
    } else if TreeColor(c.sibling).Red? {
      RaiseSiblingContents(c);
      RaiseSiblingDeficient(c, h);
      DeleteFixBlackContents(RaiseSibling(c), h);
    } else {
      DeleteFixBlackContents(c, h);
    }
  }

  lemma RaiseSiblingContents<N, K, V>(c: Ctx<N, K, V>)
    requires c.Frame? && c.sibling.Branch?
    ensures SameContents(c, RaiseSibling(c))
  {
  }

  lemma BorrowSiblingContents<N, K, V>(c: Ctx<N, K, V>)
    requires c.Frame? && c.sibling.Branch? && Child(Flip(c.side), c.sibling).Branch?
    ensures SameContents(c, BorrowSibling(c))
  {
    var r, far := BorrowSibling(c), Child(Flip(c.side), c.sibling);
    assert Entries(Paint(far, Black)) == Entries(far) && Ids(Paint(far, Black)) == Ids(far);
    assert SameContents(r, Frame(r.up, r.side, r.cell, r.sibling));
  }

  lemma TurnSiblingContents<N, K, V>(s: Side, sibling: Tree<N, K, V>)
    requires sibling.Branch? && Child(s, sibling).Branch?
    ensures Entries(TurnSibling(s, sibling)) == Entries(sibling)
    ensures Ids(TurnSibling(s, sibling)) == Ids(sibling)
  {
  }

  lemma {:induction false} DeleteFixBlackContents<N, K, V>(c: Ctx<N, K, V>, h: nat)
    requires Deficient(c, h) && c.Frame? && TreeColor(c.sibling).Black?
    ensures SameContents(c, DeleteFixBlack(c, h))
    decreases if CtxColor(c).Red? then 0 else Depth(c), 0
  {
    if BlackNephews(c.sibling) {
      if c.cell.color.Black? {
        DeleteFixContents(c.up, h + 1);
      }
    } else if TreeColor(Child(Flip(c.side), c.sibling)).Black? {
      TurnSiblingContents(c.side, c.sibling);
      BorrowSiblingContents(c.(sibling := TurnSibling(c.side, c.sibling)));
    } else {
      BorrowSiblingContents(c);
    }
  }
}
