// The nodes of the map as heap objects, and what it means that they make up a
// tree: a snapshot of their fields is compared with a tree value, so that moving
// around and rewiring is reasoned about on values.
module NodeHeap {
  import opened RedBlackTrees
  import opened TreeSearch

  class Node<K, V> {
    var Key: K
    var Value: V
    var color: Color
    var Left: Node?<K, V>
    var Right: Node?<K, V>
    var Parent: Node?<K, V>

    constructor (key: K, value: V, color: Color)
      ensures Key == key && Value == value && this.color == color
      ensures Left == null && Right == null && Parent == null
    {
      Key, Value, this.color := key, value, color;
      Left, Right, Parent := null, null, null;
    }
  }

  type NTree<K, V> = Tree<Node<K, V>, K, V>
  type NCtx<K, V> = Ctx<Node<K, V>, K, V>

  ghost function RootId<K, V>(t: NTree<K, V>): Node?<K, V> {
    if t.Leaf? then null else t.cell.id
  }

  ghost function CtxParent<K, V>(c: NCtx<K, V>): Node?<K, V> {
    if c.Top? then null else c.cell.id
  }

  function NodeColor<K, V>(n: Node?<K, V>): Color
    reads n
  {
    if n == null then Black else n.color
  }

  function Grandparent<K, V>(n: Node<K, V>): Node?<K, V>
    reads n, n.Parent
  {
    if n.Parent == null then null else n.Parent.Parent
  }

  function Sibling<K, V>(n: Node<K, V>): Node?<K, V>
    reads n, n.Parent
  {
    if n.Parent == null then null
    else if n == n.Parent.Left then n.Parent.Right
    else n.Parent.Left
  }

  function Uncle<K, V>(n: Node<K, V>): Node?<K, V>
    reads n, n.Parent, if n.Parent == null then null else n.Parent.Parent
  {
    if n.Parent == null || n.Parent.Parent == null then null else Sibling(n.Parent)
  }

  // ---------- The heap as a value ----------

  datatype Fields<K, V> = Fields(
    key: K, value: V, color: Color,
    left: Node?<K, V>, right: Node?<K, V>, parent: Node?<K, V>)

  type Store<K, V> = map<Node<K, V>, Fields<K, V>>

  // The fields of every node of `s`.
  ghost function Snapshot<K, V>(s: set<Node<K, V>>): Store<K, V>
    reads s
  {
    map n | n in s :: Fields(n.Key, n.Value, n.color, n.Left, n.Right, n.Parent)
  }

  ghost function FieldsOf<K, V>(cell: Cell<Node<K, V>, K, V>, left: Node?<K, V>, right: Node?<K, V>,
          parent: Node?<K, V>): Fields<K, V> {
    Fields(cell.key, cell.value, cell.color, left, right, parent)
  }

  ghost predicate Stores<K, V>(st: Store<K, V>, n: Node<K, V>, f: Fields<K, V>) {
    n in st && st[n] == f
  }

  // What the store holds below `parent` is exactly the tree `t`: every node is a
  // different object, holds its cell, and points to its children and its parent.
  ghost predicate TreeIn<K, V>(st: Store<K, V>, t: NTree<K, V>, parent: Node?<K, V>) {
    match t
    case Leaf => true
    case Branch(l, cell, r) =>
      && Stores(st, cell.id, FieldsOf(cell, RootId(l), RootId(r), parent))
      && cell.id !in Ids(l) && cell.id !in Ids(r) && Ids(l) !! Ids(r)
      && TreeIn(st, l, cell.id) && TreeIn(st, r, cell.id)
  }

  // From `root` down to a hole the store holds exactly the context `c`, and the
  // hole's parent points to `hole`.
  ghost predicate CtxIn<K, V>(st: Store<K, V>, c: NCtx<K, V>, root: Node?<K, V>, hole: Node?<K, V>) {
    match c
    case Top => root == hole
    case Frame(up, side, cell, sibling) =>
      && Stores(st, cell.id, FieldsOf(cell, OnSide(L, side, hole, RootId(sibling)),
                                      OnSide(R, side, hole, RootId(sibling)), CtxParent(up)))
      && cell.id !in CtxIds(up) && cell.id !in Ids(sibling) && CtxIds(up) !! Ids(sibling)
      && TreeIn(st, sibling, cell.id)
      && CtxIn(st, up, root, cell.id)
  }

  function OnSide<T>(wanted: Side, side: Side, near: T, far: T): T {
    if wanted == side then near else far
  }

  ghost predicate FocusIn<K, V>(st: Store<K, V>, root: Node?<K, V>, c: NCtx<K, V>, t: NTree<K, V>) {
    CtxIds(c) !! Ids(t) && CtxIn(st, c, root, RootId(t)) && TreeIn(st, t, CtxParent(c))
  }

  // The whole heap structure, seen as a subtree in its context.
  ghost predicate Focus<K, V>(root: Node?<K, V>, c: NCtx<K, V>, t: NTree<K, V>)
    reads CtxIds(c), Ids(t)
  {
    FocusIn(Snapshot(CtxIds(c) + Ids(t)), root, c, t)
  }

  // Moving the focus by one node does not change what is described.
  lemma FocusUp<K, V>(root: Node?<K, V>, c: NCtx<K, V>, t: NTree<K, V>)
    requires c.Frame?
    ensures CtxIds(c) + Ids(t) == CtxIds(c.up) + Ids(Join(c.side, t, c.cell, c.sibling))
    ensures Focus(root, c, t) <==> Focus(root, c.up, Join(c.side, t, c.cell, c.sibling))
  {
    assert CtxIds(c) + Ids(t) == CtxIds(c.up) + Ids(Join(c.side, t, c.cell, c.sibling));
  }

  lemma FocusAcross<K, V>(root: Node?<K, V>, c: NCtx<K, V>, t: NTree<K, V>)
    requires c.Frame?
    ensures CtxIds(c) + Ids(t) == CtxIds(Across(c, t)) + Ids(c.sibling)
    ensures Focus(root, c, t) <==> Focus(root, Across(c, t), c.sibling)
  {
    FocusUp(root, c, t);
    FocusUp(root, Across(c, t), c.sibling);
  }

  lemma FocusDown<K, V>(s: Side, root: Node?<K, V>, c: NCtx<K, V>, t: NTree<K, V>)
    requires t.Branch?
    ensures CtxIds(c) + Ids(t) == CtxIds(Down(s, c, t)) + Ids(Child(s, t))
    ensures Focus(root, c, t) <==> Focus(root, Down(s, c, t), Child(s, t))
  {
    FocusUp(root, Down(s, c, t), Child(s, t));
  }

  lemma {:induction false} FocusOutermost<K, V>(s: Side, root: Node?<K, V>, c: NCtx<K, V>, t: NTree<K, V>)
    requires t.Branch?
    ensures var c', t' := OutermostCtx(s, c, t), OutermostTree(s, t);
            && CtxIds(c') + Ids(t') == CtxIds(c) + Ids(t)
            && (Focus(root, c, t) <==> Focus(root, c', t'))
    decreases t
  {
    if Child(s, t).Leaf? {
    } else {
      FocusDown(s, root, c, t);
      FocusOutermost(s, root, Down(s, c, t), Child(s, t));
    }
  }

  // The context of the sibling.
  ghost function Across<N, K, V>(c: Ctx<N, K, V>, t: Tree<N, K, V>): Ctx<N, K, V>
    requires c.Frame?
  {
    Frame(c.up, Flip(c.side), c.cell, t)
  }

  lemma {:induction false} FocusRoot<K, V>(root: Node?<K, V>, c: NCtx<K, V>, t: NTree<K, V>)
    requires Focus(root, c, t)
    ensures Focus(root, Top, Plug(c, t))
    decreases c
  {
    if c.Top? {
    } else {
      FocusUp(root, c, t);
      FocusRoot(root, c.up, Join(c.side, t, c.cell, c.sibling));
    }
  }

  // Parts of the store that did not change still hold what they held.
  lemma {:induction false} TreeInFrame<K, V>(st: Store<K, V>, st': Store<K, V>, t: NTree<K, V>, parent: Node?<K, V>)
    requires TreeIn(st, t, parent)
    requires forall n :: n in Ids(t) && n in st ==> Stores(st', n, st[n])
    ensures TreeIn(st', t, parent)
  {
    if t.Leaf? {
    } else {
      TreeInFrame(st, st', t.left, t.cell.id);
      TreeInFrame(st, st', t.right, t.cell.id);
    }
  }

  lemma {:induction false} CtxInFrame<K, V>(st: Store<K, V>, st': Store<K, V>, c: NCtx<K, V>, root: Node?<K, V>,
          hole: Node?<K, V>)
    requires CtxIn(st, c, root, hole)
    requires forall n :: n in CtxIds(c) && n in st ==> Stores(st', n, st[n])
    ensures CtxIn(st', c, root, hole)
  {
    if c.Top? {
    } else {
      TreeInFrame(st, st', c.sibling, c.cell.id);
      CtxInFrame(st, st', c.up, root, c.cell.id);
    }
  }

  // Giving a subtree a new parent: only its root changes.
  lemma TreeInAdopt<K, V>(st: Store<K, V>, st': Store<K, V>, t: NTree<K, V>, parent: Node?<K, V>, parent': Node?<K, V>)
    requires TreeIn(st, t, parent)
    requires forall n :: n in Ids(t) && n in st && n != RootId(t) ==> Stores(st', n, st[n])
    requires t.Branch? ==> Stores(st', t.cell.id, st[t.cell.id].(parent := parent'))
    ensures TreeIn(st', t, parent')
  {
    if t.Branch? {
      TreeInFrame(st, st', t.left, t.cell.id);
      TreeInFrame(st, st', t.right, t.cell.id);
    }
  }

  // Giving a hole a new occupant: only the parent's link (or the root) changes.
  lemma CtxInRelink<K, V>(st: Store<K, V>, st': Store<K, V>, c: NCtx<K, V>, root: Node?<K, V>, root': Node?<K, V>,
          hole: Node?<K, V>, hole': Node?<K, V>)
    requires CtxIn(st, c, root, hole)
    requires forall n :: n in CtxIds(c) && n in st && n != CtxParent(c) ==> Stores(st', n, st[n])
    requires c.Top? ==> root' == hole'
    requires c.Frame? ==> root' == root && Stores(st', c.cell.id, Relink(st[c.cell.id], c.side, hole'))
    ensures CtxIn(st', c, root', hole')
  {
    if c.Frame? {
      TreeInFrame(st, st', c.sibling, c.cell.id);
      CtxInFrame(st, st', c.up, root, c.cell.id);
    }
  }

  ghost predicate Holds<K, V>(n: Node<K, V>, cell: Cell<Node<K, V>, K, V>)
    reads n
  {
    n == cell.id && n.Key == cell.key && n.Value == cell.value && n.color == cell.color
  }

  // What the pointers and colours around a focused node are.
  lemma FocusNode<K, V>(root: Node?<K, V>, c: NCtx<K, V>, t: NTree<K, V>)
    requires Focus(root, c, t) && t.Branch?
    ensures Holds(t.cell.id, t.cell) && t.cell.id in Ids(t)
    ensures t.cell.id.Left == RootId(t.left) && t.cell.id.Right == RootId(t.right)
    ensures t.cell.id.Parent == CtxParent(c)
    ensures c.Top? ==> root == t.cell.id
  {
  }

  lemma FocusHole<K, V>(root: Node?<K, V>, c: NCtx<K, V>, t: NTree<K, V>)
    requires Focus(root, c, t) && c.Frame?
    ensures Holds(c.cell.id, c.cell) && c.cell.id in CtxIds(c)
    ensures c.cell.id.Left == (if c.side.L? then RootId(t) else RootId(c.sibling))
    ensures c.cell.id.Right == (if c.side.L? then RootId(c.sibling) else RootId(t))
    ensures RootId(t) == RootId(c.sibling) ==> t.Leaf? && c.sibling.Leaf?
    ensures c.cell.id.Parent == CtxParent(c.up)
    ensures c.sibling.Branch? ==> Holds(c.sibling.cell.id, c.sibling.cell) && c.sibling.cell.id in CtxIds(c)
  {
  }

  // Assigning to key, value or colour of one node changes one cell of the tree.
  lemma RecellFocus<K, V>(st: Store<K, V>, root: Node?<K, V>, c: NCtx<K, V>, t: NTree<K, V>,
          cell: Cell<Node<K, V>, K, V>)
    requires FocusIn(st, root, c, t) && t.Branch? && cell.id == t.cell.id
    requires var st' := Snapshot(CtxIds(c) + Ids(t));
             && (forall n :: n in CtxIds(c) + Ids(t) && n in st && n != cell.id ==> Stores(st', n, st[n]))
             && Stores(st', cell.id, st[cell.id].(key := cell.key, value := cell.value, color := cell.color))
    ensures Focus(root, c, t.(cell := cell)) && Ids(t.(cell := cell)) == Ids(t)
  {
    var st' := Snapshot(CtxIds(c) + Ids(t));
    TreeInFrame(st, st', t.left, cell.id);
    TreeInFrame(st, st', t.right, cell.id);
    CtxInFrame(st, st', c, root, cell.id);
  }

  // A new node put into an empty hole.
  lemma AttachFocus<K, V>(st: Store<K, V>, root: Node?<K, V>, root': Node?<K, V>, c: NCtx<K, V>,
          cell: Cell<Node<K, V>, K, V>)
    requires FocusIn(st, root, c, Leaf) && cell.id !in CtxIds(c)
    requires var st' := Snapshot(CtxIds(c) + {cell.id});
             && (forall n :: n in CtxIds(c) && n in st && n != CtxParent(c) ==> Stores(st', n, st[n]))
             && Stores(st', cell.id, FieldsOf(cell, null, null, CtxParent(c)))
             && (c.Frame? ==> c.cell.id in st && Stores(st', c.cell.id, Relink(st[c.cell.id], c.side, cell.id)))
    requires root' == if c.Top? then cell.id else root
    ensures Focus(root', c, Branch(Leaf, cell, Leaf))
  {
    var t := Branch(Leaf, cell, Leaf);
    assert CtxIds(c) + Ids(t) == CtxIds(c) + {cell.id};
    CtxInRelink(st, Snapshot(CtxIds(c) + {cell.id}), c, root, root', null, cell.id);
  }

  // A node with at most one child replaced by that child.
  lemma ReplaceFocus<K, V>(st: Store<K, V>, root: Node?<K, V>, root': Node?<K, V>, c: NCtx<K, V>, t: NTree<K, V>,
          s: Side)
    requires FocusIn(st, root, c, t) && t.Branch? && Child(Flip(s), t).Leaf?
    requires var child := Child(s, t);
             var st' := Snapshot(CtxIds(c) + Ids(child));
             && (forall n :: n in CtxIds(c) + Ids(child) && n in st && n != CtxParent(c) && n != RootId(child) ==>
                   Stores(st', n, st[n]))
             && (child.Branch? ==>
                   child.cell.id in st && Stores(st', child.cell.id, st[child.cell.id].(parent := CtxParent(c))))
             && (c.Frame? ==> c.cell.id in st && Stores(st', c.cell.id, Relink(st[c.cell.id], c.side, RootId(child))))
    requires root' == if c.Top? then RootId(Child(s, t)) else root
    ensures Focus(root', c, Child(s, t))
  {
    var child := Child(s, t);
    var st' := Snapshot(CtxIds(c) + Ids(child));
    assert TreeIn(st, child, t.cell.id);
    CtxInRelink(st, st', c, root, root', t.cell.id, RootId(child));
    TreeInAdopt(st, st', child, t.cell.id, CtxParent(c));
  }

  ghost function PaintParent<N, K, V>(c: Ctx<N, K, V>, color: Color): Ctx<N, K, V>
    requires c.Frame?
  {
    c.(cell := c.cell.(color := color))
  }

  ghost function PaintSibling<N, K, V>(c: Ctx<N, K, V>, color: Color): Ctx<N, K, V>
    requires c.Frame? && c.sibling.Branch?
  {
    c.(sibling := Paint(c.sibling, color))
  }

  ghost function PaintChild<N, K, V>(s: Side, t: Tree<N, K, V>, color: Color): Tree<N, K, V>
    requires t.Branch? && Child(s, t).Branch?
  {
    Join(s, Paint(Child(s, t), color), t.cell, Child(Flip(s), t))
  }

  ghost function PaintNephew<N, K, V>(s: Side, c: Ctx<N, K, V>, color: Color): Ctx<N, K, V>
    requires c.Frame? && c.sibling.Branch? && Child(s, c.sibling).Branch?
  {
    c.(sibling := PaintChild(s, c.sibling, color))
  }

  lemma FocusChildren<K, V>(root: Node?<K, V>, c: NCtx<K, V>, t: NTree<K, V>)
    requires Focus(root, c, t) && t.Branch?
    ensures NodeColor(RootId(t.left)) == TreeColor(t.left) && NodeColor(RootId(t.right)) == TreeColor(t.right)
  {
    var st := Snapshot(CtxIds(c) + Ids(t));
    assert TreeIn(st, t.left, t.cell.id) && TreeIn(st, t.right, t.cell.id);
  }

  lemma FocusNephews<K, V>(root: Node?<K, V>, c: NCtx<K, V>, t: NTree<K, V>)
    requires Focus(root, c, t) && t.Branch? && c.Frame? && c.sibling.Branch?
    ensures Sibling(t.cell.id) == c.sibling.cell.id
    ensures var n := c.sibling.cell.id;
            && n in CtxIds(c) && n.color == c.sibling.cell.color
            && n.Left == RootId(c.sibling.left) && n.Right == RootId(c.sibling.right)
            && NodeColor(n.Left) == TreeColor(c.sibling.left) && NodeColor(n.Right) == TreeColor(c.sibling.right)
  {
    FocusNode(root, c, t);
    FocusHole(root, c, t);
    var st := Snapshot(CtxIds(c) + Ids(t));
    assert TreeIn(st, c.sibling, c.cell.id);
    assert TreeIn(st, c.sibling.left, c.sibling.cell.id) && TreeIn(st, c.sibling.right, c.sibling.cell.id);
  }

  // The context after the parent has been rotated down to the hole's side.
  ghost function Raise<N, K, V>(c: Ctx<N, K, V>): Ctx<N, K, V>
    requires c.Frame? && c.sibling.Branch?
  {
    var s := c.side;
    Frame(Frame(c.up, s, c.sibling.cell, Child(Flip(s), c.sibling)), s, c.cell, Child(s, c.sibling))
  }

  lemma RaiseIsRotation<K, V>(root: Node?<K, V>, c: NCtx<K, V>, t: NTree<K, V>)
    requires c.Frame? && c.sibling.Branch?
    ensures Focus(root, Raise(c), t) <==> Focus(root, c.up, Rotate(c.side, Join(c.side, t, c.cell, c.sibling)))
  {
    FocusUp(root, Raise(c), t);
    FocusUp(root, Raise(c).up, Join(c.side, t, c.cell, Child(c.side, c.sibling)));
  }

  // ---------- Rotations ----------

  // A rotation of a subtree: its root goes down on side `s`, the child on the
  // other side comes up.
  ghost function Rotate<N, K, V>(s: Side, t: Tree<N, K, V>): Tree<N, K, V>
    requires t.Branch? && Child(Flip(s), t).Branch?
  {
    var rising := Child(Flip(s), t);
    Join(s, Join(s, Child(s, t), t.cell, Child(s, rising)), rising.cell, Child(Flip(s), rising))
  }

  ghost function Relink<K, V>(f: Fields<K, V>, s: Side, child: Node?<K, V>): Fields<K, V> {
    if s.L? then f.(left := child) else f.(right := child)
  }

  // The four nodes whose links a rotation changes, and how.
  ghost predicate RotatedLinks<K, V>(s: Side, all: set<Node<K, V>>, st: Store<K, V>, st': Store<K, V>, c: NCtx<K, V>,
          t: NTree<K, V>)
    requires t.Branch? && Child(Flip(s), t).Branch?
  {
    var rising := Child(Flip(s), t);
    var n, m, mid := t.cell.id, rising.cell.id, RootId(Child(s, rising));
    && n in st && m in st && (mid != null ==> mid in st) && (c.Frame? ==> c.cell.id in st)
    && (forall x :: x in all && x in st && x != n && x != m && x != mid && x != CtxParent(c) ==> Stores(st', x, st[x]))
    && Stores(st', n, Relink(st[n], Flip(s), mid).(parent := m))
    && Stores(st', m, Relink(st[m], s, n).(parent := CtxParent(c)))
    && (mid != null ==> Stores(st', mid, st[mid].(parent := n)))
    && (c.Frame? ==> Stores(st', c.cell.id, Relink(st[c.cell.id], c.side, m)))
  }

  // What the nodes taking part in a rotation look like before it.
  lemma RotatedNodes<K, V>(s: Side, st: Store<K, V>, root: Node?<K, V>, c: NCtx<K, V>, t: NTree<K, V>)
    requires FocusIn(st, root, c, t) && t.Branch? && Child(Flip(s), t).Branch?
    ensures var rising := Child(Flip(s), t);
            var n, m, mid := t.cell.id, rising.cell.id, RootId(Child(s, rising));
            && n != m && n != mid && m != mid && n in Ids(t) && m in Ids(t)
            && Stores(st, n, FieldsOf(t.cell, RootId(t.left), RootId(t.right), CtxParent(c)))
            && Stores(st, m, FieldsOf(rising.cell, RootId(rising.left), RootId(rising.right), n))
            && (mid != null ==> mid in st && mid in Ids(t))
            && (c.Top? || (c.cell.id in CtxIds(c) && c.cell.id in st
                && n == (if c.side.L? then st[c.cell.id].left else st[c.cell.id].right)
                && (c.side.R? ==> st[c.cell.id].left != n)))
  {
    var rising := Child(Flip(s), t);
    assert TreeIn(st, rising, t.cell.id);
    var mid := Child(s, rising);
    assert TreeIn(st, mid, rising.cell.id);
    assert mid.Branch? ==> mid.cell.id in Ids(mid);
  }

  lemma RotateIds<N, K, V>(s: Side, t: Tree<N, K, V>)
    requires t.Branch? && Child(Flip(s), t).Branch?
    ensures Ids(Rotate(s, t)) == Ids(t)
    ensures Entries(Rotate(s, t)) == Entries(t)
  {
    var near, rising := Child(s, t), Child(Flip(s), t);
    assert Ids(t) == Ids(near) + {t.cell.id} + Ids(rising);
  }

  lemma RotateTreeIn<K, V>(s: Side, st: Store<K, V>, st': Store<K, V>, c: NCtx<K, V>, t: NTree<K, V>)
    requires CtxIds(c) !! Ids(t) && TreeIn(st, t, CtxParent(c))
    requires t.Branch? && Child(Flip(s), t).Branch? && RotatedLinks(s, CtxIds(c) + Ids(t), st, st', c, t)
    ensures TreeIn(st', Rotate(s, t), CtxParent(c))
  {
    var near, rising := Child(s, t), Child(Flip(s), t);
    var mid, far := Child(s, rising), Child(Flip(s), rising);
    var n, m := t.cell.id, rising.cell.id;
    assert TreeIn(st, rising, n);
    var lowered := Join(s, near, t.cell, mid);
    assert TreeIn(st', lowered, m) by {
      TreeInFrame(st, st', near, n);
      TreeInAdopt(st, st', mid, m, n);
    }
    assert TreeIn(st', far, m) by {
      TreeInFrame(st, st', far, m);
    }
    assert Ids(lowered) == Ids(near) + {n} + Ids(mid);
  }

  lemma RotateFocus<K, V>(s: Side, st: Store<K, V>, root: Node?<K, V>, root': Node?<K, V>, c: NCtx<K, V>,
          t: NTree<K, V>)
    requires FocusIn(st, root, c, t) && t.Branch? && Child(Flip(s), t).Branch?
    requires RotatedLinks(s, CtxIds(c) + Ids(t), st, Snapshot(CtxIds(c) + Ids(t)), c, t)
    requires root' == if c.Top? then Child(Flip(s), t).cell.id else root
    ensures Focus(root', c, Rotate(s, t)) && Ids(Rotate(s, t)) == Ids(t)
  {
    var st' := Snapshot(CtxIds(c) + Ids(t));
    RotateIds(s, t);
    RotateTreeIn(s, st, st', c, t);
    CtxInRelink(st, st', c, root, root', t.cell.id, Child(Flip(s), t).cell.id);
  }
}
