// The value of a red-black tree, free of pointers: the tree itself, the context
// around one subtree (a zipper), what both mean as a sorted sequence of entries,
// and the colour and black-height invariants.
//
// `N` is the type of node identities; the heap model instantiates it with the
// node objects, so that one tree value says which object sits where.
module RedBlackTrees {

  datatype Color = Red | Black

  // Which child of its parent a subtree is.
  datatype Side = L | R

  datatype Cell<N, K, V> = Cell(id: N, color: Color, key: K, value: V)

  datatype Tree<N, K, V> = Leaf | Branch(left: Tree<N, K, V>, cell: Cell<N, K, V>, right: Tree<N, K, V>)

  // Everything around a hole: the parent's cell, the hole's side of it, the
  // sibling subtree, and the context of the parent.
  datatype Ctx<N, K, V> = Top | Frame(up: Ctx<N, K, V>, side: Side, cell: Cell<N, K, V>, sibling: Tree<N, K, V>)

  function Flip(s: Side): Side {
    if s.L? then R else L
  }

  // A branch given by its child on side `s` and its other child.
  function Join<N, K, V>(s: Side, near: Tree<N, K, V>, cell: Cell<N, K, V>, far: Tree<N, K, V>): Tree<N, K, V> {
    if s.L? then Branch(near, cell, far) else Branch(far, cell, near)
  }

  function Child<N, K, V>(s: Side, t: Tree<N, K, V>): Tree<N, K, V>
    requires t.Branch?
  {
    if s.L? then t.left else t.right
  }

  function Plug<N, K, V>(c: Ctx<N, K, V>, t: Tree<N, K, V>): Tree<N, K, V>
    decreases c
  {
    match c
    case Top => t
    case Frame(up, side, cell, sibling) => Plug(up, Join(side, t, cell, sibling))
  }

  function Depth<N, K, V>(c: Ctx<N, K, V>): nat {
    match c
    case Top => 0
    case Frame(up, _, _, _) => 1 + Depth(up)
  }

  function Height<N, K, V>(t: Tree<N, K, V>): nat {
    match t
    case Leaf => 0
    case Branch(l, _, r) => 1 + if Height(l) >= Height(r) then Height(l) else Height(r)
  }

  // ---------- Node identities ----------

  ghost function Ids<N, K, V>(t: Tree<N, K, V>): set<N> {
    match t
    case Leaf => {}
    case Branch(l, cell, r) => Ids(l) + {cell.id} + Ids(r)
  }

  ghost function CtxIds<N, K, V>(c: Ctx<N, K, V>): set<N> {
    match c
    case Top => {}
    case Frame(up, _, cell, sibling) => CtxIds(up) + {cell.id} + Ids(sibling)
  }

  lemma {:induction false} PlugIds<N, K, V>(c: Ctx<N, K, V>, t: Tree<N, K, V>)
    ensures Ids(Plug(c, t)) == CtxIds(c) + Ids(t)
    decreases c
  {
    if c.Top? {
    } else {
      PlugIds(c.up, Join(c.side, t, c.cell, c.sibling));
    }
  }

  // ---------- Entries in key order ----------

  function Entry<N, K, V>(cell: Cell<N, K, V>): (K, V) {
    (cell.key, cell.value)
  }

  function Entries<N, K, V>(t: Tree<N, K, V>): seq<(K, V)> {
    match t
    case Leaf => []
    case Branch(l, cell, r) => Entries(l) + [Entry(cell)] + Entries(r)
  }

  // The entries to the left and to the right of a context's hole.
  function Before<N, K, V>(c: Ctx<N, K, V>): seq<(K, V)> {
    match c
    case Top => []
    case Frame(up, L, _, _) => Before(up)
    case Frame(up, R, cell, sibling) => Before(up) + Entries(sibling) + [Entry(cell)]
  }

  function After<N, K, V>(c: Ctx<N, K, V>): seq<(K, V)> {
    match c
    case Top => []
    case Frame(up, L, cell, sibling) => [Entry(cell)] + Entries(sibling) + After(up)
    case Frame(up, R, _, _) => After(up)
  }

  // The entries of a subtree together with those around it.
  function Around<N, K, V>(c: Ctx<N, K, V>, t: Tree<N, K, V>): seq<(K, V)> {
    Before(c) + Entries(t) + After(c)
  }

  lemma Regroup<T>(a: seq<T>, b: seq<T>, c: seq<T>, d: seq<T>)
    ensures a + (b + c) + d == (a + b) + (c + d)
  {
  }

  lemma FrameAround<N, K, V>(c: Ctx<N, K, V>, t: Tree<N, K, V>)
    requires c.Frame?
    ensures Around(c, t) == Around(c.up, Join(c.side, t, c.cell, c.sibling))
  {
  }

  lemma {:induction false} PlugEntries<N, K, V>(c: Ctx<N, K, V>, t: Tree<N, K, V>)
    ensures Entries(Plug(c, t)) == Around(c, t)
    decreases c
  {
    if c.Top? {
    } else {
      FrameAround(c, t);
      PlugEntries(c.up, Join(c.side, t, c.cell, c.sibling));
    }
  }

  // ---------- Colours and black heights ----------

  function TreeColor<N, K, V>(t: Tree<N, K, V>): Color {
    if t.Leaf? then Black else t.cell.color
  }

  function CtxColor<N, K, V>(c: Ctx<N, K, V>): Color {
    if c.Top? then Black else c.cell.color
  }

  function Paint<N, K, V>(t: Tree<N, K, V>, color: Color): Tree<N, K, V>
    requires t.Branch?
  {
    t.(cell := t.cell.(color := color))
  }

  function Weight(color: Color): nat {
    if color.Black? then 1 else 0
  }

  // Every path from `t` down to a leaf crosses exactly `h` black nodes.
  ghost predicate Balanced<N, K, V>(t: Tree<N, K, V>, h: nat) {
    match t
    case Leaf => h == 0
    case Branch(l, cell, r) =>
      && h >= Weight(cell.color)
      && Balanced(l, h - Weight(cell.color))
      && Balanced(r, h - Weight(cell.color))
  }

  // No red node has a red child.
  ghost predicate NoRedRed<N, K, V>(t: Tree<N, K, V>) {
    match t
    case Leaf => true
    case Branch(l, cell, r) =>
      && (cell.color.Red? ==> TreeColor(l).Black? && TreeColor(r).Black?)
      && NoRedRed(l)
      && NoRedRed(r)
  }

  // The black height a tree has if it is balanced at all.
  function BlackHeight<N, K, V>(t: Tree<N, K, V>): nat {
    if t.Leaf? then 0 else BlackHeight(t.left) + Weight(t.cell.color)
  }

  ghost predicate IsRedBlack<N, K, V>(t: Tree<N, K, V>) {
    Balanced(t, BlackHeight(t)) && NoRedRed(t) && TreeColor(t).Black?
  }

  lemma {:induction false} BalancedHeight<N, K, V>(t: Tree<N, K, V>, h: nat)
    requires Balanced(t, h)
    ensures h == BlackHeight(t)
  {
    if t.Leaf? {
    } else {
      BalancedHeight(t.left, h - Weight(t.cell.color));
    }
  }

  // A subtree of black height `h` in the hole makes the whole tree balanced.
  ghost predicate CtxBalanced<N, K, V>(c: Ctx<N, K, V>, h: nat) {
    match c
    case Top => true
    case Frame(up, _, cell, sibling) => Balanced(sibling, h) && CtxBalanced(up, h + Weight(cell.color))
  }

  // A black-rooted subtree in the hole leaves no red node with a red child, and
  // the root is not red.
  ghost predicate CtxNoRedRed<N, K, V>(c: Ctx<N, K, V>) {
    match c
    case Top => true
    case Frame(up, _, cell, sibling) =>
      && (cell.color.Red? ==> up.Frame? && CtxColor(up).Black? && TreeColor(sibling).Black?)
      && NoRedRed(sibling)
      && CtxNoRedRed(up)
  }

  // Putting a subtree that fits into a good context gives a red-black tree.
  lemma {:induction false} PlugIsRedBlack<N, K, V>(c: Ctx<N, K, V>, t: Tree<N, K, V>, h: nat)
    requires CtxBalanced(c, h) && CtxNoRedRed(c)
    requires Balanced(t, h) && NoRedRed(t)
    requires TreeColor(t).Red? ==> c.Frame? && CtxColor(c).Black?
    ensures IsRedBlack(Plug(c, t))
    decreases c
  {
    if c.Frame? {
      PlugIsRedBlack(c.up, Join(c.side, t, c.cell, c.sibling), h + Weight(c.cell.color));
    } else {
      BalancedHeight(t, h);
    }
  }

  // The converse: every way of splitting a red-black tree gives a good context.
  lemma {:induction false} SplitRedBlack<N, K, V>(c: Ctx<N, K, V>, t: Tree<N, K, V>) returns (h: nat)
    requires IsRedBlack(Plug(c, t))
    ensures CtxBalanced(c, h) && CtxNoRedRed(c) && Balanced(t, h) && NoRedRed(t)
    ensures TreeColor(t).Red? ==> c.Frame? && CtxColor(c).Black?
    decreases c
  {
    if c.Frame? {
      var h' := SplitRedBlack(c.up, Join(c.side, t, c.cell, c.sibling));
      h := h' - Weight(c.cell.color);
    } else {
      h := BlackHeight(t);
    }
  }

  // ---------- Height is logarithmic ----------

  function Pow2(n: nat): nat {
    if n == 0 then 1 else 2 * Pow2(n - 1)
  }

  lemma {:induction false} Pow2Monotone(m: nat, n: nat)
    requires m <= n
    ensures 1 <= Pow2(m) <= Pow2(n)
    decreases n
  {
    if m < n {
      Pow2Monotone(m, n - 1);
    } else if m > 0 {
      Pow2Monotone(m - 1, n - 1);
    }
  }

  lemma {:induction false} BalancedSize<N, K, V>(t: Tree<N, K, V>, h: nat)
    requires Balanced(t, h)
    ensures Pow2(h) <= |Entries(t)| + 1
  {
    if t.Leaf? {
    } else {
      BalancedSize(t.left, h - Weight(t.cell.color));
      BalancedSize(t.right, h - Weight(t.cell.color));
    }
  }

  lemma {:induction false} BalancedHeightBound<N, K, V>(t: Tree<N, K, V>, h: nat)
    requires Balanced(t, h) && NoRedRed(t)
    ensures Height(t) <= 2 * h + (if TreeColor(t).Red? then 1 else 0)
  {
    if t.Leaf? {
    } else {
      BalancedHeightBound(t.left, h - Weight(t.cell.color));
      BalancedHeightBound(t.right, h - Weight(t.cell.color));
    }
  }

  // 2^(height / 2) never exceeds the number of entries plus one.
  lemma HeightIsLogarithmic<N, K, V>(t: Tree<N, K, V>)
    requires IsRedBlack(t)
    ensures Pow2(Height(t) / 2) <= |Entries(t)| + 1
  {
    var h := BlackHeight(t);
    BalancedHeightBound(t, h);
    BalancedSize(t, h);
    Pow2Monotone(Height(t) / 2, h);
  }

  // A node's depth plus the height below it stays within the height of the tree,
  // which bounds every descent from the root.
  lemma {:induction false} DescentBound<N, K, V>(c: Ctx<N, K, V>, t: Tree<N, K, V>)
    ensures Depth(c) + Height(t) <= Height(Plug(c, t))
    decreases c
  {
    if c.Top? {
    } else {
      DescentBound(c.up, Join(c.side, t, c.cell, c.sibling));
    }
  }
}
