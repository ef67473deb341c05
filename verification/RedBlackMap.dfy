// The pointer-based map: nodes with children, parent and colour that are rewired
// in place. Each method is proved to compute the pure step of `RedBlackRepair`.
module RedBlackMap {
  import opened SortedEntries
  import opened RedBlackTrees
  import opened RedBlackRepair
  import opened TreeSearch
  import opened TreeUpdates
  import opened NodeHeap
  import opened Wrappers

  ghost predicate EndsWith<T>(s: seq<T>, e: T) {
    s != [] && s[|s| - 1] == e
  }

  class Map<K(!new), V> {
    var Root: Node?<K, V>
    var size: int
    const Comparator: (K, K) -> int

    // The tree the heap structure stands for, and the number of rotations so far.
    ghost var tree: NTree<K, V>
    ghost var rotations: nat

    constructor (comparator: (K, K) -> int)
      ensures Comparator == comparator && Root == null && size == 0
      ensures tree == Leaf && rotations == 0
    {
      Comparator := comparator;
      Root, size := null, 0;
      tree, rotations := Leaf, 0;
    }

    // ---------- What the map stands for ----------

    ghost predicate Valid()
      reads this, Ids(tree)
    {
      && Focus(Root, Top, tree)
      && GoodTree(Comparator, tree)
      && size == |Entries(tree)|
    }

    ghost function Model(): map<K, V>
      reads `tree
    {
      ToMap(Entries(tree))
    }

    // ---------- Queries ----------

    // A position of the search for `key`: the subtree it has come to.
    ghost predicate Position(key: K, node: Node?<K, V>, c: NCtx<K, V>, t: NTree<K, V>)
      reads this, CtxIds(c), Ids(t)
    {
      && Focus(Root, c, t) && node == RootId(t)
      && Plug(c, t) == tree && Brackets(Comparator, c, key)
    }

    lemma Step(s: Side, key: K, c: NCtx<K, V>, t: NTree<K, V>)
      requires Valid() && t.Branch? && Position(key, t.cell.id, c, t)
      requires if s.L? then Comparator(key, t.cell.key) < 0 else Comparator(key, t.cell.key) > 0
      ensures Position(key, RootId(Child(s, t)), Down(s, c, t), Child(s, t))
    {
      PlugEntries(c, t);
      DownAround(s, c, t);
      Descend(Comparator, s, c, t, key);
      FocusDown(s, Root, c, t);
    }

    // What a finished search says about the map.
    lemma Found(key: K, c: NCtx<K, V>, t: NTree<K, V>)
      requires Valid() && Position(key, RootId(t), c, t) && t.Branch? && t.cell.key == key
      ensures key in Model() && Model()[key] == t.cell.value
      ensures ToMap((Before(c) + Entries(t.left)) + (Entries(t.right) + After(c))) == Model() - {key}
      ensures Sorted(Comparator, (Before(c) + Entries(t.left)) + (Entries(t.right) + After(c)))
      ensures |Entries(tree)| == |(Before(c) + Entries(t.left)) + (Entries(t.right) + After(c))| + 1
    {
      PlugEntries(c, t);
      SplitAtNode(Comparator, c, t);
      ToMapFound(Comparator, Before(c) + Entries(t.left), key, t.cell.value, Entries(t.right) + After(c));
    }

    lemma Missing(key: K, c: NCtx<K, V>)
      requires Valid() && Position(key, null, c, Leaf)
      ensures Entries(tree) == Before(c) + After(c) && key !in Model()
    {
      PlugEntries(c, Leaf);
      var hole: NTree<K, V> := Leaf;
      assert Around(c, hole) == Before(c) + After(c);
      ToMapAbsent(Comparator, Before(c), key, After(c));
    }

    method Lookup(key: K) returns (node: Node?<K, V>, ghost c: NCtx<K, V>, ghost t: NTree<K, V>, ghost steps: nat)
      requires Valid()
      ensures Valid() && Position(key, node, c, t)
      ensures t.Branch? ==> t.cell.key == key
      ensures node != null <==> key in Model()
      ensures node != null ==> node.Key == key && node.Value == Model()[key]
      ensures steps <= Height(tree)
    {
      assert allocated(Ids(tree));
      node := Root;
      c, t, steps := Top, tree, 0;
      while node != null
        invariant Valid() && Position(key, node, c, t) && steps == Depth(c)
        decreases t
      {
        FocusNode(Root, c, t);
        DescentBound(c, t);
        steps := steps + 1;
        var compare := Comparator(key, node.Key);
        if compare == 0 {
          Found(key, c, t);
          return;
        } else if compare < 0 {
          Step(L, key, c, t);
          node, c, t := node.Left, Down(L, c, t), t.left;
        } else {
          Step(R, key, c, t);
          node, c, t := node.Right, Down(R, c, t), t.right;
        }
      }
      DescentBound(c, t);
      Missing(key, c);
    }

    method Get(key: K) returns (value: Option<V>)
      requires Valid()
      ensures value == if key in Model() then Some(Model()[key]) else None
    {
      var node;
      ghost var c, t, steps;
      node, c, t, steps := Lookup(key);
      if node != null {
        return Some(node.Value);
      }
      return None;
    }

    // `Ceiling` returns the node of entry `i`: the first whose key is not below `key`.
    ghost predicate IsCeiling(key: K, node: Node?<K, V>, i: nat)
      reads this, node
    {
      && node != null && i < |Entries(tree)| && Entries(tree)[i] == (node.Key, node.Value)
      && Comparator(key, node.Key) <= 0
      && AllBelow(Comparator, Entries(tree)[..i], key)
    }

    // `Floor` returns the node of entry `i`: the last whose key is not above `key`.
    ghost predicate IsFloor(key: K, node: Node?<K, V>, i: nat)
      reads this, node
    {
      && node != null && i < |Entries(tree)| && Entries(tree)[i] == (node.Key, node.Value)
      && Comparator(key, node.Key) >= 0
      && AllAbove(Comparator, Entries(tree)[i + 1..], key)
    }

    lemma ExactMatch(key: K, node: Node<K, V>, c: NCtx<K, V>, t: NTree<K, V>)
      requires Valid() && Position(key, node, c, t) && t.Branch? && t.cell.key == key
      ensures IsCeiling(key, node, |Before(c) + Entries(t.left)|)
      ensures IsFloor(key, node, |Before(c) + Entries(t.left)|)
    {
      FocusNode(Root, c, t);
      PlugEntries(c, t);
      SplitAtNode(Comparator, c, t);
      TakeAround(Before(c) + Entries(t.left), Entry(t.cell), Entries(t.right) + After(c));
    }

    lemma SearchEnd(key: K, c: NCtx<K, V>)
      requires Valid() && Position(key, null, c, Leaf)
      ensures Entries(tree) == Before(c) + After(c)
      ensures Entries(tree)[..|Before(c)|] == Before(c) && Entries(tree)[|Before(c)|..] == After(c)
    {
      Missing(key, c);
    }

    method Ceiling(key: K) returns (ceiling: Node?<K, V>, found: bool, ghost i: nat, ghost steps: nat)
      requires Valid()
      ensures Valid()
      ensures found ==> IsCeiling(key, ceiling, i)
      ensures !found ==> ceiling == null && AllBelow(Comparator, Entries(tree), key)
      ensures steps <= Height(tree)
    {
      assert allocated(Ids(tree));
      found, ceiling, i := false, null, 0;
      var node := Root;
      ghost var c: NCtx<K, V>, t := Top, tree;
      steps := 0;
      while node != null
        invariant Valid() && Position(key, node, c, t) && steps == Depth(c)
        invariant found == (After(c) != []) && found == (ceiling != null)
        invariant found ==> ceiling in Ids(tree) && (ceiling.Key, ceiling.Value) == After(c)[0]
        decreases t
      {
        FocusNode(Root, c, t);
        DescentBound(c, t);
        PlugIds(c, t);
        steps := steps + 1;
        var compare := Comparator(key, node.Key);
        if compare == 0 {
          ExactMatch(key, node, c, t);
          return node, true, |Before(c) + Entries(t.left)|, steps;
        } else if compare < 0 {
          ceiling, found := node, true;
          Step(L, key, c, t);
          node, c, t := node.Left, Down(L, c, t), t.left;
        } else {
          Step(R, key, c, t);
          node, c, t := node.Right, Down(R, c, t), t.right;
        }
      }
      DescentBound(c, t);
      SearchEnd(key, c);
      i := |Before(c)|;
    }

    method Floor(key: K) returns (floor: Node?<K, V>, found: bool, ghost i: nat, ghost steps: nat)
      requires Valid()
      ensures Valid()
      ensures found ==> IsFloor(key, floor, i)
      ensures !found ==> floor == null && AllAbove(Comparator, Entries(tree), key)
      ensures steps <= Height(tree)
    {
      assert allocated(Ids(tree));
      found, floor, i := false, null, 0;
      var node := Root;
      ghost var c: NCtx<K, V>, t := Top, tree;
      steps := 0;
      while node != null
        invariant Valid() && Position(key, node, c, t) && steps == Depth(c)
        invariant found == (Before(c) != []) && found == (floor != null)
        invariant found ==> floor in Ids(tree) && EndsWith(Before(c), (floor.Key, floor.Value))
        decreases t
      {
        FocusNode(Root, c, t);
        DescentBound(c, t);
        PlugIds(c, t);
        steps := steps + 1;
        var compare := Comparator(key, node.Key);
        if compare == 0 {
          ExactMatch(key, node, c, t);
          return node, true, |Before(c) + Entries(t.left)|, steps;
        } else if compare < 0 {
          Step(L, key, c, t);
          node, c, t := node.Left, Down(L, c, t), t.left;
        } else {
          floor, found := node, true;
          Step(R, key, c, t);
          assert EndsWith((Before(c) + Entries(t.left)) + [Entry(t.cell)], (node.Key, node.Value));
          node, c, t := node.Right, Down(R, c, t), t.right;
        }
      }
      DescentBound(c, t);
      SearchEnd(key, c);
      if found {
        i := |Before(c)| - 1;
      }
    }

    // The first and the last node; `null` exactly for an empty map.
    method Left() returns (parent: Node?<K, V>)
      requires Valid()
      ensures Valid()
      ensures tree.Leaf? ==> parent == null
      ensures tree.Branch? ==>
                && Entries(tree) != [] && parent != null && (parent.Key, parent.Value) == Entries(tree)[0]
                && parent == OutermostTree(L, tree).cell.id
      ensures tree.Branch? ==> Focus(Root, OutermostCtx(L, Top, tree), OutermostTree(L, tree))
    {
      assert allocated(Ids(tree));
      parent := null;
      var current := Root;
      ghost var c: NCtx<K, V>, t := Top, tree;
      while current != null
        invariant Valid() && Focus(Root, c, t) && current == RootId(t)
        invariant parent == null ==> c.Top? && t == tree
        invariant t.Branch? ==> tree.Branch? && OutermostTree(L, t) == OutermostTree(L, tree)
        invariant t.Branch? ==> OutermostCtx(L, c, t) == OutermostCtx(L, Top, tree)
        invariant parent != null && t.Leaf? ==> tree.Branch? && parent == OutermostTree(L, tree).cell.id
        decreases t
      {
        FocusNode(Root, c, t);
        FocusDown(L, Root, c, t);
        parent := current;
        current := current.Left;
        c, t := Down(L, c, t), t.left;
      }
      if tree.Branch? {
        FocusOutermost(L, Root, Top, tree);
        FocusNode(Root, OutermostCtx(L, Top, tree), OutermostTree(L, tree));
        OutermostEntry(L, tree);
      }
    }

    method Right() returns (parent: Node?<K, V>)
      requires Valid()
      ensures Valid()
      ensures tree.Leaf? ==> parent == null
      ensures tree.Branch? ==>
                && Entries(tree) != [] && parent != null
                && (parent.Key, parent.Value) == Entries(tree)[|Entries(tree)| - 1]
                && parent == OutermostTree(R, tree).cell.id
      ensures tree.Branch? ==> Focus(Root, OutermostCtx(R, Top, tree), OutermostTree(R, tree))
    {
      assert allocated(Ids(tree));
      parent := null;
      var current := Root;
      ghost var c: NCtx<K, V>, t := Top, tree;
      while current != null
        invariant Valid() && Focus(Root, c, t) && current == RootId(t)
        invariant parent == null ==> c.Top? && t == tree
        invariant t.Branch? ==> tree.Branch? && OutermostTree(R, t) == OutermostTree(R, tree)
        invariant t.Branch? ==> OutermostCtx(R, c, t) == OutermostCtx(R, Top, tree)
        invariant parent != null && t.Leaf? ==> tree.Branch? && parent == OutermostTree(R, tree).cell.id
        decreases t
      {
        FocusNode(Root, c, t);
        FocusDown(R, Root, c, t);
        parent := current;
        current := current.Right;
        c, t := Down(R, c, t), t.right;
      }
      if tree.Branch? {
        FocusOutermost(R, Root, Top, tree);
        FocusNode(Root, OutermostCtx(R, Top, tree), OutermostTree(R, tree));
        OutermostEntry(R, tree);
      }
    }

    method Empty() returns (empty: bool)
      requires Valid()
      ensures empty <==> Model() == map[]
    {
      SizeIsCardinality();
      return size == 0;
    }

    lemma SizeIsCardinality()
      requires Valid()
      ensures size == |Model()|
    {
      SortedIsDistinct(Comparator, Entries(tree));
      ToMapDistinct(Entries(tree));
    }

    // ---------- Pointer surgery ----------

    method ReplaceNode(node: Node<K, V>, other: Node?<K, V>)
      modifies `Root
      modifies (if node.Parent == null then {} else {node.Parent})`Left
      modifies (if node.Parent == null then {} else {node.Parent})`Right
      modifies (if other == null then {} else {other})`Parent
      ensures var p := old(node.Parent);
              if p == null then Root == other
              else
                && Root == old(Root)
                && p.Left == (if node == old(p.Left) then other else old(p.Left))
                && p.Right == (if node == old(p.Left) then old(p.Right) else other)
      ensures other != null ==> other.Parent == old(node.Parent)
    {
      if node.Parent == null {
        Root := other;
      } else {
        if node == node.Parent.Left {
          node.Parent.Left := other;
        } else {
          node.Parent.Right := other;
        }
      }
      if other != null {
        other.Parent := node.Parent;
      }
    }

    // The pointer surgery of a rotation, field by field.
    method RelinkLeft(node: Node<K, V>)
      requires node.Right != null && node.Right != node && node.Parent != node && node.Parent != node.Right
      requires node.Right.Left != node && node.Right.Left != node.Right
      requires node.Parent != null ==> node.Right.Left != node.Parent
      modifies `Root, `rotations
      modifies (if node.Parent == null then {} else {node.Parent})`Left
      modifies (if node.Parent == null then {} else {node.Parent})`Right
      modifies node`Right, node`Parent, node.Right`Left, node.Right`Parent
      modifies (if node.Right.Left == null then {} else {node.Right.Left})`Parent
      ensures rotations == old(rotations) + 1
      ensures var p, m, mid := old(node.Parent), old(node.Right), old(node.Right.Left);
              && node.Right == mid && node.Parent == m && m.Left == node && m.Parent == p
              && (mid != null ==> mid.Parent == node)
              && (if p == null then Root == m
                  else
                    && Root == old(Root)
                    && p.Left == (if node == old(p.Left) then m else old(p.Left))
                    && p.Right == (if node == old(p.Left) then old(p.Right) else m))
    {
      var right := node.Right;
      ReplaceNode(node, right);
      node.Right := right.Left;
      if right.Left != null {
        right.Left.Parent := node;
      }
      right.Left := node;
      node.Parent := right;
      rotations := rotations + 1;
    }

    method RotateLeft(node: Node<K, V>, ghost c: NCtx<K, V>, ghost t: NTree<K, V>)
      requires Focus(Root, c, t) && t.Branch? && t.cell.id == node && t.right.Branch?
      modifies `Root, `rotations, CtxIds(c), Ids(t)
      ensures Focus(Root, c, Rotate(L, t)) && Ids(Rotate(L, t)) == Ids(t)
      ensures rotations == old(rotations) + 1
    {
      ghost var all, root := CtxIds(c) + Ids(t), Root;
      ghost var st := Snapshot(all);
      RotatedNodes(L, st, root, c, t);
      RelinkLeft(node);
      RotateFocus(L, st, root, Root, c, t);
    }

    // The pointer surgery of a rotation, field by field.
    method RelinkRight(node: Node<K, V>)
      requires node.Left != null && node.Left != node && node.Parent != node && node.Parent != node.Left
      requires node.Left.Right != node && node.Left.Right != node.Left
      requires node.Parent != null ==> node.Left.Right != node.Parent
      modifies `Root, `rotations
      modifies (if node.Parent == null then {} else {node.Parent})`Left
      modifies (if node.Parent == null then {} else {node.Parent})`Right
      modifies node`Left, node`Parent, node.Left`Right, node.Left`Parent
      modifies (if node.Left.Right == null then {} else {node.Left.Right})`Parent
      ensures rotations == old(rotations) + 1
      ensures var p, m, mid := old(node.Parent), old(node.Left), old(node.Left.Right);
              && node.Left == mid && node.Parent == m && m.Right == node && m.Parent == p
              && (mid != null ==> mid.Parent == node)
              && (if p == null then Root == m
                  else
                    && Root == old(Root)
                    && p.Left == (if node == old(p.Left) then m else old(p.Left))
                    && p.Right == (if node == old(p.Left) then old(p.Right) else m))
    {
      var left := node.Left;
      ReplaceNode(node, left);
      node.Left := left.Right;
      if left.Right != null {
        left.Right.Parent := node;
      }
      left.Right := node;
      node.Parent := left;
      rotations := rotations + 1;
    }

    method RotateRight(node: Node<K, V>, ghost c: NCtx<K, V>, ghost t: NTree<K, V>)
      requires Focus(Root, c, t) && t.Branch? && t.cell.id == node && t.left.Branch?
      modifies `Root, `rotations, CtxIds(c), Ids(t)
      ensures Focus(Root, c, Rotate(R, t)) && Ids(Rotate(R, t)) == Ids(t)
      ensures rotations == old(rotations) + 1
    {
      ghost var all, root := CtxIds(c) + Ids(t), Root;
      ghost var st := Snapshot(all);
      RotatedNodes(R, st, root, c, t);
      RelinkRight(node);
      RotateFocus(R, st, root, Root, c, t);
    }

    // Paints one node.
    method SetColor(node: Node<K, V>, color: Color, ghost c: NCtx<K, V>, ghost t: NTree<K, V>)
      requires Focus(Root, c, t) && t.Branch? && t.cell.id == node
      modifies node`color
      ensures Focus(Root, c, Paint(t, color)) && Ids(Paint(t, color)) == Ids(t)
    {
      ghost var st := Snapshot(CtxIds(c) + Ids(t));
      node.color := color;
      RecellFocus(st, Root, c, t, t.cell.(color := color));
    }

    // Gives one node another key and value.
    method SetEntry(node: Node<K, V>, key: K, value: V, ghost c: NCtx<K, V>, ghost t: NTree<K, V>)
      requires Focus(Root, c, t) && t.Branch? && t.cell.id == node
      modifies node`Key, node`Value
      ensures Focus(Root, c, t.(cell := t.cell.(key := key, value := value)))
      ensures Ids(t.(cell := t.cell.(key := key, value := value))) == Ids(t)
    {
      ghost var st := Snapshot(CtxIds(c) + Ids(t));
      node.Key := key;
      node.Value := value;
      RecellFocus(st, Root, c, t, t.cell.(key := key, value := value));
    }

    // A new red node in the empty hole of `c`, below `parent`.
    method Attach(parent: Node?<K, V>, s: Side, key: K, value: V, ghost c: NCtx<K, V>)
      returns (inserted: Node<K, V>)
      requires Focus(Root, c, Leaf) && parent == CtxParent(c) && (c.Frame? ==> s == c.side)
      modifies `Root, CtxIds(c)
      ensures fresh(inserted)
      ensures Focus(Root, c, Branch(Leaf, Cell(inserted, Red, key, value), Leaf))
    {
      ghost var hole: NTree<K, V>, root := Leaf, Root;
      ghost var st := Snapshot(CtxIds(c) + Ids(hole));
      inserted := new Node(key, value, Red);
      assert allocated(CtxIds(c));
      if parent == null {
        Root := inserted;
      } else if s == L {
        parent.Left := inserted;
      } else {
        parent.Right := inserted;
      }
      inserted.Parent := parent;
      AttachFocus(st, root, Root, c, Cell(inserted, Red, key, value));
    }

    // `replaceNode` for a node with at most one child.
    method ReplaceByChild(node: Node<K, V>, child: Node?<K, V>, ghost s: Side, ghost c: NCtx<K, V>,
            ghost t: NTree<K, V>)
      requires Focus(Root, c, t) && t.Branch? && t.cell.id == node
      requires Child(Flip(s), t).Leaf? && child == RootId(Child(s, t))
      modifies `Root, CtxIds(c), Ids(Child(s, t))
      ensures Focus(Root, c, Child(s, t))
      ensures node.Parent == old(node.Parent)
    {
      ghost var st, root := Snapshot(CtxIds(c) + Ids(t)), Root;
      FocusNode(Root, c, t);
      if c.Frame? {
        FocusHole(Root, c, t);
      }
      assert child != null ==> child in Ids(Child(s, t)) && TreeIn(st, Child(s, t), node);
      ReplaceNode(node, child);
      ReplaceFocus(st, root, Root, c, t, s);
    }

    // The same assignment to the parent and to the sibling of the focused subtree.
    method SetParentColor(parent: Node<K, V>, color: Color, ghost c: NCtx<K, V>, ghost t: NTree<K, V>)
      requires Focus(Root, c, t) && c.Frame? && c.cell.id == parent
      modifies parent`color
      ensures Focus(Root, PaintParent(c, color), t)
      ensures CtxIds(PaintParent(c, color)) == CtxIds(c)
    {
      FocusUp(Root, c, t);
      SetColor(parent, color, c.up, Join(c.side, t, c.cell, c.sibling));
      FocusUp(Root, PaintParent(c, color), t);
    }

    method SetSiblingColor(sibling: Node<K, V>, color: Color, ghost c: NCtx<K, V>, ghost t: NTree<K, V>)
      requires Focus(Root, c, t) && c.Frame? && c.sibling.Branch? && c.sibling.cell.id == sibling
      modifies sibling`color
      ensures Focus(Root, PaintSibling(c, color), t)
      ensures CtxIds(PaintSibling(c, color)) == CtxIds(c)
    {
      FocusAcross(Root, c, t);
      SetColor(sibling, color, Across(c, t), c.sibling);
      FocusAcross(Root, PaintSibling(c, color), t);
    }

    // ---------- Repair after an insertion ----------

    method InsertCase1(node: Node<K, V>, ghost c: NCtx<K, V>, ghost t: NTree<K, V>)
      requires Focus(Root, c, t) && t.Branch? && t.cell.id == node && CtxNoRedRed(c)
      modifies `Root, `rotations, CtxIds(c), Ids(t)
      ensures Focus(Root, Top, InsertFix(c, t))
      ensures rotations <= old(rotations) + 2
      decreases c, 3
    {
      FocusNode(Root, c, t);
      if node.Parent == null {
        SetColor(node, Black, c, t);
      } else {
        InsertCase2(node, c, t);
      }
    }

    method InsertCase2(node: Node<K, V>, ghost c: NCtx<K, V>, ghost t: NTree<K, V>)
      requires Focus(Root, c, t) && t.Branch? && t.cell.id == node && CtxNoRedRed(c)
      requires c.Frame?
      modifies `Root, `rotations, CtxIds(c), Ids(t)
      ensures Focus(Root, Top, InsertFix(c, t))
      ensures rotations <= old(rotations) + 2
      decreases c, 2
    {
      FocusNode(Root, c, t);
      FocusHole(Root, c, t);
      if NodeColor(node.Parent) == Black {
        FocusRoot(Root, c, t);
        return;
      }
      InsertCase3(node, c, t);
    }

    method InsertCase3(node: Node<K, V>, ghost c: NCtx<K, V>, ghost t: NTree<K, V>)
      requires Focus(Root, c, t) && t.Branch? && t.cell.id == node && CtxNoRedRed(c)
      requires c.Frame? && c.cell.color.Red?
      modifies `Root, `rotations, CtxIds(c), Ids(t)
      ensures Focus(Root, Top, InsertFix(c, t))
      ensures rotations <= old(rotations) + 2
      decreases c, 1
    {
      ghost var parent := Join(c.side, t, c.cell, c.sibling);
      FocusNode(Root, c, t);
      FocusUp(Root, c, t);
      FocusNode(Root, c.up, parent);
      FocusHole(Root, c.up, parent);
      var uncle := Uncle(node);
      if NodeColor(uncle) == Red {
        PushRedUp(node.Parent, uncle, Grandparent(node), c, t);
        PushRedContents(c, t);
        InsertCase1(Grandparent(node), c.up.up, PushRed(c, t));
      } else {
        InsertCase4(node, c, t);
      }
    }

    // The three assignments of case 3.
    method PushRedUp(parent: Node<K, V>, uncle: Node<K, V>, grandparent: Node<K, V>, ghost c: NCtx<K, V>,
            ghost t: NTree<K, V>)
      requires Focus(Root, c, t) && c.Frame? && c.up.Frame? && c.up.sibling.Branch?
      requires c.cell.id == parent && c.up.sibling.cell.id == uncle && c.up.cell.id == grandparent
      modifies parent`color, uncle`color, grandparent`color
      ensures Focus(Root, c.up.up, PushRed(c, t))
    {
      SetParentColor(parent, Black, c, t);
      FocusUp(Root, PaintParent(c, Black), t);
      ghost var p := Join(c.side, t, c.cell.(color := Black), c.sibling);
      SetSiblingColor(uncle, Black, c.up, p);
      SetParentColor(grandparent, Red, PaintSibling(c.up, Black), p);
      FocusUp(Root, PaintParent(PaintSibling(c.up, Black), Red), p);
    }

    method InsertCase4(node: Node<K, V>, ghost c: NCtx<K, V>, ghost t: NTree<K, V>)
      requires Focus(Root, c, t) && t.Branch? && t.cell.id == node
      requires c.Frame? && c.up.Frame?
      modifies `Root, `rotations, CtxIds(c), Ids(t)
      ensures Focus(Root, Top, InsertRotate(c, t))
      ensures rotations <= old(rotations) + 2
    {
      ghost var parent := Join(c.side, t, c.cell, c.sibling);
      FocusNode(Root, c, t);
      FocusHole(Root, c, t);
      FocusUp(Root, c, t);
      FocusHole(Root, c.up, parent);
      var grandparent := Grandparent(node);
      if node == node.Parent.Right && node.Parent == grandparent.Left {
        RotateLeft(node.Parent, c.up, parent);
        FocusUp(Root, RotateInnerCtx(c, t), RotateInnerSub(c, t));
        FocusNode(Root, c.up, Rotate(L, parent));
        InsertCase5(node.Left, RotateInnerCtx(c, t), RotateInnerSub(c, t));
      } else if node == node.Parent.Left && node.Parent == grandparent.Right {
        RotateRight(node.Parent, c.up, parent);
        FocusUp(Root, RotateInnerCtx(c, t), RotateInnerSub(c, t));
        FocusNode(Root, c.up, Rotate(R, parent));
        InsertCase5(node.Right, RotateInnerCtx(c, t), RotateInnerSub(c, t));
      } else {
        InsertCase5(node, c, t);
      }
    }

    method InsertCase5(node: Node<K, V>, ghost c: NCtx<K, V>, ghost t: NTree<K, V>)
      requires Focus(Root, c, t) && t.Branch? && t.cell.id == node
      requires c.Frame? && c.up.Frame? && c.side == c.up.side
      modifies `Root, `rotations, CtxIds(c), Ids(t)
      ensures Focus(Root, Top, Plug(c.up.up, RotateOuter(c, t)))
      ensures rotations == old(rotations) + 1
    {
      ghost var parent := Join(c.side, t, c.cell, c.sibling);
      FocusNode(Root, c, t);
      FocusHole(Root, c, t);
      FocusUp(Root, c, t);
      FocusHole(Root, c.up, parent);
      SetColor(node.Parent, Black, c.up, parent);
      parent := Paint(parent, Black);
      FocusUp(Root, c.up, parent);
      var grandparent := Grandparent(node);
      ghost var grand := Join(c.up.side, parent, c.up.cell, c.up.sibling);
      SetColor(grandparent, Red, c.up.up, grand);
      grand := Paint(grand, Red);
      if node == node.Parent.Left && node.Parent == grandparent.Left {
        RotateRight(grandparent, c.up.up, grand);
      } else if node == node.Parent.Right && node.Parent == grandparent.Right {
        RotateLeft(grandparent, c.up.up, grand);
      }
      FocusRoot(Root, c.up.up, RotateOuter(c, t));
    }

    // ---------- Repair after a deletion ----------

    method DeleteCase1(node: Node<K, V>, ghost c: NCtx<K, V>, ghost t: NTree<K, V>, ghost h: nat)
      requires Focus(Root, c, t) && t.Branch? && t.cell.id == node && Deficient(c, h)
      modifies `Root, `rotations, CtxIds(c), Ids(t)
      ensures Focus(Root, DeleteFix(c, h), t)
      ensures rotations <= old(rotations) + 3
      decreases Depth(c), 3
    {
      FocusNode(Root, c, t);
      if node.Parent == null {
        return;
      }
      DeleteCase2(node, c, t, h);
    }

    method DeleteCase2(node: Node<K, V>, ghost c: NCtx<K, V>, ghost t: NTree<K, V>, ghost h: nat)
      requires Focus(Root, c, t) && t.Branch? && t.cell.id == node && Deficient(c, h)
      requires c.Frame?
      modifies `Root, `rotations, CtxIds(c), Ids(t)
      ensures Focus(Root, DeleteFix(c, h), t)
      ensures rotations <= old(rotations) + 3
      decreases Depth(c), 2
    {
      FocusNode(Root, c, t);
      FocusHole(Root, c, t);
      FocusNephews(Root, c, t);
      var sibling := Sibling(node);
      if NodeColor(sibling) == Red {
        SetParentColor(node.Parent, Red, c, t);
        SetSiblingColor(sibling, Black, PaintParent(c, Red), t);
        RotateTowards(node, PaintSibling(PaintParent(c, Red), Black), t);
        RaiseSiblingContents(c);
        RaiseSiblingDeficient(c, h);
        DeleteCase3(node, RaiseSibling(c), t, h);
      } else {
        DeleteCase3(node, c, t, h);
      }
    }

    // The parent goes down on the node's own side.
    method RotateTowards(node: Node<K, V>, ghost c: NCtx<K, V>, ghost t: NTree<K, V>)
      requires Focus(Root, c, t) && t.Branch? && t.cell.id == node
      requires c.Frame? && c.sibling.Branch?
      modifies `Root, `rotations, CtxIds(c), Ids(t)
      ensures Focus(Root, Raise(c), t)
      ensures rotations == old(rotations) + 1
    {
      FocusNode(Root, c, t);
      FocusHole(Root, c, t);
      FocusUp(Root, c, t);
      if node == node.Parent.Left {
        RotateLeft(node.Parent, c.up, Join(L, t, c.cell, c.sibling));
      } else {
        RotateRight(node.Parent, c.up, Join(R, t, c.cell, c.sibling));
      }
      RaiseIsRotation(Root, c, t);
    }

    method DeleteCase3(node: Node<K, V>, ghost c: NCtx<K, V>, ghost t: NTree<K, V>, ghost h: nat)
      requires Focus(Root, c, t) && t.Branch? && t.cell.id == node && Deficient(c, h)
      requires c.Frame? && TreeColor(c.sibling).Black?
      modifies `Root, `rotations, CtxIds(c), Ids(t)
      ensures Focus(Root, DeleteFixBlack(c, h), t)
      ensures rotations <= old(rotations) + (if c.cell.color.Red? then 2 else 3)
      decreases if CtxColor(c).Red? then 0 else Depth(c), 1
    {
      FocusNode(Root, c, t);
      FocusHole(Root, c, t);
      FocusNephews(Root, c, t);
      var sibling := Sibling(node);
      if NodeColor(node.Parent) == Black && NodeColor(sibling) == Black
         && NodeColor(sibling.Left) == Black && NodeColor(sibling.Right) == Black {
        SetSiblingColor(sibling, Red, c, t);
        ghost var c1 := PaintSibling(c, Red);
        FocusUp(Root, c1, t);
        DeleteCase1(node.Parent, c.up, Join(c.side, t, c1.cell, c1.sibling), h + 1);
        FocusUp(Root, DeleteFixBlack(c, h), t);
      } else {
        DeleteCase4(node, c, t, h);
      }
    }

    method DeleteCase4(node: Node<K, V>, ghost c: NCtx<K, V>, ghost t: NTree<K, V>, ghost h: nat)
      requires Focus(Root, c, t) && t.Branch? && t.cell.id == node && Deficient(c, h)
      requires c.Frame? && TreeColor(c.sibling).Black? && !(c.cell.color.Black? && BlackNephews(c.sibling))
      modifies `Root, `rotations, CtxIds(c), Ids(t)
      ensures Focus(Root, DeleteFixBlack(c, h), t)
      ensures rotations <= old(rotations) + 2
    {
      FocusNode(Root, c, t);
      FocusHole(Root, c, t);
      FocusNephews(Root, c, t);
      var sibling := Sibling(node);
      if NodeColor(node.Parent) == Red && NodeColor(sibling) == Black
         && NodeColor(sibling.Left) == Black && NodeColor(sibling.Right) == Black {
        SetSiblingColor(sibling, Red, c, t);
        SetParentColor(node.Parent, Black, PaintSibling(c, Red), t);
      } else {
        DeleteCase5(node, c, t);
      }
    }

    // A nephew's colour: the child of the sibling on side `s`.
    method SetNephewColor(nephew: Node<K, V>, color: Color, ghost s: Side, ghost c: NCtx<K, V>, ghost t: NTree<K, V>)
      requires Focus(Root, c, t) && c.Frame? && c.sibling.Branch?
      requires Child(s, c.sibling).Branch? && Child(s, c.sibling).cell.id == nephew
      modifies nephew`color
      ensures Focus(Root, PaintNephew(s, c, color), t)
      ensures CtxIds(PaintNephew(s, c, color)) == CtxIds(c)
    {
      ghost var near := Child(s, c.sibling);
      ghost var inner := Frame(Across(c, t), s, c.sibling.cell, Child(Flip(s), c.sibling));
      FocusAcross(Root, c, t);
      FocusUp(Root, inner, near);
      SetColor(nephew, color, inner, near);
      FocusUp(Root, inner, Paint(near, color));
      FocusAcross(Root, PaintNephew(s, c, color), t);
    }

    // The first half of case 5: the near nephew turns black, the sibling red and
    // goes below it.
    method TurnAway(sibling: Node<K, V>, nephew: Node<K, V>, ghost s: Side, ghost c: NCtx<K, V>, ghost t: NTree<K, V>)
      requires Focus(Root, c, t) && c.Frame? && c.sibling.Branch? && c.sibling.cell.id == sibling
      requires Child(s, c.sibling).Branch? && Child(s, c.sibling).cell.id == nephew
      modifies sibling`color, nephew`color
      ensures Focus(Root, PaintNephew(s, PaintSibling(c, Red), Black), t)
      ensures CtxIds(PaintNephew(s, PaintSibling(c, Red), Black)) == CtxIds(c)
    {
      SetSiblingColor(sibling, Red, c, t);
      SetNephewColor(nephew, Black, s, PaintSibling(c, Red), t);
    }

    method DeleteCase5(node: Node<K, V>, ghost c: NCtx<K, V>, ghost t: NTree<K, V>)
      requires Focus(Root, c, t) && t.Branch? && t.cell.id == node
      requires c.Frame? && c.sibling.Branch? && TreeColor(c.sibling).Black? && !BlackNephews(c.sibling)
      modifies `Root, `rotations, CtxIds(c), Ids(t)
      ensures Focus(Root, DeleteRotate(c), t)
      ensures rotations <= old(rotations) + 2
    {
      FocusNode(Root, c, t);
      FocusHole(Root, c, t);
      FocusNephews(Root, c, t);
      var sibling := Sibling(node);
      if node == node.Parent.Left && NodeColor(sibling) == Black
         && NodeColor(sibling.Left) == Red && NodeColor(sibling.Right) == Black {
        TurnAway(sibling, sibling.Left, L, c, t);
        ghost var c1 := PaintNephew(L, PaintSibling(c, Red), Black);
        FocusAcross(Root, c1, t);
        RotateRight(sibling, Across(c1, t), c1.sibling);
        FocusAcross(Root, c.(sibling := TurnSibling(L, c.sibling)), t);
        TurnSiblingContents(L, c.sibling);
        DeleteCase6(node, c.(sibling := TurnSibling(L, c.sibling)), t);
      } else if node == node.Parent.Right && NodeColor(sibling) == Black
                && NodeColor(sibling.Right) == Red && NodeColor(sibling.Left) == Black {
        TurnAway(sibling, sibling.Right, R, c, t);
        ghost var c1 := PaintNephew(R, PaintSibling(c, Red), Black);
        FocusAcross(Root, c1, t);
        RotateLeft(sibling, Across(c1, t), c1.sibling);
        FocusAcross(Root, c.(sibling := TurnSibling(R, c.sibling)), t);
        TurnSiblingContents(R, c.sibling);
        DeleteCase6(node, c.(sibling := TurnSibling(R, c.sibling)), t);
      } else {
        DeleteCase6(node, c, t);
      }
    }

    // Needs the far nephew to be red; then the branch taken is the one on the
    // node's own side.
    method DeleteCase6(node: Node<K, V>, ghost c: NCtx<K, V>, ghost t: NTree<K, V>)
      requires Focus(Root, c, t) && t.Branch? && t.cell.id == node
      requires c.Frame? && c.sibling.Branch? && TreeColor(Child(Flip(c.side), c.sibling)).Red?
      modifies `Root, `rotations, CtxIds(c), Ids(t)
      ensures Focus(Root, BorrowSibling(c), t)
      ensures rotations == old(rotations) + 1
    {
      FocusNode(Root, c, t);
      FocusHole(Root, c, t);
      var sibling := Sibling(node);
      ShiftColors(node.Parent, sibling, c, t);
      RaiseFarNephew(node, sibling, PaintParent(PaintSibling(c, c.cell.color), Black), t);
    }

    // The two branches of case 6: the far nephew turns black and the parent goes down.
    method RaiseFarNephew(node: Node<K, V>, sibling: Node<K, V>, ghost c: NCtx<K, V>, ghost t: NTree<K, V>)
      requires Focus(Root, c, t) && t.Branch? && t.cell.id == node
      requires c.Frame? && c.sibling.Branch? && c.sibling.cell.id == sibling
      requires TreeColor(Child(Flip(c.side), c.sibling)).Red?
      modifies `Root, `rotations, CtxIds(c), Ids(t)
      ensures Focus(Root, Raise(PaintNephew(Flip(c.side), c, Black)), t)
      ensures rotations == old(rotations) + 1
    {
      FocusNode(Root, c, t);
      FocusHole(Root, c, t);
      FocusNephews(Root, c, t);
      ghost var c1 := PaintNephew(Flip(c.side), c, Black);
      if node == node.Parent.Left && NodeColor(sibling.Right) == Red {
        SetNephewColor(sibling.Right, Black, R, c, t);
        FocusUp(Root, c1, t);
        RotateLeft(node.Parent, c.up, Join(L, t, c1.cell, c1.sibling));
      } else if NodeColor(sibling.Left) == Red {
        SetNephewColor(sibling.Left, Black, L, c, t);
        FocusUp(Root, c1, t);
        RotateRight(node.Parent, c.up, Join(R, t, c1.cell, c1.sibling));
      }
      RaiseIsRotation(Root, c1, t);
    }

    // The sibling takes the parent's colour, and the parent turns black.
    method ShiftColors(parent: Node<K, V>, sibling: Node<K, V>, ghost c: NCtx<K, V>, ghost t: NTree<K, V>)
      requires Focus(Root, c, t) && c.Frame? && c.sibling.Branch?
      requires c.cell.id == parent && c.sibling.cell.id == sibling
      modifies sibling`color, parent`color
      ensures Focus(Root, PaintParent(PaintSibling(c, c.cell.color), Black), t)
      ensures CtxIds(PaintParent(PaintSibling(c, c.cell.color), Black)) == CtxIds(c)
    {
      FocusHole(Root, c, t);
      SetSiblingColor(sibling, parent.color, c, t);
      SetParentColor(parent, Black, PaintSibling(c, c.cell.color), t);
    }

    // ---------- Updates ----------

    method Clear()
      requires Valid()
      modifies this
      ensures Valid() && Model() == map[] && tree == Leaf && rotations == old(rotations)
    {
      Root := null;
      size := 0;
      tree := Leaf;
    }

    // Ghost state only: the tree that the heap now stands for.
    ghost method SetTree(tree': NTree<K, V>)
      requires Focus(Root, Top, tree')
      modifies `tree
      ensures tree == tree' && Focus(Root, Top, tree)
    {
      tree := tree';
    }

    // A node that already has the key is overwritten in place.
    method Overwrite(node: Node<K, V>, key: K, value: V, ghost c: NCtx<K, V>, ghost t: NTree<K, V>)
      requires Valid() && Position(key, node, c, t) && t.Branch? && t.cell.key == key
      modifies `tree, node`Key, node`Value
      ensures Valid() && Model() == old(Model())[key := value]
      ensures Ids(tree) == old(Ids(tree))
    {
      OverwriteTree(Comparator, c, t, value);
      SetEntry(node, key, value, c, t);
      FocusRoot(Root, c, Recell(t, key, value));
      SetTree(Plug(c, Recell(t, key, value)));
    }

    // The size moves by one, and with it the tree that the heap now stands for.
    method Resize(delta: int, ghost tree': NTree<K, V>)
      requires Focus(Root, Top, tree')
      modifies `size, `tree
      ensures size == old(size) + delta && tree == tree' && Focus(Root, Top, tree)
    {
      size := size + delta;
      SetTree(tree');
    }

    // The hole a new key belongs in has been filled with `inserted`.
    method FinishPut(inserted: Node<K, V>, key: K, value: V, ghost c: NCtx<K, V>)
      requires GoodTree(Comparator, tree) && size == |Entries(tree)|
      requires Focus(Root, c, Branch(Leaf, Cell(inserted, Red, key, value), Leaf))
      requires Plug(c, Leaf) == tree && Brackets(Comparator, c, key)
      modifies this, CtxIds(c), inserted
      ensures Valid() && Model() == old(Model())[key := value]
      ensures Ids(tree) == old(Ids(tree)) + {inserted}
      ensures rotations <= old(rotations) + 2
    {
      ghost var t := Branch(Leaf, Cell(inserted, Red, key, value), Leaf);
      InsertTree(Comparator, c, t.cell);
      InsertCase1(inserted, c, t);
      Resize(1, InsertFix(c, t));
    }

    // A new node for a key that is not in the map.
    method PutNewNode(parent: Node?<K, V>, s: Side, key: K, value: V, ghost c: NCtx<K, V>)
      returns (insertedNode: Node<K, V>)
      requires Valid() && Position(key, null, c, Leaf)
      requires parent == CtxParent(c) && (c.Frame? ==> s == c.side)
      modifies this, CtxIds(c)
      ensures Valid() && Model() == old(Model())[key := value]
      ensures fresh(insertedNode) && Ids(tree) == old(Ids(tree)) + {insertedNode}
      ensures rotations <= old(rotations) + 2
    {
      insertedNode := Attach(parent, s, key, value, c);
      FinishPut(insertedNode, key, value, c);
    }

    method Put(key: K, value: V) returns (ghost steps: nat)
      requires Valid()
      modifies this, Ids(tree)
      ensures Valid() && Model() == old(Model())[key := value]
      ensures forall n :: n in Ids(tree) ==> n in old(Ids(tree)) || fresh(n)
      ensures rotations <= old(rotations) + 2
      ensures steps <= Height(old(tree))
    {
      ghost var c: NCtx<K, V>, t := Top, tree;
      assert allocated(Ids(tree));
      steps := 0;
      if Root == null {
        var insertedNode := PutNewNode(null, L, key, value, Top);
        return;
      }
      var node := Root;
      while true
        invariant Valid() && t.Branch? && Position(key, node, c, t) && steps == Depth(c)
        invariant tree == old(tree) && rotations == old(rotations)
        decreases t
      {
        FocusNode(Root, c, t);
        DescentBound(c, t);
        PlugIds(c, t);
        steps := steps + 1;
        var compare := Comparator(key, node.Key);
        if compare == 0 {
          Overwrite(node, key, value, c, t);
          return;
        } else if compare < 0 {
          Step(L, key, c, t);
          c, t := Down(L, c, t), t.left;
          if node.Left == null {
            var insertedNode := PutNewNode(node, L, key, value, c);
            return;
          }
          node := node.Left;
        } else {
          Step(R, key, c, t);
          c, t := Down(R, c, t), t.right;
          if node.Right == null {
            var insertedNode := PutNewNode(node, R, key, value, c);
            return;
          }
          node := node.Right;
        }
      }
    }

    method MaximumNode(start: Node<K, V>, ghost c: NCtx<K, V>, ghost t: NTree<K, V>) returns (node: Node<K, V>)
      requires Focus(Root, c, t) && t.Branch? && t.cell.id == start
      ensures node == OutermostTree(R, t).cell.id
      ensures Focus(Root, OutermostCtx(R, c, t), OutermostTree(R, t))
    {
      node := start;
      ghost var c', t' := c, t;
      assert allocated(CtxIds(c)) && allocated(Ids(t));
      FocusNode(Root, c, t);
      while node.Right != null
        invariant Focus(Root, c', t') && t'.Branch? && t'.cell.id == node && node.Right == RootId(t'.right)
        invariant OutermostTree(R, t') == OutermostTree(R, t) && OutermostCtx(R, c', t') == OutermostCtx(R, c, t)
        decreases t'
      {
        FocusDown(R, Root, c', t');
        node := node.Right;
        c', t' := Down(R, c', t'), t'.right;
        FocusNode(Root, c', t');
      }
    }

    // A node with at most one child leaves the tree.
    method SpliceOut(node: Node<K, V>, ghost c: NCtx<K, V>, ghost t: NTree<K, V>, ghost h: nat)
      requires Focus(Root, c, t) && t.Branch? && t.cell.id == node && Fits(c, t, h)
      requires t.left.Leaf? || t.right.Leaf?
      modifies `Root, `rotations, CtxIds(c), Ids(t)
      ensures Focus(Root, Top, Splice(c, t, h))
      ensures rotations <= old(rotations) + 3
    {
      FocusNode(Root, c, t);
      FocusChildren(Root, c, t);
      SpliceCtxContents(c, t, h);
      var child := node.Right;
      if node.Right == null {
        child := node.Left;
      }
      ghost var c', t' := SpliceCtx(c, t, h), t;
      if node.color == Black {
        RepairAround(node, NodeColor(child), c, t, h);
        t' := Paint(t, TreeColor(OnlyChild(t)));
      }
      Unlink(node, child, c', t');
    }

    // A black node is painted and the tree above it repaired while it is still there.
    method RepairAround(node: Node<K, V>, color: Color, ghost c: NCtx<K, V>, ghost t: NTree<K, V>, ghost h: nat)
      requires Focus(Root, c, t) && t.Branch? && t.cell.id == node && Fits(c, t, h) && t.cell.color.Black?
      modifies `Root, `rotations, CtxIds(c), Ids(t)
      ensures Focus(Root, SpliceCtx(c, t, h), Paint(t, color))
      ensures rotations <= old(rotations) + 3
    {
      SetColor(node, color, c, t);
      DeleteCase1(node, c, Paint(t, color), h - 1);
    }

    // `replaceNode`, and a child that has become the root turns black.
    method Unlink(node: Node<K, V>, child: Node?<K, V>, ghost c: NCtx<K, V>, ghost t: NTree<K, V>)
      requires Focus(Root, c, t) && t.Branch? && t.cell.id == node
      requires (t.left.Leaf? || t.right.Leaf?) && child == RootId(OnlyChild(t))
      modifies `Root, CtxIds(c), Ids(OnlyChild(t))
      ensures Focus(Root, Top, Plug(c, BlackenRoot(c, OnlyChild(t))))
    {
      FocusNode(Root, c, t);
      ReplaceByChild(node, child, OnlyChildSide(t), c, t);
      if node.Parent == null && child != null {
        SetColor(child, Black, c, OnlyChild(t));
      }
      FocusRoot(Root, c, BlackenRoot(c, OnlyChild(t)));
    }

    method FindPredecessor(node: Node<K, V>, ghost c: NCtx<K, V>, ghost t: NTree<K, V>) returns (pred: Node<K, V>)
      requires Focus(Root, c, t) && t.Branch? && t.cell.id == node && t.left.Branch?
      ensures Focus(Root, c, t) && Holds(pred, PredTree(t).cell)
    {
      assert allocated(CtxIds(c)) && allocated(Ids(t));
      FocusNode(Root, c, t);
      FocusDown(L, Root, c, t);
      pred := MaximumNode(node.Left, Down(L, c, t), t.left);
      FocusNode(Root, OutermostCtx(R, Down(L, c, t), t.left), PredTree(t));
    }

    // The node takes over the entry of its in-order predecessor.
    method CopyPredecessor(node: Node<K, V>, ghost c: NCtx<K, V>, ghost t: NTree<K, V>) returns (pred: Node<K, V>)
      requires Focus(Root, c, t) && t.Branch? && t.cell.id == node && t.left.Branch?
      modifies node`Key, node`Value
      ensures pred == PredTree(t).cell.id && Focus(Root, PredCtx(c, t), PredTree(t))
      ensures CtxIds(PredCtx(c, t)) + Ids(PredTree(t)) == CtxIds(c) + Ids(t)
    {
      pred := FindPredecessor(node, c, t);
      ghost var t' := Recell(t, PredTree(t).cell.key, PredTree(t).cell.value);
      SetEntry(node, pred.Key, pred.Value, c, t);
      FocusDown(L, Root, c, t');
      FocusOutermost(R, Root, Down(L, c, t'), t.left);
    }

    method FinishRemove(node: Node<K, V>, ghost key: K, ghost c: NCtx<K, V>, ghost t: NTree<K, V>, ghost h: nat)
      requires Removes(Comparator, tree, key, c, t, h) && size == |Entries(tree)|
      requires Focus(Root, c, t) && t.cell.id == node
      modifies this, CtxIds(c), Ids(t)
      ensures Valid() && Model() == old(Model()) - {key}
      ensures Ids(tree) <= CtxIds(c) + Ids(t)
      ensures rotations <= old(rotations) + 3
    {
      FocusNode(Root, c, t);
      if node.Left == null || node.Right == null {
        SpliceOut(node, c, t, h);
      }
      Resize(-1, Splice(c, t, h));
    }

    method Remove(key: K)
      requires Valid()
      modifies this, Ids(tree)
      ensures Valid() && Model() == old(Model()) - {key}
      ensures Ids(tree) <= old(Ids(tree))
      ensures rotations <= old(rotations) + 3
    {
      ghost var c, t, steps;
      var node;
      node, c, t, steps := Lookup(key);
      if node == null {
        return;
      }
      FocusNode(Root, c, t);
      PlugIds(c, t);
      if node.Left != null && node.Right != null {
        ghost var h := RemovePredecessor(Comparator, c, t);
        node := CopyPredecessor(node, c, t);
        FinishRemove(node, key, PredCtx(c, t), PredTree(t), h);
      } else {
        ghost var h := RemoveTree(Comparator, c, t);
        FinishRemove(node, key, c, t, h);
      }
    }
  }
}
