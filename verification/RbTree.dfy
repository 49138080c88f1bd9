/**
  The tree operations of `libs/jemalloc/rb.h`, working in place on the links and
  colours of the nodes.
 */
module RbTrees {
  import opened Prelude
  import opened RedBlackShape
  import opened RedBlackInsertSteps
  import opened RedBlackRemoveSteps
  import opened RedBlackHeap

  class RbTree {
    var cells: Heap
    var root: Ptr
    ghost var shape: Tree

    ghost predicate Valid()
      reads this
    {
      && NilOk(cells) && Head in cells
      && Holds(cells, root, shape) && RedBlack(shape)
    }

    /** The nodes in the tree. */
    ghost function Contents(): set<Key>
      reads this
    {
      Keys(shape)
    }

    constructor ()
      ensures Valid() && Contents() == {}
    {
      cells := map[Nil := Cell(Nil, Nil, false), Head := Cell(Nil, Nil, false)];
      root := Nil;
      shape := Leaf;
    }

    /** The loop invariant of `Insert`: `g`, `p` and `c` are a 3-level path down the tree. */
    static ghost predicate Walking(h: Heap, g: Ptr, p: Ptr, c: Ptr, cmp: int,
                                   path: Path, sub: Tree, node: Key, keys: set<Key>)
    {
      && NilOk(h) && Head in h
      && HoldsPath(h, path, c) && Holds(h, c, sub) && p == Parent(path)
      && (!path.Top? ==> g == Parent(path.up))
      && cmp == (match path case Top => 0 case InLeft(_, _, _, _) => -1 case InRight(_, _, _, _) => 1)
      && Searching(path, sub, node, keys)
    }

    method Insert(node: Key)
      requires Valid() && node !in Contents()
      modifies this
      ensures Valid() && Contents() == old(Contents()) + {node}
    {
      hide Searching, Sorted, Balanced, Lean, Work, PathKeys;
      var h := cells[Head := Cell(root, Nil, false)];
      var g, p, c, cmp := Nil, Head, root, 0;
      ghost var path, sub := Top, shape;
      ghost var keys := Keys(shape);
      HoldsFrame(cells, h, root, shape, {Head});
      Start(shape, node);
      // Walk down to a leaf; 4-nodes on the way are split.
      while c != Nil
        invariant Walking(h, g, p, c, cmp, path, sub, node, keys)
        decreases Work(sub, node)
      {
        Look(h, c, sub);
        var t := h[c].left;
        var u := h[t].left;
        if h[t].red && h[u].red {
          h, g, p, c, cmp, path, sub := SplitTurn(h, g, p, c, node, path, sub, keys);
        } else {
          Descend(path, sub, node, keys);
          path, sub := StepPath(path, sub, node), StepTree(sub, node);
          g := p;
          p := c;
          if node < c.key {
            cmp, c := -1, h[c].left;
          } else {
            cmp, c := 1, h[c].right;
          }
        }
      }
      h, root := LinkNode(h, g, p, c, cmp, node, path, keys);
      Link(path, node, keys);
      Recolour(h, root, Linked(path, node), false);
      shape := Blackened(Linked(path, node));
      cells := SetRed(h, root, false);
    }

    /** The end of `Insert`: the new node becomes a child of `p`. */
    static method LinkNode(h0: Heap, g: Ptr, p: Ptr, ghost c: Ptr, cmp: int, node: Key,
                           ghost path: Path, ghost keys: set<Key>)
      returns (h: Heap, r: Ptr)
      requires Walking(h0, g, p, c, cmp, path, Leaf, node, keys)
      ensures NilOk(h) && Head in h && Holds(h, r, Linked(path, node))
    {
      LinkHolds(h0, path, node);
      ghost var n := Node(Leaf, node, true, Leaf);
      h := h0[At(node) := Cell(Nil, Nil, true)];
      if cmp > 0 {
        h := SetRight(h, p, At(node));
        h := LeanTurn(h, g, p, At(node), path, n);
        PlugHolds(h, path.up, At(node), LeanLeft(path.left, path.key, path.red, n));
      } else {
        h := SetLeft(h, p, At(node));
        PlugHolds(h, path, At(node), n);
      }
      r := h[Head].left;
    }

    /** `n` is a red right child of `p`: lean left, and link the result to `g`. */
    static method LeanTurn(h0: Heap, g: Ptr, p: Ptr, n: Ptr, ghost path: Path, ghost t: Tree)
      returns (h: Heap)
      requires NilOk(h0) && path.InRight? && t.Node? && n == At(t.key)
      requires HoldsPath(h0, path, n) && Holds(h0, n, t) && Sorted(Plug(path, t))
      requires p == Parent(path) && g == Parent(path.up)
      ensures NilOk(h) && Head in h && HoldsPath(h, path.up, n)
      ensures Holds(h, n, LeanLeft(path.left, path.key, path.red, t))
    {
      LeanOverParent(h0, path, t);
      PlugHolds(h0, path, n, t);
      h := LeanLeftAt(h0, p);
      h := if h[g].left == p then SetLeft(h, g, n)
           else if h[g].right == p then SetRight(h, g, n) else h;
    }

    /** Split the 4-node at `c`; its middle node `t` becomes the top. */
    static method SplitNode(h0: Heap, p: Ptr, c: Ptr, ghost path: Path, ghost sub: Tree)
        returns (h: Heap, t: Ptr, left: bool)
      requires NilOk(h0) && Head in h0 && HoldsPath(h0, path, c) && Holds(h0, c, sub) && p == Parent(path)
      requires FourNode(sub) && Sorted(Plug(path, sub)) && Sorted(sub)
      ensures NilOk(h) && Head in h && HoldsPath(h, path, t) && Holds(h, t, Split(sub)) && t == At(Split(sub).key)
      ensures left <==> !path.InRight?
    {
      hide Sorted, Keys, PathKeys;
      SplitHolds(h0, c, sub);
      Relink(h0, SplitAt(h0, c), path, sub, c, Split(sub), h0[c].left);
      ChildSide(h0, path, sub, c);
      t := h0[c].left;
      h := RotateRight(h0, c);
      var u := h[t].left;
      h := SetRed(h, u, false);
      left := h[p].left == c;
      if left {
        h := SetLeft(h, p, t);
      } else {
        h := SetRight(h, p, t);
      }
    }

    /** One turn of the loop of `Insert` whose current node is the top of a 4-node. */
    static method SplitTurn(h0: Heap, g0: Ptr, p0: Ptr, c0: Ptr, node: Key,
                            ghost path0: Path, ghost sub0: Tree, ghost keys: set<Key>)
      returns (h: Heap, g: Ptr, p: Ptr, c: Ptr, cmp: int, ghost path: Path, ghost sub: Tree)
      requires exists cmp0 :: Walking(h0, g0, p0, c0, cmp0, path0, sub0, node, keys)
      requires FourNode(sub0)
      ensures Walking(h, g, p, c, cmp, path, sub, node, keys) && Work(sub, node) < Work(sub0, node)
    {
      hide Searching, Sorted, Balanced, Keys, PathKeys, Lean, Work;
      SearchingParts(path0, sub0, node, keys);
      var t, left;
      h, t, left := SplitNode(h0, p0, c0, path0, sub0);
      ghost var cur := Split(sub0);
      if left {
        SplitAndDescend(path0, sub0, node, keys);
        path, sub := StepPath(path0, cur, node), StepTree(cur, node);
        g := p0;
      } else {
        // c0 was a right child: lean left over its parent.
        SplitSorted(path0, sub0, node, keys);
        SplitAndLean(path0, sub0, node, keys);
        h := LeanTurn(h, g0, p0, t, path0, cur);
        g := g0;
        cur := LeanLeft(path0.left, path0.key, path0.red, cur);
        path, sub := StepPath(path0.up, cur, node), StepTree(cur, node);
      }
      p := t;
      if node < p.key {
        cmp, c := -1, h[p].left;
      } else {
        cmp, c := 1, h[p].right;
      }
    }

    static lemma SearchingParts(path: Path, sub: Tree, node: Key, keys: set<Key>)
      requires Searching(path, sub, node, keys)
      ensures Sorted(Plug(path, sub)) && Sorted(sub)
    {
      PlugSortedParts(path, sub);
    }

    static lemma SplitSorted(path: Path, sub: Tree, node: Key, keys: set<Key>)
      requires Searching(path, sub, node, keys) && FourNode(sub)
      ensures Sorted(Plug(path, Split(sub)))
    {
      PlugSortedParts(path, sub);
      PlugBalancedPart(path, sub);
      FourNodeShape(path, sub);
      SplitFacts(sub);
      Rewrite(path, sub, Split(sub));
    }

    // ---------- removal ----------

    static method MoveRedLeftAt(h0: Heap, node: Ptr, ghost t: Tree) returns (h: Heap, r: Ptr)
      requires NilOk(h0) && Holds(h0, node, t) && Sorted(t)
      requires t.Node? && t.left.Node? && t.right.Node?
      ensures Changed(h0, t, h, r, MoveRedLeft(t))
    {
      Look(h0, node, t);
      var n := h0[node].left;
      Recolour(h0, n, t.left, true);
      h := SetRed(h0, n, true);
      LeftChanged(h0, h, node, t, t.left.(red := true));
      ghost var t1 := t.(left := t.left.(red := true));
      Look(h, node, t1);
      n := h[node].right;
      var u := h[n].left;
      if h[u].red {
        h, r := BorrowFromRight(h, node, t1);
      } else {
        Recolour(h, node, t1, true);
        RotateLeftHolds(SetRed(h, node, true), t1.(red := true));
        h := SetRed(h, node, true);
        r := h[node].right;
        h := RotateLeft(h, node);
      }
    }

    /** The right sibling is a 3-node or a 4-node. */
    static method BorrowFromRight(h0: Heap, node: Ptr, ghost t: Tree) returns (h: Heap, r: Ptr)
      requires NilOk(h0) && Holds(h0, node, t) && Sorted(t)
      requires t.Node? && t.right.Node? && IsRed(t.right.left)
      ensures var t2 := RotLeft(t.(right := RotRight(t.right)));
              var n := t2.left;
              Changed(h0, t, h, r,
                if IsRed(n.right) then t2.(left := RotLeft(n.(right := n.right.(red := false), red := true)))
                else t2.(left := n.(red := false)))
    {
      Look(h0, node, t);
      var n := h0[node].right;
      var u := h0[n].left;
      RotateRightHolds(h0, t.right);
      RightRelinked(h0, RotateRight(h0, n), node, t, u, RotRight(t.right));
      h := RotateRight(h0, n);
      h := SetRight(h, node, u);
      ghost var t1 := t.(right := RotRight(t.right));
      RotateLeftHolds(h, t1);
      r := h[node].right;
      h := RotateLeft(h, node);
      ghost var t2 := RotLeft(t1);
      Look(h, node, t2.left);
      n := h[node].right;
      if h[n].red {
        RotateRedRight(h, node, t2.left);
        LeftRelinked(h, RotateLeft(SetRed(SetRed(h, n, false), node, true), node), r, t2, n,
                     RotLeft(t2.left.(right := t2.left.right.(red := false), red := true)));
        h := SetRed(h, n, false);
        h := SetRed(h, node, true);
        h := RotateLeft(h, node);
        h := SetLeft(h, r, n);
      } else {
        Recolour(h, node, t2.left, false);
        LeftChanged(h, SetRed(h, node, false), r, t2, t2.left.(red := false));
        h := SetRed(h, node, false);
      }
    }

    static lemma RotateRedRight(h: Heap, node: Ptr, n: Tree)
      requires Holds(h, node, n) && Sorted(n) && n.Node? && n.right.Node?
      ensures node in h && h[node].right in h && h[node].right == At(n.right.key) && n.right.key != n.key
      ensures var h1 := SetRed(SetRed(h, h[node].right, false), node, true);
              Changed(h, n, RotateLeft(h1, node), h[node].right,
                      RotLeft(n.(right := n.right.(red := false), red := true)))
    {
      var h1 := SetRed(h, h[node].right, false);
      Recolour(h, h[node].right, n.right, false);
      RightChanged(h, h1, node, n, n.right.(red := false));
      Recolour(h1, node, n.(right := n.right.(red := false)), true);
      RotateLeftHolds(SetRed(h1, node, true), n.(right := n.right.(red := false), red := true));
      assert n.right.key in Keys(n.right);
    }

    /** The rotations that end `rbp_move_red_right`. */
    static method RotateOver(h0: Heap, node: Ptr, ghost t: Tree) returns (h: Heap, r: Ptr)
      requires NilOk(h0) && Holds(h0, node, t) && Sorted(t)
      requires t.Node? && t.left.Node? && t.right.Node?
      ensures var t1 := RotRight(t); Changed(h0, t, h, r, t1.(right := RotLeft(t1.right)))
    {
      RotateRightHolds(h0, t);
      ghost var t1 := RotRight(t);
      r := h0[node].left;
      h := RotateRight(h0, node);
      RotateLeftHolds(h, t1.right);
      RightRelinked(h, RotateLeft(h, node), r, t1, h[node].right, RotLeft(t1.right));
      var x := h[node].right;
      h := RotateLeft(h, node);
      h := SetRight(h, r, x);
    }

    /** The same rotations, after which the node that moved down is painted red. */
    static method RotateOverRed(h0: Heap, node: Ptr, ghost t: Tree) returns (h: Heap, r: Ptr)
      requires NilOk(h0) && Holds(h0, node, t) && Sorted(t)
      requires t.Node? && t.left.Node? && t.right.Node?
      ensures var t1 := RotRight(t); Changed(h0, t, h, r, t1.(right := RotLeft(t1.right.(red := true))))
    {
      h, r := RotateOver(h0, node, t);
      ghost var t2 := RotRight(t).(right := RotLeft(RotRight(t).right));
      var x := h[r].right;
      assert Holds(h, x, t2.right) && Sorted(t2.right);
      assert Holds(h, h[x].left, t2.right.left);
      Recolour(h, node, t2.right.left, true);
      LeftChanged(h, SetRed(h, node, true), x, t2.right, t2.right.left.(red := true));
      RightChanged(h, SetRed(h, node, true), r, t2, t2.right.(left := t2.right.left.(red := true)));
      h := SetRed(h, node, true);
    }

    static method MoveRedRightAt(h0: Heap, node: Ptr, ghost t: Tree) returns (h: Heap, r: Ptr)
      requires NilOk(h0) && Holds(h0, node, t) && Sorted(t)
      requires t.Node? && t.left.Node? && t.right.Node? && (IsRed(t.left) ==> t.left.right.Node?)
      ensures Changed(h0, t, h, r, MoveRedRight(t))
    {
      Look(h0, node, t);
      var l := h0[node].left;
      if h0[l].red {
        Look(h0, l, t.left);
        var u := h0[l].right;
        var v := h0[u].left;
        if h0[v].red {
          h := LiftMiddle(h0, l, t.left, h0[node].red);
          LeftRelinked(h0, h, node, t, u,
            RotLeft(t.left.(right := t.left.right.(red := t.red, left := t.left.right.left.(red := false)))));
          h := SetLeft(h, node, u);
          h, r := RotateOverRed(h, node, t.(left :=
            RotLeft(t.left.(right := t.left.right.(red := t.red, left := t.left.right.left.(red := false))))));
        } else {
          PaintPair(h0, l, t.left, t.red);
          h := SetRed(h0, l, h0[node].red);
          h := SetRed(h, u, true);
          LeftChanged(h0, h, node, t, t.left.(red := t.red, right := t.left.right.(red := true)));
          h, r := RotateOverRed(h, node, t.(left := t.left.(red := t.red, right := t.left.right.(red := true))));
        }
      } else {
        h, r := MoveRedRightBlack(h0, node, t);
      }
    }

    static lemma PaintPair(h: Heap, l: Ptr, t: Tree, red: bool)
      requires Holds(h, l, t) && Sorted(t) && t.Node? && t.right.Node?
      ensures l in h && h[l].right in h
      ensures Changed(h, t, SetRed(SetRed(h, l, red), h[l].right, true), l,
          t.(red := red, right := t.right.(red := true)))
    {
      var h1 := SetRed(h, l, red);
      Recolour(h, l, t, red);
      Recolour(h1, h[l].right, t.right, true);
      RightChanged(h1, SetRed(h1, h[l].right, true), l, t.(red := red), t.right.(red := true));
    }

    /** The red left child's right child is a 3-node: its middle key moves up. */
    static method LiftMiddle(h0: Heap, l: Ptr, ghost t: Tree, red: bool) returns (h: Heap)
      requires NilOk(h0) && Holds(h0, l, t) && Sorted(t)
      requires t.Node? && t.right.Node? && t.right.left.Node?
      ensures Changed(h0, t, h, h0[l].right, RotLeft(t.(right :=
          t.right.(red := red, left := t.right.left.(red := false)))))
    {
      Look(h0, l, t);
      var u := h0[l].right;
      var v := h0[u].left;
      ghost var u1 := t.right.(red := red);
      ghost var u2 := u1.(left := u1.left.(red := false));
      Recolour(h0, u, t.right, red);
      h := SetRed(h0, u, red);
      Recolour(h, v, u1.left, false);
      LeftChanged(h, SetRed(h, v, false), u, u1, u1.left.(red := false));
      h := SetRed(h, v, false);
      RightChanged(h0, h, l, t, u2);
      RotateLeftHolds(h, t.(right := u2));
      h := RotateLeft(h, l);
    }

    static method MoveRedRightBlack(h0: Heap, node: Ptr, ghost t: Tree) returns (h: Heap, r: Ptr)
      requires NilOk(h0) && Holds(h0, node, t) && Sorted(t)
      requires t.Node? && t.left.Node? && t.right.Node? && !IsRed(t.left)
      ensures Changed(h0, t, h, r, MoveRedRight(t))
    {
      Look(h0, node, t);
      var l := h0[node].left;
      Recolour(h0, l, t.left, true);
      LeftChanged(h0, SetRed(h0, l, true), node, t, t.left.(red := true));
      h := SetRed(h0, l, true);
      ghost var t1 := t.(left := t.left.(red := true));
      Look(h, node, t1);
      var v := h[l].left;
      if h[v].red {
        ghost var l1 := t1.left.(left := t1.left.left.(red := false));
        Recolour(h, v, t1.left.left, false);
        LeftChanged(h, SetRed(h, v, false), l, t1.left, t1.left.left.(red := false));
        LeftChanged(h, SetRed(h, v, false), node, t1, l1);
        h := SetRed(h, v, false);
        h, r := RotateOver(h, node, t1.(left := l1));
      } else {
        RotateLeftHolds(h, t1);
        r := h[node].right;
        h := RotateLeft(h, node);
      }
    }

    /** The transform that `rb_remove` applies only at the root. */
    static method RootMoveRightAt(h0: Heap, node: Ptr, ghost t: Tree) returns (h: Heap, r: Ptr)
      requires NilOk(h0) && Holds(h0, node, t) && Sorted(t)
      requires t.Node? && t.left.Node? && t.right.Node? && !IsRed(t.left)
      ensures Changed(h0, t, h, r, RootMoveRight(t))
    {
      Recolour(h0, node, t, true);
      h := SetRed(h0, node, true);
      ghost var t0 := t.(red := true);
      Look(h, node, t0);
      var l := h[node].left;
      var u := h[l].left;
      if h[u].red {
        assert Holds(h, l, t0.left);
        ghost var l1 := t.left.(left := t.left.left.(red := false));
        Recolour(h, u, t.left.left, false);
        LeftChanged(h, SetRed(h, u, false), l, t.left, t.left.left.(red := false));
        LeftChanged(h, SetRed(h, u, false), node, t0, l1);
        h := SetRed(h, u, false);
        h, r := RotateOver(h, node, t0.(left := l1));
      } else {
        Recolour(h, l, t.left, true);
        LeftChanged(h, SetRed(h, l, true), node, t0, t.left.(red := true));
        h := SetRed(h, l, true);
        RotateLeftHolds(h, t0.(left := t.left.(red := true)));
        r := h[node].right;
        h := RotateLeft(h, node);
      }
    }

    /** The loop invariant of `Remove`; `xp` is the parent of `node` once it has been passed. */
    static ghost predicate Hunting(h: Heap, p: Ptr, c: Ptr, xp: Ptr, path: Path, sub: Tree, node: Key, keys: set<Key>)
    {
      && NilOk(h) && Head in h
      && HoldsPath(h, path, c) && Holds(h, c, sub) && p == Parent(path)
      && Removing(path, sub, node, keys)
      && (Passed(path, node) ==> xp == Parent(PassedUp(path, node)))
    }

    /** A subtree was changed in place: link it below `p` and go on from there. */
    static method Reattach(h0: Heap, h1: Heap, p: Ptr, c: Ptr, r: Ptr,
                           ghost path: Path, ghost sub: Tree, ghost sub': Tree) returns (h: Heap)
      requires NilOk(h0) && Head in h0 && HoldsPath(h0, path, c) && Holds(h0, c, sub) && sub.Node?
      requires p == Parent(path) && Sorted(Plug(path, sub))
      requires Changed(h0, sub, h1, r, sub')
      ensures NilOk(h) && Head in h && HoldsPath(h, path, r) && Holds(h, r, sub')
    {
      PlugSortedParts(path, sub);
      Relink(h0, h1, path, sub, c, sub', r);
      h := SetChild(h1, p, c, r);
    }

    static function Compare(node: Key, c: Ptr): int
      requires c.At?
    {
      if node < c.key then -1 else if node == c.key then 0 else 1
    }

    method Remove(node: Key)
      requires Valid() && node in Contents()
      modifies this
      ensures Valid() && Contents() == old(Contents()) - {node}
    {
      ghost var keys := Keys(shape);
      var h := cells[Head := Cell(root, Nil, false)];
      HoldsFrame(cells, h, root, shape, {Head});
      var p, c, xp, cmp := Head, root, Nil, Compare(node, root);
      ghost var path, sub := Top, shape;
      Look(h, c, shape);
      if cmp == 0 && h[c].right == Nil {
        // The root itself has no right child.
        RootLeaf(shape, node);
        h := DeleteLeafAt(h, p, c, path, sub);
        path, sub := Top, CutOut(shape);
      } else {
        h, p, c, xp, path, sub := RootTurn(h, c, cmp, node, shape);
        h, path, sub := Hunt(h, p, c, xp, node, path, sub, keys);
      }
      root := h[Head].left;
      shape := Plug(path, sub);
      cells := h;
    }

    /** The loop of `rb_remove`: the current node is never a 2-node. */
    static method Hunt(h0: Heap, p0: Ptr, c0: Ptr, xp0: Ptr, node: Key,
                       ghost path0: Path, ghost sub0: Tree, ghost keys: set<Key>)
      returns (h: Heap, ghost path: Path, ghost sub: Tree)
      requires Hunting(h0, p0, c0, xp0, path0, sub0, node, keys)
      ensures NilOk(h) && Head in h && Holds(h, h[Head].left, Plug(path, sub))
      ensures RedBlack(Plug(path, sub)) && Keys(Plug(path, sub)) == keys - {node}
    {
      var p, c, xp := p0, c0, xp0;
      h, path, sub := h0, path0, sub0;
      while true
        invariant Hunting(h, p, c, xp, path, sub, node, keys)
        decreases Keys(sub), Stage(sub, node)
      {
        Heading(path, sub, node, keys);
        Look(h, c, sub);
        var cmp := Compare(node, c);
        if cmp < 0 && h[c].left == Nil {
          // c is the successor of node; it takes its place.
          Relocate(path, sub, node, keys);
          h := RelocateAt(h, p, c, xp, node, path, sub, keys);
          path, sub := Replaced(path, node, sub.key), Leaf;
          return;
        } else if cmp < 0 {
          h, p, c, path, sub := LeftTurn(h, p, c, xp, node, path, sub, keys);
        } else if cmp == 0 && h[c].right == Nil {
          DeleteLeaf(path, sub, node, keys);
          h := DeleteLeafAt(h, p, c, path, sub);
          sub := CutOut(sub);
          return;
        } else {
          if cmp == 0 {
            xp := p;
          }
          h, p, c, path, sub := RightTurn(h, p, c, xp, node, path, sub, keys);
        }
      }
    }

    static lemma RootLeaf(t: Tree, k: Key)
      requires RedBlack(t) && t.Node? && t.key == k && t.right.Leaf?
      ensures RedBlack(CutOut(t)) && Keys(CutOut(t)) == Keys(t) - {k}
      ensures t.left.Node? ==> t.left.right.Leaf?
    {
      CutOutFacts(t);
    }

    static method DeleteLeafAt(h0: Heap, p: Ptr, c: Ptr, ghost path: Path, ghost sub: Tree) returns (h: Heap)
      requires NilOk(h0) && Head in h0 && HoldsPath(h0, path, c) && Holds(h0, c, sub)
      requires p == Parent(path) && Sorted(Plug(path, sub)) && sub.Node? && sub.right.Leaf?
      requires sub.left.Node? ==> sub.left.right.Leaf?
      ensures NilOk(h) && Head in h && Holds(h, h[Head].left, Plug(path, CutOut(sub)))
    {
      PlugSortedParts(path, sub);
      Look(h0, c, sub);
      var t;
      if h0[c].left != Nil {
        CutOutHolds(h0, c, sub);
        t := h0[c].left;
        h := LeanRightAt(h0, c);
        h := SetRight(h, t, Nil);
      } else {
        t := Nil;
        h := h0;
      }
      Relink(h0, h, path, sub, c, CutOut(sub), t);
      h := SetChild(h, p, c, t);
      PlugHolds(h, path, t, CutOut(sub));
    }

    static method RelocateAt(h0: Heap, p: Ptr, c: Ptr, xp: Ptr, node: Key,
                             ghost path: Path, ghost sub: Tree, ghost keys: set<Key>) returns (h: Heap)
      requires Hunting(h0, p, c, xp, path, sub, node, keys)
      requires Passed(path, node) && sub.left.Leaf? && sub.right.Leaf? && !(path.InRight? && path.key == node)
      requires Sorted(Plug(Replaced(path, node, sub.key), Leaf))
      ensures NilOk(h) && Head in h && Holds(h, h[Head].left, Plug(Replaced(path, node, sub.key), Leaf))
    {
      SwapHolds(h0, path, sub, node);
      h := SetChild(h0, xp, At(node), c);
      h := SetLeft(h, c, h[At(node)].left);
      h := SetRight(h, c, h[At(node)].right);
      h := SetRed(h, c, h[At(node)].red);
      assert h == SetChild(h0, xp, At(node), c)[c := h0[At(node)]];
      ghost var path' := Replaced(path, node, sub.key);
      Redirect(h, path', Leaf, c, Nil);
      h := SetChild(h, p, c, Nil);
      PlugHolds(h, path', Nil, Leaf);
    }

    /** The root may stay a 2-node, so its first turn differs from those below. */
    static method RootTurn(h0: Heap, c0: Ptr, cmp: int, node: Key, ghost t: Tree)
      returns (h: Heap, p: Ptr, c: Ptr, xp: Ptr, ghost path: Path, ghost sub: Tree)
      requires NilOk(h0) && HoldsPath(h0, Top, c0) && Holds(h0, c0, t) && RedBlack(t) && node in Keys(t)
      requires cmp == Compare(node, c0) && (cmp == 0 ==> t.right.Node?)
      ensures Hunting(h, p, c, xp, path, sub, node, Keys(t))
    {
      Look(h0, c0, t);
      h, p, c, xp := h0, Head, c0, Nil;
      path, sub := Top, t;
      assert !Passed(Top, node);
      if cmp < 0 {
        var n := h[c].left;
        if !h[n].red && !h[h[n].left].red {
          // Prepare for a left move.
          RootLeft(t, node);
          h, c := MoveRedLeftAt(h, c0, t);
          Recolour(h, c, MoveRedLeft(t), false);
          h := SetRed(h, c, false);
          sub := Blackened(MoveRedLeft(t));
          h := Reattach(h0, h, p, c0, c, Top, t, sub);
        } else {
          RootDown(t, node);
          path, sub := StepPath(Top, t, node), StepTree(t, node);
          p := c;
          c := h[c].left;
        }
      } else {
        if cmp == 0 {
          xp := p;
        }
        if !h[h[h[c].right].left].red {
          RootRight(t, node);
          if h[h[c].left].red {
            h, c := MoveRedRightAt(h, c0, t);
            sub := MoveRedRight(t);
          } else {
            h, c := RootMoveRightAt(h, c0, t);
            sub := RootMoveRight(t);
          }
          h := Reattach(h0, h, p, c0, c, Top, t, sub);
        } else {
          RootDown(t, node);
          path, sub := StepPath(Top, t, node), StepTree(t, node);
          p := c;
          c := h[c].right;
        }
      }
    }

    static method LeftTurn(h0: Heap, p0: Ptr, c0: Ptr, ghost xp: Ptr, node: Key,
                           ghost path0: Path, ghost sub0: Tree, ghost keys: set<Key>)
      returns (h: Heap, p: Ptr, c: Ptr, ghost path: Path, ghost sub: Tree)
      requires Hunting(h0, p0, c0, xp, path0, sub0, node, keys) && node < sub0.key && sub0.left.Node?
      ensures Hunting(h, p, c, xp, path, sub, node, keys)
      ensures Keys(sub) < Keys(sub0) || (Keys(sub) == Keys(sub0) && Stage(sub, node) < Stage(sub0, node))
    {
      Heading(path0, sub0, node, keys);
      Look(h0, c0, sub0);
      h, p, c := h0, p0, c0;
      path, sub := path0, sub0;
      var t := h[c].left;
      var u := h[t].left;
      if !h[t].red && !h[u].red {
        TurnLeft(path, sub, node, keys);
        h, c := MoveRedLeftAt(h, c0, sub);
        sub := MoveRedLeft(sub);
        h := Reattach(h0, h, p, c0, c, path, sub0, sub);
      } else {
        MoveDown(path, sub, node, keys);
        path, sub := StepPath(path, sub, node), StepTree(sub, node);
        p := c;
        c := h[c].left;
      }
    }

    static method RightTurn(h0: Heap, p0: Ptr, c0: Ptr, ghost xp: Ptr, node: Key,
                            ghost path0: Path, ghost sub0: Tree, ghost keys: set<Key>)
      returns (h: Heap, p: Ptr, c: Ptr, ghost path: Path, ghost sub: Tree)
      requires Hunting(h0, p0, c0, xp, path0, sub0, node, keys) && sub0.key <= node && sub0.right.Node?
      requires node == sub0.key ==> xp == p0
      ensures Hunting(h, p, c, xp, path, sub, node, keys)
      ensures Keys(sub) < Keys(sub0) || (Keys(sub) == Keys(sub0) && Stage(sub, node) < Stage(sub0, node))
    {
      Heading(path0, sub0, node, keys);
      Look(h0, c0, sub0);
      h, p, c := h0, p0, c0;
      path, sub := path0, sub0;
      var t := h[c].right;
      var u := h[t].left;
      if !h[u].red {
        TurnRight(path, sub, node, keys);
        h, c := MoveRedRightAt(h, c0, sub);
        sub := MoveRedRight(sub);
        h := Reattach(h0, h, p, c0, c, path, sub0, sub);
      } else {
        MoveDown(path, sub, node, keys);
        path, sub := StepPath(path, sub, node), StepTree(sub, node);
        p := c;
        c := h[c].right;
      }
    }

    // ---------- searching ----------

    /** The least node, if there is one. */
    method First() returns (r: Option<Key>)
      requires Valid()
      ensures r.None? <==> Contents() == {}
      ensures r.Some? ==> r.value in Contents() && forall x :: x in Contents() ==> r.value <= x
    {
      var n := root;
      if n == Nil { return None; }
      ghost var t := shape;
      while cells[n].left != Nil
        invariant t.Node? && Holds(cells, n, t) && Sorted(t) && Keys(t) <= Keys(shape)
        invariant forall x :: x in Keys(shape) ==> x in Keys(t) || t.key < x
        decreases t
      {
        assert t.left.key in Keys(t.left);
        n, t := cells[n].left, t.left;
      }
      assert Holds(cells, n, t);
      return Some(n.key);
    }

    /** The greatest node, if there is one. */
    method Last() returns (r: Option<Key>)
      requires Valid()
      ensures r.None? <==> Contents() == {}
      ensures r.Some? ==> r.value in Contents() && forall x :: x in Contents() ==> x <= r.value
    {
      var n := root;
      if n == Nil { return None; }
      ghost var t := shape;
      while cells[n].right != Nil
        invariant t.Node? && Holds(cells, n, t) && Sorted(t) && Keys(t) <= Keys(shape)
        invariant forall x :: x in Keys(shape) ==> x in Keys(t) || x < t.key
        decreases t
      {
        assert t.right.key in Keys(t.right);
        n, t := cells[n].right, t.right;
      }
      assert Holds(cells, n, t);
      return Some(n.key);
    }

    method Search(key: Key) returns (found: bool)
      requires Valid()
      ensures found <==> key in Contents()
    {
      var n := root;
      ghost var t := shape;
      while n != Nil && n.key != key
        invariant Holds(cells, n, t) && Sorted(t)
        invariant key in Keys(shape) <==> key in Keys(t)
        decreases t
      {
        if key < n.key {
          n, t := cells[n].left, t.left;
        } else {
          n, t := cells[n].right, t.right;
        }
      }
      return n != Nil;
    }

    /** A match if there is one, otherwise the next greater node. */
    method NSearch(key: Key) returns (r: Option<Key>)
      requires Valid()
      ensures r.None? ==> forall x :: x in Contents() ==> x < key
      ensures r.Some? ==> r.value in Contents() && key <= r.value
      ensures r.Some? ==> forall x :: x in Contents() && key <= x ==> r.value <= x
    {
      r := None;
      var n := root;
      ghost var t := shape;
      while n != Nil
        invariant Holds(cells, n, t) && Sorted(t) && Keys(t) <= Keys(shape)
        invariant r.Some? ==> r.value in Keys(shape) && key <= r.value
        invariant r.Some? ==> forall x :: x in Keys(t) ==> x < r.value
        invariant forall x :: x in Keys(shape) && key <= x ==> x in Keys(t) || (r.Some? && r.value <= x)
        decreases t
      {
        if key < n.key {
          r := Some(n.key);
          n, t := cells[n].left, t.left;
        } else if key > n.key {
          n, t := cells[n].right, t.right;
        } else {
          return Some(n.key);
        }
      }
    }

    /** A match if there is one, otherwise the previous lesser node. */
    method PSearch(key: Key) returns (r: Option<Key>)
      requires Valid()
      ensures r.None? ==> forall x :: x in Contents() ==> key < x
      ensures r.Some? ==> r.value in Contents() && r.value <= key
      ensures r.Some? ==> forall x :: x in Contents() && x <= key ==> x <= r.value
    {
      r := None;
      var n := root;
      ghost var t := shape;
      while n != Nil
        invariant Holds(cells, n, t) && Sorted(t) && Keys(t) <= Keys(shape)
        invariant r.Some? ==> r.value in Keys(shape) && r.value <= key
        invariant r.Some? ==> forall x :: x in Keys(t) ==> r.value < x
        invariant forall x :: x in Keys(shape) && x <= key ==> x in Keys(t) || (r.Some? && x <= r.value)
        decreases t
      {
        if key < n.key {
          n, t := cells[n].left, t.left;
        } else if key > n.key {
          r := Some(n.key);
          n, t := cells[n].right, t.right;
        } else {
          return Some(n.key);
        }
      }
    }
  }
}
