/**
  `rb_foreach` of `libs/jemalloc/rb.h`: an iteration in order, with an array of
  three times the black height that holds the path to the current node.
 */
module RbIterators {
  import opened Prelude
  import opened RedBlackShape
  import opened RedBlackHeap
  import opened RbTrees

  function Inorder(t: Tree): seq<Key> { if t.Leaf? then [] else Inorder(t.left) + [t.key] + Inorder(t.right) }

  lemma {:induction false} InorderKeys(t: Tree)
    ensures forall x :: x in Inorder(t) <==> x in Keys(t)
  {
    if t.Node? {
      InorderKeys(t.left);
      InorderKeys(t.right);
    }
  }

  predicate Ascending(s: seq<Key>) { forall i, j :: 0 <= i < j < |s| ==> s[i] < s[j] }

  lemma {:induction false} InorderAscending(t: Tree)
    requires Sorted(t)
    ensures Ascending(Inorder(t))
  {
    if t.Node? {
      InorderAscending(t.left);
      InorderAscending(t.right);
      InorderKeys(t.left);
      InorderKeys(t.right);
      Around3(Inorder(t.left), t.key, Inorder(t.right));
    }
  }

  lemma Around3(a: seq<Key>, k: Key, b: seq<Key>)
    requires Ascending(a) && Ascending(b) && (forall x :: x in a ==> x < k) && (forall x :: x in b ==> k < x)
    ensures Ascending(a + [k] + b)
  {
    var s := a + [k] + b;
    forall i, j | 0 <= i < j < |s|
      ensures s[i] < s[j]
    {
      assert i < |a| ==> s[i] in a;
      assert j > |a| ==> s[j] in b;
    }
  }

  // ---------- the path as a sequence of subtrees ----------

  /** From `t` down, each subtree is a child of the one before. */
  ghost predicate Spine(subs: seq<Tree>, t: Tree) {
    && (forall i :: 0 <= i < |subs| ==> subs[i].Node? && Sorted(subs[i]))
    && (|subs| > 0 ==> subs[0] == t)
    && (forall i :: 0 < i < |subs| ==> subs[i] == subs[i - 1].left || subs[i] == subs[i - 1].right)
  }

  /** What follows, in order, after the subtree at the end of the path. */
  ghost function Rest(subs: seq<Tree>): seq<Key> {
    if |subs| <= 1 then [] else
      var p, c, up := subs[|subs| - 2], subs[|subs| - 1], subs[..|subs| - 1];
      if p.Node? && c == p.left then [p.key] + Inorder(p.right) + Rest(up) else Rest(up)
  }

  lemma {:induction false} SpineHeight(subs: seq<Tree>, t: Tree)
    requires Spine(subs, t) && |subs| > 0
    ensures |subs| - 1 + Height(subs[|subs| - 1]) <= Height(t)
    decreases |subs|
  {
    if |subs| > 1 {
      SpineHeight(subs[..|subs| - 1], t);
      assert subs[|subs| - 1] == subs[|subs| - 2].left || subs[|subs| - 1] == subs[|subs| - 2].right;
    }
  }

  lemma SpineExtends(subs: seq<Tree>, t: Tree, c: Tree)
    requires Spine(subs, t) && |subs| > 0 && c.Node? && Sorted(c)
    requires c == subs[|subs| - 1].left || c == subs[|subs| - 1].right
    ensures Spine(subs + [c], t)
  {
    hide Sorted;
  }

  lemma RestPush(subs: seq<Tree>, c: Tree)
    requires |subs| > 0 && subs[|subs| - 1].Node?
    ensures var p := subs[|subs| - 1];
            Rest(subs + [c]) == if c == p.left then [p.key] + Inorder(p.right) + Rest(subs) else Rest(subs)
  {
    hide Inorder;
    assert (subs + [c])[..|subs|] == subs;
  }

  lemma SpinePush(subs: seq<Tree>, t: Tree, left: bool)
    requires Spine(subs, t) && |subs| > 0 && subs[|subs| - 1].Node? && Sorted(subs[|subs| - 1])
    requires (if left then subs[|subs| - 1].left else subs[|subs| - 1].right).Node?
    ensures var p := subs[|subs| - 1];
            var c := if left then p.left else p.right;
            && Spine(subs + [c], t) && |subs| + 1 <= Height(t)
            && Rest(subs + [c]) == if left then [p.key] + Inorder(p.right) + Rest(subs) else Rest(subs)
  {
    hide Sorted, Inorder, Keys, Spine, Rest;
    var p := subs[|subs| - 1];
    var c := if left then p.left else p.right;
    SortedParts(p);
    Sides(p);
    SpineExtends(subs, t, c);
    RestPush(subs, c);
    SpineHeight(subs + [c], t);
  }

  lemma SortedParts(p: Tree)
    requires p.Node? && Sorted(p)
    ensures Sorted(p.left) && Sorted(p.right)
  {
  }

  /** A node cannot be a child on both sides. */
  lemma Sides(p: Tree)
    requires p.Node? && Sorted(p)
    ensures p.left.Node? && p.right.Node? ==> p.left.key < p.key < p.right.key
  {
    assert p.left.Node? ==> p.left.key in Keys(p.left);
    assert p.right.Node? ==> p.right.key in Keys(p.right);
  }

  lemma SpinePop(subs: seq<Tree>, t: Tree)
    requires Spine(subs, t) && |subs| > 0
    ensures Spine(subs[..|subs| - 1], t)
  {
  }

  /** Memory holds the subtrees of the path. */
  ghost predicate OnPath(h: Heap, path: seq<Ptr>, subs: seq<Tree>, t: Tree) {
    |path| == |subs| && Spine(subs, t) && forall i :: 0 <= i < |path| ==> Holds(h, path[i], subs[i])
  }

  lemma PathPush(h: Heap, path: seq<Ptr>, subs: seq<Tree>, t: Tree, left: bool)
    requires OnPath(h, path, subs, t) && |path| > 0
    ensures var p, s := path[|path| - 1], subs[|subs| - 1];
            && p in h && s.Node? && p == At(s.key)
            && var q, c := (if left then h[p].left else h[p].right), (if left then s.left else s.right);
            && (q == Nil <==> c.Leaf?)
            && (q != Nil ==> OnPath(h, path + [q], subs + [c], t) && |subs| + 1 <= Height(t)
                             && Rest(subs + [c]) == if left then [s.key] + Inorder(s.right) + Rest(subs)
                                else Rest(subs))
  {
    hide Spine, Rest, Inorder, Height;
    var p, s := path[|path| - 1], subs[|subs| - 1];
    assert Holds(h, p, s);
    LastIsNode(subs, t);
    var q, c := (if left then h[p].left else h[p].right), (if left then s.left else s.right);
    if q != Nil { SpinePush(subs, t, left); }
  }

  lemma LastIsNode(subs: seq<Tree>, t: Tree)
    requires Spine(subs, t) && |subs| > 0
    ensures subs[|subs| - 1].Node? && Sorted(subs[|subs| - 1])
  {
  }

  lemma Reorder(a: seq<Key>, k: Key, b: seq<Key>, c: seq<Key>)
    ensures (a + [k] + b) + c == a + ([k] + b + c)
  {
  }

  /** Extend the path by the left spine below its end. */
  method LeftSpine(h: Heap, path: array<Ptr>, depth0: nat, ghost subs0: seq<Tree>, ghost t: Tree)
    returns (depth: nat, ghost subs: seq<Tree>)
    requires 0 < depth0 <= path.Length && Height(t) <= path.Length && OnPath(h, path[..depth0], subs0, t)
    modifies path
    ensures depth0 <= depth <= path.Length && OnPath(h, path[..depth], subs, t)
    ensures |subs| == depth && subs[depth - 1].Node?
    ensures [subs[depth - 1].key] + Inorder(subs[depth - 1].right) + Rest(subs) ==
        Inorder(subs0[depth0 - 1]) + Rest(subs0)
  {
    hide OnPath, Rest, Height;
    depth, subs := depth0, subs0;
    Sizes(h, path[..depth], subs, t);
    PathPush(h, path[..depth], subs, t, true);
    while h[path[depth - 1]].left != Nil
      invariant depth0 <= depth <= path.Length && OnPath(h, path[..depth], subs, t) && |subs| == depth
      invariant path[depth - 1] in h && subs[depth - 1].Node?
      invariant h[path[depth - 1]].left == Nil <==> subs[depth - 1].left.Leaf?
      invariant Inorder(subs[depth - 1]) + Rest(subs) == Inorder(subs0[depth0 - 1]) + Rest(subs0)
      decreases subs[depth - 1]
    {
      PathPush(h, path[..depth], subs, t, true);
      var node := h[path[depth - 1]].left;
      ghost var s := subs[depth - 1];
      Reorder(Inorder(s.left), s.key, Inorder(s.right), Rest(subs));
      ghost var was := path[..depth];
      path[depth] := node;
      depth := depth + 1;
      assert path[..depth] == was + [node];
      subs := subs + [s.left];
      PathPush(h, path[..depth], subs, t, true);
    }
    LeftMost(subs[depth - 1]);
  }

  lemma LeftMost(s: Tree)
    requires s.Node? && s.left.Leaf?
    ensures Inorder(s) == [s.key] + Inorder(s.right)
  {
  }

  lemma Sizes(h: Heap, path: seq<Ptr>, subs: seq<Tree>, t: Tree)
    requires OnPath(h, path, subs, t)
    ensures |path| == |subs|
  {
  }

  /** Leave subtrees that have been visited: go up to the first node entered from its left. */
  method Climb(h: Heap, path: array<Ptr>, depth0: nat, ghost subs0: seq<Tree>, ghost t: Tree)
    returns (depth: nat, ghost subs: seq<Tree>)
    requires 0 < depth0 <= path.Length && OnPath(h, path[..depth0], subs0, t)
    ensures depth < depth0 && OnPath(h, path[..depth], subs, t) && |subs| == depth
    ensures depth == 0 ==> Rest(subs0) == []
    ensures depth > 0 ==>
              Rest(subs0) == [subs[depth - 1].key] + Inorder(subs[depth - 1].right) + Rest(subs)
    ensures depth > 0 ==> subs[depth - 1].Node?
  {
    hide Inorder;
    Sizes(h, path[..depth0], subs0, t);
    depth, subs := depth0 - 1, subs0;
    while depth > 0
      invariant 0 <= depth < depth0 && |subs| == depth + 1 && OnPath(h, path[..depth + 1], subs, t)
          && Rest(subs) == Rest(subs0)
    {
      ClimbStep(h, path[..depth + 1], subs, t);
      assert path[..depth + 1][..depth] == path[..depth];
      if h[path[depth - 1]].left == path[depth] {
        subs := subs[..depth];
        return;
      }
      subs := subs[..depth];
      depth := depth - 1;
    }
    subs := [];
  }

  /** A node is the left child of its parent exactly if the parent's left link says so. */
  lemma ClimbStep(h: Heap, path: seq<Ptr>, subs: seq<Tree>, t: Tree)
    requires OnPath(h, path, subs, t) && |path| > 1
    ensures var n := |path| - 1;
            var p, c := subs[n - 1], subs[n];
            && OnPath(h, path[..n], subs[..n], t) && path[n - 1] in h && p.Node? && c.Node?
            && Rest(subs) == (if h[path[n - 1]].left == path[n] then [p.key] + Inorder(p.right)
               + Rest(subs[..n]) else Rest(subs[..n]))
  {
    hide Inorder, Height;
    var n := |path| - 1;
    var p, c := subs[n - 1], subs[n];
    SpinePop(subs, t);
    assert Holds(h, path[n - 1], p) && Holds(h, path[n], c);
    assert c == p.left || c == p.right;
    Sides(p);
  }

  /** `rbp_black_height`. */
  method BlackHeightOf(t: RbTree) returns (n: nat)
    requires t.Valid()
    ensures n == BlackHeight(t.shape)
  {
    n := 0;
    var p := t.root;
    ghost var s := t.shape;
    while p != Nil
      invariant Holds(t.cells, p, s) && n + BlackHeight(s) == BlackHeight(t.shape)
      decreases s
    {
      if !t.cells[p].red { n := n + 1; }
      p, s := t.cells[p].left, s.left;
    }
  }

  /** What is left to visit from the node at the end of the path on. */
  ghost function Pending(subs: seq<Tree>): seq<Key> {
    if subs == [] || subs[|subs| - 1].Leaf? then [] else
      var s := subs[|subs| - 1];
      [s.key] + Inorder(s.right) + Rest(subs)
  }

  /** Move the path to the successor of the node at its end. */
  method Successor(h: Heap, path: array<Ptr>, depth0: nat, ghost subs0: seq<Tree>, ghost t: Tree)
    returns (depth: nat, ghost subs: seq<Tree>)
    requires 0 < depth0 <= path.Length && Height(t) <= path.Length && OnPath(h, path[..depth0], subs0, t)
    modifies path
    ensures depth <= path.Length && OnPath(h, path[..depth], subs, t)
    ensures |subs0| == depth0 && subs0[depth0 - 1].Node?
    ensures Pending(subs0) == [subs0[depth0 - 1].key] + Pending(subs)
  {
    hide OnPath, Rest, Height, Inorder, Pending;
    Sizes(h, path[..depth0], subs0, t);
    PathPush(h, path[..depth0], subs0, t, false);
    var node := h[path[depth0 - 1]].right;
    ghost var s := subs0[depth0 - 1];
    PendingAt(subs0);
    if node != Nil {
      ghost var was := path[..depth0];
      path[depth0] := node;
      assert path[..depth0 + 1] == was + [node];
      depth, subs := LeftSpine(h, path, depth0 + 1, subs0 + [s.right], t);
      PendingAt(subs);
    } else {
      depth, subs := Climb(h, path, depth0, subs0, t);
      PendingAt(subs);
    }
  }

  lemma PendingAt(subs: seq<Tree>)
    ensures subs == [] ==> Pending(subs) == []
    ensures subs != [] && subs[|subs| - 1].Node? ==>
              var s := subs[|subs| - 1];
              && Pending(subs) == [s.key] + Inorder(s.right) + Rest(subs)
              && Pending(subs) == [s.key] + (Inorder(s.right) + Rest(subs))
              && (s.right.Leaf? ==> Pending(subs) == [s.key] + Rest(subs))
  {
    hide Rest;
  }

  /** The first node and the path to it. */
  method Leftmost(t: RbTree, path: array<Ptr>) returns (depth: nat, ghost subs: seq<Tree>)
    requires t.Valid() && Height(t.shape) <= path.Length
    modifies path
    ensures depth <= path.Length && OnPath(t.cells, path[..depth], subs, t.shape) && Pending(subs) == Inorder(t.shape)
  {
    hide OnPath, Rest, Height, Lean, Balanced;
    depth, subs := 0, [];
    if t.root != Nil {
      RootPath(t.cells, t.root, t.shape);
      path[0] := t.root;
      assert path[..1] == [t.root];
      depth, subs := LeftSpine(t.cells, path, 1, [t.shape], t.shape);
    } else {
      EmptyPath(t.cells, t.shape);
      assert path[..0] == [];
    }
  }

  lemma EmptyPath(h: Heap, t: Tree)
    ensures OnPath(h, [], [], t)
  {
  }

  lemma NodeAt(h: Heap, path: seq<Ptr>, subs: seq<Tree>, t: Tree)
    requires OnPath(h, path, subs, t)
    ensures |path| == |subs| && (|path| > 0 ==> subs[|path| - 1].Node? && path[|path| - 1] == At(subs[|path| - 1].key))
    ensures |path| > 0 <==> Pending(subs) != []
  {
    assert |path| > 0 ==> Holds(h, path[|path| - 1], subs[|path| - 1]);
  }

  /** The nodes are visited in ascending order, each exactly once, and the path never
      outgrows three times the black height. */
  method Foreach(t: RbTree) returns (visited: seq<Key>)
    requires t.Valid()
    ensures visited == Inorder(t.shape) && Ascending(visited) && forall x :: x in visited <==> x in t.Contents()
  {
    hide OnPath, Rest, Height, BlackHeight, Inorder, Pending, Keys, Ascending, RbTree.Valid;
    var height := BlackHeightOf(t);
    var path := new Ptr[3 * height](_ => Nil);
    PathFits(t);
    visited := [];
    ghost var subs;
    var depth;
    depth, subs := Leftmost(t, path);
    while depth > 0
      invariant 0 <= depth <= path.Length && t.Valid() && OnPath(t.cells, path[..depth], subs, t.shape)
      invariant Inorder(t.shape) == visited + Pending(subs)
      decreases |Pending(subs)|
    {
      NodeAt(t.cells, path[..depth], subs, t.shape);
      visited := visited + [path[depth - 1].key];
      depth, subs := Successor(t.cells, path, depth, subs, t.shape);
    }
    NodeAt(t.cells, path[..depth], subs, t.shape);
  }

  lemma PathFits(t: RbTree)
    requires t.Valid()
    ensures Height(t.shape) <= 3 * BlackHeight(t.shape)
    ensures Ascending(Inorder(t.shape)) && forall x :: x in Inorder(t.shape) <==> x in Keys(t.shape)
  {
    InorderKeys(t.shape);
    InorderAscending(t.shape);
    HeightBound(t.shape);
  }

  lemma RootPath(h: Heap, p: Ptr, t: Tree)
    requires Holds(h, p, t) && p != Nil && Sorted(t)
    ensures t.Node? && OnPath(h, [p], [t], t) && Rest([t]) == [] && 1 <= Height(t)
  {
  }
}
