/**
  The memory in which the nodes of a tree live, the link and colour macros of
  `libs/jemalloc/rb.h` on it, and what it means for memory to hold a tree.
 */
module RedBlackHeap {
  import opened RedBlackShape
  import opened RedBlackInsertSteps
  import opened RedBlackRemoveSteps

  /** `Nil` is the tree's sentinel, `Head` the stack node above the root. */
  datatype Ptr = Nil | Head | At(key: Key)

  datatype Cell = Cell(left: Ptr, right: Ptr, red: bool)

  type Heap = map<Ptr, Cell>

  // ---------- the macros ----------

  function SetLeft(h: Heap, p: Ptr, q: Ptr): Heap
    requires p in h
  {
    h[p := h[p].(left := q)]
  }

  function SetRight(h: Heap, p: Ptr, q: Ptr): Heap
    requires p in h
  {
    h[p := h[p].(right := q)]
  }

  function SetRed(h: Heap, p: Ptr, red: bool): Heap
    requires p in h
  {
    h[p := h[p].(red := red)]
  }

  /** The new top is `h[p].right`. */
  function RotateLeft(h: Heap, p: Ptr): Heap
    requires p in h && h[p].right in h
  {
    var r := h[p].right;
    SetLeft(SetRight(h, p, h[r].left), r, p)
  }

  /** The new top is `h[p].left`. */
  function RotateRight(h: Heap, p: Ptr): Heap
    requires p in h && h[p].left in h
  {
    var r := h[p].left;
    SetRight(SetLeft(h, p, h[r].right), r, p)
  }

  function LeanLeftAt(h: Heap, p: Ptr): Heap
    requires p in h && h[p].right in h
  {
    var r := h[p].right;
    var h1 := RotateLeft(h, p);
    SetRed(SetRed(h1, r, h1[p].red), p, true)
  }

  function LeanRightAt(h: Heap, p: Ptr): Heap
    requires p in h && h[p].left in h
  {
    var r := h[p].left;
    var h1 := RotateRight(h, p);
    SetRed(SetRed(h1, r, h1[p].red), p, true)
  }

  /** Make `new` the child of `p` where `old` is. */
  function SetChild(h: Heap, p: Ptr, old_: Ptr, new_: Ptr): Heap
    requires p in h
  {
    if h[p].left == old_ then SetLeft(h, p, new_) else SetRight(h, p, new_)
  }

  // ---------- memory that holds a tree ----------

  ghost predicate Holds(h: Heap, p: Ptr, t: Tree)
    decreases t
  {
    match t
    case Leaf => p == Nil
    case Node(l, k, red, r) =>
      && p == At(k) && p in h && h[p].red == red
      && Holds(h, h[p].left, l) && Holds(h, h[p].right, r)
  }

  function Parent(path: Path): Ptr {
    if path.Top? then Head else At(path.key)
  }

  /** Memory holds `path`, and its hole points to `hole`. */
  ghost predicate HoldsPath(h: Heap, path: Path, hole: Ptr)
    decreases path
  {
    match path
    case Top => Head in h && h[Head].left == hole
    case InLeft(up, k, red, r) =>
      && At(k) in h && h[At(k)].red == red && h[At(k)].left == hole
      && Holds(h, h[At(k)].right, r) && HoldsPath(h, up, At(k))
    case InRight(up, l, k, red) =>
      && At(k) in h && h[At(k)].red == red && h[At(k)].right == hole
      && Holds(h, h[At(k)].left, l) && HoldsPath(h, up, At(k))
  }

  ghost predicate NilOk(h: Heap) {
    Nil in h && h[Nil] == Cell(Nil, Nil, false)
  }

  /** Only the nodes in `qs` may differ. */
  ghost predicate SameExcept(h: Heap, h': Heap, qs: set<Ptr>) {
    h.Keys <= h'.Keys && forall q :: q in h && q !in qs ==> h'[q] == h[q]
  }

  function Ptrs(ks: set<Key>): set<Ptr> { set k | k in ks :: At(k) }

  lemma {:induction false} HoldsFrame(h: Heap, h': Heap, p: Ptr, t: Tree, qs: set<Ptr>)
    requires Holds(h, p, t) && SameExcept(h, h', qs)
    requires forall k :: k in Keys(t) ==> At(k) !in qs
    ensures Holds(h', p, t)
    decreases t
  {
    if t.Node? {
      assert t.key in Keys(t);
      HoldsFrame(h, h', h[p].left, t.left, qs);
      HoldsFrame(h, h', h[p].right, t.right, qs);
    }
  }

  lemma {:induction false} PathFrame(h: Heap, h': Heap, path: Path, hole: Ptr, qs: set<Ptr>)
    requires HoldsPath(h, path, hole) && SameExcept(h, h', qs)
    requires Head !in qs && forall k :: k in PathKeys(path) ==> At(k) !in qs
    ensures HoldsPath(h', path, hole)
    decreases path
  {
    match path
    case Top =>
    case InLeft(up, k, _, r) =>
      HoldsFrame(h, h', h[At(k)].right, r, qs);
      PathFrame(h, h', up, At(k), qs);
    case InRight(up, l, k, _) =>
      HoldsFrame(h, h', h[At(k)].left, l, qs);
      PathFrame(h, h', up, At(k), qs);
  }

  function SetHole(h: Heap, path: Path, q: Ptr): Heap
    requires Parent(path) in h
  {
    if path.InRight? then SetRight(h, Parent(path), q) else SetLeft(h, Parent(path), q)
  }

  /** Redirecting the link above the hole. */
  lemma Redirect(h: Heap, path: Path, t: Tree, c: Ptr, c': Ptr)
    requires HoldsPath(h, path, c) && Sorted(Plug(path, t))
    ensures Parent(path) in h && HoldsPath(SetHole(h, path, c'), path, c')
    ensures SameExcept(h, SetHole(h, path, c'), {Parent(path)})
  {
    var h' := SetHole(h, path, c');
    match path
    case Top =>
    case InLeft(up, k, red, r) =>
      PlugSortedParts(up, Node(t, k, red, r));
      HoldsFrame(h, h', h[At(k)].right, r, {At(k)});
      PathFrame(h, h', up, At(k), {At(k)});
    case InRight(up, l, k, red) =>
      PlugSortedParts(up, Node(l, k, red, t));
      HoldsFrame(h, h', h[At(k)].left, l, {At(k)});
      PathFrame(h, h', up, At(k), {At(k)});
  }

  /** The comparison by which the loops tell a left child from a right child. */
  lemma ChildSide(h: Heap, path: Path, t: Tree, c: Ptr)
    requires HoldsPath(h, path, c) && t.Node? && c == At(t.key) && Sorted(Plug(path, t))
    ensures Parent(path) in h && (h[Parent(path)].left == c <==> !path.InRight?)
    ensures path.InRight? ==> h[Parent(path)].right == c
  {
    if path.InRight? {
      PlugSortedParts(path.up, Node(path.left, path.key, path.red, t));
      assert t.key in Keys(t) && (path.left.Node? ==> path.left.key in Keys(path.left));
    }
  }

  lemma {:induction false} PlugHolds(h: Heap, path: Path, q: Ptr, t: Tree)
    requires HoldsPath(h, path, q) && Holds(h, q, t)
    ensures Head in h && Holds(h, h[Head].left, Plug(path, t))
    decreases path
  {
    match path
    case Top =>
    case InLeft(up, k, red, r) => PlugHolds(h, up, At(k), Node(t, k, red, r));
    case InRight(up, l, k, red) => PlugHolds(h, up, At(k), Node(l, k, red, t));
  }

  // Each of the following says what one macro does to a sorted tree in memory.

  ghost predicate Changed(h: Heap, t: Tree, h': Heap, p': Ptr, t': Tree) {
    && Holds(h', p', t') && Sorted(t') && Keys(t') == Keys(t)
    && SameExcept(h, h', Ptrs(Keys(t)))
  }

  /** The nodes of a rotation do not occur in its subtrees. */
  lemma LeftApart(t: Tree)
    requires t.Node? && t.left.Node? && Sorted(t)
    ensures var m := t.left;
            && t.key != m.key
            && forall k :: k in Keys(m.left) || k in Keys(m.right) || k in Keys(t.right) ==> k != t.key && k != m.key
  {
    var m := t.left;
    assert m.key in Keys(m) && Sorted(m);
    assert forall k :: k in Keys(m.left) || k in Keys(m.right) ==> k in Keys(m);
  }

  lemma RightApart(t: Tree)
    requires t.Node? && t.right.Node? && Sorted(t)
    ensures var m := t.right;
            && t.key != m.key
            && forall k :: k in Keys(m.left) || k in Keys(m.right) || k in Keys(t.left) ==> k != t.key && k != m.key
  {
    var m := t.right;
    assert m.key in Keys(m) && Sorted(m);
    assert forall k :: k in Keys(m.left) || k in Keys(m.right) ==> k in Keys(m);
  }

  lemma RotateRightLinks(h: Heap, t: Tree)
    requires t.Node? && t.left.Node? && Holds(h, At(t.key), t) && Sorted(t)
    ensures h[At(t.key)].left == At(t.left.key) && At(t.left.key) in h && t.left.key != t.key
    ensures Holds(RotateRight(h, At(t.key)), At(t.left.key),
                  Node(t.left.left, t.left.key, t.left.red, Node(t.left.right, t.key, t.red, t.right)))
    ensures SameExcept(h, RotateRight(h, At(t.key)), {At(t.key), At(t.left.key)})
  {
    hide Sorted, Keys;
    var m := t.left;
    assert Holds(h, At(m.key), m);
    LeftApart(t);
    var h' := RotateRight(h, At(t.key));
    var qs := {At(t.key), At(m.key)};
    HoldsFrame(h, h', h[At(m.key)].left, m.left, qs);
    HoldsFrame(h, h', h[At(m.key)].right, m.right, qs);
    HoldsFrame(h, h', h[At(t.key)].right, t.right, qs);
    assert Holds(h', At(t.key), Node(m.right, t.key, t.red, t.right));
  }

  lemma RotateRightHolds(h: Heap, t: Tree)
    requires t.Node? && t.left.Node? && Holds(h, At(t.key), t) && Sorted(t)
    ensures h[At(t.key)].left == At(t.left.key) && At(t.left.key) in h && t.left.key != t.key
    ensures Changed(h, t, RotateRight(h, At(t.key)), At(t.left.key), RotRight(t))
  {
    RotateRightLinks(h, t);
    RotRightKeeps(t);
    assert t.left.key in Keys(t.left);
  }

  lemma RotateLeftLinks(h: Heap, t: Tree)
    requires t.Node? && t.right.Node? && Holds(h, At(t.key), t) && Sorted(t)
    ensures h[At(t.key)].right == At(t.right.key) && At(t.right.key) in h && t.right.key != t.key
    ensures Holds(RotateLeft(h, At(t.key)), At(t.right.key),
                  Node(Node(t.left, t.key, t.red, t.right.left), t.right.key, t.right.red, t.right.right))
    ensures SameExcept(h, RotateLeft(h, At(t.key)), {At(t.key), At(t.right.key)})
  {
    hide Sorted, Keys;
    var m := t.right;
    assert Holds(h, At(m.key), m);
    RightApart(t);
    var h' := RotateLeft(h, At(t.key));
    var qs := {At(t.key), At(m.key)};
    HoldsFrame(h, h', h[At(m.key)].left, m.left, qs);
    HoldsFrame(h, h', h[At(m.key)].right, m.right, qs);
    HoldsFrame(h, h', h[At(t.key)].left, t.left, qs);
    assert Holds(h', At(t.key), Node(t.left, t.key, t.red, m.left));
  }

  lemma RotateLeftHolds(h: Heap, t: Tree)
    requires t.Node? && t.right.Node? && Holds(h, At(t.key), t) && Sorted(t)
    ensures h[At(t.key)].right == At(t.right.key) && At(t.right.key) in h && t.right.key != t.key
    ensures Changed(h, t, RotateLeft(h, At(t.key)), At(t.right.key), RotLeft(t))
  {
    RotateLeftLinks(h, t);
    RotLeftKeeps(t);
    assert t.right.key in Keys(t.right);
  }

  lemma Recolour(h: Heap, p: Ptr, t: Tree, red: bool)
    requires Holds(h, p, t) && t.Node? && Sorted(t)
    ensures Changed(h, t, SetRed(h, p, red), p, t.(red := red))
  {
    HoldsFrame(h, SetRed(h, p, red), h[p].left, t.left, {p});
    HoldsFrame(h, SetRed(h, p, red), h[p].right, t.right, {p});
    RecolourKeeps(t, red);
  }

  /** The left subtree changed, the link to it did not. */
  lemma LeftChanged(h: Heap, h': Heap, p: Ptr, t: Tree, l: Tree)
    requires t.Node? && Holds(h, p, t) && Sorted(t) && Changed(h, t.left, h', h[p].left, l)
    ensures Changed(h, t, h', p, t.(left := l))
  {
    HoldsFrame(h, h', h[p].right, t.right, Ptrs(Keys(t.left)));
    ChildKeeps(t, l, t.right);
  }

  lemma RightChanged(h: Heap, h': Heap, p: Ptr, t: Tree, r: Tree)
    requires t.Node? && Holds(h, p, t) && Sorted(t) && Changed(h, t.right, h', h[p].right, r)
    ensures Changed(h, t, h', p, t.(right := r))
  {
    HoldsFrame(h, h', h[p].left, t.left, Ptrs(Keys(t.right)));
    ChildKeeps(t, t.left, r);
  }

  /** The left subtree changed and has to be linked in again. */
  lemma LeftRelinked(h: Heap, h': Heap, p: Ptr, t: Tree, q: Ptr, l: Tree)
    requires t.Node? && Holds(h, p, t) && Sorted(t) && Changed(h, t.left, h', q, l)
    ensures p in h' && Changed(h, t, SetLeft(h', p, q), p, t.(left := l))
  {
    HoldsFrame(h, h', h[p].right, t.right, Ptrs(Keys(t.left)));
    HoldsFrame(h', SetLeft(h', p, q), h[p].right, t.right, {p});
    HoldsFrame(h', SetLeft(h', p, q), q, l, {p});
    ChildKeeps(t, l, t.right);
  }

  lemma RightRelinked(h: Heap, h': Heap, p: Ptr, t: Tree, q: Ptr, r: Tree)
    requires t.Node? && Holds(h, p, t) && Sorted(t) && Changed(h, t.right, h', q, r)
    ensures p in h' && Changed(h, t, SetRight(h', p, q), p, t.(right := r))
  {
    HoldsFrame(h, h', h[p].left, t.left, Ptrs(Keys(t.right)));
    HoldsFrame(h', SetRight(h', p, q), h[p].left, t.left, {p});
    HoldsFrame(h', SetRight(h', p, q), q, r, {p});
    ChildKeeps(t, t.left, r);
  }

  // ---------- the loop of rb_insert ----------

  function SplitAt(h: Heap, c: Ptr): Heap
    requires c in h && h[c].left in h && h[c].left != c && h[h[c].left].left in h
  {
    var t := h[c].left;
    var h1 := RotateRight(h, c);
    SetRed(h1, h1[t].left, false)
  }

  lemma SplitHolds(h: Heap, c: Ptr, t: Tree)
    requires Holds(h, c, t) && FourNode(t) && Sorted(t)
    ensures c in h && h[c].left in h && h[c].left != c && h[h[c].left].left in h
    ensures h[c].left == At(t.left.key)
    ensures Holds(SplitAt(h, c), h[c].left, Split(t))
    ensures SameExcept(h, SplitAt(h, c), Ptrs(Keys(t)))
    ensures Keys(Split(t)) == Keys(t)
  {
    var t1 := RotRight(t);
    RotateRightHolds(h, t);
    var h1 := RotateRight(h, c);
    Recolour(h1, h1[At(t1.key)].left, t1.left, false);
    LeftChanged(h1, SplitAt(h, c), At(t1.key), t1, t1.left.(red := false));
  }

  lemma LeanLeftHolds(h: Heap, l: Tree, k: Key, red: bool, n: Tree)
    requires Holds(h, At(k), Node(l, k, red, n)) && n.Node? && Sorted(Node(l, k, red, n))
    ensures h[At(k)].right == At(n.key) && At(n.key) in h
    ensures Holds(LeanLeftAt(h, At(k)), At(n.key), LeanLeft(l, k, red, n))
    ensures SameExcept(h, LeanLeftAt(h, At(k)), {At(k), At(n.key)})
  {
    var h' := LeanLeftAt(h, At(k));
    var ks := {At(k), At(n.key)};
    assert n.key in Keys(n);
    HoldsFrame(h, h', h[At(k)].left, l, ks);
    HoldsFrame(h, h', h[At(n.key)].left, n.left, ks);
    HoldsFrame(h, h', h[At(n.key)].right, n.right, ks);
  }

  /** Reading colours through the links, as the loops do; `Nil` reads black. */
  lemma Look(h: Heap, c: Ptr, t: Tree)
    requires NilOk(h) && Holds(h, c, t) && t.Node?
    ensures c in h && h[c].left in h && h[c].right in h
    ensures h[h[c].left].red == IsRed(t.left) && h[h[c].right].red == IsRed(t.right)
    ensures h[h[c].left].left in h && h[h[c].right].left in h
    ensures h[h[h[c].left].left].red == (t.left.Node? && IsRed(t.left.left))
    ensures h[h[h[c].right].left].red == (t.right.Node? && IsRed(t.right.left))
    ensures h[c].left == Nil <==> t.left.Leaf?
    ensures h[c].right == Nil <==> t.right.Leaf?
  {
    if t.left.Node? {
      assert Holds(h, h[c].left, t.left);
      assert Holds(h, h[h[c].left].left, t.left.left);
    }
    if t.right.Node? {
      assert Holds(h, h[c].right, t.right);
      assert Holds(h, h[h[c].right].left, t.right.left);
    }
  }

  /** A changed subtree is linked back below an unchanged path. */
  lemma Relink(h: Heap, h': Heap, path: Path, t: Tree, c: Ptr, t': Tree, c': Ptr)
    requires HoldsPath(h, path, c) && t.Node? && c == At(t.key) && Sorted(Plug(path, t))
    requires Holds(h', c', t') && Keys(t') <= Keys(t) && SameExcept(h, h', Ptrs(Keys(t)))
    ensures Parent(path) in h'
    ensures HoldsPath(SetChild(h', Parent(path), c, c'), path, c')
    ensures Holds(SetChild(h', Parent(path), c, c'), c', t')
    ensures SameExcept(h', SetChild(h', Parent(path), c, c'), {Parent(path)})
  {
    PlugSortedParts(path, t);
    PathFrame(h, h', path, c, Ptrs(Keys(t)));
    ChildSide(h', path, t, c);
    Redirect(h', path, t, c, c');
    HoldsFrame(h', SetChild(h', Parent(path), c, c'), c', t', {Parent(path)});
  }

  /** Lean left over the parent of a right child, then link the result to the grandparent. */
  lemma LeanOverParent(h: Heap, path: Path, n: Tree)
    requires path.InRight? && n.Node? && HoldsPath(h, path, At(n.key)) && Holds(h, At(n.key), n)
    requires Sorted(Plug(path, n))
    ensures At(path.key) in h && h[At(path.key)].right == At(n.key) && At(n.key) in h
    ensures var h1 := LeanLeftAt(h, At(path.key));
            && Parent(path.up) in h1
            && (h1[Parent(path.up)].left == At(path.key) || h1[Parent(path.up)].right == At(path.key))
            && var h2 := SetChild(h1, Parent(path.up), At(path.key), At(n.key));
            && SameExcept(h, h2, {At(path.key), At(n.key), Parent(path.up)})
            && HoldsPath(h2, path.up, At(n.key))
            && Holds(h2, At(n.key), LeanLeft(path.left, path.key, path.red, n))
  {
    var whole := Node(path.left, path.key, path.red, n);
    PlugSortedParts(path.up, whole);
    LeanLeftHolds(h, path.left, path.key, path.red, n);
    Rotate(path.left, path.key, n.left, n.key, n.right, true, path.red, path.red, n.red);
    ChildSide(h, path.up, whole, At(path.key));
    Relink(h, LeanLeftAt(h, At(path.key)), path.up, whole, At(path.key),
           LeanLeft(path.left, path.key, path.red, n), At(n.key));
  }

  /** The end of `rb_insert`: the new node is linked in below its parent. */
  lemma LinkHolds(h: Heap, path: Path, node: Key)
    requires HoldsPath(h, path, Nil) && Sorted(Plug(path, Leaf)) && Around(path, node)
    ensures var n, h1 := Node(Leaf, node, true, Leaf), h[At(node) := Cell(Nil, Nil, true)];
            && Parent(path) in h1
            && Sorted(Plug(path, n))
            && HoldsPath(SetHole(h1, path, At(node)), path, At(node))
            && Holds(SetHole(h1, path, At(node)), At(node), n)
  {
    var n, h1 := Node(Leaf, node, true, Leaf), h[At(node) := Cell(Nil, Nil, true)];
    AroundFresh(path, Leaf, node);
    PathFrame(h, h1, path, Nil, {At(node)});
    Redirect(h1, path, Leaf, Nil, At(node));
    PlugSorted(path, Leaf, n);
    PlugSortedParts(path, n);
    assert node in Keys(n);
    HoldsFrame(h1, SetHole(h1, path, At(node)), At(node), n, {Parent(path)});
  }

  // ---------- the end of rb_remove ----------

  lemma CutOutHolds(h: Heap, c: Ptr, t: Tree)
    requires Holds(h, c, t) && Sorted(t) && t.Node? && t.left.Node? && t.left.right.Leaf?
    ensures c in h && h[c].left in h && h[c].left != c
    ensures var h' := SetRight(LeanRightAt(h, c), h[c].left, Nil);
            Holds(h', h[c].left, CutOut(t)) && SameExcept(h, h', Ptrs(Keys(t))) && Keys(CutOut(t)) <= Keys(t)
  {
    var l := t.left;
    assert Holds(h, h[c].left, l) && Sorted(l) && l.key in Keys(l);
    var h' := SetRight(LeanRightAt(h, c), h[c].left, Nil);
    HoldsFrame(h, h', h[At(l.key)].left, l.left, {c, At(l.key)});
  }

  /** The path above the frame at which the search went right at `k`. */
  function PassedUp(p: Path, k: Key): Path
    requires Passed(p, k)
  {
    if p.InLeft? then PassedUp(p.up, k) else p.up
  }

  /** `h'` gives the node `s` the links and colour that `k` has in `h`. */
  ghost predicate Swapped(h: Heap, h': Heap, path: Path, k: Key, s: Key)
    requires Passed(path, k)
  {
    var up := PassedUp(path, k);
    && SameExcept(h, h', {Parent(up), At(s)})
    && HoldsPath(h', up, At(s))
    && At(k) in h && At(s) in h' && h'[At(s)] == h[At(k)]
  }

  lemma {:induction false} PassedUpKeys(p: Path, k: Key)
    requires Passed(p, k)
    ensures PathKeys(PassedUp(p, k)) <= PathKeys(p)
    ensures Parent(PassedUp(p, k)) == Head || Parent(PassedUp(p, k)) in Ptrs(PathKeys(p.up))
  {
    if p.InLeft? { PassedUpKeys(p.up, k); }
  }

  lemma {:induction false} ReplacedHolds(h: Heap, h': Heap, path: Path, t: Tree, hole: Ptr, k: Key, s: Key)
    requires HoldsPath(h, path, hole) && Sorted(Plug(path, t)) && Passed(path, k)
    requires s in Keys(t) && Swapped(h, h', path, k, s)
    ensures HoldsPath(h', Replaced(path, k, s), hole)
    decreases path
  {
    hide Sorted, Keys, PathKeys, Ptrs, Around, Plug;
    var qs := {Parent(PassedUp(path, k)), At(s)};
    SwapApart(path, t, k, s);
    match path
    case InLeft(up, key, red, r) =>
      PlugNode(path, t);
      BelowIn(t, key, red, r, s);
      HoldsFrame(h, h', h[At(key)].right, r, qs);
      ReplacedHolds(h, h', up, Node(t, key, red, r), At(key), k, s);
    case InRight(up, l, key, red) =>
      HoldsFrame(h, h', h[At(key)].left, l, qs);
  }

  lemma BelowIn(t: Tree, key: Key, red: bool, r: Tree, s: Key)
    requires s in Keys(t)
    ensures s in Keys(Node(t, key, red, r))
  {
  }

  /** Neither the parent of the removed node nor its successor is the last node of the path,
      or in the subtree beside it. */
  lemma SwapApart(p: Path, t: Tree, k: Key, s: Key)
    requires Passed(p, k) && Sorted(Plug(p, t)) && s in Keys(t)
    ensures var qs, side := {Parent(PassedUp(p, k)), At(s)}, if p.InLeft? then p.right else p.left;
            (p.InLeft? ==> At(p.key) !in qs) && forall x :: x in Keys(side) ==> At(x) !in qs
  {
    hide Plug;
    PassedUpKeys(p, k);
    var side, u := if p.InLeft? then p.right else p.left,
                   if p.InLeft? then Node(t, p.key, p.red, p.right) else Node(p.left, p.key, p.red, t);
    PlugNode(p, t);
    PlugSortedParts(p.up, u);
    assert p.key in Keys(u) && s in Keys(u) && forall x :: x in Keys(side) ==> x in Keys(u);
  }

  lemma PlugNode(p: Path, t: Tree)
    ensures p.InLeft? ==> Plug(p, t) == Plug(p.up, Node(t, p.key, p.red, p.right))
    ensures p.InRight? ==> Plug(p, t) == Plug(p.up, Node(p.left, p.key, p.red, t))
  {
  }

  /** Memory after the successor, alone in the hole, has been given the place of `k`. */
  lemma SwapHolds(h: Heap, path: Path, t: Tree, k: Key)
    requires NilOk(h) && t.Node? && HoldsPath(h, path, At(t.key)) && Holds(h, At(t.key), t)
    requires Sorted(Plug(path, t)) && Passed(path, k)
    ensures At(k) in h && Parent(PassedUp(path, k)) in h && k != t.key
    ensures var h1 := SetChild(h, Parent(PassedUp(path, k)), At(k), At(t.key));
            var h2 := h1[At(t.key) := h[At(k)]];
            && h1[At(k)] == h[At(k)]
            && HoldsPath(h2, Replaced(path, k, t.key), At(t.key))
  {
    var up := PassedUp(path, k);
    var whole := PassedFrame(h, path, t, At(t.key), k);
    PlugSortedParts(up, whole);
    assert t.key in Keys(t) && t.key in Keys(whole);
    ChildSide(h, up, whole, At(k));
    Redirect(h, up, whole, At(k), At(t.key));
    var h1 := SetChild(h, Parent(up), At(k), At(t.key));
    var h2 := h1[At(t.key) := h[At(k)]];
    PathFrame(h1, h2, up, At(t.key), {At(t.key)});
    ReplacedHolds(h, h2, path, t, At(t.key), k, t.key);
  }

  /** The subtree whose root is the passed node. */
  lemma {:induction false} PassedFrame(h: Heap, path: Path, t: Tree, hole: Ptr, k: Key) returns (whole: Tree)
    requires HoldsPath(h, path, hole) && Passed(path, k)
    ensures whole.Node? && whole.key == k && Keys(t) <= Keys(whole.right)
    ensures Plug(PassedUp(path, k), whole) == Plug(path, t)
    ensures At(k) in h && HoldsPath(h, PassedUp(path, k), At(k))
    decreases path
  {
    match path
    case InLeft(up, key, red, r) => whole := PassedFrame(h, up, Node(t, key, red, r), At(key), k);
    case InRight(_, l, _, red) => whole := Node(l, k, red, t);
  }
}
