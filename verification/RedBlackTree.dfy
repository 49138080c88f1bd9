/**
  Left-leaning red-black trees in the shape kept by `libs/jemalloc/rb.h`: a red
  link always leans left, and a black node may be followed by up to two
  consecutive red left links (a 3-node or a 4-node).

  This module holds the values: trees, paths from the root to a hole, and the
  laws that say what survives when the subtree in the hole is replaced.
  A node is named by its rank in the order of the tree's comparison function,
  so that comparing two nodes is comparing two integers.
 */
module RedBlackShape {
  import opened Prelude

  type Key = int

  datatype Tree = Leaf | Node(left: Tree, key: Key, red: bool, right: Tree)

  /** A path from the root down to a hole, innermost frame first. */
  datatype Path =
    | Top
    | InLeft(up: Path, key: Key, red: bool, right: Tree)
    | InRight(up: Path, left: Tree, key: Key, red: bool)

  function Keys(t: Tree): set<Key> {
    if t.Leaf? then {} else Keys(t.left) + {t.key} + Keys(t.right)
  }

  function PathKeys(p: Path): set<Key> {
    match p
    case Top => {}
    case InLeft(up, k, _, r) => PathKeys(up) + {k} + Keys(r)
    case InRight(up, l, k, _) => PathKeys(up) + {k} + Keys(l)
  }

  function Size(t: Tree): nat {
    if t.Leaf? then 0 else Size(t.left) + 1 + Size(t.right)
  }

  function Plug(p: Path, t: Tree): Tree
    decreases p
  {
    match p
    case Top => t
    case InLeft(up, k, red, r) => Plug(up, Node(t, k, red, r))
    case InRight(up, l, k, red) => Plug(up, Node(l, k, red, t))
  }

  // ---------- the invariants ----------

  ghost predicate Sorted(t: Tree) {
    t.Node? ==>
      && (forall x :: x in Keys(t.left) ==> x < t.key)
      && (forall x :: x in Keys(t.right) ==> t.key < x)
      && Sorted(t.left) && Sorted(t.right)
  }

  predicate IsRed(t: Tree) { t.Node? && t.red }

  /** The number of consecutive red nodes met going left from `t`. */
  function RedRun(t: Tree): nat {
    if IsRed(t) then 1 + RedRun(t.left) else 0
  }

  /** Right children are black; at most two red links follow a black node. */
  predicate Lean(t: Tree) {
    t.Node? ==>
      && !IsRed(t.right)
      && (!t.red ==> RedRun(t.left) <= 2)
      && Lean(t.left) && Lean(t.right)
  }

  /** Black nodes on the left spine, as `rbp_black_height` counts them. */
  function BlackHeight(t: Tree): nat {
    if t.Leaf? then 0 else BlackHeight(t.left) + (if t.red then 0 else 1)
  }

  predicate Balanced(t: Tree) {
    t.Node? ==>
      && BlackHeight(t.left) == BlackHeight(t.right)
      && Balanced(t.left) && Balanced(t.right)
  }

  ghost predicate RedBlack(t: Tree) {
    Sorted(t) && !IsRed(t) && Lean(t) && Balanced(t)
  }

  // ---------- the same invariants around a hole ----------

  /** The number of consecutive red nodes whose left chain reaches the hole. */
  function Above(p: Path): nat {
    if p.InLeft? && p.red then 1 + Above(p.up) else 0
  }

  /** Everything outside the hole leans as it should. */
  predicate LeanPath(p: Path) {
    match p
    case Top => true
    case InLeft(up, _, red, r) =>
      && !IsRed(r) && Lean(r) && LeanPath(up)
      && (if red then !up.InRight? else Above(up) <= 2)
    case InRight(up, l, _, red) =>
      && Lean(l) && LeanPath(up)
      && (red ==> !up.InRight?)
      && (if red then Above(up) + 1 + RedRun(l) <= 2 else RedRun(l) <= 2 && Above(up) <= 2)
  }

  /** `t` may stand in the hole of `p`. */
  predicate LeanFit(p: Path, t: Tree) {
    && LeanPath(p) && Lean(t)
    && Above(p) + RedRun(t) <= 2
    && (p.InRight? ==> !IsRed(t))
  }

  /** `k` belongs in the gap that the hole stands for. */
  predicate Around(p: Path, k: Key) {
    match p
    case Top => true
    case InLeft(up, key, _, _) => k < key && Around(up, k)
    case InRight(up, _, key, _) => key < k && Around(up, k)
  }

  // ---------- replacing the subtree in the hole ----------

  lemma {:induction false} PlugKeys(p: Path, t: Tree)
    ensures Keys(Plug(p, t)) == PathKeys(p) + Keys(t)
    decreases p
  {
    match p
    case Top =>
    case InLeft(up, k, red, r) => PlugKeys(up, Node(t, k, red, r));
    case InRight(up, l, k, red) => PlugKeys(up, Node(l, k, red, t));
  }

  /** A sorted tree stays sorted when a subtree is replaced by a sorted one whose
      keys all lie in the same gap. */
  lemma {:induction false} PlugSorted(p: Path, t: Tree, t': Tree)
    requires Sorted(Plug(p, t)) && Sorted(t')
    requires forall x :: x in Keys(t') ==> x in Keys(t) || Around(p, x)
    ensures Sorted(Plug(p, t'))
    decreases p
  {
    match p
    case Top =>
    case InLeft(up, k, red, r) =>
      PlugSortedParts(up, Node(t, k, red, r));
      PlugSorted(up, Node(t, k, red, r), Node(t', k, red, r));
    case InRight(up, l, k, red) =>
      PlugSortedParts(up, Node(l, k, red, t));
      PlugSorted(up, Node(l, k, red, t), Node(l, k, red, t'));
  }

  /** The keys in the hole are sorted, lie in its gap and differ from the others. */
  lemma {:induction false} PlugSortedParts(p: Path, t: Tree)
    requires Sorted(Plug(p, t))
    ensures Sorted(t)
    ensures forall x :: x in Keys(t) ==> Around(p, x) && x !in PathKeys(p)
    decreases p
  {
    match p
    case Top =>
    case InLeft(up, k, red, r) =>
      PlugSortedParts(up, Node(t, k, red, r));
      assert forall x :: x in Keys(t) ==> x in Keys(Node(t, k, red, r)) && x < k && x !in Keys(r);
    case InRight(up, l, k, red) =>
      PlugSortedParts(up, Node(l, k, red, t));
      assert forall x :: x in Keys(t) ==> x in Keys(Node(l, k, red, t)) && k < x;
  }

  /** A key that belongs in the gap is not in the tree unless it is in the hole. */
  lemma {:induction false} AroundFresh(p: Path, t: Tree, k: Key)
    requires Sorted(Plug(p, t)) && Around(p, k)
    ensures k !in PathKeys(p)
    decreases p
  {
    match p
    case Top =>
    case InLeft(up, key, red, r) =>
      PlugSortedParts(up, Node(t, key, red, r));
      AroundFresh(up, Node(t, key, red, r), k);
    case InRight(up, l, key, red) =>
      PlugSortedParts(up, Node(l, key, red, t));
      AroundFresh(up, Node(l, key, red, t), k);
  }

  lemma {:induction false} PlugBalanced(p: Path, t: Tree, t': Tree)
    requires Balanced(Plug(p, t)) && Balanced(t') && BlackHeight(t') == BlackHeight(t)
    ensures Balanced(Plug(p, t')) && BlackHeight(Plug(p, t')) == BlackHeight(Plug(p, t))
    decreases p
  {
    match p
    case Top =>
    case InLeft(up, k, red, r) =>
      PlugBalancedPart(up, Node(t, k, red, r));
      PlugBalanced(up, Node(t, k, red, r), Node(t', k, red, r));
    case InRight(up, l, k, red) =>
      PlugBalancedPart(up, Node(l, k, red, t));
      PlugBalanced(up, Node(l, k, red, t), Node(l, k, red, t'));
  }

  lemma {:induction false} PlugBalancedPart(p: Path, t: Tree)
    requires Balanced(Plug(p, t))
    ensures Balanced(t)
    decreases p
  {
    match p
    case Top =>
    case InLeft(up, k, red, r) => PlugBalancedPart(up, Node(t, k, red, r));
    case InRight(up, l, k, red) => PlugBalancedPart(up, Node(l, k, red, t));
  }

  lemma {:induction false} PlugLean(p: Path, t: Tree)
    requires LeanFit(p, t)
    ensures Lean(Plug(p, t)) && RedRun(Plug(p, t)) <= 2
    decreases p
  {
    match p
    case Top =>
    case InLeft(up, k, red, r) => PlugLean(up, Node(t, k, red, r));
    case InRight(up, l, k, red) => PlugLean(up, Node(l, k, red, t));
  }

  /** Rotating keeps the keys and their order, whatever the colours. */
  lemma Rotate(a: Tree, j: Key, b: Tree, k: Key, c: Tree, r0: bool, r1: bool, r2: bool, r3: bool)
    ensures var x, y := Node(Node(a, j, r0, b), k, r1, c), Node(a, j, r2, Node(b, k, r3, c));
            Keys(x) == Keys(y) && (Sorted(x) <==> Sorted(y))
  {
    var x, y := Node(Node(a, j, r0, b), k, r1, c), Node(a, j, r2, Node(b, k, r3, c));
    assert Keys(x) == Keys(a) + {j} + Keys(b) + {k} + Keys(c) by { assert Keys(x.left) == Keys(a) + {j} + Keys(b); }
    assert Keys(y) == Keys(a) + {j} + Keys(b) + {k} + Keys(c) by { assert Keys(y.right) == Keys(b) + {k} + Keys(c); }
    if Sorted(x) { assert Sorted(x.left); assert j in Keys(x.left); assert Sorted(y.right); }
    if Sorted(y) { assert Sorted(y.right); assert k in Keys(y.right); assert Sorted(x.left); }
  }

  // ---------- how deep a tree can be ----------

  function Height(t: Tree): nat {
    if t.Leaf? then 0
    else if Height(t.left) > Height(t.right) then 1 + Height(t.left) else 1 + Height(t.right)
  }

  lemma {:induction false} HeightBound(t: Tree)
    requires Lean(t) && Balanced(t)
    ensures Height(t) <= 3 * BlackHeight(t) + RedRun(t)
  {
    if t.Node? {
      HeightBound(t.left);
      HeightBound(t.right);
    }
  }

  lemma {:induction false} SizeBound(t: Tree)
    requires Balanced(t)
    ensures Pow2(BlackHeight(t)) <= Size(t) + 1
  {
    if t.Node? {
      SizeBound(t.left);
      SizeBound(t.right);
    }
  }

  /** No path is longer than three times the black height, which is at most the binary
      logarithm of one more than the number of nodes. */
  lemma DepthBound(t: Tree)
    requires RedBlack(t)
    ensures Height(t) <= 3 * BlackHeight(t) && Pow2(BlackHeight(t)) <= Size(t) + 1
  {
    HeightBound(t);
    SizeBound(t);
  }

  /** A tall tree has many nodes: every node on the longest path has a second subtree of
      full black height. */
  lemma {:induction false} SizeByHeight(t: Tree)
    requires Lean(t) && Balanced(t)
    ensures TallEnough(Size(t), Height(t) - 3 * BlackHeight(t), Pow2(BlackHeight(t)))
  {
    if t.Node? {
      var c, other := if Height(t.left) > Height(t.right) then t.left else t.right,
                      if Height(t.left) > Height(t.right) then t.right else t.left;
      SizeByHeight(c);
      SizeBound(other);
      HeightBound(t);
      var e, p := Height(c) - 3 * BlackHeight(c), Pow2(BlackHeight(c));
      PowPositive(BlackHeight(c));
      if t.red { RedStep(Size(c), e, p); } else { BlackStep(Size(c), e, p); }
      MoreNodes(Size(c) + p, Size(t), Height(t) - 3 * BlackHeight(t), Pow2(BlackHeight(t)));
    }
  }

  /** The least size for an excess `e` of the height over three times the black height. */
  predicate TallEnough(n: int, e: int, p: int) {
    if e >= 0 then n >= 3 * (p - 1) + e * p else 2 * n >= 6 * (p - 1) + e * p
  }

  lemma MoreNodes(m: int, n: int, e: int, p: int)
    requires TallEnough(m, e, p) && m <= n
    ensures TallEnough(n, e, p)
  {
  }

  lemma RedStep(n: int, e: int, p: int)
    requires TallEnough(n, e, p) && 0 < p
    ensures TallEnough(n + p, e + 1, p)
  {
    Distribute(e, 1, p);
  }

  lemma BlackStep(n: int, e: int, p: int)
    requires TallEnough(n, e, p) && 0 < p && e <= 2
    ensures TallEnough(n + p, e - 2, 2 * p)
  {
    Distribute(e, -2, 2 * p);
    assert e * (2 * p) == 2 * (e * p);
    if e < 0 { MulMono(2 * e, e, p); }
    assert (2 * e) * p == 2 * (e * p);
  }

  lemma Cube(a: nat, b: nat)
    requires a <= b
    ensures a * a * a <= b * b * b
  {
    MulMono(a, b, a);
    MulMono(a, b, b);
    MulSign(a, a);
    MulMono(a * a, b * b, a);
    MulSign(b, b);
    MulMono(a, b, b * b);
  }

  lemma PowCube(k: nat)
    ensures Pow2(3 * k) == Pow2(k) * Pow2(k) * Pow2(k)
  {
    PowAdd(k, k);
    PowAdd(k + k, k);
  }

  /** The depth is at most three times the binary logarithm of the number of nodes exactly
      for trees of two or more nodes. */
  lemma DepthByNodes(t: Tree)
    requires RedBlack(t)
    ensures Pow2(Height(t)) <= Size(t) * Size(t) * Size(t) <==> Size(t) >= 2
  {
    hide Sorted, Lean, Balanced;
    var n, b := Size(t), BlackHeight(t);
    SmallSize(t);
    if n >= 2 {
      DepthBound(t);
      Parts(t);
      SizeByHeight(t);
      var w := if Height(t) <= 3 * (b - 1) then b - 1 else b;
      WideEnough(n, Height(t) - 3 * b, b, w);
      PowMonotone(Height(t), 3 * w);
      PowCube(w);
      Cube(Pow2(w), n);
    }
  }

  lemma SmallSize(t: Tree)
    ensures Size(t) == 0 ==> Pow2(Height(t)) == 1
    ensures Size(t) == 1 ==> Pow2(Height(t)) == 2
    ensures Size(t) >= 2 && !IsRed(t) ==> BlackHeight(t) > 0
  {
    assert Pow2(1) == 2;
    if t.Node? { assert Size(t) == Size(t.left) + 1 + Size(t.right); }
  }

  lemma Parts(t: Tree)
    requires RedBlack(t)
    ensures Lean(t) && Balanced(t)
  {
  }

  lemma WideEnough(n: nat, e: int, b: nat, w: nat)
    requires TallEnough(n, e, Pow2(b)) && Pow2(b) <= n + 1 && 2 <= n && 0 < b && e <= 0
    requires w == if e <= -3 then b - 1 else b
    ensures Pow2(w) <= n
  {
    var p := Pow2(b);
    PowPositive(b - 1);
    assert p == 2 * Pow2(b - 1);
    if e > -3 && b >= 2 {
      PowPositive(b - 2);
      assert Pow2(b - 1) == 2 * Pow2(b - 2);
      MulMono(-2, e, p);
    }
  }

  /** A single node is already deeper than three times the logarithm of one. */
  lemma SingleNode(k: Key)
    ensures var t := Node(Leaf, k, false, Leaf);
            RedBlack(t) && Size(t) == 1 && Height(t) == 1 && Pow2(Height(t)) > Size(t) * Size(t) * Size(t)
  {
    var t := Node(Leaf, k, false, Leaf);
    assert Keys(t.left) == {} && Keys(t.right) == {};
    assert Pow2(1) == 2;
  }
}
