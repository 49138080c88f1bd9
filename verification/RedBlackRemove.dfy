/**
  What each turn of `rb_remove` does to the tree, again seen as a pair (path,
  subtree), and why the invariants of `RedBlackShape` survive it.  On the way
  down every 2-node is turned into a 3- or 4-node, so that a node can be cut out
  at the bottom without changing any black height.
 */
module RedBlackRemoveSteps {
  import opened RedBlackShape
  import opened RedBlackInsertSteps

  function RotLeft(t: Tree): Tree
    requires t.Node? && t.right.Node?
  {
    t.right.(left := t.(right := t.right.left))
  }

  function RotRight(t: Tree): Tree
    requires t.Node? && t.left.Node?
  {
    t.left.(right := t.(left := t.left.right))
  }

  /** `rbp_move_red_left`: borrow from, or merge with, the right sibling. */
  function MoveRedLeft(t: Tree): Tree
    requires t.Node? && t.left.Node? && t.right.Node?
  {
    var t1 := t.(left := t.left.(red := true));
    if IsRed(t.right.left) then
      var t2 := RotLeft(t1.(right := RotRight(t1.right)));
      var n := t2.left;
      if IsRed(n.right) then t2.(left := RotLeft(n.(right := n.right.(red := false), red := true)))
      else t2.(left := n.(red := false))
    else
      RotLeft(t1.(red := true))
  }

  /** `rbp_move_red_right`: borrow from, or merge with, the left sibling. */
  function MoveRedRight(t: Tree): Tree
    requires t.Node? && t.left.Node? && t.right.Node? && (IsRed(t.left) ==> t.left.right.Node?)
  {
    if IsRed(t.left) then
      var l := t.left;
      var u := l.right;
      if IsRed(u.left) then
        var l1 := RotLeft(l.(right := u.(red := t.red, left := u.left.(red := false))));
        var t1 := RotRight(t.(left := l1));
        t1.(right := RotLeft(t1.right.(red := true)))
      else
        var t1 := RotRight(t.(left := l.(red := t.red, right := u.(red := true))));
        t1.(right := RotLeft(t1.right.(red := true)))
    else
      var l := t.left.(red := true);
      if IsRed(l.left) then
        var t1 := RotRight(t.(left := l.(left := l.left.(red := false))));
        t1.(right := RotLeft(t1.right))
      else
        RotLeft(t.(left := l))
  }

  // ---------- the loop invariant ----------

  predicate NotTwo(t: Tree) { t.Node? && (t.red || IsRed(t.left)) }

  /** The child on the way to `k` is not a 2-node either. */
  predicate Prepared(t: Tree, k: Key)
    requires t.Node?
  {
    if k < t.key then t.left.Node? && (IsRed(t.left) || IsRed(t.left.left))
    else t.right.Node? && IsRed(t.right.left)
  }

  /** The search went right at `k` and has since only gone left. */
  predicate Passed(p: Path, k: Key) {
    match p
    case Top => false
    case InLeft(up, _, _, _) => Passed(up, k)
    case InRight(_, _, key, _) => key == k
  }

  ghost predicate Removing(p: Path, t: Tree, k: Key, keys: set<Key>) {
    && Sorted(Plug(p, t)) && Balanced(Plug(p, t)) && LeanFit(p, t) && !IsRed(Plug(p, t))
    && Keys(Plug(p, t)) == keys
    && t.Node? && (NotTwo(t) || Prepared(t, k))
    && (k in Keys(t) || Passed(p, k))
    && (p.InRight? && p.key == k ==> IsRed(t.left))
  }

  /** How many more rearrangements are needed before the search can move down. */
  function Stage(t: Tree, k: Key): nat
    requires t.Node?
  {
    if Prepared(t, k) then 0
    else if k < t.key || IsRed(t.left) then 1 else 2
  }

  // ---------- rearranging ----------

  lemma RotLeftKeeps(t: Tree)
    requires t.Node? && t.right.Node?
    ensures Keys(RotLeft(t)) == Keys(t) && (Sorted(t) <==> Sorted(RotLeft(t)))
  {
    Rotate(t.left, t.key, t.right.left, t.right.key, t.right.right, t.red, t.right.red, t.red, t.right.red);
  }

  lemma RotRightKeeps(t: Tree)
    requires t.Node? && t.left.Node?
    ensures Keys(RotRight(t)) == Keys(t) && (Sorted(t) <==> Sorted(RotRight(t)))
  {
    Rotate(t.left.left, t.left.key, t.left.right, t.key, t.right, t.left.red, t.red, t.left.red, t.red);
  }

  lemma RecolourKeeps(t: Tree, red: bool)
    requires t.Node?
    ensures Keys(t.(red := red)) == Keys(t) && (Sorted(t) <==> Sorted(t.(red := red)))
  {
  }

  lemma ChildKeeps(t: Tree, l: Tree, r: Tree)
    requires t.Node? && Sorted(t) && Sorted(l) && Sorted(r)
    requires Keys(l) == Keys(t.left) && Keys(r) == Keys(t.right)
    ensures Keys(t.(left := l, right := r)) == Keys(t) && Sorted(t.(left := l, right := r))
  {
  }

  lemma MoveRedLeftKeeps(t: Tree)
    requires t.Node? && t.left.Node? && t.right.Node? && Sorted(t)
    ensures Keys(MoveRedLeft(t)) == Keys(t) && Sorted(MoveRedLeft(t))
  {
    RecolourKeeps(t.left, true);
    var t1 := t.(left := t.left.(red := true));
    ChildKeeps(t, t1.left, t.right);
    if IsRed(t.right.left) {
      RotRightKeeps(t1.right);
      ChildKeeps(t1, t1.left, RotRight(t1.right));
      var t2 := RotLeft(t1.(right := RotRight(t1.right)));
      RotLeftKeeps(t1.(right := RotRight(t1.right)));
      var n := t2.left;
      if IsRed(n.right) {
        RecolourKeeps(n.right, false);
        ChildKeeps(n, n.left, n.right.(red := false));
        var n1 := n.(right := n.right.(red := false), red := true);
        RecolourKeeps(n.(right := n.right.(red := false)), true);
        RotLeftKeeps(n1);
        ChildKeeps(t2, RotLeft(n1), t2.right);
      } else {
        RecolourKeeps(n, false);
        ChildKeeps(t2, n.(red := false), t2.right);
      }
    } else {
      RecolourKeeps(t1, true);
      RotLeftKeeps(t1.(red := true));
    }
  }

  lemma MoveRedRightKeeps(t: Tree)
    requires t.Node? && t.left.Node? && t.right.Node? && (IsRed(t.left) ==> t.left.right.Node?) && Sorted(t)
    ensures Keys(MoveRedRight(t)) == Keys(t) && Sorted(MoveRedRight(t))
  {
    if IsRed(t.left) {
      var l := t.left;
      var u := l.right;
      if IsRed(u.left) {
        RecolourKeeps(u.left, false);
        var u1 := u.(left := u.left.(red := false));
        ChildKeeps(u, u1.left, u.right);
        RecolourKeeps(u1, t.red);
        var u2 := u1.(red := t.red);
        ChildKeeps(l, l.left, u2);
        RotLeftKeeps(l.(right := u2));
        var l1 := RotLeft(l.(right := u2));
        ChildKeeps(t, l1, t.right);
        FinishRightKeeps(t.(left := l1));
      } else {
        RecolourKeeps(u, true);
        ChildKeeps(l, l.left, u.(red := true));
        RecolourKeeps(l.(right := u.(red := true)), t.red);
        var l1 := l.(red := t.red, right := u.(red := true));
        ChildKeeps(t, l1, t.right);
        FinishRightKeeps(t.(left := l1));
      }
    } else {
      var l := t.left.(red := true);
      RecolourKeeps(t.left, true);
      if IsRed(l.left) {
        RecolourKeeps(l.left, false);
        var l1 := l.(left := l.left.(red := false));
        ChildKeeps(l, l1.left, l.right);
        ChildKeeps(t, l1, t.right);
        var t1 := RotRight(t.(left := l1));
        RotRightKeeps(t.(left := l1));
        RotLeftKeeps(t1.right);
        ChildKeeps(t1, t1.left, RotLeft(t1.right));
      } else {
        ChildKeeps(t, l, t.right);
        RotLeftKeeps(t.(left := l));
      }
    }
  }

  lemma FinishRightKeeps(t: Tree)
    requires t.Node? && t.left.Node? && t.right.Node? && Sorted(t)
    ensures var t1 := RotRight(t);
            var t2 := t1.(right := RotLeft(t1.right.(red := true)));
            Keys(t2) == Keys(t) && Sorted(t2)
  {
    var t1 := RotRight(t);
    RotRightKeeps(t);
    RecolourKeeps(t1.right, true);
    RotLeftKeeps(t1.right.(red := true));
    ChildKeeps(t1, t1.left, RotLeft(t1.right.(red := true)));
  }

  /** The colours after `MoveRedLeft` do not depend on the colour of `t` itself. */
  lemma MoveRedLeftShape(t: Tree)
    requires t.Node? && t.left.Node? && t.right.Node? && Lean(t) && Balanced(t)
    requires !IsRed(t.left) && !IsRed(t.left.left)
    ensures var t' := MoveRedLeft(t);
            && Lean(t') && Balanced(t') && BlackHeight(t') == BlackHeight(t.left)
            && RedRun(t') <= 1 && RedRun(t'.left) <= 2
            && t'.left.Node? && (IsRed(t'.left) || IsRed(t'.left.left))
  {
    var l, r := t.left.(red := true), t.right;
    assert Lean(t.left) && Lean(l) && RedRun(l) == 1;
    assert Lean(r) && Lean(r.left) && Lean(r.right);
    assert Balanced(t.left) && Balanced(l) && Balanced(r) && Balanced(r.left) && Balanced(r.right);
    if IsRed(r.left) {
      var u := r.left;
      assert RedRun(u) == 1 + RedRun(u.left);
      assert Lean(u.left) && Lean(u.right) && Balanced(u.left) && Balanced(u.right);
      var r' := r.(left := u.right);
      assert Lean(r') && Balanced(r');
      if IsRed(u.left) {
        var v := u.left;
        assert RedRun(v) == 1 + RedRun(v.left);
        assert Lean(v.left) && Lean(v.right) && Balanced(v.left) && Balanced(v.right);
        var n := Node(l, t.key, true, v.left);
        assert Lean(n) && Balanced(n) && RedRun(n) == 2;
        var m := Node(n, v.key, false, v.right);
        assert Lean(m) && Balanced(m);
        assert MoveRedLeft(t) == Node(m, u.key, true, r');
      } else {
        var n := Node(l, t.key, false, u.left);
        assert Lean(n) && Balanced(n);
        assert MoveRedLeft(t) == Node(n, u.key, true, r');
      }
    } else {
      var n := Node(l, t.key, true, r.left);
      assert Lean(n) && Balanced(n) && RedRun(n) == 2;
      assert MoveRedLeft(t) == Node(n, r.key, false, r.right);
    }
  }

  /** The node moved down by `MoveRedRight` is red below the old right child. */
  lemma MovedDown(x: Tree, k: Key, r: Tree)
    requires Lean(x) && Balanced(x) && r.Node? && !r.red && Lean(r) && Balanced(r) && !IsRed(r.left)
    requires RedRun(x) <= 1 && BlackHeight(x) + 1 == BlackHeight(r)
    ensures var r' := Node(Node(x, k, true, r.left), r.key, false, r.right);
            && Lean(r') && Balanced(r') && BlackHeight(r') == BlackHeight(r) && IsRed(r'.left)
  {
    var n := Node(x, k, true, r.left);
    assert Balanced(r.left) && Balanced(r.right) && Lean(r.left) && Lean(r.right);
    assert Lean(n) && Balanced(n) && RedRun(n) == 1 + RedRun(x);
  }

  lemma MoveRedRightShape(t: Tree)
    requires t.Node? && t.left.Node? && t.right.Node? && Lean(t) && Balanced(t) && NotTwo(t)
    requires !IsRed(t.right.left) && RedRun(t) <= 2 && Sorted(t)
    ensures IsRed(t.left) ==> t.left.right.Node?
    ensures var t' := MoveRedRight(t);
            && Lean(t') && Balanced(t') && BlackHeight(t') == BlackHeight(t)
            && RedRun(t') <= RedRun(t) && (IsRed(t') ==> t.red)
            && (if t'.key in Keys(t.left) then t'.right.Node? && IsRed(t'.right.left)
                else !IsRed(t.left) && IsRed(t'.left))
  {
    var l, r := t.left, t.right;
    assert Lean(l) && Lean(r) && Balanced(l) && Balanced(r);
    assert Lean(l.left) && Lean(l.right) && Balanced(l.left) && Balanced(l.right);
    assert l.key in Keys(l);
    if IsRed(l) {
      var u := l.right;
      assert u.Node? by { assert BlackHeight(r) >= 1; }
      assert Lean(u.left) && Lean(u.right) && Balanced(u.left) && Balanced(u.right);
      assert RedRun(l) == 1 + RedRun(l.left);
      assert u.key in Keys(u);
      if IsRed(u.left) {
        var v := u.left.(red := false);
        assert RedRun(u.left) == 1 + RedRun(v.left);
        assert Lean(v.left) && Lean(v.right) && Balanced(v.left) && Balanced(v.right);
        assert Lean(v) && Balanced(v);
        var l' := l.(right := v);
        assert Lean(l') && Balanced(l') && RedRun(l') == RedRun(l);
        MovedDown(u.right, t.key, r);
        assert MoveRedRight(t) == Node(l', u.key, t.red,
            Node(Node(u.right, t.key, true, r.left), r.key, r.red, r.right));
      } else {
        var u' := u.(red := true);
        assert Lean(u') && Balanced(u') && RedRun(u') == 1;
        MovedDown(u', t.key, r);
        assert MoveRedRight(t) == Node(l.left, l.key, t.red,
            Node(Node(u', t.key, true, r.left), r.key, r.red, r.right));
      }
    } else if IsRed(l.left) {
      var v := l.left.(red := false);
      assert RedRun(l.left) == 1 + RedRun(v.left);
      assert Lean(v.left) && Lean(v.right) && Balanced(v.left) && Balanced(v.right);
      assert Lean(v) && Balanced(v);
      MovedDown(l.right, t.key, r);
      assert MoveRedRight(t) == Node(v, l.key, true, Node(Node(l.right, t.key, true, r.left), r.key, r.red, r.right));
    } else {
      var l' := l.(red := true);
      assert Lean(l') && Balanced(l') && RedRun(l') == 1;
      MovedDown(l', t.key, r);
      assert r.key in Keys(r);
      assert MoveRedRight(t) == Node(Node(l', t.key, true, r.left), r.key, r.red, r.right);
    }
  }

  // ---------- the turns of the loop ----------

  lemma {:induction false} PlugRoot(p: Path, t: Tree, t': Tree)
    requires !p.Top? || IsRed(t') == IsRed(t)
    ensures IsRed(Plug(p, t')) == IsRed(Plug(p, t))
    decreases p
  {
    match p
    case Top =>
    case InLeft(up, k, red, r) => PlugRoot(up, Node(t, k, red, r), Node(t', k, red, r));
    case InRight(up, l, k, red) => PlugRoot(up, Node(l, k, red, t), Node(l, k, red, t'));
  }

  /** The target is where the search is heading, unless it was passed. */
  lemma Heading(p: Path, t: Tree, k: Key, keys: set<Key>)
    requires Removing(p, t, k, keys)
    ensures Sorted(t) && Balanced(t)
    ensures Passed(p, k) ==> k < t.key && k !in Keys(t)
    ensures !Passed(p, k) ==> k in Keys(StepTree(t, k)) || k == t.key
    ensures k < t.key && !Passed(p, k) ==> t.left.Node?
    ensures k > t.key ==> t.right.Node?
    ensures t.left.Node? && !IsRed(t.left) ==> t.right.Node?
    ensures t.right.Node? ==> t.left.Node?
  {
    PlugSortedParts(p, t);
    PlugBalancedPart(p, t);
    assert Keys(t) == Keys(t.left) + {t.key} + Keys(t.right);
    if Passed(p, k) {
      PassedBelow(p, k, t.key);
      if k in Keys(t) { PassedBelow(p, k, k); }
    }
  }

  lemma {:induction false} PassedBelow(p: Path, k: Key, x: Key)
    requires Passed(p, k) && Around(p, x)
    ensures k < x
  {
    if p.InLeft? { PassedBelow(p.up, k, x); }
  }

  lemma MoveDown(p: Path, t: Tree, k: Key, keys: set<Key>)
    requires Removing(p, t, k, keys) && Prepared(t, k)
    ensures Removing(StepPath(p, t, k), StepTree(t, k), k, keys)
    ensures Keys(StepTree(t, k)) < Keys(t)
  {
    Heading(p, t, k, keys);
    assert t.key !in Keys(StepTree(t, k));
  }

  lemma TurnLeft(p: Path, t: Tree, k: Key, keys: set<Key>)
    requires Removing(p, t, k, keys) && k < t.key && t.left.Node? && !Prepared(t, k)
    ensures t.right.Node? && Removing(p, MoveRedLeft(t), k, keys)
    ensures Keys(MoveRedLeft(t)) == Keys(t) && Stage(MoveRedLeft(t), k) == 0
  {
    Heading(p, t, k, keys);
    assert RedRun(t) == 1;
    var t' := MoveRedLeft(t);
    MoveRedLeftKeeps(t);
    MoveRedLeftShape(t);
    MoveRedLeftTop(t);
    Rewrite(p, t, t');
    if !p.Top? { PlugRoot(p, t, t'); }
  }

  lemma MoveRedLeftTop(t: Tree)
    requires t.Node? && t.left.Node? && t.right.Node? && Sorted(t)
    ensures t.key < MoveRedLeft(t).key
  {
    assert MoveRedLeft(t).key in Keys(t.right) by {
      assert t.right.key in Keys(t.right);
      if t.right.left.Node? { assert t.right.left.key in Keys(t.right.left); }
    }
  }

  lemma TurnRight(p: Path, t: Tree, k: Key, keys: set<Key>)
    requires Removing(p, t, k, keys) && t.key <= k && t.right.Node? && !Prepared(t, k)
    ensures t.left.Node? && (IsRed(t.left) ==> t.left.right.Node?)
    ensures Removing(p, MoveRedRight(t), k, keys)
    ensures Keys(MoveRedRight(t)) == Keys(t) && Stage(MoveRedRight(t), k) < Stage(t, k)
  {
    Heading(p, t, k, keys);
    var t' := MoveRedRight(t);
    MoveRedRightShape(t);
    MoveRedRightKeeps(t);
    Rewrite(p, t, t');
    PlugRoot(p, t, t');
  }

  // ---------- the end of the loop ----------

  /** `t` without its own node, when it has no right child. */
  function CutOut(t: Tree): Tree
    requires t.Node?
  {
    if t.left.Node? then t.left.(red := t.red, right := Leaf) else Leaf
  }

  lemma CutOutFacts(t: Tree)
    requires t.Node? && t.right.Leaf? && Sorted(t) && Balanced(t) && Lean(t) && RedRun(t) <= 2
    ensures t.left.Node? ==> t.left.right.Leaf? && t.left.red
    ensures var t' := CutOut(t);
            && Sorted(t') && Balanced(t') && Lean(t') && RedRun(t') <= RedRun(t)
            && Keys(t') == Keys(t) - {t.key}
            && (NotTwo(t) ==> BlackHeight(t') == BlackHeight(t))
            && (IsRed(t') ==> IsRed(t))
  {
    var l := t.left;
    if l.Node? {
      assert l.red && BlackHeight(l) == 0;
      assert Lean(l) && Balanced(l) && Sorted(l);
      assert RedRun(l) == 1 + RedRun(l.left);
      assert l.right.Leaf?;
      assert Keys(l) == Keys(CutOut(t));
      assert t.key !in Keys(l);
    }
  }

  lemma DeleteLeaf(p: Path, t: Tree, k: Key, keys: set<Key>)
    requires Removing(p, t, k, keys) && k == t.key && t.right.Leaf?
    ensures t.left.Node? ==> t.left.right.Leaf?
    ensures RedBlack(Plug(p, CutOut(t)))
    ensures Keys(Plug(p, CutOut(t))) == keys - {k}
  {
    Heading(p, t, k, keys);
    CutOutFacts(t);
    var t' := CutOut(t);
    PlugSortedParts(p, t);
    PlugSorted(p, t, t');
    PlugBalanced(p, t, t');
    PlugLean(p, t');
    PlugKeys(p, t);
    PlugKeys(p, t');
    if !p.Top? { PlugRoot(p, t, t'); }
  }

  /** The path with `s` in the place of `k`. */
  function Replaced(p: Path, k: Key, s: Key): Path
    requires Passed(p, k)
  {
    match p
    case InLeft(up, key, red, r) => InLeft(Replaced(up, k, s), key, red, r)
    case InRight(up, l, _, red) => InRight(up, l, s, red)
  }

  /** The least key `s` of the right subtree takes the place of the key of a node. */
  lemma ReplacedHere(l: Tree, k: Key, red: bool, t: Tree, t': Tree, s: Key)
    requires Sorted(Node(l, k, red, t)) && Sorted(t')
    requires s in Keys(t) && Keys(t') == Keys(t) - {s} && forall x :: x in Keys(t) ==> s <= x
    ensures var u, u' := Node(l, k, red, t), Node(l, s, red, t');
            Sorted(u') && Keys(u') == Keys(u) - {k} && forall x :: x in Keys(u') ==> x in Keys(u)
  {
    var u, u' := Node(l, k, red, t), Node(l, s, red, t');
    assert k !in Keys(l) && k !in Keys(t) && k < s;
  }

  /** Below a left child the least key stays the least key. */
  lemma ReplacedLeft(t: Tree, t': Tree, key: Key, red: bool, r: Tree, s: Key)
    requires Sorted(Node(t, key, red, r)) && Sorted(t')
    requires s in Keys(t) && Keys(t') == Keys(t) - {s} && forall x :: x in Keys(t) ==> s <= x
    ensures var u, u' := Node(t, key, red, r), Node(t', key, red, r);
            Sorted(u') && s in Keys(u) && Keys(u') == Keys(u) - {s} && forall x :: x in Keys(u) ==> s <= x
  {
  }

  lemma {:induction false} ReplacedKeeps(p: Path, t: Tree, t': Tree, k: Key, s: Key)
    requires Passed(p, k) && Sorted(Plug(p, t)) && Sorted(t')
    requires s in Keys(t) && Keys(t') == Keys(t) - {s} && forall x :: x in Keys(t) ==> s <= x
    ensures Sorted(Plug(Replaced(p, k, s), t'))
    ensures Keys(Plug(Replaced(p, k, s), t')) == Keys(Plug(p, t)) - {k}
    decreases p
  {
    hide Sorted, Keys, PathKeys, Around;
    match p
    case InLeft(up, key, red, r) =>
      var u, u' := Node(t, key, red, r), Node(t', key, red, r);
      PlugSortedParts(up, u);
      ReplacedLeft(t, t', key, red, r, s);
      ReplacedKeeps(up, u, u', k, s);
    case InRight(up, l, key, red) =>
      var u, u' := Node(l, k, red, t), Node(l, s, red, t');
      PlugSortedParts(up, u);
      ReplacedHere(l, k, red, t, t', s);
      PlugSorted(up, u, u');
      PlugKeys(up, u);
      PlugKeys(up, u');
      OwnKey(up, u);
  }

  lemma OwnKey(p: Path, t: Tree)
    requires Sorted(Plug(p, t)) && t.Node?
    ensures t.key !in PathKeys(p)
  {
    PlugSortedParts(p, t);
    assert t.key in Keys(t);
  }

  lemma {:induction false} ReplacedShape(p: Path, t: Tree, k: Key, s: Key)
    requires Passed(p, k) && Balanced(Plug(p, t))
    ensures var p' := Replaced(p, k, s);
            && Balanced(Plug(p', t)) && IsRed(Plug(p', t)) == IsRed(Plug(p, t))
            && Above(p') == Above(p) && LeanPath(p') == LeanPath(p) && p'.InRight? == p.InRight?
    decreases p
  {
    match p
    case InLeft(up, key, red, r) =>
      ReplacedShape(up, Node(t, key, red, r), k, s);
    case InRight(up, l, key, red) =>
      var u, u' := Node(l, k, red, t), Node(l, s, red, t);
      PlugBalancedPart(up, u);
      PlugBalanced(up, u, u');
      PlugRoot(up, u, u');
  }

  /** The successor takes the place of the node to be removed. */
  lemma Relocate(p: Path, t: Tree, k: Key, keys: set<Key>)
    requires Removing(p, t, k, keys) && k < t.key && t.left.Leaf?
    ensures Passed(p, k) && t.right.Leaf? && !(p.InRight? && p.key == k)
    ensures RedBlack(Plug(Replaced(p, k, t.key), Leaf))
    ensures Keys(Plug(Replaced(p, k, t.key), Leaf)) == keys - {k}
  {
    Heading(p, t, k, keys);
    assert BlackHeight(t.right) == 0;
    PlugBalanced(p, t, Leaf);
    ReplacedShape(p, Leaf, k, t.key);
    ReplacedKeeps(p, t, Leaf, k, t.key);
    PlugLean(Replaced(p, k, t.key), Leaf);
    PlugRoot(p, t, Leaf);
  }

  // ---------- the root is handled specially ----------

  lemma RootLeft(t: Tree, k: Key)
    requires RedBlack(t) && k in Keys(t) && k < t.key && !Prepared(t, k)
    ensures t.left.Node? && t.right.Node?
    ensures Removing(Top, Blackened(MoveRedLeft(t)), k, Keys(t))
    ensures Keys(MoveRedLeft(t)) == Keys(t) && Sorted(MoveRedLeft(t))
  {
    MoveRedLeftKeeps(t);
    MoveRedLeftShape(t);
    MoveRedLeftTop(t);
    RecolourKeeps(MoveRedLeft(t), false);
  }

  /** The transform that has no counterpart below the root. */
  function RootMoveRight(t: Tree): Tree
    requires t.Node? && t.left.Node? && t.right.Node? && !IsRed(t.left)
  {
    var t0 := t.(red := true);
    if IsRed(t.left.left) then
      var t1 := RotRight(t0.(left := t.left.(left := t.left.left.(red := false))));
      t1.(right := RotLeft(t1.right))
    else
      RotLeft(t0.(left := t.left.(red := true)))
  }

  lemma RootRight(t: Tree, k: Key)
    requires RedBlack(t) && t.Node? && k in Keys(t) && t.key <= k && t.right.Node? && !IsRed(t.right.left)
    ensures t.left.Node? && (IsRed(t.left) ==> t.left.right.Node?)
    ensures IsRed(t.left) ==> Removing(Top, MoveRedRight(t), k, Keys(t))
    ensures !IsRed(t.left) ==> Removing(Top, RootMoveRight(t), k, Keys(t))
    ensures IsRed(t.left) ==> Keys(MoveRedRight(t)) == Keys(t)
    ensures !IsRed(t.left) ==> Keys(RootMoveRight(t)) == Keys(t)
  {
    if IsRed(t.left) {
      MoveRedRightShape(t);
      MoveRedRightKeeps(t);
    } else {
      var t0 := t.(red := true);
      RecolourKeeps(t, true);
      assert Lean(t0) && Balanced(t0);
      MoveRedRightShape(t0);
      MoveRedRightKeeps(t0);
      RecolourKeeps(MoveRedRight(t0), false);
      assert RootMoveRight(t) == Blackened(MoveRedRight(t0));
    }
  }

  lemma RootDown(t: Tree, k: Key)
    requires RedBlack(t) && t.Node? && k in Keys(t) && Prepared(t, k)
    ensures Removing(StepPath(Top, t, k), StepTree(t, k), k, Keys(t))
  {
    MoveDown(Top, t, k, Keys(t));
  }
}
