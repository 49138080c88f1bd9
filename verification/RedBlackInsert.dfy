/**
  What each turn of the loop of `rb_insert` does to the tree, seen as a pair
  (path to the current node, subtree at the current node), and why the
  invariants of `RedBlackShape` survive it.
 */
module RedBlackInsertSteps {
  import opened RedBlackShape

  /** A black node followed by two red left links: the top of a 4-node. */
  predicate FourNode(t: Tree) {
    t.Node? && IsRed(t.left) && IsRed(t.left.left)
  }

  /** Rotate a 4-node right and pass its red link up one level. */
  function Split(t: Tree): Tree
    requires FourNode(t)
  {
    var m := t.left;
    Node(m.left.(red := false), m.key, m.red, Node(m.right, t.key, t.red, t.right))
  }

  /** Put `n` in place of the right child of `Node(l, k, red, _)` and lean left. */
  function LeanLeft(l: Tree, k: Key, red: bool, n: Tree): Tree
    requires n.Node?
  {
    Node(Node(l, k, true, n.left), n.key, red, n.right)
  }

  function StepPath(p: Path, t: Tree, k: Key): Path
    requires t.Node?
  {
    if k < t.key then InLeft(p, t.key, t.red, t.right) else InRight(p, t.left, t.key, t.red)
  }

  function StepTree(t: Tree, k: Key): Tree
    requires t.Node?
  {
    if k < t.key then t.left else t.right
  }

  /** The hole can take a subtree whose top has just turned red. */
  predicate CanAbsorb(p: Path) {
    match p
    case Top => true
    case InLeft(_, _, _, _) => Above(p) <= 1
    case InRight(up, l, _, red) =>
      if red then RedRun(l) == 0 && Above(up) == 0 else RedRun(l) <= 1
  }

  /** After a split that leans left, the search may pass through the middle of a
      new 4-node, but only to turn right into a 2-node. */
  predicate Detour(t: Tree, k: Key) {
    t.Node? && t.key < k && t.right.Node? && RedRun(t.right.left) == 0
  }

  /** Wherever a red link may still have to be passed up, there is room for it. */
  predicate Ready(p: Path, t: Tree, k: Key) {
    if t.Leaf? then CanAbsorb(p)
    else if t.red then (Above(p) == 0 && RedRun(t) == 1) || Detour(t, k)
    else RedRun(t.left) == 2 ==> CanAbsorb(p)
  }

  /** The loop invariant of `rb_insert`. */
  ghost predicate Searching(p: Path, t: Tree, k: Key, keys: set<Key>) {
    && Sorted(Plug(p, t)) && Balanced(Plug(p, t)) && LeanFit(p, t)
    && Around(p, k) && k !in Keys(t)
    && Keys(Plug(p, t)) == keys
    && Ready(p, t, k)
  }

  /** What shrinks in every turn. */
  function Work(t: Tree, k: Key): nat {
    if t.Node? && t.red && Detour(t, k) then Size(t.right) + 1 else Size(t)
  }

  lemma Start(t: Tree, k: Key)
    requires RedBlack(t) && k !in Keys(t)
    ensures Searching(Top, t, k, Keys(t))
  {
  }

  lemma Descend(p: Path, t: Tree, k: Key, keys: set<Key>)
    requires Searching(p, t, k, keys) && t.Node? && !FourNode(t)
    ensures Searching(StepPath(p, t, k), StepTree(t, k), k, keys)
    ensures Work(StepTree(t, k), k) < Work(t, k)
  {
    PlugSortedParts(p, t);
  }

  /** A subtree may be replaced by one with the same keys and black height. */
  lemma Rewrite(p: Path, t: Tree, t': Tree)
    requires Sorted(Plug(p, t)) && Balanced(Plug(p, t))
    requires Sorted(t') && Balanced(t')
    requires Keys(t') == Keys(t) && BlackHeight(t') == BlackHeight(t)
    ensures Sorted(Plug(p, t')) && Balanced(Plug(p, t'))
    ensures Keys(Plug(p, t')) == Keys(Plug(p, t))
    ensures BlackHeight(Plug(p, t')) == BlackHeight(Plug(p, t))
  {
    PlugSorted(p, t, t');
    PlugBalanced(p, t, t');
    PlugKeys(p, t);
    PlugKeys(p, t');
  }

  /** The colours inside a 4-node. */
  lemma FourNodeShape(p: Path, t: Tree)
    requires LeanFit(p, t) && FourNode(t)
    ensures !t.red && RedRun(t.left) == 2 && Above(p) <= 2
    ensures !IsRed(t.right) && !IsRed(t.left.right) && !IsRed(t.left.left.right) && !IsRed(t.left.left.left)
    ensures Lean(t.right) && Lean(t.left.right) && Lean(t.left.left.left) && Lean(t.left.left.right)
    ensures Lean(t.left.left.(red := false))
  {
    var m := t.left;
    var u := m.left;
    assert RedRun(m) == 2 + RedRun(u.left) by { assert RedRun(u) == 1 + RedRun(u.left); }
    assert Lean(m);
    assert Lean(u);
  }

  lemma SplitFacts(t: Tree)
    requires FourNode(t) && !t.red && Sorted(t) && Balanced(t)
    ensures Keys(Split(t)) == Keys(t) && Sorted(Split(t))
    ensures Balanced(Split(t)) && BlackHeight(Split(t)) == BlackHeight(t)
  {
    var m := t.left;
    var u, u' := m.left, m.left.(red := false);
    assert Sorted(m);
    assert Sorted(u) && Keys(u') == Keys(u) && Sorted(u');
    assert Keys(Node(u', m.key, m.red, m.right)) == Keys(m);
    assert Sorted(Node(u', m.key, m.red, m.right));
    Rotate(u', m.key, m.right, t.key, t.right, m.red, t.red, m.red, t.red);
    assert Balanced(m);
    assert Balanced(u) && Balanced(u') && BlackHeight(u') == BlackHeight(u) + 1;
    assert Balanced(Node(m.right, t.key, t.red, t.right));
    assert BlackHeight(Node(m.right, t.key, t.red, t.right)) == BlackHeight(t);
  }

  lemma LeanLeftFacts(l: Tree, k: Key, red: bool, n: Tree)
    requires n.Node? && Sorted(Node(l, k, red, n)) && Balanced(l) && Balanced(n)
    requires n.red && BlackHeight(l) == BlackHeight(n)
    ensures var t := LeanLeft(l, k, red, n);
            && Keys(t) == Keys(Node(l, k, red, n)) && Sorted(t)
            && Balanced(t) && BlackHeight(t) == BlackHeight(Node(l, k, red, n))
  {
    Rotate(l, k, n.left, n.key, n.right, true, red, red, n.red);
  }

  lemma DescendFromSplit(p: Path, t: Tree, k: Key)
    requires LeanFit(p, t) && CanAbsorb(p) && FourNode(t) && !p.InRight? && Around(p, k) && k !in Keys(t)
    requires Keys(Split(t)) == Keys(t)
    ensures var p', t' := StepPath(p, Split(t), k), StepTree(Split(t), k);
            && LeanFit(p', t') && Ready(p', t', k) && Around(p', k) && k !in Keys(t')
            && Work(t', k) < Work(t, k)
  {
    FourNodeShape(p, t);
    var l, r := Split(t).left, Split(t).right;
    assert RedRun(l) == 0 && RedRun(l.left) == 0 && RedRun(r.left) == 0;
    assert Lean(r);
    assert Keys(Split(t)) == Keys(l) + {t.left.key} + Keys(r);
    SplitSize(t);
  }

  lemma SplitSize(t: Tree)
    requires FourNode(t)
    ensures Size(Split(t)) == Size(t)
  {
    var m := t.left;
    assert Size(m) == Size(m.left) + 1 + Size(m.right);
    assert Size(m.left.(red := false)) == Size(m.left);
    assert Size(Split(t).right) == Size(m.right) + 1 + Size(t.right);
  }

  lemma DescendFromLean(p: Path, t: Tree, k: Key)
    requires LeanFit(p, t) && CanAbsorb(p) && FourNode(t) && p.InRight? && Around(p, k) && k !in Keys(t)
    requires Keys(Split(t)) == Keys(t)
    requires Sorted(Plug(p, t))
    ensures var n := LeanLeft(p.left, p.key, p.red, Split(t));
            var p', t' := StepPath(p.up, n, k), StepTree(n, k);
            && LeanFit(p', t') && Ready(p', t', k) && Around(p', k) && k !in Keys(t')
            && Work(t', k) < Work(t, k)
  {
    FourNodeShape(p, t);
    SplitSize(t);
    PlugSortedParts(p.up, Node(p.left, p.key, p.red, t));
    var n := LeanLeft(p.left, p.key, p.red, Split(t));
    var u, r := Split(t).left, Split(t).right;
    assert RedRun(u) == 0 && RedRun(u.left) == 0 && RedRun(r.left) == 0;
    assert Lean(r);
    assert Keys(Split(t)) == Keys(u) + {t.left.key} + Keys(r);
    assert RedRun(n.left) == 1 + RedRun(p.left);
    assert Keys(n.left) == Keys(p.left) + {p.key} + Keys(u);
    assert Lean(n.left);
  }

  /** A 4-node reached as a left child (or as the root). */
  lemma SplitAndDescend(p: Path, t: Tree, k: Key, keys: set<Key>)
    requires Searching(p, t, k, keys) && FourNode(t) && !p.InRight?
    ensures !t.red
    ensures Searching(StepPath(p, Split(t), k), StepTree(Split(t), k), k, keys)
    ensures Work(StepTree(Split(t), k), k) < Work(t, k)
  {
    FourNodeShape(p, t);
    PlugSortedParts(p, t);
    PlugBalancedPart(p, t);
    SplitFacts(t);
    Rewrite(p, t, Split(t));
    DescendFromSplit(p, t, k);
  }

  /** A 4-node reached as a right child: the red link leans left over the parent. */
  lemma SplitAndLean(p: Path, t: Tree, k: Key, keys: set<Key>)
    requires Searching(p, t, k, keys) && FourNode(t) && p.InRight?
    ensures !t.red
    ensures var n := LeanLeft(p.left, p.key, p.red, Split(t));
            && Searching(StepPath(p.up, n, k), StepTree(n, k), k, keys)
            && Work(StepTree(n, k), k) < Work(t, k)
  {
    FourNodeShape(p, t);
    var whole := Node(p.left, p.key, p.red, t);
    PlugSortedParts(p.up, whole);
    PlugBalancedPart(p.up, whole);
    SplitFacts(t);
    LeanLeftFacts(p.left, p.key, p.red, Split(t));
    Rewrite(p.up, whole, LeanLeft(p.left, p.key, p.red, Split(t)));
    DescendFromLean(p, t, k);
  }

  /** The tree after the new node has been linked in, before the root is blackened. */
  function Linked(p: Path, k: Key): Tree {
    if p.InRight? then Plug(p.up, LeanLeft(p.left, p.key, p.red, Node(Leaf, k, true, Leaf)))
    else Plug(p, Node(Leaf, k, true, Leaf))
  }

  function Blackened(t: Tree): Tree
    requires t.Node?
  {
    t.(red := false)
  }

  lemma LinkedLean(p: Path, k: Key)
    requires LeanFit(p, Leaf) && CanAbsorb(p)
    ensures Lean(Linked(p, k)) && RedRun(Linked(p, k)) <= 2
  {
    if p.InRight? {
      PlugLean(p.up, LeanLeft(p.left, p.key, p.red, Node(Leaf, k, true, Leaf)));
    } else {
      PlugLean(p, Node(Leaf, k, true, Leaf));
    }
  }

  lemma LinkedFacts(p: Path, k: Key)
    requires Sorted(Plug(p, Leaf)) && Balanced(Plug(p, Leaf)) && Around(p, k)
    ensures Sorted(Linked(p, k)) && Balanced(Linked(p, k))
    ensures Keys(Linked(p, k)) == Keys(Plug(p, Leaf)) + {k}
  {
    var n := Node(Leaf, k, true, Leaf);
    PlugKeys(p, Leaf);
    PlugKeys(p, n);
    PlugSorted(p, Leaf, n);
    PlugBalanced(p, Leaf, n);
    if p.InRight? {
      var whole := Node(p.left, p.key, p.red, n);
      PlugSortedParts(p.up, whole);
      PlugBalancedPart(p.up, whole);
      LeanLeftFacts(p.left, p.key, p.red, n);
      Rewrite(p.up, whole, LeanLeft(p.left, p.key, p.red, n));
    }
  }

  /** The whole insertion: exactly `k` is added, and the shape is kept. */
  lemma Link(p: Path, k: Key, keys: set<Key>)
    requires Searching(p, Leaf, k, keys)
    ensures Linked(p, k).Node? && Sorted(Linked(p, k))
    ensures RedBlack(Blackened(Linked(p, k)))
    ensures Keys(Blackened(Linked(p, k))) == keys + {k}
  {
    LinkedLean(p, k);
    LinkedFacts(p, k);
    assert k in Keys(Linked(p, k));
  }
}
