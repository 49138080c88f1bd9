/**
  The radix tree of `libs/jemalloc/jemalloc.c` that records which chunks belong to
  the allocator.  It is indexed by the most significant bits of a pointer.
 */
module RadixKeys {
  import opened Prelude

  /** The widths of the levels, as `malloc_rtree_new` sets them. */
  method LevelBits(bits: nat, perLevel: nat) returns (levels: seq<nat>)
    requires 0 < bits && 0 < perLevel
    ensures Sum(levels) == bits && 0 < |levels|
    ensures forall i :: 0 <= i < |levels| ==> 0 < levels[i] <= perLevel
    ensures forall i :: 0 < i < |levels| ==> levels[i] == perLevel
  {
    var height := bits / perLevel;
    assert bits == perLevel * height + bits % perLevel;
    if height * perLevel != bits {
      height := height + 1;
    }
    Heights(bits, perLevel, height);
    var first := if perLevel * height > bits then bits % perLevel else perLevel;
    levels := [first];
    assert Sum(levels) == first + Sum([]);
    while |levels| < height
      invariant 0 < |levels| <= height && levels[0] == first
      invariant forall i :: 0 < i < |levels| ==> levels[i] == perLevel
      invariant Sum(levels) == first + (|levels| - 1) * perLevel
    {
      SumSnoc(levels, perLevel);
      Distribute(|levels| - 1, 1, perLevel);
      levels := levels + [perLevel];
    }
  }

  lemma Heights(bits: nat, w: nat, height: nat)
    requires 0 < bits && 0 < w && height == if (bits / w) * w == bits then bits / w else bits / w + 1
    ensures 0 < height && bits == (if w * height > bits then bits % w else w) + (height - 1) * w
    ensures w * height > bits ==> 0 < bits % w
  {
    var q := bits / w;
    assert bits == w * q + bits % w;
    Distribute(height - 1, 1, w);
    assert q == 0 ==> w * q == 0;
  }

  function Sum(s: seq<nat>): nat { if s == [] then 0 else s[0] + Sum(s[1..]) }

  lemma {:induction false} SumSnoc(s: seq<nat>, x: nat)
    ensures Sum(s + [x]) == Sum(s) + x
  {
    if s == [] {
      assert [x][1..] == [];
    } else {
      assert (s + [x])[1..] == s[1..] + [x];
      SumSnoc(s[1..], x);
    }
  }

  /** The total width of the first `i` levels. */
  function Shift(levels: seq<nat>, i: nat): nat
    requires i <= |levels|
  {
    if i == 0 then 0 else Shift(levels, i - 1) + levels[i - 1]
  }

  lemma {:induction false} ShiftIsSum(levels: seq<nat>, i: nat)
    requires i <= |levels|
    ensures Shift(levels, i) == Sum(levels[..i])
  {
    if i > 0 {
      ShiftIsSum(levels, i - 1);
      assert levels[..i] == levels[..i - 1] + [levels[i - 1]];
      SumSnoc(levels[..i - 1], levels[i - 1]);
    }
  }

  lemma {:induction false} ShiftMonotone(levels: seq<nat>, i: nat, j: nat)
    requires i <= j <= |levels|
    ensures Shift(levels, i) <= Shift(levels, j)
    decreases j
  {
    if i < j { ShiftMonotone(levels, i, j - 1); }
  }

  /** The word that is left of `x` after wrap-around at `w`. */
  function Low(x: nat, w: nat): (r: nat)
    requires 0 < w
    ensures r < w
  {
    x % w
  }

  /** `(key << lshift) >> (W - bits)` on `W`-bit words. */
  function Subkey(key: nat, lshift: nat, bits: nat, W: nat): nat
    requires bits <= W
  {
    PowPositive(W);
    PowPositive(W - bits);
    Quot(Low(key * Pow2(lshift), Pow2(W)), Pow2(W - bits))
  }

  /** The most significant `n` bits of a `W`-bit word. */
  function Top(key: nat, n: nat, W: nat): nat
    requires n <= W
  {
    PowPositive(W - n);
    Quot(key, Pow2(W - n))
  }

  /** What the left shift drops are the bits used by earlier levels. */
  lemma ShiftedOut(key: nat, l: nat, W: nat)
    requires l <= W && key < Pow2(W) && Pow2(W - l) > 0
    ensures Pow2(W) > 0 && Low(key * Pow2(l), Pow2(W)) == Low(key, Pow2(W - l)) * Pow2(l)
  {
    hide Pow2;
    PowPositive(W);
    PowPositive(l);
    PowAdd(W - l, l);
    var m := Pow2(W - l);
    var q, r := key / m, key % m;
    assert key == q * m + r;
    Rearrange(q, m, r, Pow2(l));
    assert key * Pow2(l) == q * Pow2(W) + r * Pow2(l);
    MulMono(r + 1, m, Pow2(l));
    Distribute(r, 1, Pow2(l));
    MulSign(r, Pow2(l));
    Decompose(q, r * Pow2(l), Pow2(W));
  }

  lemma Divided(x: nat, w: nat)
    requires 0 < w
    ensures x == Quot(x, w) * w + Low(x, w)
  {
  }

  lemma Rearrange(q: int, m: int, r: int, p: int)
    ensures (q * m + r) * p == q * (m * p) + r * p
  {
  }

  lemma CancelFactor(r: nat, m: nat, p: nat)
    requires 0 < m && 0 < p
    ensures 0 < m * p && Quot(r * p, m * p) == Quot(r, m)
  {
    var q, s := r / m, r % m;
    assert r == q * m + s;
    Rearrange(q, m, s, p);
    MulMono(s + 1, m, p);
    Distribute(s, 1, p);
    MulSign(s, p);
    MulMono(1, m, p);
    Decompose(q, s * p, m * p);
  }

  /** A subkey extends the bits of the earlier levels by the bits of this level. */
  lemma SubkeyExtends(key: nat, l: nat, b: nat, W: nat)
    requires l + b <= W && key < Pow2(W)
    ensures Subkey(key, l, b, W) < Pow2(b)
    ensures Top(key, l + b, W) == Top(key, l, W) * Pow2(b) + Subkey(key, l, b, W)
  {
    hide Pow2, Quot, Low;
    PowPositive(W - l);
    PowPositive(W - l - b);
    PowPositive(b);
    PowPositive(l);
    PowPositive(W);
    var low, n := Pow2(W - l), Pow2(W - l - b);
    var q, r := Quot(key, low), Low(key, low);
    Divided(key, low);
    ShiftedOut(key, l, W);
    PowAdd(W - l - b, l);
    CancelFactor(r, n, Pow2(l));
    assert Subkey(key, l, b, W) == Quot(r, n);
    PowAdd(b, W - l - b);
    SplitQuotient(key, q, r, Pow2(b), n);
  }

  lemma SplitQuotient(key: nat, q: nat, r: nat, p: nat, n: nat)
    requires 0 < n && 0 < p && key == q * (p * n) + r && r < p * n
    ensures Quot(r, n) < p && Quot(key, n) == q * p + Quot(r, n)
  {
    var d, e := r / n, r % n;
    assert r == d * n + e;
    assert d < p by { if d >= p { MulMono(p, d, n); } }
    assert key == (q * p + d) * n + e by { Rearrange(q, p, d, n); }
    MulSign(q, p);
    Decompose(q * p + d, e, n);
  }

  /** The subkeys of a key, one per level. */
  function Digits(key: nat, levels: seq<nat>, i: nat, W: nat): (ds: seq<nat>)
    requires i <= |levels| && Shift(levels, i) <= W
    ensures |ds| == i
  {
    if i == 0 then [] else
      Digits(key, levels, i - 1, W) + [Subkey(key, Shift(levels, i - 1), levels[i - 1], W)]
  }

  lemma {:induction false} DigitAt(key: nat, levels: seq<nat>, i: nat, W: nat, k: nat)
    requires k < i <= |levels| && Shift(levels, i) <= W && key < Pow2(W)
    ensures Shift(levels, k + 1) <= Shift(levels, i)
    ensures Digits(key, levels, i, W)[k] == Subkey(key, Shift(levels, k), levels[k], W) < Pow2(levels[k])
    ensures Digits(key, levels, i, W)[..k] == Digits(key, levels, k, W)
  {
    ShiftMonotone(levels, k + 1, i);
    if k == i - 1 {
      SubkeyExtends(key, Shift(levels, k), levels[k], W);
    } else {
      DigitAt(key, levels, i - 1, W, k);
      assert Digits(key, levels, i, W)[..k] == Digits(key, levels, i - 1, W)[..k];
    }
  }

  /** Two keys have the same subkeys exactly if they agree in the bits that the tree looks at. */
  lemma {:induction false} SameDigits(k: nat, k': nat, levels: seq<nat>, i: nat, W: nat)
    requires i <= |levels| && Shift(levels, i) <= W && k < Pow2(W) && k' < Pow2(W)
    ensures Digits(k, levels, i, W) == Digits(k', levels, i, W) <==>
        Top(k, Shift(levels, i), W) == Top(k', Shift(levels, i), W)
  {
    if i == 0 {
      Decompose(0, k, Pow2(W));
      Decompose(0, k', Pow2(W));
    } else {
      hide Pow2, Subkey, Top, Digits;
      var l, b := Shift(levels, i - 1), levels[i - 1];
      SameDigits(k, k', levels, i - 1, W);
      SubkeyExtends(k, l, b, W);
      SubkeyExtends(k', l, b, W);
      DigitsStep(k, levels, i, W);
      DigitsStep(k', levels, i, W);
      PairInjective(Top(k, l, W), Subkey(k, l, b, W), Top(k', l, W), Subkey(k', l, b, W), Pow2(b));
      SnocInjective(Digits(k, levels, i - 1, W), Subkey(k, l, b, W), Digits(k', levels, i - 1, W), Subkey(k', l, b, W));
    }
  }

  lemma DigitsStep(key: nat, levels: seq<nat>, i: nat, W: nat)
    requires 0 < i <= |levels| && Shift(levels, i) <= W
    ensures Digits(key, levels, i, W) == Digits(key, levels, i - 1, W)
        + [Subkey(key, Shift(levels, i - 1), levels[i - 1], W)]
  {
  }

  lemma SnocInjective(s: seq<nat>, x: nat, s': seq<nat>, x': nat)
    requires |s| == |s'|
    ensures s + [x] == s' + [x'] <==> s == s' && x == x'
  {
    var u, u' := s + [x], s' + [x'];
    assert s == u[..|s|] && s' == u'[..|s|] && x == u[|s|] && x' == u'[|s|];
  }

  lemma PairInjective(q: nat, d: nat, q': nat, d': nat, w: nat)
    requires d < w && d' < w
    ensures q * w + d == q' * w + d' <==> q == q' && d == d'
  {
    Decompose(q, d, w);
    Decompose(q', d', w);
  }
}

/** The nodes of a radix tree: an entry is 0 (`NULL`), a node, or in a leaf a value. */
module RadixNodes {
  import opened Prelude

  type Nodes = seq<seq<int>>

  /** Node `n` is at level `lev[n]` and has as many entries as that level needs. */
  ghost predicate Sized(nodes: Nodes, lev: seq<nat>, levels: seq<nat>) {
    && |lev| == |nodes| && 0 < |nodes| && lev[0] == 0
    && forall n :: 0 <= n < |nodes| ==> lev[n] < |levels| && |nodes[n]| == Pow2(levels[lev[n]])
  }

  ghost predicate Inner(nodes: Nodes, lev: seq<nat>, levels: seq<nat>, n: int, d: int) {
    0 <= n < |nodes| && n < |lev| && lev[n] + 1 < |levels| && 0 <= d < |nodes[n]| && nodes[n][d] != 0
  }

  /** The entries of inner nodes lead one level down. */
  ghost predicate Linked(nodes: Nodes, lev: seq<nat>, levels: seq<nat>) {
    forall n, d {:trigger nodes[n][d]} :: Inner(nodes, lev, levels, n, d) ==>
      0 < nodes[n][d] < |nodes| && nodes[n][d] < |lev| && lev[nodes[n][d]] == lev[n] + 1
  }

  /** No node has two parents. */
  ghost predicate Unshared(nodes: Nodes, lev: seq<nat>, levels: seq<nat>) {
    forall n, d, n', d' {:trigger nodes[n][d], nodes[n'][d']} ::
      Inner(nodes, lev, levels, n, d) && Inner(nodes, lev, levels, n', d') && nodes[n][d] == nodes[n'][d'] ==>
        n == n' && d == d'
  }

  ghost predicate TreeOk(nodes: Nodes, lev: seq<nat>, levels: seq<nat>) {
    Sized(nodes, lev, levels) && Linked(nodes, lev, levels) && Unshared(nodes, lev, levels)
  }

  ghost predicate Path(pre: seq<nat>, levels: seq<nat>) {
    |pre| <= |levels| && forall i :: 0 <= i < |pre| ==> pre[i] < Pow2(levels[i])
  }

  function Entry(nodes: Nodes, n: int, d: int): int {
    if 0 <= n < |nodes| && 0 <= d < |nodes[n]| then nodes[n][d] else 0
  }

  /** The node that a sequence of subkeys leads to, if it exists. */
  ghost function Reach(nodes: Nodes, pre: seq<nat>): Option<int> {
    if pre == [] then Some(0) else
      var up := Reach(nodes, pre[..|pre| - 1]);
      if up.None? then None else
        var e := Entry(nodes, up.value, pre[|pre| - 1]);
        if e == 0 then None else Some(e)
  }

  /** The value stored for a full sequence of subkeys. */
  ghost function At(nodes: Nodes, ds: seq<nat>): int
    requires 0 < |ds|
  {
    var leaf := Reach(nodes, ds[..|ds| - 1]);
    if leaf.None? then 0 else Entry(nodes, leaf.value, ds[|ds| - 1])
  }

  lemma {:induction false} ReachLevel(nodes: Nodes, lev: seq<nat>, levels: seq<nat>, pre: seq<nat>)
    requires TreeOk(nodes, lev, levels) && Path(pre, levels) && |pre| < |levels|
    ensures var r := Reach(nodes, pre); r.Some? ==> 0 <= r.value < |nodes| && lev[r.value] == |pre|
  {
    if pre != [] {
      var up, d := pre[..|pre| - 1], pre[|pre| - 1];
      ReachLevel(nodes, lev, levels, up);
      var n := Reach(nodes, up);
      if n.Some? && nodes[n.value][d] != 0 { assert Inner(nodes, lev, levels, n.value, d); }
    }
  }

  lemma {:induction false} ReachUnique(nodes: Nodes, lev: seq<nat>, levels: seq<nat>, p: seq<nat>, q: seq<nat>)
    requires TreeOk(nodes, lev, levels) && Path(p, levels) && Path(q, levels) && |p| < |levels| && |q| < |levels|
    requires Reach(nodes, p).Some? && Reach(nodes, p) == Reach(nodes, q)
    ensures p == q
    decreases |p|
  {
    ReachLevel(nodes, lev, levels, p);
    ReachLevel(nodes, lev, levels, q);
    if p != [] {
      var p', q' := p[..|p| - 1], q[..|q| - 1];
      ReachLevel(nodes, lev, levels, p');
      ReachLevel(nodes, lev, levels, q');
      assert Inner(nodes, lev, levels, Reach(nodes, p').value, p[|p| - 1]);
      assert Inner(nodes, lev, levels, Reach(nodes, q').value, q[|q| - 1]);
      ReachUnique(nodes, lev, levels, p', q');
      assert p == p' + [p[|p| - 1]] && q == q' + [q[|q| - 1]];
    }
  }

  // ---------- storing a value ----------

  function Put(nodes: Nodes, n: int, d: int, e: int): Nodes
    requires 0 <= n < |nodes| && 0 <= d < |nodes[n]|
  {
    nodes[n := nodes[n][d := e]]
  }

  lemma LeafOk(nodes: Nodes, lev: seq<nat>, levels: seq<nat>, n: int, d: int, v: int)
    requires TreeOk(nodes, lev, levels) && 0 <= n < |nodes| && lev[n] + 1 == |levels| && 0 <= d < |nodes[n]|
    ensures TreeOk(Put(nodes, n, d, v), lev, levels)
  {
    var nodes' := Put(nodes, n, d, v);
    forall m, c | Inner(nodes', lev, levels, m, c)
      ensures Inner(nodes, lev, levels, m, c) && nodes'[m][c] == nodes[m][c]
    {
    }
  }

  lemma {:induction false} LeafReach(nodes: Nodes, lev: seq<nat>, levels: seq<nat>, n: int, d: int, v: int,
      pre: seq<nat>)
    requires TreeOk(nodes, lev, levels) && 0 <= n < |nodes| && lev[n] + 1 == |levels| && 0 <= d < |nodes[n]|
    requires Path(pre, levels) && |pre| < |levels|
    ensures Reach(Put(nodes, n, d, v), pre) == Reach(nodes, pre)
  {
    if pre != [] {
      var up := pre[..|pre| - 1];
      LeafReach(nodes, lev, levels, n, d, v, up);
      ReachLevel(nodes, lev, levels, up);
    }
  }

  lemma PutEntry(nodes: Nodes, n: int, d: int, v: int, m: int, c: int)
    requires 0 <= n < |nodes| && 0 <= d < |nodes[n]|
    ensures Entry(Put(nodes, n, d, v), m, c) == if m == n && c == d then v else Entry(nodes, m, c)
  {
  }

  lemma Width(nodes: Nodes, lev: seq<nat>, levels: seq<nat>, pre: seq<nat>)
    requires TreeOk(nodes, lev, levels) && Path(pre, levels) && 0 < |pre|
    ensures var r := Reach(nodes, pre[..|pre| - 1]);
            r.Some? ==> 0 <= r.value < |nodes| && lev[r.value] + 1 == |pre| && pre[|pre| - 1] < |nodes[r.value]|
  {
    ReachLevel(nodes, lev, levels, pre[..|pre| - 1]);
  }

  /** Storing a value changes what is found for one sequence of subkeys only. */
  lemma LeafAt(nodes: Nodes, lev: seq<nat>, levels: seq<nat>, ds: seq<nat>, v: int, ds': seq<nat>)
    requires TreeOk(nodes, lev, levels) && Path(ds, levels) && Path(ds', levels) && 0 < |ds| == |ds'| == |levels|
    requires Reach(nodes, ds[..|ds| - 1]).Some?
    ensures var n := Reach(nodes, ds[..|ds| - 1]).value;
            && 0 <= n < |nodes| && ds[|ds| - 1] < |nodes[n]|
            && At(Put(nodes, n, ds[|ds| - 1], v), ds') == if ds' == ds then v else At(nodes, ds')
  {
    hide Pow2, TreeOk, Put, Entry, Reach;
    var p, p', d, d' := ds[..|ds| - 1], ds'[..|ds| - 1], ds[|ds| - 1], ds'[|ds| - 1];
    Width(nodes, lev, levels, ds);
    Width(nodes, lev, levels, ds');
    var n := Reach(nodes, p).value;
    LeafReach(nodes, lev, levels, n, d, v, p');
    assert ds == p + [d] && ds' == p' + [d'];
    if Reach(nodes, p').Some? {
      PutEntry(nodes, n, d, v, Reach(nodes, p').value, d');
      if Reach(nodes, p') == Some(n) { ReachUnique(nodes, lev, levels, p, p'); }
    }
  }

  // ---------- adding a node ----------

  function Grown(nodes: Nodes, n: int, d: int, size: nat): Nodes
    requires 0 <= n < |nodes| && 0 <= d < |nodes[n]|
  {
    Put(nodes, n, d, |nodes|) + [Zeros(size)]
  }

  ghost predicate CanGrow(nodes: Nodes, lev: seq<nat>, levels: seq<nat>, n: int, d: int, size: nat) {
    && TreeOk(nodes, lev, levels) && 0 <= n < |nodes| && lev[n] + 1 < |levels| && 0 <= d < |nodes[n]|
    && nodes[n][d] == 0 && size == Pow2(levels[lev[n] + 1])
  }

  lemma GrownEntry(nodes: Nodes, n: int, d: int, size: nat, m: int, c: int)
    requires 0 <= n < |nodes| && 0 <= d < |nodes[n]|
    ensures Entry(Grown(nodes, n, d, size), m, c) == if m == n && c == d then |nodes| else Entry(nodes, m, c)
  {
  }

  lemma GrownInner(nodes: Nodes, lev: seq<nat>, levels: seq<nat>, n: int, d: int, size: nat, m: int, c: int)
    requires CanGrow(nodes, lev, levels, n, d, size)
    requires Inner(Grown(nodes, n, d, size), lev + [lev[n] + 1], levels, m, c)
    ensures Grown(nodes, n, d, size)[m][c] == Entry(Grown(nodes, n, d, size), m, c)
    ensures (m == n && c == d) || (Inner(nodes, lev, levels, m, c) && Grown(nodes, n, d, size)[m][c] == nodes[m][c])
    ensures m == n && c == d ==> Grown(nodes, n, d, size)[m][c] == |nodes|
  {
    GrownEntry(nodes, n, d, size, m, c);
  }

  lemma GrownSized(nodes: Nodes, lev: seq<nat>, levels: seq<nat>, n: int, d: int, size: nat)
    requires CanGrow(nodes, lev, levels, n, d, size)
    ensures Sized(Grown(nodes, n, d, size), lev + [lev[n] + 1], levels)
  {
    hide Linked, Unshared;
    assert |Zeros(size)| == size;
  }

  lemma GrownLinked(nodes: Nodes, lev: seq<nat>, levels: seq<nat>, n: int, d: int, size: nat)
    requires CanGrow(nodes, lev, levels, n, d, size)
    ensures Linked(Grown(nodes, n, d, size), lev + [lev[n] + 1], levels)
  {
    hide Unshared, Grown, Pow2;
    var nodes', lev' := Grown(nodes, n, d, size), lev + [lev[n] + 1];
    GrownSized(nodes, lev, levels, n, d, size);
    forall m, c {:trigger nodes'[m][c]} | Inner(nodes', lev', levels, m, c)
      ensures 0 < nodes'[m][c] < |nodes'| && nodes'[m][c] < |lev'| && lev'[nodes'[m][c]] == lev'[m] + 1
    {
      GrownInner(nodes, lev, levels, n, d, size, m, c);
      GrownSize(nodes, n, d, size);
      InnerRange(nodes, lev, levels, m, c);
    }
  }

  lemma InnerRange(nodes: Nodes, lev: seq<nat>, levels: seq<nat>, m: int, c: int)
    ensures Inner(nodes, lev, levels, m, c) ==> 0 <= m < |nodes| && m < |lev| && 0 <= c < |nodes[m]|
  {
  }

  lemma GrownSize(nodes: Nodes, n: int, d: int, size: nat)
    requires 0 <= n < |nodes| && 0 <= d < |nodes[n]|
    ensures |Grown(nodes, n, d, size)| == |nodes| + 1
  {
  }

  lemma GrownUnshared(nodes: Nodes, lev: seq<nat>, levels: seq<nat>, n: int, d: int, size: nat)
    requires CanGrow(nodes, lev, levels, n, d, size)
    ensures Unshared(Grown(nodes, n, d, size), lev + [lev[n] + 1], levels)
  {
    hide Grown;
    var nodes', lev' := Grown(nodes, n, d, size), lev + [lev[n] + 1];
    forall m, c, m', c' {:trigger nodes'[m][c], nodes'[m'][c']}
      | Inner(nodes', lev', levels, m, c) && Inner(nodes', lev', levels, m', c') && nodes'[m][c] == nodes'[m'][c']
      ensures m == m' && c == c'
    {
      GrownInner(nodes, lev, levels, n, d, size, m, c);
      GrownInner(nodes, lev, levels, n, d, size, m', c');
    }
  }

  lemma GrownOk(nodes: Nodes, lev: seq<nat>, levels: seq<nat>, n: int, d: int, size: nat)
    requires CanGrow(nodes, lev, levels, n, d, size)
    ensures TreeOk(Grown(nodes, n, d, size), lev + [lev[n] + 1], levels)
  {
    GrownSized(nodes, lev, levels, n, d, size);
    GrownLinked(nodes, lev, levels, n, d, size);
    GrownUnshared(nodes, lev, levels, n, d, size);
  }

  /** A new node is reached by one sequence of subkeys, and leads nowhere. */
  lemma {:induction false} GrownReach(nodes: Nodes, lev: seq<nat>, levels: seq<nat>, at: seq<nat>, d: nat,
      size: nat, pre: seq<nat>)
    requires Reach(nodes, at).Some? && CanGrow(nodes, lev, levels, Reach(nodes, at).value, d, size)
    requires Path(at + [d], levels) && |at| + 1 < |levels| && Path(pre, levels) && |pre| < |levels|
    ensures var r := Reach(Grown(nodes, Reach(nodes, at).value, d, size), pre);
            if pre == at + [d] then r == Some(|nodes|) && Reach(nodes, pre) == None
            else r == Reach(nodes, pre)
  {
    hide Grown, TreeOk, Pow2;
    if pre != [] {
      var n := Reach(nodes, at).value;
      var up, c := pre[..|pre| - 1], pre[|pre| - 1];
      assert pre == up + [c];
      GrownReach(nodes, lev, levels, at, d, size, up);
      AtPath(at, d, levels);
      ReachLevel(nodes, lev, levels, up);
      ReachLevel(nodes, lev, levels, at);
      var r := if up == at + [d] then |nodes| else if Reach(nodes, up).Some? then Reach(nodes, up).value else 0;
      GrownEntry(nodes, n, d, size, r, c);
      if Reach(nodes, up) == Some(n) { ReachUnique(nodes, lev, levels, up, at); }
      SnocEq(up, c, at, d);
    }
  }

  lemma AtPath(at: seq<nat>, d: nat, levels: seq<nat>)
    requires Path(at + [d], levels)
    ensures Path(at, levels)
  {
    forall i | 0 <= i < |at|
      ensures at[i] < Pow2(levels[i])
    {
      assert at[i] == (at + [d])[i];
    }
  }

  lemma SnocEq(s: seq<nat>, x: nat, s': seq<nat>, x': nat)
    ensures s + [x] == s' + [x'] <==> s == s' && x == x'
  {
    var u, u' := s + [x], s' + [x'];
    if u == u' {
      assert s == u[..|u| - 1] && s' == u'[..|u'| - 1];
      assert x == u[|u| - 1] && x' == u'[|u'| - 1];
    }
  }

  /** Adding an empty node changes nothing that can be found. */
  lemma GrownAt(nodes: Nodes, lev: seq<nat>, levels: seq<nat>, at: seq<nat>, d: nat, size: nat, ds: seq<nat>)
    requires Reach(nodes, at).Some? && CanGrow(nodes, lev, levels, Reach(nodes, at).value, d, size)
    requires Path(at + [d], levels) && |at| + 1 < |levels| && Path(ds, levels) && |ds| == |levels|
    ensures At(Grown(nodes, Reach(nodes, at).value, d, size), ds) == At(nodes, ds)
  {
    hide Grown, TreeOk, Pow2;
    var n, p, c := Reach(nodes, at).value, ds[..|ds| - 1], ds[|ds| - 1];
    GrownReach(nodes, lev, levels, at, d, size, p);
    AtPath(at, d, levels);
    ReachLevel(nodes, lev, levels, at);
    ReachLevel(nodes, lev, levels, p);
    GrownEntry(nodes, n, d, size, |nodes|, c);
    if Reach(nodes, p).Some? { GrownEntry(nodes, n, d, size, Reach(nodes, p).value, c); }
  }
}

module RadixTrees {
  import opened Prelude
  import opened RadixKeys
  import opened RadixNodes

  class RadixTree {
    /** Bits in a word, and the widths of the levels. */
    const W: nat
    const levels: seq<nat>
    var nodes: Nodes
    ghost var lev: seq<nat>
    /** The values, by the bits of the key that the tree looks at. */
    ghost var contents: map<nat, int>

    ghost predicate LevelsOk() { 0 < |levels| && Shift(levels, |levels|) <= W }

    function Bits(): nat { Shift(levels, |levels|) }

    ghost predicate Valid()
      reads this
    {
      && LevelsOk() && TreeOk(nodes, lev, levels)
      && forall key: nat :: key < Pow2(W) ==> Agrees(nodes, contents, key)
    }

    /** The subkeys of `key`. */
    ghost function Subkeys(key: nat): (ds: seq<nat>)
      requires LevelsOk()
      ensures |ds| == |levels|
    {
      Digits(key, levels, |levels|, W)
    }

    ghost predicate Agrees(nodes: Nodes, contents: map<nat, int>, key: nat)
      requires LevelsOk()
    {
      At(nodes, Subkeys(key)) == Assoc(contents, Top(key, Bits(), W))
    }

    static function Assoc(m: map<nat, int>, k: nat): int { if k in m then m[k] else 0 }

    /** `malloc_rtree_new`: a tree that looks at the top `bits` bits. */
    constructor (bits: nat, perLevel: nat, wordBits: nat)
      requires 0 < bits <= wordBits && 0 < perLevel
      ensures Valid() && contents == map[] && W == wordBits && Bits() == bits
    {
      W := wordBits;
      var ls := LevelBits(bits, perLevel);
      levels := ls;
      nodes := [Zeros(Pow2(ls[0]))];
      lev := [0];
      contents := map[];
      new;
      ShiftIsSum(levels, |levels|);
      assert levels[..|levels|] == levels;
      EmptyTree();
    }

    lemma EmptyTree()
      requires LevelsOk() && nodes == [Zeros(Pow2(levels[0]))] && lev == [0] && contents == map[]
      ensures Valid()
    {
      hide Top, Digits;
      forall key: nat | key < Pow2(W)
        ensures Agrees(nodes, contents, key)
      {
        EmptyAt(nodes, Subkeys(key));
      }
    }

    static lemma {:induction false} EmptyReach(nodes: Nodes, pre: seq<nat>)
      requires |nodes| == 1 && forall d :: 0 <= d < |nodes[0]| ==> nodes[0][d] == 0
      ensures Reach(nodes, pre) == if pre == [] then Some(0) else None
    {
      if pre != [] { EmptyReach(nodes, pre[..|pre| - 1]); }
    }

    static lemma EmptyAt(nodes: Nodes, ds: seq<nat>)
      requires |nodes| == 1 && (forall d :: 0 <= d < |nodes[0]| ==> nodes[0][d] == 0) && 0 < |ds|
      ensures At(nodes, ds) == 0
    {
      EmptyReach(nodes, ds[..|ds| - 1]);
    }

    /** The subkeys of a key are in range for their levels. */
    lemma SubkeysPath(key: nat)
      requires LevelsOk() && key < Pow2(W)
      ensures Path(Subkeys(key), levels)
    {
      forall i | 0 <= i < |levels|
        ensures Subkeys(key)[i] < Pow2(levels[i])
      {
        DigitAt(key, levels, |levels|, W, i);
      }
    }

    /** The node after `i` levels, and the subkey used there. */
    lemma Step(key: nat, i: nat, nodes: Nodes, lev: seq<nat>)
      requires LevelsOk() && key < Pow2(W) && i < |levels| && TreeOk(nodes, lev, levels)
      ensures Path(Subkeys(key), levels) && Shift(levels, i) + levels[i] <= W
      ensures Subkeys(key)[i] == Subkey(key, Shift(levels, i), levels[i], W)
      ensures Subkeys(key)[..i + 1] == Subkeys(key)[..i] + [Subkeys(key)[i]]
      ensures var r := Reach(nodes, Subkeys(key)[..i]);
              && (r.Some? ==> 0 <= r.value < |nodes| && lev[r.value] == i && Subkeys(key)[i] < |nodes[r.value]|)
              && Reach(nodes, Subkeys(key)[..i + 1]) ==
                 (if r.None? || nodes[r.value][Subkeys(key)[i]] == 0 then None
                     else Some(nodes[r.value][Subkeys(key)[i]]))
    {
      hide Digits, Subkey, TreeOk, Pow2;
      SubkeysPath(key);
      DigitAt(key, levels, |levels|, W, i);
      var ds := Subkeys(key);
      var pre := ds[..i + 1];
      assert pre[..|pre| - 1] == ds[..i] && pre[|pre| - 1] == ds[i];
      Width(nodes, lev, levels, pre);
    }

    /** Nothing is found below a missing node. */
    static lemma {:induction false} Missing(nodes: Nodes, ds: seq<nat>, i: nat, j: nat)
      requires i <= j <= |ds| && Reach(nodes, ds[..i]).None?
      ensures Reach(nodes, ds[..j]).None?
      decreases j
    {
      if i < j {
        Missing(nodes, ds, i, j - 1);
        assert ds[..j][..|ds[..j]| - 1] == ds[..j - 1];
      }
    }

    /** `malloc_rtree_get`: the value for `key`, or 0. */
    method Get(key: nat) returns (r: int)
      requires Valid() && key < Pow2(W)
      ensures r == Assoc(contents, Top(key, Bits(), W))
    {
      hide Digits, Subkey, TreeOk, Pow2, Top, Reach;
      ghost var ds := Subkeys(key);
      assert Agrees(nodes, contents, key);
      Root(nodes, ds);
      var i, lshift, node := 0, 0, 0;
      while i < |levels| - 1
        invariant 0 <= i <= |levels| - 1 && lshift == Shift(levels, i) && Reach(nodes, ds[..i]) == Some(node)
      {
        Step(key, i, nodes, lev);
        var child := nodes[node][Subkey(key, lshift, levels[i], W)];
        if child == 0 {
          Missing(nodes, ds, i + 1, |ds| - 1);
          return 0;
        }
        i, lshift, node := i + 1, lshift + levels[i], child;
      }
      Step(key, i, nodes, lev);
      r := nodes[node][Subkey(key, lshift, levels[i], W)];
    }

    static lemma Root(nodes: Nodes, ds: seq<nat>)
      ensures Reach(nodes, ds[..0]) == Some(0)
    {
    }

    /** The nodes that are missing on the first `n` steps of a way. */
    static ghost function Absent(nodes: Nodes, ds: seq<nat>, n: nat): nat
      requires n <= |ds|
    {
      if n == 0 then 0 else Absent(nodes, ds, n - 1) + if Reach(nodes, ds[..n]).None? then 1 else 0
    }

    static lemma {:induction false} AbsentGrows(nodes: Nodes, ds: seq<nat>, i: nat, j: nat)
      requires i <= j <= |ds|
      ensures Absent(nodes, ds, i) <= Absent(nodes, ds, j)
      decreases j
    {
      if i < j { AbsentGrows(nodes, ds, i, j - 1); }
    }

    /** `malloc_rtree_set`; `budget` nodes can still be allocated. */
    method Set(key: nat, val: int, budget: nat) returns (failed: bool)
      requires Valid() && key < Pow2(W)
      modifies this
      ensures Valid() && (failed <==> budget < old(Absent(nodes, Subkeys(key), |levels| - 1)))
      ensures contents == if failed then old(contents) else old(contents)[Top(key, Bits(), W) := val]
    {
      hide Digits, Subkey, TreeOk, Pow2, Top, Reach, Grown, Put;
      ghost var ds := Subkeys(key);
      Root(nodes, ds);
      var i, lshift, node, left := 0, 0, 0, budget;
      while i < |levels| - 1
        invariant 0 <= i <= |levels| - 1 && lshift == Shift(levels, i) && Reach(nodes, ds[..i]) == Some(node)
        invariant Valid() && contents == old(contents) && left == budget - old(Absent(nodes, Subkeys(key), i))
        invariant forall j :: i < j < |levels| ==> Reach(nodes, ds[..j]) == Reach(old(nodes), ds[..j])
      {
        Step(key, i, nodes, lev);
        AbsentGrows(old(nodes), ds, i + 1, |levels| - 1);
        var subkey := Subkey(key, lshift, levels[i], W);
        var child := nodes[node][subkey];
        if child == 0 {
          if left == 0 { return true; }
          left := left - 1;
          child := |nodes|;
          AddNode(key, i, node, subkey);
        }
        i, lshift, node := i + 1, lshift + levels[i], child;
      }
      Step(key, i, nodes, lev);
      SetLeaf(key, val, node, Subkey(key, lshift, levels[i], W));
      return false;
    }

    /** Allocate a zeroed child and link it into its parent. */
    method AddNode(ghost key: nat, i: nat, node: int, subkey: nat)
      requires Valid() && key < Pow2(W) && i < |levels| - 1 && Reach(nodes, Subkeys(key)[..i]) == Some(node)
      requires 0 <= node < |nodes| && subkey == Subkeys(key)[i] < |nodes[node]| && nodes[node][subkey] == 0
      modifies this`nodes, this`lev
      ensures Valid() && Reach(nodes, Subkeys(key)[..i + 1]) == Some(old(|nodes|))
      ensures forall j :: i + 1 < j < |levels| ==>
                Reach(nodes, Subkeys(key)[..j]) == Reach(old(nodes), Subkeys(key)[..j])
    {
      hide Digits, Subkey, Pow2, Top, Reach, Grown, Linked, Unshared;
      ghost var ds := Subkeys(key);
      Step(key, i, nodes, lev);
      SubkeysPath(key);
      var size := Pow2(levels[i + 1]);
      assert CanGrow(nodes, lev, levels, node, subkey, size);
      GrownOk(nodes, lev, levels, node, subkey, size);
      GrownReach(nodes, lev, levels, ds[..i], subkey, size, ds[..i + 1]);
      forall j | i + 1 < j < |levels|
        ensures Reach(Grown(nodes, node, subkey, size), ds[..j]) == Reach(nodes, ds[..j])
      {
        GrownReach(nodes, lev, levels, ds[..i], subkey, size, ds[..j]);
      }
      forall k: nat | k < Pow2(W)
        ensures Agrees(Grown(nodes, node, subkey, size), contents, k)
      {
        assert Agrees(nodes, contents, k);
        SubkeysPath(k);
        GrownAt(nodes, lev, levels, ds[..i], subkey, size, Subkeys(k));
      }
      lev := lev + [lev[node] + 1];
      nodes := Grown(nodes, node, subkey, size);
    }

    method SetLeaf(ghost key: nat, val: int, node: int, subkey: nat)
      requires Valid() && key < Pow2(W) && Reach(nodes, Subkeys(key)[..|levels| - 1]) == Some(node)
      requires 0 <= node < |nodes| && subkey == Subkeys(key)[|levels| - 1] < |nodes[node]| && lev[node] + 1 == |levels|
      modifies this`nodes, this`contents
      ensures Valid() && contents == old(contents)[Top(key, Bits(), W) := val]
    {
      hide Digits, Subkey, Pow2, Top, Reach, Put, At;
      ghost var ds := Subkeys(key);
      LeafOk(nodes, lev, levels, node, subkey, val);
      SubkeysPath(key);
      ghost var contents' := contents[Top(key, Bits(), W) := val];
      forall k: nat | k < Pow2(W)
        ensures Agrees(Put(nodes, node, subkey, val), contents', k)
      {
        assert Agrees(nodes, contents, k);
        SubkeysPath(k);
        LeafAt(nodes, lev, levels, ds, val, Subkeys(k));
        SameDigits(key, k, levels, |levels|, W);
      }
      nodes := Put(nodes, node, subkey, val);
      contents := contents';
    }
  }
}
