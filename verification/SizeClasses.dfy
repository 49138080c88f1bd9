/**
  Size classes: which bin serves a small request, when two sizes belong to the same
  bin, and how the powers of two behind this are computed.
 */
module SizeClasses {
  import opened Prelude
  import opened Regions

  const TINY_MIN_2POW := 1

  /** Base-two logarithms of the quantum, of `small_max` and of the page size. */
  datatype Config = Config(quantum2: nat, smallMax2: nat, page2: nat) {
    predicate Ok() { TINY_MIN_2POW <= quantum2 <= smallMax2 < page2 }
    function Quantum(): nat { Pow2(quantum2) }
    function SmallMax(): nat { Pow2(smallMax2) }
    function PageSize(): nat { Pow2(page2) }
    function TinyBins(): nat requires Ok() { quantum2 - TINY_MIN_2POW }
    function QuantumBins(): nat requires Ok() { Pow2(smallMax2 - quantum2) }
    function SubPageBins(): nat requires Ok() { page2 - smallMax2 - 1 }
    function Bins(): nat requires Ok() { TinyBins() + QuantumBins() + SubPageBins() }
    function SmallMin(): nat requires Ok() { if TinyBins() > 0 then Quantum() / 2 + 1 else 1 }
    /** `bin_maxclass`. */
    function MaxClass(): nat requires Ok() { Pow2(page2 - 1) }
  }

  /** The region size of bin `i`, as `arena_new` sets it. */
  function RegSize(c: Config, i: nat): nat
    requires c.Ok()
  {
    if i < c.TinyBins() then Pow2(TINY_MIN_2POW + i)
    else if i < c.TinyBins() + c.QuantumBins() then c.Quantum() * (i - c.TinyBins() + 1)
    else c.SmallMax() * Pow2(i - (c.TinyBins() + c.QuantumBins()) + 1)
  }

  /** The exponent of the least power of two that is not below `x`. */
  function CeilLog2(x: nat): (e: nat)
    requires 1 <= x
    ensures x <= Pow2(e) && (e > 0 ==> Pow2(e - 1) < x)
  {
    if x == 1 then 0 else
      var e := 1 + CeilLog2((x + 1) / 2);
      assert Pow2(e) == 2 * Pow2(e - 1);
      e
  }

  lemma LogAtMost(size: nat, n: nat)
    requires 1 <= size <= Pow2(n)
    ensures CeilLog2(size) <= n
  {
    hide Pow2;
    var e := CeilLog2(size);
    if n < e { PowMonotone(n, e - 1); }
  }

  lemma LogAbove(size: nat, n: nat)
    requires Pow2(n) < size
    ensures n < CeilLog2(size)
  {
    hide Pow2;
    var e := CeilLog2(size);
    if e <= n { PowMonotone(e, n); }
  }

  /** `ffs`. */
  function Ffs(n: nat): nat { if n == 0 then 0 else LowestBit(n) + 1 }

  lemma {:induction false} LowestBitOfPower(e: nat)
    ensures Pow2(e) > 0 && LowestBit(Pow2(e)) == e
  {
    PowPositive(e);
    if e > 0 { LowestBitOfPower(e - 1); }
  }

  lemma {:induction false} ShiftPower(e: nat, k: nat)
    ensures Pow2(k) > 0 && Pow2(e) / Pow2(k) == if e < k then 0 else Pow2(e - k)
    decreases k
  {
    hide Pow2;
    PowPositive(k);
    if e < k {
      PowStrict(e, k);
      Decompose(0, Pow2(e), Pow2(k));
    } else {
      PowAdd(e - k, k);
      Decompose(Pow2(e - k), 0, Pow2(k));
    }
  }

  /** The bin chosen by `arena_malloc_small`. */
  function BinIndex(c: Config, size: nat): int
    requires c.Ok() && 1 <= size <= c.MaxClass()
  {
    if size < c.SmallMin() then
      Ffs(Pow2(CeilLog2(size)) / Pow2(TINY_MIN_2POW + 1))
    else if size <= c.SmallMax() then
      PowPositive(c.quantum2);
      c.TinyBins() + (size + c.Quantum() - 1) / c.Quantum() - 1
    else
      PowPositive(c.smallMax2);
      c.TinyBins() + c.QuantumBins() + (Ffs(Pow2(CeilLog2(size)) / c.SmallMax()) - 2)
  }

  /** The bin fits, and the bin before it is too small. */
  ghost predicate Fits(c: Config, size: nat, i: int)
    requires c.Ok()
  {
    0 <= i < c.Bins() && size <= RegSize(c, i) && (i > 0 ==> RegSize(c, i - 1) < size)
  }

  lemma TinyIndex(c: Config, size: nat)
    requires c.Ok() && 1 <= size < c.SmallMin() && size <= c.MaxClass()
    ensures CeilLog2(size) < c.quantum2
    ensures BinIndex(c, size) == if CeilLog2(size) >= 2 then CeilLog2(size) - 1 else 0
  {
    var e := CeilLog2(size);
    assert Pow2(c.quantum2) == 2 * Pow2(c.quantum2 - 1);
    LogAtMost(size, c.quantum2 - 1);
    ShiftPower(e, TINY_MIN_2POW + 1);
    if e >= 2 { LowestBitOfPower(e - 2); }
  }

  lemma TinyBelowMax(c: Config, size: nat)
    requires c.Ok() && 1 <= size < c.SmallMin()
    ensures size <= c.MaxClass() && c.TinyBins() > 0
  {
    PowMonotone(c.quantum2 - 1, c.page2 - 1);
    assert Pow2(c.quantum2) == 2 * Pow2(c.quantum2 - 1);
  }

  lemma TinyFits(c: Config, size: nat)
    requires c.Ok() && 1 <= size < c.SmallMin()
    ensures size <= c.MaxClass() && Fits(c, size, BinIndex(c, size))
  {
    hide Pow2, BinIndex;
    TinyBelowMax(c, size);
    TinyIndex(c, size);
    PowPositive(c.smallMax2 - c.quantum2);
    PowOne();
  }

  lemma PowOne()
    ensures Pow2(0) == 1 && Pow2(1) == 2
  {
  }

  lemma CeilDivide(n: nat, q: nat)
    requires 0 < n && 0 < q
    ensures var k := (n + q - 1) / q; 1 <= k && q * (k - 1) < n <= q * k
  {
    var k, r := (n + q - 1) / q, (n + q - 1) % q;
    assert q * k + r == n + q - 1;
    assert q * (k - 1) == q * k - q;
    assert k <= 0 ==> q * k <= 0;
  }

  /** The number of quanta needed is at most the number of quantum-spaced bins. */
  lemma QuantaBound(n: nat, q: nat, k: nat, bins: nat)
    requires q > 0 && q * (k - 1) < n <= q * bins
    ensures k <= bins
  {
    assert k > bins ==> q * (k - 1) >= q * bins;
  }

  lemma QuantumFits(c: Config, size: nat)
    requires c.Ok() && c.SmallMin() <= size <= c.SmallMax()
    ensures size <= c.MaxClass() && Fits(c, size, BinIndex(c, size))
  {
    hide CeilLog2, Ffs;
    var q, n := c.Quantum(), c.QuantumBins();
    PowPositive(c.quantum2);
    PowAdd(c.quantum2, c.smallMax2 - c.quantum2);
    PowMonotone(c.smallMax2, c.page2 - 1);
    CeilDivide(size, q);
    var k := (size + q - 1) / q;
    QuantaBound(size, q, k, n);
    assert c.TinyBins() > 0 ==> Pow2(c.quantum2) == 2 * Pow2(c.quantum2 - 1);
    assert BinIndex(c, size) == c.TinyBins() + k - 1;
  }

  lemma SubPageIndex(c: Config, size: nat)
    requires c.Ok() && c.SmallMax() < size <= c.MaxClass() && c.SmallMin() <= size
    ensures c.smallMax2 < CeilLog2(size) < c.page2
    ensures BinIndex(c, size) == c.TinyBins() + c.QuantumBins() + CeilLog2(size) - c.smallMax2 - 1
  {
    hide Pow2;
    var e, s := CeilLog2(size), c.smallMax2;
    PowPositive(s);
    LogAbove(size, s);
    LogAtMost(size, c.page2 - 1);
    ShiftPower(e, s);
    LowestBitOfPower(e - s);
  }

  lemma SubPageSize(c: Config, e: nat)
    requires c.Ok() && c.smallMax2 <= e
    ensures c.QuantumBins() > 0
    ensures RegSize(c, c.TinyBins() + c.QuantumBins() + e - c.smallMax2 - 1) == Pow2(e)
  {
    hide Pow2;
    PowAdd(c.smallMax2, e - c.smallMax2);
    LastQuantumClass(c);
  }

  lemma SubPageFits(c: Config, size: nat)
    requires c.Ok() && c.SmallMax() < size <= c.MaxClass() && c.SmallMin() <= size
    ensures Fits(c, size, BinIndex(c, size))
  {
    hide Pow2, BinIndex, RegSize;
    SubPageIndex(c, size);
    SubPageSize(c, CeilLog2(size));
    SubPageSize(c, CeilLog2(size) - 1);
  }

  lemma SmallMinBelow(c: Config)
    requires c.Ok()
    ensures c.SmallMin() <= c.Quantum() <= c.SmallMax()
  {
    PowMonotone(c.quantum2, c.smallMax2);
    PowPositive(c.quantum2 - 1);
  }

  /** The last quantum-spaced class is `small_max`. */
  lemma LastQuantumClass(c: Config)
    requires c.Ok()
    ensures c.QuantumBins() > 0 && RegSize(c, c.TinyBins() + c.QuantumBins() - 1) == c.SmallMax()
  {
    PowPositive(c.smallMax2 - c.quantum2);
    PowAdd(c.quantum2, c.smallMax2 - c.quantum2);
  }

  lemma TinyIncreasing(c: Config, i: nat)
    requires c.Ok() && i < c.TinyBins()
    ensures RegSize(c, i) < RegSize(c, i + 1)
  {
    PowStrict(TINY_MIN_2POW + i, TINY_MIN_2POW + i + 1);
    PowPositive(c.smallMax2 - c.quantum2);
  }

  lemma QuantumIncreasing(c: Config, i: nat)
    requires c.Ok() && c.TinyBins() <= i && i + 1 < c.TinyBins() + c.QuantumBins()
    ensures RegSize(c, i) < RegSize(c, i + 1)
  {
    hide Pow2;
    PowPositive(c.quantum2);
    Distribute(i - c.TinyBins() + 1, 1, c.Quantum());
  }

  lemma SubPageIncreasing(c: Config, i: nat)
    requires c.Ok() && c.TinyBins() + c.QuantumBins() <= i + 1
    ensures RegSize(c, i) < RegSize(c, i + 1)
  {
    hide Pow2;
    var k := i + 1 - (c.TinyBins() + c.QuantumBins());
    var s := c.SmallMax();
    LastQuantumClass(c);
    PowPositive(k);
    PowPositive(c.smallMax2);
    PowAdd(k, 1);
    PowOne();
    Distribute(Pow2(k), Pow2(k), s);
    Times(s, Pow2(k));
    assert RegSize(c, i + 1) == s * Pow2(k + 1);
    assert RegSize(c, i) == s * Pow2(k);
  }

  lemma Increasing(c: Config, i: nat)
    requires c.Ok() && i + 1 < c.Bins()
    ensures RegSize(c, i) < RegSize(c, i + 1)
  {
    hide RegSize;
    if i < c.TinyBins() {
      TinyIncreasing(c, i);
    } else if i + 1 < c.TinyBins() + c.QuantumBins() {
      QuantumIncreasing(c, i);
    } else {
      SubPageIncreasing(c, i);
    }
  }

  lemma Times(a: int, b: int)
    requires 0 < a && 0 < b
    ensures a <= a * b
  {
  }

  lemma {:induction false} IncreasingTo(c: Config, i: nat, j: nat)
    requires c.Ok() && i <= j < c.Bins()
    ensures RegSize(c, i) <= RegSize(c, j)
    decreases j
  {
    if i < j {
      IncreasingTo(c, i, j - 1);
      Increasing(c, j - 1);
    }
  }

  /** The chosen bin has the least region size that is not below the request. */
  lemma LeastClass(c: Config, size: nat)
    requires c.Ok() && 1 <= size <= c.MaxClass()
    ensures 0 <= BinIndex(c, size) < c.Bins()
    ensures size <= RegSize(c, BinIndex(c, size))
    ensures forall j: nat :: j < c.Bins() && size <= RegSize(c, j) ==> RegSize(c, BinIndex(c, size)) <= RegSize(c, j)
  {
    SmallMinBelow(c);
    if size < c.SmallMin() {
      TinyFits(c, size);
    } else if size <= c.SmallMax() {
      QuantumFits(c, size);
    } else {
      SubPageFits(c, size);
    }
    var i := BinIndex(c, size);
    forall j: nat | j < c.Bins() && size <= RegSize(c, j)
      ensures RegSize(c, i) <= RegSize(c, j)
    {
      if j < i { IncreasingTo(c, j, i - 1); } else { IncreasingTo(c, i, j); }
    }
  }

  /** Every size class is itself served by its own bin. */
  lemma ClassIsFixed(c: Config, i: nat)
    requires c.Ok() && i < c.Bins() && 1 <= RegSize(c, i) <= c.MaxClass()
    ensures BinIndex(c, RegSize(c, i)) == i
  {
    var size := RegSize(c, i);
    LeastClass(c, size);
    var k := BinIndex(c, size);
    if k < i { IncreasingTo(c, k, i - 1); Increasing(c, i - 1); }
    if i < k { IncreasingTo(c, i, k - 1); Increasing(c, k - 1); }
  }

  /** Every class lies between 1 and `bin_maxclass`. */
  lemma ClassRange(c: Config, i: nat)
    requires c.Ok() && i < c.Bins()
    ensures 1 <= RegSize(c, i) <= c.MaxClass()
  {
    hide Pow2, RegSize;
    IncreasingTo(c, 0, i);
    IncreasingTo(c, i, c.Bins() - 1);
    SubPageSize(c, c.page2 - 1);
    FirstClass(c);
  }

  lemma FirstClass(c: Config)
    requires c.Ok()
    ensures 1 <= RegSize(c, 0)
  {
    LastQuantumClass(c);
    PowPositive(c.quantum2);
  }

  /** The sizes that the allocator's documentation lists: powers of two from 2 up to half the
      quantum, multiples of the quantum up to `small_max`, and powers of two up to half a page. */
  ghost predicate IsClass(c: Config, n: nat)
    requires c.Ok() && c.Quantum() > 0
  {
    || (exists e: nat :: 1 <= e < c.quantum2 && n == Pow2(e))
    || (n % c.Quantum() == 0 && c.Quantum() <= n <= c.SmallMax())
    || (exists e: nat :: c.smallMax2 < e < c.page2 && n == Pow2(e))
  }

  lemma ClassListed(c: Config, i: nat)
    requires c.Ok() && i < c.Bins()
    ensures c.Quantum() > 0 && IsClass(c, RegSize(c, i))
  {
    hide Pow2;
    PowPositive(c.quantum2);
    var t, n := c.TinyBins(), c.QuantumBins();
    if i < t {
      assert RegSize(c, i) == Pow2(i + 1);
    } else if i < t + n {
      var k := i - t + 1;
      PowAdd(c.quantum2, c.smallMax2 - c.quantum2);
      MulMono(k, n, c.Quantum());
      MulMono(1, k, c.Quantum());
      Decompose(k, 0, c.Quantum());
    } else {
      var e := i - (t + n) + c.smallMax2 + 1;
      SubPageSize(c, e);
      assert RegSize(c, i) == Pow2(e);
    }
  }

  lemma ListedIsClass(c: Config, n: nat) returns (i: nat)
    requires c.Ok() && c.Quantum() > 0 && IsClass(c, n)
    ensures i < c.Bins() && RegSize(c, i) == n
  {
    hide Pow2;
    LastQuantumClass(c);
    var q, t := c.Quantum(), c.TinyBins();
    if e: nat :| 1 <= e < c.quantum2 && n == Pow2(e) {
      i := e - 1;
    } else if n % q == 0 && q <= n <= c.SmallMax() {
      var k := n / q;
      assert n == q * k;
      PowAdd(c.quantum2, c.smallMax2 - c.quantum2);
      Between(q, k, c.QuantumBins());
      i := t + k - 1;
    } else {
      var e: nat :| c.smallMax2 < e < c.page2 && n == Pow2(e);
      SubPageSize(c, e);
      i := t + c.QuantumBins() + e - c.smallMax2 - 1;
    }
  }

  lemma Between(q: nat, k: int, n: nat)
    requires 0 < q && q <= q * k <= q * n
    ensures 1 <= k <= n
  {
    if k < 1 { MulMono(k, 0, q); }
    if k > n { MulMono(n + 1, k, q); Distribute(n, 1, q); }
  }

  /** The region sizes of the bins are exactly those sizes. */
  lemma ClassesAre(c: Config, n: nat)
    requires c.Ok()
    ensures c.Quantum() > 0 && ((exists i: nat :: i < c.Bins() && RegSize(c, i) == n) <==> IsClass(c, n))
  {
    hide Pow2, RegSize, IsClass;
    PowPositive(c.quantum2);
    if i: nat :| i < c.Bins() && RegSize(c, i) == n { ClassListed(c, i); }
    if IsClass(c, n) { var i := ListedIsClass(c, n); }
  }

  // ---------- staying in the same class ----------

  /** The tests of `arena_ralloc` for leaving a small block where it is. */
  predicate SameClass(c: Config, size: nat, oldsize: nat)
    requires c.Ok() && 1 <= size && 1 <= oldsize
  {
    if size < c.SmallMin() then
      && oldsize < c.SmallMin()
      && Ffs(Pow2(CeilLog2(size)) / Pow2(TINY_MIN_2POW + 1)) == Ffs(Pow2(CeilLog2(oldsize)) / Pow2(TINY_MIN_2POW + 1))
    else if size <= c.SmallMax() then
      PowPositive(c.quantum2);
      && c.SmallMin() <= oldsize <= c.SmallMax()
      && (size + c.Quantum() - 1) / c.Quantum() == (oldsize + c.Quantum() - 1) / c.Quantum()
    else
      && size <= c.MaxClass() && c.SmallMax() < oldsize <= c.MaxClass()
      && Pow2(CeilLog2(size)) == Pow2(CeilLog2(oldsize))
  }

  /** In which group of bins a size falls. */
  lemma BinGroup(c: Config, size: nat)
    requires c.Ok() && 1 <= size <= c.MaxClass()
    ensures size < c.SmallMin() <==> BinIndex(c, size) < c.TinyBins()
    ensures size <= c.SmallMax() <==> BinIndex(c, size) < c.TinyBins() + c.QuantumBins()
  {
    hide Pow2, BinIndex;
    SmallMinBelow(c);
    if size < c.SmallMin() {
      TinyBelowMax(c, size);
      TinyIndex(c, size);
    } else if size <= c.SmallMax() {
      QuantumRange(c, size);
    } else {
      SubPageIndex(c, size);
    }
  }

  lemma SameLog(m: nat, n: nat)
    requires Pow2(m) == Pow2(n)
    ensures m == n
  {
    hide Pow2;
    NotBelow(m, n);
    NotBelow(n, m);
  }

  /** The tests succeed exactly when both sizes are served by the same bin. */
  lemma SameClassIff(c: Config, size: nat, oldsize: nat)
    requires c.Ok() && 1 <= size && 1 <= oldsize <= c.MaxClass()
    ensures SameClass(c, size, oldsize) <==> size <= c.MaxClass() && BinIndex(c, size) == BinIndex(c, oldsize)
  {
    hide Pow2, CeilLog2, Ffs;
    SmallMinBelow(c);
    PowMonotone(c.smallMax2, c.page2 - 1);
    BinGroup(c, oldsize);
    if size <= c.MaxClass() {
      BinGroup(c, size);
      if c.SmallMax() < size && c.SmallMax() < oldsize {
        SubPageIndex(c, size);
        SubPageIndex(c, oldsize);
        if Pow2(CeilLog2(size)) == Pow2(CeilLog2(oldsize)) { SameLog(CeilLog2(size), CeilLog2(oldsize)); }
      }
    }
  }

  // ---------- alignment of size classes ----------

  lemma PowerDivides(a: nat, b: nat)
    requires a <= b
    ensures Pow2(a) > 0 && Pow2(b) % Pow2(a) == 0
  {
    hide Pow2;
    PowPositive(a);
    PowAdd(b - a, a);
    Decompose(Pow2(b - a), 0, Pow2(a));
  }

  lemma MultipleTimes(a: nat, b: nat, k: nat)
    requires 0 < b
    ensures ((a * b) * k) % b == 0
  {
    assert (a * b) * k == (a * k) * b;
    MulSign(a, k);
    Decompose(a * k, 0, b);
  }

  /** A power of two that is not below a positive multiple of `Pow2(a)` is a multiple of it. */
  lemma PowerAbove(e: nat, a: nat, size: nat)
    requires 1 <= size <= Pow2(e) && Pow2(a) > 0 && size % Pow2(a) == 0
    ensures Pow2(e) % Pow2(a) == 0
  {
    hide Pow2;
    MultipleIsLarge(size, Pow2(a));
    NotBelow(e, a);
    PowerDivides(a, e);
  }

  lemma NotBelow(e: nat, a: nat)
    requires Pow2(a) <= Pow2(e)
    ensures a <= e
  {
    hide Pow2;
    if e < a { PowStrict(e, a); }
  }

  lemma MultipleIsLarge(n: nat, w: nat)
    requires 1 <= n && 0 < w && n % w == 0
    ensures w <= n
  {
    var q := n / w;
    assert w * q == n;
    assert w * q > 0;
    assert q > 0;
    MulMono(1, q, w);
  }

  /** Rounding a multiple of `Pow2(a)` up to whole quanta gives a multiple of `Pow2(a)`. */
  lemma QuantumAligned(q: nat, size: nat, a: nat)
    requires 1 <= size && Pow2(a) > 0 && size % Pow2(a) == 0 && Pow2(q) > 0
    ensures (Pow2(q) * ((size + Pow2(q) - 1) / Pow2(q))) % Pow2(a) == 0
  {
    hide Pow2;
    var w := Pow2(q);
    CeilDivide(size, w);
    var k := (size + w - 1) / w;
    if a <= q {
      PowAdd(q - a, a);
      MultipleTimes(Pow2(q - a), Pow2(a), k);
    } else {
      PowAdd(a - q, q);
      var m := size / Pow2(a);
      assert size == Pow2(a) * m;
      ExactQuanta(w, k, Pow2(a - q) * m, size, m, Pow2(a - q));
    }
  }

  lemma ExactQuanta(w: nat, k: int, n: int, size: nat, m: int, p: nat)
    requires 0 < w && w * (k - 1) < size <= w * k && n == p * m && size == (p * w) * m
    ensures w * k == size
  {
    assert (p * w) * m == w * n;
    assert w * (k - 1) < w * n <= w * k;
    assert k - 1 < n by { if n <= k - 1 { MulMono(n, k - 1, w); } }
    assert n <= k by { if n >= k + 1 { MulMono(k + 1, n, w); } }
  }

  /** The class that serves a multiple of `Pow2(a)` is itself a multiple of `Pow2(a)`. */
  lemma ClassAligned(c: Config, size: nat, a: nat)
    requires c.Ok() && 1 <= size <= c.MaxClass() && Pow2(a) > 0 && size % Pow2(a) == 0
    ensures 0 <= BinIndex(c, size) && RegSize(c, BinIndex(c, size)) % Pow2(a) == 0
  {
    hide Pow2, BinIndex, RegSize;
    LeastClass(c, size);
    if size < c.SmallMin() {
      TinyAligned(c, size, a);
    } else if size <= c.SmallMax() {
      QuantumRange(c, size);
      QuantumAligned(c.quantum2, size, a);
    } else {
      SubPageIndex(c, size);
      SubPageSize(c, CeilLog2(size));
      PowerAbove(CeilLog2(size), a, size);
    }
  }

  lemma TinyAligned(c: Config, size: nat, a: nat)
    requires c.Ok() && 1 <= size < c.SmallMin() && size <= c.MaxClass() && Pow2(a) > 0 && size % Pow2(a) == 0
    ensures 0 <= BinIndex(c, size) && RegSize(c, BinIndex(c, size)) % Pow2(a) == 0
  {
    hide Pow2, BinIndex;
    LeastClass(c, size);
    TinyBelowMax(c, size);
    TinyIndex(c, size);
    PowerAbove(TINY_MIN_2POW + BinIndex(c, size), a, size);
  }

  lemma QuantumRange(c: Config, size: nat)
    requires c.Ok() && c.SmallMin() <= size <= c.SmallMax() && 1 <= size <= c.MaxClass()
    ensures c.TinyBins() <= BinIndex(c, size) < c.TinyBins() + c.QuantumBins() && c.Quantum() > 0
    ensures RegSize(c, BinIndex(c, size)) == c.Quantum() * ((size + c.Quantum() - 1) / c.Quantum())
  {
    hide CeilLog2, Ffs;
    PowPositive(c.quantum2);
    PowAdd(c.quantum2, c.smallMax2 - c.quantum2);
    CeilDivide(size, c.Quantum());
    QuantaBound(size, c.Quantum(), (size + c.Quantum() - 1) / c.Quantum(), c.QuantumBins());
  }
}

/** The bit trick behind `pow2_ceil`, on numbers below 2^64. */
module PowerOfTwo {
  import opened Prelude
  import opened RunLayout
  import opened SizeClasses

  /** Bitwise or. */
  function Or(a: nat, b: nat): nat
    decreases a + b
  {
    if a == 0 && b == 0 then 0 else 2 * Or(a / 2, b / 2) + if a % 2 == 1 || b % 2 == 1 then 1 else 0
  }

  function ShiftRight(x: nat, k: nat): nat {
    PowPositive(k);
    Quot(x, Pow2(k))
  }

  /** Copy the highest set bit into every lower position. */
  function Smear(y: nat): nat {
    var x := Or(y, ShiftRight(y, 1));
    var x := Or(x, ShiftRight(x, 2));
    var x := Or(x, ShiftRight(x, 4));
    var x := Or(x, ShiftRight(x, 8));
    var x := Or(x, ShiftRight(x, 16));
    Or(x, ShiftRight(x, 32))
  }

  /** `pow2_ceil`, with wrap-around. */
  function Pow2Ceil(x: nat): nat
    requires 1 <= x
  {
    (Smear(x - 1) + 1) % TWO_64
  }

  lemma OrStep(a: nat, b: nat)
    ensures Or(a, b) == 2 * Or(a / 2, b / 2) + if a % 2 == 1 || b % 2 == 1 then 1 else 0
  {
  }

  lemma {:induction false} OrBelow(a: nat, b: nat, n: nat)
    requires a < Pow2(n) && b < Pow2(n)
    ensures Or(a, b) < Pow2(n)
    decreases n
  {
    if n > 0 {
      hide Or;
      OrBelow(a / 2, b / 2, n - 1);
      OrStep(a, b);
    }
  }

  lemma {:induction false} OrZero(a: nat)
    ensures Or(a, 0) == a
  {
    if a > 0 {
      OrZero(a / 2);
      OrStep(a, 0);
    }
  }

  lemma HalfParts(high: nat, low: nat, p: nat)
    requires 0 < p
    ensures high * (2 * p) >= 0 && (high * (2 * p) + low) / 2 == high * p + low / 2
    ensures (2 * p - 1) / 2 == p - 1 && (2 * p - 1) % 2 == 1 && high * (2 * p) == 2 * (high * p)
  {
    MulSign(high, p);
    assert high * (2 * p) == 2 * (high * p);
  }

  /** Oring with ones fills the low bits. */
  lemma {:induction false} OrOnes(high: nat, low: nat, n: nat)
    requires low < Pow2(n)
    ensures Pow2(n) > 0 && Or(high * Pow2(n) + low, Pow2(n) - 1) == high * Pow2(n) + Pow2(n) - 1
    decreases n
  {
    PowPositive(n);
    if n == 0 {
      OrZero(high);
    } else {
      hide Or, Pow2;
      Twice(n);
      PowPositive(n - 1);
      HalfParts(high, low, Pow2(n - 1));
      OrOnes(high, low / 2, n - 1);
      OrStep(high * Pow2(n) + low, Pow2(n) - 1);
    }
  }

  lemma Twice(e: nat)
    requires 0 < e
    ensures Pow2(e) == 2 * Pow2(e - 1)
  {
  }

  /** The low bits may be dropped. */
  lemma {:induction false} OrDrop(a: nat, b: nat, k: nat)
    ensures Or(a, b) >= Pow2(k) * Or(ShiftRight(a, k), ShiftRight(b, k))
    decreases k
  {
    if k > 0 {
      hide Or, Pow2, ShiftRight;
      OrDrop(a / 2, b / 2, k - 1);
      Twice(k);
      HalveShift(a, k);
      HalveShift(b, k);
      OrStep(a, b);
      DoubleFactor(Pow2(k - 1), Or(ShiftRight(a, k), ShiftRight(b, k)));
    }
  }

  lemma DoubleFactor(p: int, r: int)
    ensures (2 * p) * r == 2 * (p * r)
  {
  }

  lemma HalveShift(a: nat, k: nat)
    requires 0 < k
    ensures ShiftRight(a / 2, k - 1) == ShiftRight(a, k)
  {
    hide Pow2;
    PowPositive(k - 1);
    Twice(k);
    HalveThenDivide(a, Pow2(k - 1));
  }

  /** `y` has at most `n` bits, and the first `a` of them are ones. */
  ghost predicate TopOnes(y: nat, n: nat, a: nat) { a <= n && Pow2(n) - Pow2(n - a) <= y < Pow2(n) }

  /** The first ones of `y`, and the bits that follow. */
  lemma TopSplit(y: nat, n: nat, a: nat) returns (low: nat)
    requires TopOnes(y, n, a)
    ensures Pow2(a) > 0 && low < Pow2(n - a) && y == (Pow2(a) - 1) * Pow2(n - a) + low
  {
    PowPositive(a);
    PowAdd(a, n - a);
    low := y - (Pow2(n) - Pow2(n - a));
    Distribute(Pow2(a), -1, Pow2(n - a));
  }

  /** What is left after dropping all but the first `m` bits still starts with ones. */
  lemma TopDrop(y: nat, n: nat, a: nat, m: nat)
    requires TopOnes(y, n, a) && a <= m <= n
    ensures TopOnes(ShiftRight(y, n - m), m, a)
  {
    hide Pow2;
    var k := n - m;
    PowPositive(k);
    PowAdd(m, k);
    PowAdd(m - a, k);
    QuotBounds(y, Pow2(m) - Pow2(m - a), Pow2(m), Pow2(k));
    Distribute(Pow2(m), 0 - Pow2(m - a), Pow2(k));
    Negated(Pow2(m - a), Pow2(k));
  }

  lemma Negated(a: int, b: int)
    ensures (0 - a) * b == 0 - a * b
  {
  }

  lemma QuotBounds(y: nat, lo: int, hi: int, p: nat)
    requires 0 < p && lo * p <= y < hi * p
    ensures lo <= Quot(y, p) < hi
  {
    var q := y / p;
    assert y == p * q + y % p;
    assert q <= lo - 1 ==> p * q <= p * (lo - 1);
    assert q >= hi ==> p * q >= p * hi;
  }

  /** One step of the smearing doubles the number of ones at the top. */
  lemma SmearStep(y: nat, n: nat, s: nat)
    requires TopOnes(y, n, if s < n then s else n)
    ensures TopOnes(Or(y, ShiftRight(y, s)), n, if 2 * s < n then 2 * s else n)
  {
    hide Pow2, Or;
    PowPositive(s);
    if n <= s {
      PowMonotone(n, s);
      Decompose(0, y, Pow2(s));
      OrZero(y);
    } else {
      var c := if s <= n - s then s else n - s;
      Doubled(y, n, s, c);
      ShiftBelow(y, s);
      OrBelow(y, ShiftRight(y, s), n);
    }
  }

  lemma ShiftBelow(y: nat, k: nat)
    ensures ShiftRight(y, k) <= y
  {
    PowPositive(k);
    var p, q := Pow2(k), Quot(y, Pow2(k));
    assert y == p * q + y % p;
    MulMono(1, p, q);
  }

  lemma Doubled(y: nat, n: nat, s: nat, c: nat)
    requires s < n && TopOnes(y, n, s) && c == if s <= n - s then s else n - s
    ensures Pow2(n) - Pow2(n - (s + c)) <= Or(y, ShiftRight(y, s))
  {
    hide Pow2, Or, ShiftRight, TopOnes;
    var m := s + c;
    var k := n - m;
    // The first `m` bits of both operands.
    TopDrop(y, n, s, m);
    var low := TopSplit(ShiftRight(y, k), m, s);
    SecondOnes(y, n, s, c);
    OrOnes(Pow2(s) - 1, low, c);
    OrDrop(y, ShiftRight(y, s), k);
    PowAdd(s, c);
    PowAdd(m, k);
    PowOne();
    Filled(Pow2(s), Pow2(c), Pow2(k), Pow2(m), Pow2(n));
  }

  lemma Filled(s: int, c: int, k: int, m: int, n: int)
    requires m == s * c && n == m * k
    ensures k * ((s - 1) * c + c - 1) == n - k
  {
    Distribute(s, -1, c);
    assert k * (m - 1) == m * k - k;
  }

  lemma ShiftBounds(y: nat, lo: int, hi: int, k: nat)
    requires lo * Pow2(k) <= y < hi * Pow2(k)
    ensures lo <= ShiftRight(y, k) < hi
  {
    hide Pow2;
    PowPositive(k);
    QuotBounds(y, lo, hi, Pow2(k));
  }

  /** Of the shifted operand, those bits are all ones. */
  lemma SecondOnes(y: nat, n: nat, s: nat, c: nat)
    requires s < n && TopOnes(y, n, s) && c == if s <= n - s then s else n - s
    ensures ShiftRight(ShiftRight(y, s), n - (s + c)) == Pow2(c) - 1
  {
    hide Pow2, ShiftRight;
    ShiftTwice(y, s, n - (s + c));
    PowAdd(c, n - c);
    PowMonotone(n - s, n - c);
    Distribute(Pow2(c), -1, Pow2(n - c));
    ShiftBounds(y, Pow2(c) - 1, Pow2(c), n - c);
  }

  lemma {:induction false} ShiftTwice(y: nat, s: nat, k: nat)
    ensures ShiftRight(ShiftRight(y, s), k) == ShiftRight(y, s + k)
    decreases s
  {
    if s > 0 {
      hide ShiftRight;
      HalveShift(y, s);
      ShiftTwice(y / 2, s - 1, k);
      HalveShift(y, s + k);
    }
  }

  /** A number of `n` bits, `n` at most 64, is smeared to `n` ones. */
  lemma Smeared(y: nat, n: nat)
    requires y < Pow2(n) && n <= 64 && (n > 0 ==> Pow2(n - 1) <= y)
    ensures Smear(y) == Pow2(n) - 1
  {
    hide Or, ShiftRight;
    PowOne();
    assert n > 0 ==> Pow2(n) - Pow2(n - 1) == Pow2(n - 1);
    var x0 := y;
    SmearStep(x0, n, 1);
    var x1 := Or(x0, ShiftRight(x0, 1));
    SmearStep(x1, n, 2);
    var x2 := Or(x1, ShiftRight(x1, 2));
    SmearStep(x2, n, 4);
    var x3 := Or(x2, ShiftRight(x2, 4));
    SmearStep(x3, n, 8);
    var x4 := Or(x3, ShiftRight(x3, 8));
    SmearStep(x4, n, 16);
    var x5 := Or(x4, ShiftRight(x4, 16));
    SmearStep(x5, n, 32);
    assert TopOnes(Smear(y), n, n);
  }

  lemma WordPower()
    ensures Pow2(63) == 0x8000_0000_0000_0000 && Pow2(64) == TWO_64
  {
    hide Pow2;
    PowEight();
    PowAdd(8, 8);
    PowAdd(16, 16);
    PowAdd(32, 32);
    Twice(64);
  }

  lemma PowEight()
    ensures Pow2(8) == 256
  {
  }

  /** The trick computes the least power of two that is not below `x`, if that is a word. */
  lemma Pow2CeilLeast(x: nat)
    requires 1 <= x <= 0x8000_0000_0000_0000
    ensures Pow2Ceil(x) == Pow2(CeilLog2(x))
    ensures x <= Pow2Ceil(x) && (x > 1 ==> Pow2Ceil(x) < 2 * x)
  {
    hide Pow2, Smear;
    WordPower();
    LogAtMost(x, 63);
    var e := CeilLog2(x);
    PowMonotone(e, 63);
    if e > 0 { Twice(e); }
    if e == 0 { PowOne(); }
    Smeared(x - 1, e);
  }

  /** Beyond that it wraps around to 0. */
  lemma Pow2CeilWraps(x: nat)
    requires 0x8000_0000_0000_0000 < x < TWO_64
    ensures Pow2Ceil(x) == 0
  {
    hide Pow2, Smear;
    WordPower();
    Smeared(x - 1, 64);
  }
}
