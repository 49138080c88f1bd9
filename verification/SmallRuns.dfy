/**
  Small runs as values: their headers, which of them a bin's tree should hold, and
  the blocks that are live in an arena.
 */
module SmallRuns {
  import opened Prelude
  import opened PageMap
  import opened AvailRuns
  import R = Regions
  import opened RunLayout
  import opened SizeClasses

  type Headers = map<Page, R.Header>

  /** The fixed parameters of an arena: the size classes, the layout of each bin's runs,
      the size of a run header, and the platform's smallest quantum (base two). */
  datatype Setup = Setup(cfg: Config, bins: seq<R.Bin>, header: nat, quantumMin2: nat) {
    function PageBytes(): nat { cfg.PageSize() }
  }

  /** Pages of a run of bin `b`. */
  function RunPages(s: Setup, b: nat): int
    requires b < |s.bins|
  {
    PowPositive(s.cfg.page2);
    s.bins[b].runSize / s.PageBytes()
  }

  /** One bin is laid out as `arena_bin_run_size_calc` does it. */
  predicate BinOk(s: Setup, g: Geometry, b: nat)
    requires s.cfg.Ok() && b < |s.bins|
  {
    && s.bins[b].regSize == RegSize(s.cfg, b) && LayoutOk(s.bins[b], s.header)
    && s.bins[b].runSize <= RUN_MAX_SMALL
    && s.bins[b].runSize == RunPages(s, b) * s.PageBytes() && 0 < RunPages(s, b) <= g.MaxPages()
  }

  ghost predicate SetupOk(s: Setup, g: Geometry) {
    s.cfg.Ok() && 3 <= s.quantumMin2 <= s.cfg.quantum2 && |s.bins| == s.cfg.Bins()
        && forall b :: 0 <= b < |s.bins| ==> BinOk(s, g, b)
  }

  // ---------- laying out the bins ----------

  /** The bins laid out so far; the next run will not be smaller than `prev` bytes. */
  ghost predicate LaidOut(s: Setup, g: Geometry, prev: nat) {
    && s.cfg.Ok() && |s.bins| <= s.cfg.Bins() && (forall b :: 0 <= b < |s.bins| ==> BinOk(s, g, b))
    && 0 < s.PageBytes() && prev % s.PageBytes() == 0 && s.PageBytes() <= prev <= RUN_MAX_SMALL
       && prev <= g.MaxPages() * s.PageBytes()
    && (forall b :: 0 <= b < |s.bins| ==> s.bins[b].runSize <= prev) && RunsGrow(s)
    && prev == PrevRun(s, |s.bins|) && forall b :: 0 <= b < |s.bins| ==> Settled(s, g, b)
  }

  /** The run size from which the search for bin `i` starts: that of the bin before. */
  function PrevRun(s: Setup, i: nat): nat
    requires i <= |s.bins|
  {
    if i == 0 then s.PageBytes() else s.bins[i - 1].runSize
  }

  /** Bin `i` has the layout that the search settles on. */
  ghost predicate Settled(s: Setup, g: Geometry, i: nat)
    requires i < |s.bins|
  {
    0 <= g.MaxPages() && SettledOn(s.bins[i], s.header, s.PageBytes(), g.MaxPages() * s.PageBytes(), PrevRun(s, i))
  }

  /** Runs never shrink from bin to bin. */
  predicate RunsGrow(s: Setup) { forall i, j :: 0 <= i < j < |s.bins| ==> s.bins[i].runSize <= s.bins[j].runSize }

  /** Lay out the runs of the next bin. */
  method AddBin(s: Setup, ghost g: Geometry, regSize: nat, prev: nat, most: nat) returns (s': Setup, next: nat)
    requires LaidOut(s, g, prev) && |s.bins| < s.cfg.Bins() && regSize == RegSize(s.cfg, |s.bins|)
    requires s.header <= s.cfg.MaxClass() && g.Ok() && most == g.MaxPages() * s.PageBytes()
    ensures LaidOut(s', g, next) && |s'.bins| == |s.bins| + 1 && s' == s.(bins := s'.bins) && prev <= next
  {
    hide Pow2, RegSize, LayoutOk, SettledOn;
    ClassRange(s.cfg, |s.bins|);
    PowPositive(s.cfg.page2);
    TwoHalves(s.cfg.page2);
    var b := RunSizeCalc(regSize, prev, s.header, s.PageBytes(), most);
    s' := s.(bins := s.bins + [b]);
    next := b.runSize;
    PageCount(b.runSize, s.PageBytes(), g.MaxPages());
    assert BinOk(s', g, |s.bins|);
    forall i | 0 <= i < |s.bins|
      ensures BinOk(s', g, i)
    {
      assert BinOk(s, g, i);
    }
    forall i | 0 <= i < |s'.bins|
      ensures Settled(s', g, i)
    {
      if i < |s.bins| { assert Settled(s, g, i); }
    }
  }

  lemma TwoHalves(e: nat)
    requires 0 < e
    ensures Pow2(e) == Pow2(e - 1) + Pow2(e - 1)
  {
  }

  lemma PageCount(n: nat, w: nat, most: nat)
    requires 0 < w <= n <= most * w && n % w == 0
    ensures 0 < n / w <= most && n == (n / w) * w
  {
    var q := n / w;
    assert n == w * q;
    assert q >= most + 1 ==> w * q >= w * (most + 1);
  }

  /** The bins of `arena_new`: each run is at least as large as the runs of the bin before. */
  method LayOutBins(cfg: Config, header: nat, quantumMin2: nat, g: Geometry) returns (s: Setup)
    requires cfg.Ok() && 3 <= quantumMin2 <= cfg.quantum2 && g.Ok()
    requires header <= cfg.MaxClass() && cfg.PageSize() <= RUN_MAX_SMALL
    ensures SetupOk(s, g) && s == Setup(cfg, s.bins, header, quantumMin2) && RunsGrow(s)
    ensures forall i :: 0 <= i < |s.bins| ==> Settled(s, g, i)
  {
    hide Pow2, LaidOut, RegSize;
    s := Setup(cfg, [], header, quantumMin2);
    var prev, most := cfg.PageSize(), g.MaxPages() * cfg.PageSize();
    NoneYet(s, g);
    // Powers of two below the quantum.
    while |s.bins| < cfg.TinyBins()
      invariant |s.bins| <= cfg.TinyBins() && s == Setup(cfg, s.bins, header, quantumMin2) && LaidOut(s, g, prev)
    {
      ClassSize(cfg, |s.bins|);
      s, prev := AddBin(s, g, Pow2(TINY_MIN_2POW + |s.bins|), prev, most);
    }
    // Multiples of the quantum.
    while |s.bins| < cfg.TinyBins() + cfg.QuantumBins()
      invariant cfg.TinyBins() <= |s.bins| <= cfg.TinyBins() + cfg.QuantumBins()
      invariant s == Setup(cfg, s.bins, header, quantumMin2) && LaidOut(s, g, prev)
    {
      ClassSize(cfg, |s.bins|);
      s, prev := AddBin(s, g, cfg.Quantum() * (|s.bins| - cfg.TinyBins() + 1), prev, most);
    }
    // Powers of two above `small_max`.
    while |s.bins| < cfg.Bins()
      invariant cfg.TinyBins() + cfg.QuantumBins() <= |s.bins| <= cfg.Bins()
      invariant s == Setup(cfg, s.bins, header, quantumMin2) && LaidOut(s, g, prev)
    {
      ClassSize(cfg, |s.bins|);
      s, prev := AddBin(s, g, cfg.SmallMax() * Pow2(|s.bins| - (cfg.TinyBins() + cfg.QuantumBins()) + 1), prev, most);
    }
    AllLaidOut(s, g, prev);
  }

  lemma NoneYet(s: Setup, g: Geometry)
    requires s.cfg.Ok() && s.bins == [] && g.Ok() && s.PageBytes() <= RUN_MAX_SMALL
    ensures LaidOut(s, g, s.PageBytes())
  {
    hide Pow2;
    PowPositive(s.cfg.page2);
    MulMono(1, g.MaxPages(), s.PageBytes());
  }

  lemma AllLaidOut(s: Setup, g: Geometry, prev: nat)
    requires LaidOut(s, g, prev) && |s.bins| == s.cfg.Bins() && 3 <= s.quantumMin2 <= s.cfg.quantum2
    ensures SetupOk(s, g) && RunsGrow(s) && forall i :: 0 <= i < |s.bins| ==> Settled(s, g, i)
  {
    hide BinOk, Pow2, Settled;
  }

  lemma ClassSize(c: Config, i: nat)
    requires c.Ok()
    ensures i < c.TinyBins() ==> RegSize(c, i) == Pow2(TINY_MIN_2POW + i)
    ensures c.TinyBins() <= i < c.TinyBins() + c.QuantumBins() ==> RegSize(c, i) == c.Quantum() * (i - c.TinyBins() + 1)
    ensures c.TinyBins() + c.QuantumBins() <= i ==>
              RegSize(c, i) == c.SmallMax() * Pow2(i - (c.TinyBins() + c.QuantumBins()) + 1)
  {
    hide Pow2;
  }

  // ---------- size classes and the index computation ----------

  lemma {:induction false} PowIsPower(e: nat)
    ensures Pow2(e) > 0 && IsPower(Pow2(e))
  {
    PowPositive(e);
    if e > 0 { PowIsPower(e - 1); }
  }

  /** A class of `k` smallest quanta that is looked up in `size_invs` has an entry there. */
  lemma TableIndexInRange(k: nat, q: nat)
    requires 3 <= q && 1 <= k && !IsPower(k * Pow2(q)) && k * Pow2(q) <= InvEntries(q) * Pow2(q) + 2
    ensures 0 <= k - 3 < InvEntries(q)
  {
    hide Pow2, IsPower;
    PowIsPower(q);
    PowIsPower(q + 1);
    PowAdd(q, 1);
    PowSmall();
    PowMonotone(3, q);
    assert k >= 3;
    if k > InvEntries(q) {
      MulMono(InvEntries(q) + 1, k, Pow2(q));
      Distribute(InvEntries(q), 1, Pow2(q));
    }
  }

  /** Every size class is one that the division-free index computation handles. */
  lemma ClassIndexable(c: Config, i: nat, q: nat)
    requires c.Ok() && 3 <= q <= c.quantum2 && i < c.Bins()
    ensures var size := RegSize(c, i);
            IsPower(size) || (Pow2(q) > 0 && size % Pow2(q) == 0 && Pow2(q) <= size && 17 <= size)
  {
    var t, n := c.TinyBins(), c.QuantumBins();
    if i < t {
      PowIsPower(TINY_MIN_2POW + i);
    } else if i < t + n {
      QuantumIndexable(c.quantum2, i - t + 1, q);
    } else {
      PowAdd(c.smallMax2, i - (t + n) + 1);
      PowIsPower(c.smallMax2 + (i - (t + n) + 1));
    }
  }

  lemma QuantumIndexable(quantum2: nat, k: nat, q: nat)
    requires 3 <= q <= quantum2 && 1 <= k
    ensures var size := Pow2(quantum2) * k;
            IsPower(size) || (Pow2(q) > 0 && size % Pow2(q) == 0 && Pow2(q) <= size && 17 <= size)
  {
    hide Pow2;
    PowIsPower(quantum2);
    if k == 2 {
      PowAdd(quantum2, 1);
      PowIsPower(quantum2 + 1);
      PowSmall();
    } else if k > 2 {
      PowPositive(q);
      PowMonotone(q, quantum2);
      PowMonotone(3, q);
      PowSmall();
      PowAdd(quantum2 - q, q);
      PowPositive(quantum2 - q);
      MultipleTimes(Pow2(quantum2 - q), Pow2(q), k);
      MulMono(3, k, Pow2(quantum2));
    }
  }

  lemma PowSmall()
    ensures Pow2(1) == 2 && Pow2(3) == 8
  {
  }

  // ---------- headers and runs ----------

  /** The header of the run at `p` is consistent, and the run is not completely free. */
  ghost predicate RunOk(s: Setup, used: Runs, hdrs: Headers, p: Page)
    requires p in hdrs
  {
    && p in used && used[p].kind == Small && hdrs[p].bin < |s.bins|
    && R.HeaderOk(hdrs[p], s.bins[hdrs[p].bin]) && hdrs[p].nfree < s.bins[hdrs[p].bin].nregs
    && used[p].len == RunPages(s, hdrs[p].bin)
  }

  /** Exactly the small runs have headers. */
  ghost predicate HeadersOk(s: Setup, used: Runs, hdrs: Headers) {
    && (forall p :: p in hdrs ==> RunOk(s, used, hdrs, p))
    && (forall p :: p in used && used[p].kind == Small ==> p in hdrs)
  }

  // ---------- the tree of a bin ----------

  /** The runs that a bin's tree should hold: its non-full runs other than `runcur`. */
  ghost function NonFull(hdrs: Headers, cur: Option<Page>, b: nat): set<Page> {
    set p | p in hdrs && hdrs[p].bin == b && hdrs[p].nfree > 0 && cur != Some(p)
  }

  /** `runcur`, if set, is a run of the bin. */
  predicate CurOk(hdrs: Headers, cur: Option<Page>, b: nat) {
    cur.Some? ==> cur.value in hdrs && hdrs[cur.value].bin == b
  }

  ghost predicate PagesOnMap(g: Geometry, ps: set<Page>) {
    g.Ok() && forall p :: p in ps ==> OnMap(g, p)
  }

  /** Nodes of a tree ordered by address alone. */
  ghost function AddressKeys(g: Geometry, ps: set<Page>): set<int>
    requires PagesOnMap(g, ps)
  {
    set p | p in ps :: Key(g, 0, p)
  }

  lemma AddressKeyIn(g: Geometry, ps: set<Page>, p: Page)
    requires PagesOnMap(g, ps) && OnMap(g, p)
    ensures Key(g, 0, p) in AddressKeys(g, ps) <==> p in ps
  {
    if Key(g, 0, p) in AddressKeys(g, ps) {
      var q :| q in ps && Key(g, 0, q) == Key(g, 0, p);
      KeyOrder(g, 0, q, 0, p);
    }
  }

  lemma AddressKeysAdd(g: Geometry, ps: set<Page>, p: Page)
    requires PagesOnMap(g, ps) && OnMap(g, p)
    ensures PagesOnMap(g, ps + {p}) && AddressKeys(g, ps + {p}) == AddressKeys(g, ps) + {Key(g, 0, p)}
  {
  }

  lemma AddressKeysDrop(g: Geometry, ps: set<Page>, p: Page)
    requires PagesOnMap(g, ps) && OnMap(g, p)
    ensures PagesOnMap(g, ps - {p}) && AddressKeys(g, ps - {p}) == AddressKeys(g, ps) - {Key(g, 0, p)}
  {
    forall q | q in ps && q != p
      ensures Key(g, 0, q) != Key(g, 0, p)
    {
      KeyOrder(g, 0, q, 0, p);
    }
  }

  lemma AddressKeyPage(g: Geometry, ps: set<Page>, k: int)
    requires PagesOnMap(g, ps) && k in AddressKeys(g, ps)
    ensures PageOf(g, k) in ps && k == Key(g, 0, PageOf(g, k))
  {
    var p :| p in ps && Key(g, 0, p) == k;
    PageOfKey(g, 0, p);
  }

  // ---------- live blocks ----------

  /** An allocation: a large run, or one region of a small run. */
  datatype Block = LargeBlock(p: Page) | SmallBlock(p: Page, bin: nat, reg: nat)

  ghost predicate IsBlock(s: Setup, used: Runs, hdrs: Headers, x: Block) {
    match x
    case LargeBlock(p) => p in used && used[p].kind == Large
    case SmallBlock(p, b, i) =>
      p in hdrs && hdrs[p].bin == b < |s.bins| && i < s.bins[b].nregs && i !in R.FreeRegs(hdrs[p].mask)
  }

  /** What `arena_salloc` reports, in bytes. */
  function BlockSize(s: Setup, used: Runs, x: Block): int {
    match x
    case LargeBlock(p) => if p in used then used[p].len * s.PageBytes() else 0
    case SmallBlock(p, b, i) => if b < |s.bins| then s.bins[b].regSize else 0
  }

  /** The offset of a block from the start of its chunk, in bytes. */
  function BlockOffset(s: Setup, x: Block): int {
    match x
    case LargeBlock(p) => p.ind * s.PageBytes()
    case SmallBlock(p, b, i) =>
      if b < |s.bins| then p.ind * s.PageBytes() + s.bins[b].reg0 + i * s.bins[b].regSize else 0
  }

  /** Two blocks share no byte. */
  predicate Disjoint(s: Setup, used: Runs, x: Block, y: Block) {
    || x.p.chunk != y.p.chunk
    || BlockOffset(s, x) + BlockSize(s, used, x) <= BlockOffset(s, y)
    || BlockOffset(s, y) + BlockSize(s, used, y) <= BlockOffset(s, x)
  }

  /** A block lies inside the pages of its run; a small one behind the run header. */
  lemma BlockInRun(s: Setup, g: Geometry, used: Runs, hdrs: Headers, x: Block)
    requires SetupOk(s, g) && HeadersOk(s, used, hdrs) && IsBlock(s, used, hdrs, x)
    ensures x.p in used
    ensures x.p.ind * s.PageBytes() <= BlockOffset(s, x)
    ensures BlockOffset(s, x) + BlockSize(s, used, x) <= (x.p.ind + used[x.p].len) * s.PageBytes()
    ensures x.SmallBlock? ==> x.p.ind * s.PageBytes() + s.header <= BlockOffset(s, x)
    ensures 0 < BlockSize(s, used, x) || x.LargeBlock?
  {
    hide R.FreeRegs, R.HeaderOk, Pow2, RegSize;
    var p := x.p;
    if x.SmallBlock? {
      assert RunOk(s, used, hdrs, p);
      var bi := hdrs[p].bin;
      assert BinOk(s, g, bi);
      var b := s.bins[bi];
      Distribute(p.ind, used[p].len, s.PageBytes());
      MulSign(x.reg, b.regSize);
      RegionEnds(b, s.header, x.reg);
    } else {
      Distribute(p.ind, used[p].len, s.PageBytes());
    }
  }

  lemma RegionEnds(b: R.Bin, header: nat, i: nat)
    requires LayoutOk(b, header) && i < b.nregs
    ensures b.reg0 + i * b.regSize + b.regSize <= b.runSize && header <= b.reg0 && 0 < b.regSize
  {
    Distribute(i, 1, b.regSize);
    MulMono(i + 1, b.nregs, b.regSize);
  }

  /** Any two live blocks occupy disjoint ranges. */
  lemma BlocksDisjoint(s: Setup, g: Geometry, used: Runs, hdrs: Headers, x: Block, y: Block)
    requires SetupOk(s, g) && HeadersOk(s, used, hdrs) && Apart(used)
    requires IsBlock(s, used, hdrs, x) && IsBlock(s, used, hdrs, y) && x != y
    requires forall p :: p in used ==> 0 < used[p].len
    ensures Disjoint(s, used, x, y)
  {
    hide R.FreeRegs, R.HeaderOk, SetupOk, HeadersOk, Pow2, BlockOffset, BlockSize;
    BlockInRun(s, g, used, hdrs, x);
    BlockInRun(s, g, used, hdrs, y);
    if x.p.chunk == y.p.chunk {
      if x.p == y.p {
        SameRun(s, used, hdrs, x, y);
      } else if x.p.ind < y.p.ind {
        assert x.p.ind + used[x.p].len <= y.p.ind;
        MulMono(x.p.ind + used[x.p].len, y.p.ind, s.PageBytes());
      } else {
        assert y.p.ind + used[y.p].len <= x.p.ind;
        MulMono(y.p.ind + used[y.p].len, x.p.ind, s.PageBytes());
      }
    }
  }

  lemma SameRun(s: Setup, used: Runs, hdrs: Headers, x: Block, y: Block)
    requires HeadersOk(s, used, hdrs) && IsBlock(s, used, hdrs, x) && IsBlock(s, used, hdrs, y)
    requires x != y && x.p == y.p
    ensures Disjoint(s, used, x, y)
  {
    hide R.FreeRegs, R.HeaderOk, Pow2;
    assert x.SmallBlock? ==> RunOk(s, used, hdrs, x.p);
    assert y.SmallBlock? ==> RunOk(s, used, hdrs, y.p);
    assert x.SmallBlock? && y.SmallBlock?;
    var size := s.bins[hdrs[x.p].bin].regSize;
    if x.reg < y.reg {
      Distribute(x.reg, 1, size);
      MulMono(x.reg + 1, y.reg, size);
    } else {
      Distribute(y.reg, 1, size);
      MulMono(y.reg + 1, x.reg, size);
    }
  }

  // ---------- steps ----------

  ghost predicate BinState(g: Geometry, hdrs: Headers, cur: Option<Page>, tree: set<int>, b: nat) {
    CurOk(hdrs, cur, b) && PagesOnMap(g, NonFull(hdrs, cur, b)) && tree == AddressKeys(g, NonFull(hdrs, cur, b))
  }

  /** Pages needed for `size` bytes. */
  function CeilPages(s: Setup, size: nat): nat {
    PowPositive(s.cfg.page2);
    (size + s.PageBytes() - 1) / s.PageBytes()
  }

  lemma CeilPagesBounds(s: Setup, size: nat)
    requires 1 <= size
    ensures 1 <= CeilPages(s, size)
    ensures (CeilPages(s, size) - 1) * s.PageBytes() < size <= CeilPages(s, size) * s.PageBytes()
  {
    hide Pow2;
    PowPositive(s.cfg.page2);
    CeilDivide(size, s.PageBytes());
  }

  /** Bin `b` is the one that serves `size` bytes. */
  predicate Served(s: Setup, b: nat, size: int) {
    s.cfg.Ok() && 1 <= size <= s.cfg.MaxClass() && BinIndex(s.cfg, size) == b
  }

  /** The block is no larger than the request needs: a region of the least sufficient class, or
      the least number of pages. */
  predicate Snug(s: Setup, used: Runs, x: Block, size: int) {
    match x
    case LargeBlock(p) => 1 <= size && p in used && used[p].len == CeilPages(s, size)
    case SmallBlock(p, b, i) => Served(s, b, size)
  }

  /** The usable size of a region or of whole pages for `size` bytes. */
  function UsableOf(s: Setup, small: bool, size: int): int {
    if !small then (if 1 <= size then CeilPages(s, size) * s.PageBytes() else 0)
    else if s.cfg.Ok() && 1 <= size <= s.cfg.MaxClass() && BinIndex(s.cfg, size) >= 0 then
      RegSize(s.cfg, BinIndex(s.cfg, size))
    else 0
  }

  /** What `size` bytes get. */
  function UsableFor(s: Setup, size: int): int { UsableOf(s, s.cfg.Ok() && size <= s.cfg.MaxClass(), size) }

  /** The usable size of a block is the least that is not below its request. */
  lemma SnugSize(s: Setup, g: Geometry, used: Runs, x: Block, size: int)
    requires SetupOk(s, g) && Snug(s, used, x, size) && (x.SmallBlock? ==> x.bin < |s.bins|)
    ensures 1 <= size <= BlockSize(s, used, x) && BlockSize(s, used, x) == UsableOf(s, x.SmallBlock?, size)
    ensures x.LargeBlock? ==> BlockSize(s, used, x) - s.PageBytes() < size
    ensures x.SmallBlock? ==>
              forall j: nat :: j < s.cfg.Bins() && size <= RegSize(s.cfg, j) ==>
                BlockSize(s, used, x) <= RegSize(s.cfg, j)
  {
    hide Pow2, BinIndex, RegSize;
    match x
    case LargeBlock(p) =>
      CeilPagesBounds(s, size);
      Distribute(CeilPages(s, size), -1, s.PageBytes());
    case SmallBlock(p, b, i) =>
      assert BinOk(s, g, b);
      LeastClass(s.cfg, size);
  }

  /** Every block is snug for its request; nothing else is live. */
  ghost predicate LiveOk(s: Setup, used: Runs, hdrs: Headers, live: map<Block, int>) {
    forall x :: Recorded(s, used, hdrs, live, x)
  }

  ghost predicate Recorded(s: Setup, used: Runs, hdrs: Headers, live: map<Block, int>, x: Block) {
    && (x in live <==> IsBlock(s, used, hdrs, x))
    && (x in live ==> Snug(s, used, x, live[x]))
  }

  /** `h'` is `h` with region `r` handed out. */
  ghost predicate Taken(h: R.Header, h': R.Header, b: R.Bin, r: nat) {
    && R.HeaderOk(h', b) && h'.bin == h.bin && h'.nfree == h.nfree - 1
    && r < b.nregs && r in R.FreeRegs(h.mask) && R.FreeRegs(h'.mask) == R.FreeRegs(h.mask) - {r}
  }

  ghost predicate Returned(h: R.Header, h': R.Header, b: R.Bin, r: nat) {
    && R.HeaderOk(h', b) && h'.bin == h.bin && h'.nfree == h.nfree + 1
    && r < b.nregs && r !in R.FreeRegs(h.mask) && R.FreeRegs(h'.mask) == R.FreeRegs(h.mask) + {r}
  }

  /** The header of one run was replaced by a consistent one of the same bin. */
  lemma HeaderReplaced(s: Setup, used: Runs, hdrs: Headers, p: Page, h: R.Header)
    requires HeadersOk(s, used, hdrs) && p in used && used[p].kind == Small
    requires h.bin < |s.bins| && R.HeaderOk(h, s.bins[h.bin]) && h.nfree < s.bins[h.bin].nregs
    requires used[p].len == RunPages(s, h.bin)
    ensures HeadersOk(s, used, hdrs[p := h])
  {
    hide R.HeaderOk, RunPages;
    var hdrs' := hdrs[p := h];
    forall q | q in hdrs'
      ensures RunOk(s, used, hdrs', q)
    {
      if q != p { assert RunOk(s, used, hdrs, q); }
    }
  }

  /** Only runs that are not small changed. */
  lemma LargeChanged(s: Setup, used: Runs, used': Runs, hdrs: Headers)
    requires HeadersOk(s, used, hdrs)
    requires forall p :: p in used' && used'[p].kind == Small ==> p in used && used[p] == used'[p]
    requires forall p :: p in used && used[p].kind == Small ==> p in used' && used[p] == used'[p]
    ensures HeadersOk(s, used', hdrs)
  {
    hide R.HeaderOk, RunPages;
    forall q | q in hdrs
      ensures RunOk(s, used', hdrs, q)
    {
      assert RunOk(s, used, hdrs, q);
    }
  }

  lemma RunAdded(s: Setup, used: Runs, hdrs: Headers, p: Page, run: Run, h: R.Header)
    requires HeadersOk(s, used, hdrs) && p !in used && run.kind == Small
    requires h.bin < |s.bins| && R.HeaderOk(h, s.bins[h.bin]) && h.nfree < s.bins[h.bin].nregs
    requires run.len == RunPages(s, h.bin)
    ensures HeadersOk(s, used[p := run], hdrs[p := h])
  {
    hide R.HeaderOk, RunPages;
    var used', hdrs' := used[p := run], hdrs[p := h];
    forall q | q in hdrs'
      ensures RunOk(s, used', hdrs', q)
    {
      if q != p { assert RunOk(s, used, hdrs, q); }
    }
  }

  lemma RunDropped(s: Setup, used: Runs, hdrs: Headers, p: Page)
    requires HeadersOk(s, used, hdrs)
    ensures HeadersOk(s, used - {p}, hdrs - {p})
  {
    hide R.HeaderOk, RunPages;
    var used', hdrs' := used - {p}, hdrs - {p};
    forall q | q in hdrs'
      ensures RunOk(s, used', hdrs', q)
    {
      assert RunOk(s, used, hdrs, q);
    }
  }

  /** A region of an existing run was handed out. */
  lemma LiveTaken(s: Setup, used: Runs, hdrs: Headers, live: map<Block, int>, p: Page, h: R.Header, r: nat, size: int)
    requires LiveOk(s, used, hdrs, live) && p in hdrs && hdrs[p].bin < |s.bins|
    requires Taken(hdrs[p], h, s.bins[hdrs[p].bin], r) && Served(s, hdrs[p].bin, size)
    ensures SmallBlock(p, hdrs[p].bin, r) !in live
    ensures LiveOk(s, used, hdrs[p := h], live[SmallBlock(p, hdrs[p].bin, r) := size])
  {
    hide R.HeaderOk, R.FreeRegs, Served;
    assert Recorded(s, used, hdrs, live, SmallBlock(p, hdrs[p].bin, r));
    var hdrs', live' := hdrs[p := h], live[SmallBlock(p, hdrs[p].bin, r) := size];
    forall x
      ensures Recorded(s, used, hdrs', live', x)
    {
      assert Recorded(s, used, hdrs, live, x);
    }
  }

  /** A region of a new run was handed out. */
  lemma LiveNewRun(s: Setup, used: Runs, hdrs: Headers, live: map<Block, int>, p: Page, run: Run, h0: R.Header,
                   h: R.Header, r: nat, size: int)
    requires LiveOk(s, used, hdrs, live) && p !in hdrs && p !in used && run.kind == Small && h0.bin < |s.bins|
    requires R.FreeRegs(h0.mask) == R.UpTo(s.bins[h0.bin].nregs)
    requires Taken(h0, h, s.bins[h0.bin], r) && Served(s, h0.bin, size)
    ensures SmallBlock(p, h0.bin, r) !in live
    ensures LiveOk(s, used[p := run], hdrs[p := h], live[SmallBlock(p, h0.bin, r) := size])
  {
    hide R.HeaderOk, R.FreeRegs, Served;
    assert Recorded(s, used, hdrs, live, SmallBlock(p, h0.bin, r));
    var used', hdrs', live' := used[p := run], hdrs[p := h], live[SmallBlock(p, h0.bin, r) := size];
    forall x
      ensures Recorded(s, used', hdrs', live', x)
    {
      assert Recorded(s, used, hdrs, live, x);
    }
  }

  lemma LiveReturned(s: Setup, used: Runs, hdrs: Headers, live: map<Block, int>, p: Page, h: R.Header, r: nat)
    requires LiveOk(s, used, hdrs, live) && p in hdrs && hdrs[p].bin < |s.bins|
    requires Returned(hdrs[p], h, s.bins[hdrs[p].bin], r)
    ensures LiveOk(s, used, hdrs[p := h], live - {SmallBlock(p, hdrs[p].bin, r)})
  {
    hide R.HeaderOk, R.FreeRegs, Served;
    var hdrs', live' := hdrs[p := h], live - {SmallBlock(p, hdrs[p].bin, r)};
    forall x
      ensures Recorded(s, used, hdrs', live', x)
    {
      assert Recorded(s, used, hdrs, live, x);
    }
  }

  /** The last live region of a run was returned, and the run with it. */
  lemma LiveRunGone(s: Setup, used: Runs, hdrs: Headers, live: map<Block, int>, p: Page, h: R.Header, r: nat)
    requires LiveOk(s, used, hdrs, live) && p in hdrs && hdrs[p].bin < |s.bins| && p in used && used[p].kind == Small
    requires Returned(hdrs[p], h, s.bins[hdrs[p].bin], r) && h.nfree == s.bins[hdrs[p].bin].nregs
    ensures LiveOk(s, used - {p}, hdrs - {p}, live - {SmallBlock(p, hdrs[p].bin, r)})
  {
    AllFree(h, s.bins[hdrs[p].bin]);
    LiveRunGone'(s, used, hdrs, live, p, h, r);
  }

  lemma LiveRunGone'(s: Setup, used: Runs, hdrs: Headers, live: map<Block, int>, p: Page, h: R.Header, r: nat)
    requires LiveOk(s, used, hdrs, live) && p in hdrs && hdrs[p].bin < |s.bins| && p in used && used[p].kind == Small
    requires Returned(hdrs[p], h, s.bins[hdrs[p].bin], r)
    requires forall i: nat :: i < s.bins[hdrs[p].bin].nregs ==> i in R.FreeRegs(h.mask)
    ensures LiveOk(s, used - {p}, hdrs - {p}, live - {SmallBlock(p, hdrs[p].bin, r)})
  {
    hide R.HeaderOk, R.FreeRegs, Served;
    var used', hdrs', live' := used - {p}, hdrs - {p}, live - {SmallBlock(p, hdrs[p].bin, r)};
    forall x
      ensures Recorded(s, used', hdrs', live', x)
    {
      assert Recorded(s, used, hdrs, live, x);
    }
  }

  lemma AllFree(h: R.Header, b: R.Bin)
    requires R.HeaderOk(h, b) && h.nfree == b.nregs
    ensures forall i: nat :: i < b.nregs ==> i in R.FreeRegs(h.mask)
  {
    SubsetFull(R.FreeRegs(h.mask), b.nregs);
  }

  lemma NfreeBound(h: R.Header, b: R.Bin)
    requires R.HeaderOk(h, b)
    ensures h.nfree <= b.nregs
  {
    SubsetSmall(R.FreeRegs(h.mask), b.nregs);
  }

  lemma {:induction false} SubsetFull(xs: set<nat>, n: nat)
    requires |xs| == n && forall i :: i in xs ==> i < n
    ensures xs == R.UpTo(n)
    decreases n
  {
    if n > 0 {
      if n - 1 !in xs {
        SubsetSmall(xs, n - 1);
      }
      SubsetFull(xs - {n - 1}, n - 1);
    }
  }

  lemma {:induction false} SubsetSmall(xs: set<nat>, n: nat)
    requires forall i :: i in xs ==> i < n
    ensures |xs| <= n
    decreases n
  {
    if n > 0 { SubsetSmall(xs - {n - 1}, n - 1); }
  }

  /** A large run was allocated, resized or freed. */
  lemma LiveLarge(s: Setup, used: Runs, used': Runs, hdrs: Headers, live: map<Block, int>, live': map<Block,
      int>, p: Page)
    requires LiveOk(s, used, hdrs, live)
    requires forall q :: q != p ==> (q in used <==> q in used') && (q in used ==> used'[q] == used[q])
    requires forall x :: x != LargeBlock(p) ==> (x in live <==> x in live') && (x in live ==> live'[x] == live[x])
    requires LargeBlock(p) in live' <==> p in used' && used'[p].kind == Large
    requires LargeBlock(p) in live' ==> Snug(s, used', LargeBlock(p), live'[LargeBlock(p)])
    ensures LiveOk(s, used', hdrs, live')
  {
    hide R.FreeRegs, Served, CeilPages;
    forall x
      ensures Recorded(s, used', hdrs, live', x)
    {
      assert Recorded(s, used, hdrs, live, x);
    }
  }

  /** A bin does not notice changes to runs of other bins. */
  lemma OtherBin(g: Geometry, hdrs: Headers, hdrs': Headers, cur: Option<Page>, tree: set<int>, p: Page, c: nat)
    requires BinState(g, hdrs, cur, tree, c)
    requires p in hdrs && hdrs[p].bin != c
    requires forall q :: q != p ==> (q in hdrs <==> q in hdrs') && (q in hdrs ==> hdrs'[q] == hdrs[q])
    requires p in hdrs' ==> hdrs'[p].bin != c
    ensures BinState(g, hdrs', cur, tree, c)
  {
    hide AddressKeys, PagesOnMap;
    assert NonFull(hdrs', cur, c) == NonFull(hdrs, cur, c);
  }

  /** The run `q` joins the nodes of the tree. */
  lemma JoinsTree(g: Geometry, hdrs: Headers, hdrs': Headers, cur: Option<Page>, cur': Option<Page>, tree: set<int>,
                  q: Page, b: nat)
    requires BinState(g, hdrs, cur, tree, b) && OnMap(g, q) && CurOk(hdrs', cur', b)
    requires NonFull(hdrs', cur', b) == NonFull(hdrs, cur, b) + {q} && q !in NonFull(hdrs, cur, b)
    ensures Key(g, 0, q) !in tree && BinState(g, hdrs', cur', tree + {Key(g, 0, q)}, b)
  {
    hide AddressKeys, Key;
    AddressKeysAdd(g, NonFull(hdrs, cur, b), q);
    AddressKeyIn(g, NonFull(hdrs, cur, b), q);
  }

  /** The run `q` leaves the nodes of the tree. */
  lemma LeavesTree(g: Geometry, hdrs: Headers, hdrs': Headers, cur: Option<Page>, cur': Option<Page>, tree: set<int>,
                   q: Page, b: nat)
    requires BinState(g, hdrs, cur, tree, b) && OnMap(g, q) && CurOk(hdrs', cur', b)
    requires NonFull(hdrs', cur', b) == NonFull(hdrs, cur, b) - {q} && q in NonFull(hdrs, cur, b)
    ensures Key(g, 0, q) in tree && BinState(g, hdrs', cur', tree - {Key(g, 0, q)}, b)
  {
    hide AddressKeys, Key;
    AddressKeysDrop(g, NonFull(hdrs, cur, b), q);
    AddressKeyIn(g, NonFull(hdrs, cur, b), q);
  }

  /** The set of runs in the tree stays the same. */
  lemma KeepsTree(g: Geometry, hdrs: Headers, hdrs': Headers, cur: Option<Page>, cur': Option<Page>,
      tree: set<int>, b: nat)
    requires BinState(g, hdrs, cur, tree, b) && CurOk(hdrs', cur', b)
    requires NonFull(hdrs', cur', b) == NonFull(hdrs, cur, b)
    ensures BinState(g, hdrs', cur', tree, b)
  {
    hide AddressKeys, PagesOnMap;
  }
}
