/**
  An arena of `libs/jemalloc/jemalloc.c`: small requests are served from the runs
  of a bin, large ones by whole runs of pages.
 */
module Arenas {
  import opened Prelude
  import opened PageMap
  import opened AvailRuns
  import opened DirtyPages
  import opened PageState
  import opened PageArenas
  import opened RbTrees
  import R = Regions
  import opened RunLayout
  import opened SizeClasses
  import opened SmallRuns
  import opened LowestRun

  /** An address: a chunk and a byte offset in it. */
  datatype Ptr = Ptr(chunk: int, off: int)

  class Arena {
    const s: Setup
    const pages: PageArena
    /** The trees of non-full runs, one per bin. */
    const trees: seq<RbTree>
    var runcur: seq<Option<Page>>
    var hdrs: Headers
    /** The live blocks, with the sizes that were requested. */
    ghost var live: map<Block, int>

    ghost predicate Separate()
      reads this
    {
      && |trees| == |runcur| == |s.bins|
      && (forall i, j :: 0 <= i < j < |trees| ==> trees[i] != trees[j])
      && (forall i :: 0 <= i < |trees| ==> trees[i] != pages.runsAvail && trees[i] != pages.chunksDirty)
    }

    ghost predicate BinsOk()
      requires Separate()
      reads this, trees
    {
      forall b :: 0 <= b < |trees| ==>
        trees[b].Valid() && BinState(pages.geo, hdrs, runcur[b], trees[b].Contents(), b)
    }

    ghost function Used(): Runs
      reads pages
    {
      InUse(pages.runs)
    }

    /** The invariant, for headers and blocks that still refer to the allocated runs `used`. */
    ghost predicate ValidFor(used: Runs)
      reads this, pages, pages.runsAvail, pages.chunksDirty, trees
    {
      && Separate() && pages.Valid() && 0 <= pages.ndirty <= pages.dirtyMax
      && SetupOk(s, pages.geo) && HeadersOk(s, used, hdrs) && BinsOk() && LiveOk(s, used, hdrs, live)
    }

    ghost predicate Valid()
      reads this, pages, pages.runsAvail, pages.chunksDirty, trees
    {
      ValidFor(Used())
    }

    static function Supplied(c: Option<int>): set<int> { if c.Some? then {c.value} else {} }

    function PtrOf(x: Block): Ptr
    {
      Ptr(x.p.chunk, BlockOffset(s, x))
    }

    constructor (setup: Setup, g: Geometry, dirtyMax: int)
      requires g.Ok() && SetupOk(setup, g) && 0 <= dirtyMax
      ensures Valid() && live == map[] && s == setup && pages.geo == g && pages.dirtyMax == dirtyMax
    {
      hide RbTree.Valid, RbTree.Contents, PageArena.Valid, SetupOk;
      var pg := new PageArena(g, dirtyMax);
      var ts: seq<RbTree> := [];
      while |ts| < |setup.bins|
        invariant |ts| <= |setup.bins|
        invariant forall i :: 0 <= i < |ts| ==> fresh(ts[i]) && ts[i].Valid() && ts[i].Contents() == {}
        invariant forall i, j :: 0 <= i < j < |ts| ==> ts[i] != ts[j]
        invariant forall i :: 0 <= i < |ts| ==> ts[i] != pg.runsAvail && ts[i] != pg.chunksDirty
        invariant pg.Valid() && pg.geo == g && pg.dirtyMax == dirtyMax && pg.ndirty == 0
        invariant pg.runs == map[]
      {
        var t := new RbTree();
        ts := ts + [t];
      }
      s := setup;
      pages := pg;
      trees := ts;
      runcur := seq(|setup.bins|, i => None);
      hdrs := map[];
      live := map[];
    }

    // ---------- what the invariant says of one bin, one run, one block ----------

    lemma BinAt(b: nat)
      requires Valid() && b < |s.bins|
      ensures trees[b].Valid() && BinState(pages.geo, hdrs, runcur[b], trees[b].Contents(), b) && BinOk(s, pages.geo, b)
      ensures pages.geo.Ok() && CurOk(hdrs, runcur[b], b)
    {
      hide R.HeaderOk, R.FreeRegs, RbTree.Valid, RbTree.Contents, BinOk, InUse, NonFull, AddressKeys;
      hide PagesOnMap, LiveOk, HeadersOk, Whole;
      pages.ValidGeo();
    }

    lemma Ready()
      requires Valid()
      ensures s.cfg.Ok()
    {
      hide RbTree.Valid, RbTree.Contents, BinsOk, PageArena.Valid, LiveOk, HeadersOk, InUse;
    }

    lemma RunAt(p: Page)
      requires Valid() && p in hdrs
      ensures RunOk(s, Used(), hdrs, p) && OnMap(pages.geo, p)
    {
      hide R.HeaderOk, R.FreeRegs, RbTree.Valid, RbTree.Contents, BinOk, BinState, LiveOk, Mapped, Tiled;
      hide CoalescedBut, BinsOk;
      assert RunOk(s, Used(), hdrs, p);
      assert p in pages.runs;
    }

    /** `arena_bin_malloc_easy`: the bin's current run has space. */
    method MallocEasy(b: nat, ghost size: int) returns (r: Ptr, ghost x: Block)
      requires Valid() && b < |s.bins| && runcur[b].Some? && runcur[b].value in hdrs && hdrs[runcur[b].value].nfree > 0
      requires Served(s, b, size)
      modifies this`hdrs, this`live
      ensures Valid() && x !in old(live) && live == old(live)[x := size] && r == PtrOf(x) && x.SmallBlock? && x.bin == b
      ensures x.p == runcur[b].value && LeastFree(old(hdrs), x)
      ensures old(Lowest(hdrs, runcur[b], b)) ==>
                (Lowest(hdrs, runcur[b], b) <==> !old(TakeLoses(hdrs, runcur[b].value, b)))
    {
      hide R.HeaderOk, R.FreeRegs, RbTree.Valid, RbTree.Contents, BinOk, AddressKeys, InUse, PagesOnMap;
      hide HeadersOk, LiveOk;
      hide Whole, Lowest, TakeLoses;
      var p := runcur[b].value;
      BinAt(b);
      RunAt(p);
      var h, i := R.RegAlloc(hdrs[p], s.bins[b]);
      x := SmallBlock(p, b, i);
      RegionBound(hdrs[p], s.bins[b], i);
      LiveTaken(s, Used(), hdrs, live, p, h, i, size);
      HeaderReplaced(s, Used(), hdrs, p, h);
      CurUpdated(p, h, b);
      if Lowest(hdrs, runcur[b], b) { TakeKeeps(hdrs, p, h, b); }
      hdrs := hdrs[p := h];
      live := live[x := size];
      r := Ptr(p.chunk, p.ind * s.PageBytes() + s.bins[b].reg0 + i * s.bins[b].regSize);
    }

    /** `x` is the lowest free region of its run. */
    static ghost predicate LeastFree(hdrs: Headers, x: Block) {
      && x.SmallBlock? && x.p in hdrs && x.reg in R.FreeRegs(hdrs[x.p].mask)
      && forall i :: i in R.FreeRegs(hdrs[x.p].mask) ==> x.reg <= i
    }

    /** From which run of bin `b` a region is taken: the current one, else the lowest with a
        free region, else a new one. */
    static ghost predicate TakenFrom(g: Geometry, hdrs: Headers, cur: Option<Page>, b: nat, x: Block) {
      if cur.Some? && cur.value in hdrs && hdrs[cur.value].nfree > 0 then x.p == cur.value && LeastFree(hdrs, x)
      else if NonFull(hdrs, cur, b) != {} then
        && x.p in NonFull(hdrs, cur, b) && LeastFree(hdrs, x)
        && forall q :: q in NonFull(hdrs, cur, b) ==> x.p == q || Before(x.p, q)
      else x.SmallBlock? && x.p !in hdrs && x.reg == 0
    }

    static lemma RegionBound(h: R.Header, b: R.Bin, i: nat)
      requires R.HeaderOk(h, b) && i in R.FreeRegs(h.mask)
      ensures i < b.nregs
    {
    }

    /** The header of a current run may change without touching any tree. */
    lemma CurUpdated(p: Page, h: R.Header, b: nat)
      requires Separate() && b < |trees| && p in hdrs && runcur[b] == Some(p) && hdrs[p].bin == b && h.bin == b
      requires forall c :: 0 <= c < |trees| ==> BinState(pages.geo, hdrs, runcur[c], trees[c].Contents(), c)
      ensures forall c :: 0 <= c < |trees| ==> BinState(pages.geo, hdrs[p := h], runcur[c], trees[c].Contents(), c)
    {
      hide RbTree.Contents, AddressKeys, PagesOnMap;
      forall c | 0 <= c < |trees|
        ensures BinState(pages.geo, hdrs[p := h], runcur[c], trees[c].Contents(), c)
      {
        assert BinState(pages.geo, hdrs, runcur[c], trees[c].Contents(), c);
        assert NonFull(hdrs[p := h], runcur[c], c) == NonFull(hdrs, runcur[c], c);
      }
    }

    /** Some run of bin `b` has a free region. */
    ghost predicate HasSpace(b: int)
      reads this
    {
      0 <= b < |runcur| && (!Exhausted(b) || NonFull(hdrs, runcur[b], b) != {})
    }

    /** The current run of bin `b` is missing or full. */
    predicate Exhausted(b: nat)
      reads this
    {
      b < |runcur| && (runcur[b].Some? ==> runcur[b].value in hdrs && hdrs[runcur[b].value].nfree == 0)
    }

    /** A full run may stop being current without touching any tree. */
    lemma CurDropped(b: nat)
      requires Separate() && b < |trees| && Exhausted(b)
      requires forall c :: 0 <= c < |trees| ==> BinState(pages.geo, hdrs, runcur[c], trees[c].Contents(), c)
      ensures forall c :: 0 <= c < |trees| ==> BinState(pages.geo, hdrs, runcur[b := None][c], trees[c].Contents(), c)
    {
      hide RbTree.Contents, AddressKeys, PagesOnMap;
      assert NonFull(hdrs, None, b) == NonFull(hdrs, runcur[b], b);
    }

    /** A non-full run leaves the tree when it becomes current. */
    lemma CurChosen(b: nat, p: Page)
      requires Separate() && b < |trees| && Exhausted(b) && p in NonFull(hdrs, runcur[b], b) && OnMap(pages.geo, p)
      requires BinState(pages.geo, hdrs, runcur[b], trees[b].Contents(), b)
      ensures Key(pages.geo, 0, p) in trees[b].Contents()
      ensures BinState(pages.geo, hdrs, Some(p), trees[b].Contents() - {Key(pages.geo, 0, p)}, b)
    {
      hide RbTree.Contents, AddressKeys;
      assert NonFull(hdrs, Some(p), b) == NonFull(hdrs, runcur[b], b) - {p};
      AddressKeysDrop(pages.geo, NonFull(hdrs, runcur[b], b), p);
      AddressKeyIn(pages.geo, NonFull(hdrs, runcur[b], b), p);
    }

    /** A run that has just been created and is current is in no tree. */
    lemma CurNew(b: nat, p: Page, h: R.Header)
      requires Separate() && b < |trees| && Exhausted(b) && p !in hdrs && h.bin == b
      requires forall c :: 0 <= c < |trees| ==> BinState(pages.geo, hdrs, runcur[c], trees[c].Contents(), c)
      ensures forall c :: 0 <= c < |trees| ==>
                BinState(pages.geo, hdrs[p := h], runcur[b := Some(p)][c], trees[c].Contents(), c)
    {
      hide RbTree.Contents, AddressKeys, PagesOnMap;
      forall c | 0 <= c < |trees|
        ensures BinState(pages.geo, hdrs[p := h], runcur[b := Some(p)][c], trees[c].Contents(), c)
      {
        assert BinState(pages.geo, hdrs, runcur[c], trees[c].Contents(), c);
        assert NonFull(hdrs[p := h], runcur[b := Some(p)][c], c) == NonFull(hdrs, runcur[c], c);
      }
    }

    /** Make the lowest non-full run of the bin current, if there is one. */
    method Refill(b: nat) returns (found: bool)
      requires Valid() && b < |s.bins| && Exhausted(b)
      modifies this`runcur, trees
      ensures Valid()
      ensures found ==> runcur[b].Some? && runcur[b].value in hdrs && hdrs[runcur[b].value].nfree > 0
      ensures found ==> runcur[b].value in old(NonFull(hdrs, runcur[b], b))
      ensures found ==> forall q :: q in old(NonFull(hdrs, runcur[b], b)) ==>
                runcur[b].value == q || Before(runcur[b].value, q)
      ensures !found ==> runcur == old(runcur) && NonFull(hdrs, runcur[b], b) == {}
      ensures Lowest(hdrs, runcur[b], b)
    {
      hide R.HeaderOk, R.FreeRegs, RbTree.Valid, RbTree.Contents, BinOk, AddressKeys, InUse, HeadersOk;
      hide LiveOk, Whole, Key;
      hide Lowest;
      BinAt(b);
      var first := trees[b].First();
      if first.None? {
        TreeEmpty(b);
        ChosenLowest(b, runcur[b]);
        return false;
      }
      // Runs in the tree are not full.
      var p := PageOf(pages.geo, first.value);
      AddressKeyPage(pages.geo, NonFull(hdrs, runcur[b], b), first.value);
      CurChosen(b, p);
      LowestChosen(b, first.value);
      ChosenLowest(b, Some(p));
      trees[b].Remove(first.value);
      runcur := runcur[b := Some(p)];
      return true;
    }

    /** The run with the least key is the lowest; a full current run does not count. */
    lemma ChosenLowest(b: nat, cur: Option<Page>)
      requires b < |runcur| && Exhausted(b) && pages.geo.Ok()
      requires NonFull(hdrs, runcur[b], b) != {} ==> cur.Some? && cur.value in NonFull(hdrs, runcur[b], b)
      requires forall q :: q in NonFull(hdrs, runcur[b], b) ==>
                 && OnMap(pages.geo, q)
                 && (cur.Some? && OnMap(pages.geo, cur.value) ==> Key(pages.geo, 0, cur.value) <= Key(pages.geo, 0, q))
      ensures Lowest(hdrs, cur, b)
      ensures forall q :: q in NonFull(hdrs, runcur[b], b) ==> cur.value == q || Before(cur.value, q)
    {
      assert AllNonFull(hdrs, b) == NonFull(hdrs, runcur[b], b);
      forall q | q in AllNonFull(hdrs, b)
        ensures cur.Some? && cur.value in AllNonFull(hdrs, b) && (cur.value == q || Before(cur.value, q))
      {
        KeyOrder(pages.geo, 0, q, 0, cur.value);
      }
    }

    lemma TreeEmpty(b: nat)
      requires b < |trees| && b < |runcur| && trees[b].Contents() == {}
      requires BinState(pages.geo, hdrs, runcur[b], trees[b].Contents(), b)
      ensures NonFull(hdrs, runcur[b], b) == {}
    {
      hide RbTree.Contents;
      forall q | q in NonFull(hdrs, runcur[b], b)
        ensures false
      {
        AddressKeyIn(pages.geo, NonFull(hdrs, runcur[b], b), q);
      }
    }

    lemma LowestChosen(b: nat, k: int)
      requires b < |trees| && b < |runcur| && (forall x :: x in trees[b].Contents() ==> k <= x)
      requires BinState(pages.geo, hdrs, runcur[b], trees[b].Contents(), b)
      ensures forall q :: q in NonFull(hdrs, runcur[b], b) ==> OnMap(pages.geo, q) && k <= Key(pages.geo, 0, q)
    {
      hide RbTree.Contents;
      forall q | q in NonFull(hdrs, runcur[b], b)
        ensures OnMap(pages.geo, q) && k <= Key(pages.geo, 0, q)
      {
        AddressKeyIn(pages.geo, NonFull(hdrs, runcur[b], b), q);
      }
    }

    /** `arena_bin_malloc_hard`: refill the current run, then hand out a region. */
    method MallocHard(b: nat, ghost size: int, newChunk: Option<int>) returns (r: Option<Ptr>, ghost x: Block)
      requires Valid() && b < |s.bins| && Exhausted(b) && Served(s, b, size)
      requires newChunk.Some? ==> newChunk.value !in pages.chunks && 0 <= newChunk.value < pages.geo.nchunks
      modifies this, pages, pages.runsAvail, pages.chunksDirty, trees
      ensures Valid()
      ensures r.None? ==> live == old(live) && newChunk.None?
      ensures r.Some? ==> x !in old(live) && live == old(live)[x := size] && r.value == PtrOf(x)
      ensures r.Some? ==> x.SmallBlock? && x.bin == b
      // A new run is allocated only if no run of the bin has space.
      ensures old(NonFull(hdrs, runcur[b], b)) != {} ==> r.Some? && Used() == old(Used())
      ensures r.Some? ==> TakenFrom(pages.geo, old(hdrs), old(runcur[b]), b, x)
      ensures pages.chunks.Keys <= old(pages.chunks.Keys) + Supplied(newChunk)
    {
      hide R.HeaderOk, R.FreeRegs, RbTree.Valid, RbTree.Contents, BinOk, BinState, InUse, HeadersOk, LiveOk, Whole, Key;
      var found := Refill(b);
      if found {
        var ptr;
        ptr, x := MallocEasy(b, size);
        return Some(ptr), x;
      }
      r, x := MallocNewRun(b, size, newChunk);
    }

    /** Every run of the bin is full: get another one from the page layer. */
    method MallocNewRun(b: nat, ghost size: int, newChunk: Option<int>) returns (r: Option<Ptr>, ghost x: Block)
      requires Valid() && b < |s.bins| && Exhausted(b) && Served(s, b, size)
      requires newChunk.Some? ==> newChunk.value !in pages.chunks && 0 <= newChunk.value < pages.geo.nchunks
      modifies this, pages, pages.runsAvail, pages.chunksDirty
      ensures Valid()
      ensures r.None? ==> live == old(live) && newChunk.None?
      ensures r.Some? ==> x !in old(live) && live == old(live)[x := size] && r.value == PtrOf(x)
      ensures r.Some? ==> x.SmallBlock? && x.bin == b
      ensures r.Some? && old(AllNonFull(hdrs, b)) == {} ==> Lowest(hdrs, runcur[b], b)
      ensures r.Some? ==> x.p !in old(hdrs) && x.reg == 0
      ensures pages.chunks.Keys <= old(pages.chunks.Keys) + Supplied(newChunk)
    {
      hide R.HeaderOk, R.FreeRegs, RbTree.Valid, RbTree.Contents, BinState, InUse, HeadersOk, LiveOk;
      hide PageArena.Valid, Key;
      hide SetupOk, RunPages, Lowest, AllNonFull;
      x := LargeBlock(Page(0, 0));
      var got := AllocRun(b, newChunk);
      if got.None? {
        CurDropped(b);
        runcur := runcur[b := None];
        return None, x;
      }
      var ptr;
      ptr, x := InitRun(b, got.value, old(Used()), size);
      r := Some(ptr);
    }

    method AllocRun(b: nat, newChunk: Option<int>) returns (got: Option<Page>)
      requires Valid() && b < |s.bins|
      requires newChunk.Some? ==> newChunk.value !in pages.chunks && 0 <= newChunk.value < pages.geo.nchunks
      modifies pages, pages.runsAvail, pages.chunksDirty
      ensures ValidFor(old(Used()))
      ensures got.None? ==> Used() == old(Used()) && newChunk.None?
      ensures got.Some? ==> got.value !in old(Used()) && Used() == old(Used())[got.value := Run(RunPages(s, b), Small)]
      ensures pages.chunks.Keys <= old(pages.chunks.Keys) + Supplied(newChunk)
    {
      hide R.HeaderOk, R.FreeRegs, RbTree.Valid, RbTree.Contents, BinState, InUse, HeadersOk, LiveOk, Whole;
      hide Key, NoFit, BestFit;
      BinAt(b);
      got := pages.RunAlloc(RunPages(s, b), false, newChunk);
      pages.NdirtySign();
    }

    /** Initialise the header of a new run, make it current, and hand out its first region. */
    method InitRun(b: nat, p: Page, ghost used: Runs, ghost size: int) returns (r: Ptr, ghost x: Block)
      requires ValidFor(used) && b < |s.bins| && Exhausted(b) && Served(s, b, size) && p !in used
      requires Used() == used[p := Run(RunPages(s, b), Small)]
      modifies this
      ensures Valid() && x !in old(live) && live == old(live)[x := size] && r == PtrOf(x) && x.SmallBlock? && x.bin == b
      ensures old(AllNonFull(hdrs, b)) == {} ==> Lowest(hdrs, runcur[b], b)
      ensures x.p == p && p !in old(hdrs) && x.reg == 0
    {
      hide R.HeaderOk, R.FreeRegs, RbTree.Valid, RbTree.Contents, BinState, InUse, HeadersOk, LiveOk;
      hide PageArena.Valid, Key;
      hide RunPages, RegSize, Lowest, AllNonFull;
      hide SetupOk, NonFull;
      ghost var h0;
      var h, i;
      h0, h, i := FirstRegion(b);
      x := SmallBlock(p, b, i);
      NewRunStep(used, b, p, h0, h, i, size);
      if AllNonFull(hdrs, b) == {} { NewKeeps(hdrs, p, h, b); }
      hdrs := hdrs[p := h];
      live := live[x := size];
      runcur := runcur[b := Some(p)];
      r := Ptr(p.chunk, p.ind * s.PageBytes() + s.bins[b].reg0 + i * s.bins[b].regSize);
    }

    /** The header of a new run after its first region has been handed out. */
    method FirstRegion(b: nat) returns (ghost h0: R.Header, h: R.Header, i: nat)
      requires SetupOk(s, pages.geo) && b < |s.bins|
      ensures R.HeaderOk(h0, s.bins[b]) && h0.bin == b && h0.nfree == s.bins[b].nregs
      ensures R.FreeRegs(h0.mask) == R.UpTo(s.bins[b].nregs)
      ensures R.HeaderOk(h, s.bins[b]) && h.bin == b && h.nfree == h0.nfree - 1
      ensures i in R.FreeRegs(h0.mask) && R.FreeRegs(h.mask) == R.FreeRegs(h0.mask) - {i} && i == 0
    {
      hide R.HeaderOk, R.FreeRegs, R.UpTo, RunPages, RegSize, Pow2;
      assert BinOk(s, pages.geo, b);
      var mask := R.InitMask(s.bins[b]);
      var new_ := R.Header(b, mask, 0, s.bins[b].nregs);
      NewHeader(new_, s.bins[b]);
      h, i := R.RegAlloc(new_, s.bins[b]);
      assert 0 in R.UpTo(s.bins[b].nregs);
      h0 := new_;
    }

    static lemma NewHeader(h: R.Header, b: R.Bin)
      requires R.BinShape(b) && R.Words(h.mask) && |h.mask| == b.nelms && R.FreeRegs(h.mask) == R.UpTo(b.nregs)
      requires h.minelm == 0 && h.nfree == b.nregs
      ensures R.HeaderOk(h, b)
    {
    }

    lemma NewRunStep(used: Runs, b: nat, p: Page, h0: R.Header, h: R.Header, i: nat, size: int)
      requires Separate() && b < |trees| && Exhausted(b) && SetupOk(s, pages.geo) && Served(s, b, size)
      requires HeadersOk(s, used, hdrs) && LiveOk(s, used, hdrs, live) && p !in used && h0.bin == b
      requires forall c :: 0 <= c < |trees| ==> BinState(pages.geo, hdrs, runcur[c], trees[c].Contents(), c)
      requires R.HeaderOk(h0, s.bins[b]) && h0.nfree == s.bins[b].nregs
          && R.FreeRegs(h0.mask) == R.UpTo(s.bins[b].nregs)
      requires R.HeaderOk(h, s.bins[b]) && h.bin == b && h.nfree == h0.nfree - 1
      requires i in R.FreeRegs(h0.mask) && R.FreeRegs(h.mask) == R.FreeRegs(h0.mask) - {i}
      ensures var used' := used[p := Run(RunPages(s, b), Small)];
              && HeadersOk(s, used', hdrs[p := h])
              && p !in hdrs && SmallBlock(p, b, i) !in live
              && LiveOk(s, used', hdrs[p := h], live[SmallBlock(p, b, i) := size])
      ensures forall c :: 0 <= c < |trees| ==>
                BinState(pages.geo, hdrs[p := h], runcur[b := Some(p)][c], trees[c].Contents(), c)
    {
      hide R.HeaderOk, R.FreeRegs, BinState, LiveOk, RunPages;
      var run := Run(RunPages(s, b), Small);
      RegionBound(h0, s.bins[b], i);
      assert forall q :: q in hdrs ==> RunOk(s, used, hdrs, q);
      CurNew(b, p, h);
      LiveNewRun(s, used, hdrs, live, p, run, h0, h, i, size);
      RunAdded(s, used, hdrs, p, run, h);
    }

    /** `arena_malloc_small`. */
    method MallocSmall(size: nat, newChunk: Option<int>) returns (r: Option<Ptr>, ghost x: Block)
      requires Valid() && 1 <= size <= s.cfg.MaxClass()
      requires newChunk.Some? ==> newChunk.value !in pages.chunks && 0 <= newChunk.value < pages.geo.nchunks
      modifies this, pages, pages.runsAvail, pages.chunksDirty, trees
      ensures Valid()
      ensures r.None? ==> live == old(live) && newChunk.None?
      ensures r.Some? ==> x !in old(live) && live == old(live)[x := size] && r.value == PtrOf(x)
      ensures r.Some? ==> x.SmallBlock? && x.bin == BinIndex(s.cfg, size)
      // Nothing else is allocated if the bin has space.
      ensures old(HasSpace(BinIndex(s.cfg, size))) ==> r.Some? && Used() == old(Used())
      ensures r.Some? && x.bin < |old(runcur)| ==> TakenFrom(pages.geo, old(hdrs), old(runcur)[x.bin], x.bin, x)
      ensures pages.chunks.Keys <= old(pages.chunks.Keys) + Supplied(newChunk)
    {
      hide R.HeaderOk, R.FreeRegs, RbTree.Valid, RbTree.Contents, BinState, InUse, HeadersOk, LiveOk, PageArena.Valid;
      hide BinIndex, RegSize, Pow2, LayoutOk, RunPages;
      var b: nat := ChooseBin(size);
      if runcur[b].Some? && hdrs[runcur[b].value].nfree > 0 {
        var ptr;
        ptr, x := MallocEasy(b, size);
        r := Some(ptr);
      } else {
        r, x := MallocHard(b, size, newChunk);
      }
    }

    method ChooseBin(size: nat) returns (b: nat)
      requires Valid() && 1 <= size <= s.cfg.MaxClass()
      ensures b < |s.bins| && size <= s.bins[b].regSize && b == BinIndex(s.cfg, size)
      ensures runcur[b].Some? ==> runcur[b].value in hdrs
    {
      LeastClass(s.cfg, size);
      b := BinIndex(s.cfg, size);
      BinAt(b);
    }

    // ---------- freeing ----------

    static lemma DivBounds(off: int, lo: int, hi: int, w: int)
      requires 0 < w && lo * w <= off < hi * w
      ensures lo <= off / w < hi
    {
      var q := off / w;
      assert off == w * q + off % w;
      assert q <= lo - 1 ==> w * q <= w * (lo - 1);
      assert q >= hi ==> w * q >= w * hi;
    }

    /** What the page map says about the page that a live block starts in. */
    lemma Lookup(x: Block)
      requires Valid() && x in live
      ensures 0 < s.PageBytes() && x.p.chunk in pages.chunks && x.p in pages.runs && pages.runs[x.p].kind != Free
      ensures IsBlock(s, Used(), hdrs, x) && x.p in Used() && Used()[x.p] == pages.runs[x.p]
      ensures var off := BlockOffset(s, x);
              && 0 <= off / s.PageBytes() < |pages.chunks[x.p.chunk].map_|
              && var e := pages.chunks[x.p.chunk].map_[off / s.PageBytes()];
              && (e.large <==> x.LargeBlock?)
              && (x.SmallBlock? ==> e.hi == x.p.ind)
              && (x.LargeBlock? ==> off / s.PageBytes() == x.p.ind && e.hi == pages.runs[x.p].len)
    {
      hide R.HeaderOk, R.FreeRegs, RbTree.Valid, RbTree.Contents, BinsOk, Whole, Pow2, BinOk;
      PowPositive(s.cfg.page2);
      assert Recorded(s, Used(), hdrs, live, x);
      BlockInRun(s, pages.geo, Used(), hdrs, x);
      pages.UsedIn(x.p);
      pages.WholeAt(x.p);
      assert x.SmallBlock? ==> RunOk(s, Used(), hdrs, x.p);
      var run, w := pages.runs[x.p], s.PageBytes();
      var off := BlockOffset(s, x);
      DivBounds(off, x.p.ind, x.p.ind + run.len, w);
      if x.LargeBlock? { Decompose(x.p.ind, 0, w); }
    }

    /** Freeing `x` frees its run. */
    ghost predicate GivesBack(x: Block)
      reads this
    {
      x.SmallBlock? ==> x.p in hdrs && x.bin < |s.bins| && hdrs[x.p].nfree + 1 == s.bins[x.bin].nregs
    }

    /** Nothing has changed in the page layer. */
    ghost predicate SamePages(chunks: map<int, Chunk>, runs: Runs, spare: Option<int>, ndirty: int)
      reads pages
    {
      pages.chunks == chunks && pages.runs == runs && pages.spare == spare && pages.ndirty == ndirty
    }

    /** `arena_dalloc`: give back the block at `ptr`. */
    method Dalloc(ptr: Ptr, ghost x: Block)
      requires Valid() && x in live && ptr == PtrOf(x)
      modifies this, pages, pages.runsAvail, pages.chunksDirty, trees
      ensures Valid() && live == old(live) - {x}
      ensures pages.chunks.Keys <= old(pages.chunks.Keys)
      // A large block, or the last region of a run, gives its pages back, and they are dirty then.
      ensures old(GivesBack(x)) ==> Used() == old(Used()) - {x.p} && pages.spare == old(pages.SpareThen(x.p))
      ensures old(GivesBack(x)) ==> pages.Settled(old(pages.DirtyThen(x.p, true)), old(pages.DirtThen(x.p, true)))
      ensures !old(GivesBack(x)) ==> SamePages(old(pages.chunks), old(pages.runs), old(pages.spare), old(pages.ndirty))
    {
      hide PageArena.Settled, PageArena.DirtThen, PageArena.DirtyThen, PageArena.SpareThen;
      hide R.HeaderOk, R.FreeRegs, RbTree.Valid, RbTree.Contents, BinState, InUse, HeadersOk, LiveOk;
      hide PageArena.Valid, BlockOffset;
      Lookup(x);
      var ind := ptr.off / s.PageBytes();
      var e := pages.chunks[ptr.chunk].map_[ind];
      if !e.large {
        DallocSmall(Page(ptr.chunk, e.hi), ptr, x);
      } else {
        DallocLarge(Page(ptr.chunk, ind));
      }
    }

    method DallocLarge(p: Page)
      requires Valid() && LargeBlock(p) in live
      modifies pages, pages.runsAvail, pages.chunksDirty, this`live
      ensures Valid() && live == old(live) - {LargeBlock(p)}
      ensures pages.chunks.Keys <= old(pages.chunks.Keys)
      ensures Used() == old(Used()) - {p} && pages.spare == old(pages.SpareThen(p))
      ensures pages.Settled(old(pages.DirtyThen(p, true)), old(pages.DirtThen(p, true)))
    {
      hide PageArena.Settled, PageArena.DirtThen, PageArena.DirtyThen, PageArena.SpareThen;
      hide R.HeaderOk, R.FreeRegs, RbTree.Valid, RbTree.Contents, BinState, InUse, HeadersOk, LiveOk;
      hide PageArena.Valid, BlockOffset;
      Lookup(LargeBlock(p));
      LargeGone(p);
      pages.RunDalloc(p, true, 0);
      pages.NdirtySign();
      live := live - {LargeBlock(p)};
    }

    lemma LargeGone(p: Page)
      requires Valid() && LargeBlock(p) in live
      ensures HeadersOk(s, Used() - {p}, hdrs) && LiveOk(s, Used() - {p}, hdrs, live - {LargeBlock(p)})
    {
      hide R.HeaderOk, R.FreeRegs, RbTree.Valid, RbTree.Contents, BinsOk, PageArena.Valid, InUse, BinOk;
      assert Recorded(s, Used(), hdrs, live, LargeBlock(p));
      LargeChanged(s, Used(), Used() - {p}, hdrs);
      LiveLarge(s, Used(), Used() - {p}, hdrs, live, live - {LargeBlock(p)}, p);
    }

    /** The index of a region, recovered from its address. */
    lemma IndexOf(p: Page, bi: nat, i: nat)
      requires Valid() && SmallBlock(p, bi, i) in live
      ensures p in hdrs && hdrs[p].bin == bi < |s.bins| && i < s.bins[hdrs[p].bin].nregs
      ensures R.HeaderOk(hdrs[p], s.bins[hdrs[p].bin]) && i !in R.FreeRegs(hdrs[p].mask)
      ensures var b := s.bins[hdrs[p].bin];
              var diff := BlockOffset(s, SmallBlock(p, bi, i)) - p.ind * s.PageBytes() - b.reg0;
              && 0 <= diff && (IsPower(b.regSize) || Pow2(s.quantumMin2) <= b.regSize)
              && RegIndex(b.regSize, diff, s.quantumMin2) == i
    {
      hide R.HeaderOk, R.FreeRegs, RbTree.Valid, RbTree.Contents, BinsOk, PageArena.Valid, InUse, RegIndex;
      hide Pow2, RegSize;
      assert Recorded(s, Used(), hdrs, live, SmallBlock(p, bi, i));
      assert RunOk(s, Used(), hdrs, p);
      assert BinOk(s, pages.geo, bi);
      var b := s.bins[bi];
      ClassIndexable(s.cfg, bi, s.quantumMin2);
      RegionEnds(b, s.header, i);
      MulSign(i, b.regSize);
      RegIndexExact(b.regSize, i, s.quantumMin2);
    }

    /** `arena_dalloc_small`. */
    method DallocSmall(p: Page, ptr: Ptr, ghost x: Block)
      requires Valid() && x in live && ptr == PtrOf(x) && x.SmallBlock? && p == x.p
      modifies this, pages, pages.runsAvail, pages.chunksDirty, trees
      ensures Valid() && live == old(live) - {x}
      ensures pages.chunks.Keys <= old(pages.chunks.Keys)
      // The run goes with its last region, and its pages are dirty then; otherwise no page changes hands.
      ensures old(GivesBack(x)) ==> Used() == old(Used()) - {p} && pages.spare == old(pages.SpareThen(p))
      ensures old(GivesBack(x)) ==> pages.Settled(old(pages.DirtyThen(p, true)), old(pages.DirtThen(p, true)))
      ensures !old(GivesBack(x)) ==> SamePages(old(pages.chunks), old(pages.runs), old(pages.spare), old(pages.ndirty))
    {
      hide PageArena.Settled, PageArena.DirtThen, PageArena.DirtyThen, PageArena.SpareThen;
      hide R.HeaderOk, R.FreeRegs, RbTree.Valid, RbTree.Contents, BinState, InUse, HeadersOk, LiveOk;
      hide PageArena.Valid, BlockOffset;
      hide RegIndex;
      IndexOf(p, x.bin, x.reg);
      var bin := s.bins[hdrs[p].bin];
      var regind := RegIndex(bin.regSize, ptr.off - p.ind * s.PageBytes() - bin.reg0, s.quantumMin2);
      var h := R.RegFree(hdrs[p], bin, regind);
      NfreeBound(h, bin);
      if h.nfree == bin.nregs {
        ReleaseRun(p, h, regind);
      } else {
        ReturnRegion(p, h, regind);
      }
    }

    /** Only bin `b` may be affected by a change to the run at `p`. */
    lemma OtherBins(hdrs': Headers, p: Page, b: nat)
      requires Separate() && b < |trees| && p in hdrs && hdrs[p].bin == b && (p in hdrs' ==> hdrs'[p].bin == b)
      requires forall q :: q != p ==> (q in hdrs <==> q in hdrs') && (q in hdrs ==> hdrs'[q] == hdrs[q])
      requires forall c :: 0 <= c < |trees| ==> BinState(pages.geo, hdrs, runcur[c], trees[c].Contents(), c)
      ensures forall c :: 0 <= c < |trees| && c != b ==> BinState(pages.geo, hdrs', runcur[c], trees[c].Contents(), c)
    {
      hide RbTree.Contents, BinState;
      forall c | 0 <= c < |trees| && c != b
        ensures BinState(pages.geo, hdrs', runcur[c], trees[c].Contents(), c)
      {
        OtherBin(pages.geo, hdrs, hdrs', runcur[c], trees[c].Contents(), p, c);
      }
    }

    /** The run is now completely free: deallocate it. */
    method ReleaseRun(p: Page, h: R.Header, ghost r: nat)
      requires Valid() && p in hdrs && hdrs[p].bin < |s.bins| && SmallBlock(p, hdrs[p].bin, r) in live
      requires Returned(hdrs[p], h, s.bins[hdrs[p].bin], r) && h.nfree == s.bins[hdrs[p].bin].nregs
      modifies this, pages, pages.runsAvail, pages.chunksDirty, trees
      ensures Valid() && live == old(live) - {SmallBlock(p, old(hdrs)[p].bin, r)}
      ensures pages.chunks.Keys <= old(pages.chunks.Keys)
      ensures Used() == old(Used()) - {p} && pages.spare == old(pages.SpareThen(p))
      ensures pages.Settled(old(pages.DirtyThen(p, true)), old(pages.DirtThen(p, true)))
    {
      hide PageArena.Settled, PageArena.DirtThen, PageArena.DirtyThen, PageArena.SpareThen;
      hide R.HeaderOk, R.FreeRegs, RbTree.Valid, RbTree.Contents, BinState, InUse, HeadersOk, LiveOk;
      hide PageArena.Valid, Key, RunPages;
      RunAt(p);
      pages.UsedIn(p);
      var b := hdrs[p].bin;
      LiveRunGone(s, Used(), hdrs, live, p, h, r);
      RunDropped(s, Used(), hdrs, p);
      Unlist(p, h, r);
      pages.RunDalloc(p, true, RunPages(s, b));
      pages.NdirtySign();
    }

    /** Forget a completely free run: it is neither current nor in the tree any more. */
    method Unlist(p: Page, h: R.Header, ghost r: nat)
      requires Valid() && p in hdrs && hdrs[p].bin < |s.bins| && SmallBlock(p, hdrs[p].bin, r) in live
      requires Returned(hdrs[p], h, s.bins[hdrs[p].bin], r) && h.nfree == s.bins[hdrs[p].bin].nregs
      requires LiveOk(s, Used() - {p}, hdrs - {p}, live - {SmallBlock(p, hdrs[p].bin, r)})
          && HeadersOk(s, Used() - {p}, hdrs - {p})
      modifies this, trees
      ensures ValidFor(Used() - {p}) && live == old(live) - {SmallBlock(p, old(hdrs)[p].bin, r)}
      ensures var b := old(hdrs)[p].bin;
              old(Lowest(hdrs, runcur[hdrs[p].bin], hdrs[p].bin)) ==>
                (Lowest(hdrs, runcur[b], b) <==> !old(ReleaseLoses(hdrs, runcur[hdrs[p].bin], p, hdrs[p].bin)))
    {
      hide R.HeaderOk, R.FreeRegs, RbTree.Valid, RbTree.Contents, BinState, InUse, HeadersOk, LiveOk;
      hide PageArena.Valid, Key, AddressKeys;
      hide PagesOnMap;
      RunAt(p);
      var b := hdrs[p].bin;
      BinAt(b);
      ghost var hdrs' := hdrs - {p};
      OtherBins(hdrs', p, b);
      UnlistSets(p, b);
      if Lowest(hdrs, runcur[b], b) { ReleaseKeeps(hdrs, runcur[b], p, b); }
      if runcur[b] == Some(p) {
        KeepsTree(pages.geo, hdrs, hdrs', runcur[b], None, trees[b].Contents(), b);
        runcur := runcur[b := None];
      } else if s.bins[b].nregs != 1 {
        LeavesTree(pages.geo, hdrs, hdrs', runcur[b], runcur[b], trees[b].Contents(), p, b);
        trees[b].Remove(Key(pages.geo, 0, p));
      } else {
        // With a single region per run, a run is never in the tree.
        KeepsTree(pages.geo, hdrs, hdrs', runcur[b], runcur[b], trees[b].Contents(), b);
      }
      hdrs := hdrs - {p};
      live := live - {SmallBlock(p, b, r)};
    }

    lemma UnlistSets(p: Page, b: nat)
      requires b < |runcur| && p in hdrs && hdrs[p].bin == b && CurOk(hdrs, runcur[b], b)
      ensures var hdrs' := hdrs - {p};
              && (runcur[b] == Some(p) ==> NonFull(hdrs', None, b) == NonFull(hdrs, runcur[b], b))
              && (runcur[b] != Some(p) ==> NonFull(hdrs', runcur[b], b) == NonFull(hdrs, runcur[b], b) - {p})
              && (runcur[b] != Some(p) ==> CurOk(hdrs', runcur[b], b))
              && (hdrs[p].nfree == 0 ==> p !in NonFull(hdrs, runcur[b], b))
              && (hdrs[p].nfree > 0 && runcur[b] != Some(p) ==> p in NonFull(hdrs, runcur[b], b))
              && (hdrs[p].nfree == 0 ==> NonFull(hdrs, runcur[b], b) - {p} == NonFull(hdrs, runcur[b], b))
    {
    }

    /** The run stays allocated with one more free region. */
    method ReturnRegion(p: Page, h: R.Header, ghost r: nat)
      requires Valid() && p in hdrs && hdrs[p].bin < |s.bins| && SmallBlock(p, hdrs[p].bin, r) in live
      requires Returned(hdrs[p], h, s.bins[hdrs[p].bin], r) && h.nfree < s.bins[hdrs[p].bin].nregs
      modifies this, trees
      ensures Valid() && live == old(live) - {SmallBlock(p, old(hdrs)[p].bin, r)}
      ensures var b := old(hdrs)[p].bin;
              old(Lowest(hdrs, runcur[hdrs[p].bin], hdrs[p].bin)) ==>
                (Lowest(hdrs, runcur[b], b) <==> !old(ReturnLoses(hdrs, runcur[hdrs[p].bin], p)))
    {
      hide R.HeaderOk, R.FreeRegs, RbTree.Valid, RbTree.Contents, BinState, InUse, HeadersOk, LiveOk, PageArena.Valid;
      hide RunPages, Lowest, ReturnLoses, CurAfter;
      RunAt(p);
      LiveReturned(s, Used(), hdrs, live, p, h, r);
      HeaderReplaced(s, Used(), hdrs, p, h);
      var b := hdrs[p].bin;
      BinAt(b);
      if Lowest(hdrs, runcur[b], b) { ReturnKeeps(hdrs, runcur[b], p, h, b); }
      SwitchCur(p, h, b);
      hdrs := hdrs[p := h];
      live := live - {SmallBlock(p, b, r)};
    }

    /** Bring `runcur` and the tree of the bin in line with a run that gets a free region. */
    method SwitchCur(p: Page, h: R.Header, b: nat)
      requires Valid() && p in hdrs && hdrs[p].bin == b < |s.bins| && h.bin == b && h.nfree == hdrs[p].nfree + 1
      requires OnMap(pages.geo, p)
      modifies this`runcur, trees
      ensures Separate() && pages.Valid() && runcur[b] == CurAfter(hdrs, old(runcur[b]), p)
      ensures forall c :: 0 <= c < |trees| ==>
                trees[c].Valid() && BinState(pages.geo, hdrs[p := h], runcur[c], trees[c].Contents(), c)
    {
      hide R.HeaderOk, R.FreeRegs, RbTree.Valid, RbTree.Contents, BinState, InUse, HeadersOk, LiveOk, PageArena.Valid;
      hide Key, AddressKeys, PagesOnMap, NonFull, SetupOk;
      ghost var hdrs' := hdrs[p := h];
      BinAt(b);
      OtherBins(hdrs', p, b);
      ReturnSets(p, h, b);
      if h.nfree == 1 && runcur[b] != Some(p) {
        // The run was full until now.
        if runcur[b].None? {
          KeepsTree(pages.geo, hdrs, hdrs', None, Some(p), trees[b].Contents(), b);
          runcur := runcur[b := Some(p)];
        } else if Before(p, runcur[b].value) {
          var q := runcur[b].value;
          RunAt(q);
          if hdrs[q].nfree > 0 {
            JoinsTree(pages.geo, hdrs, hdrs', Some(q), Some(p), trees[b].Contents(), q, b);
            trees[b].Insert(Key(pages.geo, 0, q));
          } else {
            KeepsTree(pages.geo, hdrs, hdrs', Some(q), Some(p), trees[b].Contents(), b);
          }
          runcur := runcur[b := Some(p)];
        } else {
          JoinsTree(pages.geo, hdrs, hdrs', runcur[b], runcur[b], trees[b].Contents(), p, b);
          trees[b].Insert(Key(pages.geo, 0, p));
        }
      } else {
        KeepsTree(pages.geo, hdrs, hdrs', runcur[b], runcur[b], trees[b].Contents(), b);
      }
    }

    lemma ReturnSets(p: Page, h: R.Header, b: nat)
      requires b < |runcur| && p in hdrs && hdrs[p].bin == b && h.bin == b && h.nfree == hdrs[p].nfree + 1
      requires CurOk(hdrs, runcur[b], b)
      ensures var hdrs' := hdrs[p := h];
              && CurOk(hdrs', runcur[b], b) && CurOk(hdrs', Some(p), b)
              && (hdrs[p].nfree > 0 || runcur[b] == Some(p) ==>
                 NonFull(hdrs', runcur[b], b) == NonFull(hdrs, runcur[b], b))
              && (hdrs[p].nfree == 0 && runcur[b] != Some(p) ==>
                    && p !in NonFull(hdrs, runcur[b], b)
                    && NonFull(hdrs', runcur[b], b) == NonFull(hdrs, runcur[b], b) + {p}
                    && (runcur[b].None? || hdrs[runcur[b].value].nfree == 0 ==>
                          NonFull(hdrs', Some(p), b) == NonFull(hdrs, runcur[b], b))
                    && (runcur[b].Some? && hdrs[runcur[b].value].nfree > 0 ==>
                          && runcur[b].value !in NonFull(hdrs, runcur[b], b)
                          && NonFull(hdrs', Some(p), b) == NonFull(hdrs, runcur[b], b) + {runcur[b].value}))
    {
    }

    // ---------- large blocks ----------

    /** Pages needed for `size` bytes. */
    function PagesFor(size: nat): nat { CeilPages(s, size) }

    lemma PagesForBounds(size: nat)
      requires 1 <= size
      ensures 1 <= PagesFor(size) && (PagesFor(size) - 1) * s.PageBytes() < size <= PagesFor(size) * s.PageBytes()
    {
      CeilPagesBounds(s, size);
    }

    lemma LargeAdded(used: Runs, p: Page, n: int, size: int)
      requires ValidFor(used) && p !in used && 1 <= size && n == PagesFor(size)
      ensures LargeBlock(p) !in live
      ensures HeadersOk(s, used[p := Run(n, Large)], hdrs)
      ensures LiveOk(s, used[p := Run(n, Large)], hdrs, live[LargeBlock(p) := size])
    {
      hide R.HeaderOk, R.FreeRegs, RbTree.Valid, RbTree.Contents, BinsOk, PageArena.Valid, InUse, BinOk, Pow2;
      assert Recorded(s, used, hdrs, live, LargeBlock(p));
      LargeChanged(s, used, used[p := Run(n, Large)], hdrs);
      LiveLarge(s, used, used[p := Run(n, Large)], hdrs, live, live[LargeBlock(p) := size], p);
    }

    /** `arena_malloc_large`. */
    method MallocLarge(size: nat, newChunk: Option<int>) returns (r: Option<Ptr>, ghost x: Block)
      requires Valid() && 1 <= size && PagesFor(size) <= pages.geo.MaxPages()
      requires newChunk.Some? ==> newChunk.value !in pages.chunks && 0 <= newChunk.value < pages.geo.nchunks
      modifies pages, pages.runsAvail, pages.chunksDirty, this`live
      ensures Valid()
      ensures r.None? ==> live == old(live) && newChunk.None?
      ensures r.Some? ==> x !in old(live) && live == old(live)[x := size] && r.value == PtrOf(x) && x.LargeBlock?
      ensures Used() == if r.Some? then old(Used())[x.p := Run(PagesFor(size), Large)] else old(Used())
      ensures pages.chunks.Keys <= old(pages.chunks.Keys) + Supplied(newChunk)
    {
      hide R.HeaderOk, R.FreeRegs, RbTree.Valid, RbTree.Contents, BinState, InUse, HeadersOk, LiveOk;
      hide PageArena.Valid, NoFit, BestFit;
      hide CeilPages, Pow2;
      PagesForBounds(size);
      x := LargeBlock(Page(0, 0));
      var n := PagesFor(size);
      var got := pages.RunAlloc(n, true, newChunk);
      pages.NdirtySign();
      if got.None? {
        pages.UnchangedUsed(old(pages.runs));
        return None, x;
      }
      var p := got.value;
      x := LargeBlock(p);
      LargeAdded(old(Used()), p, n, size);
      live := live[x := size];
      r := Some(Ptr(p.chunk, p.ind * s.PageBytes()));
    }

    /** `arena_malloc`. */
    method Malloc(size: nat, newChunk: Option<int>) returns (r: Option<Ptr>, ghost x: Block)
      requires Valid() && 1 <= size && PagesFor(size) <= pages.geo.MaxPages()
      requires newChunk.Some? ==> newChunk.value !in pages.chunks && 0 <= newChunk.value < pages.geo.nchunks
      modifies this, pages, pages.runsAvail, pages.chunksDirty, trees
      ensures Valid()
      ensures r.None? ==> live == old(live) && newChunk.None?
      ensures r.Some? ==> x !in old(live) && live == old(live)[x := size] && r.value == PtrOf(x)
      ensures r.Some? ==> if size <= s.cfg.MaxClass() then x.SmallBlock?
          && x.bin == BinIndex(s.cfg, size) else x.LargeBlock?
      ensures pages.chunks.Keys <= old(pages.chunks.Keys) + Supplied(newChunk)
      ensures size > s.cfg.MaxClass() ==>
                Used() == if r.Some? then old(Used())[x.p := Run(PagesFor(size), Large)] else old(Used())
    {
      hide R.HeaderOk, R.FreeRegs, RbTree.Valid, RbTree.Contents, BinState, InUse, HeadersOk, LiveOk, PageArena.Valid;
      hide CeilPages, Pow2, BinIndex;
      if size <= s.cfg.MaxClass() {
        r, x := MallocSmall(size, newChunk);
      } else {
        r, x := MallocLarge(size, newChunk);
      }
    }

    /** `arena_salloc`: the usable size of a block, at least what was requested. */
    method Salloc(ptr: Ptr, ghost x: Block) returns (size: int)
      requires Valid() && x in live && ptr == PtrOf(x)
      ensures size == BlockSize(s, Used(), x) == UsableOf(s, x.SmallBlock?, live[x]) && 1 <= live[x] <= size
    {
      hide R.HeaderOk, R.FreeRegs, RbTree.Valid, RbTree.Contents, BinState, InUse, HeadersOk, PageArena.Valid;
      hide BlockOffset;
      Lookup(x);
      assert Recorded(s, Used(), hdrs, live, x);
      SnugSize(s, pages.geo, Used(), x, live[x]);
      var e := pages.chunks[ptr.chunk].map_[ptr.off / s.PageBytes()];
      if !e.large {
        var run := Page(ptr.chunk, e.hi);
        size := s.bins[hdrs[run].bin].regSize;
      } else {
        size := e.hi * s.PageBytes();
      }
    }

    // ---------- resizing ----------

    /** A block may get another request, and a large one another length. */
    lemma Resized(x: Block, used: Runs, size: int)
      requires Valid() && x in live && Snug(s, used, x, size)
      requires used == Used() || (x.LargeBlock? && x.p in used && used == Used()[x.p := Run(used[x.p].len, Large)])
      ensures HeadersOk(s, used, hdrs) && LiveOk(s, used, hdrs, live[x := size])
    {
      hide R.HeaderOk, R.FreeRegs, RbTree.Valid, RbTree.Contents, BinsOk, PageArena.Valid, InUse, BinOk, Pow2;
      assert Recorded(s, Used(), hdrs, live, x);
      var live' := live[x := size];
      if x.LargeBlock? {
        LargeChanged(s, Used(), used, hdrs);
        LiveLarge(s, Used(), used, hdrs, live, live', x.p);
      } else {
        forall y
          ensures Recorded(s, used, hdrs, live', y)
        {
          assert Recorded(s, used, hdrs, live, y);
        }
      }
    }

    /** A large run can be cut to, or extended to, what `size` bytes need. */
    ghost predicate CanStay(p: Page, size: nat)
      reads pages
    {
      && p in pages.runs
      && (|| PagesFor(size) <= pages.runs[p].len
          || (IsFree(pages.runs, Next(pages.runs, p))
              && PagesFor(size) - pages.runs[p].len <= pages.runs[Next(pages.runs, p)].len))
    }

    /** `arena_ralloc_large`: resize a large block where it is, if possible. */
    method RallocLarge(p: Page, oldLen: int, size: nat) returns (ok: bool)
      requires Valid() && LargeBlock(p) in live && p in pages.runs && pages.runs[p] == Run(oldLen, Large) && 1 <= size
      modifies pages, pages.runsAvail, pages.chunksDirty, this`live
      ensures Valid()
      ensures pages.chunks.Keys <= old(pages.chunks.Keys)
      ensures !ok ==> live == old(live) && pages.chunks.Keys == old(pages.chunks.Keys)
      ensures ok ==> live == old(live)[LargeBlock(p) := size] && Used() == old(Used())[p := Run(PagesFor(size), Large)]
      ensures ok <==> old(CanStay(p, size))
      // What a shrinking block gives back is dirty.
      ensures PagesFor(size) < oldLen ==>
                pages.Settled(old(pages.ndirty) + (oldLen - PagesFor(size)),
                              old(Dirt(pages.chunks)) + PagesOf(After(p, PagesFor(size)), oldLen - PagesFor(size)))
    {
      hide PageArena.Settled, Dirt, PagesOf;
      hide R.HeaderOk, R.FreeRegs, RbTree.Valid, RbTree.Contents, BinState, InUse, HeadersOk, LiveOk, PageArena.Valid;
      hide CeilPages, Pow2;
      PagesForBounds(size);
      LargeIn(p);
      var n := PagesFor(size);
      ghost var used := Used()[p := Run(n, Large)];
      ok := true;
      Resized(LargeBlock(p), used, size);
      if n < oldLen {
        pages.TrimTail(p, oldLen, n, true);
        pages.NdirtySign();
      } else if n > oldLen {
        ok := pages.Grow(p, oldLen, n);
        pages.NdirtySign();
        if !ok {
          pages.UnchangedUsed(old(pages.runs));
          return;
        }
      }
      live := live[LargeBlock(p) := size];
    }

    lemma LargeIn(p: Page)
      requires p in pages.runs && pages.runs[p].kind == Large
      ensures p in Used() && Used()[p] == pages.runs[p]
      ensures Used()[p := pages.runs[p]] == Used()
    {
    }

    lemma ClassOf(b: nat)
      requires SetupOk(s, pages.geo) && b < |s.bins|
      ensures s.bins[b].regSize == RegSize(s.cfg, b) && b < s.cfg.Bins()
    {
      assert BinOk(s, pages.geo, b);
    }

    /** Small blocks have at most `bin_maxclass` bytes, large ones more, up to `arena_maxclass`. */
    lemma SizeTells(x: Block)
      requires Valid() && x in live
      ensures var n := BlockSize(s, Used(), x);
              && 1 <= n && (n > s.cfg.MaxClass() <==> x.LargeBlock?)
              && (x.LargeBlock? ==> n <= pages.geo.MaxPages() * s.PageBytes())
              && (x.SmallBlock? ==> n == RegSize(s.cfg, x.bin) && x.bin < s.cfg.Bins())
    {
      hide R.HeaderOk, R.FreeRegs, RbTree.Valid, RbTree.Contents, BinState, InUse, HeadersOk, PageArena.Valid, Pow2;
      hide RegSize, BinOk, RunMapped;
      assert Recorded(s, Used(), hdrs, live, x);
      if x.SmallBlock? {
        ClassOf(x.bin);
        ClassRange(s.cfg, x.bin);
      } else {
        Lookup(x);
        pages.WholeAt(x.p);
        pages.RunBounds(x.p);
        MulMono(1, pages.runs[x.p].len, s.PageBytes());
        MulMono(pages.runs[x.p].len, pages.geo.MaxPages(), s.PageBytes());
        PowStrict(s.cfg.page2 - 1, s.cfg.page2);
      }
    }

    /** A block of the class that serves `size` has room for `size` bytes. */
    lemma SameClassFits(x: Block, size: nat)
      requires Valid() && x in live && 1 <= size && 1 <= BlockSize(s, Used(), x)
      requires x.SmallBlock? && SameClass(s.cfg, size, BlockSize(s, Used(), x))
      ensures size <= BlockSize(s, Used(), x)
    {
      hide PageArena.Valid, RbTree.Valid, RbTree.Contents, BinsOk, LiveOk, HeadersOk, InUse, BinOk, BinIndex;
      hide RegSize, Pow2, SameClass;
      SizeTells(x);
      ClassIsFixed(s.cfg, x.bin);
      SameClassIff(s.cfg, size, RegSize(s.cfg, x.bin));
      LeastClass(s.cfg, size);
    }

    /** A live large block has exactly the pages that it needs. */
    lemma LargeLength(p: Page)
      requires Valid() && LargeBlock(p) in live
      ensures 1 <= live[LargeBlock(p)] && p in Used() && Used()[p] == Run(PagesFor(live[LargeBlock(p)]), Large)
    {
      hide R.HeaderOk, R.FreeRegs, RbTree.Valid, RbTree.Contents, BinsOk, PageArena.Valid, InUse, BinOk, CeilPages;
      assert Recorded(s, Used(), hdrs, live, LargeBlock(p));
    }

    /** `arena_ralloc`: the block at `ptr` gets `size` bytes, where it is or elsewhere. */
    method Ralloc(ptr: Ptr, ghost x: Block, size: nat, newChunk: Option<int>) returns (r: Option<Ptr>, ghost y: Block)
      requires Valid() && x in live && ptr == PtrOf(x) && 1 <= size && PagesFor(size) <= pages.geo.MaxPages()
      requires newChunk.Some? ==> newChunk.value !in pages.chunks && 0 <= newChunk.value < pages.geo.nchunks
      modifies this, pages, pages.runsAvail, pages.chunksDirty, trees
      ensures Valid()
      ensures r.None? ==> live == old(live) && newChunk.None?
      ensures r.Some? ==> r.value == PtrOf(y) && (y == x || y !in old(live)) && live == (old(live) - {x})[y := size]
      // A small block moves exactly if another bin serves the new size.
      ensures r.Some? && x.SmallBlock? ==> (y == x <==> size <= s.cfg.MaxClass() && BinIndex(s.cfg, size) == x.bin)
      ensures r.Some? ==> (y.SmallBlock? <==> size <= s.cfg.MaxClass())
      // A large block that stays large moves exactly if there is no room for it where it is.
      ensures x.LargeBlock? && s.cfg.MaxClass() < size ==> (r == Some(ptr) && y == x <==> old(CanStay(x.p, size)))
      ensures r.Some? && y.LargeBlock? ==> y.p in Used() && Used()[y.p] == Run(PagesFor(size), Large)
      ensures pages.chunks.Keys <= old(pages.chunks.Keys) + Supplied(newChunk)
    {
      hide R.HeaderOk, R.FreeRegs, RbTree.Valid, RbTree.Contents, BinState, InUse, HeadersOk, LiveOk;
      hide PageArena.Valid, BlockOffset, BlockSize;
      hide CeilPages, Pow2, BinIndex, RegSize, SameClass, BinOk, RunPages, CanStay, GivesBack, SamePages, UsableOf;
      var oldsize := Salloc(ptr, x);
      SizeTells(x);
      y := x;
      if size <= s.cfg.MaxClass() {
        Tests(x, size);
        if SameClass(s.cfg, size, oldsize) {
          SameClassFits(x, size);
          Resized(x, Used(), size);
          live := live[x := size];
          return Some(ptr), y;
        }
      } else if oldsize > s.cfg.MaxClass() && oldsize <= pages.geo.MaxPages() * s.PageBytes() {
        Lookup(x);
        var p, len := LargeAt(ptr, x);
        var ok := RallocLarge(p, len, size);
        if ok {
          LargeLength(p);
          return Some(ptr), y;
        }
        assert newChunk.Some? ==> newChunk.value !in pages.chunks.Keys;
      }
      r, y := Move(ptr, x, size, newChunk);
    }

    /** Allocate a block elsewhere and give the old one back. */
    method Move(ptr: Ptr, ghost x: Block, size: nat, newChunk: Option<int>) returns (r: Option<Ptr>, ghost y: Block)
      requires Valid() && x in live && ptr == PtrOf(x) && 1 <= size && PagesFor(size) <= pages.geo.MaxPages()
      requires newChunk.Some? ==> newChunk.value !in pages.chunks && 0 <= newChunk.value < pages.geo.nchunks
      modifies this, pages, pages.runsAvail, pages.chunksDirty, trees
      ensures Valid()
      ensures r.None? ==> live == old(live) && newChunk.None?
      ensures r.Some? ==> r.value == PtrOf(y) && y !in old(live) && live == (old(live) - {x})[y := size]
      ensures r.Some? ==> (y.SmallBlock? <==> size <= s.cfg.MaxClass())
      ensures r.Some? && y.LargeBlock? ==> y.p in Used() && Used()[y.p] == Run(PagesFor(size), Large)
      ensures pages.chunks.Keys <= old(pages.chunks.Keys) + Supplied(newChunk)
    {
      hide R.HeaderOk, R.FreeRegs, RbTree.Valid, RbTree.Contents, BinState, InUse, HeadersOk, LiveOk;
      hide PageArena.Valid, BlockOffset, CeilPages, Pow2, BinIndex, GivesBack, SamePages;
      r, y := Malloc(size, newChunk);
      if r.Some? {
        Dalloc(ptr, x);
        if y.LargeBlock? { LargeLength(y.p); }
      }
    }

    lemma Tests(x: Block, size: nat)
      requires Valid() && x in live && 1 <= size && 1 <= BlockSize(s, Used(), x)
      ensures x.SmallBlock? ==>
                (SameClass(s.cfg, size, BlockSize(s, Used(), x)) <==>
                   size <= s.cfg.MaxClass() && BinIndex(s.cfg, size) == x.bin)
      ensures SameClass(s.cfg, size, BlockSize(s, Used(), x)) ==> x.SmallBlock?
    {
      hide PageArena.Valid, RbTree.Valid, RbTree.Contents, BinsOk, LiveOk, HeadersOk, InUse, BinOk, BinIndex;
      hide RegSize, Pow2, CeilLog2, Ffs;
      SizeTells(x);
      SmallMinBelow(s.cfg);
      PowMonotone(s.cfg.smallMax2, s.cfg.page2 - 1);
      if x.SmallBlock? {
        ClassIsFixed(s.cfg, x.bin);
        SameClassIff(s.cfg, size, RegSize(s.cfg, x.bin));
      }
    }

    /** The run of a large block, and its length as the page map has it. */
    method LargeAt(ptr: Ptr, ghost x: Block) returns (p: Page, len: int)
      requires Valid() && x in live && ptr == PtrOf(x) && x.LargeBlock?
      ensures x == LargeBlock(p) && p in pages.runs && pages.runs[p] == Run(len, Large)
    {
      hide R.HeaderOk, R.FreeRegs, RbTree.Valid, RbTree.Contents, BinState, HeadersOk, PageArena.Valid;
      hide BlockOffset, LiveOk;
      Lookup(x);
      var ind := ptr.off / s.PageBytes();
      p := Page(ptr.chunk, ind);
      len := pages.chunks[ptr.chunk].map_[ind].hi;
    }

    // ---------- aligned blocks ----------

    /** An address in bytes; chunks are aligned to the chunk size. */
    function Addr(ptr: Ptr): int { ptr.chunk * (pages.geo.npages * s.PageBytes()) + ptr.off }

    /** `alignment` rounded up to whole pages, and the oversize run that `ipalloc` needs. */
    function OversizePages(alignment: nat, size: nat): int {
      var n, al := PagesFor(size), PagesFor(alignment);
      if n >= al then n + al - 1 else 2 * al - 1
    }

    /** `arena_palloc`, for alignments of more than a page. */
    method PallocLarge(alignment: nat, size: nat, newChunk: Option<int>) returns (r: Option<Ptr>, ghost x: Block)
      requires Valid() && 1 <= size && 1 < PagesFor(alignment) && OversizePages(alignment, size) <= pages.geo.MaxPages()
      requires newChunk.Some? ==> newChunk.value !in pages.chunks && 0 <= newChunk.value < pages.geo.nchunks
      modifies pages, pages.runsAvail, pages.chunksDirty, this`live
      ensures Valid()
      ensures r.None? ==> live == old(live) && newChunk.None?
      ensures r.Some? ==> x !in old(live) && live == old(live)[x := size] && r.value == PtrOf(x) && x.LargeBlock?
      ensures r.Some? ==> pages.PageNo(x.p) % PagesFor(alignment) == 0
      ensures pages.chunks.Keys <= old(pages.chunks.Keys) + Supplied(newChunk)
    {
      hide R.HeaderOk, R.FreeRegs, RbTree.Valid, RbTree.Contents, BinState, InUse, HeadersOk, LiveOk;
      hide PageArena.Valid, NoFit;
      hide CeilPages, Pow2;
      PagesForBounds(size);
      x := LargeBlock(Page(0, 0));
      var n := PagesFor(size);
      var got := pages.Palloc(PagesFor(alignment), n, OversizePages(alignment, size), newChunk);
      pages.NdirtySign();
      if got.None? {
        pages.UnchangedUsed(old(pages.runs));
        return None, x;
      }
      var p := got.value;
      x := LargeBlock(p);
      LargeAdded(old(Used()), p, n, size);
      live := live[x := size];
      r := Some(Ptr(p.chunk, p.ind * s.PageBytes()));
    }

    /** `size` rounded up to a multiple of `w`. */
    static function RoundedUp(size: nat, w: nat): (n: nat)
      requires 0 < w && 1 <= size
      ensures size <= n < size + w && w <= n && n % w == 0
    {
      CeilDivide(size, w);
      var k := (size + w - 1) / w;
      Decompose(k, 0, w);
      MulMono(1, k, w);
      assert w * k == k * w && w * (k - 1) == w * k - w;
      k * w
    }

    /** The request is beyond what the runs of a chunk can hold. */
    predicate NeedsHuge(a: nat, size: nat)
      requires 1 <= size
    {
      PowPositive(a);
      if Pow2(a) <= s.PageBytes() then RoundedUp(size, Pow2(a)) > pages.geo.MaxPages() * s.PageBytes()
      else OversizePages(Pow2(a), size) > pages.geo.MaxPages()
    }

    /** A whole number of pages is aligned to everything up to a page. */
    lemma PagesAlign(k: nat, a: nat)
      requires a <= s.cfg.page2
      ensures Pow2(a) > 0 && (k * s.PageBytes()) % Pow2(a) == 0
    {
      hide Pow2;
      PowPositive(a);
      PowAdd(s.cfg.page2 - a, a);
      MultipleOf(k, Pow2(s.cfg.page2 - a), Pow2(a));
    }

    static lemma MultipleOf(k: nat, m: nat, w: nat)
      requires 0 < w
      ensures (k * (m * w)) % w == 0
    {
      assert k * (m * w) == (k * m) * w;
      MulSign(k, m);
      Decompose(k * m, 0, w);
    }

    lemma AddrOfPage(p: Page)
      ensures Addr(Ptr(p.chunk, p.ind * s.PageBytes())) == pages.PageNo(p) * s.PageBytes()
    {
      hide Pow2;
      Distribute(p.chunk * pages.geo.npages, p.ind, s.PageBytes());
      assert p.chunk * (pages.geo.npages * s.PageBytes()) == (p.chunk * pages.geo.npages) * s.PageBytes();
    }

    lemma PageNoSign(p: Page)
      requires Valid() && p in pages.runs
      ensures 0 <= pages.PageNo(p)
    {
      hide PageArena.Valid, RbTree.Valid, RbTree.Contents, BinsOk, LiveOk, HeadersOk, InUse, BinOk, Pow2, RunMapped;
      pages.WholeAt(p);
      pages.RunBounds(p);
      MulSign(p.chunk, pages.geo.npages);
    }

    lemma MallocAligned(x: Block, ceil: nat, a: nat)
      requires Valid() && x in live && a <= s.cfg.page2 && 1 <= ceil && Pow2(a) > 0 && ceil % Pow2(a) == 0
      requires if ceil <= s.cfg.MaxClass() then x.SmallBlock? && x.bin == BinIndex(s.cfg, ceil) else x.LargeBlock?
      ensures Addr(PtrOf(x)) % Pow2(a) == 0
    {
      hide R.HeaderOk, R.FreeRegs, RbTree.Valid, RbTree.Contents, BinsOk, InUse, PageArena.Valid, LiveOk, HeadersOk;
      hide Pow2, BinIndex, RegSize, BlockSize, Addr;
      Lookup(x);
      PageNoSign(x.p);
      AddrOfPage(x.p);
      PagesAlign(pages.PageNo(x.p), a);
      if x.SmallBlock? {
        ClassAligned(s.cfg, ceil, a);
        SmallAligned(x, a);
      }
    }

    lemma SmallAligned(x: Block, a: nat)
      requires SetupOk(s, pages.geo) && x.SmallBlock? && x.bin < |s.bins| && x.reg < s.bins[x.bin].nregs
      requires a <= s.cfg.page2 && Pow2(a) > 0 && RegSize(s.cfg, x.bin) % Pow2(a) == 0 && 0 <= pages.PageNo(x.p)
      ensures Addr(PtrOf(x)) % Pow2(a) == 0
    {
      hide Pow2, RegSize;
      assert BinOk(s, pages.geo, x.bin);
      var b, w, n := s.bins[x.bin], s.PageBytes(), pages.PageNo(x.p);
      AddrOfPage(x.p);
      Distribute(n, RunPages(s, x.bin), w);
      PagesAlign(n + RunPages(s, x.bin), a);
      MulSign(n, w);
      RegionAligned(n * w, b, s.header, x.reg, Pow2(a));
    }

    lemma PagesAligned(p: Page, a: nat)
      requires s.cfg.page2 < a && PagesFor(Pow2(a)) > 0 && pages.PageNo(p) % PagesFor(Pow2(a)) == 0
      ensures Pow2(a) > 0 && Addr(PtrOf(LargeBlock(p))) % Pow2(a) == 0
    {
      hide Pow2, Addr;
      WholePages(a);
      AddrOfPage(p);
      PowPositive(a);
      var m := Pow2(a - s.cfg.page2);
      var k := pages.PageNo(p) / m;
      assert pages.PageNo(p) == m * k;
      PowAdd(a - s.cfg.page2, s.cfg.page2);
      assert (m * k) * s.PageBytes() == k * Pow2(a);
      PageArena.MultipleMod(k, Pow2(a));
    }

    /** An alignment of more than a page is a whole number of pages. */
    lemma WholePages(a: nat)
      requires s.cfg.page2 < a
      ensures PagesFor(Pow2(a)) == Pow2(a - s.cfg.page2) && 1 < Pow2(a - s.cfg.page2)
    {
      hide Pow2;
      var m, w := Pow2(a - s.cfg.page2), s.PageBytes();
      PowAdd(a - s.cfg.page2, s.cfg.page2);
      PowPositive(s.cfg.page2);
      Decompose(m, w - 1, w);
      PowStrict(0, a - s.cfg.page2);
      PowOne();
    }

    /** `n` bytes fit in `k` pages exactly if they need no more than `k` pages. */
    lemma PagesForMost(size: nat, k: nat)
      requires 1 <= size
      ensures PagesFor(size) <= k <==> size <= k * s.PageBytes()
    {
      hide Pow2;
      var w := s.PageBytes();
      PowPositive(s.cfg.page2);
      CeilDivide(size, w);
      var n := PagesFor(size);
      if n <= k { MulMono(n, k, w); } else { MulMono(k, n - 1, w); }
    }

    /** Rounding up to a divisor of the page size crosses no page boundary. */
    lemma RoundedWithin(size: nat, a: nat, k: nat)
      requires 1 <= size <= k * s.PageBytes() && a <= s.cfg.page2 && Pow2(a) > 0
      ensures RoundedUp(size, Pow2(a)) <= k * s.PageBytes()
    {
      hide Pow2, RoundedUp;
      PagesAlign(k, a);
      NextMultiple(RoundedUp(size, Pow2(a)), k * s.PageBytes(), size, Pow2(a));
    }

    static lemma NextMultiple(n: nat, m: nat, size: int, w: nat)
      requires 0 < w && n % w == 0 && m % w == 0 && size <= m && n < size + w
      ensures n <= m
    {
      ExactMultiple(n, w);
      ExactMultiple(m, w);
      Steps(Quot(n, w), Quot(m, w), w);
    }

    static lemma Steps(i: int, j: int, w: nat)
      ensures i <= j ==> i * w <= j * w
      ensures j < i ==> j * w + w <= i * w
    {
      Distribute(j, 1, w);
      if i <= j { MulMono(i, j, w); } else { MulMono(j + 1, i, w); }
    }

    /** What decides the route of an aligned request. */
    lemma RouteFacts(a: nat, size: nat)
      requires 1 <= size && Pow2(a) > 0 && pages.geo.Ok()
      ensures var w, ceil, most := s.PageBytes(), RoundedUp(size, Pow2(a)), pages.geo.MaxPages() * s.PageBytes();
              && (Pow2(a) <= w <==> a <= s.cfg.page2) && (ceil <= w ==> Pow2(a) <= w && ceil <= most)
              && (ceil <= most <==> PagesFor(ceil) <= pages.geo.MaxPages())
              && (Pow2(a) <= w && ceil > most ==> OversizePages(Pow2(a), size) > pages.geo.MaxPages())
              && (Pow2(a) > w ==> PagesFor(Pow2(a)) > 1)
    {
      hide Pow2, RoundedUp, PagesFor;
      var ceil, k := RoundedUp(size, Pow2(a)), pages.geo.MaxPages();
      PagesForMost(ceil, k);
      PagesForMost(size, k);
      PagesForMost(Pow2(a), 1);
      PagesForBounds(Pow2(a));
      PagesForBounds(size);
      MulMono(1, k, s.PageBytes());
      if a <= s.cfg.page2 { PowMonotone(a, s.cfg.page2); } else { PowStrict(s.cfg.page2, a); }
      if a <= s.cfg.page2 && size <= k * s.PageBytes() { RoundedWithin(size, a, k); }
    }

    /** The size that the arena is asked for: up to a page, alignment is had by rounding up. */
    function AskedFor(a: nat, size: nat): (n: nat)
      requires 1 <= size
      ensures size <= n
    {
      PowPositive(a);
      if Pow2(a) <= s.PageBytes() then RoundedUp(size, Pow2(a)) else size
    }

    /** `ipalloc` on the routes through the arena: a block at a multiple of `Pow2(a)`. */
    method Ipalloc(a: nat, size: nat, newChunk: Option<int>)
        returns (huge: bool, r: Option<Ptr>, ghost x: Block)
      requires Valid() && 1 <= size
      requires newChunk.Some? ==> newChunk.value !in pages.chunks && 0 <= newChunk.value < pages.geo.nchunks
      modifies this, pages, pages.runsAvail, pages.chunksDirty, trees
      ensures Valid() && (huge <==> NeedsHuge(a, size))
      ensures r.None? ==> live == old(live) && (huge || newChunk.None?)
      ensures r.Some? ==> !huge && x !in old(live) && live == old(live)[x := AskedFor(a, size)] && r.value == PtrOf(x)
      ensures r.Some? ==> (x.SmallBlock? <==> Pow2(a) <= s.PageBytes() && AskedFor(a, size) <= s.cfg.MaxClass())
      ensures r.Some? ==> Pow2(a) > 0 && Addr(r.value) % Pow2(a) == 0
      ensures pages.chunks.Keys <= old(pages.chunks.Keys) + Supplied(newChunk)
    {
      hide R.HeaderOk, R.FreeRegs, RbTree.Valid, RbTree.Contents, BinState, InUse, HeadersOk, LiveOk;
      hide PageArena.Valid, BlockOffset;
      hide CeilPages, Pow2, BinIndex, RegSize, BinOk, OversizePages, RoundedUp;
      PowPositive(a);
      PowPositive(s.cfg.page2);
      var alignment, most := Pow2(a), pages.geo.MaxPages() * s.PageBytes();
      var ceil := RoundedUp(size, alignment);
      x, r, huge := LargeBlock(Page(0, 0)), None, false;
      pages.ValidGeo();
      RouteFacts(a, size);
      if ceil <= s.PageBytes() || (alignment <= s.PageBytes() && ceil <= most) {
        r, x := Malloc(ceil, newChunk);
        if r.Some? { MallocAligned(x, ceil, a); }
      } else if OversizePages(alignment, size) <= pages.geo.MaxPages() {
        r, x := PallocLarge(alignment, size, newChunk);
        if r.Some? { PagesAligned(x.p, a); }
      } else {
        huge := true;
      }
    }

    // ---------- what the invariant promises ----------

    lemma UsedApart()
      requires Valid()
      ensures Apart(Used()) && forall p :: p in Used() ==> 0 < Used()[p].len
    {
      hide RbTree.Valid, RbTree.Contents, BinsOk, LiveOk, HeadersOk, SetupOk, Mapped, CoalescedBut, AvailKeys;
      hide Contiguous, Rooted;
    }

    /** No two live blocks share a byte. */
    lemma LiveDisjoint(x: Block, y: Block)
      requires Valid() && x in live && y in live && x != y
      ensures Disjoint(s, Used(), x, y)
    {
      hide RbTree.Valid, RbTree.Contents, BinsOk, HeadersOk, SetupOk, PageArena.Valid, InUse, IsBlock;
      hide BlockOffset, BlockSize, Apart;
      UsedApart();
      assert Recorded(s, Used(), hdrs, live, x) && Recorded(s, Used(), hdrs, live, y);
      BlocksDisjoint(s, pages.geo, Used(), hdrs, x, y);
    }

    /** A live block has room for its request and lies in the non-header pages of a chunk. */
    lemma LiveInside(x: Block)
      requires Valid() && x in live
      ensures 1 <= live[x] <= BlockSize(s, Used(), x) == UsableOf(s, x.SmallBlock?, live[x])
      ensures x.p.chunk in pages.chunks
      ensures pages.geo.header * s.PageBytes() <= BlockOffset(s, x)
      ensures BlockOffset(s, x) + BlockSize(s, Used(), x) <= pages.geo.npages * s.PageBytes()
      ensures x.SmallBlock? ==> x.p.ind * s.PageBytes() + s.header <= BlockOffset(s, x)
    {
      hide RbTree.Valid, RbTree.Contents, BinsOk, HeadersOk, SetupOk, PageArena.Valid, InUse, BlockOffset;
      hide BlockSize, Pow2, RunMapped;
      assert Recorded(s, Used(), hdrs, live, x);
      SnugSize(s, pages.geo, Used(), x, live[x]);
      Lookup(x);
      BlockInRun(s, pages.geo, Used(), hdrs, x);
      pages.RunBounds(x.p);
      MulMono(pages.geo.header, x.p.ind, s.PageBytes());
      MulMono(x.p.ind + pages.runs[x.p].len, pages.geo.npages, s.PageBytes());
    }
  }
}
