/**
  The page layer of an arena (`libs/jemalloc/jemalloc.c`): runs of pages are cut
  from free runs by first-best-fit, coalesced when they come back, and dirty
  pages are purged when there are too many of them.
 */
module PageArenas {
  import opened Prelude
  import opened PageMap
  import opened AvailRuns
  import opened DirtyPages
  import opened PageState
  import opened RbTrees

  class PageArena {
    const geo: Geometry
    const dirtyMax: int
    const runsAvail: RbTree
    const chunksDirty: RbTree
    var chunks: map<int, Chunk>
    var spare: Option<int>
    var ndirty: int
    ghost var runs: Runs

    ghost predicate Trees()
      reads this, runsAvail, chunksDirty
    {
      runsAvail != chunksDirty && runsAvail.Valid() && chunksDirty.Valid()
    }

    ghost predicate Valid()
      reads this, runsAvail, chunksDirty
    {
      Trees() && Whole(geo, chunks, runs, spare, ndirty, runsAvail.Contents(), chunksDirty.Contents())
    }

    constructor (g: Geometry, dirtyMax: int)
      requires g.Ok() && 0 <= dirtyMax
      ensures Valid() && geo == g && this.dirtyMax == dirtyMax
      ensures runs == map[] && chunks == map[] && spare == None && ndirty == 0
      ensures fresh(runsAvail) && fresh(chunksDirty)
    {
      geo := g;
      this.dirtyMax := dirtyMax;
      runsAvail := new RbTree();
      chunksDirty := new RbTree();
      chunks, spare, ndirty, runs := map[], None, 0, map[];
      new;
      SumPositive(chunks, g.nchunks);
    }

    static function ClaimedElm(ind: int, large: bool): Elm {
      if large then Elm(0, true, true, false, false) else Elm(ind, true, false, false, false)
    }

    /** Initialise the map entries of an allocated run; `cleaned` of its pages were dirty. */
    static method ClaimPages(m0: seq<Elm>, ind: int, need: int, large: bool) returns (m: seq<Elm>, cleaned: int)
      requires 0 <= ind && 0 < need && ind + need <= |m0|
      ensures SameBut(m0, m, ind, ind + need)
      ensures RunMapped(m, ind, Run(need, if large then Large else Small)) && DirtSet(m0, m, ind, need, false)
      ensures cleaned == CountDirty(m0) - CountDirty(m) && 0 <= cleaned
    {
      m, cleaned := m0, 0;
      for i := 0 to need
        invariant SameBut(m0, m, ind, ind + i)
        invariant forall j :: ind <= j < ind + i ==> m[j] == ClaimedElm(ind, large)
        invariant cleaned == CountDirty(m0) - CountDirty(m) && 0 <= cleaned
      {
        if m[ind + i].dirty {
          cleaned := cleaned + 1;
        }
        CountUpdate(m, ind + i, ClaimedElm(ind, large));
        m := m[ind + i := ClaimedElm(ind, large)];
      }
      if large {
        CountUpdate(m, ind, m[ind].(hi := need));
        m := m[ind := m[ind].(hi := need)];
      }
    }

    /** The map entries after the front of a free run has been taken. */
    static method SplitEntries(m0: seq<Elm>, ind: int, total: int, need: int, large: bool)
      returns (m: seq<Elm>, cleaned: int)
      requires RunMapped(m0, ind, Run(total, Free)) && 0 < need <= total
      ensures TakenMap(m0, m, ind, total, need, if large then Large else Small) && SameBut(m0, m, ind, ind + total)
      ensures cleaned == CountDirty(m0) - CountDirty(m) && 0 <= cleaned && DirtSet(m0, m, ind, need, false)
    {
      hide RunMapped, CountDirty;
      var m1 := MarkRest(m0, ind, total, need);
      m, cleaned := ClaimPages(m1, ind, need, large);
      if need < total { RunElsewhere(m1, m, ind + need, Run(total - need, Free), ind, ind + need); }
    }

    /** What remains of a free run whose front is taken is a free run of its own. */
    static method MarkRest(m0: seq<Elm>, ind: int, total: int, need: int) returns (m: seq<Elm>)
      requires RunMapped(m0, ind, Run(total, Free)) && 0 < need <= total
      ensures SameBut(m0, m, ind + need, ind + total) && DirtSet(m0, m, 0, 0, false) && CountDirty(m) == CountDirty(m0)
      ensures need < total ==> RunMapped(m, ind + need, Run(total - need, Free))
      ensures 0 <= ind && ind + total <= |m|
    {
      m := m0;
      var rem := total - need;
      if rem > 0 {
        m := m[ind + need := m[ind + need].(hi := rem)];
        m := m[ind + total - 1 := m[ind + total - 1].(hi := rem)];
      }
      CountSame(m0, m);
    }

    static lemma RunElsewhere(m: seq<Elm>, m': seq<Elm>, s: int, run: Run, lo: int, hi: int)
      requires RunMapped(m, s, run) && SameBut(m, m', lo, hi) && (hi <= s || s + run.len <= lo)
      ensures RunMapped(m', s, run)
    {
    }

    /** What the invariant says of the run at `p`. */
    lemma WholeAt(p: Page)
      requires Valid() && p in runs
      ensures geo.Ok() && p.chunk in chunks && 0 <= p.chunk < geo.nchunks && ChunkOk(geo, chunks[p.chunk].map_)
      ensures OnMap(geo, p) && geo.header <= p.ind < geo.npages && RunMapped(chunks[p.chunk].map_, p.ind, runs[p])
      ensures |chunks[p.chunk].map_| == geo.npages
      ensures runs[p].kind == Small || chunks[p.chunk].map_[p.ind].hi == runs[p].len
      ensures chunks[p.chunk].ndirty == CountDirty(chunks[p.chunk].map_) && 0 <= chunks[p.chunk].ndirty
      ensures p.chunk in chunksDirty.Contents() <==> chunks[p.chunk].ndirty > 0
    {
      InChunk(geo, chunks, runs, None, p);
      CountSign(chunks[p.chunk].map_);
    }

    /** Every non-header page belongs to exactly one run, and its entry says to which kind;
        a free run has its length at both ends, and no allocated page is dirty. */
    lemma PageBelongs(c: int, i: int) returns (p: Page)
      requires Valid() && c in chunks && geo.header <= i < geo.npages
      ensures p in runs && p.chunk == c && p.ind <= i < p.ind + runs[p].len
      ensures forall q :: q in runs && q.chunk == c && q.ind <= i < q.ind + runs[q].len ==> q == p
      ensures |chunks[c].map_| == geo.npages && 0 <= p.ind && p.ind + runs[p].len <= geo.npages
      ensures var m, n := chunks[c].map_, runs[p].len;
              && (m[i].inUse <==> runs[p].kind != Free) && (m[i].inUse ==> !m[i].dirty)
              && (runs[p].kind == Free ==> m[p.ind].hi == n && m[p.ind + n - 1].hi == n)
    {
      hide CoalescedBut, AvailKeys, RbTree.Valid, RbTree.Contents, Counted, Contiguous, Rooted;
      p := Owner(geo, chunks.Keys, runs, c, i);
      InChunk(geo, chunks, runs, None, p);
    }

    /** Coalescing is maximal: no two free runs are adjacent. */
    lemma NoAdjacentFree(p: Page)
      requires Valid() && IsFree(runs, p)
      ensures !IsFree(runs, Next(runs, p))
    {
      hide AvailKeys, RbTree.Valid, RbTree.Contents, Counted, Tiled, Mapped;
    }

    /** The dirty pages are counted in each chunk and in all, and `chunks_dirty` holds
        exactly the chunks that have some. */
    lemma DirtyAccounting()
      requires Valid()
      ensures forall c :: c in chunks ==> chunks[c].ndirty == CountDirty(chunks[c].map_)
      ensures ndirty == SumDirty(chunks, geo.nchunks)
      ensures forall c :: c in chunksDirty.Contents() <==> c in chunks && chunks[c].ndirty > 0
    {
      hide AvailKeys, RbTree.Valid, RbTree.Contents, Tiled, Mapped, CoalescedBut, CountDirty, SumDirty;
    }

    lemma HeaderKept(m: seq<Elm>, m': seq<Elm>, lo: int, hi: int)
      requires ChunkOk(geo, m) && SameBut(m, m', lo, hi) && geo.header <= lo
      ensures ChunkOk(geo, m')
    {
    }

    /** `arena_run_split`. */
    method RunSplit(p: Page, need: int, large: bool)
      requires Valid() && Avail(runs, spare, p) && 0 < need <= runs[p].len
      modifies this`chunks, this`ndirty, this`runs, runsAvail, chunksDirty
      ensures Valid() && chunks.Keys == old(chunks.Keys) && ndirty <= old(ndirty)
      ensures runs == TakeRuns(old(runs), p, need, if large then Large else Small)
      ensures Dirt(chunks) == old(Dirt(chunks)) - PagesOf(p, need)
    {
      hide Dirt, PagesOf;
      hide Whole, RunMapped, TakenMap, CountDirty, RbTree.Valid, RbTree.Contents, ChunkOk, Key, TakeRuns, Touch;
      var c := p.chunk;
      WholeAt(p);
      var oldNdirty := chunks[c].ndirty;
      var total := chunks[c].map_[p.ind].hi;
      var rem := total - need;
      var m, cleaned := SplitEntries(chunks[c].map_, p.ind, total, need, large);
      var ch := Chunk(m, oldNdirty - cleaned);
      HeaderKept(chunks[c].map_, m, p.ind, p.ind + total);
      DirtStep(chunks, c, ch, p.ind, need, false);
      ghost var k := if large then Large else Small;
      TakeStep(geo, chunks, runs, spare, ndirty, runsAvail.Contents(), chunksDirty.Contents(), p, need, k, ch);
      Rename(Key(geo, total, p), rem > 0, if rem > 0 then Key(geo, rem, After(p, need)) else 0);
      CountSign(m);
      Retag(c, oldNdirty, ch.ndirty);
      chunks, ndirty := chunks[c := ch], ndirty - cleaned;
      runs := TakeRuns(runs, p, need, k);
    }

    /** Take a node out of `runs_avail` and enter another one instead, if there is one. */
    method Rename(node: int, more: bool, node': int)
      requires runsAvail.Valid() && node in runsAvail.Contents() && (more ==> node' !in runsAvail.Contents())
      modifies runsAvail
      ensures runsAvail.Valid()
      ensures runsAvail.Contents() == old(runsAvail.Contents()) - {node} + if more then {node'} else {}
    {
      hide RbTree.Valid, RbTree.Contents;
      runsAvail.Remove(node);
      if more { runsAvail.Insert(node'); }
    }

    /** A chunk without dirty pages leaves `chunks_dirty`. */
    method Retag(c: int, was: int, now: int)
      requires chunksDirty.Valid() && 0 <= now <= was && (c in chunksDirty.Contents() <==> was > 0)
      modifies chunksDirty
      ensures chunksDirty.Valid() && chunksDirty.Contents() == Touch(old(chunksDirty.Contents()), c, now)
    {
      hide RbTree.Valid, RbTree.Contents;
      if now == 0 && was > 0 { chunksDirty.Remove(c); }
      assert chunksDirty.Contents() == Touch(old(chunksDirty.Contents()), c, now);
    }

    // ---------- giving runs back ----------

    ghost predicate HalfValid(p: Page, x: Option<Page>)
      reads this, runsAvail, chunksDirty
    {
      Trees() && Half(geo, chunks, runs, spare, ndirty, runsAvail.Contents(), chunksDirty.Contents(), p, x)
    }

    /** Only chunk `c` may differ. */
    static ghost predicate OnlyChunk(chunks: map<int, Chunk>, chunks': map<int, Chunk>, c: int) {
      && chunks'.Keys == chunks.Keys && (forall x :: x in chunks <==> x in chunks')
      && forall x :: x in chunks && x != c ==> chunks'[x] == chunks[x]
    }

    /** Mark the entries of a run as unallocated, and enter its size at both ends. */
    static method FreeEntries(m0: seq<Elm>, ind: int, n: int, dirty: bool) returns (m: seq<Elm>)
      requires 0 <= ind && 0 < n && ind + n <= |m0|
      requires forall i :: ind <= i < ind + n ==> !m0[i].dirty
      ensures SameBut(m0, m, ind, ind + n) && RunMapped(m, ind, Run(n, Free))
      ensures CountDirty(m) == CountDirty(m0) + (if dirty then n else 0) && DirtSet(m0, m, ind, n, dirty)
    {
      m := m0;
      for i := 0 to n
        invariant SameBut(m0, m, ind, ind + i)
        invariant forall j :: ind <= j < ind + i ==> !m[j].inUse && m[j].dirty == dirty
        invariant CountDirty(m) == CountDirty(m0) + if dirty then i else 0
      {
        var e := if dirty then Elm(0, false, false, true, false)
                 else m[ind + i].(inUse := false, large := false);
        CountUpdate(m, ind + i, e);
        m := m[ind + i := e];
      }
      m := EnterSize(m, ind, n);
    }

    /** Set the size in the first and in the last entry of a free run. */
    static method EnterSize(m0: seq<Elm>, ind: int, n: int) returns (m: seq<Elm>)
      requires 0 <= ind && 0 < n && ind + n <= |m0|
      requires forall i :: ind <= i < ind + n ==> !m0[i].inUse
      ensures SameBut(m0, m, ind, ind + n) && RunMapped(m, ind, Run(n, Free))
      ensures CountDirty(m) == CountDirty(m0) && DirtSet(m0, m, 0, 0, false)
    {
      m := m0[ind := m0[ind].(hi := n)];
      m := m[ind + n - 1 := m[ind + n - 1].(hi := n)];
      CountSame(m0, m);
    }

    /** The first part of `arena_run_dalloc`. */
    method Release(p: Page, n: int, dirty: bool)
      requires Valid() && p in runs && runs[p].kind != Free && n == runs[p].len
      modifies this`chunks, this`ndirty, this`runs, chunksDirty
      ensures HalfValid(p, Some(p)) && chunks.Keys == old(chunks.Keys)
      ensures runs == Relabel(old(runs), p, Free) && ndirty == old(ndirty) + if dirty then n else 0
      ensures Dirt(chunks) == if dirty then old(Dirt(chunks)) + PagesOf(p, n) else old(Dirt(chunks)) - PagesOf(p, n)
      ensures OnlyChunk(old(chunks), chunks, p.chunk)
    {
      hide Dirt, PagesOf;
      hide Whole, Half, CountDirty, RbTree.Valid, RbTree.Contents, ChunkOk;
      WholeAt(p);
      var c := p.chunk;
      var m := FreeEntries(chunks[c].map_, p.ind, n, dirty);
      HeaderKept(chunks[c].map_, m, p.ind, p.ind + n);
      CountSign(m);
      ghost var tree := chunksDirty.Contents();
      var ch := Chunk(m, chunks[c].ndirty + if dirty then n else 0);
      DirtStep(chunks, c, ch, p.ind, n, dirty);
      ReleaseStep(geo, chunks, runs, spare, ndirty, runsAvail.Contents(), tree, p, ch);
      if dirty {
        if chunks[c].ndirty == 0 {
          chunksDirty.Insert(c);
        }
        ndirty := ndirty + n;
      }
      chunks := chunks[c := ch];
      runs := Relabel(runs, p, Free);
      assert chunksDirty.Contents() == Touch(tree, c, ch.ndirty);
    }

    lemma HalfAt(p: Page, x: Option<Page>, q: Page)
      requires HalfValid(p, x) && q in runs
      ensures geo.Ok() && q.chunk in chunks && ChunkOk(geo, chunks[q.chunk].map_)
          && |chunks[q.chunk].map_| == geo.npages
      ensures geo.header <= q.ind && 0 < runs[q].len && q.ind + runs[q].len <= geo.npages
      ensures RunMapped(chunks[q.chunk].map_, q.ind, runs[q]) && IsFree(runs, p)
      ensures chunks[q.chunk].ndirty == CountDirty(chunks[q.chunk].map_) && 0 <= chunks[q.chunk].ndirty
      ensures q.chunk in chunksDirty.Contents() <==> chunks[q.chunk].ndirty > 0
    {
      hide RunMapped, Tiled, CoalescedBut, AvailKeys, RbTree.Valid, RbTree.Contents, CountDirty, SumDirty;
      InChunk(geo, chunks, runs, x, q);
      CountSign(chunks[q.chunk].map_);
    }

    /** Join the run with a free run behind it. */
    method CoalesceForward(p: Page)
      requires HalfValid(p, Some(p))
      modifies this`chunks, this`runs, runsAvail
      ensures HalfValid(p, Some(p)) && chunks.Keys == old(chunks.Keys)
      ensures p in runs && !IsFree(runs, Next(runs, p)) && InUse(runs) == old(InUse(runs))
      ensures Dirt(chunks) == old(Dirt(chunks)) && OnlyChunk(old(chunks), chunks, p.chunk)
    {
      hide Dirt, PagesOf;
      hide Half, CountDirty, RbTree.Valid, RbTree.Contents, ChunkOk, InUse, JoinRuns;
      HalfFree(p, Some(p));
      HalfAt(p, Some(p), p);
      var c := p.chunk;
      var n := chunks[c].map_[p.ind].hi;
      if p.ind + n < geo.npages {
        HalfAhead(p);
        if !chunks[c].map_[p.ind + n].inUse {
          var k := chunks[c].map_[p.ind + n].hi;
          ghost var next := Next(runs, p);
          HalfAt(p, Some(p), next);
          var m := EnterSize(chunks[c].map_, p.ind, n + k);
          HeaderKept(chunks[c].map_, m, p.ind, p.ind + n + k);
          var ch := Chunk(m, chunks[c].ndirty);
          DirtSame(chunks, c, ch);
          ForwardStep(geo, chunks, runs, spare, ndirty, runsAvail.Contents(), chunksDirty.Contents(), p, ch);
          InUseJoin(runs, p);
          runsAvail.Remove(Key(geo, k, After(p, n)));
          chunks := chunks[c := ch];
          runs := JoinRuns(runs, p, Free);
          assert chunksDirty.Contents() == Touch(chunksDirty.Contents(), c, ch.ndirty);
          HalfFree(p, Some(p));
        }
      } else {
        HalfEnd(p);
      }
    }

    lemma HalfFree(p: Page, x: Option<Page>)
      requires HalfValid(p, x)
      ensures p in runs && IsFree(runs, p) && Avail(runs, spare, p)
    {
    }

    lemma HalfAhead(p: Page)
      requires HalfValid(p, Some(p)) && p in runs && p.ind + runs[p].len < geo.npages
      ensures p.chunk in chunks && |chunks[p.chunk].map_| == geo.npages && 0 <= p.ind + runs[p].len
      ensures Next(runs, p) in runs
      ensures var e := chunks[p.chunk].map_[p.ind + runs[p].len];
              (!e.inUse <==> IsFree(runs, Next(runs, p))) && (!e.inUse ==> e.hi == runs[Next(runs, p)].len)
    {
      hide RunMapped, Tiled, CoalescedBut, AvailKeys, RbTree.Valid, RbTree.Contents, CountDirty, SumDirty, Counted;
      LookAhead(geo, chunks, runs, Some(p), p);
    }

    lemma HalfEnd(p: Page)
      requires HalfValid(p, Some(p)) && p in runs && p.ind + runs[p].len == geo.npages
      ensures Next(runs, p) !in runs
    {
      hide RunMapped, CoalescedBut, AvailKeys, RbTree.Valid, RbTree.Contents, CountDirty, SumDirty, Counted;
      hide Contiguous, Apart, Mapped;
    }

    lemma HalfBehind(p: Page) returns (q: Page)
      requires HalfValid(p, Some(p)) && p in runs && geo.header < p.ind
      ensures p.chunk in chunks && |chunks[p.chunk].map_| == geo.npages && 0 < p.ind <= geo.npages
      ensures q in runs && Next(runs, q) == p && forall y :: y in runs && Next(runs, y) == p ==> y == q
      ensures var e := chunks[p.chunk].map_[p.ind - 1];
              (!e.inUse <==> IsFree(runs, q)) && (!e.inUse ==> e.hi == runs[q].len)
    {
      hide RunMapped, CoalescedBut, AvailKeys, RbTree.Valid, RbTree.Contents, CountDirty, SumDirty, Counted, Mapped;
      hide Rooted, Contiguous, Apart;
      q := LookBehind(geo, chunks, runs, Some(p), p);
      OnlyBefore(runs, q, p);
    }

    /** Coalescing is complete when no free run precedes `p`. */
    lemma HalfSettled(p: Page)
      requires HalfValid(p, Some(p)) && p in runs && !IsFree(runs, Next(runs, p))
      requires forall y :: y in runs && Next(runs, y) == p ==> !IsFree(runs, y)
      ensures HalfValid(p, None)
    {
      hide RunMapped, AvailKeys, RbTree.Valid, RbTree.Contents, Counted, Mapped, Tiled, Positive, AllOnMap;
      SettledCoalesced(runs, p);
    }

    /** Nothing precedes the first run of a chunk. */
    lemma HalfFirst(p: Page)
      requires HalfValid(p, Some(p)) && p in runs && p.ind <= geo.header
      ensures forall y :: y in runs && Next(runs, y) == p ==> !IsFree(runs, y)
    {
      hide RunMapped, AvailKeys, RbTree.Valid, RbTree.Contents, Counted, Mapped, CoalescedBut, Apart;
      hide Contiguous, AllOnMap;
    }

    /** Join the run with a free run before it; the result starts at `q`. */
    method CoalesceBackward(p: Page) returns (q: Page)
      requires HalfValid(p, Some(p)) && p in runs && !IsFree(runs, Next(runs, p))
      modifies this`chunks, this`runs, runsAvail
      ensures HalfValid(q, None) && chunks.Keys == old(chunks.Keys) && q.chunk == p.chunk
      ensures q in runs && InUse(runs) == old(InUse(runs)) && Dirt(chunks) == old(Dirt(chunks))
      ensures OnlyChunk(old(chunks), chunks, p.chunk)
    {
      hide Dirt, PagesOf;
      hide Half, CountDirty, RbTree.Valid, RbTree.Contents, ChunkOk, InUse, JoinRuns;
      HalfFree(p, Some(p));
      HalfAt(p, Some(p), p);
      var c := p.chunk;
      q := p;
      if p.ind > geo.header {
        ghost var b := HalfBehind(p);
        if !chunks[c].map_[p.ind - 1].inUse {
          var k := chunks[c].map_[p.ind - 1].hi;
          var n := chunks[c].map_[p.ind].hi;
          q := Page(c, p.ind - k);
          HalfAt(p, Some(p), q);
          var m := EnterSize(chunks[c].map_, q.ind, k + n);
          HeaderKept(chunks[c].map_, m, q.ind, q.ind + k + n);
          var ch := Chunk(m, chunks[c].ndirty);
          DirtSame(chunks, c, ch);
          BackwardStep(geo, chunks, runs, spare, ndirty, runsAvail.Contents(), chunksDirty.Contents(), q, p, ch);
          InUseJoin(runs, q);
          runsAvail.Remove(Key(geo, k, q));
          chunks := chunks[c := ch];
          runs := JoinRuns(runs, q, Free);
          assert chunksDirty.Contents() == Touch(chunksDirty.Contents(), c, ch.ndirty);
          HalfFree(q, None);
        } else {
          HalfSettled(p);
        }
      } else {
        HalfFirst(p);
        HalfSettled(p);
      }
    }

    /** The run is complete: enter it into the tree of available runs. */
    method MakeAvailable(q: Page)
      requires HalfValid(q, None) && q in runs
      modifies runsAvail
      ensures Valid() && Avail(runs, spare, q)
    {
      hide Half, Whole, RbTree.Valid, RbTree.Contents;
      HalfFree(q, None);
      HalfAt(q, None, q);
      InsertStep(geo, chunks, runs, spare, ndirty, runsAvail.Contents(), chunksDirty.Contents(), q);
      runsAvail.Insert(Key(geo, chunks[q.chunk].map_[q.ind].hi, q));
    }

    // ---------- chunks ----------

    /** The map of a new chunk: all pages behind the header form one clean free run. */
    static method InitMap(g: Geometry) returns (m: seq<Elm>)
      requires g.Ok()
      ensures ChunkOk(g, m) && RunMapped(m, g.header, WholeRun(g)) && CountDirty(m) == 0
      ensures forall i :: 0 <= i < |m| ==> !m[i].dirty
    {
      m := [];
      var i := 0;
      while i < g.header
        invariant 0 <= i <= g.header && |m| == i
        invariant forall j :: 0 <= j < i ==> m[j] == Elm(0, false, false, false, false)
      {
        m := m + [Elm(0, false, false, false, false)];
        i := i + 1;
      }
      while i < g.npages
        invariant g.header <= i <= g.npages && |m| == i
        invariant forall j :: 0 <= j < i ==> !m[j].inUse && !m[j].dirty
        invariant forall j :: g.header <= j < i ==>
          m[j].hi == if j == g.header || j == g.npages - 1 then g.MaxPages() else 0
      {
        var size := if i == g.header || i == g.npages - 1 then g.MaxPages() else 0;
        m := m + [Elm(size, false, false, false, true)];
        i := i + 1;
      }
      CountSign(m);
    }

    /** `arena_chunk_init`. */
    method ChunkInit(c: int)
      requires Valid() && c !in chunks && 0 <= c < geo.nchunks && spare != Some(c)
      modifies this`chunks, this`runs, runsAvail
      ensures Valid() && chunks.Keys == old(chunks.Keys) + {c}
      ensures runs == old(runs)[ChunkPage(geo, c) := WholeRun(geo)] && InUse(runs) == old(InUse(runs))
      ensures Avail(runs, spare, ChunkPage(geo, c)) && Dirt(chunks) == old(Dirt(chunks))
    {
      hide Dirt, PagesOf;
      hide Whole, CountDirty, RbTree.Valid, RbTree.Contents, ChunkOk, RunMapped;
      ValidGeo();
      var m := InitMap(geo);
      AddChunkStep(geo, chunks, runs, spare, ndirty, runsAvail.Contents(), chunksDirty.Contents(), c, Chunk(m, 0));
      FreshChunk(c);
      DirtAdded(chunks, c, Chunk(m, 0));
      chunks := chunks[c := Chunk(m, 0)];
      runsAvail.Insert(Key(geo, geo.MaxPages(), ChunkPage(geo, c)));
      runs := runs[ChunkPage(geo, c) := WholeRun(geo)];
    }

    lemma ValidGeo()
      requires Valid()
      ensures geo.Ok() && AllOnMap(geo, runs) && runsAvail.Contents() == AvailKeys(geo, runs, spare)
    {
    }

    lemma NdirtySign()
      requires Valid()
      ensures 0 <= ndirty
    {
      hide Mapped, CoalescedBut, AvailKeys, RbTree.Valid, RbTree.Contents, Tiled, Good, CountDirty;
      forall c | c in chunks
        ensures chunks[c].ndirty >= 0
      {
        CountSign(chunks[c].map_);
      }
      SumPositive(chunks, geo.nchunks);
    }

    lemma FreshChunk(c: int)
      requires Valid() && c !in chunks
      ensures ChunkPage(geo, c) !in runs
    {
    }

    /** `arena_chunk_dealloc`: the old spare is unmapped, `c` becomes the spare. */
    method ChunkDealloc(c: int)
      requires Valid() && SpareOk(geo, runs, Some(c)) && spare != Some(c)
      modifies this`chunks, this`runs, this`spare, this`ndirty, runsAvail, chunksDirty
      ensures Valid() && spare == Some(c) && InUse(runs) == old(InUse(runs))
      ensures chunks.Keys == old(chunks.Keys) - (if old(spare).Some? then {old(spare).value} else {})
      ensures ndirty == old(ndirty - SpareDirty()) && 0 <= old(SpareDirty())
      ensures Dirt(chunks) == old(Dirt(chunks) - SparePages())
    {
      hide Dirt, PagesOf;
      hide Whole, CountDirty, RbTree.Valid, RbTree.Contents, ChunkOk, RunMapped;
      ValidGeo();
      if spare.Some? {
        DropSpare();
      }
      assert spare == None;
      SetAsideStep(geo, chunks, runs, ndirty, runsAvail.Contents(), chunksDirty.Contents(), c);
      runsAvail.Remove(Key(geo, geo.MaxPages(), ChunkPage(geo, c)));
      spare := Some(c);
    }

    /** The dirty pages that go with the spare chunk. */
    ghost function SpareDirty(): int
      reads this
    {
      if spare.Some? && spare.value in chunks then chunks[spare.value].ndirty else 0
    }

    ghost function SparePages(): set<Page>
      reads this
    {
      if spare.Some? then PagesOf(Page(spare.value, 0), geo.npages) else {}
    }

    method DropSpare()
      requires Valid() && spare.Some?
      modifies this`chunks, this`runs, this`spare, this`ndirty, chunksDirty
      ensures Valid() && spare == None && 0 <= old(SpareDirty())
      ensures ndirty == old(ndirty - SpareDirty()) && Dirt(chunks) == old(Dirt(chunks) - SparePages())
      ensures runs == old(runs) - {ChunkPage(geo, old(spare).value)} && InUse(runs) == old(InUse(runs))
      ensures chunks.Keys == old(chunks.Keys) - {old(spare).value}
    {
      hide Dirt, PagesOf;
      hide Whole, CountDirty, RbTree.Valid, RbTree.Contents, ChunkOk, RunMapped;
      var s := spare.value;
      SpareAt();
      WholeAt(ChunkPage(geo, s));
      DirtDropped(chunks, s);
      DropChunkStep(geo, chunks, runs, ndirty, runsAvail.Contents(), chunksDirty.Contents(), s);
      ghost var dirty := chunksDirty.Contents();
      if chunks[s].ndirty > 0 {
        chunksDirty.Remove(s);
        ndirty := ndirty - chunks[s].ndirty;
      }
      chunks := chunks - {s};
      runs := runs - {ChunkPage(geo, s)};
      spare := None;
      assert chunksDirty.Contents() == dirty - {s};
    }

    lemma SpareAt()
      requires Valid() && spare.Some?
      ensures IsFree(runs, ChunkPage(geo, spare.value)) && runs[ChunkPage(geo, spare.value)] == WholeRun(geo)
    {
    }

    // ---------- allocating a run ----------

    /** `arena_run_alloc` for `size` pages.  `newChunk` is what the system would supply. */
    method RunAlloc(size: int, large: bool, newChunk: Option<int>) returns (r: Option<Page>)
      requires Valid() && 0 < size <= geo.MaxPages()
      requires newChunk.Some? ==> newChunk.value !in chunks && 0 <= newChunk.value < geo.nchunks
      modifies this`chunks, this`runs, this`spare, this`ndirty, runsAvail, chunksDirty
      ensures Valid() && ndirty <= old(ndirty)
      // It fails only when nothing fits, there is no spare and no new chunk; then nothing changed.
      ensures r.None? <==> old(NoFit(runs, spare, size)) && old(spare).None? && newChunk.None?
      ensures r.None? ==> runs == old(runs) && chunks == old(chunks) && spare == old(spare)
      // Otherwise exactly the run at r is allocated, at the lowest best fit if there is one.
      ensures r.Some? ==> r.value !in old(InUse(runs))
      ensures r.Some? ==> InUse(runs) == old(InUse(runs))[r.value := Run(size, if large then Large else Small)]
      ensures !old(NoFit(runs, spare, size)) ==> r.Some? && old(BestFit(runs, spare, size, r.value))
      ensures old(NoFit(runs, spare, size)) && old(spare).Some? ==> r == Some(ChunkPage(geo, old(spare).value))
      ensures old(NoFit(runs, spare, size)) && old(spare).None? && newChunk.Some? ==>
                r == Some(ChunkPage(geo, newChunk.value))
      // The spare is used up, and a new chunk taken, exactly if they are needed.
      ensures spare == if old(NoFit(runs, spare, size)) then None else old(spare)
      ensures chunks.Keys == old(chunks.Keys) +
                (if old(NoFit(runs, spare, size) && spare.None?) && newChunk.Some? then {newChunk.value} else {})
      ensures Dirt(chunks) == old(Dirt(chunks)) - (if r.Some? then PagesOf(r.value, size) else {})
    {
      hide Dirt, PagesOf;
      hide Whole, CountDirty, RbTree.Valid, RbTree.Contents, ChunkOk, RunMapped, InUse, AvailKeys, Key;
      ValidGeo();
      var node := runsAvail.NSearch(Probe(geo, size));
      if node.Some? {
        LeastIsBestFit(geo, runs, spare, size, node.value);
        var p := PageOf(geo, node.value);
        InUseTake(p, size, large);
        RunSplit(p, size, large);
        return Some(p);
      }
      assert forall x :: x in runsAvail.Contents() ==> x < Probe(geo, size);
      NoneIsNoFit(geo, runs, spare, size);
      if spare.Some? {
        // Bring the spare chunk back.
        var p := ChunkPage(geo, spare.value);
        SpareAt();
        BringBackStep(geo, chunks, runs, ndirty, runsAvail.Contents(), chunksDirty.Contents(), spare.value);
        spare := None;
        runsAvail.Insert(Key(geo, geo.MaxPages(), p));
        InUseTake(p, size, large);
        RunSplit(p, size, large);
        return Some(p);
      }
      // Nothing fits: take what the system offers.
      if newChunk.None? {
        return None;
      }
      ChunkInit(newChunk.value);
      var p := ChunkPage(geo, newChunk.value);
      InUseTake(p, size, large);
      RunSplit(p, size, large);
      return Some(p);
    }

    lemma InUseTake(p: Page, n: int, large: bool)
      requires Valid() && Avail(runs, spare, p) && 0 < n <= runs[p].len
      ensures p !in InUse(runs)
      ensures var k := if large then Large else Small;
              InUse(TakeRuns(runs, p, n, k)) == InUse(runs)[p := Run(n, k)]
    {
      hide Mapped, CoalescedBut, AvailKeys, RbTree.Valid, RbTree.Contents, Counted, Tiled, Positive, AllOnMap;
      if n < runs[p].len {
        SplitTiled(geo, chunks.Keys, runs, p, n, Large, Free);
        InUseSplit(runs, p, n, if large then Large else Small);
      }
    }

    // ---------- purging ----------

    /** Entries `lo` to `hi` are dirty, and the stretch does not go on below. */
    static ghost predicate Stretch(g: Geometry, m: seq<Elm>, lo: int, hi: int) {
      && 0 <= g.header <= lo < hi <= |m| && (lo > g.header ==> !m[lo - 1].dirty)
      && forall j :: lo <= j < hi ==> m[j].dirty
    }

    /** Exactly the dirty flags from `lo` on have been cleared. */
    static ghost predicate ClearedFrom(m0: seq<Elm>, m: seq<Elm>, lo: int) {
      |m| == |m0| && forall j :: 0 <= j < |m| ==> m[j] == if j < lo then m0[j] else m0[j].(dirty := false)
    }

    /** Clear the stretch of dirty pages that ends at `i0`. */
    static method ClearStretch(g: Geometry, ghost all: seq<Elm>, m0: seq<Elm>, i0: int)
      returns (m: seq<Elm>, i: int, npages: int)
      requires ClearedFrom(all, m0, i0 + 1) && 0 < g.header <= i0 < |m0| && m0[i0].dirty
      ensures ClearedFrom(all, m, i) && Stretch(g, all, i, i0 + 1) && npages == i0 + 1 - i
      ensures CountDirty(m) == CountDirty(m0) - npages
    {
      hide CountDirty;
      i, npages := i0, 1;
      CountUpdate(m0, i, m0[i].(dirty := false));
      m := m0[i := m0[i].(dirty := false)];
      while i > g.header && m[i - 1].dirty
        invariant |m| == |m0| && CountDirty(m) == CountDirty(m0) - npages && ClearedFrom(all, m, i)
        invariant g.header <= i <= i0 && npages == i0 + 1 - i && forall j :: i <= j <= i0 ==> all[j].dirty
        decreases i
      {
        i := i - 1;
        CountUpdate(m, i, m[i].(dirty := false));
        m := m[i := m[i].(dirty := false)];
        npages := npages + 1;
      }
    }

    /** Clear dirty flags from the top of a chunk downwards, stretch by stretch, until none is
        left or enough pages (`excess`) have been purged; the last stretch is `lo` to `hi`. */
    static method PurgeChunk(g: Geometry, m0: seq<Elm>, nd0: int, excess: int)
      returns (m: seq<Elm>, nd: int, ghost lo: int, ghost hi: int)
      requires ChunkOk(g, m0) && g.Ok() && nd0 == CountDirty(m0) && 0 < nd0 && 0 < excess
      ensures Undirtied(m0, m) && nd == CountDirty(m) && 0 <= nd < nd0
      ensures nd == 0 || nd0 - nd >= excess
      // Exactly the pages from the last stretch on, which was still needed.
      ensures Stretch(g, m0, lo, hi) && ClearedFrom(m0, m, lo) && nd0 - nd - (hi - lo) < excess
    {
      hide CountDirty;
      m, nd := m0, nd0;
      var i := g.npages - 1;
      lo, hi := 0, 0;
      while nd > 0
        invariant |m| == g.npages && nd == CountDirty(m) && ClearedFrom(m0, m, i + 1)
        invariant nd < nd0 || (m == m0 && nd == nd0)
        invariant nd < nd0 ==> Stretch(g, m0, lo, hi) && ClearedFrom(m0, m, lo) && nd0 - nd - (hi - lo) < excess
        invariant g.header - 1 <= i < g.npages
        invariant nd0 - nd < excess
        decreases i
      {
        CountSign(m);
        if m[i].dirty {
          var npages;
          hi := i + 1;
          m, i, npages := ClearStretch(g, m0, m, i);
          lo := i;
          nd := nd - npages;
          CountSign(m);
          if nd0 - nd >= excess {
            break;
          }
        }
        i := i - 1;
      }
      CountSign(m);
    }

    /** The dirty pages below `b`. */
    static ghost function DirtBelow(dirt: set<Page>, b: Page): set<Page> { set q | q in dirt && Before(q, b) }

    /** `arena_purge`: exactly the dirty pages from `b` on are purged; the last stretch that was
        purged has `len` pages from `b` on, and before it too many pages were dirty. */
    method Purge() returns (ghost b: Page, ghost len: nat)
      requires Valid() && 0 <= dirtyMax < ndirty
      modifies this`chunks, this`ndirty, chunksDirty
      ensures Valid() && ndirty <= dirtyMax / 2 && chunks.Keys == old(chunks.Keys)
      ensures Dirt(chunks) == DirtBelow(old(Dirt(chunks)), b)
      ensures PagesOf(b, len) <= old(Dirt(chunks)) && Page(b.chunk, b.ind - 1) !in old(Dirt(chunks))
      ensures ndirty + len > dirtyMax / 2
    {
      hide Whole, CountDirty, RbTree.Valid, RbTree.Contents, ChunkOk, RunMapped, Undirtied, Dirt, PagesOf, ClearedFrom;
      b, len := Page(geo.nchunks, 0), 0;
      NoneBeyond();
      while ndirty > dirtyMax / 2
        invariant Valid() && chunks.Keys == old(chunks.Keys)
        invariant Dirt(chunks) == DirtBelow(old(Dirt(chunks)), b)
        invariant ndirty < old(ndirty) ==> ndirty + len > dirtyMax / 2
        invariant ndirty < old(ndirty) ==>
                    PagesOf(b, len) <= old(Dirt(chunks)) && Page(b.chunk, b.ind - 1) !in old(Dirt(chunks))
        invariant ndirty <= old(ndirty)
        decreases ndirty
      {
        ghost var lo, hi;
        var m, nd;
        SomeDirty();
        var last := chunksDirty.Last();
        var c := last.value;
        DirtyAt(c);
        m, nd, lo, hi := PurgeChunk(geo, chunks[c].map_, chunks[c].ndirty, ndirty - dirtyMax / 2);
        var ch := Chunk(m, nd);
        UndirtyStep(geo, chunks, runs, spare, ndirty, runsAvail.Contents(), chunksDirty.Contents(), c, ch);
        PurgedDirt(old(Dirt(chunks)), b, c, ch, lo, hi);
        ghost var dirty := chunksDirty.Contents();
        ndirty := ndirty - (chunks[c].ndirty - nd);
        chunks := chunks[c := ch];
        b, len := Page(c, lo), hi - lo;
        if nd == 0 {
          chunksDirty.Remove(c);
        }
        assert chunksDirty.Contents() == Touch(dirty, c, nd);
      }
    }

    lemma NoneBeyond()
      requires Valid()
      ensures Dirt(chunks) == DirtBelow(Dirt(chunks), Page(geo.nchunks, 0))
    {
      hide CoalescedBut, AvailKeys, RbTree.Valid, RbTree.Contents, Counted, Contiguous, Apart, Mapped, Inside;
      forall q | q in Dirt(chunks)
        ensures Before(q, Page(geo.nchunks, 0))
      {
        InDirt(chunks, q);
        assert q.chunk in chunks.Keys;
      }
    }

    /** Purging the last dirty chunk down to `lo` moves the boundary there. */
    lemma PurgedDirt(all: set<Page>, b: Page, c: int, ch: Chunk, lo: int, hi: int)
      requires Valid() && c in chunks && Dirt(chunks) == DirtBelow(all, b)
      requires forall x :: x in chunksDirty.Contents() ==> x <= c
      requires Stretch(geo, chunks[c].map_, lo, hi) && ClearedFrom(chunks[c].map_, ch.map_, lo) && geo.header > 0
      ensures Dirt(chunks[c := ch]) == DirtBelow(all, Page(c, lo))
      ensures PagesOf(Page(c, lo), hi - lo) <= all && Page(c, lo - 1) !in all
    {
      hide RbTree.Valid, RbTree.Contents, Whole, Dirt, PagesOf;
      InDirt(chunks, Page(c, lo));
      assert Page(c, lo) in Dirt(chunks) && Before(Page(c, lo), b);
      forall q
        ensures q in Dirt(chunks[c := ch]) <==> q in all && Before(q, Page(c, lo))
      {
        InDirt(chunks, q);
        InDirt(chunks[c := ch], q);
        if q in Dirt(chunks) { HighestDirty(q); }
      }
      forall q | q in PagesOf(Page(c, lo), hi - lo)
        ensures q in all
      {
        InPages(Page(c, lo), hi - lo, q);
        InDirt(chunks, q);
      }
      InDirt(chunks, Page(c, lo - 1));
      HeaderClean(c);
    }

    lemma HighestDirty(q: Page)
      requires Valid() && q in Dirt(chunks)
      ensures q.chunk in chunksDirty.Contents()
    {
      hide CoalescedBut, AvailKeys, RbTree.Valid, RbTree.Contents, Tiled, Mapped, SumDirty, CountDirty;
      InDirt(chunks, q);
      CountSign(chunks[q.chunk].map_);
    }

    lemma HeaderClean(c: int)
      requires Valid() && c in chunks
      ensures ChunkOk(geo, chunks[c].map_)
    {
      hide CoalescedBut, AvailKeys, RbTree.Valid, RbTree.Contents, Tiled, Counted;
    }

    lemma SomeDirty()
      requires Valid() && 0 < ndirty
      ensures chunksDirty.Contents() != {}
    {
      hide Mapped, CoalescedBut, AvailKeys, RbTree.Valid, RbTree.Contents, Tiled, Good, CountDirty;
      forall c | c in chunks
        ensures chunks[c].ndirty >= 0
      {
        CountSign(chunks[c].map_);
      }
      SumPositive(chunks, geo.nchunks);
      var c :| c in chunks && chunks[c].ndirty > 0;
      assert c in chunksDirty.Contents();
    }

    lemma DirtyAt(c: int)
      requires Valid() && c in chunksDirty.Contents()
      ensures geo.Ok() && c in chunks && ChunkOk(geo, chunks[c].map_)
          && chunks[c].ndirty == CountDirty(chunks[c].map_) > 0
    {
    }

    // ---------- freeing, trimming, growing ----------

    /** Nothing else in the chunk of `p` is allocated. */
    ghost predicate Alone(p: Page)
      reads this
    {
      forall q :: q in InUse(runs) && q.chunk == p.chunk ==> q == p
    }

    /** The dirty pages once the run at `p` is free, before purging: if its chunk is empty then,
        it becomes the spare, and the old spare goes with its pages. */
    ghost function DirtyThen(p: Page, dirty: bool): int
      reads this
    {
      ndirty + (if dirty && p in runs then runs[p].len else 0) - if Alone(p) then SpareDirty() else 0
    }

    ghost function DirtThen(p: Page, dirty: bool): set<Page>
      reads this
    {
      (if dirty && p in runs then Dirt(chunks) + PagesOf(p, runs[p].len) else Dirt(chunks)) -
        if Alone(p) then SparePages() else {}
    }

    /** The spare chunk once the run at `p` is free. */
    ghost function SpareThen(p: Page): Option<int>
      reads this
    {
      if Alone(p) then Some(p.chunk) else spare
    }

    /** All of `dirt` stays dirty if that is not too much; otherwise it is purged from some page on. */
    ghost predicate Settled(count: int, dirt: set<Page>)
      reads this
    {
      if count <= dirtyMax then ndirty == count && Dirt(chunks) == dirt
      else ndirty <= dirtyMax / 2 && exists b :: Dirt(chunks) == DirtBelow(dirt, b)
    }

    /** `arena_run_dalloc`.  `smallPages` is the run size of the bin that a small run belongs to. */
    method RunDalloc(p: Page, dirty: bool, smallPages: int)
      requires Valid() && 0 <= dirtyMax && p in runs && runs[p].kind != Free
      requires runs[p].kind == Small ==> smallPages == runs[p].len
      modifies this`chunks, this`runs, this`spare, this`ndirty, runsAvail, chunksDirty
      ensures Valid() && InUse(runs) == old(InUse(runs)) - {p} && ndirty <= dirtyMax
      ensures Settled(old(DirtyThen(p, dirty)), old(DirtThen(p, dirty)))
      // An empty chunk becomes the spare in place of the old one.
      ensures spare == old(SpareThen(p))
      ensures chunks.Keys == old(chunks.Keys) -
                if old(Alone(p)) && old(spare).Some? then {old(spare).value} else {}
    {
      hide Whole, RbTree.Valid, RbTree.Contents, ChunkOk, InUse, Dirt, PagesOf;
      CleanRun(p);
      var q := FreeRun(p, dirty, smallPages);
      FirstRun(q);
      var e := chunks[q.chunk].map_[geo.header];
      ChunkEmpty(q.chunk);
      Emptied(old(InUse(runs)), p);
      SpareSame(old(chunks), p.chunk);
      // An empty chunk becomes the spare.
      if !e.inUse && e.hi == geo.MaxPages() {
        ChunkDealloc(q.chunk);
      }
      assert Dirt(chunks) == old(DirtThen(p, dirty)) && ndirty == old(DirtyThen(p, dirty));
      // Too many dirty pages are purged.
      if ndirty > dirtyMax {
        ghost var dirt := Dirt(chunks);
        ghost var b, len := Purge();
        assert Dirt(chunks) == DirtBelow(dirt, b);
      }
    }

    lemma SpareSame(chunks0: map<int, Chunk>, c: int)
      requires OnlyChunk(chunks0, chunks, c) && spare != Some(c)
      ensures SpareDirty() == if spare.Some? && spare.value in chunks0 then chunks0[spare.value].ndirty else 0
    {
      if spare.Some? { assert spare == Some(spare.value) && spare.value != c; }
    }

    /** Make a run free and join it with the free runs around it; the result starts at `q`. */
    method FreeRun(p: Page, dirty: bool, smallPages: int) returns (q: Page)
      requires Valid() && p in runs && runs[p].kind != Free
      requires runs[p].kind == Small ==> smallPages == runs[p].len
      modifies this`chunks, this`runs, this`ndirty, runsAvail, chunksDirty
      ensures Valid() && InUse(runs) == old(InUse(runs)) - {p} && Avail(runs, spare, q) && q.chunk == p.chunk
      ensures OnlyChunk(old(chunks), chunks, p.chunk)
      ensures ndirty == old(ndirty) + if dirty then old(runs[p].len) else 0
      ensures Dirt(chunks) == if dirty then old(Dirt(chunks) + PagesOf(p, runs[p].len)) else old(Dirt(chunks))
    {
      hide Whole, Half, CountDirty, RbTree.Valid, RbTree.Contents, ChunkOk, InUse, Dirt, PagesOf;
      WholeAt(p);
      CleanRun(p);
      var e := chunks[p.chunk].map_[p.ind];
      var n := if e.large then e.hi else smallPages;
      InUseRelease(runs, p);
      Release(p, n, dirty);
      CoalesceForward(p);
      q := CoalesceBackward(p);
      MakeAvailable(q);
    }

    static lemma Emptied(used: Runs, p: Page)
      ensures (forall q :: q in used - {p} ==> q.chunk != p.chunk) <==>
                (forall q :: q in used && q.chunk == p.chunk ==> q == p)
    {
    }

    /** No page of an allocated run is dirty. */
    lemma CleanRun(p: Page)
      requires Valid() && p in runs && runs[p].kind != Free
      ensures Dirt(chunks) - PagesOf(p, runs[p].len) == Dirt(chunks) && spare != Some(p.chunk)
    {
      hide CoalescedBut, AvailKeys, RbTree.Valid, RbTree.Contents, Counted, Tiled, Dirt, PagesOf;
      InChunk(geo, chunks, runs, None, p);
      UsedNotSpare(geo, chunks, runs, spare, None, p);
      forall q | q in PagesOf(p, runs[p].len)
        ensures q !in Dirt(chunks)
      {
        InPages(p, runs[p].len, q);
        InDirt(chunks, q);
      }
    }

    /** A chunk without allocated runs is one free run. */
    lemma ChunkEmpty(c: int)
      requires Valid() && c in chunks
      ensures SpareOk(geo, runs, Some(c)) <==> forall q :: q in InUse(runs) ==> q.chunk != c
    {
      hide AvailKeys, RbTree.Valid, RbTree.Contents, Counted, Mapped;
      var first := ChunkPage(geo, c);
      assert c in chunks.Keys && first in runs;
      if SpareOk(geo, runs, Some(c)) {
        forall q | q in runs && q.chunk == c
          ensures q == first
        {
          SpareIsOneRun(geo, chunks.Keys, runs, Some(c), q);
        }
      } else if runs[first].kind == Free {
        InChunk(geo, chunks, runs, None, first);
        assert Next(runs, first) in runs;
        assert !IsFree(runs, Next(runs, first));
        assert Next(runs, first) in InUse(runs);
      } else {
        assert first in InUse(runs);
      }
    }

    /** The first entry past the header tells whether the chunk of `q` is completely unused. */
    lemma FirstRun(q: Page)
      requires Valid() && Avail(runs, spare, q)
      ensures geo.Ok() && q.chunk in chunks && |chunks[q.chunk].map_| == geo.npages && 0 < geo.header < geo.npages
      ensures var e := chunks[q.chunk].map_[geo.header];
              !e.inUse && e.hi == geo.MaxPages() <==> SpareOk(geo, runs, Some(q.chunk))
      ensures spare != Some(q.chunk)
    {
      hide CoalescedBut, AvailKeys, RbTree.Valid, RbTree.Contents, Counted, Contiguous, Apart;
      var c := q.chunk;
      assert c in chunks.Keys;
      assert ChunkPage(geo, c) in runs;
      assert RunMapped(chunks[c].map_, geo.header, runs[ChunkPage(geo, c)]);
    }

    static lemma InUseRelease(runs: Runs, p: Page)
      requires p in runs && runs[p].kind != Free
      ensures InUse(Relabel(runs, p, Free)) == InUse(runs) - {p}
    {
    }

    /** The map entries after a large run has been divided in two. */
    static method DivideEntries(m0: seq<Elm>, ind: int, len: int, n: int) returns (m: seq<Elm>)
      requires RunMapped(m0, ind, Run(len, Large)) && 0 < n < len
      ensures SameBut(m0, m, ind, ind + len) && CountDirty(m) == CountDirty(m0) && DirtSet(m0, m, 0, 0, false)
      ensures RunMapped(m, ind, Run(n, Large)) && RunMapped(m, ind + n, Run(len - n, Large))
    {
      m := m0[ind := Elm(n, true, true, false, false)];
      m := m[ind + n := Elm(len - n, true, true, false, false)];
      CountSame(m0, m);
    }

    /** Make the first `n` pages of a large run and the rest look separately allocated. */
    method Divide(p: Page, len: int, n: int)
      requires Valid() && p in runs && runs[p] == Run(len, Large) && 0 < n < len
      modifies this`chunks, this`runs
      ensures Valid() && chunks.Keys == old(chunks.Keys)
      ensures After(p, n) !in old(InUse(runs)) && Dirt(chunks) == old(Dirt(chunks))
      ensures InUse(runs) == old(InUse(runs))[p := Run(n, Large)][After(p, n) := Run(len - n, Large)]
    {
      hide Dirt, PagesOf;
      hide Whole, CountDirty, RbTree.Valid, RbTree.Contents, ChunkOk, RunMapped;
      WholeAt(p);
      var m := DivideEntries(chunks[p.chunk].map_, p.ind, len, n);
      HeaderKept(chunks[p.chunk].map_, m, p.ind, p.ind + len);
      var ch := Chunk(m, chunks[p.chunk].ndirty);
      DirtSame(chunks, p.chunk, ch);
      DivideStep(geo, chunks, runs, spare, ndirty, runsAvail.Contents(), chunksDirty.Contents(), p, n, ch);
      InUseDivide(runs, p, n);
      chunks := chunks[p.chunk := ch];
      runs := SplitRuns(runs, p, n, Large, Large);
      assert chunksDirty.Contents() == Touch(chunksDirty.Contents(), p.chunk, ch.ndirty);
    }

    /** `arena_run_trim_head`: give back all but the last `newLen` pages. */
    method TrimHead(p: Page, oldLen: int, newLen: int)
      requires Valid() && 0 <= dirtyMax && p in runs && runs[p] == Run(oldLen, Large) && 0 < newLen < oldLen
      modifies this`chunks, this`runs, this`spare, this`ndirty, runsAvail, chunksDirty
      ensures Valid() && ndirty <= dirtyMax && chunks.Keys == old(chunks.Keys) && spare == old(spare)
      ensures Settled(old(ndirty), old(Dirt(chunks)))
      ensures After(p, oldLen - newLen) !in old(InUse(runs))
      ensures InUse(runs) == (old(InUse(runs)) - {p})[After(p, oldLen - newLen) := Run(newLen, Large)]
    {
      hide Dirt, PagesOf;
      hide Whole, RbTree.Valid, RbTree.Contents;
      Divide(p, oldLen, oldLen - newLen);
      UsedIn(p);
      assert After(p, oldLen - newLen) in InUse(runs) && !Alone(p);
      assert DirtThen(p, false) == Dirt(chunks) && DirtyThen(p, false) == ndirty;
      RunDalloc(p, false, 0);
    }

    /** `arena_run_trim_tail`: give back all but the first `newLen` pages. */
    method TrimTail(p: Page, oldLen: int, newLen: int, dirty: bool)
      requires Valid() && 0 <= dirtyMax && p in runs && runs[p] == Run(oldLen, Large) && 0 < newLen < oldLen
      modifies this`chunks, this`runs, this`spare, this`ndirty, runsAvail, chunksDirty
      ensures Valid() && ndirty <= dirtyMax && chunks.Keys == old(chunks.Keys) && spare == old(spare)
      ensures InUse(runs) == old(InUse(runs))[p := Run(newLen, Large)]
      // The pages given back are dirty if they were used.
      ensures Settled(old(ndirty) + (if dirty then oldLen - newLen else 0),
                      old(Dirt(chunks)) + if dirty then PagesOf(After(p, newLen), oldLen - newLen) else {})
    {
      hide Dirt, PagesOf;
      hide Whole, RbTree.Valid, RbTree.Contents;
      Divide(p, oldLen, newLen);
      UsedIn(After(p, newLen));
      assert p in InUse(runs) && !Alone(After(p, newLen));
      ghost var tail := After(p, newLen);
      assert DirtyThen(tail, dirty) == ndirty + if dirty then oldLen - newLen else 0;
      assert DirtThen(tail, dirty) == Dirt(chunks) + if dirty then PagesOf(tail, oldLen - newLen) else {};
      RunDalloc(After(p, newLen), dirty, 0);
    }

    lemma UnchangedUsed(runs0: Runs)
      requires runs == runs0
      ensures InUse(runs) == InUse(runs0)
    {
    }

    lemma RunBounds(p: Page)
      requires Valid() && p in runs
      ensures 0 < runs[p].len <= geo.MaxPages() && geo.header <= p.ind && p.ind + runs[p].len <= geo.npages
    {
      InChunk(geo, chunks, runs, None, p);
    }

    lemma UsedIn(p: Page)
      requires p in InUse(runs)
      ensures p in runs && runs[p] == InUse(runs)[p] && runs[p].kind != Free
    {
    }

    /** The core of `arena_ralloc_large_grow`: extend a large run into the free run behind it. */
    method Grow(p: Page, oldLen: int, newLen: int) returns (ok: bool)
      requires Valid() && p in runs && runs[p] == Run(oldLen, Large) && oldLen < newLen
      modifies this`chunks, this`runs, this`ndirty, runsAvail, chunksDirty
      ensures Valid() && chunks.Keys == old(chunks.Keys) && ndirty <= old(ndirty)
      ensures ok <==> old(IsFree(runs, Next(runs, p)) && newLen - oldLen <= runs[Next(runs, p)].len)
      ensures !ok ==> runs == old(runs)
      ensures ok ==> InUse(runs) == old(InUse(runs))[p := Run(newLen, Large)]
      ensures Dirt(chunks) == old(Dirt(chunks)) - (if ok then PagesOf(After(p, oldLen), newLen - oldLen) else {})
    {
      hide Dirt, PagesOf;
      hide Whole, CountDirty, RbTree.Valid, RbTree.Contents, ChunkOk, RunMapped, InUse;
      WholeAt(p);
      var c := p.chunk;
      var m := chunks[c].map_;
      ok := false;
      Ahead(p);
      if p.ind + oldLen < geo.npages && !m[p.ind + oldLen].inUse && m[p.ind + oldLen].hi >= newLen - oldLen {
        // Cut what is needed off the free run, and join it.
        var next, extra := After(p, oldLen), newLen - oldLen;
        InUseTake(next, extra, true);
        RunSplit(next, extra, true);
        StillThere(old(runs), p, next, extra);
        InUseMerge(runs, p);
        Merge(p, oldLen, extra);
        ok := true;
      }
    }

    lemma Ahead(p: Page)
      requires Valid() && p in runs && runs[p].kind != Free
      ensures p.chunk in chunks && |chunks[p.chunk].map_| == geo.npages && 0 <= p.ind + runs[p].len <= geo.npages
      ensures p.ind + runs[p].len == geo.npages ==> !IsFree(runs, Next(runs, p))
      ensures p.ind + runs[p].len < geo.npages ==>
                var e := chunks[p.chunk].map_[p.ind + runs[p].len];
                && (!e.inUse <==> IsFree(runs, Next(runs, p)))
                && (!e.inUse ==> e.hi == runs[Next(runs, p)].len && Avail(runs, spare, Next(runs, p)))
    {
      hide RunMapped, CoalescedBut, AvailKeys, RbTree.Valid, RbTree.Contents, Counted, Contiguous, Apart, Mapped;
      InChunk(geo, chunks, runs, None, p);
      UsedNotSpare(geo, chunks, runs, spare, None, p);
      if p.ind + runs[p].len < geo.npages { LookAhead(geo, chunks, runs, None, p); }
    }

    lemma StillThere(runs0: Runs, p: Page, next: Page, extra: int)
      requires p in runs0 && next == Next(runs0, p) && next in runs0 && 0 < runs0[p].len && 0 < extra <= runs0[next].len
      requires runs == TakeRuns(runs0, next, extra, Large)
      ensures p in runs && runs[p] == runs0[p] && Next(runs, p) == next && next in runs
          && runs[next] == Run(extra, Large)
    {
    }

    /** Join two adjacent large runs. */
    method Merge(p: Page, len: int, extra: int)
      requires Valid() && p in runs && runs[p] == Run(len, Large)
      requires Next(runs, p) in runs && runs[Next(runs, p)] == Run(extra, Large)
      modifies this`chunks, this`runs
      ensures Valid() && chunks.Keys == old(chunks.Keys) && runs == JoinRuns(old(runs), p, Large)
      ensures Dirt(chunks) == old(Dirt(chunks))
    {
      hide Dirt, PagesOf;
      hide Whole, CountDirty, RbTree.Valid, RbTree.Contents, ChunkOk;
      WholeAt(p);
      WholeAt(Next(runs, p));
      var c := p.chunk;
      var m := chunks[c].map_[p.ind := Elm(len + extra, true, true, false, false)];
      m := m[p.ind + len := Elm(0, true, true, false, false)];
      CountSame(chunks[c].map_, m);
      HeaderKept(chunks[c].map_, m, p.ind, p.ind + len + extra);
      var ch := Chunk(m, chunks[c].ndirty);
      DirtSame(chunks, c, ch);
      MergeStep(geo, chunks, runs, spare, ndirty, runsAvail.Contents(), chunksDirty.Contents(), p, ch);
      chunks := chunks[c := ch];
      runs := JoinRuns(runs, p, Large);
      assert chunksDirty.Contents() == Touch(chunksDirty.Contents(), c, ch.ndirty);
    }

    // ---------- aligned runs ----------

    /** The number of a page in the address space; chunks are chunk-aligned. */
    function PageNo(p: Page): int { p.chunk * geo.npages + p.ind }

    /** The first page from `p` on at a multiple of `alignment`. */
    function FirstAligned(p: Page, alignment: int): Page
      requires 0 < alignment
    {
      var offset := PageNo(p) % alignment;
      if offset == 0 then p else After(p, alignment - offset)
    }

    /** There is no aligned page between `p` and the first one. */
    lemma FirstAlignedLeast(p: Page, alignment: int, i: int)
      requires 0 < alignment && p.ind <= i && PageNo(Page(p.chunk, i)) % alignment == 0
      ensures FirstAligned(p, alignment).ind <= i && PageNo(FirstAligned(p, alignment)) % alignment == 0
    {
      RoundUp(PageNo(p), alignment);
      NextAligned(PageNo(p), i - p.ind, alignment);
    }

    static lemma NextAligned(n: int, d: int, a: int)
      requires 0 < a && 0 <= d && (n + d) % a == 0
      ensures n % a == 0 || a - n % a <= d
    {
      var q, k := n / a, (n + d) / a;
      assert n == a * q + n % a && n + d == a * k;
      assert k <= q ==> a * k <= a * q;
      assert k >= q + 1 ==> a * k >= a * (q + 1);
    }

    static lemma RoundUp(n: int, a: int)
      requires 0 < a
      ensures (n + (a - n % a)) % a == 0
    {
      assert n + (a - n % a) == a * (n / a + 1);
      MultipleMod(n / a + 1, a);
    }

    static lemma MultipleMod(k: int, a: int)
      requires 0 < a
      ensures (a * k) % a == 0
    {
      var r := (a * k) % a;
      var q := (a * k) / a;
      assert a * (k - q) == r;
      assert k - q >= 1 ==> a * (k - q) >= a;
      assert k - q <= -1 ==> a * (k - q) <= -a;
    }

    /** `arena_palloc`, in pages: a run of `size` pages that starts at a multiple of
        `alignment`, cut out of a run of `allocSize` pages. */
    method Palloc(alignment: int, size: int, allocSize: int, newChunk: Option<int>) returns (r: Option<Page>)
      requires Valid() && 0 <= dirtyMax && ndirty <= dirtyMax && 1 < alignment && 0 < size
      requires allocSize == (if size >= alignment then size + alignment - 1 else 2 * alignment - 1)
      requires allocSize <= geo.MaxPages()
      requires newChunk.Some? ==> newChunk.value !in chunks && 0 <= newChunk.value < geo.nchunks
      modifies this`chunks, this`runs, this`spare, this`ndirty, runsAvail, chunksDirty
      ensures Valid() && ndirty <= dirtyMax
      ensures r.None? <==> old(NoFit(runs, spare, allocSize)) && old(spare).None? && newChunk.None?
      ensures r.None? ==> runs == old(runs)
      ensures r.Some? ==> PageNo(r.value) % alignment == 0 && r.value !in old(InUse(runs))
      ensures r.Some? ==> InUse(runs) == old(InUse(runs))[r.value := Run(size, Large)]
      // The first aligned page of the run that an unaligned request would get.
      ensures r.Some? && !old(NoFit(runs, spare, allocSize)) ==>
                exists q :: old(BestFit(runs, spare, allocSize, q)) && r.value == FirstAligned(q, alignment)
      ensures old(NoFit(runs, spare, allocSize)) && old(spare).Some? ==>
                r == Some(FirstAligned(ChunkPage(geo, old(spare).value), alignment))
      ensures old(NoFit(runs, spare, allocSize)) && old(spare).None? && newChunk.Some? ==>
                r == Some(FirstAligned(ChunkPage(geo, newChunk.value), alignment))
      ensures spare == if old(NoFit(runs, spare, allocSize)) then None else old(spare)
      ensures chunks.Keys == old(chunks.Keys) +
                (if old(NoFit(runs, spare, allocSize) && spare.None?) && newChunk.Some? then {newChunk.value} else {})
      // Nothing becomes dirty.
      ensures Dirt(chunks) <= old(Dirt(chunks))
    {
      hide Dirt, PagesOf;
      hide Whole, RbTree.Valid, RbTree.Contents, InUse, NoFit, BestFit;
      NdirtySign();
      r := RunAlloc(allocSize, true, newChunk);
      NdirtySign();
      if r.None? { return; }
      var p := r.value;
      UsedIn(p);
      AlignRun(p, alignment, size, allocSize);
      r := Some(FirstAligned(p, alignment));
    }

    /** Trim a run of `allocSize` pages to `size` pages from the first aligned one on. */
    method AlignRun(p: Page, alignment: int, size: int, allocSize: int)
      requires Valid() && 0 <= ndirty <= dirtyMax && 1 < alignment && 0 < size
      requires allocSize == (if size >= alignment then size + alignment - 1 else 2 * alignment - 1)
      requires p in runs && runs[p] == Run(allocSize, Large)
      modifies this`chunks, this`runs, this`spare, this`ndirty, runsAvail, chunksDirty
      ensures Valid() && ndirty <= dirtyMax && chunks.Keys == old(chunks.Keys) && spare == old(spare)
      ensures PageNo(FirstAligned(p, alignment)) % alignment == 0 && Dirt(chunks) == old(Dirt(chunks))
      ensures FirstAligned(p, alignment) == p || FirstAligned(p, alignment) !in old(InUse(runs))
      ensures InUse(runs) == (old(InUse(runs)) - {p})[FirstAligned(p, alignment) := Run(size, Large)]
    {
      hide Whole, RbTree.Valid, RbTree.Contents, InUse, Dirt, PagesOf;
      var offset := PageNo(p) % alignment;
      if offset == 0 {
        TrimTail(p, allocSize, size, false);
      } else {
        var lead := alignment - offset;
        RoundUp(PageNo(p), alignment);
        TrimHead(p, allocSize, allocSize - lead);
        var at, trail := After(p, lead), allocSize - lead - size;
        UsedIn(at);
        NdirtySign();
        if trail != 0 {
          TrimTail(at, size + trail, size, false);
        }
      }
    }
  }
}
