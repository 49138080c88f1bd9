/**
  The page map of an arena's chunks as values: what it means for the map to be a
  partition of the non-header pages into runs, and what splitting, joining and
  relabelling runs does to such a partition.
 */
module PageMap {
  import opened Prelude

  /** Pages per chunk, pages taken by the chunk header, and a bound on chunk numbers. */
  datatype Geometry = Geometry(npages: int, header: int, nchunks: int) {
    predicate Ok() { 0 < header < npages && 0 < nchunks }
    /** `arena_maxclass`, in pages. */
    function MaxPages(): int { npages - header }
  }

  /** One map entry.  `hi` is the part above the flag bits, in pages: the size of a
      free or large run (in its first entry; for a free run also in its last), or
      the first page of the small run that the page belongs to. */
  datatype Elm = Elm(hi: int, inUse: bool, large: bool, dirty: bool, zeroed: bool)

  datatype Chunk = Chunk(map_: seq<Elm>, ndirty: int)

  datatype Page = Page(chunk: int, ind: int)

  datatype Kind = Free | Large | Small

  datatype Run = Run(len: int, kind: Kind)

  type Runs = map<Page, Run>

  /** The address of `p` is lower. */
  predicate Before(p: Page, q: Page) { p.chunk < q.chunk || (p.chunk == q.chunk && p.ind < q.ind) }

  function After(p: Page, n: int): Page { Page(p.chunk, p.ind + n) }

  /** The page that follows the run at `p`. */
  function Next(runs: Runs, p: Page): Page
    requires p in runs
  {
    After(p, runs[p].len)
  }

  // ---------- the partition ----------

  ghost predicate Inside(g: Geometry, ids: set<int>, runs: Runs) {
    forall p {:trigger runs[p]} {:trigger p in runs} :: p in runs ==>
      p.chunk in ids && g.header <= p.ind && 0 < runs[p].len && p.ind + runs[p].len <= g.npages
  }

  ghost predicate Rooted(g: Geometry, ids: set<int>, runs: Runs) {
    forall c :: c in ids ==> 0 <= c < g.nchunks && Page(c, g.header) in runs
  }

  ghost predicate Contiguous(g: Geometry, runs: Runs) {
    forall p {:trigger Next(runs, p)} :: p in runs && p.ind + runs[p].len < g.npages ==> Next(runs, p) in runs
  }

  ghost predicate Apart(runs: Runs) {
    forall p, q {:trigger runs[p], runs[q]} ::
      p in runs && q in runs && p.chunk == q.chunk && p.ind < q.ind ==> p.ind + runs[p].len <= q.ind
  }

  ghost predicate Positive(runs: Runs) {
    forall q {:trigger runs[q]} {:trigger q in runs} :: q in runs ==> 0 < runs[q].len
  }

  /** The runs tile the non-header pages of every chunk. */
  ghost predicate Tiled(g: Geometry, ids: set<int>, runs: Runs) {
    Inside(g, ids, runs) && Rooted(g, ids, runs) && Contiguous(g, runs) && Apart(runs)
  }

  predicate IsFree(runs: Runs, p: Page) { p in runs && runs[p].kind == Free }

  /** Coalescing is maximal, except possibly around `x`. */
  ghost predicate CoalescedBut(runs: Runs, x: Option<Page>) {
    forall p {:trigger Next(runs, p)} ::
      IsFree(runs, p) && IsFree(runs, Next(runs, p)) ==> x == Some(p) || x == Some(Next(runs, p))
  }

  ghost predicate RunMapped(m: seq<Elm>, s: int, run: Run) {
    && 0 <= s && 0 < run.len && s + run.len <= |m|
    && match run.kind
       case Free =>
         && m[s].hi == run.len && m[s + run.len - 1].hi == run.len
         && (forall i :: s <= i < s + run.len ==> !m[i].inUse)
       case Large =>
         && m[s].hi == run.len
         && (forall i :: s <= i < s + run.len ==> m[i].inUse && m[i].large && !m[i].dirty)
       case Small =>
         forall i :: s <= i < s + run.len ==> m[i].inUse && !m[i].large && !m[i].dirty && m[i].hi == s
  }

  ghost predicate ChunkOk(g: Geometry, m: seq<Elm>) {
    |m| == g.npages && forall i :: 0 <= i < g.header <= |m| ==> !m[i].dirty
  }

  /** The map entries say what the runs are. */
  ghost predicate Mapped(g: Geometry, chunks: map<int, Chunk>, runs: Runs) {
    && (forall c :: c in chunks ==> ChunkOk(g, chunks[c].map_))
    && (forall p :: p in runs ==> p.chunk in chunks && RunMapped(chunks[p.chunk].map_, p.ind, runs[p]))
  }

  /** Every non-header page belongs to some run. */
  lemma {:induction false} Owner(g: Geometry, ids: set<int>, runs: Runs, c: int, i: int) returns (p: Page)
    requires g.Ok() && Tiled(g, ids, runs) && c in ids && g.header <= i < g.npages
    ensures p in runs && p.chunk == c && p.ind <= i < p.ind + runs[p].len
  {
    p := Page(c, g.header);
    while p.ind + runs[p].len <= i
      invariant p in runs && p.chunk == c && p.ind <= i
      decreases i - p.ind
    {
      p := Next(runs, p);
    }
  }

  // ---------- changing the partition ----------

  function SplitRuns(runs: Runs, p: Page, n: int, k: Kind, k': Kind): Runs
    requires p in runs
  {
    runs[p := Run(n, k)][After(p, n) := Run(runs[p].len - n, k')]
  }

  function JoinRuns(runs: Runs, p: Page, k: Kind): Runs
    requires p in runs && Next(runs, p) in runs
  {
    (runs - {Next(runs, p)})[p := Run(runs[p].len + runs[Next(runs, p)].len, k)]
  }

  // One small fact at a time: the conjuncts of `Tiled` interfere with each other
  // when the solver has to look at all of them at once.

  lemma SplitInside(g: Geometry, ids: set<int>, runs: Runs, p: Page, n: int, k: Kind, k': Kind)
    requires Inside(g, ids, runs) && p in runs && 0 < n < runs[p].len
    ensures Inside(g, ids, SplitRuns(runs, p, n, k, k'))
  {
  }

  lemma SplitContiguous(g: Geometry, runs: Runs, p: Page, n: int, k: Kind, k': Kind)
    requires Contiguous(g, runs) && p in runs && 0 < n < runs[p].len && After(p, n) !in runs
    ensures Contiguous(g, SplitRuns(runs, p, n, k, k'))
  {
    var runs' := SplitRuns(runs, p, n, k, k');
    forall q | q in runs' && q.ind + runs'[q].len < g.npages
      ensures Next(runs', q) in runs'
    {
      if q == After(p, n) {
        assert Next(runs', q) == Next(runs, p);
      } else if q != p {
        assert Next(runs', q) == Next(runs, q);
      }
    }
  }

  lemma SplitApart(runs: Runs, p: Page, n: int, k: Kind, k': Kind)
    requires Apart(runs) && p in runs && 0 < n < runs[p].len
    requires Positive(runs)
    ensures After(p, n) !in runs
    ensures Apart(SplitRuns(runs, p, n, k, k'))
  {
    var r := After(p, n);
    assert forall q :: q in runs && q.chunk == p.chunk && p.ind < q.ind ==> p.ind + runs[p].len <= q.ind;
    var runs' := SplitRuns(runs, p, n, k, k');
    forall x, y | x in runs' && y in runs' && x.chunk == y.chunk && x.ind < y.ind
      ensures x.ind + runs'[x].len <= y.ind
    {
      var x0, y0 := if x == r then p else x, if y == r then p else y;
      assert x0 in runs && y0 in runs;
      assert x0 != y0 && x0.ind < y0.ind ==> x0.ind + runs[x0].len <= y0.ind;
    }
  }

  lemma SplitTiled(g: Geometry, ids: set<int>, runs: Runs, p: Page, n: int, k: Kind, k': Kind)
    requires Tiled(g, ids, runs) && p in runs && 0 < n < runs[p].len
    ensures Tiled(g, ids, SplitRuns(runs, p, n, k, k'))
    ensures After(p, n) !in runs
  {
    SplitApart(runs, p, n, k, k');
    SplitInside(g, ids, runs, p, n, k, k');
    SplitContiguous(g, runs, p, n, k, k');
    assert Rooted(g, ids, SplitRuns(runs, p, n, k, k'));
  }

  lemma JoinInside(g: Geometry, ids: set<int>, runs: Runs, p: Page, k: Kind)
    requires Inside(g, ids, runs) && p in runs && Next(runs, p) in runs
    ensures Inside(g, ids, JoinRuns(runs, p, k))
  {
  }

  lemma JoinRooted(g: Geometry, ids: set<int>, runs: Runs, p: Page, k: Kind)
    requires Rooted(g, ids, runs) && p in runs && Next(runs, p) in runs
    requires g.header <= p.ind && 0 < runs[p].len
    ensures Rooted(g, ids, JoinRuns(runs, p, k))
  {
  }

  lemma JoinContiguous(g: Geometry, runs: Runs, p: Page, k: Kind)
    requires Contiguous(g, runs) && Apart(runs) && p in runs && Next(runs, p) in runs
    requires Positive(runs)
    ensures Contiguous(g, JoinRuns(runs, p, k))
  {
    var n := Next(runs, p);
    var runs' := JoinRuns(runs, p, k);
    forall q | q in runs' && q.ind + runs'[q].len < g.npages
      ensures Next(runs', q) in runs'
    {
      if q == p {
        assert Next(runs', p) == Next(runs, n);
      } else {
        assert Next(runs', q) == Next(runs, q);
        if Next(runs, q) == n { SameNext(runs, p, q); }
      }
    }
  }

  /** Two runs never end at the same page. */
  lemma SameNext(runs: Runs, p: Page, q: Page)
    requires Apart(runs) && p in runs && q in runs && 0 < runs[p].len && 0 < runs[q].len
    requires Next(runs, p) == Next(runs, q)
    ensures p == q
  {
    assert runs[p].len > 0 && runs[q].len > 0;
  }

  lemma JoinApart(runs: Runs, p: Page, k: Kind)
    requires Apart(runs) && p in runs && Next(runs, p) in runs
    requires Positive(runs)
    ensures Apart(JoinRuns(runs, p, k))
  {
    var n := Next(runs, p);
    var runs' := JoinRuns(runs, p, k);
    forall x, y | x in runs' && y in runs' && x.chunk == y.chunk && x.ind < y.ind
      ensures x.ind + runs'[x].len <= y.ind
    {
      assert x.ind + runs[x].len <= y.ind;
      assert n.ind < y.ind && n.chunk == y.chunk ==> n.ind + runs[n].len <= y.ind;
    }
  }

  lemma JoinTiled(g: Geometry, ids: set<int>, runs: Runs, p: Page, k: Kind)
    requires Tiled(g, ids, runs) && p in runs && Next(runs, p) in runs
    ensures Tiled(g, ids, JoinRuns(runs, p, k))
  {
    JoinInside(g, ids, runs, p, k);
    JoinRooted(g, ids, runs, p, k);
    JoinContiguous(g, runs, p, k);
    JoinApart(runs, p, k);
  }

  function Relabel(runs: Runs, p: Page, k: Kind): Runs
    requires p in runs
  {
    runs[p := Run(runs[p].len, k)]
  }

  lemma RelabelContiguous(g: Geometry, runs: Runs, p: Page, k: Kind)
    requires Contiguous(g, runs) && p in runs
    ensures Contiguous(g, Relabel(runs, p, k))
  {
    var runs' := Relabel(runs, p, k);
    forall q | q in runs' && q.ind + runs'[q].len < g.npages
      ensures Next(runs', q) in runs'
    {
      assert Next(runs', q) == Next(runs, q);
    }
  }

  lemma RelabelTiled(g: Geometry, ids: set<int>, runs: Runs, p: Page, k: Kind)
    requires Tiled(g, ids, runs) && p in runs
    ensures Tiled(g, ids, Relabel(runs, p, k))
  {
    RelabelContiguous(g, runs, p, k);
    assert Apart(Relabel(runs, p, k)) && Rooted(g, ids, Relabel(runs, p, k)) && Inside(g, ids, Relabel(runs, p, k));
  }

  /** A run is untouched by changes to entries outside it. */
  lemma RunFramed(m: seq<Elm>, m': seq<Elm>, s: int, run: Run, lo: int, hi: int)
    requires RunMapped(m, s, run) && |m'| == |m|
    requires forall i :: 0 <= i < |m| && !(lo <= i < hi) ==> m'[i] == m[i]
    requires s + run.len <= lo || hi <= s
    ensures RunMapped(m', s, run)
  {
  }

  /** `runs'` has, besides runs of `runs` that lie outside the window [lo, hi) of chunk
      `c`, only runs that `m` maps. */
  ghost predicate Outside(runs: Runs, runs': Runs, c: int, m: seq<Elm>, lo: int, hi: int) {
    forall q :: q in runs' ==>
      || (q.chunk == c && RunMapped(m, q.ind, runs'[q]))
      || (q in runs && runs[q] == runs'[q] && (q.chunk != c || q.ind + runs[q].len <= lo || hi <= q.ind))
  }

  lemma WindowMapped(g: Geometry, chunks: map<int, Chunk>, runs: Runs, runs': Runs,
                     c: int, ch: Chunk, lo: int, hi: int)
    requires Mapped(g, chunks, runs) && c in chunks && ChunkOk(g, ch.map_)
    requires forall i :: 0 <= i < g.npages && !(lo <= i < hi) ==> ch.map_[i] == chunks[c].map_[i]
    requires Outside(runs, runs', c, ch.map_, lo, hi)
    ensures Mapped(g, chunks[c := ch], runs')
  {
    forall q | q in runs'
      ensures q.chunk in chunks[c := ch] && RunMapped(chunks[c := ch][q.chunk].map_, q.ind, runs'[q])
    {
      if q.chunk == c && !RunMapped(ch.map_, q.ind, runs'[q]) {
        RunFramed(chunks[c].map_, ch.map_, q.ind, runs'[q], lo, hi);
      }
    }
  }

  /** `m'` differs from `m` only in the window [lo, hi). */
  ghost predicate SameBut(m: seq<Elm>, m': seq<Elm>, lo: int, hi: int) {
    |m'| == |m| && forall i :: 0 <= i < |m| && !(lo <= i < hi) ==> m'[i] == m[i]
  }

  lemma SplitMapped(g: Geometry, chunks: map<int, Chunk>, runs: Runs,
                    p: Page, n: int, k: Kind, k': Kind, ch: Chunk)
    requires Apart(runs) && Positive(runs) && Mapped(g, chunks, runs) && p in runs && 0 < n < runs[p].len
    requires ChunkOk(g, ch.map_) && SameBut(chunks[p.chunk].map_, ch.map_, p.ind, p.ind + runs[p].len)
    requires RunMapped(ch.map_, p.ind, Run(n, k)) && RunMapped(ch.map_, p.ind + n, Run(runs[p].len - n, k'))
    ensures Mapped(g, chunks[p.chunk := ch], SplitRuns(runs, p, n, k, k'))
  {
    SplitOutside(runs, p, n, k, k', ch.map_);
    WindowMapped(g, chunks, runs, SplitRuns(runs, p, n, k, k'), p.chunk, ch, p.ind, p.ind + runs[p].len);
  }

  lemma RelabelMapped(g: Geometry, chunks: map<int, Chunk>, runs: Runs, p: Page, k: Kind, ch: Chunk)
    requires Apart(runs) && Positive(runs) && Mapped(g, chunks, runs) && p in runs
    requires ChunkOk(g, ch.map_) && SameBut(chunks[p.chunk].map_, ch.map_, p.ind, p.ind + runs[p].len)
    requires RunMapped(ch.map_, p.ind, Run(runs[p].len, k))
    ensures Mapped(g, chunks[p.chunk := ch], Relabel(runs, p, k))
  {
    OthersOutside(runs, p, Relabel(runs, p, k), ch.map_, p.ind + runs[p].len);
    WindowMapped(g, chunks, runs, Relabel(runs, p, k), p.chunk, ch, p.ind, p.ind + runs[p].len);
  }

  lemma JoinMapped(g: Geometry, chunks: map<int, Chunk>, runs: Runs, p: Page, k: Kind, ch: Chunk)
    requires Apart(runs) && Positive(runs) && Mapped(g, chunks, runs) && p in runs && Next(runs, p) in runs
    requires ChunkOk(g, ch.map_)
    requires SameBut(chunks[p.chunk].map_, ch.map_, p.ind, p.ind + runs[p].len + runs[Next(runs, p)].len)
    requires RunMapped(ch.map_, p.ind, Run(runs[p].len + runs[Next(runs, p)].len, k))
    ensures Mapped(g, chunks[p.chunk := ch], JoinRuns(runs, p, k))
  {
    var hi := p.ind + runs[p].len + runs[Next(runs, p)].len;
    JoinOutside(runs, p, JoinRuns(runs, p, k), ch.map_);
    WindowMapped(g, chunks, runs, JoinRuns(runs, p, k), p.chunk, ch, p.ind, hi);
  }

  lemma SplitOutside(runs: Runs, p: Page, n: int, k: Kind, k': Kind, m: seq<Elm>)
    requires Apart(runs) && Positive(runs) && p in runs
    requires RunMapped(m, p.ind, Run(n, k)) && RunMapped(m, p.ind + n, Run(runs[p].len - n, k'))
    ensures Outside(runs, SplitRuns(runs, p, n, k, k'), p.chunk, m, p.ind, p.ind + runs[p].len)
  {
    OthersOutside(runs, p, SplitRuns(runs, p, n, k, k'), m, p.ind + runs[p].len);
  }

  lemma OthersOutside(runs: Runs, p: Page, runs': Runs, m: seq<Elm>, hi: int)
    requires Apart(runs) && p in runs && hi == p.ind + runs[p].len
    requires Positive(runs)
    requires forall q :: q in runs' ==>
               (q.chunk == p.chunk && RunMapped(m, q.ind, runs'[q])) || (q in runs && q != p && runs'[q] == runs[q])
    ensures Outside(runs, runs', p.chunk, m, p.ind, hi)
  {
    forall q | q in runs && q != p && q.chunk == p.chunk
      ensures q.ind + runs[q].len <= p.ind || hi <= q.ind
    {
      assert runs[p].len > 0;
    }
  }

  lemma JoinOutside(runs: Runs, p: Page, runs': Runs, m: seq<Elm>)
    requires Apart(runs) && p in runs && Next(runs, p) in runs
    requires Positive(runs)
    requires forall q :: q in runs' ==>
               || (q.chunk == p.chunk && RunMapped(m, q.ind, runs'[q]))
               || (q in runs && q != p && q != Next(runs, p) && runs'[q] == runs[q])
    ensures Outside(runs, runs', p.chunk, m, p.ind, p.ind + runs[p].len + runs[Next(runs, p)].len)
  {
    var n := Next(runs, p);
    forall q | q in runs && q != p && q != n && q.chunk == p.chunk
      ensures q.ind + runs[q].len <= p.ind || p.ind + runs[p].len + runs[n].len <= q.ind
    {
      assert runs[p].len > 0 && runs[n].len > 0;
    }
  }

  // ---------- maximal coalescing ----------

  /** No run but `p` itself reaches into `p`. */
  lemma NextOutside(runs: Runs, p: Page, q: Page)
    requires Apart(runs) && Positive(runs) && p in runs && q in runs && q != p
    ensures Next(runs, q).chunk == p.chunk ==> Next(runs, q).ind <= p.ind || p.ind + runs[p].len < Next(runs, q).ind
  {
    assert runs[p].len > 0 && runs[q].len > 0;
  }

  /** Taking the front of a free run. */
  lemma SplitCoalesced(runs: Runs, p: Page, n: int, k: Kind)
    requires Apart(runs) && Positive(runs) && CoalescedBut(runs, None)
    requires IsFree(runs, p) && 0 < n < runs[p].len && k != Free && After(p, n) !in runs
    ensures CoalescedBut(SplitRuns(runs, p, n, k, Free), None)
  {
    var runs' := SplitRuns(runs, p, n, k, Free);
    forall q | IsFree(runs', q)
      ensures !IsFree(runs', Next(runs', q))
    {
      if q == After(p, n) {
        assert Next(runs', q) == Next(runs, p);
      } else {
        NextOutside(runs, p, q);
        assert Next(runs', q) == Next(runs, q);
      }
    }
  }

  lemma TakeCoalesced(runs: Runs, p: Page, k: Kind)
    requires CoalescedBut(runs, None) && p in runs && k != Free
    ensures CoalescedBut(Relabel(runs, p, k), None)
  {
    var runs' := Relabel(runs, p, k);
    forall q | IsFree(runs', q)
      ensures !IsFree(runs', Next(runs', q))
    {
      assert Next(runs', q) == Next(runs, q);
    }
  }

  lemma ReleaseCoalesced(runs: Runs, p: Page)
    requires CoalescedBut(runs, None) && p in runs
    ensures CoalescedBut(Relabel(runs, p, Free), Some(p))
  {
    var runs' := Relabel(runs, p, Free);
    forall q | IsFree(runs', q) && IsFree(runs', Next(runs', q))
      ensures q == p || Next(runs', q) == p
    {
      assert Next(runs', q) == Next(runs, q);
    }
  }

  lemma ForwardCoalesced(runs: Runs, p: Page)
    requires Apart(runs) && Positive(runs) && CoalescedBut(runs, Some(p))
    requires IsFree(runs, p) && IsFree(runs, Next(runs, p))
    ensures var runs' := JoinRuns(runs, p, Free);
            CoalescedBut(runs', Some(p)) && !IsFree(runs', Next(runs', p))
  {
    var n := Next(runs, p);
    var runs' := JoinRuns(runs, p, Free);
    assert Next(runs', p) == Next(runs, n);
    forall q | IsFree(runs', q) && IsFree(runs', Next(runs', q))
      ensures q == p || Next(runs', q) == p
    {
      if q != p { assert Next(runs', q) == Next(runs, q); }
    }
  }

  lemma BackwardCoalesced(runs: Runs, q: Page, p: Page)
    requires Apart(runs) && Positive(runs) && CoalescedBut(runs, Some(p))
    requires IsFree(runs, p) && IsFree(runs, q) && Next(runs, q) == p && !IsFree(runs, Next(runs, p))
    ensures CoalescedBut(JoinRuns(runs, q, Free), None)
  {
    var runs' := JoinRuns(runs, q, Free);
    assert Next(runs', q) == Next(runs, p);
    forall x | IsFree(runs', x)
      ensures !IsFree(runs', Next(runs', x))
    {
      if x != q { assert Next(runs', x) == Next(runs, x); }
    }
  }

  lemma SettledCoalesced(runs: Runs, p: Page)
    requires CoalescedBut(runs, Some(p)) && p in runs && !IsFree(runs, Next(runs, p))
    requires forall q :: q in runs && Next(runs, q) == p ==> !IsFree(runs, q)
    ensures CoalescedBut(runs, None)
  {
  }

  /** Dividing or joining allocated runs does not touch free ones. */
  lemma DivideCoalesced(runs: Runs, p: Page, n: int)
    requires Apart(runs) && Positive(runs) && CoalescedBut(runs, None)
    requires p in runs && runs[p].kind == Large && 0 < n < runs[p].len && After(p, n) !in runs
    ensures CoalescedBut(SplitRuns(runs, p, n, Large, Large), None)
  {
    var runs' := SplitRuns(runs, p, n, Large, Large);
    forall q | IsFree(runs', q)
      ensures !IsFree(runs', Next(runs', q))
    {
      assert Next(runs', q) == Next(runs, q);
    }
  }

  lemma MergeCoalesced(runs: Runs, p: Page)
    requires Apart(runs) && Positive(runs) && CoalescedBut(runs, None)
    requires p in runs && Next(runs, p) in runs && runs[p].kind == Large && runs[Next(runs, p)].kind == Large
    ensures CoalescedBut(JoinRuns(runs, p, Large), None)
  {
    var runs' := JoinRuns(runs, p, Large);
    forall q | IsFree(runs', q)
      ensures !IsFree(runs', Next(runs', q))
    {
      assert Next(runs', q) == Next(runs, q);
    }
  }

  // ---------- chunks come and go ----------

  function WholeRun(g: Geometry): Run { Run(g.MaxPages(), Free) }

  function ChunkPage(g: Geometry, c: int): Page { Page(c, g.header) }

  lemma AddChunkTiled(g: Geometry, ids: set<int>, runs: Runs, c: int)
    requires g.Ok() && Tiled(g, ids, runs) && c !in ids && 0 <= c < g.nchunks
    ensures Tiled(g, ids + {c}, runs[ChunkPage(g, c) := WholeRun(g)])
    ensures ChunkPage(g, c) !in runs
  {
    AddChunkApart(g, ids, runs, c);
    AddChunkContiguous(g, ids, runs, c);
    AddChunkInside(g, ids, runs, c);
    assert Rooted(g, ids + {c}, runs[ChunkPage(g, c) := WholeRun(g)]);
  }

  lemma AddChunkInside(g: Geometry, ids: set<int>, runs: Runs, c: int)
    requires g.Ok() && Inside(g, ids, runs)
    ensures Inside(g, ids + {c}, runs[ChunkPage(g, c) := WholeRun(g)])
  {
  }

  lemma AddChunkApart(g: Geometry, ids: set<int>, runs: Runs, c: int)
    requires Inside(g, ids, runs) && Apart(runs) && c !in ids
    ensures Apart(runs[ChunkPage(g, c) := WholeRun(g)])
  {
  }

  lemma AddChunkContiguous(g: Geometry, ids: set<int>, runs: Runs, c: int)
    requires Inside(g, ids, runs) && Contiguous(g, runs) && c !in ids
    ensures Contiguous(g, runs[ChunkPage(g, c) := WholeRun(g)])
  {
    var runs' := runs[ChunkPage(g, c) := WholeRun(g)];
    forall q | q in runs' && q.ind + runs'[q].len < g.npages
      ensures Next(runs', q) in runs'
    {
      assert Next(runs', q) == Next(runs, q);
    }
  }

  /** A chunk that is one free run has no other run. */
  lemma OneRun(g: Geometry, ids: set<int>, runs: Runs, c: int, p: Page)
    requires Tiled(g, ids, runs) && ChunkPage(g, c) in runs && runs[ChunkPage(g, c)] == WholeRun(g)
    requires p in runs && p.chunk == c
    ensures p == ChunkPage(g, c)
  {
    assert runs[ChunkPage(g, c)].len == g.MaxPages() && runs[p].len > 0;
  }

  lemma DropChunkTiled(g: Geometry, ids: set<int>, runs: Runs, c: int)
    requires Tiled(g, ids, runs) && ChunkPage(g, c) in runs && runs[ChunkPage(g, c)] == WholeRun(g)
    ensures Tiled(g, ids - {c}, runs - {ChunkPage(g, c)})
  {
    var s := ChunkPage(g, c);
    var runs' := runs - {s};
    forall p | p in runs'
      ensures p.chunk != c
    {
      if p.chunk == c { OneRun(g, ids, runs, c, p); }
    }
    DropContiguous(g, runs, s);
    assert Apart(runs');
    assert Inside(g, ids - {c}, runs');
    assert Rooted(g, ids - {c}, runs');
  }

  lemma DropContiguous(g: Geometry, runs: Runs, s: Page)
    requires Contiguous(g, runs) && forall p :: p in runs && p != s ==> p.chunk != s.chunk
    ensures Contiguous(g, runs - {s})
  {
    var runs' := runs - {s};
    forall q | q in runs' && q.ind + runs'[q].len < g.npages
      ensures Next(runs', q) in runs'
    {
      assert Next(runs', q) == Next(runs, q);
    }
  }

  lemma AddCoalesced(g: Geometry, ids: set<int>, runs: Runs, c: int)
    requires g.Ok() && Inside(g, ids, runs) && c !in ids && CoalescedBut(runs, None)
    ensures CoalescedBut(runs[ChunkPage(g, c) := WholeRun(g)], None)
  {
    var runs' := runs[ChunkPage(g, c) := WholeRun(g)];
    forall q | IsFree(runs', q)
      ensures !IsFree(runs', Next(runs', q))
    {
      assert q in runs ==> Next(runs', q) == Next(runs, q);
    }
  }

  lemma DropCoalesced(runs: Runs, s: Page)
    requires CoalescedBut(runs, None)
    ensures CoalescedBut(runs - {s}, None)
  {
    var runs' := runs - {s};
    forall q | IsFree(runs', q)
      ensures !IsFree(runs', Next(runs', q))
    {
      assert Next(runs', q) == Next(runs, q);
    }
  }

  // ---------- the allocated runs ----------

  function InUse(runs: Runs): Runs {
    map p | p in runs && runs[p].kind != Free :: runs[p]
  }

  lemma InUseSplit(runs: Runs, p: Page, n: int, k: Kind)
    requires IsFree(runs, p) && k != Free && After(p, n) !in runs
    ensures InUse(SplitRuns(runs, p, n, k, Free)) == InUse(runs)[p := Run(n, k)]
  {
    assert After(p, n) != p;
  }

  lemma InUseDivide(runs: Runs, p: Page, n: int)
    requires p in runs && runs[p].kind == Large
    ensures InUse(SplitRuns(runs, p, n, Large, Large))
         == InUse(runs)[p := Run(n, Large)][After(p, n) := Run(runs[p].len - n, Large)]
  {
  }

  lemma InUseMerge(runs: Runs, p: Page)
    requires p in runs && Next(runs, p) in runs && runs[p].kind == Large && runs[Next(runs, p)].kind == Large
    ensures InUse(JoinRuns(runs, p, Large))
         == (InUse(runs) - {Next(runs, p)})[p := Run(runs[p].len + runs[Next(runs, p)].len, Large)]
  {
  }

  lemma InUseJoin(runs: Runs, p: Page)
    requires IsFree(runs, p) && IsFree(runs, Next(runs, p))
    ensures InUse(JoinRuns(runs, p, Free)) == InUse(runs)
  {
  }

  // ---------- purging ----------

  /** Some dirty flags were cleared, nothing else changed. */
  ghost predicate Undirtied(m: seq<Elm>, m': seq<Elm>) {
    |m'| == |m| && forall i :: 0 <= i < |m| ==> m'[i] == m[i] || m'[i] == m[i].(dirty := false)
  }

  lemma UndirtiedRun(m: seq<Elm>, m': seq<Elm>, s: int, run: Run)
    requires Undirtied(m, m') && RunMapped(m, s, run)
    ensures RunMapped(m', s, run)
  {
  }

  lemma UndirtiedMapped(g: Geometry, chunks: map<int, Chunk>, runs: Runs, c: int, ch: Chunk)
    requires Mapped(g, chunks, runs) && c in chunks && Undirtied(chunks[c].map_, ch.map_)
    ensures Mapped(g, chunks[c := ch], runs)
  {
    forall p | p in runs
      ensures p.chunk in chunks && RunMapped(chunks[c := ch][p.chunk].map_, p.ind, runs[p])
    {
      if p.chunk == c { UndirtiedRun(chunks[c].map_, ch.map_, p.ind, runs[p]); }
    }
  }
}
