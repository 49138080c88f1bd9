/**
  The order of the tree of available runs, and the set of nodes it holds.
 */
module AvailRuns {
  import opened Prelude
  import opened PageMap

  /** `n` times `w`, kept out of sight of the solver's arithmetic. */
  function Scale(n: int, w: int): int
    requires n >= 0
    decreases n
  {
    if n == 0 then 0 else w + Scale(n - 1, w)
  }

  lemma {:induction false} ScaleIsTimes(n: int, w: int)
    requires n >= 0
    ensures Scale(n, w) == n * w
    decreases n
  {
    if n > 0 { ScaleIsTimes(n - 1, w); }
  }

  lemma {:induction false} ScaleSteps(a: int, b: int, w: int)
    requires 0 <= a < b && 0 <= w
    ensures Scale(a, w) + w <= Scale(b, w)
    decreases b
  {
    if a < b - 1 { ScaleSteps(a, b - 1, w); }
  }

  predicate OnMap(g: Geometry, p: Page) {
    0 <= p.chunk < g.nchunks && 0 <= p.ind < g.npages
  }

  /** The rank of a node in the order of `arena_avail_comp`: by size, then by address. */
  function Key(g: Geometry, size: int, p: Page): int
    requires 0 <= size && g.Ok() && OnMap(g, p)
  {
    ScaleSign(size, g.nchunks);
    Scale(Scale(size, g.nchunks) + p.chunk, g.npages) + p.ind
  }

  lemma {:induction false} ScaleSign(n: int, w: int)
    requires 0 <= n && 0 <= w
    ensures 0 <= Scale(n, w)
    decreases n
  {
    if n > 0 { ScaleSign(n - 1, w); }
  }

  /** The comparison itself. */
  predicate AvailLess(n: int, p: Page, m: int, q: Page) {
    n < m || (n == m && (p.chunk < q.chunk || (p.chunk == q.chunk && p.ind < q.ind)))
  }

  lemma KeyMonotone(g: Geometry, n: int, p: Page, m: int, q: Page)
    requires 0 <= n && 0 <= m && g.Ok() && OnMap(g, p) && OnMap(g, q) && AvailLess(n, p, m, q)
    ensures Key(g, n, p) < Key(g, m, q)
  {
    ScaleSign(n, g.nchunks);
    ScaleSign(m, g.nchunks);
    var a, b := Scale(n, g.nchunks) + p.chunk, Scale(m, g.nchunks) + q.chunk;
    if n < m { ScaleSteps(n, m, g.nchunks); }
    if a < b { ScaleSteps(a, b, g.npages); }
  }

  lemma KeyOrder(g: Geometry, n: int, p: Page, m: int, q: Page)
    requires 0 <= n && 0 <= m && g.Ok() && OnMap(g, p) && OnMap(g, q)
    ensures Key(g, n, p) < Key(g, m, q) <==> AvailLess(n, p, m, q)
    ensures Key(g, n, p) == Key(g, m, q) <==> n == m && p == q
  {
    if AvailLess(n, p, m, q) {
      KeyMonotone(g, n, p, m, q);
    } else if AvailLess(m, q, n, p) {
      KeyMonotone(g, m, q, n, p);
    }
  }

  /** The page a node belongs to, recovered from its place in memory. */
  function PageOf(g: Geometry, k: int): Page
    requires g.Ok()
  {
    Page((k / g.npages) % g.nchunks, k % g.npages)
  }

  lemma PageOfKey(g: Geometry, n: int, p: Page)
    requires 0 <= n && g.Ok() && OnMap(g, p)
    ensures PageOf(g, Key(g, n, p)) == p
  {
    var a := Scale(n, g.nchunks) + p.chunk;
    ScaleSign(n, g.nchunks);
    ScaleIsTimes(a, g.npages);
    ScaleIsTimes(n, g.nchunks);
    Decompose(a, p.ind, g.npages);
    Decompose(n, p.chunk, g.nchunks);
  }

  // ---------- the nodes ----------

  ghost predicate AllOnMap(g: Geometry, runs: Runs) {
    forall p {:trigger runs[p]} {:trigger p in runs} :: p in runs ==> OnMap(g, p) && 0 <= runs[p].len
  }

  lemma TiledOnMap(g: Geometry, ids: set<int>, runs: Runs)
    requires g.Ok() && Tiled(g, ids, runs)
    ensures AllOnMap(g, runs)
  {
    forall p | p in runs
      ensures OnMap(g, p) && 0 <= runs[p].len
    {
      assert p.chunk in ids;
    }
  }

  predicate Avail(runs: Runs, spare: Option<int>, p: Page) {
    IsFree(runs, p) && spare != Some(p.chunk)
  }

  /** The nodes that `runs_avail` should hold: the free runs of all chunks but the spare. */
  ghost function AvailKeys(g: Geometry, runs: Runs, spare: Option<int>): set<int>
    requires g.Ok() && AllOnMap(g, runs)
  {
    set p | p in runs && Avail(runs, spare, p) :: Key(g, runs[p].len, p)
  }

  ghost function NodeAt(g: Geometry, runs: Runs, spare: Option<int>, p: Page): set<int>
    requires g.Ok() && AllOnMap(g, runs)
  {
    if Avail(runs, spare, p) then {Key(g, runs[p].len, p)} else {}
  }

  lemma AvailKey(g: Geometry, runs: Runs, spare: Option<int>, p: Page, n: int)
    requires g.Ok() && AllOnMap(g, runs) && OnMap(g, p) && 0 <= n
    ensures Key(g, n, p) in AvailKeys(g, runs, spare) <==> Avail(runs, spare, p) && runs[p].len == n
  {
    if Key(g, n, p) in AvailKeys(g, runs, spare) {
      var q :| q in runs && Avail(runs, spare, q) && Key(g, runs[q].len, q) == Key(g, n, p);
      KeyOrder(g, n, p, runs[q].len, q);
    }
  }

  /** Same available runs, same nodes. */
  lemma AvailSame(g: Geometry, runs: Runs, runs': Runs, spare: Option<int>, spare': Option<int>)
    requires g.Ok() && AllOnMap(g, runs) && AllOnMap(g, runs')
    requires forall p :: Avail(runs, spare, p) <==> Avail(runs', spare', p)
    requires forall p :: Avail(runs, spare, p) && Avail(runs', spare', p) ==> runs'[p].len == runs[p].len
    ensures AvailKeys(g, runs', spare') == AvailKeys(g, runs, spare)
  {
  }

  lemma AvailSet(g: Geometry, runs: Runs, spare: Option<int>, p: Page, run: Run)
    requires g.Ok() && AllOnMap(g, runs) && OnMap(g, p) && 0 <= run.len
    ensures AllOnMap(g, runs[p := run])
    ensures AvailKeys(g, runs[p := run], spare)
         == AvailKeys(g, runs, spare) - NodeAt(g, runs, spare, p) + NodeAt(g, runs[p := run], spare, p)
  {
    var runs' := runs[p := run];
    forall q | Avail(runs, spare, q) && q != p
      ensures Key(g, runs[q].len, q) !in NodeAt(g, runs, spare, p)
    {
      if Avail(runs, spare, p) { KeyOrder(g, runs[q].len, q, runs[p].len, p); }
    }
    var want := AvailKeys(g, runs, spare) - NodeAt(g, runs, spare, p) + NodeAt(g, runs', spare, p);
    forall k | k in AvailKeys(g, runs', spare)
      ensures k in want
    {
      var q :| q in runs' && Avail(runs', spare, q) && Key(g, runs'[q].len, q) == k;
      assert q != p ==> Avail(runs, spare, q);
    }
    forall k | k in want && k !in NodeAt(g, runs', spare, p)
      ensures k in AvailKeys(g, runs', spare)
    {
      var q :| q in runs && Avail(runs, spare, q) && Key(g, runs[q].len, q) == k;
      assert q in runs' && Avail(runs', spare, q);
    }
  }

  lemma AvailDrop(g: Geometry, runs: Runs, spare: Option<int>, p: Page)
    requires g.Ok() && AllOnMap(g, runs)
    ensures AllOnMap(g, runs - {p})
    ensures AvailKeys(g, runs - {p}, spare) == AvailKeys(g, runs, spare) - NodeAt(g, runs, spare, p)
  {
    var runs' := runs - {p};
    forall q | Avail(runs, spare, q) && q != p
      ensures Key(g, runs[q].len, q) !in NodeAt(g, runs, spare, p)
    {
      if Avail(runs, spare, p) { KeyOrder(g, runs[q].len, q, runs[p].len, p); }
    }
    var want := AvailKeys(g, runs, spare) - NodeAt(g, runs, spare, p);
    forall k | k in AvailKeys(g, runs', spare)
      ensures k in want
    {
      var q :| q in runs' && Avail(runs', spare, q) && Key(g, runs'[q].len, q) == k;
      assert Avail(runs, spare, q);
    }
    forall k | k in want
      ensures k in AvailKeys(g, runs', spare)
    {
      var q :| q in runs && Avail(runs, spare, q) && Key(g, runs[q].len, q) == k;
      assert q in runs' && Avail(runs', spare, q);
    }
  }

  /** A node flagged as a search key ranks below every run of its size. */
  function Probe(g: Geometry, size: int): int
    requires 0 <= size && g.Ok()
  {
    Key(g, size, Page(0, 0))
  }

  lemma ProbeOrder(g: Geometry, size: int, m: int, q: Page)
    requires 0 <= size && 0 <= m && g.Ok() && OnMap(g, q)
    ensures Probe(g, size) <= Key(g, m, q) <==> size <= m
  {
    KeyOrder(g, size, Page(0, 0), m, q);
  }

  /** The run that a node of the tree stands for. */
  lemma NodeRun(g: Geometry, runs: Runs, spare: Option<int>, k: int)
    requires g.Ok() && AllOnMap(g, runs) && k in AvailKeys(g, runs, spare)
    ensures var p := PageOf(g, k); Avail(runs, spare, p) && k == Key(g, runs[p].len, p)
  {
    var p :| p in runs && Avail(runs, spare, p) && Key(g, runs[p].len, p) == k;
    PageOfKey(g, runs[p].len, p);
  }

  /** `p` is the first best fit: it is available, holds `size` pages, and comes before
      every other such run in the order by size and address. */
  ghost predicate BestFit(runs: Runs, spare: Option<int>, size: int, p: Page) {
    && Avail(runs, spare, p) && size <= runs[p].len
    && forall q :: Avail(runs, spare, q) && size <= runs[q].len ==>
         q == p || AvailLess(runs[p].len, p, runs[q].len, q)
  }

  ghost predicate NoFit(runs: Runs, spare: Option<int>, size: int) {
    forall q :: Avail(runs, spare, q) ==> runs[q].len < size
  }

  /** The least node not below the probe is the first best fit. */
  lemma LeastIsBestFit(g: Geometry, runs: Runs, spare: Option<int>, size: int, k: int)
    requires g.Ok() && AllOnMap(g, runs) && 0 <= size
    requires k in AvailKeys(g, runs, spare) && Probe(g, size) <= k
    requires forall x :: x in AvailKeys(g, runs, spare) && Probe(g, size) <= x ==> k <= x
    ensures BestFit(runs, spare, size, PageOf(g, k)) && k == Key(g, runs[PageOf(g, k)].len, PageOf(g, k))
  {
    NodeRun(g, runs, spare, k);
    var p := PageOf(g, k);
    ProbeOrder(g, size, runs[p].len, p);
    forall q | Avail(runs, spare, q) && size <= runs[q].len
      ensures q == p || AvailLess(runs[p].len, p, runs[q].len, q)
    {
      ProbeOrder(g, size, runs[q].len, q);
      AvailKey(g, runs, spare, q, runs[q].len);
      KeyOrder(g, runs[q].len, q, runs[p].len, p);
    }
  }

  lemma NoneIsNoFit(g: Geometry, runs: Runs, spare: Option<int>, size: int)
    requires g.Ok() && AllOnMap(g, runs) && 0 <= size
    requires forall x :: x in AvailKeys(g, runs, spare) ==> x < Probe(g, size)
    ensures NoFit(runs, spare, size)
  {
    forall q | Avail(runs, spare, q)
      ensures runs[q].len < size
    {
      ProbeOrder(g, size, runs[q].len, q);
      AvailKey(g, runs, spare, q, runs[q].len);
    }
  }
}
