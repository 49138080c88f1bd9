/**
  The invariant of the page map, the runs and the tree of available runs taken
  together, and the steps from which the operations of an arena are built.
 */
module PageState {
  import opened Prelude
  import opened PageMap
  import opened AvailRuns
  import opened DirtyPages

  /** `x` is a run around which coalescing may still be incomplete. */
  ghost predicate Good(g: Geometry, chunks: map<int, Chunk>, runs: Runs, x: Option<Page>) {
    && g.Ok() && Tiled(g, chunks.Keys, runs) && Positive(runs) && AllOnMap(g, runs)
    && CoalescedBut(runs, x) && Mapped(g, chunks, runs)
  }

  /** The spare chunk is completely unused. */
  ghost predicate SpareOk(g: Geometry, runs: Runs, spare: Option<int>) {
    spare.Some? ==>
      Page(spare.value, g.header) in runs && runs[Page(spare.value, g.header)] == Run(g.MaxPages(), Free)
  }

  /** All runs of the spare chunk are that one run. */
  lemma SpareIsOneRun(g: Geometry, ids: set<int>, runs: Runs, spare: Option<int>, p: Page)
    requires Tiled(g, ids, runs) && SpareOk(g, runs, spare) && p in runs && spare == Some(p.chunk)
    ensures p == Page(p.chunk, g.header)
  {
    var s := Page(p.chunk, g.header);
    assert runs[s].len == g.MaxPages() && runs[p].len > 0;
  }

  lemma TiledFacts(g: Geometry, ids: set<int>, runs: Runs)
    requires g.Ok() && Tiled(g, ids, runs)
    ensures Positive(runs) && AllOnMap(g, runs)
  {
    TiledOnMap(g, ids, runs);
  }

  /** Allocating the first `n` pages of a free run. */
  lemma GoodSplit(g: Geometry, chunks: map<int, Chunk>, runs: Runs, p: Page, n: int, k: Kind, ch: Chunk)
    requires Good(g, chunks, runs, None) && IsFree(runs, p) && 0 < n < runs[p].len && k != Free
    requires ChunkOk(g, ch.map_) && SameBut(chunks[p.chunk].map_, ch.map_, p.ind, p.ind + runs[p].len)
    requires RunMapped(ch.map_, p.ind, Run(n, k)) && RunMapped(ch.map_, p.ind + n, Run(runs[p].len - n, Free))
    ensures Good(g, chunks[p.chunk := ch], SplitRuns(runs, p, n, k, Free), None)
    ensures After(p, n) !in runs
  {
    var chunks', runs' := chunks[p.chunk := ch], SplitRuns(runs, p, n, k, Free);
    assert chunks'.Keys == chunks.Keys;
    SplitTiled(g, chunks.Keys, runs, p, n, k, Free);
    TiledFacts(g, chunks'.Keys, runs');
    SplitCoalesced(runs, p, n, k);
    SplitMapped(g, chunks, runs, p, n, k, Free, ch);
  }

  /** Allocating the whole of a free run. */
  lemma GoodTake(g: Geometry, chunks: map<int, Chunk>, runs: Runs, p: Page, k: Kind, ch: Chunk)
    requires Good(g, chunks, runs, None) && IsFree(runs, p) && k != Free
    requires ChunkOk(g, ch.map_) && SameBut(chunks[p.chunk].map_, ch.map_, p.ind, p.ind + runs[p].len)
    requires RunMapped(ch.map_, p.ind, Run(runs[p].len, k))
    ensures Good(g, chunks[p.chunk := ch], Relabel(runs, p, k), None)
  {
    var chunks', runs' := chunks[p.chunk := ch], Relabel(runs, p, k);
    assert chunks'.Keys == chunks.Keys;
    RelabelTiled(g, chunks.Keys, runs, p, k);
    TiledFacts(g, chunks'.Keys, runs');
    TakeCoalesced(runs, p, k);
    RelabelMapped(g, chunks, runs, p, k, ch);
  }

  /** Giving an allocated run back, before coalescing. */
  lemma GoodRelease(g: Geometry, chunks: map<int, Chunk>, runs: Runs, p: Page, ch: Chunk)
    requires Good(g, chunks, runs, None) && p in runs
    requires ChunkOk(g, ch.map_) && SameBut(chunks[p.chunk].map_, ch.map_, p.ind, p.ind + runs[p].len)
    requires RunMapped(ch.map_, p.ind, Run(runs[p].len, Free))
    ensures Good(g, chunks[p.chunk := ch], Relabel(runs, p, Free), Some(p))
  {
    var chunks', runs' := chunks[p.chunk := ch], Relabel(runs, p, Free);
    assert chunks'.Keys == chunks.Keys;
    RelabelTiled(g, chunks.Keys, runs, p, Free);
    TiledFacts(g, chunks'.Keys, runs');
    ReleaseCoalesced(runs, p);
    RelabelMapped(g, chunks, runs, p, Free, ch);
  }

  /** Coalescing with the following free run. */
  lemma GoodForward(g: Geometry, chunks: map<int, Chunk>, runs: Runs, p: Page, ch: Chunk)
    requires Good(g, chunks, runs, Some(p)) && IsFree(runs, p) && IsFree(runs, Next(runs, p))
    requires ChunkOk(g, ch.map_)
    requires SameBut(chunks[p.chunk].map_, ch.map_, p.ind, p.ind + runs[p].len + runs[Next(runs, p)].len)
    requires RunMapped(ch.map_, p.ind, Run(runs[p].len + runs[Next(runs, p)].len, Free))
    ensures var runs' := JoinRuns(runs, p, Free);
            Good(g, chunks[p.chunk := ch], runs', Some(p)) && !IsFree(runs', Next(runs', p))
  {
    var chunks', runs' := chunks[p.chunk := ch], JoinRuns(runs, p, Free);
    assert chunks'.Keys == chunks.Keys;
    JoinTiled(g, chunks.Keys, runs, p, Free);
    TiledFacts(g, chunks'.Keys, runs');
    ForwardCoalesced(runs, p);
    JoinMapped(g, chunks, runs, p, Free, ch);
  }

  /** Coalescing with the preceding free run. */
  lemma GoodBackward(g: Geometry, chunks: map<int, Chunk>, runs: Runs, q: Page, p: Page, ch: Chunk)
    requires Good(g, chunks, runs, Some(p)) && IsFree(runs, p) && IsFree(runs, q)
    requires Next(runs, q) == p && !IsFree(runs, Next(runs, p))
    requires ChunkOk(g, ch.map_) && SameBut(chunks[q.chunk].map_, ch.map_, q.ind, q.ind + runs[q].len + runs[p].len)
    requires RunMapped(ch.map_, q.ind, Run(runs[q].len + runs[p].len, Free))
    ensures Good(g, chunks[q.chunk := ch], JoinRuns(runs, q, Free), None)
  {
    var chunks', runs' := chunks[q.chunk := ch], JoinRuns(runs, q, Free);
    assert chunks'.Keys == chunks.Keys;
    JoinTiled(g, chunks.Keys, runs, q, Free);
    TiledFacts(g, chunks'.Keys, runs');
    BackwardCoalesced(runs, q, p);
    JoinMapped(g, chunks, runs, q, Free, ch);
  }

  // ---------- what the entries next to a run say ----------

  /** The entry after a run tells whether a free run follows, and how long it is. */
  lemma LookAhead(g: Geometry, chunks: map<int, Chunk>, runs: Runs, x: Option<Page>, p: Page)
    requires Good(g, chunks, runs, x) && p in runs && p.ind + runs[p].len < g.npages
    ensures p.chunk in chunks && |chunks[p.chunk].map_| == g.npages
    ensures Next(runs, p) in runs
    ensures var e := chunks[p.chunk].map_[p.ind + runs[p].len];
            (!e.inUse <==> IsFree(runs, Next(runs, p))) && (!e.inUse ==> e.hi == runs[Next(runs, p)].len)
  {
    var n := Next(runs, p);
    assert n in runs;
    assert RunMapped(chunks[n.chunk].map_, n.ind, runs[n]);
  }

  lemma LastEntry(g: Geometry, chunks: map<int, Chunk>, runs: Runs, q: Page)
    requires Mapped(g, chunks, runs) && q in runs
    ensures q.chunk in chunks && 0 < runs[q].len && 0 <= q.ind && q.ind + runs[q].len <= |chunks[q.chunk].map_|
    ensures var e := chunks[q.chunk].map_[q.ind + runs[q].len - 1];
            (!e.inUse <==> IsFree(runs, q)) && (!e.inUse ==> e.hi == runs[q].len)
  {
    assert RunMapped(chunks[q.chunk].map_, q.ind, runs[q]);
  }

  lemma OnlyBefore(runs: Runs, q: Page, p: Page)
    requires Apart(runs) && Positive(runs) && q in runs && Next(runs, q) == p
    ensures forall y :: y in runs && Next(runs, y) == p ==> y == q
  {
    forall y | y in runs && Next(runs, y) == p
      ensures y == q
    {
      SameNext(runs, y, q);
    }
  }

  /** The entry before a run tells whether a free run precedes it, and how long it is. */
  lemma LookBehind(g: Geometry, chunks: map<int, Chunk>, runs: Runs, x: Option<Page>, p: Page) returns (q: Page)
    requires Good(g, chunks, runs, x) && p in runs && g.header < p.ind
    ensures p.chunk in chunks && |chunks[p.chunk].map_| == g.npages
    ensures q in runs && Next(runs, q) == p
    ensures var e := chunks[p.chunk].map_[p.ind - 1];
            (!e.inUse <==> IsFree(runs, q)) && (!e.inUse ==> e.hi == runs[q].len)
  {
    q := Owner(g, chunks.Keys, runs, p.chunk, p.ind - 1);
    EndsAt(runs, q, p);
    LastEntry(g, chunks, runs, q);
  }

  lemma EndsAt(runs: Runs, q: Page, p: Page)
    requires Apart(runs) && Positive(runs) && p in runs && q in runs && q.chunk == p.chunk
    requires q.ind <= p.ind - 1 < q.ind + runs[q].len
    ensures Next(runs, q) == p
  {
    assert runs[q].len > 0 && runs[p].len > 0;
  }

  // ---------- the nodes of the tree of available runs ----------

  lemma AvailSplit(g: Geometry, runs: Runs, spare: Option<int>, p: Page, n: int, k: Kind)
    requires Avail(runs, spare, p) && 0 < n < runs[p].len && k != Free && After(p, n) !in runs
    requires g.Ok() && AllOnMap(g, runs) && AllOnMap(g, SplitRuns(runs, p, n, k, Free))
    ensures OnMap(g, After(p, n))
    ensures AvailKeys(g, SplitRuns(runs, p, n, k, Free), spare)
         == AvailKeys(g, runs, spare) - {Key(g, runs[p].len, p)} + {Key(g, runs[p].len - n, After(p, n))}
  {
    var r := After(p, n);
    assert r in SplitRuns(runs, p, n, k, Free);
    AvailSet(g, runs, spare, p, Run(n, k));
    AvailSet(g, runs[p := Run(n, k)], spare, r, Run(runs[p].len - n, Free));
  }

  // ---------- whole steps ----------

  /** The invariant of the page layer between operations: the map, the runs, the spare
      chunk, the dirty count, and the contents of the two trees. */
  ghost predicate Whole(g: Geometry, chunks: map<int, Chunk>, runs: Runs, spare: Option<int>, ndirty: int,
                        avail: set<int>, dirty: set<int>)
  {
    && Good(g, chunks, runs, None) && SpareOk(g, runs, spare) && Counted(g, chunks, ndirty, dirty)
    && avail == AvailKeys(g, runs, spare)
  }

  /** The runs after the first `n` pages of the free run at `p` have been taken. */
  function TakeRuns(runs: Runs, p: Page, n: int, k: Kind): Runs
    requires p in runs
  {
    if n < runs[p].len then SplitRuns(runs, p, n, k, Free) else Relabel(runs, p, k)
  }

  ghost predicate TakenMap(m: seq<Elm>, m': seq<Elm>, s: int, len: int, n: int, k: Kind) {
    && SameBut(m, m', s, s + len) && RunMapped(m', s, Run(n, k))
    && (n < len ==> RunMapped(m', s + n, Run(len - n, Free)))
  }

  function Touch(dirty: set<int>, c: int, ndirty: int): set<int> {
    if ndirty > 0 then dirty + {c} else dirty - {c}
  }

  lemma TakeGood(g: Geometry, chunks: map<int, Chunk>, runs: Runs, p: Page, n: int, k: Kind, ch: Chunk)
    requires Good(g, chunks, runs, None) && IsFree(runs, p) && 0 < n <= runs[p].len && k != Free
    requires ChunkOk(g, ch.map_) && TakenMap(chunks[p.chunk].map_, ch.map_, p.ind, runs[p].len, n, k)
    ensures Good(g, chunks[p.chunk := ch], TakeRuns(runs, p, n, k), None)
    ensures n < runs[p].len ==> After(p, n) !in runs
  {
    if n < runs[p].len {
      GoodSplit(g, chunks, runs, p, n, k, ch);
    } else {
      GoodTake(g, chunks, runs, p, k, ch);
    }
  }

  lemma TakeAvail(g: Geometry, runs: Runs, spare: Option<int>, p: Page, n: int, k: Kind)
    requires Avail(runs, spare, p) && 0 < n <= runs[p].len && k != Free
    requires n < runs[p].len ==> After(p, n) !in runs
    requires g.Ok() && AllOnMap(g, runs) && AllOnMap(g, TakeRuns(runs, p, n, k))
    ensures Key(g, runs[p].len, p) in AvailKeys(g, runs, spare)
    ensures n < runs[p].len ==> OnMap(g, After(p, n))
    ensures n < runs[p].len ==> Key(g, runs[p].len - n, After(p, n)) !in AvailKeys(g, runs, spare)
    ensures AvailKeys(g, TakeRuns(runs, p, n, k), spare)
         == AvailKeys(g, runs, spare) - {Key(g, runs[p].len, p)}
          + (if n < runs[p].len then {Key(g, runs[p].len - n, After(p, n))} else {})
  {
    AvailKey(g, runs, spare, p, runs[p].len);
    if n < runs[p].len {
      AvailSplit(g, runs, spare, p, n, k);
      AvailKey(g, runs, spare, After(p, n), runs[p].len - n);
    } else {
      AvailSet(g, runs, spare, p, Run(n, k));
    }
  }

  lemma InChunk(g: Geometry, chunks: map<int, Chunk>, runs: Runs, x: Option<Page>, p: Page)
    requires Good(g, chunks, runs, x) && p in runs
    ensures p.chunk in chunks && 0 <= p.chunk < g.nchunks && |chunks[p.chunk].map_| == g.npages
    ensures 0 < runs[p].len && g.header <= p.ind && p.ind + runs[p].len <= g.npages
    ensures RunMapped(chunks[p.chunk].map_, p.ind, runs[p])
  {
    assert p.chunk in chunks;
  }

  lemma TakeStep(g: Geometry, chunks: map<int, Chunk>, runs: Runs, spare: Option<int>, ndirty: int,
                 avail: set<int>, dirty: set<int>, p: Page, n: int, k: Kind, ch: Chunk)
    requires Whole(g, chunks, runs, spare, ndirty, avail, dirty)
    requires Avail(runs, spare, p) && 0 < n <= runs[p].len && k != Free
    requires ChunkOk(g, ch.map_) && TakenMap(chunks[p.chunk].map_, ch.map_, p.ind, runs[p].len, n, k)
    requires ch.ndirty == CountDirty(ch.map_)
    ensures OnMap(g, p) && Key(g, runs[p].len, p) in avail
    ensures n < runs[p].len ==> OnMap(g, After(p, n)) && Key(g, runs[p].len - n, After(p, n)) !in avail
    ensures Whole(g, chunks[p.chunk := ch], TakeRuns(runs, p, n, k), spare, ndirty - chunks[p.chunk].ndirty + ch.ndirty,
                  avail - {Key(g, runs[p].len, p)}
                    + (if n < runs[p].len then {Key(g, runs[p].len - n, After(p, n))} else {}),
                  Touch(dirty, p.chunk, ch.ndirty))
  {
    hide Tiled, Mapped, Counted, AvailKeys, TakenMap, CoalescedBut, Positive;
    InChunk(g, chunks, runs, None, p);
    TakeGood(g, chunks, runs, p, n, k, ch);
    TakeAvail(g, runs, spare, p, n, k);
    CountedUpdate(g, chunks, ndirty, dirty, p.chunk, ch);
  }

  // ---------- giving a run back ----------

  /** The state inside `arena_run_dalloc`: the free run at `p` is not yet in the tree of
      available runs, and coalescing around `x` may be incomplete. */
  ghost predicate Half(g: Geometry, chunks: map<int, Chunk>, runs: Runs, spare: Option<int>, ndirty: int,
                       avail: set<int>, dirty: set<int>, p: Page, x: Option<Page>)
  {
    && Good(g, chunks, runs, x) && SpareOk(g, runs, spare) && Counted(g, chunks, ndirty, dirty)
    && Avail(runs, spare, p) && avail == AvailKeys(g, runs, spare) - {Key(g, runs[p].len, p)}
  }

  /** An allocated run is not in the spare chunk. */
  lemma UsedNotSpare(g: Geometry, chunks: map<int, Chunk>, runs: Runs, spare: Option<int>, x: Option<Page>, p: Page)
    requires Good(g, chunks, runs, x) && SpareOk(g, runs, spare) && p in runs && runs[p].kind != Free
    ensures spare != Some(p.chunk)
  {
    if spare == Some(p.chunk) { SpareIsOneRun(g, chunks.Keys, runs, spare, p); }
  }

  lemma ReleaseStep(g: Geometry, chunks: map<int, Chunk>, runs: Runs, spare: Option<int>, ndirty: int,
                    avail: set<int>, dirty: set<int>, p: Page, ch: Chunk)
    requires Whole(g, chunks, runs, spare, ndirty, avail, dirty) && p in runs && runs[p].kind != Free
    requires p.chunk in chunks
    requires ChunkOk(g, ch.map_) && SameBut(chunks[p.chunk].map_, ch.map_, p.ind, p.ind + runs[p].len)
    requires RunMapped(ch.map_, p.ind, Run(runs[p].len, Free)) && ch.ndirty == CountDirty(ch.map_)
    ensures Half(g, chunks[p.chunk := ch], Relabel(runs, p, Free), spare, ndirty - chunks[p.chunk].ndirty + ch.ndirty,
                 avail, Touch(dirty, p.chunk, ch.ndirty), p, Some(p))
  {
    hide Tiled, Mapped, Counted, AvailKeys, CoalescedBut, Positive, RunMapped, SameBut, ChunkOk;
    InChunk(g, chunks, runs, None, p);
    UsedNotSpare(g, chunks, runs, spare, None, p);
    GoodRelease(g, chunks, runs, p, ch);
    AvailSet(g, runs, spare, p, Run(runs[p].len, Free));
    AvailKey(g, runs, spare, p, runs[p].len);
    CountedUpdate(g, chunks, ndirty, dirty, p.chunk, ch);
  }

  lemma ForwardStep(g: Geometry, chunks: map<int, Chunk>, runs: Runs, spare: Option<int>, ndirty: int,
                    avail: set<int>, dirty: set<int>, p: Page, ch: Chunk)
    requires Half(g, chunks, runs, spare, ndirty, avail, dirty, p, Some(p)) && IsFree(runs, Next(runs, p))
    requires p.chunk in chunks
    requires ChunkOk(g, ch.map_)
    requires SameBut(chunks[p.chunk].map_, ch.map_, p.ind, p.ind + runs[p].len + runs[Next(runs, p)].len)
    requires RunMapped(ch.map_, p.ind, Run(runs[p].len + runs[Next(runs, p)].len, Free))
    requires ch.ndirty == chunks[p.chunk].ndirty == CountDirty(ch.map_)
    ensures OnMap(g, Next(runs, p)) && Key(g, runs[Next(runs, p)].len, Next(runs, p)) in avail
    ensures var runs' := JoinRuns(runs, p, Free);
            && Half(g, chunks[p.chunk := ch], runs', spare, ndirty,
                    avail - {Key(g, runs[Next(runs, p)].len, Next(runs, p))}, Touch(dirty, p.chunk, ch.ndirty),
                        p, Some(p))
            && !IsFree(runs', Next(runs', p))
  {
    hide Tiled, Mapped, Counted, AvailKeys, CoalescedBut, Positive, RunMapped, SameBut, ChunkOk;
    InChunk(g, chunks, runs, Some(p), p);
    InChunk(g, chunks, runs, Some(p), Next(runs, p));
    GoodForward(g, chunks, runs, p, ch);
    JoinAvail(g, runs, spare, p);
    CountedUpdate(g, chunks, ndirty, dirty, p.chunk, ch);
  }

  /** Two adjacent available runs become one. */
  lemma JoinAvail(g: Geometry, runs: Runs, spare: Option<int>, p: Page)
    requires g.Ok() && AllOnMap(g, runs) && Avail(runs, spare, p) && IsFree(runs, Next(runs, p))
    requires 0 < runs[p].len && 0 < runs[Next(runs, p)].len
    requires AllOnMap(g, JoinRuns(runs, p, Free))
    ensures var n, runs' := Next(runs, p), JoinRuns(runs, p, Free);
            && Key(g, runs[n].len, n) in AvailKeys(g, runs, spare)
            && Key(g, runs[n].len, n) != Key(g, runs[p].len, p)
            && Key(g, runs'[p].len, p) !in AvailKeys(g, runs, spare)
            && AvailKeys(g, runs', spare)
            == AvailKeys(g, runs, spare) - {Key(g, runs[n].len, n)} - {Key(g, runs[p].len, p)}
                + {Key(g, runs'[p].len, p)}
  {
    var n := Next(runs, p);
    AvailDrop(g, runs, spare, n);
    AvailSet(g, runs - {n}, spare, p, Run(runs[p].len + runs[n].len, Free));
    AvailKey(g, runs, spare, n, runs[n].len);
    AvailKey(g, runs, spare, p, runs[p].len + runs[n].len);
    KeyOrder(g, runs[n].len, n, runs[p].len, p);
  }

  lemma BackwardStep(g: Geometry, chunks: map<int, Chunk>, runs: Runs, spare: Option<int>, ndirty: int,
                     avail: set<int>, dirty: set<int>, q: Page, p: Page, ch: Chunk)
    requires Half(g, chunks, runs, spare, ndirty, avail, dirty, p, Some(p)) && !IsFree(runs, Next(runs, p))
    requires IsFree(runs, q) && Next(runs, q) == p && q.chunk in chunks
    requires ChunkOk(g, ch.map_) && SameBut(chunks[q.chunk].map_, ch.map_, q.ind, q.ind + runs[q].len + runs[p].len)
    requires RunMapped(ch.map_, q.ind, Run(runs[q].len + runs[p].len, Free))
    requires ch.ndirty == chunks[q.chunk].ndirty == CountDirty(ch.map_)
    ensures OnMap(g, q) && Key(g, runs[q].len, q) in avail
    ensures Half(g, chunks[q.chunk := ch], JoinRuns(runs, q, Free), spare, ndirty,
                 avail - {Key(g, runs[q].len, q)}, Touch(dirty, q.chunk, ch.ndirty), q, None)
  {
    hide Tiled, Mapped, Counted, AvailKeys, CoalescedBut, Positive, RunMapped, SameBut, ChunkOk;
    InChunk(g, chunks, runs, Some(p), q);
    InChunk(g, chunks, runs, Some(p), p);
    GoodBackward(g, chunks, runs, q, p, ch);
    JoinAvail(g, runs, spare, q);
    AvailKey(g, runs, spare, q, runs[q].len);
    CountedUpdate(g, chunks, ndirty, dirty, q.chunk, ch);
  }

  lemma InsertStep(g: Geometry, chunks: map<int, Chunk>, runs: Runs, spare: Option<int>, ndirty: int,
                   avail: set<int>, dirty: set<int>, p: Page)
    requires Half(g, chunks, runs, spare, ndirty, avail, dirty, p, None)
    ensures OnMap(g, p) && 0 <= runs[p].len && Key(g, runs[p].len, p) !in avail
    ensures Whole(g, chunks, runs, spare, ndirty, avail + {Key(g, runs[p].len, p)}, dirty)
  {
    hide Tiled, Mapped, Counted, AvailKeys, CoalescedBut, Positive;
    AvailKey(g, runs, spare, p, runs[p].len);
  }

  // ---------- chunks come and go ----------

  lemma AddChunkStep(g: Geometry, chunks: map<int, Chunk>, runs: Runs, spare: Option<int>, ndirty: int,
                     avail: set<int>, dirty: set<int>, c: int, ch: Chunk)
    requires Whole(g, chunks, runs, spare, ndirty, avail, dirty) && c !in chunks && 0 <= c < g.nchunks
    requires spare != Some(c)
    requires ChunkOk(g, ch.map_) && RunMapped(ch.map_, g.header, WholeRun(g)) && ch.ndirty == 0 == CountDirty(ch.map_)
    ensures OnMap(g, ChunkPage(g, c)) && Key(g, g.MaxPages(), ChunkPage(g, c)) !in avail
    ensures Whole(g, chunks[c := ch], runs[ChunkPage(g, c) := WholeRun(g)], spare, ndirty,
                  avail + {Key(g, g.MaxPages(), ChunkPage(g, c))}, dirty)
  {
    hide Tiled, Mapped, Counted, AvailKeys, CoalescedBut, Positive, RunMapped, ChunkOk;
    AddChunkGood(g, chunks, runs, c, ch);
    AvailSet(g, runs, spare, ChunkPage(g, c), WholeRun(g));
    AvailKey(g, runs, spare, ChunkPage(g, c), g.MaxPages());
    AddChunkCounted(g, chunks, ndirty, dirty, c, ch);
  }

  lemma AddChunkGood(g: Geometry, chunks: map<int, Chunk>, runs: Runs, c: int, ch: Chunk)
    requires Good(g, chunks, runs, None) && c !in chunks && 0 <= c < g.nchunks
    requires ChunkOk(g, ch.map_) && RunMapped(ch.map_, g.header, WholeRun(g))
    ensures Good(g, chunks[c := ch], runs[ChunkPage(g, c) := WholeRun(g)], None)
    ensures ChunkPage(g, c) !in runs
  {
    hide Mapped, CoalescedBut, Contiguous, Apart, RunMapped;
    var chunks', runs' := chunks[c := ch], runs[ChunkPage(g, c) := WholeRun(g)];
    assert chunks'.Keys == chunks.Keys + {c};
    AddChunkTiled(g, chunks.Keys, runs, c);
    TiledFacts(g, chunks'.Keys, runs');
    AddCoalesced(g, chunks.Keys, runs, c);
    AddChunkMapped(g, chunks, runs, c, ch);
  }

  lemma AddChunkMapped(g: Geometry, chunks: map<int, Chunk>, runs: Runs, c: int, ch: Chunk)
    requires Mapped(g, chunks, runs) && c !in chunks
    requires ChunkOk(g, ch.map_) && RunMapped(ch.map_, g.header, WholeRun(g))
    ensures Mapped(g, chunks[c := ch], runs[ChunkPage(g, c) := WholeRun(g)])
  {
    hide RunMapped, ChunkOk;
  }

  lemma AddChunkCounted(g: Geometry, chunks: map<int, Chunk>, ndirty: int, dirty: set<int>, c: int, ch: Chunk)
    requires Counted(g, chunks, ndirty, dirty) && c !in chunks && ch.ndirty == 0 == CountDirty(ch.map_)
    ensures Counted(g, chunks[c := ch], ndirty, dirty)
  {
    SumSame(chunks, chunks[c := ch], g.nchunks);
  }

  /** A completely unused chunk is unmapped. */
  lemma DropChunkStep(g: Geometry, chunks: map<int, Chunk>, runs: Runs, ndirty: int,
                      avail: set<int>, dirty: set<int>, s: int)
    requires Whole(g, chunks, runs, Some(s), ndirty, avail, dirty)
    ensures s in chunks
    ensures Whole(g, chunks - {s}, runs - {ChunkPage(g, s)}, None, ndirty - chunks[s].ndirty, avail, dirty - {s})
  {
    hide Tiled, Mapped, Counted, AvailKeys, CoalescedBut, Positive, RunMapped, ChunkOk;
    InChunk(g, chunks, runs, None, ChunkPage(g, s));
    DropChunkGood(g, chunks, runs, s);
    AvailWithoutSpare(g, chunks, runs, s);
    DropChunkCounted(g, chunks, ndirty, dirty, s);
  }

  lemma DropChunkGood(g: Geometry, chunks: map<int, Chunk>, runs: Runs, s: int)
    requires Good(g, chunks, runs, None) && SpareOk(g, runs, Some(s))
    ensures Good(g, chunks - {s}, runs - {ChunkPage(g, s)}, None)
  {
    hide Mapped, CoalescedBut, Tiled, RunMapped;
    assert (chunks - {s}).Keys == chunks.Keys - {s};
    DropChunkTiled(g, chunks.Keys, runs, s);
    TiledFacts(g, chunks.Keys - {s}, runs - {ChunkPage(g, s)});
    DropCoalesced(runs, ChunkPage(g, s));
    DropChunkMapped(g, chunks, runs, s);
  }

  lemma DropChunkMapped(g: Geometry, chunks: map<int, Chunk>, runs: Runs, s: int)
    requires Mapped(g, chunks, runs) && Tiled(g, chunks.Keys, runs) && SpareOk(g, runs, Some(s))
    ensures Mapped(g, chunks - {s}, runs - {ChunkPage(g, s)})
  {
    hide RunMapped, ChunkOk, Tiled;
    forall p | p in runs - {ChunkPage(g, s)}
      ensures p.chunk != s
    {
      if p.chunk == s { OneRun(g, chunks.Keys, runs, s, p); }
    }
  }

  lemma AvailWithoutSpare(g: Geometry, chunks: map<int, Chunk>, runs: Runs, s: int)
    requires Good(g, chunks, runs, None) && SpareOk(g, runs, Some(s))
    requires AllOnMap(g, runs - {ChunkPage(g, s)})
    ensures AvailKeys(g, runs - {ChunkPage(g, s)}, None) == AvailKeys(g, runs, Some(s))
  {
    hide Tiled, Mapped, CoalescedBut, AvailKeys, Positive;
    var runs' := runs - {ChunkPage(g, s)};
    forall p
      ensures Avail(runs, Some(s), p) <==> Avail(runs', None, p)
    {
      if p in runs && p.chunk == s { OneRun(g, chunks.Keys, runs, s, p); }
    }
    AvailSame(g, runs, runs', Some(s), None);
  }

  lemma DropChunkCounted(g: Geometry, chunks: map<int, Chunk>, ndirty: int, dirty: set<int>, s: int)
    requires Counted(g, chunks, ndirty, dirty) && s in chunks && 0 <= s < g.nchunks
    ensures Counted(g, chunks - {s}, ndirty - chunks[s].ndirty, dirty - {s})
  {
    SumUpdate(chunks, chunks - {s}, s, g.nchunks);
  }

  /** A chunk that has become completely unused is set aside as the spare. */
  lemma SetAsideStep(g: Geometry, chunks: map<int, Chunk>, runs: Runs, ndirty: int,
                     avail: set<int>, dirty: set<int>, c: int)
    requires Whole(g, chunks, runs, None, ndirty, avail, dirty) && SpareOk(g, runs, Some(c))
    ensures OnMap(g, ChunkPage(g, c)) && Key(g, g.MaxPages(), ChunkPage(g, c)) in avail
    ensures Whole(g, chunks, runs, Some(c), ndirty, avail - {Key(g, g.MaxPages(), ChunkPage(g, c))}, dirty)
  {
    hide Tiled, Mapped, Counted, AvailKeys, CoalescedBut, Positive;
    AvailDrop(g, runs, None, ChunkPage(g, c));
    AvailKey(g, runs, None, ChunkPage(g, c), g.MaxPages());
    AvailWithoutSpare(g, chunks, runs, c);
  }

  /** The spare is put back to use. */
  lemma BringBackStep(g: Geometry, chunks: map<int, Chunk>, runs: Runs, ndirty: int,
                      avail: set<int>, dirty: set<int>, c: int)
    requires Whole(g, chunks, runs, Some(c), ndirty, avail, dirty)
    ensures OnMap(g, ChunkPage(g, c)) && Key(g, g.MaxPages(), ChunkPage(g, c)) !in avail
    ensures Whole(g, chunks, runs, None, ndirty, avail + {Key(g, g.MaxPages(), ChunkPage(g, c))}, dirty)
  {
    hide Tiled, Mapped, Counted, AvailKeys, CoalescedBut, Positive;
    AvailDrop(g, runs, None, ChunkPage(g, c));
    AvailKey(g, runs, None, ChunkPage(g, c), g.MaxPages());
    AvailKey(g, runs, Some(c), ChunkPage(g, c), g.MaxPages());
    AvailWithoutSpare(g, chunks, runs, c);
  }

  // ---------- dividing and joining allocated runs ----------

  lemma DivideStep(g: Geometry, chunks: map<int, Chunk>, runs: Runs, spare: Option<int>, ndirty: int,
                   avail: set<int>, dirty: set<int>, p: Page, n: int, ch: Chunk)
    requires Whole(g, chunks, runs, spare, ndirty, avail, dirty)
    requires p in runs && runs[p].kind == Large && 0 < n < runs[p].len && p.chunk in chunks
    requires ChunkOk(g, ch.map_) && SameBut(chunks[p.chunk].map_, ch.map_, p.ind, p.ind + runs[p].len)
    requires RunMapped(ch.map_, p.ind, Run(n, Large)) && RunMapped(ch.map_, p.ind + n, Run(runs[p].len - n, Large))
    requires ch.ndirty == chunks[p.chunk].ndirty == CountDirty(ch.map_)
    ensures After(p, n) !in runs
    ensures Whole(g, chunks[p.chunk := ch], SplitRuns(runs, p, n, Large, Large), spare, ndirty, avail,
                  Touch(dirty, p.chunk, ch.ndirty))
  {
    hide Tiled, Mapped, Counted, AvailKeys, CoalescedBut, Positive, RunMapped, SameBut, ChunkOk;
    InChunk(g, chunks, runs, None, p);
    UsedNotSpare(g, chunks, runs, spare, None, p);
    DivideGood(g, chunks, runs, p, n, ch);
    AvailSame(g, runs, SplitRuns(runs, p, n, Large, Large), spare, spare);
    CountedUpdate(g, chunks, ndirty, dirty, p.chunk, ch);
  }

  lemma DivideGood(g: Geometry, chunks: map<int, Chunk>, runs: Runs, p: Page, n: int, ch: Chunk)
    requires Good(g, chunks, runs, None) && p in runs && runs[p].kind == Large && 0 < n < runs[p].len
    requires ChunkOk(g, ch.map_) && SameBut(chunks[p.chunk].map_, ch.map_, p.ind, p.ind + runs[p].len)
    requires RunMapped(ch.map_, p.ind, Run(n, Large)) && RunMapped(ch.map_, p.ind + n, Run(runs[p].len - n, Large))
    ensures Good(g, chunks[p.chunk := ch], SplitRuns(runs, p, n, Large, Large), None)
    ensures After(p, n) !in runs
  {
    var chunks', runs' := chunks[p.chunk := ch], SplitRuns(runs, p, n, Large, Large);
    assert chunks'.Keys == chunks.Keys;
    SplitTiled(g, chunks.Keys, runs, p, n, Large, Large);
    TiledFacts(g, chunks'.Keys, runs');
    DivideCoalesced(runs, p, n);
    SplitMapped(g, chunks, runs, p, n, Large, Large, ch);
  }

  lemma MergeStep(g: Geometry, chunks: map<int, Chunk>, runs: Runs, spare: Option<int>, ndirty: int,
                  avail: set<int>, dirty: set<int>, p: Page, ch: Chunk)
    requires Whole(g, chunks, runs, spare, ndirty, avail, dirty)
    requires p in runs && Next(runs, p) in runs && runs[p].kind == Large && runs[Next(runs, p)].kind == Large
    requires p.chunk in chunks && ChunkOk(g, ch.map_)
    requires SameBut(chunks[p.chunk].map_, ch.map_, p.ind, p.ind + runs[p].len + runs[Next(runs, p)].len)
    requires RunMapped(ch.map_, p.ind, Run(runs[p].len + runs[Next(runs, p)].len, Large))
    requires ch.ndirty == chunks[p.chunk].ndirty == CountDirty(ch.map_)
    ensures Whole(g, chunks[p.chunk := ch], JoinRuns(runs, p, Large), spare, ndirty, avail,
                  Touch(dirty, p.chunk, ch.ndirty))
  {
    hide Tiled, Mapped, Counted, AvailKeys, CoalescedBut, Positive, RunMapped, SameBut, ChunkOk;
    InChunk(g, chunks, runs, None, p);
    UsedNotSpare(g, chunks, runs, spare, None, p);
    MergeGood(g, chunks, runs, p, ch);
    AvailSame(g, runs, JoinRuns(runs, p, Large), spare, spare);
    CountedUpdate(g, chunks, ndirty, dirty, p.chunk, ch);
  }

  lemma MergeGood(g: Geometry, chunks: map<int, Chunk>, runs: Runs, p: Page, ch: Chunk)
    requires Good(g, chunks, runs, None)
    requires p in runs && Next(runs, p) in runs && runs[p].kind == Large && runs[Next(runs, p)].kind == Large
    requires ChunkOk(g, ch.map_)
    requires SameBut(chunks[p.chunk].map_, ch.map_, p.ind, p.ind + runs[p].len + runs[Next(runs, p)].len)
    requires RunMapped(ch.map_, p.ind, Run(runs[p].len + runs[Next(runs, p)].len, Large))
    ensures Good(g, chunks[p.chunk := ch], JoinRuns(runs, p, Large), None)
  {
    var chunks', runs' := chunks[p.chunk := ch], JoinRuns(runs, p, Large);
    assert chunks'.Keys == chunks.Keys;
    JoinTiled(g, chunks.Keys, runs, p, Large);
    TiledFacts(g, chunks'.Keys, runs');
    MergeCoalesced(runs, p);
    JoinMapped(g, chunks, runs, p, Large, ch);
  }

  // ---------- purging ----------

  lemma UndirtyStep(g: Geometry, chunks: map<int, Chunk>, runs: Runs, spare: Option<int>, ndirty: int,
                    avail: set<int>, dirty: set<int>, c: int, ch: Chunk)
    requires Whole(g, chunks, runs, spare, ndirty, avail, dirty) && c in chunks && Undirtied(chunks[c].map_, ch.map_)
    requires ch.ndirty == CountDirty(ch.map_)
    ensures Whole(g, chunks[c := ch], runs, spare, ndirty - chunks[c].ndirty + ch.ndirty, avail,
                  Touch(dirty, c, ch.ndirty))
  {
    hide Mapped, Counted, AvailKeys, CoalescedBut, Positive, Inside, Contiguous, Apart, CountDirty, Undirtied;
    assert chunks[c := ch].Keys == chunks.Keys;
    UndirtiedMapped(g, chunks, runs, c, ch);
    CountedUpdate(g, chunks, ndirty, dirty, c, ch);
  }
}
