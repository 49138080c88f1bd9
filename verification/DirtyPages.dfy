/**
  Counting dirty pages: per chunk, and over the chunks of an arena.
 */
module DirtyPages {
  import opened Prelude
  import opened PageMap

  function Flag(e: Elm): int { if e.dirty then 1 else 0 }

  function CountDirty(m: seq<Elm>): int {
    if |m| == 0 then 0 else CountDirty(m[..|m| - 1]) + Flag(m[|m| - 1])
  }

  lemma {:induction false} CountUpdate(m: seq<Elm>, i: int, e: Elm)
    requires 0 <= i < |m|
    ensures CountDirty(m[i := e]) == CountDirty(m) - Flag(m[i]) + Flag(e)
  {
    var k := |m| - 1;
    if i == k {
      assert m[i := e][..k] == m[..k];
    } else {
      assert m[i := e][..k] == m[..k][i := e];
      CountUpdate(m[..k], i, e);
    }
  }

  lemma {:induction false} CountSign(m: seq<Elm>)
    ensures 0 <= CountDirty(m) <= |m|
    ensures CountDirty(m) == 0 <==> forall i :: 0 <= i < |m| ==> !m[i].dirty
  {
    if |m| > 0 {
      var k := |m| - 1;
      CountSign(m[..k]);
      assert forall i :: 0 <= i < k ==> m[..k][i] == m[i];
    }
  }

  lemma {:induction false} CountSame(m: seq<Elm>, m': seq<Elm>)
    requires |m'| == |m| && forall i :: 0 <= i < |m| ==> m'[i].dirty == m[i].dirty
    ensures CountDirty(m') == CountDirty(m)
  {
    if |m| > 0 { CountSame(m[..|m| - 1], m'[..|m| - 1]); }
  }

  function DirtyIn(chunks: map<int, Chunk>, c: int): int {
    if c in chunks then chunks[c].ndirty else 0
  }

  /** The sum over the chunks numbered below `n`. */
  function SumDirty(chunks: map<int, Chunk>, n: int): int
    decreases n
  {
    if n <= 0 then 0 else SumDirty(chunks, n - 1) + DirtyIn(chunks, n - 1)
  }

  lemma {:induction false} SumSame(chunks: map<int, Chunk>, chunks': map<int, Chunk>, n: int)
    requires forall c :: 0 <= c < n ==> DirtyIn(chunks', c) == DirtyIn(chunks, c)
    ensures SumDirty(chunks', n) == SumDirty(chunks, n)
    decreases n
  {
    if n > 0 { SumSame(chunks, chunks', n - 1); }
  }

  /** Only chunk `c` changed. */
  lemma {:induction false} SumUpdate(chunks: map<int, Chunk>, chunks': map<int, Chunk>, c: int, n: int)
    requires 0 <= c < n && forall d :: d != c ==> DirtyIn(chunks', d) == DirtyIn(chunks, d)
    ensures SumDirty(chunks', n) == SumDirty(chunks, n) - DirtyIn(chunks, c) + DirtyIn(chunks', c)
    decreases n
  {
    if c < n - 1 { SumUpdate(chunks, chunks', c, n - 1); } else { SumSame(chunks, chunks', n - 1); }
  }

  /** If something is dirty, some chunk is. */
  lemma {:induction false} SumPositive(chunks: map<int, Chunk>, n: int)
    requires forall c :: c in chunks ==> chunks[c].ndirty >= 0
    ensures SumDirty(chunks, n) >= 0
    ensures SumDirty(chunks, n) > 0 ==> exists c :: c in chunks && chunks[c].ndirty > 0
    decreases n
  {
    if n > 0 { SumPositive(chunks, n - 1); }
  }

  ghost function DirtyIds(chunks: map<int, Chunk>): set<int> {
    set c | c in chunks && chunks[c].ndirty > 0
  }

  ghost predicate ChunksCounted(chunks: map<int, Chunk>) {
    forall c :: c in chunks ==> chunks[c].ndirty == CountDirty(chunks[c].map_)
  }

  /** `ndirty` of the arena and the tree of dirty chunks agree with the page maps. */
  ghost predicate Counted(g: Geometry, chunks: map<int, Chunk>, ndirty: int, dirtyTree: set<int>) {
    ChunksCounted(chunks) && ndirty == SumDirty(chunks, g.nchunks) && dirtyTree == DirtyIds(chunks)
  }

  lemma CountedUpdate(g: Geometry, chunks: map<int, Chunk>, ndirty: int, tree: set<int>, c: int, ch: Chunk)
    requires Counted(g, chunks, ndirty, tree) && c in chunks && 0 <= c < g.nchunks
    requires ch.ndirty == CountDirty(ch.map_)
    ensures Counted(g, chunks[c := ch], ndirty - chunks[c].ndirty + ch.ndirty,
                    if ch.ndirty > 0 then tree + {c} else tree - {c})
  {
    SumUpdate(chunks, chunks[c := ch], c, g.nchunks);
  }

  // ---------- which pages are dirty ----------

  /** `n` pages from `p` on. */
  ghost function PagesOf(p: Page, n: int): set<Page> { set i | p.ind <= i < p.ind + n :: Page(p.chunk, i) }

  /** The dirty pages of all chunks. */
  ghost function Dirt(chunks: map<int, Chunk>): set<Page> {
    set c, i | c in chunks && 0 <= i < |chunks[c].map_| && chunks[c].map_[i].dirty :: Page(c, i)
  }

  lemma InDirt(chunks: map<int, Chunk>, q: Page)
    ensures q in Dirt(chunks) <==>
              q.chunk in chunks && 0 <= q.ind < |chunks[q.chunk].map_| && chunks[q.chunk].map_[q.ind].dirty
  {
  }

  lemma InPages(p: Page, n: int, q: Page)
    ensures q in PagesOf(p, n) <==> q.chunk == p.chunk && p.ind <= q.ind < p.ind + n
  {
  }

  /** The dirty flags of `n` entries from `lo` on are `d`, and no other flag changes. */
  ghost predicate DirtSet(m: seq<Elm>, m': seq<Elm>, lo: int, n: int, d: bool) {
    |m'| == |m| && forall i :: 0 <= i < |m| ==> m'[i].dirty == if lo <= i < lo + n then d else m[i].dirty
  }

  lemma DirtStep(chunks: map<int, Chunk>, c: int, ch: Chunk, lo: int, n: int, d: bool)
    requires c in chunks && DirtSet(chunks[c].map_, ch.map_, lo, n, d) && 0 <= lo && lo + n <= |ch.map_|
    ensures Dirt(chunks[c := ch]) ==
              if d then Dirt(chunks) + PagesOf(Page(c, lo), n) else Dirt(chunks) - PagesOf(Page(c, lo), n)
  {
    hide Dirt, PagesOf;
    forall q
      ensures q in Dirt(chunks[c := ch]) <==>
                if q in PagesOf(Page(c, lo), n) then d else q in Dirt(chunks)
    {
      InDirt(chunks, q);
      InDirt(chunks[c := ch], q);
      InPages(Page(c, lo), n, q);
    }
  }

  /** No flag changes. */
  lemma DirtSame(chunks: map<int, Chunk>, c: int, ch: Chunk)
    requires c in chunks && DirtSet(chunks[c].map_, ch.map_, 0, 0, false)
    ensures Dirt(chunks[c := ch]) == Dirt(chunks)
  {
    hide Dirt;
    forall q
      ensures q in Dirt(chunks[c := ch]) <==> q in Dirt(chunks)
    {
      InDirt(chunks, q);
      InDirt(chunks[c := ch], q);
    }
  }

  lemma DirtAdded(chunks: map<int, Chunk>, c: int, ch: Chunk)
    requires c !in chunks && forall i :: 0 <= i < |ch.map_| ==> !ch.map_[i].dirty
    ensures Dirt(chunks[c := ch]) == Dirt(chunks)
  {
    hide Dirt;
    forall q
      ensures q in Dirt(chunks[c := ch]) <==> q in Dirt(chunks)
    {
      InDirt(chunks, q);
      InDirt(chunks[c := ch], q);
    }
  }

  lemma DirtDropped(chunks: map<int, Chunk>, c: int)
    requires c in chunks
    ensures Dirt(chunks - {c}) == Dirt(chunks) - PagesOf(Page(c, 0), |chunks[c].map_|)
  {
    hide Dirt, PagesOf;
    forall q
      ensures q in Dirt(chunks - {c}) <==> q in Dirt(chunks) && q !in PagesOf(Page(c, 0), |chunks[c].map_|)
    {
      InDirt(chunks, q);
      InDirt(chunks - {c}, q);
      InPages(Page(c, 0), |chunks[c].map_|, q);
    }
  }
}
