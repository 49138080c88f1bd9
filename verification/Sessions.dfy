/**
  Whole runs: any sequence of requests to an arena, with the pointers that the
  caller still holds.
 */
module Sessions {
  import opened Prelude
  import opened PageMap
  import opened AvailRuns
  import opened PageState
  import opened PageArenas
  import opened RbTrees
  import opened SizeClasses
  import opened SmallRuns
  import opened Arenas

  /** A request of the caller; `slot` names the result of an earlier request. */
  datatype Request =
    | Malloc(size: nat)
    | Memalign(alignment2: nat, size: nat)
    | Realloc(slot: nat, size: nat)
    | Free(slot: nat)

  /** What the caller holds: `size` bytes from `ptr` on, of which `usable` are reserved. */
  datatype Held = Held(ptr: Ptr, size: nat, usable: int)

  type Slots = seq<Option<Held>>

  /** The held pointers are exactly the live blocks, each with the size that was asked for. */
  ghost predicate Tracks(a: Arena, live: map<Block, int>, slots: Slots, blocks: seq<Block>) {
    && |slots| == |blocks|
    && (forall i {:trigger blocks[i]} :: 0 <= i < |slots| && slots[i].Some? ==>
          && blocks[i] in live && slots[i].value.ptr == a.PtrOf(blocks[i]) && slots[i].value.size <= live[blocks[i]]
          && slots[i].value.usable == UsableOf(a.s, blocks[i].SmallBlock?, live[blocks[i]]))
    && (forall i, j :: 0 <= i < j < |slots| && slots[i].Some? && slots[j].Some? ==> blocks[i] != blocks[j])
    && (forall x :: x in live ==> Owned(slots, blocks, x))
  }

  /** `h` describes the block `x`, which was allocated for `n` bytes. */
  predicate HeldFor(a: Arena, h: Held, x: Block, n: int) {
    h.ptr == a.PtrOf(x) && h.size <= n && h.usable == UsableOf(a.s, x.SmallBlock?, n)
  }

  ghost predicate Owned(slots: Slots, blocks: seq<Block>, x: Block) {
    exists i :: 0 <= i < |slots| && i < |blocks| && slots[i].Some? && blocks[i] == x
  }

  lemma Failed(a: Arena, live: map<Block, int>, slots: Slots, blocks: seq<Block>)
    requires Tracks(a, live, slots, blocks)
    ensures forall x :: Tracks(a, live, slots + [None], blocks + [x])
  {
    forall b: Block
      ensures Tracks(a, live, slots + [None], blocks + [b])
    {
      var slots', blocks' := slots + [None], blocks + [b];
      forall x | x in live
        ensures Owned(slots', blocks', x)
      {
        assert Owned(slots, blocks, x);
        var i :| 0 <= i < |slots| && i < |blocks| && slots[i].Some? && blocks[i] == x;
        assert blocks'[i] == x && slots'[i].Some?;
      }
    }
  }

  lemma Added(a: Arena, live: map<Block, int>, slots: Slots, blocks: seq<Block>, x: Block, n: int,
              h: Held)
    requires Tracks(a, live, slots, blocks) && x !in live && HeldFor(a, h, x, n)
    ensures Tracks(a, live[x := n], slots + [Some(h)], blocks + [x])
  {
    var live', slots', blocks' := live[x := n], slots + [Some(h)], blocks + [x];
    assert blocks'[|slots|] == x;
    forall y | y in live'
      ensures Owned(slots', blocks', y)
    {
      if y != x {
        assert Owned(slots, blocks, y);
        var i :| 0 <= i < |slots| && i < |blocks| && slots[i].Some? && blocks[i] == y;
        assert blocks'[i] == y && slots'[i].Some?;
      }
    }
  }

  lemma Dropped(a: Arena, live: map<Block, int>, slots: Slots, blocks: seq<Block>, i: nat)
    requires Tracks(a, live, slots, blocks) && i < |slots| && slots[i].Some?
    ensures Tracks(a, live - {blocks[i]}, slots[i := None], blocks)
  {
    var live', slots' := live - {blocks[i]}, slots[i := None];
    forall y | y in live'
      ensures Owned(slots', blocks, y)
    {
      assert Owned(slots, blocks, y);
      var j :| 0 <= j < |slots| && j < |blocks| && slots[j].Some? && blocks[j] == y;
      assert blocks[j] == y && slots'[j].Some?;
    }
  }

  lemma Replaced(a: Arena, live: map<Block, int>, slots: Slots, blocks: seq<Block>, i: nat, y: Block, n: int,
                 h: Held)
    requires Tracks(a, live, slots, blocks) && i < |slots| && slots[i].Some? && (y == blocks[i] || y !in live)
    requires HeldFor(a, h, y, n)
    ensures Tracks(a, (live - {blocks[i]})[y := n], slots[i := Some(h)], blocks[i := y])
  {
    var live', slots', blocks' := (live - {blocks[i]})[y := n], slots[i := Some(h)],
        blocks[i := y];
    assert blocks'[i] == y;
    forall x | x in live'
      ensures Owned(slots', blocks', x)
    {
      if x != y {
        assert Owned(slots, blocks, x);
        var j :| 0 <= j < |slots| && j < |blocks| && slots[j].Some? && blocks[j] == x;
        assert blocks'[j] == x && slots'[j].Some?;
      }
    }
  }

  // ---------- one request ----------

  /** A chunk that the system offers, if it is one that the arena does not have. */
  predicate Usable(a: Arena, chunk: Option<int>)
    reads a, a.pages
  {
    chunk.Some? && chunk.value !in a.pages.chunks && 0 <= chunk.value < a.pages.geo.nchunks
  }

  /** The request asks for nothing, or for more than a chunk can hold. */
  predicate Unservable(a: Arena, req: Request) {
    match req
    case Malloc(size) => size == 0 || a.PagesFor(size) > a.pages.geo.MaxPages()
    case Memalign(al, size) => size == 0 || a.NeedsHuge(al, size)
    case Realloc(_, size) => size == 0 || a.PagesFor(size) > a.pages.geo.MaxPages()
    case Free(_) => false
  }

  /** `h` is what an allocation was asked for. */
  predicate Fulfils(a: Arena, req: Request, h: Held) {
    match req
    case Malloc(size) => h.size == size && h.usable == UsableFor(a.s, size)
    case Memalign(al, size) =>
      && h.size == size >= 1 && Pow2(al) > 0 && a.Addr(h.ptr) % Pow2(al) == 0
      && h.usable == if Pow2(al) <= a.s.PageBytes() then UsableFor(a.s, a.AskedFor(al, size))
                     else UsableOf(a.s, false, size)
    case Realloc(_, size) => h.size == size && h.usable == UsableFor(a.s, size)
    case Free(_) => false
  }

  /** What a request does to the slots; it fails only if it cannot be served or if no chunk
      was to be had. */
  predicate Answers(a: Arena, req: Request, supplied: bool, slots: Slots, slots': Slots) {
    match req
    case Realloc(i, size) =>
      if i < |slots| && slots[i].Some? then
        || (slots' == slots && (Unservable(a, req) || !supplied))
        || (|slots'| == |slots| && slots'[i].Some? && Fulfils(a, req, slots'[i].value)
            && slots' == slots[i := slots'[i]])
      else slots' == slots
    case Free(i) => slots' == if i < |slots| then slots[i := None] else slots
    case _ =>
      && |slots'| == |slots| + 1 && slots <= slots'
      && match slots'[|slots|]
         case Some(h) => !Unservable(a, req) && Fulfils(a, req, h)
         case None => Unservable(a, req) || !supplied
  }

  function Offer(a: Arena, chunk: Option<int>): Option<int>
    reads a, a.pages
  {
    if Usable(a, chunk) then chunk else None
  }

  /** One request.  What would need a huge allocation fails. */
  method Serve(a: Arena, req: Request, chunk: Option<int>, slots: Slots, ghost blocks: seq<Block>)
    returns (slots': Slots, ghost blocks': seq<Block>)
    requires a.Valid() && Tracks(a, a.live, slots, blocks)
    modifies a, a.pages, a.pages.runsAvail, a.pages.chunksDirty, a.trees
    ensures a.Valid() && Tracks(a, a.live, slots', blocks')
    ensures Answers(a, req, old(Usable(a, chunk)), slots, slots')
    ensures a.pages.chunks.Keys <= old(a.pages.chunks.Keys) + Arena.Supplied(chunk)
  {
    hide Arena.Valid, Arena.Used, Tracks, Arena.PagesFor, Arena.NeedsHuge, Arena.Addr, PageArena.Valid;
    hide RbTree.Valid, Pow2;
    var c := Offer(a, chunk);
    slots', blocks' := slots, blocks;
    match req {
      case Malloc(size) =>
        slots', blocks' := ServeMalloc(a, size, c, slots, blocks);
      case Memalign(alignment2, size) =>
        slots', blocks' := ServeMemalign(a, alignment2, size, c, slots, blocks);
      case Realloc(i, size) =>
        if i < |slots| && slots[i].Some? && 1 <= size && a.PagesFor(size) <= a.pages.geo.MaxPages() {
          slots', blocks' := ServeRealloc(a, i, size, c, slots, blocks);
        }
      case Free(i) =>
        if i < |slots| && slots[i].Some? {
          SlotAt(a, a.live, slots, blocks, i);
          Dropped(a, a.live, slots, blocks, i);
          a.Dalloc(slots[i].value.ptr, blocks[i]);
          slots' := slots[i := None];
        }
    }
  }

  lemma SlotAt(a: Arena, live: map<Block, int>, slots: Slots, blocks: seq<Block>, i: nat)
    requires Tracks(a, live, slots, blocks) && i < |slots| && slots[i].Some?
    ensures |blocks| == |slots| && blocks[i] in live && slots[i].value.ptr == a.PtrOf(blocks[i])
    ensures slots[i].value.size <= live[blocks[i]]
    ensures slots[i].value.usable == UsableOf(a.s, blocks[i].SmallBlock?, live[blocks[i]])
  {
    hide UsableOf;
  }

  method ServeMalloc(a: Arena, size: nat, c: Option<int>, slots: Slots, ghost blocks: seq<Block>)
    returns (slots': Slots, ghost blocks': seq<Block>)
    requires a.Valid() && Tracks(a, a.live, slots, blocks)
    requires c.Some? ==> c.value !in a.pages.chunks && 0 <= c.value < a.pages.geo.nchunks
    modifies a, a.pages, a.pages.runsAvail, a.pages.chunksDirty, a.trees
    ensures a.Valid() && Tracks(a, a.live, slots', blocks')
    ensures Answers(a, Malloc(size), c.Some?, slots, slots')
    ensures a.pages.chunks.Keys <= old(a.pages.chunks.Keys) + Arena.Supplied(c)
  {
    hide Arena.Valid, Arena.Used, Tracks, CeilPages, PageArena.Valid, RbTree.Valid, UsableOf, RegSize, BinIndex;
    hide BlockSize;
    hide Pow2;
    a.Ready();
    var r: Option<Ptr> := None;
    ghost var x: Block := LargeBlock(Page(0, 0));
    Failed(a, a.live, slots, blocks);
    if 1 <= size && a.PagesFor(size) <= a.pages.geo.MaxPages() {
      r, x := a.Malloc(size, c);
    }
    if r.Some? {
      var usable := a.Salloc(r.value, x);
      Added(a, old(a.live), slots, blocks, x, size, Held(r.value, size, usable));
      slots' := slots + [Some(Held(r.value, size, usable))];
    } else {
      slots' := slots + [None];
    }
    blocks' := blocks + [x];
  }

  method ServeMemalign(a: Arena, alignment2: nat, size: nat, c: Option<int>, slots: Slots, ghost blocks: seq<Block>)
    returns (slots': Slots, ghost blocks': seq<Block>)
    requires a.Valid() && Tracks(a, a.live, slots, blocks)
    requires c.Some? ==> c.value !in a.pages.chunks && 0 <= c.value < a.pages.geo.nchunks
    modifies a, a.pages, a.pages.runsAvail, a.pages.chunksDirty, a.trees
    ensures a.Valid() && Tracks(a, a.live, slots', blocks')
    ensures Answers(a, Memalign(alignment2, size), c.Some?, slots, slots')
    ensures a.pages.chunks.Keys <= old(a.pages.chunks.Keys) + Arena.Supplied(c)
  {
    hide Arena.Valid, Arena.Used, Tracks, CeilPages, Arena.NeedsHuge, Arena.Addr, Pow2, PageArena.Valid, RbTree.Valid;
    hide UsableOf, RegSize, BinIndex, BlockSize, Arena.RoundedUp;
    a.Ready();
    var r: Option<Ptr>, huge := None, false;
    ghost var x := LargeBlock(Page(0, 0));
    Failed(a, a.live, slots, blocks);
    if 1 <= size {
      huge, r, x := a.Ipalloc(alignment2, size, c);
    }
    if r.Some? {
      var usable := a.Salloc(r.value, x);
      Added(a, old(a.live), slots, blocks, x, a.AskedFor(alignment2, size), Held(r.value, size, usable));
      slots' := slots + [Some(Held(r.value, size, usable))];
    } else {
      slots' := slots + [None];
    }
    blocks' := blocks + [x];
  }

  method ServeRealloc(a: Arena, i: nat, size: nat, c: Option<int>, slots: Slots, ghost blocks: seq<Block>)
    returns (slots': Slots, ghost blocks': seq<Block>)
    requires a.Valid() && Tracks(a, a.live, slots, blocks) && i < |slots| && slots[i].Some?
    requires 1 <= size && a.PagesFor(size) <= a.pages.geo.MaxPages()
    requires c.Some? ==> c.value !in a.pages.chunks && 0 <= c.value < a.pages.geo.nchunks
    modifies a, a.pages, a.pages.runsAvail, a.pages.chunksDirty, a.trees
    ensures a.Valid() && Tracks(a, a.live, slots', blocks')
    ensures Answers(a, Realloc(i, size), c.Some?, slots, slots')
    ensures a.pages.chunks.Keys <= old(a.pages.chunks.Keys) + Arena.Supplied(c)
  {
    hide Arena.Valid, Arena.Used, Tracks, CeilPages, PageArena.Valid, RbTree.Valid, UsableOf, RegSize, BinIndex;
    hide BlockSize;
    hide Pow2, Arena.CanStay;
    a.Ready();
    SlotAt(a, a.live, slots, blocks, i);
    slots', blocks' := slots, blocks;
    ghost var y;
    var r;
    r, y := a.Ralloc(slots[i].value.ptr, blocks[i], size, c);
    if r.Some? {
      var usable := a.Salloc(r.value, y);
      Replaced(a, old(a.live), slots, blocks, i, y, size, Held(r.value, size, usable));
      slots' := slots[i := Some(Held(r.value, size, usable))];
      blocks' := blocks[i := y];
    }
  }

  // ---------- what the held blocks promise ----------

  /** Two blocks share a usable byte. */
  predicate Overlap(h: Held, k: Held) {
    h.ptr.chunk == k.ptr.chunk && h.ptr.off < k.ptr.off + k.usable && k.ptr.off < h.ptr.off + h.usable
  }

  predicate InPages(a: Arena, h: Held)
    reads a, a.pages
  {
    && h.ptr.chunk in a.pages.chunks && a.pages.geo.header * a.s.PageBytes() <= h.ptr.off
    && h.ptr.off + h.usable <= a.pages.geo.npages * a.s.PageBytes() && h.size <= h.usable
  }

  lemma HeldInside(a: Arena, slots: Slots, blocks: seq<Block>, i: nat)
    requires a.Valid() && Tracks(a, a.live, slots, blocks) && i < |slots| && slots[i].Some?
    ensures InPages(a, slots[i].value)
  {
    hide Arena.Valid, Arena.Used, Tracks, BlockSize, BlockOffset, Pow2;
    SlotAt(a, a.live, slots, blocks, i);
    a.LiveInside(blocks[i]);
  }

  lemma HeldApart(a: Arena, slots: Slots, blocks: seq<Block>, i: nat, j: nat)
    requires a.Valid() && Tracks(a, a.live, slots, blocks) && i < j < |slots| && slots[i].Some? && slots[j].Some?
    ensures !Overlap(slots[i].value, slots[j].value)
  {
    hide Arena.Valid, Arena.Used, BlockSize, BlockOffset, Pow2;
    SlotAt(a, a.live, slots, blocks, i);
    SlotAt(a, a.live, slots, blocks, j);
    a.LiveInside(blocks[i]);
    a.LiveInside(blocks[j]);
    a.LiveDisjoint(blocks[i], blocks[j]);
  }

  // ---------- what the requests say about a slot ----------

  predicate Allocates(req: Request) { req.Malloc? || req.Memalign? }

  /** The number of slots after `n` requests. */
  function Slotted(reqs: seq<Request>, n: nat): nat
    requires n <= |reqs|
  {
    if n == 0 then 0 else Slotted(reqs, n - 1) + if Allocates(reqs[n - 1]) then 1 else 0
  }

  /** Slot `k` has been given back. */
  predicate Freed(reqs: seq<Request>, n: nat, k: nat)
    requires n <= |reqs|
  {
    n > 0 && (Freed(reqs, n - 1, k) || (reqs[n - 1] == Request.Free(k) && k < Slotted(reqs, n - 1)))
  }

  /** Request `m` fills slot `k`, for the first time or again. */
  predicate Fills(reqs: seq<Request>, m: nat, k: nat)
    requires m < |reqs|
  {
    match reqs[m]
    case Realloc(i, _) => i == k && k < Slotted(reqs, m)
    case Free(_) => false
    case _ => k == Slotted(reqs, m)
  }

  /** The chunk offered with request `m` is one that the arena cannot have. */
  ghost predicate Fresh(a: Arena, had: set<int>, chunks: seq<Option<int>>, m: nat)
    requires m < |chunks|
  {
    && chunks[m].Some? && 0 <= chunks[m].value < a.pages.geo.nchunks && chunks[m].value !in had
    && forall j :: 0 <= j < m ==> chunks[j] != chunks[m]
  }

  /** Request `m` cannot fail. */
  ghost predicate Sure(a: Arena, had: set<int>, reqs: seq<Request>, chunks: seq<Option<int>>, m: nat)
    requires m < |reqs| == |chunks|
  {
    !Unservable(a, reqs[m]) && Fresh(a, had, chunks, m)
  }

  /** The slot is explained by request `m`: a held block is what `m` asked for, and no later
      request for the slot was sure to succeed; an empty slot was given back, or `m` is its
      first request and could not be served. */
  ghost predicate Explained(a: Arena, had: set<int>, reqs: seq<Request>, chunks: seq<Option<int>>, n: nat,
                            slot: Option<Held>, k: nat, m: nat)
    requires n <= |reqs| == |chunks|
  {
    && m < n && Fills(reqs, m, k)
    && match slot
       case Some(h) =>
         && !Freed(reqs, n, k) && Fulfils(a, reqs[m], h)
         && forall j {:trigger Fills(reqs, j, k)} :: m < j < n && Fills(reqs, j, k) ==> !Sure(a, had, reqs, chunks, j)
       case None => Freed(reqs, n, k) || (Allocates(reqs[m]) && !Sure(a, had, reqs, chunks, m))
  }

  ghost predicate AllExplained(a: Arena, had: set<int>, reqs: seq<Request>, chunks: seq<Option<int>>, n: nat,
                               slots: Slots, from: seq<nat>)
    requires n <= |reqs| == |chunks|
  {
    && |slots| == |from| == Slotted(reqs, n)
    && forall k :: 0 <= k < |slots| ==> Explained(a, had, reqs, chunks, n, slots[k], k, from[k])
  }

  /** A slot that the request does not touch stays explained. */
  lemma StillExplained(a: Arena, had: set<int>, reqs: seq<Request>, chunks: seq<Option<int>>, n: nat,
                       slot: Option<Held>, k: nat, m: nat)
    requires n < |reqs| == |chunks| && Explained(a, had, reqs, chunks, n, slot, k, m) && k < Slotted(reqs, n)
    requires slot.Some? ==> reqs[n] != Request.Free(k) && (Fills(reqs, n, k) ==> !Sure(a, had, reqs, chunks, n))
    ensures Explained(a, had, reqs, chunks, n + 1, slot, k, m)
  {
    hide Fulfils, Sure, Fills, Slotted;
  }

  /** The request gave the slot a new block, which may be the old one again. */
  predicate Moved(a: Arena, req: Request, supplied: bool, slots: Slots, slots': Slots) {
    && req.Realloc? && req.slot < |slots| && slots[req.slot].Some?
    && (slots' != slots || (supplied && !Unservable(a, req)))
  }

  /** The requests explain the slots after one more request. */
  lemma ExplainStep(a: Arena, had: set<int>, reqs: seq<Request>, chunks: seq<Option<int>>, n: nat,
                    slots: Slots, slots': Slots, supplied: bool, from: seq<nat>) returns (from': seq<nat>)
    requires n < |reqs| == |chunks| && AllExplained(a, had, reqs, chunks, n, slots, from)
    requires Answers(a, reqs[n], supplied, slots, slots') && (Fresh(a, had, chunks, n) ==> supplied)
    ensures AllExplained(a, had, reqs, chunks, n + 1, slots', from')
  {
    hide Explained, Fresh, Unservable, Fulfils;
    if Allocates(reqs[n]) {
      from' := from + [n];
      NewSlot(a, had, reqs, chunks, n, slots'[|slots|], supplied);
    } else if Moved(a, reqs[n], supplied, slots, slots') {
      from' := from[reqs[n].slot := n];
      Refilled(a, had, reqs, chunks, n, slots[reqs[n].slot], slots'[reqs[n].slot], from[reqs[n].slot]);
    } else {
      from' := from;
    }
    forall k | 0 <= k < |slots'|
      ensures Explained(a, had, reqs, chunks, n + 1, slots'[k], k, from'[k])
    {
      if k < |slots| {
        assert Explained(a, had, reqs, chunks, n, slots[k], k, from[k]);
        if reqs[n] == Request.Free(k) {
          Emptied(a, had, reqs, chunks, n, slots[k], k, from[k]);
        } else if !(Moved(a, reqs[n], supplied, slots, slots') && k == reqs[n].slot) {
          StillExplained(a, had, reqs, chunks, n, slots[k], k, from[k]);
        }
      }
    }
  }

  lemma NewSlot(a: Arena, had: set<int>, reqs: seq<Request>, chunks: seq<Option<int>>, n: nat,
                slot: Option<Held>, supplied: bool)
    requires n < |reqs| == |chunks| && Allocates(reqs[n]) && (Fresh(a, had, chunks, n) ==> supplied)
    requires match slot
             case Some(h) => Fulfils(a, reqs[n], h)
             case None => Unservable(a, reqs[n]) || !supplied
    ensures Explained(a, had, reqs, chunks, n + 1, slot, Slotted(reqs, n), n)
  {
    hide Fulfils, Unservable, Fresh;
    NotYetFreed(reqs, n, Slotted(reqs, n));
  }

  lemma {:induction false} NotYetFreed(reqs: seq<Request>, n: nat, k: nat)
    requires n <= |reqs| && Slotted(reqs, n) <= k
    ensures !Freed(reqs, n, k)
  {
    if n > 0 { NotYetFreed(reqs, n - 1, k); }
  }

  lemma Refilled(a: Arena, had: set<int>, reqs: seq<Request>, chunks: seq<Option<int>>, n: nat,
                 slot: Option<Held>, slot': Option<Held>, m: nat)
    requires n < |reqs| == |chunks| && reqs[n].Realloc? && reqs[n].slot < Slotted(reqs, n)
    requires slot.Some? && slot'.Some? && Fulfils(a, reqs[n], slot'.value)
    requires Explained(a, had, reqs, chunks, n, slot, reqs[n].slot, m)
    ensures Explained(a, had, reqs, chunks, n + 1, slot', reqs[n].slot, n)
  {
    hide Fulfils, Sure;
  }

  lemma Emptied(a: Arena, had: set<int>, reqs: seq<Request>, chunks: seq<Option<int>>, n: nat,
                slot: Option<Held>, k: nat, m: nat)
    requires n < |reqs| == |chunks| && reqs[n] == Request.Free(k) && k < Slotted(reqs, n)
    requires Explained(a, had, reqs, chunks, n, slot, k, m)
    ensures Explained(a, had, reqs, chunks, n + 1, None, k, m)
  {
    hide Fulfils, Sure;
  }

  // ---------- whole runs ----------

  /** The chunks that the arena may have after `n` requests. */
  ghost predicate ChunksFrom(a: Arena, had: set<int>, chunks: seq<Option<int>>, n: nat)
    requires n <= |chunks|
    reads a, a.pages
  {
    forall c :: c in a.pages.chunks ==> c in had || exists j :: 0 <= j < n && chunks[j] == Some(c)
  }

  lemma FreshIsUsable(a: Arena, had: set<int>, chunks: seq<Option<int>>, n: nat)
    requires n < |chunks| && ChunksFrom(a, had, chunks, n) && Fresh(a, had, chunks, n)
    ensures Usable(a, chunks[n])
  {
  }

  /** After any sequence of requests, with any chunks offered: the held blocks are disjoint
      and inside non-header pages, exactly the live blocks are held, every slot is what the
      requests say, and the dirty pages are bounded.  `from` names the request that explains
      each slot. */
  method Serves(a: Arena, reqs: seq<Request>, chunks: seq<Option<int>>)
    returns (slots: Slots, ghost blocks: seq<Block>, ghost from: seq<nat>)
    requires a.Valid() && a.live == map[] && |chunks| == |reqs|
    modifies a, a.pages, a.pages.runsAvail, a.pages.chunksDirty, a.trees
    ensures a.Valid() && 0 <= a.pages.ndirty <= a.pages.dirtyMax && Tracks(a, a.live, slots, blocks)
    ensures AllExplained(a, old(a.pages.chunks.Keys), reqs, chunks, |reqs|, slots, from)
    ensures forall i :: 0 <= i < |slots| && slots[i].Some? ==> InPages(a, slots[i].value)
    ensures forall i, j :: 0 <= i < j < |slots| && slots[i].Some? && slots[j].Some? ==>
              !Overlap(slots[i].value, slots[j].value)
  {
    hide Arena.Used, Tracks, PageArena.Valid, RbTree.Valid, RbTree.Contents, LiveOk, HeadersOk, InPages;
    hide Overlap, SetupOk;
    hide BinState, Explained, Answers, Fresh, Usable, ChunksFrom;
    slots, blocks, from := [], [], [];
    ghost var had := a.pages.chunks.Keys;
    NoSlots(a);
    NoChunks(a, had, chunks);
    for n := 0 to |reqs|
      invariant a.Valid() && Tracks(a, a.live, slots, blocks) && ChunksFrom(a, had, chunks, n)
      invariant AllExplained(a, had, reqs, chunks, n, slots, from)
    {
      ghost var supplied, before, keys := Usable(a, chunks[n]), slots, a.pages.chunks.Keys;
      if Fresh(a, had, chunks, n) { FreshIsUsable(a, had, chunks, n); }
      ghost var known := AtMost(a, had, chunks, n);
      slots, blocks := Serve(a, reqs[n], chunks[n], slots, blocks);
      MoreChunks(a, had, chunks, n, known);
      from := ExplainStep(a, had, reqs, chunks, n, before, slots, supplied, from);
    }
    forall i | 0 <= i < |slots| && slots[i].Some?
      ensures InPages(a, slots[i].value)
    {
      HeldInside(a, slots, blocks, i);
    }
    forall i, j | 0 <= i < j < |slots| && slots[i].Some? && slots[j].Some?
      ensures !Overlap(slots[i].value, slots[j].value)
    {
      HeldApart(a, slots, blocks, i, j);
    }
  }

  lemma NoChunks(a: Arena, had: set<int>, chunks: seq<Option<int>>)
    requires had == a.pages.chunks.Keys
    ensures ChunksFrom(a, had, chunks, 0)
  {
  }

  /** The numbers of the arena's chunks. */
  ghost function AtMost(a: Arena, had: set<int>, chunks: seq<Option<int>>, n: nat): (known: set<int>)
    requires n <= |chunks| && ChunksFrom(a, had, chunks, n)
    reads a, a.pages
    ensures known == a.pages.chunks.Keys
    ensures forall c :: c in known ==> c in had || exists j :: 0 <= j < n && chunks[j] == Some(c)
  {
    a.pages.chunks.Keys
  }

  lemma MoreChunks(a: Arena, had: set<int>, chunks: seq<Option<int>>, n: nat, known: set<int>)
    requires n < |chunks| && a.pages.chunks.Keys <= known + Arena.Supplied(chunks[n])
    requires forall c :: c in known ==> c in had || exists j :: 0 <= j < n && chunks[j] == Some(c)
    ensures ChunksFrom(a, had, chunks, n + 1)
  {
    forall c | c in a.pages.chunks
      ensures c in had || exists j :: 0 <= j < n + 1 && chunks[j] == Some(c)
    {
      assert c in a.pages.chunks.Keys;
      if c !in known { assert chunks[n] == Some(c); }
    }
  }

  lemma NoSlots(a: Arena)
    ensures Tracks(a, map[], [], [])
  {
  }
}
