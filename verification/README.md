# A verified model of the server's allocator and byte formats

The server allocates everything through a bundled copy of jemalloc
(`src/allocator.h:25-35`).  This project models that allocator's arenas down to the
page map, the region bitmaps and the links of its red-black trees, and proves what
the allocator promises: in every state that a sequence of requests can reach, live
blocks are disjoint, large enough, aligned as asked, and inside the non-header pages
of a chunk.  Around it stand models of six smaller parts of the repository whose
correctness is also a statement about every run: the chunk radix tree, the BSON
builder and iterator, the streaming parts of MD5 and SHA-1, GridFS chunking, the
UTF-8 acceptor, and the partial writes of the HTTP output path.

`dafny verify dfyconfig.toml` checks the whole project.

## How the model is built

The allocator, from the bottom up:

- `RedBlackTree.dfy`, `RedBlackInsert.dfy`, `RedBlackRemove.dfy`: the trees of
  `rb.h` as values.  A 4-node is a black node with two consecutive red left links and
  a right link is never red.  A position in a tree is a path to a hole; each turn of
  a loop is a step on that path, with its own lemma.
- `RedBlackHeap.dfy`, `RbTree.dfy`, `RbIterator.dfy`: links and colours in memory, the
  macros that rewrite them, insertion, removal, the searches and the iteration, each
  proved against the set (or the sequence) of nodes.  Memory is a map from nodes to
  cells, and a node is named by its rank in the order of the comparison function.
- `PageMap.dfy`, `AvailRuns.dfy`, `DirtyPages.dfy`, `PageState.dfy`: the page map as a
  partition of the non-header pages into runs, the order of `runs_avail`, the dirty
  counts, and what each step of the page layer does to all of them together.
- `PageArena.dfy`: the class of the page layer.  Its two trees are trees of
  `RbTree.dfy`; its specification is the map of allocated runs.
- `Regions.dfy`, `RunLayout.dfy`, `SizeClasses.dfy`, `SmallRuns.dfy`: region bitmaps,
  the layout of small runs, division without dividing, size classes, bins.
- `LowestRun.dfy`: when the current run of a bin is its lowest non-full run.
- `Arena.dfy`, `Sessions.dfy`: the class of a whole arena, with a ghost map of live
  blocks, and whole runs of requests.

The other parts: `RadixTree.dfy`, `Bson.dfy`, `BsonBuilder.dfy`, `Hashes.dfy`,
`GridFs.dfy`, `Utf8.dfy`, `HttpOutput.dfy`.

What the operating system does is a parameter: whether a new chunk is to be had, how
many nodes can still be allocated, how many bytes a socket accepts.  Page size, chunk
size, header pages, quantum and `small_max` are symbolic.

## Where the code and what it says differ

- `isLegalUTF8` (`libs/mongo-c-driver/src/encoding.c:70-102`) does not check the lower
  bound of the second byte after 0xF4, so the bytes F4 41 80 80 are accepted.
  `Utf8.StrayAccepted` shows it; `Utf8.AcceptedExactly` says which accepted strings are
  encodings of code points.  Surrogates are accepted too.
- `gridfile_write_buffer` (`libs/mongo-c-driver/src/gridfs.c:203-271`) sets
  `chunks_to_write` only if something is pending; a piece of a chunk or more that
  arrives at a chunk boundary is dropped.  `GridFs.WriteAll` says when a file is complete.
- `http_send` (`src/core_http.c:125-173`) sets the vector to resume from only if the
  first `writev` accepted something.  `HttpOutput.Response.Send` says when the rest can
  be resumed, and `HttpOutput.Respond` what is sent in either case;
  `HttpOutput.NothingSent` and `HttpOutput.StaleSent` are two failing runs.
- `bson_ensure_space` (`libs/mongo-c-driver/src/bson.c:608-635`) adds in 32 bits.
  `BsonBuffers.GrownExact` says when it refuses and when there is room: beyond `INT_MAX` it
  does neither.  `BsonBuffers.GrownSmall` says the same of buffers that are too small for
  the length of a document, and `BsonBuilders.SmallBuffer` is the failing run.
- `bson_ensure_space` assigns the overflow bit instead of adding it, which also clears the
  bit that makes `bson_finish` refuse a document; a regular expression that is refused
  after its key has been written (`libs/mongo-c-driver/src/bson.c:817-827`) then stays in
  it.  `BsonBuilders.Builder.Append` says exactly which calls leave such bytes behind,
  `BsonBuilders.Builder.Finish` that the document is the appended one exactly without them,
  and `BsonBuilders.SpoiltDocument` is a run that ends with a wrong document.
- The comment that `runcur` is the lowest non-full run
  (`libs/jemalloc/jemalloc.c:4219-4222`) does not hold in every state.  It is lost in
  exactly three ways: the last free region of the current run is handed out while another
  run has room, the current run is released while another run has room, or a full run gets
  a free region while the current run is full and lower.  `LowestRun.TakeKeeps`,
  `LowestRun.ReleaseKeeps` and `LowestRun.ReturnKeeps` prove this, and each has its state.
- The depth of a tree is said to be limited to three times the binary logarithm of the
  number of nodes (`libs/jemalloc/rb.h:786-789`).  `RedBlackShape.DepthByNodes` proves that
  this holds exactly for trees of two or more nodes.

## How to read the rows

The invariants of the classes are their predicates `Valid()`, and the result about them is
that every method keeps them.  The rows for `PageBelongs`, `NoAdjacentFree`,
`DirtyAccounting`, `ValidGeo` and `BinAt` only spell out what `Valid()` says.

## Model

| member | source | states |
|---|---|---|
| RedBlackShape.DepthBound | libs/jemalloc/rb.h:777-830 | no path of a red-black tree exceeds three times its black height (the size of the iterators' path array), and the black height is at most lg(n + 1) |
| RedBlackShape.SizeByHeight | libs/jemalloc/rb.h:410-414 | the least number of nodes of a tree by its height and black height |
| RedBlackShape.DepthByNodes | libs/jemalloc/rb.h:786-789 | the depth is at most three times the binary logarithm of the number of nodes exactly for trees of two or more nodes |
| RedBlackShape.SingleNode | libs/jemalloc/rb.h:786-789 | a single node is deeper than three times the logarithm of one |
| RedBlackShape.PlugSorted | libs/jemalloc/rb.h:395-477 | replacing a subtree by one whose keys lie in the same gap keeps the whole tree sorted |
| RedBlackShape.PlugBalanced | libs/jemalloc/rb.h:395-477 | replacing a subtree by one of equal black height keeps the whole tree balanced |
| RedBlackShape.PlugLean | libs/jemalloc/rb.h:410-414 | a subtree that fits its hole leaves right links black and at most two red left links in a row |
| RedBlackInsertSteps.Descend | libs/jemalloc/rb.h:450-458 | stepping past a node that is not a 4-node keeps the search invariant |
| RedBlackInsertSteps.SplitAndDescend | libs/jemalloc/rb.h:415-425 | splitting a 4-node that is a left child keeps all keys, the balance and the search invariant |
| RedBlackInsertSteps.SplitAndLean | libs/jemalloc/rb.h:415-448 | splitting a 4-node that is a right child and leaning its parent left keeps them too |
| RedBlackInsertSteps.Link | libs/jemalloc/rb.h:460-477 | linking the node at the end of the search gives a red-black tree of the old nodes and the new one |
| RedBlackRemoveSteps.MoveRedLeftShape | libs/jemalloc/rb.h:331-354 | the move makes the left child's side ready to lose a node, and keeps black height and leaning |
| RedBlackRemoveSteps.MoveRedRightShape | libs/jemalloc/rb.h:356-393 | the same to the right, for red and for black nodes |
| RedBlackRemoveSteps.TurnLeft | libs/jemalloc/rb.h:609-625 | a turn of the removal loop to the left keeps nodes, order, balance and leaning, and moves down |
| RedBlackRemoveSteps.TurnRight | libs/jemalloc/rb.h:661-678 | the same for a turn to the right |
| RedBlackRemoveSteps.RootLeft | libs/jemalloc/rb.h:496-510 | the first turn to the left prepares the root, which stays black |
| RedBlackRemoveSteps.RootRight | libs/jemalloc/rb.h:535-569 | the first turn to the right prepares the root, with the transform that only the root needs |
| RedBlackRemoveSteps.DeleteLeaf | libs/jemalloc/rb.h:629-651 | cutting out a node without right child removes exactly its key and leaves a red-black tree |
| RedBlackRemoveSteps.Relocate | libs/jemalloc/rb.h:576-608 | putting the successor in the place of the removed node removes exactly that node's key |
| RedBlackHeap.RotateLeftHolds | libs/jemalloc/rb.h:301-306 | rewriting the links turns memory that holds a tree into memory that holds the rotated tree, with the same nodes |
| RedBlackHeap.RotateRightHolds | libs/jemalloc/rb.h:308-313 | the same for the rotation to the right |
| RedBlackHeap.LeanLeftHolds | libs/jemalloc/rb.h:315-321 | leaning left rewrites links and colours to those of the leaned tree |
| RedBlackHeap.SwapHolds | libs/jemalloc/rb.h:576-598 | redirecting the parent of the removed node and copying its cell puts the successor in its place in memory |
| RbTrees.RbTree.Insert | libs/jemalloc/rb.h:395-477 | the set of nodes grows by exactly the given node; order, black heights and leaning are kept |
| RbTrees.RbTree.SplitNode | libs/jemalloc/rb.h:415-435 | the in-place split of a 4-node, linked to its parent on the side where it was, refines the split on trees |
| RbTrees.RbTree.MoveRedLeftAt | libs/jemalloc/rb.h:331-354 | the in-place move refines the move on trees |
| RbTrees.RbTree.MoveRedRightAt | libs/jemalloc/rb.h:356-393 | the in-place move refines the move on trees |
| RbTrees.RbTree.Remove | libs/jemalloc/rb.h:480-683 | the set of nodes shrinks by exactly the given node; order, black heights and leaning are kept |
| RbTrees.RbTree.First | libs/jemalloc/rb.h:215-220 | the least node, or none exactly if the tree is empty |
| RbTrees.RbTree.Last | libs/jemalloc/rb.h:222-227 | the greatest node, or none exactly if the tree is empty |
| RbTrees.RbTree.Search | libs/jemalloc/rb.h:243-256 | finds a node exactly if it is in the tree |
| RbTrees.RbTree.NSearch | libs/jemalloc/rb.h:263-278 | the least node that is not below the key, or none exactly if all are below it |
| RbTrees.RbTree.PSearch | libs/jemalloc/rb.h:284-299 | the greatest node that is not above the key, or none exactly if all are above it |
| RbIterators.BlackHeightOf | libs/jemalloc/rb.h:143-152 | counting black nodes down the left spine gives the black height |
| RbIterators.Successor | libs/jemalloc/rb.h:861-890 | the path moves to the next node in order, without leaving the path array |
| RbIterators.Foreach | libs/jemalloc/rb.h:811-890 | visits exactly the nodes of the tree, in ascending order, each once, with a path array of three times the black height |
| PageMap.Owner | libs/jemalloc/jemalloc.c:3138-3196 | runs that tile a chunk leave no non-header page without a run |
| AvailRuns.KeyOrder | libs/jemalloc/jemalloc.c:2834-2860 | ranks compare as `arena_avail_comp` does: by size, then by address |
| AvailRuns.LeastIsBestFit | libs/jemalloc/jemalloc.c:2834-2860 | the least node not below the flagged probe is the lowest run among the smallest ones that fit |
| AvailRuns.NoneIsNoFit | libs/jemalloc/jemalloc.c:3233-3288 | if no node is at or above the probe, no available run fits |
| DirtyPages.CountedUpdate | libs/jemalloc/jemalloc.c:3108-3135 | replacing one chunk's map changes the arena's count and the set of dirty chunks consistently |
| PageArenas.PageArena.PageBelongs | libs/jemalloc/jemalloc.c:3029-3196 | every non-header page belongs to exactly one run; the map says whether it is allocated, free runs have their size at both ends, no allocated page is dirty |
| PageArenas.PageArena.NoAdjacentFree | libs/jemalloc/jemalloc.c:3426-3471 | no two free runs are adjacent |
| PageArenas.PageArena.DirtyAccounting | libs/jemalloc/jemalloc.c:3198-3230 | each chunk's count is its number of dirty pages, the arena's count is their sum, and `chunks_dirty` is exactly the chunks with some |
| PageArenas.PageArena.ValidGeo | libs/jemalloc/jemalloc.c:3198-3288 | `runs_avail` holds exactly the free runs of all chunks but the spare |
| PageArenas.PageArena.ClaimPages | libs/jemalloc/jemalloc.c:3067-3106 | the entries of the run describe an allocated run, no others change, exactly its pages lose their dirty flags, and these are counted |
| PageArenas.PageArena.RunSplit | libs/jemalloc/jemalloc.c:3029-3136 | the front of a free run becomes allocated, the rest stays free and available, exactly the pages taken stop being dirty, and everything in the invariant holds again |
| PageArenas.PageArena.InitMap | libs/jemalloc/jemalloc.c:3138-3196 | a new chunk's map is one maximal clean free run behind the header |
| PageArenas.PageArena.ChunkInit | libs/jemalloc/jemalloc.c:3138-3196 | a new chunk adds exactly its one free run, which is available |
| PageArenas.PageArena.ChunkDealloc | libs/jemalloc/jemalloc.c:3198-3230 | the unused chunk becomes the spare and leaves `runs_avail`; exactly the old spare is dropped, with its dirty pages |
| PageArenas.PageArena.RunAlloc | libs/jemalloc/jemalloc.c:3232-3288 | takes the lowest best-fitting run, else the spare, else the new chunk; fails exactly if there is none of these, and then changes nothing; exactly the pages taken stop being dirty |
| PageArenas.PageArena.PurgeChunk | libs/jemalloc/jemalloc.c:3315-3367 | clears exactly the dirty flags from some stretch of dirty pages on, and counts them; without that stretch the excess would remain |
| PageArenas.PageArena.Purge | libs/jemalloc/jemalloc.c:3290-3378 | purges exactly the dirty pages from some page on; ends with at most half of the allowed dirty pages, and before the last stretch there were more; runs stay as they are |
| PageArenas.PageArena.FreeEntries | libs/jemalloc/jemalloc.c:3397-3424 | the entries of the run describe a free run; its pages count as dirty if asked |
| PageArenas.PageArena.Release | libs/jemalloc/jemalloc.c:3380-3424 | the run becomes free, and exactly its pages become dirty if asked, and are counted |
| PageArenas.PageArena.CoalesceForward | libs/jemalloc/jemalloc.c:3426-3448 | a free run that follows is joined, and no free run follows any more |
| PageArenas.PageArena.CoalesceBackward | libs/jemalloc/jemalloc.c:3450-3471 | a free run that precedes is joined, and coalescing is complete |
| PageArenas.PageArena.FreeRun | libs/jemalloc/jemalloc.c:3380-3471 | the run becomes free and is joined with the free runs around it; the dirty pages are exactly the old ones and, if asked, its own |
| PageArenas.PageArena.ChunkEmpty | libs/jemalloc/jemalloc.c:3474-3479 | a chunk is one free run exactly if none of its runs is allocated |
| PageArenas.PageArena.RunDalloc | libs/jemalloc/jemalloc.c:3380-3486 | exactly that run is no longer allocated; its chunk becomes the spare exactly if nothing else in it is allocated, and then the old spare goes; the dirty pages are exactly the old ones, less the dropped spare's, and the run's own if asked, or a lower part of them if that is too much |
| PageArenas.PageArena.TrimHead | libs/jemalloc/jemalloc.c:3488-3507 | the last pages of a large run stay allocated, the others become free and are not dirty |
| PageArenas.PageArena.TrimTail | libs/jemalloc/jemalloc.c:3509-3529 | the first pages of a large run stay allocated, the others become free, and dirty if asked |
| PageArenas.PageArena.Grow | libs/jemalloc/jemalloc.c:4362-4404 | a large run grows in place exactly if a free run of sufficient length follows it; exactly the pages taken stop being dirty |
| PageArenas.PageArena.Palloc | libs/jemalloc/jemalloc.c:3908-3970 | exactly the asked number of pages becomes allocated, from the first aligned page of the run that an unaligned request would get; fails exactly if nothing fits |
| PageArenas.PageArena.FirstAlignedLeast | libs/jemalloc/jemalloc.c:3930-3945 | no aligned page comes before the first aligned one |
| Regions.InitMask | libs/jemalloc/jemalloc.c:3568-3581 | the free regions of a new mask are exactly 0 to nregs - 1 |
| Regions.RegAlloc | libs/jemalloc/jemalloc.c:2866-2925 | returns the least free region and takes exactly it; nothing below `regs_minelm` is free afterwards |
| Regions.RegFree | libs/jemalloc/jemalloc.c:3018-3026 | exactly that region becomes free, and `regs_minelm` and `nfree` agree with the mask |
| Regions.AllocThenFree | libs/jemalloc/jemalloc.c:2866-3026 | giving back what was just handed out restores the set of free regions |
| RunLayout.FitRegions | libs/jemalloc/jemalloc.c:3640-3664 | the largest number of regions whose mask and header fit before the first one |
| RunLayout.RunSizeCalc | libs/jemalloc/jemalloc.c:3636-3706 | terminates; regions fill the run from its end, the header fits before them, the mask covers them, the size is within its limits, and it is the last one before the first that ends the search |
| RunLayout.ContinuesIs | libs/jemalloc/jemalloc.c:3691-3693 | the search goes on while the limits are kept and more than 61/4096 of the run lies before its first region |
| RunLayout.RegionAligned | libs/jemalloc/jemalloc.c:3664-3664 | a region is aligned to every divisor of the region size that divides the end of the run |
| RunLayout.ReciprocalExact | libs/jemalloc/jemalloc.c:2969-3007 | multiplying by 2^21/D + 1 and shifting divides multiples of D exactly, without 32-bit overflow |
| RunLayout.RegIndexExact | libs/jemalloc/jemalloc.c:2940-3016 | the division-free index equals the quotient for every size class and every multiple below the largest run |
| SizeClasses.LeastClass | libs/jemalloc/jemalloc.c:3772-3797 | the bin exists and has the least region size that is not below the request |
| SizeClasses.ClassIsFixed | libs/jemalloc/jemalloc.c:3772-3797 | a request of exactly a class size is served by that class |
| SizeClasses.Increasing | libs/jemalloc/jemalloc.c:4574-4621 | region sizes grow from bin to bin across the three groups |
| SizeClasses.ClassRange | libs/jemalloc/jemalloc.c:5620-5640 | region sizes lie between 1 and half a page |
| SizeClasses.ClassesAre | libs/jemalloc/jemalloc.c:4574-4621 | the region sizes are exactly the powers of two from 2 to half the quantum, the multiples of the quantum up to `small_max`, and the powers of two up to half a page |
| SizeClasses.ClassAligned | libs/jemalloc/jemalloc.c:3978-3994 | the class that serves a multiple of a power of two is a multiple of it |
| SizeClasses.SameClassIff | libs/jemalloc/jemalloc.c:4464-4480 | the in-place tests succeed exactly if the same bin serves both sizes |
| PowerOfTwo.SmearStep | libs/jemalloc/jemalloc.c:1663-1679 | each step of the smearing doubles the ones at the top of the number |
| PowerOfTwo.Pow2CeilLeast | libs/jemalloc/jemalloc.c:1663-1679 | up to 2^63 the smearing trick gives the least power of two that is not below its argument, the one that the size classes use |
| PowerOfTwo.Pow2CeilWraps | libs/jemalloc/jemalloc.c:1663-1679 | beyond 2^63 it wraps around to 0 |
| SmallRuns.LayOutBins | libs/jemalloc/jemalloc.c:4548-4628 | every bin gets its class and the layout that the search settles on from the run size of the bin before, so that runs never shrink from bin to bin |
| SmallRuns.ClassIndexable | libs/jemalloc/jemalloc.c:2940-3016 | every class is a power of two or a multiple of the quantum that the reciprocal table covers |
| SmallRuns.TableIndexInRange | libs/jemalloc/jemalloc.c:2942-2961 | a class that is looked up in the reciprocal table has an entry in it |
| SmallRuns.SnugSize | libs/jemalloc/jemalloc.c:4067-4092 | the usable size of a live block is the least class, or the least number of pages, that holds the request |
| SmallRuns.BlockInRun | libs/jemalloc/jemalloc.c:2866-2925 | a block lies inside the pages of its run, a region behind the run header |
| SmallRuns.BlocksDisjoint | libs/jemalloc/jemalloc.c:2866-2925 | blocks of consistent runs share no byte |
| LowestRun.TakeKeeps | libs/jemalloc/jemalloc.c:3596-3610 | handing out a region keeps `runcur` the lowest non-full run exactly unless it was the run's last one and another run has room |
| LowestRun.NewKeeps | libs/jemalloc/jemalloc.c:3549-3594 | a run that is created when all others are full becomes the lowest non-full run |
| LowestRun.ReturnKeeps | libs/jemalloc/jemalloc.c:4216-4253 | a region coming back keeps it exactly unless its run was full and the current run is full and lower |
| LowestRun.ReleaseKeeps | libs/jemalloc/jemalloc.c:4192-4215 | releasing a run keeps it exactly unless the run was current and another run has room |
| LowestRun.FreeLoses | libs/jemalloc/jemalloc.c:4243-4251 | a state in which a full run stays current although another run has room |
| LowestRun.ReleaseLosesRun | libs/jemalloc/jemalloc.c:4194-4195 | a state in which a higher run becomes current although a lower one has room |
| LowestRun.TakeLosesRun | libs/jemalloc/jemalloc.c:3596-3610 | a state in which handing out a region leaves a full run current |
| Arenas.Arena.constructor | libs/jemalloc/jemalloc.c:4548-4628 | a new arena is consistent and has no live blocks |
| Arenas.Arena.BinAt | libs/jemalloc/jemalloc.c:3531-3623 | a bin's tree holds exactly its non-full runs other than `runcur` |
| Arenas.Arena.MallocEasy | libs/jemalloc/jemalloc.c:3596-3610 | the lowest free region of the current run becomes live, and nothing else changes; says exactly when `runcur` stays the lowest non-full run |
| Arenas.Arena.Refill | libs/jemalloc/jemalloc.c:3531-3548 | the lowest non-full run becomes current and has a free region; without one nothing changes; `runcur` is the lowest non-full run then |
| Arenas.Arena.InitRun | libs/jemalloc/jemalloc.c:3549-3594 | a new run gets a header with all regions free, becomes current, and hands out region 0 |
| Arenas.Arena.MallocHard | libs/jemalloc/jemalloc.c:3612-3634 | a block of the bin becomes live: the lowest free region of the lowest run with space, or region 0 of a new run only if there is none; or no chunk was to be had and nothing became live |
| Arenas.Arena.MallocSmall | libs/jemalloc/jemalloc.c:3765-3833 | a block of the least sufficient class becomes live, from the current run, else from the lowest run with space, else from a new one |
| Arenas.Arena.MallocLarge | libs/jemalloc/jemalloc.c:3835-3869 | a large block of exactly the pages that the request needs becomes live |
| Arenas.Arena.Malloc | libs/jemalloc/jemalloc.c:3871-3882 | a new block becomes live, small or large by the request, and a large one with exactly the pages that it needs; fails only without a new chunk |
| Arenas.Arena.Lookup | libs/jemalloc/jemalloc.c:4067-4092 | the map entry of a block's page tells small from large and leads to the block's run |
| Arenas.Arena.Salloc | libs/jemalloc/jemalloc.c:4067-4092 | the usable size of a block, which is the one that its request determines and at least what was requested |
| Arenas.Arena.IndexOf | libs/jemalloc/jemalloc.c:2927-3026 | the index recovered from a region's address is the region's index |
| Arenas.Arena.DallocSmall | libs/jemalloc/jemalloc.c:4171-4258 | exactly that block is no longer live; exactly with its last region the run goes, with its pages dirty |
| Arenas.Arena.Unlist | libs/jemalloc/jemalloc.c:4189-4215 | a completely free run is neither current nor in the tree of its bin; says exactly when `runcur` stays the lowest non-full run |
| Arenas.Arena.SwitchCur | libs/jemalloc/jemalloc.c:4216-4253 | `runcur` and the bin's tree agree with a run that gets a free region, in all four branches |
| Arenas.Arena.ReturnRegion | libs/jemalloc/jemalloc.c:4189-4253 | exactly that region is no longer live; says exactly when `runcur` stays the lowest non-full run |
| Arenas.Arena.DallocLarge | libs/jemalloc/jemalloc.c:4260-4292 | exactly that block is no longer live, and its pages are dirty |
| Arenas.Arena.Dalloc | libs/jemalloc/jemalloc.c:4294-4322 | exactly the block at that address is no longer live; says exactly which pages are given back and which are dirty then |
| Arenas.Arena.RallocLarge | libs/jemalloc/jemalloc.c:4338-4456 | a large block is resized in place exactly if it shrinks, keeps its pages, or enough free pages follow; it has exactly the pages that it needs then, and what it gives back is dirty |
| Arenas.Arena.Ralloc | libs/jemalloc/jemalloc.c:4458-4515 | one block is replaced by one of the new size; a small block stays exactly if the same bin serves the size, a large one exactly if its pages suffice or enough free pages follow; a large result has exactly the pages that it needs; on failure nothing changed |
| Arenas.Arena.PallocLarge | libs/jemalloc/jemalloc.c:3908-3970 | a large block at a multiple of the alignment becomes live |
| Arenas.Arena.Ipalloc | libs/jemalloc/jemalloc.c:3972-4063 | on the routes through the arena the block's address is a multiple of the alignment, and the arena is asked for the size rounded up to it, or for the size itself beyond a page; the huge route is taken exactly if a chunk cannot hold the request |
| Arenas.Arena.MallocAligned | libs/jemalloc/jemalloc.c:3978-3994 | a request that is a multiple of a power of two up to a page gets an address that is one too |
| Arenas.Arena.LiveDisjoint | libs/jemalloc/jemalloc.c:2866-3529 | no two live blocks of an arena share a byte |
| Arenas.Arena.LiveInside | libs/jemalloc/jemalloc.c:2866-3529 | a live block has the usable size that its request determines and lies in the non-header pages of a chunk |
| Sessions.Serve | libs/jemalloc/jemalloc.c:3871-4515 | one request keeps the arena consistent and the held pointers in step with the live blocks; it fills, replaces or empties exactly its slot, with the size, usable size and alignment asked for, and fails only if it asks for nothing, for more than a chunk, or without a chunk to be had |
| Sessions.ExplainStep | libs/jemalloc/jemalloc.c:3871-4515 | one more request keeps every slot explained by the requests so far |
| Sessions.Serves | libs/jemalloc/jemalloc.c:3765-4515 | after any sequence of requests there is one slot per allocation; each held block has the size, alignment and least sufficient usable size of the request that last filled it, an empty slot was freed or could not be filled; held blocks are exactly the live ones, their usable bytes are pairwise disjoint and inside non-header pages, and dirty pages are within their bound |
| RadixKeys.LevelBits | libs/jemalloc/jemalloc.c:2320-2339 | the widths of the levels are positive and sum to exactly the number of bits |
| RadixKeys.SubkeyExtends | libs/jemalloc/jemalloc.c:2364-2366 | shifting left and right extracts the next bits of the key |
| RadixKeys.SameDigits | libs/jemalloc/jemalloc.c:2353-2387 | two keys take the same way exactly if they agree in the bits that the tree looks at |
| RadixNodes.LeafAt | libs/jemalloc/jemalloc.c:2445-2449 | storing a value changes what is found for one way only |
| RadixNodes.GrownAt | libs/jemalloc/jemalloc.c:2433-2442 | linking an empty node changes nothing that can be found |
| RadixTrees.RadixTree.constructor | libs/jemalloc/jemalloc.c:2313-2351 | a new tree is empty and looks at the given number of bits |
| RadixTrees.RadixTree.Get | libs/jemalloc/jemalloc.c:2353-2387 | what a finite map on the top bits of the key holds, or 0 |
| RadixTrees.RadixTree.Set | libs/jemalloc/jemalloc.c:2421-2453 | updates the finite map at the top bits of the key; fails exactly if more nodes are missing on the way than can be allocated, and then changes nothing that can be found |
| Utf8.Validate | libs/mongo-c-driver/src/encoding.c:104-135 | succeeds exactly on strings that split into legal sequences; reports exactly whether a sequence it looks at starts with a dot, and a leading dollar sign |
| Utf8.DotIn | libs/mongo-c-driver/src/encoding.c:116-118 | in an encoding of code points a dot is reported exactly if there is one |
| Utf8.SampleNames | libs/mongo-c-driver/src/encoding.c:111-118 | the names a.b and $a are reported for their dot and their dollar sign |
| Utf8.EncodeUnit | libs/mongo-c-driver/src/encoding.c:47-102 | the shortest form of every code point is a legal sequence that decodes to it |
| Utf8.UnitDecodes | libs/mongo-c-driver/src/encoding.c:70-102 | a legal sequence is the shortest form of its code point, apart from 0xF4 with a stray second byte |
| Utf8.DecodeEncode | libs/mongo-c-driver/src/encoding.c:104-135 | decoding an accepted string without stray bytes and encoding it again is the identity |
| Utf8.EncodeAccepted | libs/mongo-c-driver/src/encoding.c:104-135 | every string of encoded code points is accepted and decodes to them |
| Utf8.AcceptedExactly | libs/mongo-c-driver/src/encoding.c:70-135 | the encodings of code points up to U+10FFFF are exactly the accepted strings in which no byte below 0x80 follows 0xF4 |
| Utf8.StrayAccepted | libs/mongo-c-driver/src/encoding.c:80-95 | F4 41 80 80 is accepted and encodes nothing |
| BsonFormat.ValueOf | libs/mongo-c-driver/src/bson.c:316-382 | every value is skipped exactly and read back by the accessors of its type |
| BsonFormat.ElemsOf | libs/mongo-c-driver/src/bson.c:293-396 | any sequence of elements before a zero byte is read back, subdocuments included |
| BsonFormat.RoundTrip | libs/mongo-c-driver/src/bson.c:293-396 | reading a written document gives its elements, and its length prefix is its length |
| BsonFormat.Unambiguous | libs/mongo-c-driver/src/bson.c:293-396 | documents with the same bytes are the same |
| BsonFormat.LeByte | libs/mongo-c-driver/src/bson.c:598-606 | byte i of a number counts multiples of 256^i |
| BsonFormat.LaidElement | libs/mongo-c-driver/src/bson.c:588-873 | type byte, key, terminators, lengths and payload of every kind of element, byte by byte |
| BsonFormat.HelloWorld | libs/mongo-c-driver/src/bson.c:637-743 | the bytes of the document that maps hello to world |
| BsonBuffers.Patched | libs/mongo-c-driver/src/bson.c:889-900 | patching the length into a finished part turns its bytes into those of one element |
| BsonBuffers.GrownExact | libs/mongo-c-driver/src/bson.c:608-635 | while the end of the new bytes is an `int`, space is refused exactly if it is needed and the sizes sum up to `INT_MAX`, and otherwise suffices; beyond that nothing is refused and nothing grows |
| BsonBuffers.GrownSmall | libs/mongo-c-driver/src/bson.c:570-586 | a buffer of fewer than four bytes grows enough exactly if at least 8 - 3 * size bytes are needed |
| BsonBuffers.CoherentClosed | libs/mongo-c-driver/src/bson.c:889-900 | finishing a part keeps buffer and open parts in step, whatever stray bytes there are |
| BsonBuffers.CoherentFinished | libs/mongo-c-driver/src/bson.c:637-652 | the finished buffer is the document of the appended elements exactly if no part is open and no stray byte is in it |
| BsonBuilders.Builder.constructor | libs/mongo-c-driver/src/bson.c:570-586 | a new builder of any size holds the empty document |
| BsonBuilders.Builder.EnsureSpace | libs/mongo-c-driver/src/bson.c:608-635 | keeps what was written and grows or refuses as the 32-bit sums say; a refusal drops all other error bits |
| BsonBuilders.Builder.Start | libs/mongo-c-driver/src/bson.c:662-682 | writes type and key, or leaves the bytes alone; succeeds exactly on an unfinished document that can grow and a valid key, sets exactly the error bit of its reason otherwise, and warns about dots and dollar signs |
| BsonBuilders.Builder.Append | libs/mongo-c-driver/src/bson.c:688-873 | appends exactly one element to the innermost open part, every byte where the format puts it; says exactly when it succeeds, which bytes a refused regular expression leaves behind, and when bytes land outside the buffer |
| BsonBuilders.Builder.StartNested | libs/mongo-c-driver/src/bson.c:875-887 | opens a part whose length is still to be patched; goes out of bounds exactly without room or at the 33rd part |
| BsonBuilders.Builder.FinishNested | libs/mongo-c-driver/src/bson.c:889-904 | the innermost part becomes one element of the part around it, with its length patched in; goes out of bounds exactly without room or without an open part |
| BsonBuilders.Builder.Finish | libs/mongo-c-driver/src/bson.c:637-652 | the buffer holds the document of the appended elements exactly if every part was finished and no stray byte is in it, and then the iterator reads them back |
| BsonBuilders.Iterator.Here | libs/mongo-c-driver/src/bson.c:384-396 | type, key and value at the cursor are those of the current element, and the end is met exactly after the last |
| BsonBuilders.Iterator.Next | libs/mongo-c-driver/src/bson.c:316-382 | visits the elements in order and stays at the end |
| BsonBuilders.Find | libs/mongo-c-driver/src/bson.c:303-310 | finds the first element with the key, or the end |
| BsonBuilders.ReadAll | libs/mongo-c-driver/src/bson.c:293-396 | the iterator, run to the end, gives exactly the elements in order |
| BsonBuilders.Build | libs/mongo-c-driver/src/bson.c:588-904 | for any sequence of calls that closes what it opens, at most 32 deep and below `INT_MAX` bytes, nothing lands outside the buffer, and if every call succeeds the finished document is read back |
| BsonBuilders.SpoiltDocument | libs/mongo-c-driver/src/bson.c:817-827 | a run of refused calls after which `Finish` succeeds on a wrong document |
| BsonBuilders.SmallBuffer | libs/mongo-c-driver/src/bson.c:570-586 | finishing the empty document in a buffer of fewer than three bytes writes outside it |
| HashPadding.PadLength | libs/mongo-c-driver/src/md5.c:374-377 | the padding is the shortest that fills whole blocks with the length |
| HashPadding.Md5Layout | libs/mongo-c-driver/src/md5.c:360-381 | the padded message is the message, 0x80, zeros to the end of a block, and the number of bits with its low byte first |
| HashPadding.Sha1Layout | src/web/utils/sha1.c:134-170 | the same with the high byte of the number of bits first |
| HashPadding.PaddedMd5Injective | libs/mongo-c-driver/src/md5.c:360-381 | different messages are padded differently |
| HashPadding.PaddedSha1Injective | src/web/utils/sha1.c:134-170 | different messages are padded differently |
| Md5s.Md5.constructor | libs/mongo-c-driver/src/md5.c:312-320 | nothing has been appended |
| Md5s.Md5.AddLength | libs/mongo-c-driver/src/md5.c:334-338 | the two words count the bits modulo 2^64, for pieces of any `int` length |
| Md5s.Md5.Append | libs/mongo-c-driver/src/md5.c:322-358 | the state depends only on the bytes appended so far, however they were split |
| Md5s.Md5.Finish | libs/mongo-c-driver/src/md5.c:360-381 | the block function has been fed exactly the padded message |
| Sha1s.Sha1.constructor | src/web/utils/sha1.c:172-186 | nothing has been fed |
| Sha1s.Sha1.CountByte | src/web/utils/sha1.c:217-225 | the two words count the bits, and the flag is raised exactly at 2^64 bits |
| Sha1s.Sha1.Input | src/web/utils/sha1.c:211-234 | all bytes are taken, up to 2^61 in total, however they were split |
| Sha1s.Sha1.PadMessage | src/web/utils/sha1.c:134-170 | both branches feed exactly the padding of the message |
| Sha1s.Sha1.Result | src/web/utils/sha1.c:188-209 | the block function has been fed exactly the padded message, and block and length are wiped; a second call reports the same digest |
| GridFs.StoreBuffer | libs/mongo-c-driver/src/gridfs.c:154-184 | the store holds exactly the chunks of the buffer |
| GridFs.SameContent | libs/mongo-c-driver/src/gridfs.c:154-184 | chunks and length determine the file |
| GridFs.Writer.WriteBuffer | libs/mongo-c-driver/src/gridfs.c:203-271 | flushed chunks and pending bytes grow by exactly the data, or not at all if nothing is pending and the data fill a chunk |
| GridFs.Writer.Done | libs/mongo-c-driver/src/gridfs.c:273-295 | the store holds exactly the chunks of everything written, and the length is right |
| GridFs.WriteAll | libs/mongo-c-driver/src/gridfs.c:203-295 | a file written in pieces is complete exactly if no piece of a chunk or more comes at a chunk boundary |
| GridFs.OneChunkDropped | libs/mongo-c-driver/src/gridfs.c:228-230 | a single piece of one chunk is such a piece |
| GridFs.Reader.Seek | libs/mongo-c-driver/src/gridfs.c:679-685 | a position behind the end becomes the end |
| GridFs.Reader.Read | libs/mongo-c-driver/src/gridfs.c:627-677 | any read returns the slice of the file at the position and advances by its length, at the end of the file too |
| HttpOutput.Advance | src/core_http.c:148-162 | the vector refers to exactly the bytes that were not accepted |
| HttpOutput.Conserved | src/core_server.c:445-514 | the bytes that a sequence of events moved are those no longer to be sent, and a request is ended only when nothing is left |
| HttpOutput.EndedExactly | src/core_server.c:445-514 | without errors a request is cleaned up exactly if it has been ended |
| HttpOutput.ErrorEffect | src/core_server.c:456-502 | an error moves no byte; it cleans up without ending the request exactly if bytes of the vector are left, or on a file with an error other than try again |
| HttpOutput.AbandonedExactly | src/core_server.c:445-514 | a request is cleaned up without having been ended exactly if such an error came |
| HttpOutput.Completes | src/core_server.c:445-514 | more events than bytes end the request, if each moves a byte while there is one |
| HttpOutput.Response.AppendToOutput | src/core_http.c:79-94 | the queue grows by the bytes, and the total with it |
| HttpOutput.Response.Send | src/core_http.c:125-173 | what was accepted is a prefix of the queue; the rest can be resumed exactly if something was accepted, or the old vector happened to be the queue |
| HttpOutput.Response.EventsOut | src/core_server.c:445-514 | sends exactly a prefix of the vector to resume from, whatever that is, and advances it, the total and the file position; a vector that refers to the rest of the queue keeps doing so |
| HttpOutput.Response.Drive | src/core_server.c:445-514 | after any sequence of events the state is the one that the events amount to, and sent and remaining bytes make up the queue |
| HttpOutput.Response.DriveStale | src/core_server.c:445-514 | from any other vector only that vector's bytes are sent |
| HttpOutput.Respond | src/core_http.c:79-173 | the whole path from queueing to the last event: over at once exactly if all is accepted or on an error; resumed correctly if something was accepted; otherwise only stale bytes are sent |
| HttpOutput.NothingSent | src/core_http.c:144-166 | with an empty stale vector and a first `writev` of 0 bytes nothing is ever sent |
| HttpOutput.StaleSent | src/core_http.c:144-166 | with another stale vector its byte is sent for the answer, and the request is ended |

## Left out

- Huge allocations: `Ipalloc` reports them and stops; requests of a session that need one fail.
- The operating system: mapping, decommitting and page files; a chunk is a number that the system may supply, and nothing is said about the addresses it prefers.
- Locks and several arenas: the model is one arena under its lock, so the branch for a race in `libs/jemalloc/jemalloc.c:3554-3559` does not arise.
- Memory contents: zero filling, junk filling, the ZEROED flag's meaning and the copy made when a block moves.
- Overflow of 64-bit sizes: sizes are unbounded integers, so the overflow checks of `ipalloc` have nothing to do.
- Storage of the trees' nodes: a tree's nodes are named by their rank, and a chunk's map is a value in the arena's fields, so nodes of one tree cannot alias those of another.
- RunLayout.RunSizeCalc: that the overhead target is met is not stated, because the search keeps the layout before the one that meets it.
- The reverse iteration, `rb_next`, `rb_prev` and iteration with changes on the way: variants of what is modelled.
- Statistics, Valgrind hooks and debugging magic numbers.
- BsonBuilders.Builder.Append: code with scope and copied elements are not modelled, as they add no new kind of length; doubles and 64-bit integers are bit patterns.
- BsonBuilders.Builder.StartNested: what a write outside the buffer or the stack does to other memory; the ghost flag `wild` records that it happened, for the 33rd nested part, for finishing a part that is not open and for missing room.
- BsonBuilders.Builder.EnsureSpace: a product that does not fit an `int` becomes the least `int` and sums wrap around, as is usual; the C standard leaves both open.
- Md5s.Md5.Append: pieces for which offset and length do not sum up to an `int`.
- The rounds of MD5 and SHA-1: the block function is a parameter, so the digest's bytes are those of its state.
- The database behind GridFS: an ideal store that keeps each chunk; files of 2^49 bytes or more, whose chunk numbers do not fit an `int`.
- The event loop, header generation and the immediate `sendfile` of the HTTP server: only the vector, its total and the file range are followed.
- Templates, configuration, request parsing, caching, captcha images, buffers and pools: foreign libraries, I/O or easy members.
