# A model of cuw3

cuw3 is a lock-free arena allocator. Threads allocate from arenas that they own, free memory that other threads own by
*retiring* it, and take arenas from, and return them to, pools of fixed-size chunks that all threads share. This
project models the parts of it that hold hard invariants, in Dafny, and proves what those parts promise.

Everything concurrent is a step system: one load, store, compare-and-swap, exchange or fetch-and-add of a shared word
is one step, any number of threads interleave freely, and each thread has its own registers. Fields named as history
record what a run has done so far; no step reads them. Everything else that the source updates in place is a class
whose methods are proved against specifications. The checks that abort the program in the source are conditions here:
a step or method either has the condition as its guard, or reports the abort, and the results say when it can be
reached.

## The parts

**Retire and reclaim** (`RetireProtocol`, `RetireInvariant`, `RetireSafety`, `RetireProgress`, `RetireDrain`,
`RetireExamples`, `PackedWords`, `Arenas`). Threads add freed bytes to a packed (count, flag) word of the arena; the
one that raises the flag pushes the arena on the owner's list; the owner takes the list by a plain exchange, then
exchanges each arena's count away and folds it into `freed`. Byte conservation, exactly-once listing and "never hand
back an arena that somebody still touches" need each other, so they are one invariant, kept by every step. A retire
ends only after its bytes were counted, and the arena listed if it raised the flag. Arena names are addresses: an
arena that was handed back may be created again under its name.

**The step-split index** (`StepSplit`, `Words`, `Bitmaps`, `StepSplitEntry`, `StepSplitBins`, `StepSplitIndex`,
`StepSplitAllocator`, `StepSplitExamples`). Arenas are filed by rounding their remaining size down to a bin, requests
looked up by rounding up. The two locators are shown to be the two adjoints of the bins' lower bounds, in 64-bit
arithmetic with its wrap-around. Above them stand the bitmap, word by word under masks; one alignment's lists, bits
and cached arena; all alignments with the count of stored arenas; and the owner's allocator operations.

**Region chunk pools** (`PoolProtocol`, `PoolSafety`, `PoolProgress`, `RegionLayout`, `RegionPools`, `RegionCounts`,
`RegionSafety`, `RegionExhaustion`). Each split of a region has a versioned free list in front of an overshooting
counter. The step system is proved to refine a sequence despite stale reads of links; the address layout is inverted,
also on its shift path; and both together give that no two clients ever hold overlapping memory. Run by one thread
alone, an allocation fails only when everything is held.

**Push-snatch list and graveyard** (`SkipList`, `Graveyard`, `GraveyardSafety`, `GraveyardProgress`). A list whose
nodes hint at later nodes, so that a whole list can be pushed in front of a shared queue. Nodes that only one thread
can reach are worked on in one step.

**Intrusive lists and small bins** (`IntrusiveList`, `DisjointLists`, `SmallBins`, `SmallIndex`). The circular doubly
linked lists as relinked nodes on the heap, the small-arena bin built on four places that an arena can be in, and all
alignments' bins with the count of stored arenas.

`Powers`, `Owners` and `Wrappers` hold shared arithmetic, ownership maps and result types.

## Where the code does not keep its own promises

The code is modelled as it is. Where a promise fails, the project shows an input for which it does and states when it
holds.

- `retire_allocation` adds the size the client asked for to the pending count, not the aligned size it computes three
  lines earlier (`cuw3/include/cuw3/fast_arena.hpp:226-234`), while `release_reclaimed` demands an aligned amount.
  Whatever sizes are retired, memory stays disjoint and no arena is handed back early; but misaligned sizes leak or
  abort the owner (`MisalignedRetireAborts`, `FoldAbortsIff`, `ByteConservation`, `ReclaimAll`).
- `construct_arena_` creates arenas with the retired flag already up (`cuw3/include/cuw3/allocator.hpp:237`), so that
  the first retiring thread never pushes them: such an arena never comes back once another thread retired bytes of it
  (`BornRetiredIsNeverListed`, `BornRetiredStaysStuck`, `BornRetiredIsLost`). The tests create arenas with the flag
  down (`tests/test_fast_arena_allocator.cpp:407-413`), for which everything holds.
- `FastArenaBinsInfo::create` accepts configurations in which a shift overflows on large requests, which are then
  looked up too low (`ExactlyWhen`, `ExactForArenas`, `LargestRequestMisplaced`). Arenas beyond the wrap size are
  filed too low, so they serve, but may not be found (`AdjointRange`, `ArenaFloor`). The raw arena locator also
  misplaces an arena without room when the smallest step is one byte (`EmptyArenaMisfiled`); the clamped one, by which
  arenas are filed, does not do so for any alignment that an arena can have.
- `acquire_arena` takes alignments below the least supported one, but aligns the size to the requested alignment only.
  The cached arena is asked for that size by `can_allocate_aligned`, which aborts on a size that is not a multiple of
  the arena's alignment (`cuw3/include/cuw3/fast_arena.hpp:178-179`). `allocate` passes such alignments on
  (`cuw3/include/cuw3/allocator.hpp:358-367`). ArenaIndex.Acquire says exactly when it happens, `MisalignedBelowLeast`
  that only such alignments are concerned, and `OneByteAborts` shows it for every usual configuration.
- `RegionChunkAllocatorSpecs::create` cuts counts to 32 bits unchecked (`StoredExactlyWhen`, `TooManyChunks`). The
  bounds of the splits are right whenever the counts are (`ExactWhen`). With 0xFFFFFFFF chunks the answer "failed" is
  taken for a handle (`AnswersToldApart`, `ManyRegionsMistaken`), but that takes 32 regions (`FewRegionsToldApart`),
  and `CUW3_MAX_REGION_SIZES` is 8.
- `next_split` lets a step of 0 pass, with which one split is tried again and again (`ReachesAllWhenOdd`,
  `ZeroStepMissesChunk`).

## Model

| member | source | states |
|---|---|---|
| RetireSafety.ExactlyOnce | cuw3/include/cuw3/fast_arena_step_split_allocator.hpp:846-889 | In every reachable state an arena created with its flag down has the flag up exactly when it is on the shared list, or in the snatched list, or popped and not yet exchanged, or being pushed by one thread; the four exclude each other and the lists repeat nothing, so an arena is listed at most once and its `next` has one writer |
| RetireSafety.ByteConservation | cuw3/include/cuw3/fast_arena.hpp:104-143 | In every reachable state freed + pending + owner's hand + aligned live bytes + leak == top <= capacity, and the leak is zero exactly when every size retired on the arena was a multiple of its alignment |
| RetireSafety.LiveBlocksDisjoint | cuw3/include/cuw3/fast_arena.hpp:104-118 | In every reachable state live blocks lie inside their arena and never overlap, whatever was retired in between and whatever flags arenas started with |
| RetireSafety.NoPrematureReturn | cuw3/include/cuw3/fast_arena_step_split_allocator.hpp:823-841 | A step hands an arena back only when nothing of it is live (but the block a deallocate is itself giving back), nothing is pending, its flag is down unless it was created with it up, it is on no list, and no thread is inside retire with it |
| RetireSafety.ReturnedIsUnreachable | cuw3/include/cuw3/fast_arena_step_split_allocator.hpp:875-889 | After the return no list, no link of a listed arena, no retiring thread and not the owner refers to the arena |
| RetireSafety.HowReturned | cuw3/include/cuw3/fast_arena_step_split_allocator.hpp:823-889 | Arenas leave only through the owner's deallocate or the end of reclaim_arena |
| RetireSafety.ExchangeLosesNothing | cuw3/include/cuw3/retire_reclaim.hpp:132-158 | In every reachable state the links from the root spell the arenas pushed and not yet snatched, newest first; each push is there or was handed to the reclaimer, once and in order; the root's flag stays up |
| RetireSafety.ReclaimTakesAll | cuw3/include/cuw3/retire_reclaim.hpp:147-158 | One reclaim of the root hands the owner exactly the list then chained from it, leaves the root empty and flagged, and touches no arena's word or link |
| RetireSafety.NextPreserves | cuw3/include/cuw3/retire_reclaim.hpp:199-225 | Every step of the owner and of any retiring thread keeps byte conservation, exclusive ownership of links, and both lists, as one invariant; what a retire has achieved when it ends is RetireProgress.RetireCompletes |
| RetireSafety.ReachableInv | cuw3/include/cuw3/retire_reclaim.hpp:147-225 | That invariant in every state of every run, for any number of threads |
| RetireSafety.PendingOnlyGrows | cuw3/include/cuw3/retire_reclaim.hpp:164-225 | The pending count of an arena never falls except by reclaim_arena's exchange on that arena |
| RetireSafety.OnlyMisalignedRetiresAbort | cuw3/include/cuw3/fast_arena.hpp:120-127 | The one abort that a reachable state can show is the alignment check of release_reclaimed, and then a misaligned size was retired on that arena |
| RetireSafety.FoldAbortsIff | cuw3/include/cuw3/fast_arena.hpp:120-127 | Folding aborts if and only if the amount exchanged out is not a multiple of the arena's alignment; "freed more than allocated" never fires |
| RetireSafety.PackedCountIsExact | cuw3/include/cuw3/retire_reclaim.hpp:213-225 | The count shifted past the flag bit never overflows: the packed word of every reachable state reads back exactly, for arenas below half the address space |
| RetireSafety.BornRetiredIsNeverListed | cuw3/include/cuw3/allocator.hpp:237-237 | An arena created with its flag up is never pushed, listed or reclaimed, in any reachable state |
| RetireSafety.BornRetiredIsStuck | cuw3/include/cuw3/allocator.hpp:237-237 | Once bytes of such an arena are retired, no step returns it or lowers its pending count |
| RetireExamples.MisalignedRetireAborts | cuw3/include/cuw3/fast_arena.hpp:226-234 | A reachable run in which a client that keeps every rule retires 8 bytes of a 16-byte slot and the owner's next step aborts |
| RetireDrain.ReclaimAll | cuw3/include/cuw3/fast_arena_step_split_allocator.hpp:865-899 | A full reclaim pass over a quiescent allocator returns every arena without aborting if and only if every stored arena was created with its flag down and had only multiples of its alignment retired; and it returns no other |
| PackedWords.PackRoundTrip | cuw3/include/cuw3/ptr.hpp:22-47 | A value and flags come back from a packed word, the value exactly when it fits above the flag bits |
| PackedWords.PointerRoundTrip | cuw3/include/cuw3/ptr.hpp:60-83 | A pointer aligned past the flag bits and its flags come back from a packed pointer |
| Arenas.AcquireSpec | cuw3/include/cuw3/fast_arena.hpp:104-118 | acquire succeeds exactly when can_allocate says so; the block starts aligned, lies above everything handed out before and ends inside the arena |
| Arenas.CreateValid | cuw3/include/cuw3/fast_arena.hpp:70-97 | A created arena is empty and aligned throughout, and its alignment is a power of two of at least 16 |
| Arenas.FastArena.Acquire | cuw3/include/cuw3/fast_arena.hpp:104-118 | Updates `top` as the specification of acquire says, or changes nothing |
| Arenas.FastArena.Release | cuw3/include/cuw3/fast_arena.hpp:129-143 | Credits the aligned size, or reports the abort exactly where the source checks for one, changing nothing |
| Arenas.FastArena.ReleaseReclaimed | cuw3/include/cuw3/fast_arena.hpp:120-127 | Credits a reclaimed count, or reports the abort exactly where the source checks for one |
| Arenas.FastArena.Reset | cuw3/include/cuw3/fast_arena.hpp:145-152 | Leaves a resettable arena empty |
| StepSplit.ArenaAdjoint | cuw3/include/cuw3/fast_arena_step_split_allocator.hpp:213-231 | Filing is the upper adjoint of the bins' lower bounds: an arena is in bin b or above iff it has at least the lower bound of b left, with the zero step, denormalised splits and the overflow bin included, in 64-bit arithmetic |
| StepSplit.SizeAdjoint | cuw3/include/cuw3/fast_arena_step_split_allocator.hpp:213-231 | Looking up is the lower adjoint: a request is looked up at bin b or below iff the lower bound of b is enough for it |
| StepSplit.LookupIsSound | cuw3/include/cuw3/fast_arena_step_split_allocator.hpp:282-288 | An arena is at or above the bin of a request iff it has that bin's lower bound left, and then it is large enough |
| StepSplit.ArenaBracket | cuw3/include/cuw3/fast_arena_step_split_allocator.hpp:286-288 | The arena locator stays within the bins and names the last bin whose lower bound the arena still reaches |
| StepSplit.SizeBracket | cuw3/include/cuw3/fast_arena_step_split_allocator.hpp:282-284 | The size locator stays within the bins and names the first bin whose lower bound covers the request |
| StepSplit.LeastRises | cuw3/include/cuw3/fast_arena_step_split_allocator.hpp:195-211 | The lower bounds that bin numbers translate to rise strictly |
| StepSplit.AdjointRange | cuw3/include/cuw3/fast_arena_step_split_allocator.hpp:145-231 | The raw arena locator is right for all remaining sizes up to R iff the smallest step exceeds one byte and R is below the least size whose 64-bit shift loses bits, which is given for every configuration; create() checks neither |
| StepSplit.EmptyArenaMisfiled | cuw3/include/cuw3/fast_arena_step_split_allocator.hpp:213-231 | With a one-byte smallest step the raw locator puts an exhausted arena into bin 2, whose lower bound is 2; for what the clamped locator makes of that see ExactlyWhen |
| StepSplit.WrappedArenaMisfiled | cuw3/include/cuw3/fast_arena_step_split_allocator.hpp:213-231 | An arena of exactly the wrap size is located below a bin whose lower bound it reaches |
| StepSplit.RequestRange | cuw3/include/cuw3/fast_arena_step_split_allocator.hpp:213-231 | Every request up to the largest size is looked up at a bin that covers it iff maxLog2 + splitsLog2 < 64 |
| StepSplit.LargestRequestMisplaced | cuw3/include/cuw3/fast_arena_step_split_allocator.hpp:213-231 | When that fails the largest request is looked up at a bin with a smaller lower bound |
| StepSplit.BoundOfInfo | cuw3/include/cuw3/fast_arena_step_split_allocator.hpp:127-143 | get_step_split_size reads the same from a located position, denormalised or not, as from the bin it names |
| StepSplitBins.LookupServes | cuw3/include/cuw3/fast_arena_step_split_allocator.hpp:290-313 | The clamped locators, for every arena and request: an arena filed at or above the bin of a request serves it and has the alignment's smallest allocation left; below the wrap size one filed lower has less than that bin's lower bound; that the bin is the least to look in is LookupLeast |
| StepSplitBins.FirstBin | cuw3/include/cuw3/fast_arena_step_split_allocator.hpp:183-190 | For every alignment the first usable bin is positive and in range, and its lower bound, which create() stores as min_alloc_size, holds a block of that alignment; it lies above bin 2 wherever that matters exactly under the condition Exact |
| StepSplitEntry.Entry.AcquireCached | cuw3/include/cuw3/fast_arena_step_split_allocator.hpp:384-395 | Takes the cached arena iff it has the room, for a size that is a multiple of its alignment; with a cached arena any other size aborts |
| StepSplitEntry.Entry.AcquireBin | cuw3/include/cuw3/fast_arena_step_split_allocator.hpp:397-418 | Takes the head of the lowest non-empty bin at or above the given one, keeping lists, bits and links in step, or nothing when every listed arena is in a lower bin |
| StepSplitEntry.Entry.TryUpdateCached | cuw3/include/cuw3/fast_arena_step_split_allocator.hpp:420-438 | Keeps the offered arena if none is cached or it has twice the room, and returns the one left over |
| StepSplitEntry.Entry.Put | cuw3/include/cuw3/fast_arena_step_split_allocator.hpp:440-454 | Files the arena at the head of exactly that bin, and a bit is set exactly when its list is not empty |
| StepSplitEntry.Entry.TryExtractCached | cuw3/include/cuw3/fast_arena_step_split_allocator.hpp:456-464 | Clears the cached arena iff it is the given one |
| StepSplitEntry.Entry.TryExtractBin | cuw3/include/cuw3/fast_arena_step_split_allocator.hpp:466-480 | Takes the arena out of its bin and clears the bit exactly when the list becomes empty; answers no, and changes nothing, exactly for an arena in no list |
| StepSplitBins.Bins.AcquireFromBins | cuw3/include/cuw3/fast_arena_step_split_allocator.hpp:541-547 | What is taken from the bins has the room and at least min_alloc_size, so that check never fires; no binned arena below the wrap size is missed that reaches the lower bound of any usable bin whose lower bound covers the request; and no arena that could have been taken is smaller, as far as the bins tell sizes apart |
| StepSplitBins.Bins.Acquire | cuw3/include/cuw3/fast_arena_step_split_allocator.hpp:577-604 | Aborts iff there is a cached arena and the size is not a multiple of the alignment; otherwise sound for every arena, and nearly complete: the cached arena is preferred; an arena handed out has the room, and from the bins fits best; none is handed out only if the cached one is too small and every binned one below the wrap size reaches no usable bin's lower bound that covers the request |
| StepSplitBins.Bins.Release | cuw3/include/cuw3/fast_arena_step_split_allocator.hpp:558-575 | The arena becomes the cached one exactly if none was or it has twice the room; the one left over is filed in the bin that its remaining size locates |
| StepSplitBins.Bins.Extract | cuw3/include/cuw3/fast_arena_step_split_allocator.hpp:685-707 | A stored arena is the cached one or in the bin its remaining size locates, so it is found |
| StepSplitIndex.AcceptedNeverFails | cuw3/include/cuw3/fast_arena_step_split_allocator.hpp:145-192 | Once the configuration passes the checks of create(), no later check on an alignment's entry can fail, except, exactly, for an alignment below the smallest step with alignLog2 + splitsLog2 >= 64 |
| StepSplitIndex.ArenaIndex.constructor | cuw3/include/cuw3/fast_arena_step_split_allocator.hpp:510-530 | An accepted configuration yields an empty index whose entries share nothing |
| StepSplitIndex.ArenaIndex.Acquire | cuw3/include/cuw3/fast_arena_step_split_allocator.hpp:644-664 | Fails exactly on unsupported requests; aborts exactly on a supported request that reaches an entry with a cached arena and whose aligned size is not a multiple of the least supported alignment; an arena handed out leaves the index and takes the request as the arena itself will align it; otherwise each arena of the alignment is too small for the request, or beyond the wrap size, or below the lower bound of every bin that covers it; total_arenas stays the number stored |
| StepSplitIndex.ArenaIndex.Release | cuw3/include/cuw3/fast_arena_step_split_allocator.hpp:666-681 | Adds exactly this arena, to the entry of its alignment, for any sequence of operations before; it becomes the cached one exactly if there was none or it has at least twice the room |
| StepSplitIndex.ArenaIndex.Extract | cuw3/include/cuw3/fast_arena_step_split_allocator.hpp:683-707 | Removes exactly this arena from wherever it is stored; the abort at the end is unreachable |
| StepSplitAllocator.Allocator.AcquireArena | cuw3/include/cuw3/fast_arena_step_split_allocator.hpp:793-796 | What it hands out is ready for the allocation it was asked for, has the room and leaves the allocator; it fails and aborts as the index does |
| StepSplitAllocator.Allocator.Allocate | cuw3/include/cuw3/fast_arena_step_split_allocator.hpp:804-818 | Hands out the next block of a ready arena and files it; no stored arena is ever resettable |
| StepSplitAllocator.Allocator.Deallocate | cuw3/include/cuw3/fast_arena_step_split_allocator.hpp:820-841 | Aborts exactly on an empty block and on one that the counters show cannot be out; hands the arena back, reset and out of the bins, iff this was its last block out; otherwise only the count of freed bytes changes |
| StepSplitAllocator.Allocator.ReclaimArena | cuw3/include/cuw3/fast_arena_step_split_allocator.hpp:874-889 | Aborts exactly on a count that is misaligned or too large; hands the arena back, reset, iff the reclaimed bytes make it resettable, and files it again otherwise |
| Words.AlignIsMask | cuw3/include/cuw3/funcs.hpp:96-100 | The mask form of align rounds up to the least multiple, when adding the alignment does not overflow the word |
| Words.AlignDownIsMask | cuw3/include/cuw3/funcs.hpp:102-106 | The mask form of align_down rounds down to a multiple |
| Words.ModIsMask | cuw3/include/cuw3/funcs.hpp:69-72 | The mask form of modpow2 is the remainder |
| Words.BitmaskBit | cuw3/include/cuw3/funcs.hpp:115-125 | The four shifts of bitmask set exactly the bits of [first, last) |
| Powers.AlignLeast | cuw3/include/cuw3/funcs.hpp:96-100 | align never rounds past a multiple |
| Powers.AlignProperties | cuw3/include/cuw3/funcs.hpp:96-100 | align rounds up by less than the alignment, to a multiple, and moves nothing that is one |
| Powers.Log2Unique | cuw3/include/cuw3/funcs.hpp:32-38 | intlog2 is the only exponent whose power brackets the value |
| Bitmaps.Bitmap.Reset | cuw3/include/cuw3/bitmap.hpp:30-34 | Empties the set |
| Bitmaps.Bitmap.Set | cuw3/include/cuw3/bitmap.hpp:18-22 | Adds exactly one member to the set the words stand for |
| Bitmaps.Bitmap.Unset | cuw3/include/cuw3/bitmap.hpp:24-28 | Removes exactly one member |
| Bitmaps.Bitmap.Get | cuw3/include/cuw3/bitmap.hpp:36-40 | Membership |
| Bitmaps.Bitmap.AnySet | cuw3/include/cuw3/bitmap.hpp:42-56 | Whether there is a member at or above start |
| Bitmaps.Bitmap.GetFirstSet | cuw3/include/cuw3/bitmap.hpp:81-96 | The least member at or above start, or the capacity if there is none, for any capacity and word width |
| Bitmaps.Bitmap.GetLastSet | cuw3/include/cuw3/bitmap.hpp:145-160 | The greatest member at or above start, or the capacity |
| Bitmaps.Bitmap.SetFirstUnset | cuw3/include/cuw3/bitmap.hpp:63-79 | Adds and returns the least non-member at or above start, or changes nothing when there is none |
| Bitmaps.Bitmap.CountFrom | cuw3/include/cuw3/bitmap.hpp:98-111 | The number of members at or above start |
| Bitmaps.Bitmap.SampleSetBit | cuw3/include/cuw3/bitmap.hpp:113-143 | The (seed mod count)-th member at or above start; the abort at its end is unreachable |
| PoolSafety.PopReadIsCurrent | cuw3/include/cuw3/atomic.hpp:96-111 | When a pop's exchange is going to succeed, the next link it read, however long ago, is the true successor of the head |
| PoolSafety.ListRefinesSequence | cuw3/include/cuw3/atomic.hpp:76-111 | In every interleaving a successful pop removes and returns the head of a sequence, a successful push puts its handle in front, nothing else changes it, and the links always spell it without a cycle |
| PoolSafety.HandleConservation | cuw3/include/cuw3/region_chunk_allocator.hpp:351-378 | In every reachable state each handle of a pool is in exactly one place: not yet bumped, on the free list once, with a client, or in the hands of one pushing thread |
| PoolSafety.GrantedIsFree | cuw3/include/cuw3/region_chunk_allocator.hpp:521-549 | A handle that an allocation returns was nobody's |
| PoolSafety.AnswerMeaning | cuw3/include/cuw3/atomic.hpp:96-156 | What each finished call means: a handle that was free is now held, null only when every index was handed out, op_failed only at the top of the loop, a finished push makes its handle free; when op_failed comes is PoolProgress.FailsAfterItsAttempts |
| PoolSafety.BumpBounds | cuw3/include/cuw3/atomic.hpp:141-156 | The counter stays at or above its first index; once at the limit it exceeds it by exactly the number of threads that have yet to undo their increment |
| PoolSafety.BumpOnce | cuw3/include/cuw3/atomic.hpp:141-156 | Each index is handed out at most once and in order, and null only after the last |
| PoolSafety.ReachableInv | cuw3/include/cuw3/atomic.hpp:76-156 | List, counter and holders keep one invariant in every state of every run, for any number of threads |
| RegionLayout.ChunksFill | cuw3/include/cuw3/region_chunk_allocator.hpp:137-160 | The chunks of a region that has any fill it exactly, because region sizes are powers of two |
| RegionLayout.LocationUnique | cuw3/include/cuw3/region_chunk_allocator.hpp:171-179 | Regions and chunks partition the addresses: an offset lies in one chunk at most |
| RegionLayout.HandleUnique | cuw3/include/cuw3/region_chunk_allocator.hpp:137-160 | Chunks and handles are in bijection |
| RegionLayout.StoredExactlyWhen | cuw3/include/cuw3/region_chunk_allocator.hpp:137-165 | The 32-bit fields of create() hold the true counts and offsets iff all chunks together number less than 2^32 |
| RegionLayout.EqualRegions | cuw3/include/cuw3/region_chunk_allocator.hpp:181-186 | When all regions are equal the shift finds the same region as the search |
| RegionLayout.Specs.constructor | cuw3/include/cuw3/region_chunk_allocator.hpp:110-168 | The loop of create() tabulates offsets, handles and sentinels of every region |
| RegionLayout.Specs.SearchHostingRegion | cuw3/include/cuw3/region_chunk_allocator.hpp:198-205 | Finds the one region that hosts an offset, and none only past the end |
| RegionLayout.Specs.LocateChunk | cuw3/include/cuw3/region_chunk_allocator.hpp:216-221 | By shift or by search, finds the chunk that an offset lies in, and aborts only in a region without chunks |
| RegionPools.SplitUnique | cuw3/include/cuw3/region_chunk_allocator.hpp:311-328 | The splits of a region partition its handles |
| RegionPools.SplitsCover | cuw3/include/cuw3/region_chunk_allocator.hpp:311-328 | The last split ends at the region's last handle |
| RegionPools.SplitsStoredExactlyWhen | cuw3/include/cuw3/region_chunk_allocator.hpp:312-316 | For any number of handles, the 32-bit split bounds are right iff the rounded-up count fits in 32 bits; otherwise the last handles are in no split |
| RegionPools.Pools.constructor | cuw3/include/cuw3/region_chunk_allocator.hpp:296-330 | The nested loops of create() give every split of every region its range |
| RegionPools.Pools.SearchPoolSplit | cuw3/include/cuw3/region_chunk_allocator.hpp:339-348 | Finds the one split whose range has the handle |
| RegionPools.PtrToAllocation | cuw3/include/cuw3/region_chunk_allocator.hpp:631-641 | The address round trip: wherever in an allocated chunk a pointer points, it recovers that chunk's region, index, handle and split; null exactly outside of all regions, and the abort exactly in a region without chunks |
| RegionSafety.ReachableInv | cuw3/include/cuw3/region_chunk_allocator.hpp:351-378 | All pools of all regions at once keep the pool invariant over the ranges that create() gave them |
| RegionSafety.ChunksDisjoint | cuw3/include/cuw3/region_chunk_allocator.hpp:501-519 | Two handles, in whatever pools, stand for a common byte only if they are the same handle |
| RegionSafety.GrantedOverlapsNobody | cuw3/include/cuw3/region_chunk_allocator.hpp:521-549 | The memory that allocate_chunk hands out overlaps no chunk that any client has or any thread is putting back |
| RegionExhaustion.VisitsAll | cuw3/include/cuw3/region_chunk_allocator.hpp:333-337 | With an odd step every split is reached within as many steps as there are splits |
| RegionExhaustion.ReachesAllWhenOdd | cuw3/include/cuw3/region_chunk_allocator.hpp:332-337 | All splits are reached iff the step is odd or there is only one split |
| RegionExhaustion.AloneMeaning | cuw3/include/cuw3/region_chunk_allocator.hpp:351-368 | Run alone, the pool protocol returns the head of the free list or else the next index, which nobody held, and null iff all handles of the pool are held |
| RegionExhaustion.AllocateOnce | cuw3/include/cuw3/region_chunk_allocator.hpp:521-549 | One round, with any step that next_split lets pass, tries exactly the splits that the step reaches from the start, in that order: a chunk comes from the first that is not exhausted, and nothing comes back only if all of these are |
| RegionExhaustion.AllocateChunk | cuw3/include/cuw3/region_chunk_allocator.hpp:643-665 | Run alone, null iff there are no rounds or every split that the step reaches is exhausted; otherwise exactly one chunk that nobody held is now held, also when the rounds are unlimited |
| SkipList.Nodes.GetTail | cuw3/include/cuw3/atomic.hpp:237-247 | Following hints from the head ends, and ends at the last node |
| SkipList.Nodes.Bite | cuw3/include/cuw3/atomic.hpp:249-273 | Cuts a list after n nodes, where n is at least one and no more than the amount unless that is 0, and less than the amount only if there are no more; both parts are lists with valid links and hints, and the nodes of the first all hint at its last |
| SkipList.BiteKeeps | cuw3/include/cuw3/atomic.hpp:249-273 | Cutting and re-pointing leaves two lists whose hints never lead back or out |
| SkipList.SkipMovesOn | cuw3/include/cuw3/atomic.hpp:227-235 | get_skip moves strictly on in the list, as far as the hint leads, except at the tail, where it stays |
| GraveyardSafety.SettlesAtTail | cuw3/include/cuw3/atomic.hpp:237-247 | Hint-following comes to rest at a node iff it is the last one |
| GraveyardSafety.StepKeeps | cuw3/include/cuw3/atomic.hpp:275-315 | Every step of any thread keeps all lists linked, all hints leading ahead and every entry in its one place |
| GraveyardSafety.ReachableInv | cuw3/include/cuw3/thread_graveyard.hpp:259-281 | That invariant in every state of every run, for any number of threads |
| GraveyardSafety.OnePlace | cuw3/include/cuw3/thread_graveyard.hpp:259-330 | In every reachable state an entry is in the shared queue, in one thread's private list, or held by one thread of the system, and in no list twice; none is ever lost |
| GraveyardSafety.HeldStays | cuw3/include/cuw3/thread_graveyard.hpp:305-330 | A held entry stays with its holder until the holder puts it back |
| GraveyardSafety.QueueIsSequence | cuw3/include/cuw3/atomic.hpp:275-308 | Push puts a whole list in front of the queue, the exchange of a snatch takes all of it, no other step changes it, and its head is null iff it is empty; a head that was away in between does no harm; when a snatch gets to its exchange is GraveyardProgress.LookSeesEmpty |
| GraveyardSafety.AcquireTakesFirst | cuw3/include/cuw3/thread_graveyard.hpp:259-272 | The acquired entry is the first of the snatched list and its acquirer is its only holder; the rest is what is pushed back |
| GraveyardSafety.PushFindsTail | cuw3/include/cuw3/atomic.hpp:275-294 | A push always finds its tail, and it is the last node of the pushed list |
| IntrusiveList.InsertAfter | cuw3/include/cuw3/list.hpp:84-97 | Puts a node right behind another, in place, whichever node of the ring that is |
| IntrusiveList.InsertBefore | cuw3/include/cuw3/list.hpp:99-102 | Puts a node right before another |
| IntrusiveList.Erase | cuw3/include/cuw3/list.hpp:106-118 | Takes a node out of its ring knowing only the node; the order of the others stays |
| IntrusiveList.PushHead | cuw3/include/cuw3/list.hpp:120-124 | Prepends |
| IntrusiveList.PushTail | cuw3/include/cuw3/list.hpp:126-130 | Appends |
| IntrusiveList.PopHead | cuw3/include/cuw3/list.hpp:132-139 | Removes the head, or returns the terminator of an empty list |
| IntrusiveList.PopTail | cuw3/include/cuw3/list.hpp:141-148 | Removes the last node, or returns the terminator of an empty list |
| IntrusiveList.InsertChainAfter | cuw3/include/cuw3/list.hpp:150-165 | Moves all nodes of another list in, in order, and leaves that list empty |
| IntrusiveList.InsertChainBefore | cuw3/include/cuw3/list.hpp:167-170 | The same before a node |
| IntrusiveList.Empty | cuw3/include/cuw3/list.hpp:77-82 | A node references itself exactly when it is alone in its ring |
| IntrusiveList.Rotate | cuw3/include/cuw3/list.hpp:17-25 | A ring reads the same from each of its nodes, so any node may serve as terminator |
| DisjointLists.Lists.Erase | cuw3/include/cuw3/fast_arena_small_allocator.hpp:106-116 | Erasing by node alone removes it from whichever of several disjoint lists holds it and leaves the others as they were |
| SmallBins.CutoffIsAligned | cuw3/include/cuw3/fast_arena_small_allocator.hpp:145-145 | The aligned cutoff is a multiple of every supported alignment |
| SmallBins.SmallBin.AcquireFree | cuw3/include/cuw3/fast_arena_small_allocator.hpp:50-54 | Any arena of the free list serves any request up to the cutoff |
| SmallBins.SmallBin.Acquire | cuw3/include/cuw3/fast_arena_small_allocator.hpp:34-73 | An acquired arena always fits; it is the current one if that fits, else the first free one, else the first cutoff one if that fits; none is handed out only if neither the current arena nor the one cutoff arena tried fits and the free list is empty; arenas only move between the four places |
| SmallBins.SmallBin.Release | cuw3/include/cuw3/fast_arena_small_allocator.hpp:75-104 | The arena becomes the current one exactly if none was or it has more than twice the room, and the one left over goes to the head of the free or the cutoff list as its remaining size says |
| SmallBins.SmallBin.Extract | cuw3/include/cuw3/fast_arena_small_allocator.hpp:106-116 | A stored arena is taken out of wherever it is, through its node alone |
| GraveyardSafety.NeverStuck | cuw3/include/cuw3/atomic.hpp:275-315 | Whatever a thread is about to do in any reachable state, the nodes it reads and writes exist |
| PoolSafety.WorkerPreserves | cuw3/include/cuw3/region_chunk_allocator.hpp:465-483 | No step of a worker is ever barred by the link checks of the source, and each keeps the pool invariant |
| SmallIndex.BinIndex.constructor | cuw3/include/cuw3/fast_arena_small_allocator.hpp:135-161 | One empty bin per supported alignment; the common cutoff is the configured one rounded up to the largest alignment, and no two bins share a list or a terminator |
| SmallIndex.BinIndex.Acquire | cuw3/include/cuw3/fast_arena_small_allocator.hpp:262-283 | Fails exactly for an alignment beyond the largest or a size beyond the cutoff; an arena handed out comes from the bin of the requested alignment, leaves the index and passes its own allocation check; none comes out only with an empty free list and a current arena that is too full. In every case total_arenas stays the number of arenas stored |
| SmallIndex.BinIndex.Release | cuw3/include/cuw3/fast_arena_small_allocator.hpp:184-189 | The arena is added to the bin of its own alignment, whatever the others hold, and counted |
| SmallIndex.BinIndex.Extract | cuw3/include/cuw3/fast_arena_small_allocator.hpp:191-198 | Any stored arena is taken out, through its node alone, by looking only in the bin of its alignment, and the count follows |
| StepSplit.ArenaFloor | cuw3/include/cuw3/fast_arena_step_split_allocator.hpp:213-231 | Whatever an arena's size, also where the shift loses bits, it is located at a bin whose lower bound it reaches |
| StepSplitBins.ExactlyWhen | cuw3/include/cuw3/fast_arena_step_split_allocator.hpp:290-313 | The clamped locators cover every request, and find every arena below the wrap size exactly when it has the looked-up bin's lower bound, iff maxLog2 + splitsLog2 < 64 and the smallest step exceeds one byte or the alignment is 4 or more |
| StepSplitBins.ExactForArenas | cuw3/include/cuw3/fast_arena.hpp:76-76 | For the alignments that arenas can have, 16 and up, that is iff maxLog2 + splitsLog2 < 64 |
| RetireSafety.BornRetiredStaysStuck | cuw3/include/cuw3/allocator.hpp:237-237 | For the rest of every run: an arena that was created with its flag up, and of which bytes were retired, is there with at least those bytes pending |
| RetireExamples.BornRetiredIsLost | cuw3/include/cuw3/allocator.hpp:237-237 | A reachable state in which all of such an arena was given back and nobody is at work, but the arena is on no list, and whatever is done next it is still there |
| RegionExhaustion.AllocateFromRegion | cuw3/include/cuw3/region_chunk_allocator.hpp:643-665 | For the pools that create() makes for a region, with an odd step or a single split: null iff every chunk of the region is held, otherwise a chunk of the region that nobody held |
| RegionExhaustion.ZeroStepMissesChunk | cuw3/include/cuw3/region_chunk_allocator.hpp:333-337 | A region with a free chunk for which allocate_chunk, with a step of 0, answers null however many rounds it is given |
| RegionSafety.AnswersToldApart | cuw3/include/cuw3/region_chunk_allocator.hpp:521-549 | In every reachable state, the word that a pool answers is taken for a handle exactly when it is one, unless it says "failed" and there are more than 0xFFFFFFFE chunks; see FewRegionsToldApart |
| Bitmaps.SignedStart | cuw3/include/cuw3/bitmap.hpp:141-160 | The backward search may align a position below zero; it comes to the start of the word that the last bit is in |
| SmallBins.SmallBin.AcquireCurrent | cuw3/include/cuw3/fast_arena_small_allocator.hpp:36-48 | The current arena is handed out iff it fits; otherwise it is kept, or recycled when less than half the size is left |
| SmallBins.SmallBin.AcquireCutoff | cuw3/include/cuw3/fast_arena_small_allocator.hpp:56-70 | The first cutoff arena is handed out iff it fits; otherwise it is kept, or recycled |
| StepSplitIndex.EntryServes | cuw3/include/cuw3/fast_arena_step_split_allocator.hpp:272-280 | Without that abort, an arena of the entry that serves an alignment takes the request as the arena itself will align it if it has the request as first aligned |
| DisjointLists.Lists.Pop | cuw3/include/cuw3/list.hpp:132-139 | Popping one of several lists removes its head and leaves the others as they were |
| DisjointLists.Lists.Push | cuw3/include/cuw3/list.hpp:120-124 | Pushing on one of several lists prepends there and leaves the others as they were |
| StepSplitIndex.MisalignedBelowLeast | cuw3/include/cuw3/fast_arena_step_split_allocator.hpp:272-280 | Only a request for less than the least supported alignment has a size that is not a multiple of it, and such a request goes to the first entry |
| StepSplitExamples.BelowLeastAborts | cuw3/include/cuw3/fast_arena.hpp:178-185 | In every index that has no arena of the least alignment cached: once one is released into it, a supported request for a size that is not a multiple of that alignment aborts |
| StepSplitExamples.OneByteAborts | cuw3/include/cuw3/fast_arena.hpp:178-185 | For every usual configuration, an index with an arena of the least alignment and room in it, and a request of one byte at alignment 1 that aborts |
| StepSplitBins.FirstBinPositive | cuw3/include/cuw3/fast_arena_step_split_allocator.hpp:183-190 | The first usable bin of an alignment is in range, and is the recycling bin exactly when the alignment lies below the smallest step and its shift overflows |
| RegionCounts.SplitsNeverCut | cuw3/include/cuw3/region_chunk_allocator.hpp:311-320 | The split bounds that create() computes for a region are never cut short, as the number of its chunks is a power of two or zero |
| RegionCounts.ExactWhen | cuw3/include/cuw3/region_chunk_allocator.hpp:312-320 | All the stored counts and bounds are right iff all chunks together number less than 2^32 |
| RegionCounts.TooManyChunks | cuw3/include/cuw3/region_chunk_allocator.hpp:137-165 | A configuration that create() accepts, with 2^32 chunks, of which it stores none |
| RegionCounts.FewRegionsToldApart | cuw3/include/cuw3/region_chunk_allocator.hpp:114-114 | With fewer than 32 regions, and at most 8 are configured, there are never so many chunks that "failed" is taken for a handle |
| RegionCounts.ManyRegionsMistaken | cuw3/include/cuw3/region_chunk_allocator.hpp:137-165 | With 32 regions there can be |
| RegionExhaustion.NoAttemptsFail | cuw3/include/cuw3/atomic.hpp:92-111 | With no attempts an allocation fails and changes nothing, whatever there is to allocate |
| RetireProgress.CountsOrRetries | cuw3/include/cuw3/retire_reclaim.hpp:213-225 | In every reachable state, a step of a thread that has yet to count its block counts it if and only if the thread is at its exchange and saw the word as it is; then the word's count rises by exactly the block's size, the flag is up and the block is no longer live; otherwise nothing changes but that the thread has now seen the present word |
| RetireProgress.RetireCompletes | cuw3/include/cuw3/retire_reclaim.hpp:199-225 | In every run, a retire that has ended counted its block in a step of its own, and if that step found the arena's flag down the thread then chained the arena to the root |
| RetireProgress.ListsOrRetries | cuw3/include/cuw3/retire_reclaim.hpp:174-197 | A step of a thread that pushes an arena puts it in front of the queue and ends the push, if and only if the thread tries its exchange on the root it saw; otherwise the queue stays and the thread stays at its push |
| RetireProgress.RetireAlone | cuw3/include/cuw3/retire_reclaim.hpp:199-225 | From every reachable state a retire that the others let be ends within five steps: its bytes are counted, its arena is in front of the queue if it raised the flag, and nothing else changed |
| StepSplitBins.LookupLeast | cuw3/include/cuw3/fast_arena_step_split_allocator.hpp:290-298 | A usable bin is at or after the bin of a request if and only if its lower bound covers the request, so a request is never looked up too high |
| StepSplitBins.FirstBinLeast | cuw3/include/cuw3/fast_arena_step_split_allocator.hpp:183-190 | The first usable bin is the first whose lower bound covers both a block of the alignment and the least split |
| PoolProgress.FailsAfterItsAttempts | cuw3/include/cuw3/atomic.hpp:92-111 | In every run, a pop fails exactly when it is at the top of its loop and as many of its exchanges failed as it was given attempts, which for a negative number is never; and no more ever fail |
| PoolProgress.CallAlone | cuw3/include/cuw3/atomic.hpp:76-156 | From every reachable state a call that the others let be returns within five steps: a push puts its handle in front, a pop takes the handle in front or, with the list empty, the next index, and answers failed or null exactly where its place in the loop and the counter say |
| GraveyardProgress.LookSeesEmpty | cuw3/include/cuw3/atomic.hpp:300-305 | In every reachable state snatch goes on to its exchange if and only if the queue is not empty, and otherwise leaves everything as it is |
| GraveyardProgress.BiteTakesPrefix | cuw3/include/cuw3/atomic.hpp:310-316 | snatch_part keeps the first n entries of the snatched list, n as many as asked for if there are, linked and hinting at the last, held by their taker alone; the list it goes on to push is the rest |
| GraveyardProgress.PushAlone | cuw3/include/cuw3/atomic.hpp:275-294 | From every reachable state a push that the others let be ends within six steps with its list in front of the queue, the first node of which then hints at the last |
| Arenas.RoomSpec | cuw3/include/cuw3/fast_arena.hpp:104-118 | There is room exactly when an aligned block of at least the size fits between `top` and the capacity, and acquire takes the smallest such block |
| Arenas.CreateSpec | cuw3/include/cuw3/fast_arena.hpp:70-97 | An arena may be created exactly on a capacity that is a multiple of its alignment, a power of two of at least 16 |
| Arenas.LocatedIsLeast | cuw3/include/cuw3/fast_arena_step_split_allocator.hpp:272-280 | locate_alignment names the first supported alignment that is no smaller than the request's, or one past the last |
| RegionCounts.SplitsEven | cuw3/include/cuw3/region_chunk_allocator.hpp:311-320 | The splits of a region's handles are all equally large, or of one handle each until the handles run out |
| RetireProgress.AllocatedIsHeld | cuw3/include/cuw3/fast_arena_step_split_allocator.hpp:804-818 | In every reachable state an arena with room gives the client a block that was not live, without an abort, and the client may free it or retire it |
| RetireProgress.DeallocateCredits | cuw3/include/cuw3/fast_arena_step_split_allocator.hpp:823-841 | In every reachable state a free by the owner credits the aligned size without an abort, and the arena is handed back if and only if that was its last live block, nothing is pending and only multiples of its alignment were ever retired on it |
| StepSplitBins.UselessRecycled | cuw3/include/cuw3/fast_arena_step_split_allocator.hpp:290-313 | An arena with less left than the first usable bin starts at goes to bin 0; below the wrap size any other goes to a usable bin |
| PoolProgress.AllocationSucceeds | cuw3/include/cuw3/region_chunk_allocator.hpp:351-368 | In every reachable state, and wherever the other threads pause, an allocation takes the handle in front or the next index, or answers null if there is neither; its thread may then put the handle back |
| PoolProgress.FreedIsNext | cuw3/include/cuw3/region_chunk_allocator.hpp:371-379 | A thread that puts a handle back and then allocates gets that handle, and the free list is as it was |
| GraveyardProgress.EnqueueAlone | cuw3/include/cuw3/thread_graveyard.hpp:276-281 | In every reachable state an idle thread may put back an entry that it holds, which is then first in the queue if the others let it be |
| GraveyardProgress.AcquireAlone | cuw3/include/cuw3/thread_graveyard.hpp:259-272 | In every reachable state an idle thread acquires the first entry of a queue that has any, and leaves the others in order |
| RegionSafety.PoolsAsAlone | cuw3/include/cuw3/region_chunk_allocator.hpp:283-340 | Among the pools of all regions and splits, a pool is only in states that it could reach by itself, and may take every step that it could take by itself; so what PoolSafety and PoolProgress say of one pool holds of all of them at once |

## Left out

- C++ memory orders and data races: steps are sequentially consistent.
- Progress of the retry loops under contention, and backoff; what a call comes to when the others let it be is proved
  (RetireAlone, CallAlone, PushAlone).
- The 32-bit wrap-around of the free list's version, which the source itself declares unsolved, and of the bump
  counter under about 2^32 simultaneous overshoots: both are unbounded here.
- RegionExhaustion.AllocateChunk: without a limit on the rounds the source retries for ever once the splits it tries
  are exhausted, so then one of them has to have a free chunk; with 0 attempts it retries for ever whatever there is
  (NoAttemptsFail), unless there are no rounds. Contention between several allocating threads is in PoolProtocol, not
  here.
- PoolProtocol models one pool; that two pools never touch each other's links is the partition of the handles in
  RegionPools.
- Arenas.CreateValid: the pointer checks of create() are not modelled, as arena memory is an offset range; the minimal
  alignment is the least that a build may configure.
- Words.AlignIsMask: sizes so close to 2^64 that aligning them overflows wrap in the source; every other module takes
  sizes as unbounded numbers, as if a request were small enough.
- StepSplitIndex.ArenaIndex.constructor: requires the condition under which the locators are exact (`Exact`), which
  create() does not check; ExactlyWhen shows that it is the exact one, entry by entry.
- StepSplitIndex.ArenaIndex.Release: an arena's alignment is that of an entry; the source files one of a smaller
  alignment than the least supported one with the first entry, where an aligned request may not fit it.
- StepSplitIndex.ArenaIndex.Acquire: requested alignments are powers of two, as the source demands; the testing-only
  queries of the index are not modelled.
- StepSplitBins.Bins.Acquire: completeness is relative to the bins' lower bounds, as rounding makes it, and to arenas
  below the wrap size.
- The lists inside StepSplitEntry are sequences; IntrusiveList proves the linked form of the same operations.
- SmallIndex.BinIndex.constructor: the compile-time limits on alignments and the memory checks are not modelled.
- SmallIndex.BinIndex.Release: the pointer checks of release are not modelled, and the arena's alignment is at least
  the smallest supported one and divides the cutoff, which CutoffIsAligned gives for every supported alignment.
- SmallBins.SmallBin.Acquire: the allocator's allocate, deallocate and reclaim around it repeat those of the
  step-split allocator and are not modelled again.
- GraveyardSafety.StepKeeps: get_tail, bite and the resets of a thread's own entry are one step each, since no other
  thread can reach the nodes; SkipList proves the loops themselves.
- RegionPools.PtrToAllocation: requires that no 32-bit field is cut short (`Exact`), for which ExactWhen gives the
  exact condition; addresses are offsets from the base of the reserved range.
- search_suitable_region, handle addresses, chunk commit and the other queries of the region allocator: single
  expressions.
- try_reset_flags and postpone: nothing in the repository calls them.
- The slotted graveyard paths, compiled out by CUW3_SIMPLIFY_GRAVEYARD.
- allocator.hpp, thread_local_allocator.hpp, vmem.hpp and their sources: glue and operating system calls. Reclaimed
  arenas' chunks are not given back there, so conservation of chunks stops at the arenas.
- ASAN poisoning, debug owner tables, benchmarks; CUW3_ASSERT, which is C's assert and absent from release builds.
  With it present, a request whose aligned size is not a multiple of its entry's alignment aborts also without a
  cached arena.
