# Verification of libpussy's allocators and buffers

This project models the memory structures of libpussy in Dafny and proves what their code relies on: the bitmap
allocator behind `pet_allocator` (from its word-at-a-time bit functions up to its locking protocol and to
`_reallocate`), the fixed-size-block arena, the byte ring buffer, the mmap-backed array and the region arena.
Page size, word width, bitmap length, header sizes, number of pages and number of threads are parameters.

Run `dafny verify dfyconfig.toml` (Dafny 4.11).

## How it is organised

| file | what it holds |
|---|---|
| `common.dfy`, `memory.dfy`, `words.dfy`, `alignment.dfy` | bytes in memory, machine words by their bits, unsigned wrap-around, the alignment helpers |
| `runs.dfy`, `bm_page.dfy` | bitmaps as sequences of booleans; the word loops of the bitmap, proved against them |
| `rings.dfy`, `superblock.dfy` | circular doubly-linked lists with real `next`/`prev` links; all lists together, with the pages that a deletion loses |
| `protocol.dfy` | the concurrent protocol as a state machine, and its invariant |
| `bitmap_safety.dfy`, `list_safety.dfy`, `protocol_safety.dfy`, `protocol_runs.dfy` | every step keeps the invariant |
| `protocol_theorems.dfy`, `pair_run.dfy` | what follows for runs; a run as written that loses a page |
| `operations.dfy` | what every call does over a whole run: it takes effect in exactly one step, and where an allocation looks |
| `list_runs.dfy` | where the lost pages are over whole runs; what the links make of every deletion |
| `page_steps.dfy`, `layers.dfy`, `joint_bytes.dfy` | words implement the protocol's private steps; protocol and heap agree over whole runs, so the protocol answers what resizing assumes; live blocks keep their bytes over such runs |
| `reallocate.dfy` | `cleanse`, `_allocate`, `_release`, `_reallocate` over one flat memory |
| `fsb_layout.dfy`, `fsb_page.dfy`, `fsb_lists.dfy`, `fsb_arena.dfy`, `fsb_failures.dfy` | the fixed-size-block arena; arenas that the code as written gets wrong |
| `ring_buffer.dfy`, `mmarray.dfy`, `arena.dfy` | the smaller structures |

In the protocol every section under the lock is one atomic step; every scan or edit of a bitmap by the thread that took
the page off the lists is one private step. Clients release and resize only blocks they own, with the right size, as
`include/allocator.h:12-26` asks. The answers of the operating system are parameters: memory that is page-aligned and
not in use, or a refusal.

## Where the code departs from what it is for

The code is modelled as it is written; where that breaks a property, the rule in question is a parameter, and the
property is shown to hold if and only if the intended rule is used or the guard that fails is not met.

- Ring deletion tests `next == prev` (`src/allocator_pet.c:501`, `src/fsb_arena.c:42`), which is also true in a ring of
  two; the other page is dropped. In the bitmap allocator blocks and bitmaps stay sound all the same
  (`ProtocolTheorems.RunsAreSafe` holds with either test), and every mapped page stays in exactly one place throughout a
  run if and only if no step deletes from a pair (`ProtocolTheorems.PlacesLostExactly`); such a run exists
  (`PairRun.PageIsLost`). Later deletions of the dropped pages empty other lists or not, as their links say, and touch
  no page beyond those dropped together (`ListRuns.RunKeepsTable`, `ListRuns.DeleteHeader`).
- The fixed-size-block arena has the same test, and it looks in the list of available pages when a page becomes wholly
  free, without asking whether that list is empty (`src/fsb_arena.c:174-181`). It follows a null list exactly when the
  last used block of a page is released while no page is available (`FsbArenas.FsbArena.Release`); until then blocks and
  bitmaps stay sound. With one block per page that is the first release (`FsbFailures.OneBlockPerPage`); with more it
  happens on a page that the deletion test lost before (`FsbFailures.LostPageFaults`). Over a whole run all pages stay
  listed and no null list is followed if and only if no deletion is from a pair and, with one block per page, nothing is
  released (`FsbLists.RightExactly`).
- The wrapped read of the ring buffer takes `size - tail` for `size - head` (`src/ringbuffer_base.c:191-197`): wrong
  exactly when the data wraps (`RingBuffers.RingBuffer.ReadAsWritten`, `RingBuffers.ReadThatFails`).
- Shrinking a wrapped ring buffer moves the data by the most that could be returned (`src/ringbuffer_base.c:112-120`):
  wrong exactly when the request keeps the buffer larger than the data needs (`RingBuffers.RingBuffer.Shrink`,
  `RingBuffers.ShrinkThatFails`).
- Resizing a mapping to a size of the bitmap allocator calls `bm_release` for a page that has no bitmap
  (`src/allocator_pet.c:949`); and when the bitmap allocator refuses, the block stays page-aligned, which later calls
  take for a mapping. `bm_release` waits for ever on a client's bytes, or follows them as pointers, exactly for a block
  that is not from the bitmap allocator (`Reallocation.Heap.BmRelease`); so, as written, the allocator is left in
  order exactly when no mapping is resized to such a size (`Reallocation.Heap.Reallocate`,
  `Reallocation.ShrinkThatCrosses`).
- The size test of the fixed-size-block arena wraps when the header alone exceeds the page (`src/fsb_arena.c:66-71`): an
  accepted layout is usable if and only if the smallest header fits (`FsbLayouts.Solve`,
  `FsbLayouts.OversizedBlockPasses`).
- The region arena aligns offsets, not addresses (`src/arena.c:99`). Regions start pages, except that the first lies
  behind the arena's own header: its blocks are aligned if and only if `offsetof(Arena, first)` is a multiple of the
  alignment (`Arenas.Arena.RegionAlloc`). With 32-bit pointers that offset is 8, while `src/arena.c:97` admits 16 where
  `max_align_t` asks for it (`Arenas.MisalignedFirst`). And a region mapped for a block always has room for it if and
  only if `offsetof(Region, data)` is a multiple of the alignment (`Arenas.FreshHasRoomIff`, `Arenas.FreshRefuses`).
- The array header keeps its capacity as `unsigned` (`src/mmarray.c:52`) although sizes are `size_t`:
  `MmArrays.StoredCapacityRecomputesIff`, `MmArrays.LongestArrayOverflows`. The byte offset of an appended item is a
  product of two `unsigned` (`src/mmarray.c:89`): storing there appends if and only if the product does not wrap
  (`MmArrays.AppendsIffNoWrap`, `MmArrays.AppendThatWraps`).
- `include/allocator.h:68` asks for a power of two as alignment; the fixed-size-block arena passes any block size, and
  `include/fsb_arena.h:11` says that blocks are aligned to the block size. What holds for every alignment is
  `Alignment.AlignInRange` and `Alignment.AlignKeepsPowersOfTwo`: a block is aligned to every power of two that divides
  the block size (`FsbLayouts.BlockAligned`). Multiples of the alignment come out for every number if and only if the
  alignment is a power of two (`Alignment.AlignsAllIff`).

## Model

| member | source | states |
|---|---|---|
| `Words.TrailingZeros` | src/word.h:41-57 | for a non-zero word the trailing-zero count is the position of its lowest set bit |
| `Words.AndMaskIsMod` | src/allocator_pet.c:70-73 | masking with `2^k - 1` is the remainder, as `cleanse` and the bit index use it |
| `Alignment.AlignInRange` | include/allocator.h:71-79 | for any alignment, power of two or not, aligning never goes down and goes up by less than the alignment |
| `Alignment.AlignKeepsPowersOfTwo` | include/allocator.h:71-79 | the aligned value is a multiple of every power of two that divides the alignment, even when the sum wraps |
| `Alignment.AlignsAllIff` | include/allocator.h:67-79 | aligning gives a multiple of the alignment for every number if and only if the alignment is a power of two; otherwise it fails at 1 |
| `Words.IsPowerOfTwo` | src/arena.c:20 | the bit test holds exactly for the powers of two |
| `Alignment.AlignToPow2` | include/allocator.h:96-99 | for a power of two the mask computes the least multiple that is not below the argument |
| `Alignment.MaskDownIsPageBase` | src/allocator_pet.c:559-567 | masking an address with the complement of page size minus one gives the start of its page |
| `BmPages.BmPage.CountBits` | src/allocator_pet.c:267-339 | the word-at-a-time count is a run of the wanted value inside the page, and is maximal unless it has reached the limit |
| `BmPages.CountWord` | src/allocator_pet.c:276-300 | counting trailing zeros of a shifted word extends a run by exactly the bits up to its end |
| `BmPages.BmPage.PutBits` | src/allocator_pet.c:341-411 | setting or clearing changes exactly the bits of the interval, across partial first word, whole words and partial last word |
| `BmPages.BitsOfHeadMask` | src/allocator_pet.c:352-359 | the mask of the partial first word has exactly the bits of the interval that lie in it |
| `BmPages.WordFillsBits` | src/allocator_pet.c:359-373 | a store to one word changes exactly its own units of the page, and every other bit stays |
| `Runs.FillThenUndo` | src/allocator_pet.c:341-411 | clearing what was set restores the bitmap when the interval was clear, and the other way round |
| `BmPages.BmPage.InitBitmap` | src/allocator_pet.c:714-720 | whatever the system left in the page, exactly the header and the first block are marked afterwards |
| `BmPages.BmPage.FindFreeBlock` | src/allocator_pet.c:417-437 | the run-skipping search is the bit-by-bit first fit in the data area |
| `Runs.FirstFitIsLowest` | src/allocator_pet.c:417-424 | first fit is the lowest offset with so many free units, and 0 exactly when there is none |
| `BmPages.BmPage.FindLongestFreeBlock` | src/allocator_pet.c:439-461 | the loop ends with the length of the longest free interval of the data area |
| `Runs.HasFreeIffLongest` | src/allocator_pet.c:439-461 | a free interval of a given length exists exactly when the longest free block has that length |
| `Runs.FitIffLongest` | src/allocator_pet.c:679-688 | the search for a block succeeds exactly when the longest free block is long enough |
| `Runs.LongestIsWholeIffFree` | src/allocator_pet.c:536-544 | the longest free block is the whole data area exactly when no data unit is in use |
| `Rings.AddToEnd` | src/allocator_pet.c:463-480 | with real links: the ring is followed by the new page, the other pages keep their order |
| `Rings.AddToFront` | src/fsb_arena.c:19-35 | with real links: the new page comes first in the ring |
| `Rings.DeleteFromList` | src/allocator_pet.c:482-512 | with real links: the ring becomes the one that the deletion test gives, and keeps every other page exactly when the test is the intended one or the ring is not a pair; a page dropped earlier leaves the ring of those dropped with it, and empties the list it points to exactly when that ring has at most two pages |
| `Superblocks.DeletionMembers` | src/allocator_pet.c:482-512 | whatever a deletion does to the lists, every other page stays in exactly one ring, listed or stray |
| `Superblocks.Superblock.TakeOut` | src/allocator_pet.c:482-512 | with the links of all lists at once: a deletion changes the rings as stated and damages no other list or stray ring |
| `Superblocks.Superblock.Add` | src/allocator_pet.c:463-480 | with the links of all lists at once: the page is appended to its list, all other rings are as before |
| `ListRuns.StepKeepsTable` | src/allocator_pet.c:463-512 | every step of the protocol, with either test, keeps the pages that point to a list of the superblock each in one ring, listed or stray |
| `ListRuns.RunKeepsTable` | src/allocator_pet.c:463-688 | over every run of any number of threads in which the links decide: the page about to be deleted is always in its list or in one ring of stray pages |
| `ListRuns.DeleteHeader` | src/allocator_pet.c:482-512 | a deletion on the links makes of them what the protocol makes of its lists; for a page lost before, the outcome that the protocol leaves open is whether the page's two links are equal |
| `ListRuns.AddHeader` | src/allocator_pet.c:463-480 | the same for adding a page |
| `BitmapSafety.MarkKeeps` | src/allocator_pet.c:702-705 | marking a free interval adds a block that overlaps no live one, and the bitmap stays header plus live blocks |
| `BitmapSafety.ReleaseKeeps` | src/allocator_pet.c:777-790 | clearing the bits of a live block removes that block and no other |
| `BitmapSafety.ResizeKeeps` | src/allocator_pet.c:740-775 | shrinking, and growing over free units, changes one block and keeps all others apart |
| `BitmapSafety.WhollyFreeIffNoBlocks` | src/allocator_pet.c:534-544 | a page is chosen for unmapping exactly when no live block is on it |
| `ListSafety.RingTake` | src/allocator_pet.c:482-512 | taking a page out of its list keeps every listed page's `list` pointer and longest free block right |
| `ListSafety.RingAdd` | src/allocator_pet.c:514-523 | filing a page by its longest free block keeps the same |
| `ProtocolSafety.UnhandKeeps` | src/allocator_pet.c:525-557 | handing a page back keeps the whole invariant, whether the replaced page is filed or set aside for unmapping |
| `ProtocolSafety.UnmapKeeps` | src/allocator_pet.c:552-556 | unmapping a page set aside keeps the whole invariant for all other threads |
| `ProtocolSafety.SearchKeeps` | src/allocator_pet.c:664-680 | taking the first page of the first list long enough, or going on to map one, keeps the whole invariant |
| `ProtocolRuns.StepKeeps` | src/allocator_pet.c:569-790 | every enabled step of any thread is safe and keeps the whole invariant |
| `ProtocolRuns.RunKeeps` | src/allocator_pet.c:569-790 | for any number of threads and any interleaving the invariant holds in every state of every run |
| `ProtocolTheorems.PlaceOfPage` | src/allocator_pet.c:463-688 | a mapped page is never in two places, and is in exactly one, of LRU slot, rings, hands and awaiting unmapping, if and only if the list it points to contains it |
| `ProtocolTheorems.PageInOnePlace` | src/allocator_pet.c:463-688 | with the intended deletion test, or without a deletion from a pair, in every reachable state every mapped page is in the LRU slot, in exactly one ring, in one thread's hands, or awaiting unmapping, and in only one of these; `list` is null exactly while it is held |
| `ProtocolTheorems.PlacesLostExactly` | src/allocator_pet.c:463-688 | over a whole run of the code as written, every mapped page is in exactly one place throughout if and only if no step deletes from a ring of two |
| `ProtocolTheorems.RunsAreSafe` | src/allocator_pet.c:690-790 | in every reachable state bitmaps are the header plus disjoint live blocks, the abort is unreachable, and a page awaiting unmapping has no block and no other thread works on it or finds it |
| `ProtocolTheorems.ListedByLongest` | src/allocator_pet.c:514-545 | in every reachable state a page in `superblock[k]` has longest free block exactly `k`, below that of a wholly free page, and carries a block |
| `ProtocolTheorems.OnlyHolderEdits` | src/allocator_pet.c:632-641 | a step changes a bitmap only if its thread holds the page |
| `ProtocolTheorems.AdvanceOrWait` | src/allocator_pet.c:580-610 | a thread either comes closer to the end of its operation or waits, holding no page, for a page in another thread's hands |
| `ProtocolTheorems.SomeThreadAdvances` | src/allocator_pet.c:569-610 | no deadlock: while a thread is busy, some thread has a safe step that lowers the total work left |
| `Operations.CallTakesEffectOnce` | src/allocator_pet.c:643-790 | over any run, whatever the other threads do, a call takes effect in exactly one step of its thread between start and end, and its other steps change no block and no bit: an allocation adds one block of the size asked for and ends with it, unless the system refused a page; a release removes its block and clears exactly its units; shrinking clears exactly the units behind, growing marks them, or is refused exactly when not all are free. The page is the LRU page, or the LRU page was full and it is the first listed; the place is the lowest; a page is asked for only when the LRU page was full and no list for pages with so much room had a page |
| `Operations.AsksLast` | src/allocator_pet.c:659-705 | a step leads to asking the system for a page only when every list for pages with so much room is empty; when no page was lost from the lists, no page that points to one has so much room |
| `Operations.HandedBack` | src/allocator_pet.c:525-557 | a page handed back becomes the LRU page; the one it replaces is unmapped if it has no block, and otherwise filed under its longest free block |
| `Operations.WhollyFreePages` | src/allocator_pet.c:525-557 | in every reachable state, with either deletion test, a mapped page without blocks is the LRU page, in a thread's hands or about to be unmapped; so at most one is mapped when all threads are idle |
| `ProtocolTheorems.MembershipLostExactly` | src/allocator_pet.c:501-503 | with the test as written, a step breaks list membership if and only if it deletes from a ring of two |
| `ProtocolTheorems.RunKeepsMembership` | src/allocator_pet.c:482-512 | with the intended test, or without such a deletion, every page that points to a list is reachable from it throughout the run |
| `ProtocolTheorems.RunLosesMembershipExactly` | src/allocator_pet.c:482-512 | over a whole run of the code as written, every page that points to a list stays in it throughout if and only if no step deletes from a ring of two |
| `PairRun.PageIsLost` | src/allocator_pet.c:501-503 | a run of the code as written, from the initial state, after which a mapped page points to a list and is in no place at all |
| `PageSteps.PrivateStep` | src/allocator_pet.c:651-735 | scanning, marking, releasing, shrinking and growing on the words of a page end with bitmap and position of the protocol's step |
| `PageSteps.Extend` | src/allocator_pet.c:757-775 | growing in place succeeds exactly when all units behind the block are free, and otherwise changes nothing |
| `PageSteps.MapStep` | src/allocator_pet.c:710-723 | initialising a new page gives the bitmap of the protocol's step |
| `PageSteps.ReplacedPage` | src/allocator_pet.c:534-545 | the replaced page is set aside exactly when its data area is wholly free |
| `Layers.AllocateAnswers` | src/allocator_pet.c:690-703 | the units a thread is about to mark are, as memory, in the data area of one page and used by no live block of the heap |
| `Layers.NewPageAnswers` | src/allocator_pet.c:705-723 | the same for the first block of a new page |
| `Layers.ResizeAnswers` | src/allocator_pet.c:740-775 | where `bm_shrink` or a successful `bm_grow` edits, the resized block is used by no other block |
| `Layers.JointKeeps` | src/allocator_pet.c:690-790 | a step of a thread with what it means for the heap, and a mapping that comes, goes or moves, keep protocol and heap in order and in agreement: the live blocks of the protocol are exactly the small blocks of the heap |
| `Layers.JointRunKeeps` | src/allocator_pet.c:690-1027 | over every run of any number of threads, from the empty heap on, no two blocks share a byte, small or mapped, page alignment tells them apart, and the small blocks are exactly the live blocks of the protocol; what the lemmas above assume is thus always the case |
| `JointBytes.EventSpares` | src/allocator_pet.c:463-1027 | no step of a thread and no change by the system writes a byte of a block that it is not about: page headers, the pages it maps and unmaps, and the block it is about are elsewhere |
| `JointBytes.BytesAreKept` | src/allocator_pet.c:690-1027 | between any two states of any such run a live block that no event in between is about keeps its address, its size and all its bytes |
| `Reallocation.Cleanse` | src/allocator_pet.c:60-98 | bytes to the word boundary, words, remaining bytes: together exactly the range becomes zero, with every word store aligned |
| `Reallocation.Sizes.SmallIff` | src/allocator_pet.c:832-835 | a block is served from a bitmap page exactly when the page has a unit more room than it takes |
| `Reallocation.Sizes.FootprintIsLeast` | src/allocator_pet.c:186-189 | a block takes the least number of whole units, or of whole pages, that covers it |
| `Reallocation.Heap.Allocate` | src/allocator_pet.c:827-846 | the block is new and apart from all others, zero if asked, and its address is page-aligned exactly if it is not from the bitmap allocator |
| `Reallocation.Heap.BmRelease` | src/allocator_pet.c:569-606 | the block given back is exactly the one at the unit; reserved units, where the page has no header and the call hangs or follows a client's bytes, are met exactly for a block not from the bitmap allocator |
| `Reallocation.Heap.Release` | src/allocator_pet.c:848-876 | page alignment tells the layer, and exactly the bytes the block takes are given back; a null address is left alone |
| `Reallocation.Heap.CallMremap` | src/allocator_pet.c:132-167 | the common bytes survive a move, the bytes gained are zero if asked, nothing else is written; a mapping that shrinks gives back exactly its last pages |
| `Reallocation.Heap.Shrink` | src/allocator_pet.c:920-964 | fewer units: where the block ends up, never a refusal, exactly which bytes are given back, and in order afterwards exactly when no mapping becomes a small block, or it moves and is given up properly |
| `Reallocation.Heap.Grow` | src/allocator_pet.c:966-1014 | more units: in place whenever `bm_grow` succeeds or the page count allows it, else at exactly the answer of the one layer asked, failing only when that refuses; bytes kept; a block that moved gave back exactly what it took |
| `Reallocation.Heap.Reallocate` | src/allocator_pet.c:878-1027 | on every path the first min(old, new) bytes are kept, the gained bytes are zero if asked, no other block changes, `addr_changed` is right, a failure changes nothing; it fails if and only if the block needs more units, cannot grow where it is, and the one layer asked refuses; where it ends up on success; exactly the bytes that it no longer takes are given back; and the tag by alignment is kept if and only if no mapping crosses over |
| `Reallocation.ShrinkThatCrosses` | src/allocator_pet.c:936-952 | a heap and sizes for which the as-written path ends in a fault, or out of order when the bitmap allocator refuses |
| `FsbLayouts.Solve` | src/fsb_arena.c:59-79 | accepts exactly when a block fits behind the smallest header or that header exceeds the page; an accepted layout, in which blocks fit, no further block would, the bitmap covers them, lies in the header and has no more words than needed, comes out if and only if the smallest header fits |
| `FsbLayouts.OversizedBlockPasses` | src/fsb_arena.c:66-79 | a block size beyond the page that passes the size test and comes out unusable |
| `FsbLayouts.AddressRecovers` | src/fsb_arena.c:159-167 | page and index computed from an address are those it was made from |
| `FsbLayouts.BlocksApart` | src/fsb_arena.c:132-144 | different blocks do not overlap |
| `FsbLayouts.BlockAligned` | src/fsb_arena.c:66-78 | a block is aligned to every power of two up to the page that divides the block size |
| `FsbPages.FindClear` | src/fsb_arena.c:125-148 | with a free block the search ends at the lowest clear bit, below the number of blocks; the abort is unreachable |
| `FsbPages.TakeBit` | src/fsb_arena.c:128-138 | the lowest free block is taken; the counter stays the number of clear bits |
| `FsbPages.GiveBit` | src/fsb_arena.c:169-173 | exactly that block is given back; the counter stays the number of clear bits |
| `FsbPages.CountSetUpdate` | src/fsb_arena.c:135-138 | changing one bit changes the number of set bits by one |
| `FsbLists.Lists.TakeKeeps` | src/fsb_arena.c:137-143 | in any state the code can reach, moving a page that became full keeps every page in one place; from lists without lost pages it loses one if and only if the as-written test deletes one of two available ones |
| `FsbLists.Lists.ReleaseKeeps` | src/fsb_arena.c:172-186 | in any such state returning or moving a page keeps every page in one place unless a null list is followed; from lists without lost pages it is right if and only if there are two blocks per page or more and the as-written test does not delete one of two full ones |
| `FsbLists.EventKeeps` | src/fsb_arena.c:108-187 | both, for any call in any state the code can reach |
| `FsbLists.RunKeeps` | src/fsb_arena.c:108-187 | over any run from the empty arena, up to the call that follows a null list, every mapped page is in exactly one place, listed by whether it has a free block, or lost |
| `FsbLists.RightExactly` | src/fsb_arena.c:37-187 | over a whole run all pages stay listed and no null list is followed if and only if no call deletes from a pair as written and, with one block per page, none releases |
| `FsbLists.Lists.AllocateCounts` | src/fsb_arena.c:108-149 | which pages are mapped after an allocation and what their counters are; a page is used until it is full, and then the next of the ring |
| `FsbLists.Lists.ReleaseCounts` | src/fsb_arena.c:169-187 | a page goes back to the system if and only if it became wholly free and more pages are available than the test takes for the last; all other counters stay; a page that was full is used next |
| `FsbLists.RunKeepsFew` | src/fsb_arena.c:174-181 | over any run with the intended test at most one mapped page is wholly free; as written, at most two as long as no page got lost |
| `FsbArenas.FsbArena.Allocate` | src/fsb_arena.c:108-149 | in any state the code can reach, lost pages or not: a block that was not in use becomes used, none other; a page is mapped only when none is available; the counters and lists afterwards; and exactly when no page gets lost |
| `FsbArenas.FsbArena.Release` | src/fsb_arena.c:151-187 | in any such state: exactly the block at the address stops being used; a null list is followed if and only if it was the last block in use on its page and no page is available; else the page is unmapped if and only if it became wholly free and the ring has more than two pages, or more than one with the intended test; the counters and lists afterwards; and exactly when all is right |
| `FsbFailures.OneBlockPerPage` | src/fsb_arena.c:174-177 | an arena with one block per page, whose first release follows a null list |
| `FsbFailures.LostPageFaults` | src/fsb_arena.c:174-178 | an arena with three blocks per page that follows a null list, on releasing the only block of a page lost before |
| `FsbFailures.AvailablePair` | src/fsb_arena.c:137-143 | an arena whose allocation drops an available page, with a block in use on it, from its list |
| `FsbFailures.FullPair` | src/fsb_arena.c:182-186 | an arena whose release drops a full page from its list |
| `RingBuffers.RingBuffer.Write` | src/ringbuffer_base.c:147-177 | succeeds exactly when stored length plus the bytes is below the size, and then appends them to the queue and moves `tail` on around the end |
| `RingBuffers.RingBuffer.Read` | src/ringbuffer_base.c:179-207 | in the intended form of lines 191-197: takes the longest prefix of the queue that fits; all bytes ever read are a prefix of all bytes accepted |
| `RingBuffers.RingBuffer.ReadAsWritten` | src/ringbuffer_base.c:191-206 | the read as written is right if and only if the data does not wrap; otherwise it copies from beyond the buffer exactly when more is asked for than is stored up to its end, and else leaves the head beyond the end |
| `RingBuffers.ReadThatFails` | src/ringbuffer_base.c:191-206 | a buffer, filled by writes and a read, on which the read as written goes wrong for every request |
| `RingBuffers.RingBuffer.Grow` | src/ringbuffer_base.c:65-90 | keeps the queue across the wrap and the overlapping move, and fails only without a mapping |
| `RingBuffers.RingBuffer.Shrink` | src/ringbuffer_base.c:92-145 | ends at the larger of the request and what the queue needs, in pages; keeps the queue if and only if the shift is the intended one or not too far |
| `RingBuffers.ShrinkThatFails` | src/ringbuffer_base.c:112-136 | a buffer that loses its queue when shrunk as written |
| `RingBuffers.ShrinkKeepsWrapped` | src/ringbuffer_base.c:112-120 | which shift of the upper data keeps a wrapped queue |
| `MmArrays.CapacityRecomputes` | src/mmarray.c:29-53 | the capacity derived from a mapping covers the length asked for and gives back exactly the mapping size, for any item size |
| `MmArrays.StoredCapacityRecomputesIff` | src/mmarray.c:52 | as stored in an `unsigned`, it does so if and only if it fits |
| `MmArrays.LongestArrayOverflows` | src/mmarray.c:52 | a length for which it does not fit |
| `MmArrays.MmArray.Grow` | src/mmarray.c:60-80 | the items keep their bytes; the mapping changes only when the capacity is exceeded, and then to the fewest pages that hold the items, with the capacity that fits there as stored; in order afterwards if and only if the old capacity suffices or the new one can be stored |
| `MmArrays.MmArray.AppendItem` | src/mmarray.c:82-93 | appends the item as long as the byte offset does not wrap; otherwise overwrites bytes of earlier items and leaves its own place as it was |
| `MmArrays.AppendsIffNoWrap` | src/mmarray.c:89 | storing at the wrapped offset appends every item if and only if the offset does not wrap |
| `MmArrays.AppendThatWraps` | src/mmarray.c:89 | 65536 items of 65536 bytes: the next one goes to the start of the array |
| `Arenas.HandOutKeeps` | src/arena.c:98-111 | a block behind the tail of a region overlaps no block handed out before |
| `Arenas.HasRoomIffSomeStartFits` | src/arena.c:99-107 | a region refuses a block only when no aligned block of that size fits behind its tail |
| `Arenas.StartAligned` | src/arena.c:99 | for any header sizes the offset handed out is the tail rounded up, so the block is aligned if and only if its region is |
| `Arenas.Arena.RegionAlloc` | src/arena.c:90-112 | the block is within capacity, apart from all others, less than an alignment behind the tail, which moves to its end; it is aligned in every region but the first, and there if and only if the offset of the first region is a multiple of the alignment |
| `Arenas.Arena.AddRegion` | src/arena.c:78-88 | the chain stays free of cycles and ends at `last`; the new region has the fewest whole pages that hold the block and the arena's region capacity |
| `Arenas.FreshHasRoomIff` | src/arena.c:78-126 | a region mapped for a block has room for it, whatever the size, if and only if the offset of a region's data is a multiple of the alignment |
| `Arenas.Arena.NewRegionAlloc` | src/arena.c:114-126 | the fresh region, of that size, is linked, and takes the block, aligned, exactly when it has room |
| `Arenas.MisalignedFirst` | src/arena.c:97-99 | with the header sizes of 32-bit pointers and an alignment of 16, an arena whose first block is not aligned |
| `Arenas.FreshRefuses` | src/arena.c:114-126 | with these sizes, an arena that refuses a block for which the system mapped a region |
| `Arenas.Arena.Alloc` | src/arena.c:168-176 | the last region is used if it has room, else one region is added, which takes the block, aligned, exactly when it has room; without a mapping nothing changes |
| `Arenas.Arena.Fit` | src/arena.c:178-187 | the first region with room is used, and a region is added only when none has room; alignment as for `RegionAlloc` |
| `Arenas.Arena.Delete` | src/arena.c:147-161 | every mapping is unmapped once, with exactly the size it was made with |

## Left out

- `mmap`, `mremap`, `munmap`, `errno` and messages: the system's answers are parameters; failing to shrink a mapping is
  the same to the allocator as shrinking it, as in `src/allocator_pet.c:151-160`.
- A new or moved mapping holds arbitrary bytes where nothing was copied. The code assumes more once: it does not write
  the `list` field of a new bitmap page before handing it back (`src/allocator_pet.c:710-723`), and the model has null
  there, as the zero pages of `mmap` do. Nothing reads the field meanwhile; only "null exactly while held" rests on it.
- `TRACE`, `DEBUG` checks, `dump`, `src/dump_bitmap.c`, `src/dump_hex.c`: formatted output.
- `src/ringbuffer_sync.c`: one mutex around each base operation. `src/sync_event.c`, `src/timespec.c`: condition
  variables, clocks and floating point. `src/allocator_debug.c`, `src/allocator_stdlib.c`: wrappers over malloc.
- `fsb_arena_walk`, `destroy_fsb_arena`: their loops do not visit all pages, and the intended loops would only add easy
  members over the proved lists.
- `num_bm_pages` and `blocks_allocated`: updated after a page was handed back, so only quiescent values mean anything.
- `Reallocation.Heap.Reallocate`: a new size of zero for an existing block, and sizes whose rounding to a page wraps in
  32 bits, are preconditions; so is an item size of zero in the array, and sizes that wrap in the arenas.
- `Reallocation.Heap.Reallocate`: one thread's view of the bytes; `JointBytes.BytesAreKept` says that other threads do
  not change them.
- `Reallocation.Heap.Shrink`: what `bm_release` does to a page without a bitmap is not modelled; it is a fault, whether
  the call hangs or follows a client's bytes.
- `FsbArenas.FsbArena.Release`: the bitmap words, the counter and the two rings are fields holding values; the links of
  the rings are those of `Rings`, proved there in place. What a followed null list does is not modelled.
- `FsbPages.TakeBit`: bitmap words are updated as sequence values rather than in an array.
- `RingBuffers.RingBuffer.Read`: the intended form; the lines as written are `ReadAsWritten`.
- `ProtocolTheorems.SomeThreadAdvances`: fairness of the scheduler is not modelled, so nothing is said about one
  particular waiting thread.
- `MmArrays.MmArray.Grow`: the array pointer and its header are one object here; the page mask of `get_array_header`
  is covered by `MaskDownIsPageBase`.
- `Arenas.Arena.Fit`: `arena_print` is output only.
