# dgos: models and proofs

This project models the code of dgos that keeps data structures consistent by hand, and proves
what that code is for. Integers are unbounded in Dafny, so every width that matters (16-bit
counters, 32-bit sector numbers, `int` results, 48-bit linear addresses) is written out.

| area | source | modules |
|---|---|---|
| page tables | boot/paging.cc | PageWalk, PhysicalRuns, Paging, PageCommit, IovecWalk, IovecLimits, PageVector, PageLoad |
| recursive page-table slot | kernel/arch/mmu.h | RecursiveMap |
| physical memory map | boot/physmap.cc | RangeTable, RangeSplice, PhysMap, PhysFixUp, PhysAlloc, PhysFree, PhysTake, PhysSplit |
| boot heap | boot/malloc.cc | HeapShape, HeapSearch, Malloc |
| trace analysis | pif-trace/pif-trace.cc | TraceNesting, TraceTimes, TraceView, TraceProfile |
| FAT32 reads | boot/fs/fat32.cc, boot/fs.cc | DiskPlan, Fat32, FatReader |
| PXE file cache | boot/x86_bios/pxemain.cc | RadixCache, PxeFile |
| I/O completion | kernel/device/iocp.h | Completion |

Modular, Buffers and Options hold arithmetic, copying and a datatype that several of them use.
`dafny verify dfyconfig.toml` covers all files.

How the source appears in the model:

- State that the source changes in place is a class (`Paging.PageTables`, `PhysMap.Table`,
  `Malloc.BootHeap`, `DiskPlan.Plan`, `FatReader.Volume`, `RadixCache.Tree`, `PxeFile.OpenFile`,
  `Completion.Iocp`) with a `Valid()` predicate that every method keeps. Each loop of the source
  is a loop.
- What the hardware or another machine does is a function or a small class the proofs make no
  assumptions about: the processor's page walk of section 4.5 of Intel SDM volume 3A, a disk and
  a TFTP server (RFC 1350) of which any request may fail, an allocator that hands out pages in
  any order and may run dry.
- A panic or a failed assertion of the source is a result of the method (`Rejected`, `Halt`,
  `ok == false`), and the contract says exactly when it happens.
- The I/O completion is also a state machine: a schedule is any sequence of steps of the
  parties, and the theorems are about every schedule.

## What turned out not to hold

The model does what the code does. Where a property one would expect fails, a lemma or a
contract shows the exact condition.

- `free_phys` loses the free range after the block when it closes the gap between two free
  ranges, and fails an assertion for the end of a longer block and for a block that the search
  window has left behind: `PhysFree.FreePhys`, `PhysFree.FindBlock`, `PhysFree.GapLost`.
- `alloc_phys` looks only from the start of that window on: it halts although memory is left
  exactly if all that it could use lies before it: `PhysTake.AllocPhys`.
- `alloc_high` on a range of a single page leaves an empty range, and pulling an allocated range
  down over 1 MiB or 4 GiB leaves a counter wrong: `PhysAlloc.AllocHigh`.
- The fix-up of the firmware's map leaves overlapping usable neighbours alone exactly if the
  second reaches past the first: `PhysFixUp.UsableOverlapStays`. No address gets more holders
  than it had, and if neither usable ranges nor the others overlap among themselves, nothing
  claimed becomes usable and the map is one to allocate from: `PhysFixUp.FixUp`. Otherwise a
  claim can be forgotten: `PhysFixUp.ForgottenClaim`.
- `physmap_validate` with `fix` checks only the first of the ranges it joins for whole pages. The
  table it accepts is proper exactly if every free range that none continues ends on a page:
  `PhysMap.Table.Validate`, `PhysMap.PartAccepted`.
- The fast path of `physmap_find_insertion_point` is a lower bound exactly if the table does not
  end in an empty range at that base: `PhysMap.Table.FindInsertionPoint`.
- `paging_iovec` goes on with the next page after a part of a page, and advances by the wrong
  amount when it cuts a page at the limit. It is right for every size, wherever in memory the
  pages lie, exactly if it starts on a page with a limit of whole pages, or by accident on the
  last byte of a page with a limit of two pages, or if the limit is all the memory an entry can
  address: `IovecLimits.RightIff`. For every other start and limit `IovecLimits.MisplacedWrong`
  names a size and the places of pages that go wrong, and `PageVector.IovecMisplaced` shows it for
  page tables that hold them; with a limit of zero the loop does not end: `IovecLimits.ZeroLimit`.
- A shrinking `realloc` leaves a free block below `first_free` exactly if `first_free` pointed
  past the new block: `Malloc.BootHeap.Shrink`. The search of `malloc` ends exactly if the block at
  `first_free` is not a free block that follows a free one, or if there is room:
  `Malloc.BootHeap.Search`, `Malloc.BootHeap.SearchAstray`. `Malloc.BootHeap.Shrink` and
  `Malloc.BootHeap.Free` say exactly when they leave `first_free` on such a block. The branch that
  would extend a block in place is never entered: `Malloc.BootHeap.PrepareGrow`. A growing
  `realloc` counts the header twice: `Malloc.BootHeap.Grow`.
- Indents are 16 bits wide: folding a call finds its end exactly if nothing in the call lies
  65536 levels deeper: `TraceView.ScanFindsEnd`.
- A self time wraps exactly for a call that never returned but made a call that took time and
  returned: `TraceProfile.WrapsExactly`, `TraceProfile.OpenCallWraps`.
- The I/O plan of the loader holds 32769 transfers: its 16-bit capacity then reads 0, the next
  growth shrinks the list, and the transfer is written past it: `DiskPlan.Plan.Add`. A file of
  32770 scattered clusters of one sector, read whole, gets there: `Fat32.LongPlan`,
  `FatReader.LongRead`. `fat32_boot_pread` returns its count through an `int`.
- The first read of an empty file halts the loader, because it asks the heap for a list of no
  bytes and takes the null it gets for a lack of memory: `FatReader.Volume.Begin`.
- A disk read that fails while the cluster list is filled leaves a list that holds the chain up
  to the cluster whose entry was wanted, then old memory: `FatReader.Volume.Begin`. The next read
  uses it: `FatReader.Volume.Pread`. It is right whatever that memory held if it touches only the
  clusters filled in: `FatReader.FilledReads`; one further cluster makes it wrong:
  `FatReader.ReadAfterFailure`.
- `pxe_openfile_t::open` keeps the cache of the slot's last file and the count of what was
  received: `PxeFile.OpenFile.Open`. Every read in the next file is answered with its bytes exactly
  if nothing was received before, or if the file was received whole already, or if it repeats
  what was received and the block number is not put off by it: `PxeFile.ServesIff`,
  `PxeFile.ReadServed`, `PxeFile.ReadUnserved`, `PxeFile.ReadReopened`. A read past the end of a
  file is padded with zeros or refused: `PxeFile.OpenFile.Pread`.
- `set_result` takes no lock. The status is right under every interleaving exactly if the parts
  all succeed or all fail, and under every interleaving in which calls of it do not overlap:
  `Completion.AlwaysRightIff`, `Completion.FailsIffSomeFailed`. After a reset a request of no
  parts reports the last result: `Completion.NoParts`.

## Model

| member | source | states |
|---|---|---|
| PageWalk.StepServes | boot/paging.cc:58-99 | a table pointer met on the walk of a page leads to the one table that serves that page at the next level |
| PageWalk.FindServes | boot/paging.cc:58-99 | the loader's walk ends in the table of the level asked for that serves the page |
| PageWalk.HwViaFind | boot/paging.cc:58-99 | the processor's walk goes on from the table the loader's walk found, and faults where the loader found none |
| PageWalk.CreatedWellFormed | boot/paging.cc:79-95 | hanging a cleared table into an empty slot keeps the tables a tree |
| PageWalk.CreatedHw | boot/paging.cc:79-95 | creating a table changes no translation |
| PageWalk.WrittenHw | boot/paging.cc:568-576 | writing a leaf changes what the processor finds for exactly the pages under it |
| PageWalk.WrittenWellFormed | boot/paging.cc:568-576 | writing a leaf keeps the tables a tree |
| PhysicalRuns.CutTiles | boot/paging.cc:454-493 | the five runs tile the range rounded to 4 KiB pages, and each begins and ends on its page size |
| PhysicalRuns.CutBest | boot/paging.cc:454-516 | every byte of a run gets the largest page size whose page around it lies in the range and that both addresses allow |
| PhysicalRuns.CutInferred | boot/paging.cc:495-552 | the page size inferred again from a run's addresses and length is the one the run was cut for |
| Paging.SlotOfLinear | boot/paging.cc:58-99 | shifting a 64-bit address gives the slot of its 48-bit page number at each level |
| Paging.PageTables.CreateTable | boot/paging.cc:79-95 | a new table is found by the walk, and every translation and every walk that ended before is as it was |
| Paging.PageTables.FindPte | boot/paging.cc:58-99 | returns the entry on the walk of the address at the level asked for; nothing is returned exactly if a table is missing and none may be made; it panics only without pages; no translation changes |
| Paging.PageTables.FillRun | boot/paging.cc:557-577 | exactly the run's entries become leaves for consecutive memory, although the entry pointer is only looked up again at table boundaries |
| Paging.InferredCongruent | boot/paging.cc:527-560 | both addresses have the same offset in the inferred page, as the source asserts |
| Paging.LeafAddress | boot/paging.cc:541-545 | the PAT bit of a large page is no part of the address it translates to, and bit 12 is that bit alone |
| Paging.PageTables.MapInferred | boot/paging.cc:518-577 | exactly the bytes of the pages around the request are mapped anew, with the inferred page size and the flags asked for |
| Paging.PageTables.MapPhysical | boot/paging.cc:347-516 | for every linear byte below 2^48: in the rounded range it translates to its physical byte, with the largest page size that fits and the flags asked for; outside, to what it did before; rejected exactly if the page offsets differ |
| PageCommit.Seek | boot/paging.cc:147-172 | the entry pointer carried from page to page is the one a fresh walk finds |
| PageCommit.CountNeeded | boot/paging.cc:145-157 | the first pass makes all page tables and counts exactly the pages without memory |
| PageCommit.TakePage | boot/paging.cc:177-189 | pages are handed out in order from the pieces delivered; one new piece is asked for when the last is used up, and none before |
| PageCommit.Assign | boot/paging.cc:164-194 | the second pass gives the k-th page without memory the k-th page of the pieces and uses them up |
| PageCommit.MapRange | boot/paging.cc:121-194 | every page of the range ends mapped, mapped ones keep their memory, the others get the pages of the delivered pieces in order and without remainder, nothing else changes |
| PageCommit.PagesDistinct | boot/paging.cc:177-189 | disjoint pieces have no page in common |
| PageCommit.CommittedDistinct | boot/paging.cc:164-194 | two pages of the range never get the same memory |
| IovecWalk.AddWhole | boot/paging.cc:235-288 | a chunk that joins the last run or starts one adds exactly its bytes and keeps the limit |
| IovecWalk.AddExact | boot/paging.cc:250-259 | a chunk that is cut still adds its bytes, but the loop goes on by its length exactly if it was not cut or the limit is twice the chunk |
| IovecWalk.TrackStep | boot/paging.cc:211-288 | for a request that goes right, a turn of the loop adds the rest of the page at its place, with the entry pointer at the right entry |
| IovecWalk.GoodRight | boot/paging.cc:196-300 | every byte is delivered in order if the request fits one run, or starts on a page with a limit of whole pages, or is cut only into pages that are half the limit, or if the limit ends on a page and the rest fits another run; or if no run in memory can reach the limit |
| IovecLimits.CutAtStart | boot/paging.cc:211-232 | a limit below the rest of the first page: the next byte is taken from the next page, wherever that lies |
| IovecLimits.CutInside | boot/paging.cc:211-232 | the same in the second page for any limit below a page, if that page does not follow the first |
| IovecLimits.Overshoots | boot/paging.cc:250-293 | where pages follow one another up to one cut at the limit and its chunk is less than half of it, the loop ends past the end of the request |
| IovecLimits.Undershoots | boot/paging.cc:250-293 | where a page is cut at a limit below two pages, bytes of another page are added |
| IovecLimits.MisplacedWrong | boot/paging.cc:196-300 | for any start and limit that are not exact, the size named goes wrong with pages in the places named |
| IovecLimits.PlacesMisplaced | boot/paging.cc:196-300 | there are such places below 2^40, where entries can point, for any start and any limit below that |
| IovecLimits.RightIff | boot/paging.cc:196-300 | every size and every placement of pages in addressable memory goes right exactly if the start is on a page and the limit is whole pages, or the start is the last byte of a page and the limit two pages, or the limit is at least 2^40 |
| IovecLimits.ZeroLimit | boot/paging.cc:228-232 | with a limit of zero the offset stays where it is for any number of turns |
| PageVector.Progress | boot/paging.cc:211-293 | the loop cannot go on for ever without progress: it advances, or a page looked up again no longer follows the last run, or the slots of the table come to an end |
| PageVector.Iovec | boot/paging.cc:196-300 | ends with the runs of the loop over the frames in the page tables, at a page without a page table, past the end of a table, or at the failed assertion; unless a table is missing, it gives the translation of every byte of the range, in order, exactly if that loop is right, as it is for a good request; no run is longer than the limit |
| PageVector.IovecMisplaced | boot/paging.cc:196-300 | with page tables that place the pages so, the bytes of the request are not what is given |
| PageVector.ByteIsTranslated | boot/paging.cc:222-232 | the byte computed from the entry is the one the processor reaches |
| PageLoad.ReadRuns | boot/paging.cc:313-322 | the runs receive consecutive parts of the file; refused exactly if the file is too short |
| PageLoad.IovecRead | boot/paging.cc:302-325 | where the loop over the page tables is right, as for a good request, memory is as if byte i of the file's part had been stored at the translation of byte i of the range, and it halts only for a missing page table or a short file |
| PageLoad.StoredAt | boot/paging.cc:302-325 | an address holds what was stored there last |
| PageLoad.Loaded | boot/paging.cc:302-325 | when no two bytes of the range share memory, the processor reads byte i of the file's part at byte i of the range |
| RecursiveMap.PtesFromAddr | kernel/arch/mmu.h:267-278 | the four addresses are those of the four entries on the walk |
| RecursiveMap.TableBases | kernel/arch/mmu.h:158-187 | the four window bases are the canonical addresses of slot 256 repeated one to four times |
| RecursiveMap.EntryOfEntry | kernel/arch/mmu.h:267-278 | the entry one level up is the page-table entry of the address where the entry itself is seen |
| RecursiveMap.InWindow | kernel/arch/mmu.h:158-187 | every entry address is canonical, aligned to 8 and in the 512 GiB window of slot 256 |
| RecursiveMap.ReachesOwnSlot | kernel/arch/mmu.h:158-187 | with the root in its own slot 256, the processor's walk of an address's last entry ends at that very entry |
| RecursiveMap.ReachesOwnEntries | kernel/arch/mmu.h:267-278 | the same for the entries of all four levels |
| RangeTable.BelowIsPrefix | boot/physmap.cc:417-469 | in a sorted table the number of bases below a limit is the index where they end |
| PhysMap.Table.Delete | boot/physmap.cc:417-435 | removes the one range; the table stays sorted and both counters exact |
| PhysMap.Table.InsertAt | boot/physmap.cc:443-469 | adds the one range; the table stays sorted and both counters exact |
| PhysMap.Table.FindInsertionPoint | boot/physmap.cc:471-493 | the index keeps the order; it is the lower bound exactly if the table does not end in an empty range at this base |
| PhysMap.Table.MergeBack | boot/physmap.cc:349-374 | joining two touching ranges changes no address's kind and no total |
| PhysMap.Table.Validate | boot/physmap.cc:331-393 | without fixing, fine exactly if the table is proper; with fixing, fine exactly if the ranges follow one another and the first of those joined are whole pages, and the table left is then proper exactly if every free range that none continues ends on a page; joining changes no address's kind |
| PhysMap.PartAccepted | boot/physmap.cc:331-393 | a free page continued by a part of a page is accepted when joining |
| PhysMap.Table.Insert | boot/physmap.cc:496-503 | the table covers what it did and the new range, kind by kind |
| PhysMap.Table.Replace | boot/physmap.cc:437-441 | one range is exchanged for another, and the table stays sorted |
| PhysFixUp.FixInside | boot/physmap.cc:192-223 | a range inside another yields or is cut out: nothing usable is lost unless claimed, the measure drops, and what was claimed is forgotten exactly where a usable range other than the two reaches |
| PhysFixUp.FixOverlap | boot/physmap.cc:225-250 | of two overlapping ranges the usable one yields: nothing usable is lost unless claimed, and the measure drops |
| PhysFixUp.FixTouching | boot/physmap.cc:286-298 | two touching usable ranges become one with the same addresses |
| PhysFixUp.FixPair | boot/physmap.cc:182-299 | something is repaired, and the measure drops, exactly if something is left to do for the pair |
| PhysFixUp.FixPass | boot/physmap.cc:180-300 | a pass repairs something, or no pair is left to repair |
| PhysFixUp.NoClash | boot/physmap.cc:158-300 | if no two neighbours clash, no usable range overlaps any other kind of range anywhere in the table |
| PhysFixUp.SettledExclusive | boot/physmap.cc:158-300 | at the fixpoint no address is both usable and claimed |
| PhysFixUp.FixUp | boot/physmap.cc:158-300 | ends on every page-aligned map; what is left usable was usable and is claimed by nothing left, all that was usable and unclaimed is kept, and no address has more holders than before; if neither usable ranges nor the others overlap among themselves, nothing claimed becomes usable and the map left is tidy |
| PhysFixUp.SettledTidy | boot/physmap.cc:158-300 | a settled map without two holders of one sort is one the allocator can work on |
| PhysFixUp.ForgottenClaim | boot/physmap.cc:192-223 | a claimed range inside another, with a usable one reaching into it, ends usable |
| PhysFixUp.UsableOverlapStays | boot/physmap.cc:182-299 | two usable neighbours that overlap are left alone exactly if the second reaches past the first |
| PhysAlloc.AllocHigh | boot/physmap.cc:543-582 | the last page of the highest free range, and no other address, becomes allocated; tidy exactly if the range had more than a page, counters exact unless a range was pulled over a limit; halts exactly without free memory |
| PhysFree.CheckFreeSpace | boot/physmap.cc:31-38 | the sum of the sizes of all free ranges |
| PhysFree.FindBlock | boot/physmap.cc:763-783 | the binary search finds the one block the address lies in exactly if the search window does not begin behind the range after it |
| PhysFree.FreeWhole | boot/physmap.cc:785-893 | a whole block becomes free and is joined to its free neighbour; the check fails exactly when both neighbours are free |
| PhysFree.FreeHead | boot/physmap.cc:802-893 | the front of a block becomes free, and nothing else |
| PhysFree.FreeMiddle | boot/physmap.cc:810-843 | the middle of a block becomes free, and nothing else |
| PhysFree.GapLost | boot/physmap.cc:881-884 | closing a gap loses just the free range after it |
| PhysFree.FreePhys | boot/physmap.cc:746-905 | succeeds exactly if the search window does not begin behind the range after the block, and the range is neither the end of a longer block nor a block between two free ranges; then exactly its addresses go from allocated to free |
| PhysTake.RealignAgrees | boot/physmap.cc:621-648 | the moved base agrees with a page-aligned address modulo 16 KiB |
| PhysTake.TakeWhole | boot/physmap.cc:676-692 | the block before takes the free range in, and all blocks that now touch it |
| PhysTake.Take | boot/physmap.cc:650-717 | exactly the front of the range becomes allocated, in one block |
| PhysTake.GiveBack | boot/physmap.cc:726-727 | the part taken only for the alignment is free again, and the assertions of freeing hold |
| PhysTake.TakeAligned | boot/physmap.cc:617-743 | what stays allocated is what is returned |
| PhysTake.AllocPhys | boot/physmap.cc:589-744 | takes the first range from the search start on that can be used, and halts exactly if all that can be used below 4 GiB lies before the search start; exactly the returned range goes from free to allocated, free space drops by its size, and the base agrees with the address modulo 16 KiB |
| PhysSplit.PiecesCover | boot/physmap.cc:1074-1105 | the pieces of a range cover its addresses and no others |
| PhysSplit.PiecesSplit | boot/physmap.cc:1074-1105 | large pieces are whole large pages, and no whole 2 MiB page is left in a small piece |
| PhysSplit.PiecesCoarse | boot/physmap.cc:1074-1105 | no whole 1 GiB page is left in a piece of 2 MiB pages |
| PhysSplit.SplitOne | boot/physmap.cc:1107-1157 | the range is replaced by its pieces, in place |
| PhysSplit.SplitLarge | boot/physmap.cc:1034-1159 | afterwards no whole 2 MiB page is left in free memory of small pages, nor a 1 GiB page in a range of 2 MiB pages unless one was there before, and every address has the memory it had |
| HeapShape.LiveDisjoint | boot/malloc.cc:77-128 | blocks in use are disjoint, lie in the heap and start on a unit |
| HeapShape.MergedTiled | boot/malloc.cc:109-128 | merging free neighbours keeps the heap tiled by valid headers |
| HeapShape.CutTiled | boot/malloc.cc:170-202 | cutting a block keeps the heap tiled by valid headers |
| HeapShape.GapIsBlock | boot/malloc.cc:109-128 | once free blocks are merged, every maximal free stretch is one block |
| Malloc.AdjustUnits | boot/malloc.cc:162-167 | the adjustment is whole units and brings the payload to the next aligned address |
| Malloc.BootHeap.constructor | boot/malloc.cc:77-97 | one free block from the rounded start to the end sentinel |
| Malloc.BootHeap.Coalesce | boot/malloc.cc:109-128 | the block takes in all free blocks after it, and no block in use or its contents change |
| Malloc.BootHeap.Visit | boot/malloc.cc:150-213 | one turn of the search merges what follows the block, says whether the block has room, and keeps the rover on the first free block if it was |
| Malloc.BootHeap.Search | boot/malloc.cc:140-226 | on every heap tiled by blocks, ends if the rover is not on a free block that follows a free one, or if there is room; it finds a block exactly if some maximal free stretch has room, and the one found is the first with room from the rover up and around |
| HeapSearch.FoundNext | boot/malloc.cc:140-226 | the block found is the first stretch with room, from the rover to the end and then from the start |
| HeapSearch.NextLowest | boot/malloc.cc:140-226 | if no free block lies below the rover, that is the lowest maximal free stretch with room |
| HeapSearch.NotPassed | boot/malloc.cc:150-221 | the loop does not pass the block it started from unless that is a free block that follows a free one |
| HeapSearch.AllSeen | boot/malloc.cc:140-226 | when every stretch from the rover to the end and from the start to the rover was seen without room, no maximal free stretch has room |
| Malloc.BootHeap.MallocAligned | boot/malloc.cc:135-226 | where its search ends, null exactly for nothing or when no maximal free stretch has room; otherwise a new aligned block in the first one with room from the rover on, the lowest if no free block lies below the rover, and all other payload is unchanged |
| Malloc.BootHeap.Free | boot/malloc.cc:324-349 | the block, and no other, is no longer in use; a block that is free already is refused; the rover is left on a free block that follows a free one exactly if it comes to the block freed and a free one precedes that, or if it was there below it |
| Malloc.BootHeap.PrepareGrow | boot/malloc.cc:249-262 | the guard of the extension in place never holds; a rover in the free stretch after the block comes to its start |
| Malloc.BootHeap.Move | boot/malloc.cc:288-301 | the new block begins with the old payload, and the old block is free |
| Malloc.BootHeap.Grow | boot/malloc.cc:249-301 | null exactly when nothing has room, and then nothing changes; otherwise a new aligned block in the first stretch with room, with the old contents, in the old one's place |
| Malloc.BootHeap.Shrink | boot/malloc.cc:303-318 | the block keeps its beginning; the rover keeps its promise exactly if it did and does not point past the new block, and is on a free block that follows a free one exactly if it was or pointed to a free block right behind the old one |
| Malloc.BootHeap.SearchTurn | boot/malloc.cc:150-221 | a turn of the search loop leads to the next block or around to the first, and never to a free block that follows a free one; a fit means that a maximal free stretch has room |
| Malloc.BootHeap.SearchAstray | boot/malloc.cc:140-226 | with the rover on a free block that follows a free one and no room, no number of turns ends the search |
| Malloc.BootHeap.ReallocAligned | boot/malloc.cc:235-322 | as malloc for null, growing, shrinking or nothing to do, with the exact effect of each |
| TraceNesting.MatchCloses | pif-trace/pif-trace.cc:783-842 | a call returns only once |
| TraceNesting.StackStep | pif-trace/pif-trace.cc:792-809 | pushing calls and popping at returns keeps the stack the list of open calls, outermost first |
| TraceNesting.TopInnermost | pif-trace/pif-trace.cc:795-808 | the top of the stack, and nothing else, is the innermost open call |
| TraceNesting.DepthStep | pif-trace/pif-trace.cc:703-715 | the indent rule computes calls minus returns |
| TraceNesting.MatchDepth | pif-trace/pif-trace.cc:703-715 | a call and its return have the same depth, and everything between lies deeper |
| TraceNesting.NeverReturns | pif-trace/pif-trace.cc:703-715 | a call that never returns is followed only by deeper records |
| TraceTimes.CallKnown | pif-trace/pif-trace.cc:795-801 | entering a call keeps all that is known of callers and times |
| TraceTimes.ReturnKnown | pif-trace/pif-trace.cc:795-838 | noting the time of a call and charging it to its caller keeps all that is known, one record further |
| TraceTimes.AnalyzeCalls | pif-trace/pif-trace.cc:783-842 | every record has the innermost open call as caller; a returned call has the time to its own return; child time is what the direct calls took, never more than the call's own time; all time is child time of some call or time of an outermost one |
| TraceView.Indents | pif-trace/pif-trace.cc:703-715 | every indent is the depth, kept in 16 bits |
| TraceView.Normalize | pif-trace/pif-trace.cc:760-781 | every indent is lowered by the least one |
| TraceView.NormalizedFaithful | pif-trace/pif-trace.cc:760-781 | indents are equal exactly if depths are equal modulo 65536, before and after |
| TraceView.NormalizedExact | pif-trace/pif-trace.cc:760-781 | an indent is the depth above the least one exactly if that fits 16 bits |
| TraceView.ScanFindsEnd | pif-trace/pif-trace.cc:1470-1483 | the next equal indent is the call's return, or the end for a call that never returns, exactly if nothing in the call lies 65536 levels deeper |
| TraceView.BackToCall | pif-trace/pif-trace.cc:1540-1554 | walking back from a return to an equal indent finds its call, under the same exact condition |
| TraceView.Collapse | pif-trace/pif-trace.cc:1470-1486 | hides and folds exactly the records up to the end found, if the call was open and has content |
| TraceView.ExpandAll | pif-trace/pif-trace.cc:1523-1538 | shows and opens exactly the records up to the end found |
| TraceView.StackBelow | pif-trace/pif-trace.cc:501-510 | when the innermost open call was entered, the open calls were the others |
| TraceView.CallPath | pif-trace/pif-trace.cc:501-510 | following the caller links gives exactly the open calls, outermost first, and then the record |
| TraceView.Hottest | pif-trace/pif-trace.cc:810-825 | the first of the records indented one level more that took longest; none exactly if none took time |
| TraceView.HottestIsDirect | pif-trace/pif-trace.cc:810-825 | where indents tell depths, those of them that took time are exactly the direct calls that did |
| TraceProfile.FlatProfile | pif-trace/pif-trace.cc:886-904 | each function gains the times and the number of its calls, in 64-bit counters |
| TraceProfile.SelfTimesAddUp | pif-trace/pif-trace.cc:886-904 | the self times a thread adds sum to the times of its outermost calls |
| TraceProfile.SelfNotNegative | pif-trace/pif-trace.cc:886-904 | when every call returned, no self time wraps |
| TraceProfile.WrapsExactly | pif-trace/pif-trace.cc:886-904 | a self time is negative exactly for a call that never returned but made a call that took time and returned |
| TraceProfile.OpenCallWraps | pif-trace/pif-trace.cc:783-904 | the analysis of such a trace gives a self time that wraps |
| DiskPlan.Plan.Grow | boot/fs.cc:78-86 | the list keeps its entries and has room for one more; with 32769 entries it is shrunk to 16 |
| DiskPlan.LastGrowth | boot/fs.cc:78-86 | a growth makes room exactly if fewer than 32769 entries are there |
| DiskPlan.Plan.Add | boot/fs.cc:54-96 | the last entry is extended or one is added; refused only without memory; written outside the list exactly for one that does not join 32769 others, if the heap gives the memory asked for |
| DiskPlan.AddedBytes | boot/fs.cc:54-96 | joined or not, the added part comes after all bytes planned before |
| Fat32.PartIsSlice | boot/fs/fat32.cc:821-845 | the part of a request in one sector is a slice of the concatenated clusters |
| Fat32.PlanDelivers | boot/fs/fat32.cc:819-845 | carried out in order, the plan delivers the requested slice |
| Fat32.PlanShort | boot/fs/fat32.cc:819-845 | a request of n sectors takes at most n + 1 transfers |
| Fat32.PlanScattered | boot/fs/fat32.cc:819-845 | whole sectors of which none follows the one before take a transfer each |
| Fat32.LongPlan | boot/fs/fat32.cc:819-845 | a file of n clusters of a sector, every other one on the disk, read whole takes n transfers |
| FatReader.HitIsRight | boot/fs/fat32.cc:140-189 | a 32-bit label that matches the wanted sector means that the buffer holds it |
| FatReader.Volume.ReadFat | boot/fs/fat32.cc:140-146 | the buffer holds the sector, or is marked empty |
| FatReader.Volume.NextCluster | boot/fs/fat32.cc:153-189 | what the FAT on the disk says, 28 bits of it, whatever was looked up before; the disk is read only for another sector than the last; fails exactly if the disk does |
| FatReader.Volume.CountChain | boot/fs/fat32.cc:94-102 | the length of the chain; fails exactly if one of the disk reads that the walk needs through the cache does |
| FatReader.Volume.FillChain | boot/fs/fat32.cc:117-124 | the list is the chain; when the read for a cluster's entry is the first to fail, it is the chain up to that cluster and what it was before after it |
| FatReader.Volume.Begin | boot/fs/fat32.cc:82-136 | halts exactly if the chain was counted and is empty or the heap has no room for the list; otherwise -1 exactly if a read failed, and the sector read is the first, its number taken as a signed 32-bit one; exactly which list is left, by which disk reads fail and what the new memory held |
| FatReader.Volume.MakePlan | boot/fs/fat32.cc:819-845 | the plan of the request, refused only without memory; written outside its list only if it takes more than 32769 transfers |
| FatReader.Volume.Execute | boot/fs/fat32.cc:847-868 | the buffer holds the bytes of the plan and is unchanged past them, and the count is theirs; 0 if a read failed |
| FatReader.Volume.Pread | boot/fs/fat32.cc:802-869 | the buffer gets the requested slice of the concatenated clusters of the list the file has, or of its chain if it had none, and nothing past it, and the count is returned, unless a read fails, memory runs out, making the list halts, or the plan takes more than 32769 transfers |
| FatReader.LongRead | boot/fs/fat32.cc:802-869 | a read that takes more than 32769 transfers writes outside the plan |
| FatReader.ListReads | boot/fs/fat32.cc:819-845 | every read with a list delivers what the chain would exactly if the sectors it leads to have the same contents |
| FatReader.AgreesOnTouched | boot/fs/fat32.cc:819-845 | a read is right when the list agrees with the chain on the clusters it touches |
| FatReader.FilledReads | boot/fs/fat32.cc:117-124 | a read that touches only the clusters filled in is right, whatever the memory of the list held |
| FatReader.ReadAfterFailure | boot/fs/fat32.cc:802-869 | a file of two clusters, whose third disk read fails: the next read returns its full count with the contents of another sector |
| RadixCache.WalkPlace | boot/x86_bios/pxemain.cc:52-112 | what a path of slots leads to stands at the end of that path alone |
| RadixCache.HungWalk | boot/x86_bios/pxemain.cc:114-123 | committing a page changes where its own path leads, and no other |
| RadixCache.PathsDiffer | boot/x86_bios/pxemain.cc:54-62 | page numbers below the tree's limit have different slots |
| RadixCache.Tree.Commit | boot/x86_bios/pxemain.cc:114-123 | the slot gets a page that was not in use, cleared |
| RadixCache.Tree.Lookup | boot/x86_bios/pxemain.cc:78-112 | the page of the key, the same as before if there was one, blank if not; no other page moves or changes; null only without memory |
| RadixCache.Tree.Find | boot/x86_bios/pxemain.cc:66-76 | the page of the key, or null |
| PxeFile.DistinctPages | boot/x86_bios/pxemain.cc:52-112 | different pages of a file are cached in different pages of memory |
| PxeFile.StableCache | boot/x86_bios/pxemain.cc:52-112 | growing the tree changes no cached byte |
| PxeFile.StoredCache | boot/x86_bios/pxemain.cc:250-264 | bytes copied into a page appear at their offsets and nowhere else |
| PxeFile.OpenFile.CopyBlock | boot/x86_bios/pxemain.cc:248-266 | a block goes into the cache after what was received, across pages |
| PxeFile.OpenFile.Fetch | boot/x86_bios/pxemain.cc:235-274 | one more block goes into the cache; the transfer ends exactly with a block that is not full; the server is asked out of turn exactly if what the slot had received before puts the number off or all 65535 are used |
| PxeFile.OpenFile.ReadUntil | boot/x86_bios/pxemain.cc:230-275 | the cache holds the contents up to the offset, or to the end of the file; the server is not asked for what was received, and asked out of turn only if the number is put off or the offset lies past 65535 blocks; fails only if the server does, is asked out of turn, or memory runs out |
| PxeFile.OpenFile.Pread | boot/x86_bios/pxemain.cc:197-228 | a request in the file is answered with the bytes of the slot's contents and its length, those of the file on a fresh slot; one past its end with zeros or a refusal; the server is asked out of turn only for bytes not received, if the number is put off or the request reaches past 65535 blocks |
| PxeFile.OpenFile.Open | boot/x86_bios/pxemain.cc:171-187 | the next file starts a transfer at block 1 behind what the slot had received |
| PxeFile.NextBlock | boot/x86_bios/pxemain.cc:243-244 | the 16-bit number sent is that of the next block exactly if fewer than 65535 came before and the whole blocks kept are a multiple of 65536 |
| PxeFile.ServesIff | boot/x86_bios/pxemain.cc:171-275 | a slot serves its next file exactly if nothing was received in it before and the file has at most 65535 blocks, or if it was received whole already, or if it repeats what was received and that does not put the block number off |
| PxeFile.ReadServed | boot/x86_bios/pxemain.cc:197-228 | in a slot that serves its file, every read in the file gets its bytes, unless the server fails or memory runs out |
| PxeFile.ReadUnserved | boot/x86_bios/pxemain.cc:197-228 | in a slot that does not, a read of the whole file just opened is refused or gets other bytes |
| PxeFile.ReadReopened | boot/x86_bios/pxemain.cc:171-275 | a file of two blocks, opened again after one was read: the next read asks out of turn and fails |
| Completion.Iocp.SetExpect | kernel/device/iocp.h:145-153 | the locked section of set_expect, and whether the caller is the one to call back |
| Completion.Iocp.Invoke | kernel/device/iocp.h:163-169 | the locked section of invoke, and whether the caller is the one to call back |
| Completion.Iocp.SetResult | kernel/device/iocp.h:155-161 | without overlap, the first result is kept, and any failure after it |
| Completion.Iocp.Reset | kernel/device/iocp.h:189-196 | everything but the result starts anew |
| Completion.Safe | kernel/device/iocp.h:145-249 | under every interleaving: the counts are exact, the callback is taken once, and the result is that of a part once one is recorded |
| Completion.FiresOnceAtTheEnd | kernel/device/iocp.h:145-249 | under every interleaving the callback is called at most once, only after set_expect and all invokes, with the result of a part; the handler's assertion holds; a waiter returns only after the call, with that result |
| Completion.ExactlyOnce | kernel/device/iocp.h:145-249 | when every party gets its turns, in whatever order, the callback is called exactly once |
| Completion.FailsIffSomeFailed | kernel/device/iocp.h:155-161 | if calls of set_result do not overlap, the status is a failure exactly if some part failed, whatever was left from before the reset |
| Completion.LostFailure | kernel/device/iocp.h:155-161 | for any results, the result of any one part can be the one reported |
| Completion.AlwaysRightIff | kernel/device/iocp.h:155-161 | the status is right under every interleaving exactly if the parts all succeed or all fail |
| Completion.NoParts | kernel/device/iocp.h:145-196 | a request without parts reports what the last one left |

## Left out

- Paging.PageTables.MapPhysical: stated for physical addresses below 2^52 and linear ranges that do not run over the top of the 48-bit space, with no larger page on the way.
- PageVector.Iovec: stated for limits above zero and linear ranges that do not run over the top of the 48-bit space, with no large page in the way; what is read past the end of a table is not modelled.
- PageLoad.IovecRead: says what memory holds only where the loop over the page tables is right; for the other requests Iovec says which runs are read.
- PhysTake.AllocPhys: stated for `insist == false` and more than a page (up to a page the source calls alloc_high); the chosen range must end at or below 4 GiB, and a range must follow it when a part is given back, because the source reads the entry after it.
- PhysFree.FreePhys: stated for a range inside one allocated block that some range follows, because the source looks at the entry after it; a free range that begins at 4 GiB must not follow it.
- PhysMap.Table.Validate: the messages it prints are left out.
- Malloc.BootHeap.ReallocAligned: requests near 2^32 bytes, where sizes would wrap, are excluded, and so are those whose search does not end.
- Malloc.BootHeap.MallocAligned: stated where its search ends, and for sizes that do not wrap; SearchAstray states what happens where it does not.
- RadixCache.Tree.Lookup: returns null without memory, as its own checks have it; alloc_phys of one page goes to alloc_high, which panics instead (boot/physmap.cc:579, 591).
- FatReader.Volume.Pread: stated for requests in the list, of fewer than 2^32 bytes, and sector numbers of 32 bits; the chain must be finite; what is overwritten past the plan's memory is not modelled.
- PxeFile.OpenFile.Pread: stated for offsets in the range of the tree (512 GiB with 9 bits to a level, 4 TiB with 10); a server asked out of turn is taken to send nothing.
- TraceTimes.AnalyzeCalls: works on one thread's records in time order; reading the file, dealing records to threads and the stable sort by time stamp are not part of this model.
- The access rights of upper-level entries (they are combined by the processor) and the meaning of the PAT bit.
- Large pages on the way to a smaller mapping: paging_find_pte does not look for them, and the contracts exclude them.
- paging_alias_range, paging_modify_flags, paging_physaddr_of and paging_access_virtual_memory (boot/paging.cc).
- physmap_take_range, and the first steps of physmap_init that read and round the firmware's map (boot/physmap.cc).
- calloc, malloc_validate, the heap_free counter and the debug fill patterns (boot/malloc.cc).
- Directory iteration, name matching, the parameter block and opening files (boot/fs/fat32.cc); iso9660.
- BIOS disk calls, PXE calls and the bounce buffer's allocation; several PXE files open at once, of which only the last has a running transfer.
- Completion.FiresOnceAtTheEnd: takes the store of a result, which is a pair, for one step; a reader that sees one half of a store and not the other is left out, as in Completion.Safe and Completion.LostFailure.
- wait_until and its timeout, and destroying a completion (kernel/device/iocp.h).
- The viewer's drawing, cursor movement and searching, tree_expand, and the sorting and printing of the profile (pif-trace/pif-trace.cc).
- The rest of the kernel: only the files named above are modelled.
