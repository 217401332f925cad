# Memory management and scheduling of a small x86-64 kernel

A Dafny model of the parts of the kernel and its UEFI loader that manage memory and threads, with proofs of
what they keep. `dafny verify dfyconfig.toml` checks all of it.

| file | what it holds |
|---|---|
| Options.dfy, Bits.dfy, KernelH.dfy | the option datatype; C's bit operators on naturals; the address macros of include/kernel.h as arithmetic |
| Frames.dfy, MemoryMap.dfy | what the rows of the frame bitmap mean; the memory map both programs parse |
| PageTree.dfy, Subtree.dfy | four-level page tables (section 4.5 of the Intel SDM, Volume 3A) as trees, apart from the code |
| Mmu.dfy | the processor's walk over the words of page tables, and what it finds |
| Draw.dfy | which frames building tables takes, as a function of the state before |
| Pmm.dfy | the kernel's frame allocator and page-table code, on words of memory |
| Boot.dfy, Loader.dfy | the loader's page-table code, its memory-map parsing, and where kernel segments go |
| BlockIds.dfy, BlockBitmap.dfy | the two-bit ids of the block allocator; the allocator on one byte array |
| Vmm.dfy | virtual ranges backed by frames: valloc, vfree and every run of them |
| ThreadVmm.dfy | the address space of a new thread, built beside the kernel's in the same memory |
| SchedulerSpec.dfy, Fairness.dfy, Scheduler.dfy | the scheduling policy over sequences, with its runs; how long a thread can wait; the linked lists that implement it |
| Strings.dfy, Rtc.dfy | numbers as text; the weekday |

## How it is modelled

Code that changes things in place is a class with those fields (`Pmm.Kmem`, `Boot.Loader`, `BlockBitmap.Bitmap`,
`Vmm.AddressSpace`, `Scheduler.Thread`, `Scheduler.Cpu`) or a method on an array. Each method is proved against
functions and predicates on values, and the properties of those are lemmas.

- **Page tables.** Physical memory is a map from frame and index to a 64-bit word; unwritten words read 0. A
  ghost map from slots (level and page-number prefix) to frames says which frames are tables. `Extends` relates
  the states before and after any number of mappings: it fixes every leaf, every link, the free set and every
  word outside the tables. `map_addr` is proved for all inputs to end, by the free frames, and to do its work
  exactly when it is `Supplied`: some n of the lowest free frames are as many as the tables missing for the page
  and for the pages of those n frames. The least such n frames are the ones it takes (`Draw.Drawn`). `Enough` is a
  simpler bound that lasts over runs. Virtual pages are told apart by their low 48 bits.
- **Block allocator.** `Version` chooses between the accessors as written and the repaired pair. The repaired
  version differs in four places: `set_bm` clears the field before it stores, `get_bm` shifts the field down, the
  last block counts as a right neighbour, and `bm_free` lowers `used` by the blocks it cleared. The loops over a
  run read one id past its end before they test the bound, as the source does; the byte read is proved to lie in
  the region. Lemmas say exactly when the version as written meets the property.
- **Address spaces.** `Vmm` uses the repaired ids, for any region past page 0. A frame that becomes a page table is
  mapped to itself, over whatever page has that number, and when no range fits, `valloc` maps the frames it took from
  address 0 on and returns NULL. Whether a call harms a live page is decided by the state before it (`Harmless`). In a
  `Secure` region tables do no harm: none of its pages is numbered like a free frame, as in the kernel's region past
  all frames, or all pages up to its end have their tables, as in a thread's 32 pages from page 1 on. What remains
  there is the failed `valloc`: in a thread's region it runs over the region's own first page (`FailedValloc`).
  `vfree` does not unmap, so freed blocks keep stale entries, and it does not check that its block is allocated: a
  second `vfree` of a range gives back what those entries name. `Keeps` is the exact condition under which a call
  leaves the tables and live pages in order, and `DoubleFree` is a run that fails it. `Run` is about secure regions and
  `Orderly` runs, with neither of the two. The frames of failed allocations are counted as lost. `InitVmm` assumes
  (`Tame`) that no page of the new region names a frame past the end of memory already.
- **The processor's view.** `Mmu.Walk` reads words only: it follows four indices, faults at an entry whose bit 0 is
  clear, and collects the writable and user bits on the way. What the mapping code does is stated on it as well as on
  the tree, with addresses, sizes and flags written out.
- **New threads.** The kernel's tree and the thread's tree share one memory; the loader's records of the image
  segments, the heap regions and the other ranges are parameters. `Fits` asks that the pages of the kernel image and
  heap, the framebuffer and the frame bitmap are not numbered like free frames, that pages 1 to 32 are in none of
  the ranges, and that frames are left over for the tables. Where ranges overlap the later mapping wins, in the order
  of `Wanted`. The thread's ids, heap and stack come from `Vmm` itself.
- **Scheduler.** One CPU, from the policy body on: src/kernel/scheduler/scheduler.c:20 returns the idle thread
  before it, a bring-up shortcut. Registers are one value; the tick counter does not overflow, wakeup times are
  64-bit sums. `Event` lists what can happen; `Exec` runs any sequence of events and collects the dispatches. A woken
  thread goes to the front of the run list, and a thread that falls asleep sends the choice back there, so waiting is
  bounded only when sleeps are counted.
- **Numbers.** C integers are naturals with the wrap-around written out where it can happen.

Where comments and code differ, the code is followed: src/kernel/mem/pmm.c:24 reserves frame 8 for starting other
processors, but the area loop after it frees the frame again when a usable descriptor covers it. The guard at
src/kernel/mem/pmm.c:211 lets the frame number mem_pages pass; its row lies past the bitmap when mem_pages is a
multiple of 64, and `PmmSetArea` and all that use it leave out only areas holding that frame then.

Assumptions that stand in preconditions: at most 65535 rows in the frame bitmap (its row counter has 16 bits),
page-aligned descriptors that do not wrap, a block region with fewer than 2^63 bytes at addresses that do not wrap.

## Model

| member | source | states |
|---|---|---|
| KernelH.AlignAddrIs | include/kernel.h:25 | ALIGN_ADDR of a 64-bit address is the start of its page |
| KernelH.SignMaskIs | include/kernel.h:32 | an entry masked with SIGN_MASK is the address of its frame: bits 12 to 51 |
| KernelH.IndicesAre | include/kernel.h:28-31 | P4_ENTRY to P1_ENTRY are the base-512 digits of the 48-bit page number, most significant first |
| KernelH.IndicesOfAligned | include/kernel.h:25-31 | aligning an address first changes neither its page nor its four indices |
| KernelH.PAddrUndoesVAddr | include/kernel.h:23-24 | on physical addresses VADDR adds the higher-half offset and PADDR takes it away again |
| KernelH.DivCeilIs | include/kernel.h:27 | DIV_CEIL on 64-bit words reaches its operand exactly when the inner sum does not wrap, and then is the least such quotient |
| Frames.SetBit | src/kernel/mem/pmm.c:213 | or-ing a bit into a row removes exactly that frame from the free set |
| Frames.ClearBit | src/kernel/mem/pmm.c:220 | and-ing with its complement adds exactly that frame |
| Frames.FullRow | src/kernel/mem/pmm.c:230 | a row equals BITMAP_ROW_FULL exactly when it holds no free frame |
| Frames.FreeIs | src/kernel/mem/pmm.c:219-220 | frame f is free exactly when bit f % 64 of row f / 64 is 0 |
| Pmm.Kmem.PmmSetBit | src/kernel/mem/pmm.c:207-214 | the rows keep meaning the free set; the frame leaves it, and addresses that are 0 or past memory change nothing |
| Pmm.Kmem.PmmClearBit | src/kernel/mem/pmm.c:216-221 | the frame joins the free set, as far as the rows reach; address 0 changes nothing; the set stays one of frames of memory exactly for address 0 and the nonzero frames of memory |
| Pmm.Kmem.PmmCheckBit | src/kernel/mem/pmm.c:223-226 | true exactly when the frame is free |
| Pmm.Kmem.PmmRequestFrame | src/kernel/mem/pmm.c:228-236 | the least free frame, -1 exactly when none is free; the scan with its 16-bit row counter ends |
| Pmm.Kmem.AllocFrame | src/kernel/mem/pmm.c:171-179 | takes the least free frame and returns its address, never 0 or past memory; NULL exactly when none is free, and then nothing changes |
| Pmm.GivenOnce | src/kernel/mem/pmm.c:171-179 | over any run of alloc_frame, set and clear, no frame is handed out twice without its bit being cleared in between |
| Pmm.Kmem.FrameCalls | src/kernel/mem/pmm.c:171-221 | every sequence of calls to alloc_frame, pmm_set_bit and pmm_clear_bit is such a run |
| Pmm.Kmem.PmmSetArea | src/kernel/mem/pmm.c:197-200 | removes exactly the frames of the area from the free set; an area may reach past memory, as long as the one frame whose row lies past the bitmap is not in it |
| Pmm.Kmem.PmmClearArea | src/kernel/mem/pmm.c:202-205 | adds exactly the frames of the area other than frame 0, also past the end of memory as far as the rows reach; the set stays one of frames of memory exactly when the area ends there |
| Pmm.Kmem.InitPmm | src/kernel/mem/pmm.c:18-35 | whatever the rows held before, a frame is free afterwards exactly when it is not frame 0 and a descriptor whose 8-bit type is 3, 4 or 7 covers it |
| MemoryMap.BitmapCovers | src/boot/mem.c:153-168 | the bitmap sized from a memory map holds the bit of every frame of every descriptor of that map |
| MemoryMap.PastTheBitmap | src/kernel/mem/pmm.c:209-213 | pmm_set_bit, whose guard lets frame mem_pages pass, writes past the bitmap's end exactly for that frame and exactly when mem_pages is a multiple of 64 |
| MemoryMap.OnePastTheBitmap | src/kernel/mem/pmm.c:209-213 | 128 pages of memory are such a case |
| MemoryMap.TypeCut | src/kernel/mem/pmm.c:29-30 | cutting the type to 8 bits changes the answer exactly for types of 256 and more whose low 8 bits are 3, 4 or 7, such as 0x103 |
| PageTree.WalkIndices | src/kernel/mem/pmm.c:56-62 | the four indices lead down the path of the page, so the walk visits exactly the tables of its prefixes |
| PageTree.AddedIsValid | src/kernel/mem/pmm.c:64-68 | linking a cleared free frame into an empty entry leaves a depth-4 tree in which no frame is linked twice |
| PageTree.LeafWritten | src/kernel/mem/pmm.c:87-88 | writing the leaf of a page whose tables exist maps that page and no other, and keeps every link |
| PageTree.ExtendsTrans | src/kernel/mem/pmm.c:53-89 | two mappings in a row are one extension of the tree: later entries win, tables never move, every frame that became a table is identity-mapped unless mapped again |
| PageTree.MappingTranslates | src/kernel/mem/pmm.c:53-89 | after map_addr the page translates to the aligned physical address, every frame taken as a table to itself, and every other page as before |
| PageTree.SelfMappedKept | src/kernel/mem/pmm.c:64-85 | all tables stay mapped to themselves exactly when no explicit mapping changes the page of one of them |
| PageTree.RunIsExtension | src/kernel/mem/pmm.c:53-89 | every run of map_addr calls is one extension of the tree, so the tables stay a tree without sharing and no frame is handed out twice |
| PageTree.MappedPageSurvives | src/kernel/mem/pmm.c:53-89 | through any run a page keeps its entry when it is neither mapped again nor numbered like a free frame |
| PageTree.RunConserves | src/kernel/mem/pmm.c:171-179 | over any run the frames that left the free set are exactly the new tables |
| PageTree.TablesConserved | src/kernel/mem/pmm.c:64-85 | one extension turns free frames into tables one for one |
| PageTree.AtMostThree | src/kernel/mem/pmm.c:53-89 | when every free frame's page already has its three tables, one call takes at most three frames, all for its own path, and this stays so |
| Mmu.WalkIs | src/kernel/mem/pmm.c:53-89 | the processor's walk over the four levels of words in memory ends at the leaf of the page, for every page: a fault exactly when its bit 0 is clear, else the frame in bits 12 to 51, writable by bit 1, for user code by bit 2 when the links allow it |
| Mmu.WalkAfter | src/kernel/mem/pmm.c:53-89 | after any mappings the processor finds explicitly mapped pages where and with the rights their entries say, pages numbered like new tables at those tables, writable and for the supervisor, and every other page as before |
| Mmu.PageWalks | src/kernel/mem/pmm.c:53-89 | for one mapped page, with the bits of its flags |
| Mmu.FrameFound | src/kernel/mem/pmm.c:133-153 | the address in the leaf, which translate_addr reports, is that of the frame the processor finds, whenever it finds one |
| Mmu.LinkingKept | src/kernel/mem/pmm.c:65-67 | new tables are linked present, writable, and for user code or not, as the old ones |
| Pmm.Kmem.LinkTable | src/kernel/mem/pmm.c:65-67 | the store into the parent and the clearing of the frame, word for word, also when allocation fails and frame 0 is linked |
| Pmm.Kmem.AddTable | src/kernel/mem/pmm.c:65-68 | with the recursive identity mapping: the tree grows by exactly this slot and the paths of the frames taken, all identity-mapped |
| Pmm.Kmem.NextTable | src/kernel/mem/pmm.c:64-71 | the per-level block: afterwards the entry leads to the table of this slot, also when the recursive call built it |
| Pmm.Kmem.LeafTable | src/kernel/mem/pmm.c:59-87 | the whole descent ends at the level-1 table of the page |
| Pmm.Kmem.MapAddr | src/kernel/mem/pmm.c:53-89 | ends for every input; does nothing for a zero address; when the lowest free frames suffice, the tree is extended by the page's path, maps exactly this page, and has drawn just the frames of Draw.Drawn, with no call nested in it if the page has its tables and one level of calls if all free frames' pages have theirs; the processor then finds this page at the frame of the address with the rights of the flags, new tables at themselves and all else as before; when the frames do not suffice, no map of tables makes the outcome such an extension |
| Draw.DrawnIs | src/kernel/mem/pmm.c:64-68 | the frames taken are a function of the slots with tables and the free frames before the call: the lowest, and as many as tables are missing once their own pages are counted |
| Draw.AddDraws | src/kernel/mem/pmm.c:65-68 | one table costs its frame and then what the page of that frame draws |
| Draw.DrawsTrans | src/kernel/mem/pmm.c:53-89 | the draws of calls in a row are the draw of all their paths together |
| Draw.RestSuffices | src/kernel/mem/pmm.c:53-89 | frames that suffice for both still suffice for the second after the first |
| Draw.OnlySupplied | src/kernel/mem/pmm.c:53-89 | and without that many no extension by the lowest frames exists |
| Pmm.Kmem.MapRange | src/kernel/mem/pmm.c:47-51 | a range off the pages of free frames is mapped page by page to consecutive frames, given frames enough for all its paths, and nothing else changes but identity entries of new tables |
| Pmm.Kmem.TranslateAddr | src/kernel/mem/pmm.c:133-153 | returns the frame address in the leaf of the page, and 0 when a table on its path is missing; a NULL table means the kernel's |
| Subtree.UnderSome | src/kernel/mem/pmm.c:156-160 | a table strictly below another is below one and only one of its 512 children |
| Pmm.Kmem.FreePageTable | src/kernel/mem/pmm.c:155-163 | frees exactly the frames of the tables at and below the given one, each of them once, and no frame that is only mapped |
| Pmm.Kmem.FreeTree | src/kernel/scheduler/thread.c:53 | for a whole tree: each table is freed once, and the free count rises by exactly the number of tables |
| Subtree.BelowRoot | src/kernel/mem/pmm.c:155-163 | from the root these are all tables of the tree, as many as the tree has, and adding them to a free set without them raises its size by that number |
| Boot.Loader.AllocTable | src/boot/mem.c:5-21 | the next page of the firmware, cleared; out of resources exactly when it has none |
| Boot.Loader.MapAddr | src/boot/mem.c:23-73 | on success the page is mapped and the tree extended like the kernel's, and the processor finds just this page, writable and for the supervisor, and the new tables; on failure the tree is still a tree, nothing mapped is lost; with enough pages it succeeds |
| Boot.Loader.MapRange | src/boot/mem.c:75-83 | any range: given enough pages it succeeds and maps page i to frame i of the range, except pages numbered like firmware pages that became tables |
| Boot.RangeIsExtension | src/boot/mem.c:75-83 | so a range off the numbers of the firmware's pages, such as the higher-half ones for the bitmap and the stack, is mapped in full and disturbs nothing else |
| Boot.RangeIdentically | src/boot/mem.c:75-83 | and a range mapped to itself ends up identity-mapped wherever it lies |
| Boot.Loader.MapIdentity | src/boot/mem.c:144-149 | an aligned identity range ends up identity-mapped and nothing identity-mapped before is lost |
| Boot.Loader.MapDescriptor | src/boot/mem.c:144-149 | identity-maps the descriptor's pages except page 0 |
| Boot.Loader.ParseMmap | src/boot/mem.c:134-170 | mem_pages is the highest descriptor end and the bitmap rows are the fewest that hold it; the processor finds every page other than page 0 of every descriptor of type 1, 2, 3, 4, 7 or 9, and every page of the bitmap, at itself, writable and for the supervisor; and every other page not numbered like a firmware page where it was |
| Boot.KernelStartsServed | src/boot/mem.c:139-151 | when every free frame lies in a descriptor that the loader identity-mapped, a map_addr call of the kernel takes at most three frames, and the state after it again serves every free frame; the map the kernel parses may be a later one |
| Boot.SameMapServed | src/kernel/mem/pmm.c:27-33 | init_pmm frees only such frames when it reads the map the loader read |
| Loader.PagesAreThoseOfBytes | src/boot/loader.c:9-10 | the page count of a segment is exactly the number of pages its bytes touch |
| Loader.LoadSegment | src/boot/loader.c:5-43 | leaves the record (vaddr, segment, pages) and maps exactly those pages to the segment's consecutive frames |
| Loader.BytesFound | src/boot/loader.c:24-41 | the processor finds byte i of a segment in place at virtual address vaddr + i, writable and for the supervisor |
| Loader.LoadSegments | src/boot/loader.c:144-169 | the kernel entries are those of the loadable headers in order, and in the final table every page of every one has the entry recorded for it, under links for the supervisor |
| Loader.EntriesStep | src/boot/loader.c:144-169 | the loadable headers are those of type 1 |
| Loader.PlacedLoads | src/boot/loader.c:24-41 | entries in place translate as their records say, which is what the space of a new thread relies on |
| BlockIds.GetAfterSet | src/kernel/mem/bitmap.c:95-105 | get after set returns the id always with the repaired pair; with the code as written exactly for column 0 (or id 0) and an id that contains the old field |
| BlockIds.SetField | src/kernel/mem/bitmap.c:95-99 | set_bm changes the field of its block and none of the other three in the byte |
| BlockIds.GetField | src/kernel/mem/bitmap.c:101-105 | get_bm shows zero exactly for a free block, in both versions |
| BlockIds.ColumnsDiffer | src/kernel/mem/bitmap.c:101-105 | as written, ids in different columns compare equal only when both blocks are free |
| BlockIds.DecodeSet | src/kernel/mem/bitmap.c:95-99 | storing an id through its byte changes the id of that block alone |
| BlockIds.RecordsUnique | src/kernel/mem/bitmap.c:60-77 | a sequence of ids stands for at most one map of start to length: disjoint runs covering every allocated block, touching ones with different ids |
| BlockIds.RangesRecorded | src/kernel/mem/bitmap.c:60-77 | and for at least one: the maximal same-id runs |
| BlockIds.PaintAddsExactly | src/kernel/mem/bitmap.c:43-45 | an allocation adds exactly its range to that map if and only if its id differs from both neighbours' ids |
| BlockIds.ClearRemoves | src/kernel/mem/bitmap.c:69-72 | clearing the run at a range's start removes that range and no other |
| BlockIds.ClearTail | src/kernel/mem/bitmap.c:69-72 | clearing from the middle of a range leaves its first part as a shorter range |
| BlockIds.ChosenRecorded | src/kernel/mem/bitmap.c:43-45 | the id bm_alloc chooses records the new range in the repaired version always, as written exactly when no neighbour outside column 0 or at the last block carries it |
| BlockIds.ThirdAllocationMelts | src/kernel/mem/bitmap.c:43-45 | as written, the third one-block allocation in a fresh region gets the second one's id and melts into it |
| BlockIds.NeverOverlap | src/kernel/mem/bitmap.c:29-58 | in every run of bm_alloc as written, results overlap neither each other nor the bitmap's own blocks |
| BlockBitmap.AllocatedIsStep | src/kernel/mem/bitmap.c:29-58 | a successful bm_alloc is a step of such a run |
| BlockBitmap.MetadataCovers | src/kernel/mem/bitmap.c:5 | BM_BLOCKS is the least number of blocks whose bytes hold all ids, four to a byte, and they fit in the region |
| BlockBitmap.BooksInitialised | src/kernel/mem/bitmap.c:17-24 | init_bitmap leaves exact bookkeeping in the repaired version always, as written exactly when no id past the bitmap's own blocks was set before |
| BlockBitmap.BooksAlloc | src/kernel/mem/bitmap.c:42-51 | allocation keeps `used` the number of nonzero blocks and everything below `ffa` nonzero, in both versions |
| BlockBitmap.BooksFree | src/kernel/mem/bitmap.c:69-76 | freeing keeps them too |
| BlockBitmap.Bitmap.InitBitmap | src/kernel/mem/bitmap.c:10-27 | the byte array after both loops, block by block, and exactly when it is a valid region |
| BlockBitmap.Bitmap.FirstAlloc | src/kernel/mem/bitmap.c:10-58 | in a fresh region the first request succeeds exactly when its bytes fit between the end of the ids, of which there are the least number of blocks, and the last block, and its address is that end |
| BlockBitmap.Bitmap.BmAlloc | src/kernel/mem/bitmap.c:29-58 | NULL exactly when no run fits; otherwise the lowest-starting fit gets the chosen id, `used` grows by its blocks, the recorded map gains exactly this range, and no payload byte changes |
| BlockBitmap.Bitmap.BmFree | src/kernel/mem/bitmap.c:60-77 | an address before the end of the ids, past the region or behind its last block returns 0 and changes nothing, and no other does; otherwise the run of equal ids from its block on is cleared and its bytes are returned |
| BlockBitmap.Bitmap.FreeRange | src/kernel/mem/bitmap.c:60-77 | from the address of a range's first block, past the ids, it returns the bytes of the range and removes exactly it, for blocks of any size |
| BlockBitmap.Bitmap.AllocThenFree | src/kernel/mem/bitmap.c:29-77 | bm_alloc and then bm_free of its answer: the ranges and the count are as before, and the bytes asked for come back rounded up to blocks |
| BlockBitmap.Bitmap.BmRealloc | src/kernel/mem/bitmap.c:79-93 | a move to the first run that fits: as many bytes as the old range had arrive unchanged, no other payload byte changes, and the recorded map swaps the old range for the new one |
| BlockBitmap.Bitmap.GrowingIsReady | src/kernel/mem/bitmap.c:79-93 | a move to a size no smaller never copies past the region or onto the range it copies from |
| BlockIds.CopySpares | src/kernel/mem/bitmap.c:84-91 | the copy writes into no range exactly when the new range is no shorter than the old or the blocks it reaches behind the new one are free |
| BlockIds.ShrinkingOverwrites | src/kernel/mem/bitmap.c:84-91 | and a shrinking call that does overwrite a neighbouring range |
| BlockBitmap.Bitmap.ChooseId | src/kernel/mem/bitmap.c:43 | the id written differs from what either neighbour shows |
| BlockBitmap.Bitmap.BmUniqueId | src/kernel/mem/bitmap.c:107-111 | the least id from 1 that differs from both arguments; three ids suffice |
| Vmm.AddressSpace.InitVmm | src/kernel/mem/vmm.c:6-18 | maps enough pages for the ids and leaves a region whose own blocks have id 1 and all others 0; the pages are backed exactly when they do not get in each other's way, which one page of ids cannot; a region within the first 512 pages, as a thread's is, is then secure |
| Vmm.FrameAfterPage | src/kernel/mem/vmm.c:25-26 | after alloc_frame and map_addr the page leads to the lowest frame free before, a page numbered like a new table to that table, and every other page where it led |
| Vmm.AddressSpace.MapFresh | src/kernel/mem/vmm.c:25-26 | n pages in a row, for any region: the frames taken are those the state before decides, each page leads where it did or to a frame that was free, and either everything stays backed or something is lost for good |
| Vmm.KeptExactly | src/kernel/mem/vmm.c:25-26 | the first of these exactly when no page mapped and no frame drawn as a table is numbered like a live page or one just mapped |
| Vmm.AddressSpace.Valloc | src/kernel/mem/vmm.c:20-29 | for any region: a range is recorded, or NULL is returned exactly when none fits; the new pages are backed and the live ones lead where they did if and only if the call is Harmless, which the state before decides; one frame a page leaves the stock |
| Vmm.AddressSpace.VallocFits | src/kernel/mem/vmm.c:20-29 | in a secure region, when a range fits: the first fit is given, its pages lead to frames that were free, live pages and all others not numbered like a free frame keep their entries |
| Vmm.AddressSpace.PagesReached | src/kernel/mem/vmm.c:6-29 | the processor finds the page of every allocated block at the block's own frame, writable, for user code in a thread's region and for the supervisor in the kernel's |
| Vmm.SafeHarmlessOnly | src/kernel/mem/vmm.c:20-29 | in a secure region a call is harmless exactly when a range fits or no more pages are asked for than lie before the region |
| Vmm.AddressSpace.FailedValloc | src/kernel/mem/vmm.c:24-26 | in a thread's region, from page 1 on, a request for two or more pages that does not fit moves the frame behind the region's own ids |
| Vmm.AddressSpace.TooManyPages | src/kernel/mem/vmm.c:24-26 | as one for more pages than the region has |
| Vmm.AddressSpace.FreePages | src/kernel/mem/vmm.c:33-34 | the frames behind the pages go back, page by page |
| Vmm.AddressSpace.Vfree | src/kernel/mem/vmm.c:31-35 | for any address: nothing happens outside the region's blocks; otherwise the run of blocks there is freed and exactly the frames its pages name come back, from a range's start exactly its range; the invariant is kept if and only if the block was allocated or the stale entries of the free run name neither a table nor the frame of a live page |
| Vmm.VfreeKeeps | src/kernel/mem/vmm.c:31-35 | that condition on its own, on states: it holds exactly when tables and backing survive |
| Vmm.AddressSpace.DoubleFree | src/kernel/mem/vmm.c:20-35 | valloc(1), valloc(1), vfree of the first, valloc(2), vfree of the first again in a fresh region breaks the invariant |
| Vmm.Stale | src/kernel/mem/vmm.c:31-35 | because the second vfree finds the freed frame behind a live page through the entry that the first one left |
| Vmm.AddressSpace.Run | src/kernel/mem/vmm.c:20-35 | in a secure region, the kernel's or a thread's, over every run of calls in which each vfree names a block allocated at that moment or an address bm_free ignores, and each valloc asks for no more frames than are to spare at that moment and, when no range fits, for no more pages than lie before the region: at every moment all live pages are backed by distinct taken frames that are no tables, the ids are those of the calls, freed frames can be spent again, and free frames, tables, live frames and the frames of failed allocations add up to the same number |
| Vmm.RangeKept | src/kernel/mem/vmm.c:20-35 | in such a run a range keeps its blocks and the frames behind its pages from any moment to any later one until a call frees a block of it |
| Vmm.BackedExactly | src/kernel/mem/vmm.c:9-12 | mappings elsewhere keep the live pages of any region backed exactly when no live page is numbered like a frame that will be drawn as a table |
| Vmm.LowestFrameLost | src/kernel/mem/vmm.c:9-12 | so a mapping that needs a table loses a live page whenever the lowest free frame is numbered like it |
| ThreadVmm.OtherKept | src/kernel/mem/pmm.c:53-89 | extending one page-table tree changes no leaf and no table of another tree in the same memory |
| ThreadVmm.InitRoot | src/kernel/scheduler/thread.c:58-60 | a fresh cleared root table, mapped to itself in its own tree, and nothing else mapped |
| ThreadVmm.MapKernelEntries | src/kernel/mem/pmm.c:38-45 | every page of the kernel image gets the entry of the last record that covers it, for user code, and no other page not numbered like a free frame changes |
| ThreadVmm.ImageGrants | src/kernel/mem/pmm.c:38-45 | through these entries the image is found where the kernel's table has it, writable and for user code |
| ThreadVmm.MapHeapPage | src/kernel/mem/heap.c:49-50 | one heap page is mapped, for the supervisor, to where the kernel's table has it, although tables were added to the same memory meanwhile |
| ThreadVmm.HeapGrants | src/kernel/mem/heap.c:50 | such an entry is present and writable and leads to the frame the kernel has there |
| ThreadVmm.HeapPagesAre | src/kernel/mem/heap.c:47-50 | the pages map_heap goes through are those of a region's header and bytes |
| ThreadVmm.MapHeap | src/kernel/mem/heap.c:45-52 | every page of every heap region gets such an entry, and no other page not numbered like a free frame changes |
| ThreadVmm.MapFramebuffer | src/kernel/drivers/framebuffer.c:91-95 | the framebuffer's pages are mapped to themselves with the flags given, and no frame leaves the free set but those that become page tables; for any number of pages of memory unless the framebuffer holds the one frame whose row lies past the bitmap |
| ThreadVmm.MapItself | src/kernel/mem/pmm.c:165-169 | the pages of the frame bitmap are mapped to themselves, with the flags given |
| ThreadVmm.MapLapic | src/kernel/cpu/lapic.c:147-150 | nothing in x2 mode; otherwise the local APIC's page, to itself, present, writable, uncached and for the supervisor |
| ThreadVmm.StackPageIs | src/kernel/scheduler/thread.c:61 | the page of a CPU stack is its physical page in the higher half |
| ThreadVmm.HeapAdd | src/kernel/mem/heap.c:7-14 | a fitting request of pages from the region, and in it, behind a 48-byte header, a fresh heap whose own blocks have id 1 and all others 0 |
| ThreadVmm.ThreadRegion | src/kernel/scheduler/thread.c:69-71 | a thread's region holds its ids, its heap and its stack in its first three pages, each on a frame that was free; the heap has 253 blocks of 16 bytes, four of them for its ids |
| ThreadVmm.KernelKept | src/kernel/scheduler/thread.c:69-71 | which leaves every entry of the kernel's tables alone |
| ThreadVmm.InitThreadVmm | src/kernel/scheduler/thread.c:57-73 | in the finished space the processor finds pages 1, 2 and 3 (ids, heap, stack) at three distinct frames that were free and are no tables, writable and for user code; of the other pages not numbered like a free frame, those of the frame bitmap and the kernel's heap where the kernel has them, for the supervisor, else the local APIC at itself unless it is in x2 mode, else the framebuffer and the kernel image for user code too, else this CPU's stack, else the root table; every other one faults; and the kernel's space is unchanged |
| SchedulerSpec.InsertedIs | src/kernel/scheduler/scheduler.c:42-52 | a thread that falls asleep goes behind every sleeper that wakes earlier, and the list stays sorted |
| SchedulerSpec.DeadlineIs | src/kernel/scheduler/thread.c:104-107 | the 64-bit wakeup time lies ms ticks ahead exactly when the sum does not wrap |
| SchedulerSpec.ScheduleKeeps | src/kernel/scheduler/scheduler.c:21-69 | a call keeps both lists free of repetition and of each other, the sleep list sorted and its threads sleeping, cur on the run list |
| SchedulerSpec.RunKeeps | src/kernel/scheduler/scheduler.c:21-125 | every run of add, sleep, die and tick keeps that, and a thread on neither list is dead |
| SchedulerSpec.StartIsFine | src/kernel/scheduler/scheduler.c:21-125 | and the empty CPU has it |
| SchedulerSpec.IdleExactly | src/kernel/scheduler/scheduler.c:21-22 | idle is dispatched exactly when afterwards nobody is runnable and no sleeper is due |
| SchedulerSpec.NoEarlyWake | src/kernel/scheduler/scheduler.c:56-62 | whoever leaves the sleep list was due and is the one dispatched |
| SchedulerSpec.DueFirst | src/kernel/scheduler/scheduler.c:56-62 | when a sleeper is due, one with the least wakeup time is dispatched |
| SchedulerSpec.SleepsUntil | src/kernel/scheduler/scheduler.c:25-62 | no run wakes or dispatches a sleeper before its time |
| SchedulerSpec.SleepLasts | src/kernel/scheduler/thread.c:104-107 | a thread that asks for ms ticks of sleep is not dispatched before they have passed, in any run, unless the sum wraps |
| SchedulerSpec.DieIsForever | src/kernel/scheduler/thread.c:109-111 | a thread that asks to die is dispatched by no interrupt of any run after it |
| SchedulerSpec.DeadStays | src/kernel/scheduler/scheduler.c:35-37 | no run brings a thread back that is on neither list |
| SchedulerSpec.WakesInTurn | src/kernel/scheduler/scheduler.c:42-62 | once their time has passed, the first sleepers are dispatched next and in order if nobody who falls asleep meanwhile has a time before those left, and in a run long enough for all of them only then |
| SchedulerSpec.SleeperRuns | src/kernel/scheduler/scheduler.c:42-62 | so the sleeper at index i runs within i + 1 calls, and those before it in order, exactly under that condition |
| SchedulerSpec.WaitsBehind | src/kernel/scheduler/scheduler.c:56-62 | in every run a sleeper is dispatched only after each that is in front of it on the list |
| SchedulerSpec.InTimeInTurn | src/kernel/scheduler/thread.c:104-107 | the condition holds in every run in which no sleep wraps |
| SchedulerSpec.WrappedSleep | src/kernel/scheduler/thread.c:104-107 | it fails for a sleep of 2^64 - 1 ticks when a sleeper fell due at the last tick: the thread that asks for it runs on before that sleeper |
| SchedulerSpec.QuietTick | src/kernel/scheduler/scheduler.c:24-31 | one interrupt keeps the running thread while its ticks last, and then dispatches the next on the run list, cyclically |
| SchedulerSpec.KeptFor | src/kernel/scheduler/scheduler.c:24-31 | so it is kept for the calls it has left, and the next call dispatches its successor |
| SchedulerSpec.TurnLasts | src/kernel/scheduler/scheduler.c:26 | with somebody asleep, a freshly dispatched thread is kept for exactly 256 calls, and the 257th dispatches the next on the run list |
| SchedulerSpec.RoundRobin | src/kernel/scheduler/scheduler.c:24-92 | while nobody is added, sleeps, dies or wakes, every runnable thread is dispatched within its Budget, which is at most 257 calls for each runnable thread, and one for each when nobody sleeps |
| Fairness.BoundedWaiting | src/kernel/scheduler/scheduler.c:21-125 | in every run, whoever sleeps, wakes, dies or arrives, a runnable thread is dispatched once there have been enough interrupts: with n threads on the lists, a round of 257 n + 1 for each sleeper at the start, three more, and three for each sleep, death and arrival on the way |
| Fairness.TickStep | src/kernel/scheduler/scheduler.c:21-69 | one call dispatches it, or fewer threads can still come before it, or it is nearer |
| Fairness.Starves | src/kernel/scheduler/scheduler.c:56-92 | the sleeps must be counted: a thread that sleeps two ticks each time it wakes keeps another from ever running |
| Fairness.PreludeUnfair | src/kernel/scheduler/scheduler.c:21-125 | three threads get into that state from the start |
| SchedulerSpec.ScheduleMeters | src/kernel/scheduler/scheduler.c:26 | the ticks counted for the running thread never pass the limit, and a dispatched thread is current, ready and starts at 0 |
| SchedulerSpec.ContextWaits | src/kernel/scheduler/scheduler.c:33 | saved registers stay as they were until their thread is dispatched again, over every run |
| SchedulerSpec.ContextSaved | src/kernel/scheduler/scheduler.c:33 | and they are those of the interrupt that ended its turn |
| Scheduler.Cpu.RemoveThread | src/kernel/scheduler/scheduler.c:108-124 | unlinks the thread from the run list, and leaves the list alone when it is not there |
| Scheduler.Cpu.InsertSleeper | src/kernel/scheduler/scheduler.c:42-52 | links the thread into the sleep list before the first that wakes no earlier |
| Scheduler.Cpu.AddThread | src/kernel/scheduler/scheduler.c:94-106 | links the thread in front of the run list |
| Scheduler.Cpu.NextThread | src/kernel/scheduler/scheduler.c:81-92 | the thread after the given one on the run list, cyclically; NULL exactly when the list is empty |
| Scheduler.Cpu.ReadyThread | src/kernel/scheduler/scheduler.c:71-79 | makes a thread current, ready and unmetered and returns its registers; the idle thread is made ready only |
| Scheduler.Cpu.RetireCurrent | src/kernel/scheduler/scheduler.c:30-53 | saves the registers and moves the thread off the run list, or to the sleep list, by its status |
| Scheduler.Cpu.Wake | src/kernel/scheduler/scheduler.c:57-60 | moves the first sleeper to the front of the run list although both lists use its one link |
| Scheduler.Cpu.Schedule | src/kernel/scheduler/scheduler.c:21-69 | the linked lists and fields end up as the specified step says, and the registers returned are those of the thread it dispatches |
| Scheduler.Cpu.SleepSyscall | src/kernel/scheduler/thread.c:104-107 | the specified sleep step, invariant kept |
| Scheduler.Cpu.DeadSyscall | src/kernel/scheduler/thread.c:109-111 | the specified step of a dying thread, invariant kept |
| Scheduler.Cpu.AddNew | src/kernel/scheduler/scheduler.c:94-106 | the specified step of adding a created thread, invariant kept |
| Scheduler.Cpu.Tick | src/kernel/cpu/lapic.c:126-131 | one interrupt is the specified step: ticks grow by one, then schedule decides |
| Scheduler.Cpu.Run | src/kernel/scheduler/scheduler.c:21-125 | every sequence of events takes the linked lists through the specified run, so what is proved of runs holds of them |
| Strings.StrRev | src/kernel/libc/string.c:10-22 | reverses the first len characters in place and touches no other |
| Strings.Ultoa | src/kernel/libc/string.c:68-93 | writes exactly the digits of the number and returns their count |
| Strings.ValueOfText | src/kernel/libc/string.c:74-90 | evaluating those digits gives the number back, for every radix from 2 to 36 |
| Strings.CharDigit | src/kernel/libc/string.c:77-80 | the digit characters are 0 to 9 and then A to Z |
| Strings.NoLeadingZero | src/kernel/libc/string.c:74-82 | only 0 starts with a 0, and it is just that digit |
| Strings.AtMost64 | src/kernel/libc/string.c:69 | 64 digits are enough for every 64-bit number, so the 65-byte buffer is |
| Strings.ItoaInto | src/kernel/libc/string.c:41-66 | the text of the number and its sign, when it fits; the low digits backwards when it does not; the last digit for a length below 2 |
| Strings.ItoaRoundTrips | src/kernel/libc/string.c:41-66 | sign and value come back exactly when the digits fit in len - 1 |
| Strings.DecimalFits | src/kernel/io/stdio.c:39-40 | base 10 with length 21 always round-trips |
| Rtc.GetDow | src/kernel/kernel/rtc.c:30-32 | the method with its 8-bit day returns what Rtc.RightExactly is about |
| Rtc.FormulaCounts | src/kernel/kernel/rtc.c:30-31 | without truncation the formula is the weekday found by counting days, for every date |
| Rtc.RightExactly | src/kernel/kernel/rtc.c:30-31 | the real function is k times three days ahead of the weekday, where k is the sum it cuts to 8 bits, divided by 256; it lies in 1 to 7, and is right exactly when k is a multiple of 7 |
| Rtc.NextDay | src/kernel/kernel/rtc.c:30-32 | the weekday meant: one on from day to day, over the ends of months and years |
| Rtc.Epoch | src/kernel/kernel/rtc.c:30-32 | and Thursday on the first day of 1970 |
| Rtc.RightUntil2016 | src/kernel/kernel/rtc.c:30-31 | so it is right for every date from 1794 to 2016 |
| Rtc.WrongInJanuary2017 | src/kernel/kernel/rtc.c:30-31 | and says Friday for Tuesday 31 January 2017 and for Tuesday 30 June 2026 |

## Left out

- UEFI calls, file reads, graphics setup, ACPI discovery: foreign services; AllocatePages hands out given pages.
- CR3 loads, invlpg, model-specific registers, port I/O, APIC registers and interrupt stubs: hardware effects.
- SMP bring-up and the choice of the least loaded CPU in scheduler_add_thread: more than one CPU is not modelled.
- unmap_addr: it has no callers, and everything after its early return is unreachable.
- free_thread: it frees the page table before it walks it; free_page_table is proved alone.
- map_pmm's page count, which divides a number of pages by the page size again, is a parameter.
- halloc, hfree and hrealloc: with the one-region heaps built here they are the block allocator's calls.
- The bytes of a block region are an array of its own, not words of the frames behind its pages.
- Segment contents, the framebuffer console, printf, the keyboard, logging, descriptor tables: outside the scope.
- Pmm.Kmem.MapAddr: without enough free frames the code links frame 0 as a table; then only termination, the frame
  allocator's own invariant, and that the outcome is no extension are stated.
- Pmm.Kmem.PmmSetBit: not for the frame number mem_pages when that is a multiple of 64, where the source writes a row
  past the bitmap into memory that is not modelled; MemoryMap.PastTheBitmap is the exact condition.
- Pmm.Kmem.PmmSetArea: the same, for areas holding that frame.
- ThreadVmm.InitThreadVmm: likewise for the framebuffer; pages past 3 numbered like frames that were free before, other
  than the root table's, are not spoken of (those of new tables lead to them).
- BlockBitmap.Bitmap.BmRealloc: in the repaired version, from a range's start, when a run fits and the copy stays inside
  the region without meeting what it copies; the code checks none of that, and otherwise leaves modelled memory.
- BlockBitmap.Bitmap.BmFree: as written it clears nothing and returns one block's bytes, which is stated; the range
  claims hold for the repaired version.
- Vmm.AddressSpace.Run: for secure regions; in others each call's own condition is that of Valloc.
- ThreadVmm.MapFramebuffer: for frames that are reserved already, as they are once the console has started.
- Scheduler.Cpu.AddThread: on the only CPU; its thread count only ever grows and decides nothing here.
- Strings.ItoaInto: not for the least 64-bit integer, whose negation overflows.
- Strings.Ultoa: radix 2 to 36; the code takes any.
- Rtc.GetDow: years from 1 on; for January and February of year 0 the code wraps the year.
