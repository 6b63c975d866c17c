# Verified models of InfOS memory management, map, scheduler and tar driver

InfOS is a small teaching kernel. This project models, in Dafny, the parts of it whose correctness
rests on an invariant over the whole state, and proves what those parts are for.

* **Buddy page allocator** (`Blocks`, `FreeLists`, `BuddyPageAllocator`, `BuddyRuns`, `PageAllocator`).
  Seventeen free lists are threaded through page descriptors. The lists are proved to be a canonical
  form: a block is listed exactly if it is wholly free and as large as it can be, so the lists are a
  function of the set of free pages. From this come completeness of allocation, exact restoration by
  freeing, conservation over whole runs, and the wrapper's agreement of descriptor types with the lists.
* **Page tables** (`PageTables`, `VirtualMemory`). The four-level radix tree in raw frames is proved to
  refine a map from pages to frames, on top of the page allocator (4-level paging is section 4.5 of
  volume 3A of the Intel 64 and IA-32 Architectures Software Developer's Manual).
* **dlmalloc** (`BinIndex`, `BinMaps`, `TreeBins`, `BestFit`, `SmallBins`, `Tiles`, `Filing`, `Bodies`,
  `Malloc`). The invariants the file states in its `do_check_*` code are proved of `malloc` and `free` on one
  segment: boundary tags, bins, tries and bitmaps agree, requests fail only when nothing fits, it is stated
  which free chunk serves a request, best fit for large ones, and what the program wrote to its chunks stays.
* **Red-black map** (`RedBlack`, `RedBlackMap`, `MapIteration`). The imperative insert with parent pointers is
  proved to refine an update of a finite map, to keep the red-black rules, and so to keep lookups
  short; iteration meets every key once.
* **Lists** (`LinkedLists`, `Sequences`). The linked list behind run queues and wait lists is proved to hold the
  sequence that the models of its users work with.
* **Scheduler** (`Wakeups`, `Scheduling`, `RoundRobinRuns`). Changes of thread state and the wake-ups they
  set off keep run queue and states in step; ticks are charged exactly once; both policies are fair in
  a stated sense.
* **Tar driver** (`TarFormat`, `TarArchive`, `TarFileSystem`). Reading an archive gives back the entries it was
  written from, and reads give back their bytes ("ustar Interchange Format" of the `pax` utility, IEEE
  Std 1003.1-2017).

## How the model is laid out

Code that updates state is a class whose methods follow the source's branches and loops. Each such
method is proved against a specification on values, and the theorems are lemmas about those
specifications. A method of the source that is long is cut into several here; their names say which
part they are.

* A page descriptor is its page frame number; `next_free` is an array over those, NULL is -1, and a
  pointer to a pointer is a `Slot`: a list's head or a descriptor's link.
* dlmalloc's memory is a `Heap` of fields by chunk address. `chunk + offset` is address arithmetic.
  `SmallBin(i)` and `BinSlot(i)` are addresses that stand for the bins' own slots in the state. Bitmaps are 32-bit
  words; `Marks` gives the bins whose bits are set. A chunk address is 16 less than the pointer handed to the program.
* A trie position (`Pos`) is a path of left and right turns; a position stands for the interval of sizes
  that share its bits. A chain holds the chunks of one size, oldest first.
* The row of chunks of a segment (`Row`) is ghost: it says where chunks start, how large they are and
  which are in use. What `malloc` and `free` mean is stated by `InUse`, the chunks in use, and by `Spares`: a chunk's
  body, and with it what the program keeps there, is the words from 16 bytes after its address up to 8 after its end.
* A node of the map is an object with a key; the ghost tree is given by key, with the open interval of
  keys each subtree may hold, and its black height.
* A thread is a number; the list of those who wait for an event is a sequence. A list is torn if it is emptied while
  it is gone through.

## Findings

* `compute_tree_index` keeps 32 bits of the size above its lowest eight. `BinIndex.IndexRightWhen` says exactly
  for which sizes the index is still right: all below 2^40, and above that those whose kept bits are at
  least 0xC000. `MAX_SIZE` is 2^40 for this reason; requests (not chunks) of any size are modelled.
* `split_block` returns what its pointer points to after the block was unlinked: the next block of the
  source order, not the left half its comment promises (`BuddyPageAllocator.BuddyAllocator.SplitBlock`).
* The overlap scan of `free_pages` fires exactly if a listed block starts before the last page of the freed block
  and holds its first or its last page (`BuddyPageAllocator.BuddyAllocator.ScanForOverlap`). So a free page that starts a
  listed block can be freed again unnoticed (`MissedPages`): for a block of one page the loop's guard is already false
  at that block, and `insert_block` then links the page to itself (`FreeAgain`). Blocks listed strictly inside the
  freed one are missed as well. `FreePages` leaves open what happens then.
* A change of a thread's state empties the list it is going through exactly if the thread wakes itself, that is, if it
  is reached from its own waiters through threads that are not runnable, and the new state is not RUNNABLE
  (`Scheduling.Scheduler.SetEntityState`). Two threads that wait for each other's change do this (`WaitForEachOther`).
  The source goes on from a deleted node then; other cycles of waits do no harm.
* The completely fair policy keeps run times within the larger of gap and tick exactly if the current thread is not too
  far ahead at the start (`Scheduling.Scheduler.Ticks`): a thread that is woken while one far ahead of it runs falls
  another tick behind (`LateWakerFallsBehind`), but never more than that one.
* `pread` reads one block more than it needs exactly when the read ends on a block boundary
  (`TarFileSystem.OneBlockMore`), so all reads of a file stay on the device exactly if its last block is not the device's
  last, or is not full (`AllWithinWhen`).
* Where a path occurs more than once, `build_tree` takes the size of the last header and the block of the last one that is
  not a directory's (`TarArchive.ArchiveRoundTrip`): a directory after a file of the same path leaves a file that opens.
* `pread` takes offset and size together in a 64-bit word: beyond that it no longer stops at the file's end
  (`TarFileSystem.ClippedRightWhen`).

## Model

| member | source | states |
|---|---|---|
| Blocks.AlignedIsMultiple | CourseWorks/coursework/buddy.cpp:47-52 | alignment to an order, defined by halving, is divisibility of the page number by the block size |
| Blocks.BuddyIsSibling | CourseWorks/coursework/buddy.cpp:60-81 | a block and its buddy are aligned, different, and together exactly the enclosing block of the next order |
| BuddyPageAllocator.WalkIsList | CourseWorks/coursework/buddy.cpp:90-109 | following a list's links from its head is acyclic, strictly ascending and meets exactly the list's blocks |
| BuddyPageAllocator.BuddyAllocator.LinkIn | CourseWorks/coursework/buddy.cpp:90-109 | links a page in before the first descriptor of the list not below it; a page that is in the list is linked to itself |
| BuddyPageAllocator.BuddyAllocator.InsertBlock | CourseWorks/coursework/buddy.cpp:90-109 | adds exactly the block to its list, keeps all links ascending, and gives the slot that points to it |
| BuddyPageAllocator.BuddyAllocator.RemoveBlock | CourseWorks/coursework/buddy.cpp:117-132 | a listed block is found, its assert holds, and exactly it is taken out |
| BuddyPageAllocator.BuddyAllocator.SplitBlock | CourseWorks/coursework/buddy.cpp:142-167 | the block is replaced by its two halves one order down; the result is the next block of the source order |
| BuddyPageAllocator.BuddyAllocator.MergeBlock | CourseWorks/coursework/buddy.cpp:177-199 | two listed buddies are replaced by the block they make up one order up, whichever of them is given |
| FreeLists.FreeBlockIsCovered | CourseWorks/coursework/buddy.cpp:220-262 | with the invariant between operations, every wholly free aligned block lies inside one listed block |
| FreeLists.RestingIsCanonical | CourseWorks/coursework/buddy.cpp:220-367 | the invariant between operations makes the lists canonical: listed exactly if wholly free and maximal |
| FreeLists.CanonicalIsResting | CourseWorks/coursework/buddy.cpp:220-367 | conversely canonical lists are disjoint, have no two free buddies below the top order, and make exactly that set free |
| FreeLists.SameFreeSetSameLists | CourseWorks/coursework/buddy.cpp:220-367 | equal sets of free pages mean identical lists |
| BuddyPageAllocator.BuddyAllocator.AllocPages | CourseWorks/coursework/buddy.cpp:220-262 | NULL exactly if no aligned run of the order is wholly free, with nothing changed; otherwise such a run, from the smallest order that has a block, and exactly its pages stop being free |
| BuddyPageAllocator.BuddyAllocator.ScanForOverlap | CourseWorks/coursework/buddy.cpp:276-295 | in any state with disjoint lists the assert fires exactly if a listed block starts before the last page of the freed block and holds its first or its last page |
| BuddyPageAllocator.MissedPages | CourseWorks/coursework/buddy.cpp:276-295 | of the free pages the scan misses exactly those that start a listed block |
| BuddyPageAllocator.BuddyAllocator.FreeAgain | CourseWorks/coursework/buddy.cpp:276-298 | freeing a listed page a second time is not noticed, and links the page to itself |
| BuddyPageAllocator.BuddyAllocator.FreePages | CourseWorks/coursework/buddy.cpp:269-323 | the asserts fire exactly if the block is not aligned or the scan catches a listed block, never if none of its pages is free; then exactly its pages become free, in canonical form |
| BuddyPageAllocator.BuddyAllocator.ReservePage | CourseWorks/coursework/buddy.cpp:330-367 | true exactly if the page was free; then exactly it stops being free; false leaves the lists as they were |
| BuddyPageAllocator.BuddyAllocator.Init | CourseWorks/coursework/buddy.cpp:373-406 | succeeds for any number of pages and makes all of them free, in canonical form, in seventeen lists |
| BuddyRuns.HeldIsFreeable | CourseWorks/coursework/buddy.cpp:269-323 | a block handed out and not yet freed meets the demand of freeing |
| BuddyRuns.RunAccountsForEveryPage | CourseWorks/coursework/buddy.cpp:220-367 | in every state of every run each page is exactly one of free, in one held block, or reserved |
| BuddyRuns.SameOutstandingSameLists | CourseWorks/coursework/buddy.cpp:220-367 | two runs with the same pages outstanding have identical lists |
| BuddyRuns.ListedIsFree | CourseWorks/coursework/buddy.cpp:90-199 | the sum over the orders of list length times block size is the number of free pages |
| BuddyRuns.PagesAreConserved | CourseWorks/coursework/buddy.cpp:220-367 | in every run listed, held and reserved pages add up to all pages |
| PageAllocator.PageAllocator.MarkPageRange | CourseWorks/infos/mm/page-allocator.cpp:161-168 | exactly the pages of the range get the type |
| PageAllocator.PageAllocator.MarkPages | CourseWorks/infos/mm/page-allocator.cpp:88-136 | whatever ranges overlap, each page has the type of the last range that covers it: page 0 and the pages of image, stack and descriptors are RESERVED, the other ones from 1 to 6 ALLOCATED, and any other page AVAILABLE if normal memory backs it and INVALID if not |
| PageAllocator.PageAllocator.Init | CourseWorks/infos/mm/page-allocator.cpp:75-159 | cannot fail; afterwards all types are as marked, and a page is AVAILABLE exactly if the algorithm has it free |
| PageAllocator.PageAllocator.AllocPages | CourseWorks/infos/mm/page-allocator.cpp:176-194 | gives a free run, no type assert fires, exactly its pages become ALLOCATED, and types and lists stay in step |
| PageAllocator.PageAllocator.FreePages | CourseWorks/infos/mm/page-allocator.cpp:201-216 | an assert fires exactly if the run is not aligned or some page of it is not ALLOCATED; otherwise exactly its pages become AVAILABLE, and types and lists stay in step |
| PageAllocator.TypeStays | CourseWorks/infos/mm/page-allocator.cpp:176-216 | over any run of requests a page that is neither AVAILABLE nor ALLOCATED at first stays what it is |
| PageAllocator.KernelIsNeverFreed | CourseWorks/infos/mm/page-allocator.cpp:107-127 | over any run from the first types on, no page of image, stack or descriptors, nor page 0, is handed out or is in a block that is freed |
| PageAllocator.PageAllocator.AllocThenFree | CourseWorks/infos/mm/page-allocator.cpp:229-288 | freeing what was just allocated restores every list and every type |
| PageTables.WithFlagSets | CourseWorks/infos/mm/vma.cpp:98-104 | setting any of the twelve flags sets just it: every other bit of the 64-bit word, and so the base address, stays |
| PageTables.WithBaseSets | CourseWorks/infos/mm/vma.cpp:83-86 | setting the base address sets just it, keeps all twelve flags, and fits the word |
| PageTables.FlagBits | CourseWorks/infos/mm/vma.cpp:64-66 | PRESENT, WRITABLE and ALLOW_USER are the lowest three bits of the word, in this order |
| PageTables.IndicesAreThePage | CourseWorks/infos/mm/vma.cpp:49-59 | the four indices are together the page number: they tell any two pages below 2^48 apart |
| PageTables.SameEntrySamePage | CourseWorks/infos/mm/vma.cpp:53-59 | two user addresses with the same path and last index are in the same page |
| PageTables.TableAdded | CourseWorks/infos/mm/vma.cpp:138-170 | hanging a zeroed table in a frame of its own keeps the tree sound and every last-level entry as it was |
| PageTables.EntryWritten | CourseWorks/infos/mm/vma.cpp:172-178 | writing a last-level entry changes the entry of that page alone |
| PageTables.LastWordDecides | CourseWorks/infos/mm/vma.cpp:140-170 | of the four words the processor reads on its way to an address, the three inner ones have their lowest three bits set wherever there is a table, so that the last alone decides whether the user can write |
| VirtualMemory.MappedSets | CourseWorks/infos/mm/vma.cpp:174-178 | the written entry has the new frame, the flags asked for, the flags it had, and no others |
| VirtualMemory.VMA.AllocatePhys | CourseWorks/infos/mm/vma.cpp:183-196 | a free run that does not hold frame 0, recorded and zeroed, and no other memory is touched |
| VirtualMemory.VMA.InsertMapping | CourseWorks/infos/mm/vma.cpp:131-181 | exactly va's page gets the new entry, every other page's stays, one frame is used and recorded per missing table; the processor finds three words that let the user read and write and then the frame with the bits asked for, so that with all flags given all four words let the user write |
| VirtualMemory.InsertedTranslates | CourseWorks/infos/mm/vma.cpp:131-265 | after inserting with Present every address of the page translates to the frame with its offset, and every other page translates as before |
| VirtualMemory.VMA.GetMapping | CourseWorks/infos/mm/vma.cpp:232-265 | finds exactly what an address translates to, through all four levels |
| VirtualMemory.Log2CeilIsLeast | CourseWorks/infos/include/infos/define.h:129-135 | the order is the least whose block holds that many pages |
| VirtualMemory.VMA.AllocateVirt | CourseWorks/infos/mm/vma.cpp:203-224 | false only for no pages; otherwise a free run of the rounded-up size is recorded and mapped page by page, and nothing else; the user can write to every address of it, through four words that allow it, each page in its own frame |
| BinIndex.TreeIndexBounds | CourseWorks/infos/mm/dlmalloc.cpp:2898-2910 | the computed index is in range and its bin's range holds the size |
| BinIndex.TreeIndexMonotone | CourseWorks/infos/mm/dlmalloc.cpp:2898-2910 | larger sizes have the same or larger indices |
| BinIndex.TreeIndexUnique | CourseWorks/infos/mm/dlmalloc.cpp:2971-2973 | a size is in the range of no other bin: the bins partition the sizes |
| BinIndex.IndexRightWhen | CourseWorks/infos/mm/dlmalloc.cpp:2898-2910 | for all words from 256 on: the index is right exactly below 2^40 or if the kept bits are at least 0xC000 |
| BinIndex.FirstWrongIndex | CourseWorks/infos/mm/dlmalloc.cpp:2898-2910 | the size 2^40 gets index 0, whose bin's range does not hold it |
| BinIndex.KeyStarts | CourseWorks/infos/mm/dlmalloc.cpp:2966-2968 | the shifted size is the size's deciding bits at the top of a word |
| BinIndex.KeySteers | CourseWorks/infos/mm/dlmalloc.cpp:3731-3732 | the key's top bit selects the child whose interval holds the size, and one shift gives that child's key |
| BinMaps.Marking | CourseWorks/infos/mm/dlmalloc.cpp:2982-2988 | setting or clearing a bin's bit changes the set of marked bins by exactly that bin |
| BinMaps.LeastMarked | CourseWorks/infos/mm/dlmalloc.cpp:2990-3007 | the trailing zeros of a map's isolated least bit are its least marked bin |
| BinMaps.NextMarked | CourseWorks/infos/mm/dlmalloc.cpp:4524-4531 | the bits left of a bin's, in the map, are the marked bins after it, and the least of them gives the next one |
| BinMaps.SmallMapSays | CourseWorks/infos/mm/dlmalloc.cpp:4641-4645 | the lowest two bits of the shifted map say whether the bin or the next is marked, and which to use |
| BinMaps.NextSmallMarked | CourseWorks/infos/mm/dlmalloc.cpp:4656-4663 | with the bin itself not marked, the shifted map is zero exactly if no later bin is, and otherwise leads to the next one |
| TreeBins.Linked | CourseWorks/infos/mm/dlmalloc.cpp:3717-3721 | linking a chunk in alone at a free place for its size keeps all tries sound |
| TreeBins.Chained | CourseWorks/infos/mm/dlmalloc.cpp:3744-3750 | linking a chunk in behind those of its size keeps all tries sound |
| TreeBins.Unchained | CourseWorks/infos/mm/dlmalloc.cpp:3780-3786 | taking a younger chunk out of its ring keeps all tries sound |
| TreeBins.Replaced | CourseWorks/infos/mm/dlmalloc.cpp:3809-3845 | any ring of a size that fits a place may take that place over; this is what lets an arbitrary leaf stand in for a node |
| TreeBins.LeafStandsIn | CourseWorks/infos/mm/dlmalloc.cpp:3760-3775 | a leaf below a node, once cut off, fits the node's place |
| Malloc.MallocState.InsertLargeChunk | CourseWorks/infos/mm/dlmalloc.cpp:3709-3758 | keeps the tries sound and the treemap exact, adds exactly the chunk, as the youngest of its size |
| Malloc.MallocState.UnlinkLargeChunk | CourseWorks/infos/mm/dlmalloc.cpp:3777-3846 | keeps the tries sound and the treemap exact, takes out exactly the chunk, and leaves the others of its size in order; one without others is replaced by the leaf below it that is come to by going right wherever possible |
| BestFit.FoundIsOldest | CourseWorks/infos/mm/dlmalloc.cpp:4495-4541 | the search gives the chunk of its size that was put in first; with the two rows above, first in is first out |
| BestFit.SearchStep | CourseWorks/infos/mm/dlmalloc.cpp:4506-4523 | one turn of the walk down the request's own bin loses no chunk that might be the best fit: it is below, no better than what was seen, or in or beyond the subtree kept for later |
| BestFit.NextBin | CourseWorks/infos/mm/dlmalloc.cpp:4524-4532 | with nothing large enough in its own bin, the next marked bin holds the best fit |
| BestFit.GoesLeft | CourseWorks/infos/mm/dlmalloc.cpp:4534-4541 | after a node is seen only its leftmost child can hold anything better |
| Malloc.MallocState.SearchOwnBin | CourseWorks/infos/mm/dlmalloc.cpp:4495-4523 | the walk down the request's own bin, for any word-sized request, with word arithmetic |
| Malloc.MallocState.SearchLarge | CourseWorks/infos/mm/dlmalloc.cpp:4495-4541 | for any request: 0 exactly if no tree chunk is large enough, otherwise the smallest that is, and what it has left over |
| Malloc.MallocState.TmallocLarge | CourseWorks/infos/mm/dlmalloc.cpp:4495-4563 | 0, with nothing changed, exactly if the victim is the tightest free chunk or nothing fits, so that a tree chunk has to be smaller than a victim that fits; otherwise serves the request from the tightest free chunk, of those of its size the one put in first |
| Malloc.MallocState.TmallocSmall | CourseWorks/infos/mm/dlmalloc.cpp:4566-4601 | serves a small request from the smallest of all tree chunks; a rest large enough for a chunk becomes the victim, otherwise the victim stays |
| Malloc.MallocState.InsertSmallChunk | CourseWorks/infos/mm/dlmalloc.cpp:3631-3647 | adds exactly the chunk, in front of the others of its bin, and keeps circles and smallmap exact |
| Malloc.MallocState.UnlinkSmallChunk | CourseWorks/infos/mm/dlmalloc.cpp:3650-3673 | takes exactly the chunk out of its bin, leaves the others in order, and keeps circles and smallmap exact |
| Malloc.MallocState.UnlinkFirstSmallChunk | CourseWorks/infos/mm/dlmalloc.cpp:3676-3691 | takes the chunk that was put in last out of a marked bin |
| SmallBins.PutInFront | CourseWorks/infos/mm/dlmalloc.cpp:3631-3647 | linking in at the front keeps every bin a circle through its header, with chunks of its size |
| SmallBins.TakenOut | CourseWorks/infos/mm/dlmalloc.cpp:3650-3691 | taking a chunk out keeps every bin so; the last one only unmarks the bin |
| Malloc.MallocState.ReplaceDv | CourseWorks/infos/mm/dlmalloc.cpp:3695-3704 | the chunk becomes the victim, and the old victim is in its bin |
| Tiles.UseWhole | CourseWorks/infos/mm/dlmalloc.cpp:3120-3123 | marking a free chunk in use, and the next one's previous-in-use bit, keeps all boundary tags and adds exactly it to the chunks in use |
| Tiles.UsePart | CourseWorks/infos/mm/dlmalloc.cpp:4552-4556 | splitting a free chunk keeps all boundary tags and adds exactly its first part to the chunks in use |
| Tiles.UseTop | CourseWorks/infos/mm/dlmalloc.cpp:4719-4729 | splitting the top chunk keeps all boundary tags and the segment's size |
| Tiles.Release | CourseWorks/infos/mm/dlmalloc.cpp:4776-4830 | making a freed chunk and its free neighbours one free chunk keeps all boundary tags, leaves no two free chunks adjacent, and removes exactly it from the chunks in use |
| Tiles.ReleaseTop | CourseWorks/infos/mm/dlmalloc.cpp:4796-4808 | the same when they become part of the top chunk |
| Tiles.AroundIsReleasable | CourseWorks/infos/mm/dlmalloc.cpp:4764-4830 | the chunks merged are the freed one and free ones, between chunks in use |
| Tiles.InUseChunk | CourseWorks/infos/mm/dlmalloc.cpp:3313-3322 | a chunk in use has its size and bits in its head; a clear previous-in-use bit means the foot leads to the free chunk before it |
| Tiles.FreeChunk | CourseWorks/infos/mm/dlmalloc.cpp:3325-3351 | a free chunk has chunks in use on both sides, its size in the next one's foot and the next one's bit clear |
| Tiles.WalkMeetsAll | CourseWorks/infos/mm/dlmalloc.cpp:3484-3514 | going from chunk to chunk meets every chunk once, and with the top chunk the sizes add up to the segment |
| Malloc.MallocState.DlMalloc | CourseWorks/infos/mm/dlmalloc.cpp:4605-4739 | keeps all invariants; fails exactly if no free chunk and not the top chunk is large enough, with nothing changed; otherwise adds exactly one aligned chunk in use, less than a chunk larger than asked; the top chunk serves only if no free chunk fits; a large request is served by the victim if no free chunk that fits is smaller, else by the tightest; a small one by an exact fit, else the victim if it is large enough, else the tightest; of equal tree chunks the first put in is taken, of a small bin the last; what is left of victim, top chunk or a small bin's chunk is stated; no word in the body of a chunk in use before changes |
| Malloc.RequestFits | CourseWorks/infos/mm/dlmalloc.cpp:2288-2297 | the chunk size asked for leaves room for the request and the head word, is a multiple of 16 and at least 32, and no larger than these demand; small requests are those below 233 bytes |
| Malloc.MallocState.DlFree | CourseWorks/infos/mm/dlmalloc.cpp:4743-4850 | keeps all invariants and removes exactly the chunk from those in use, whatever it is merged with; next to the top chunk it becomes part of that, with a victim right before it, which is then gone; else next to the victim it becomes part of that; otherwise the victim stays as it is; no word in the body of a chunk in use afterwards changes |
| Bodies.BodyWritesKeep | CourseWorks/infos/mm/dlmalloc.cpp:2457-2467 | a chunk's fields lie at fixed offsets over its body: whatever is written to the body of a chunk in use, tags, bins and tries stay sound |
| Malloc.MallocState.WriteBody | CourseWorks/infos/mm/dlmalloc.cpp:2457-2467 | the program's writes to memory it was given break no invariant |
| Bodies.FreeWritesSpare | CourseWorks/infos/mm/dlmalloc.cpp:3631-3846 | linking and unlinking free chunks, which writes links of free chunks only, leaves all bodies of chunks in use as they are |
| Bodies.FreedSpares | CourseWorks/infos/mm/dlmalloc.cpp:4776-4830 | the head and foot words written on freeing lie in the body of no other chunk in use |
| Malloc.MallocState.InsertChunk | CourseWorks/infos/mm/dlmalloc.cpp:3850-3852 | a free chunk kept nowhere is afterwards the one put in last in the bin for its size, and the bins of the other kind stay as they are |
| Malloc.MallocState.UnlinkChunk | CourseWorks/infos/mm/dlmalloc.cpp:3854-3856 | a free chunk other than the victim is found in the bin for its size and taken out |
| RedBlack.NewLeaf | CourseWorks/infos/include/infos/util/map.h:218-224 | a leaf put into the empty place for its key keeps the search tree and its parent links |
| RedBlack.RotationKeeps | CourseWorks/infos/include/infos/util/map.h:297-339 | a rotation in either direction keeps keys, order, parent links and the root |
| RedBlack.RecolourBalanced | CourseWorks/infos/include/infos/util/map.h:349-353 | painting with a red uncle keeps equal black heights and moves the one exception up to the grandparent |
| RedBlack.InnerTurn | CourseWorks/infos/include/infos/util/map.h:355-358 | the inner rotation keeps equal black heights and swaps the exception with its parent |
| RedBlack.OuterTurn | CourseWorks/infos/include/infos/util/map.h:360-362 | painting and the outer rotation keep equal black heights and remove the exception |
| RedBlackMap.Map.RotateRight | CourseWorks/infos/include/infos/util/map.h:297-317 | the nodes' pointers become those of the rotated tree, at the root and below it |
| RedBlackMap.Map.RotateLeft | CourseWorks/infos/include/infos/util/map.h:319-339 | the mirror image |
| RedBlackMap.Map.RebalanceInsert | CourseWorks/infos/include/infos/util/map.h:341-385 | ends, and leaves a red-black tree of the same keys: equal black heights, black root, no red child of a red node |
| RedBlackMap.Map.Add | CourseWorks/infos/include/infos/util/map.h:199-236 | refines the update of a finite map; count is the number of keys |
| RedBlackMap.Map.Clear | CourseWorks/infos/include/infos/util/map.h:242-246 | leaves the empty map |
| RedBlackMap.Map.TryGetValue | CourseWorks/infos/include/infos/util/map.h:264-279 | gives the value last added; compares at most 2b nodes where the map has at least 2^b - 1 keys, that is at most 2 log2(n + 1) |
| RedBlackMap.Map.ContainsKey | CourseWorks/infos/include/infos/util/map.h:248-262 | true exactly for the keys added |
| RedBlack.EnoughCells | CourseWorks/infos/include/infos/util/map.h:341-385 | a subtree of black height b has at least 2^b - 1 cells |
| MapIteration.MapIterator.Advance | CourseWorks/infos/include/infos/util/map.h:164-178 | goes on to a key not visited before, level by level and from left to right, and null exactly at the end |
| MapIteration.Advances | CourseWorks/infos/include/infos/util/map.h:164-178 | taking a node and queueing its children takes exactly its key from those still to come |
| MapIteration.Entries | CourseWorks/coursework/tarfs.cpp:445-456 | a loop over the map sees every key once, with its value, count of them in all: an array of that size is filled exactly; the keys come level by level of the tree |
| MapIteration.NextLevel | CourseWorks/infos/include/infos/util/map.h:168-174 | the children of a level, left before right, are the next level |
| MapIteration.LevelAscends | CourseWorks/infos/include/infos/util/map.h:168-174 | within a level keys are in ascending order |
| Wakeups.WokeIsReached | CourseWorks/infos/util/wakequeue.cpp:26-34 | a wake-up wakes exactly the threads reached through threads that are not runnable, whatever cycles of waits there are |
| Wakeups.WokeIsUnique | CourseWorks/infos/util/wakequeue.cpp:26-34 | what a wake-up leaves is determined, states and lists |
| Wakeups.OrderIsReached | CourseWorks/infos/util/wakequeue.cpp:26-34 | the threads in the order of waking are exactly those reached |
| Wakeups.OrderSplits | CourseWorks/infos/util/wakequeue.cpp:28-31 | waiters are woken from the front of the list to its back, each with all those it wakes in turn before the next |
| Wakeups.WakersComeFirst | CourseWorks/infos/util/wakequeue.cpp:26-34 | every thread woken is one of the list, or comes after one it waited for |
| Wakeups.ListQueued | CourseWorks/infos/util/wakequeue.cpp:28-31 | waiters that sleep, and that nobody waits for, join the run queue in the order in which they wait |
| Wakeups.TwoWaits | CourseWorks/infos/util/wakequeue.cpp:19-34 | of two threads that wait for each other's change the second wakes itself when it goes to sleep |
| Wakeups.NotWaitingIsSafe | CourseWorks/infos/kernel/sched.cpp:173-199 | a thread that is on no thread's list never wakes itself, whatever the others wait for |
| Scheduling.Scheduler.Wake | CourseWorks/infos/util/wakequeue.cpp:26-34 | everyone in the list is woken and the list emptied; those woken are at the end of the run queue, in the order of the list and depth first; which lists are emptied while they are gone through is stated for all states |
| Scheduling.Scheduler.WakeUp | CourseWorks/infos/kernel/thread.cpp:116-119 | for any waits, cycles or not, the thread is runnable and so are those who waited for it, at the end of the run queue in this order; the recursion ends, as fewer threads are not runnable each time |
| Scheduling.Scheduler.SetEntityState | CourseWorks/infos/kernel/sched.cpp:173-199 | the thread's list is torn exactly if the state really changes, is not RUNNABLE, and the thread is reached from its own waiters through threads not runnable; otherwise the state is set, exactly the threads to be woken are, and each thread is in the run queue once exactly if runnable or running; the run queue is the old one with the thread put at its end or taken out, and then those woken, in order |
| Scheduling.Scheduler.Sleep | CourseWorks/infos/util/wakequeue.cpp:19-24 | unless the thread, now on the list, wakes itself, it waits in the list, sleeps, and is out of the run queue; the list is torn exactly if it does |
| Scheduling.Scheduler.WaitForEachOther | CourseWorks/infos/util/wakequeue.cpp:19-34 | two runnable threads that go to sleep until the other changes tear the second one's list |
| Scheduling.Scheduler.PickNextEntity | CourseWorks/infos/kernel/sched-cfs.cpp:57-72 | keeps the queue's members; gives the front, taken to the back, under round robin, and the first of those that have run least under the other policy |
| Scheduling.TurnKeeps | CourseWorks/coursework/sched-rr.cpp:56-70 | a pick keeps the run queue's members, each once |
| Scheduling.Scheduler.Schedule | CourseWorks/infos/kernel/sched.cpp:110-147 | makes the chosen thread current, the idle thread exactly if the queue is empty, and starts its time; the assert of its activation fires exactly if another thread than the current one was chosen that is marked running |
| Scheduling.Scheduler.UpdateAccounting | CourseWorks/infos/kernel/sched.cpp:152-166 | charges the time since the start of the current thread's turn to it alone |
| Scheduling.Scheduler.Tick | CourseWorks/infos/drivers/timer/lapic-timer.cpp:190-196 | charges one tick to the thread that was current, exactly once |
| Scheduling.Scheduler.Yield | CourseWorks/infos/arch/x86/syscall.cpp:50-54 | chooses the next thread without charging any time |
| Scheduling.TimeAddsUp | CourseWorks/infos/kernel/sched.cpp:152-166 | run times charged tick by tick add up to the ticks that found any of the threads current |
| Scheduling.Scheduler.Perform | CourseWorks/infos/kernel/sched.cpp:81-199 | over any sequence of state changes, sleeps, wake-ups, ticks and yields from a fresh scheduler each step does what it is to do to states, waiters, run queue, time and current thread, the run queue stays in step, and all run times add up to the ticks that found any thread current |
| Scheduling.LaterTick | CourseWorks/infos/kernel/sched-cfs.cpp:57-72 | a tick keeps a gap of at least one tick exactly if it does not take the current thread further ahead than that |
| Scheduling.LateWakerFallsBehind | CourseWorks/infos/kernel/sched-cfs.cpp:57-72 | run times of ten ticks, current, and none, just woken: after one tick they are further apart than the larger of gap and tick |
| Scheduling.Scheduler.Ticks | CourseWorks/infos/kernel/sched-cfs.cpp:57-72 | with a fixed run queue, run times stay within the larger of the first gap and one tick at every one of the next n ticks exactly if the thread current at the start is not in the queue or not too far ahead; they always stay within one tick more than the first gap |
| RoundRobinRuns.BoundedWait | CourseWorks/coursework/sched-rr.cpp:33-70 | a thread with i ahead of it that stays queued is given by one of the next i + 1 picks, whatever is added and removed in between |
| LinkedLists.OneChain | CourseWorks/infos/include/infos/util/list.h:20-27 | links and data alone determine the nodes and elements of a list and their order |
| LinkedLists.List.Append | CourseWorks/infos/include/infos/util/list.h:94-106 | the element is added at the end, in a new node, and the other nodes stay as they are |
| LinkedLists.List.Remove | CourseWorks/infos/include/infos/util/list.h:108-124 | the first occurrence is taken out, if there is one, and the others stay in order |
| LinkedLists.WithoutAt | CourseWorks/infos/include/infos/util/list.h:111-121 | stopping the search at the first equal element, or at the end, is what removing means |
| LinkedLists.List.Dequeue | CourseWorks/infos/include/infos/util/list.h:126-137 | gives the element at the front and leaves the others |
| LinkedLists.List.Push | CourseWorks/infos/include/infos/util/list.h:144-152 | the element is added at the front |
| LinkedLists.List.Last | CourseWorks/infos/include/infos/util/list.h:163-172 | gives the element at the end |
| LinkedLists.List.At | CourseWorks/infos/include/infos/util/list.h:174-185 | gives the element at the index; none exactly if the index is negative or too large, where the source's assert fails |
| LinkedLists.List.Clear | CourseWorks/infos/include/infos/util/list.h:193-204 | leaves the empty list |
| LinkedLists.List.Copy | CourseWorks/infos/include/infos/util/list.h:76-80 | a list with the same elements in the same order, in nodes of its own |
| Sequences.WithoutMembers | CourseWorks/infos/include/infos/util/list.h:108-124 | removing takes out one occurrence and leaves the others |
| TarFormat.NumberReadsBack | CourseWorks/coursework/tarfs.cpp:29-57 | a size below 2^30 written in eleven octal digits is read back |
| TarFormat.NumberBound | CourseWorks/coursework/tarfs.cpp:29-57 | as the first of at most eleven digits is skipped, every number read is below 2^30 |
| TarFileSystem.Octal2ui | CourseWorks/coursework/tarfs.cpp:29-57 | the loop from the back computes the value of all digits but the first, in an unsigned int |
| TarFormat.ComponentsOfName | CourseWorks/coursework/tarfs.cpp:182-203 | a name is taken apart into the components it was put together from, with or without a slash at the end |
| TarFileSystem.TarFS.Descend | CourseWorks/coursework/tarfs.cpp:182-216 | goes down the components of a name, adding just the nodes that are missing |
| TarFileSystem.TarFS.BuildTree | CourseWorks/coursework/tarfs.cpp:136-240 | the tree is what the headers add up to, up to two zero blocks or the end; what that is, the next two rows say |
| TarArchive.ArchiveRoundTrip | CourseWorks/coursework/tarfs.cpp:136-240 | whatever the order of entries, however often a path occurs, and with single zero blocks between them: reading what was written gives nodes to the paths of the entries and the directories on the way to them, and to no others; the size is that of the last entry with the path, the header block that of the last that is no directory |
| TarArchive.TypeDecides | CourseWorks/coursework/tarfs.cpp:225-232 | byte 156 of the last header with a path says what its node is: with 48 ('0') or 0 a file at that block, with 53 ('5'), and no entry before it, none |
| TarFileSystem.EntriesAreStored | CourseWorks/coursework/tarfs.cpp:272-286 | every entry can be opened at the header block its node has, and read to its end unless its last block is full and the device's last |
| TarFileSystem.TarFSFile.PRead | CourseWorks/coursework/tarfs.cpp:95-129 | gives exactly the file's bytes from the offset on, as many as asked for and there are |
| TarFileSystem.TarFSFile.Read | CourseWorks/coursework/tarfs.cpp:309-325 | gives the bytes from the position on, as many as asked for and there are, and moves it; its count is below 2^30 and so fits the int returned |
| TarFileSystem.TarFSFile.ReadAll | CourseWorks/coursework/tarfs.cpp:309-325 | reads of any sizes, one after another, give the content without gaps or repeats, as many bytes as asked for in all, up to the end |
| TarFileSystem.ReadBack | CourseWorks/coursework/tarfs.cpp:95-325 | writing, mounting, opening a path and reading give the bytes that were last written there, whatever the order of the entries |
| TarFileSystem.WithinWhen | CourseWorks/coursework/tarfs.cpp:112-120 | the blocks of a read are all on the device exactly if the read does not end on a block boundary that is the device's end |
| TarFileSystem.AllWithinWhen | CourseWorks/coursework/tarfs.cpp:112-120 | all reads of a file stay on the device exactly if its last block is not the device's last, or is not full |
| TarFileSystem.FullLastBlock | CourseWorks/coursework/tarfs.cpp:112-120 | reading a file of one full block on a device of two blocks reads a third |
| TarFileSystem.ClippedRightWhen | CourseWorks/coursework/tarfs.cpp:97-101 | for an offset in the file the number of bytes to read is right exactly if offset and size together fit a 64-bit word |
| TarFileSystem.ClippedTooLate | CourseWorks/coursework/tarfs.cpp:97-101 | asked for 2^64 - 1 bytes from offset 1 of a file of ten, all of them are to be read |
| TarFileSystem.OneBlockMore | CourseWorks/coursework/tarfs.cpp:112-120 | the block count is one more than needed exactly if the read ends on a block boundary |

## Left out

- BuddyPageAllocator.BuddyAllocator.FreePages: does not say what becomes of the links when an aligned block overlaps free pages and the scan does not notice, as then they no longer form lists.
- PageAllocator.PageAllocator.AllocPages: states successful allocations only, because the source indexes the result without testing it for NULL (page-allocator.cpp:183-190).
- PageAllocator.PageAllocator.FreePages: asks what the buddy algorithm's does, so that it leaves open what happens when an aligned block overlaps free pages and the scan does not notice.
- PageAllocator.PageAllocator.Init: asks that the blocks and kernel ranges lie within the descriptor array, which the boot code sees to.
- VirtualMemory.VMA.InsertMapping: user-half addresses only; the two kernel slots of the top table are shared with a template that is not part of this model. It asks for a free frame per missing table, as the source asserts.
- VirtualMemory.VMA.AllocateVirt: asks for enough free frames, as the source's asserts on page-table frames do not allow for failure.
- Malloc.MallocState.DlMalloc: where the source would ask the system for more memory (`sys_alloc`) the model returns 0; trimming, releasing segments, mmapped chunks, mspaces, footers and locks are not modelled.
- Malloc.MallocState.DlFree: does not model `should_trim` and `release_checks`, which lead to the system side, nor the mmapped branch, which a chunk of the segment never takes.
- dlmalloc's `ok_address`, `ok_next` and similar run-time checks: always true for chunks of the segment.
- `dispose_chunk` and `realloc`: the same merging as in `free`.
- `unsigned int` counts of map and lists, and `int offset` in `init`: counts are unbounded, so fewer than 2^31 pages and 2^32 keys are assumed.
- The nodes of the lists that others use: run queues, wait lists and the iterator's queue are sequences, which `LinkedLists` shows `List` to hold. Deleting nodes is left to garbage collection.
- Map keys of other types: keys are integers, as the hashes the tar driver uses.
- Interrupts in the middle of a change of thread state: such a change is one step.
- Scheduling.Scheduler.Tick: asks that no thread is marked RUNNING, as do yielding and runs; nothing in the kernel ever sets that state.
- What a walk over a torn list does: the source goes on from a deleted node there, and the model ends the walk.
- TarFileSystem.TarFS.BuildTree: a node is the map entry of its path, so name hashes are taken to be injective; names that are empty, start with a slash or fill their field are left out, and the header is the whole 512-byte block.
- `seek`, directories beyond filling their entry array, mounting, and block devices that fail.
- Hardware, boot code, drivers, system calls, the shell and the user library.
