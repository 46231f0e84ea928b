# Verified models of the C runtime library

Six parts of the library are modelled here in Dafny, each with the properties that its callers rely on.

- **The buddy allocator** (`bits`, `words`, `alignment`, `buddy_blocks`, `buddy_layout`, `buddy_lists`, `buddy`,
  `buddy_startup`, `buddy_runs`). `Buddy` is the allocator itself: intrusive doubly linked free lists in a memory of
  addresses, and one bit tree of 32-bit words per page. It is proved against a specification of a single line: the free
  lists hold exactly the largest blocks of the pool that are free (`Canon`). The sizes of the smallest and the largest
  block and the number of pages are parameters.
- **The queue for many producers and consumers** (`mpmc_queue`, `mpmc_calls`). A machine whose steps are the atomic operations and the
  copies of single bytes; `compare_exchange_weak` may fail without a reason.
- **The hash map** (`probing`, `hash_slots`, `hash_map`), **its reference** (`hash_map_ref`) and both together
  (`hash_lockstep`). The hash function is arbitrary; the one of the code is in `hash_function`.
- **The UTF-8 gap buffer** (`utf8`, `utf8_rfc`, `gap_buffer`, `gap_edits`, `gap_iter`). The bytes in the array refine an
  editor that has a list of symbols before the cursor and one behind it.
- **The ring for one producer and one consumer** (`spsc_ring`, `spsc_queue`, `spsc_steps`), operation by operation and
  step by step, **and the logger** built on it (`log_credit`), whose semaphore and ring have to stay in balance.
- **Paths** (`path`): splitting, resolving `.` and `..`, printing.

Machine words are natural numbers with explicit widths: masks, shifts and `|` are functions on numbers (`Bits`), and
additions that can wrap are taken modulo `WORD`, which is 2^64. The decoder of the gap buffer works on bit-vectors.

Where the code does not do what one expects, the model follows the code and says when it matters:

- Lookups in the hash map do not end when no slot is unused and the key is not stored (`HashSlots.LoopEnds`, an
  if-and-only-if). `should_resize` counts used slots only, so that deleted ones can fill the whole pool. Inserting and
  removing the keys 6, 1, 4, 12, 9, 3, 2 and 0 in a new map of eight slots gets there with the hash function of the code
  (`HashLockstep.DeletedByTheCode`), as eight keys that start at different slots do with any other
  (`HashLockstep.DeletedEverywhere`). A run with fewer removals than about three tenths of the slots never does
  (`HashLockstep.Lockstep`).
- A flush of the logger writes the bytes that it then drops from the ring, unless the writer goes past the end of the
  array between the two peeks and the bytes there differ from those that were due (`LogCredit.MisplacesExactly`). Such
  runs exist exactly for rings of more than one byte (`LogCredit.SomeRunMisplaces`).
- The validator of the gap buffer takes surrogates, and lead bytes from F8 to FF as if they were F0 to F7. Section 4 of
  RFC 3629 allows neither; it allows exactly the other texts that the validator takes (`Utf8Rfc.ValidAndStrict`,
  `Utf8Rfc.ValidNotStrict`).
- `getFollowingSymbol` gives the end of the data when too few symbols follow the cursor; its comment announces 0, which
  that is exactly for an array of no bytes (`GapBuffers.GapBuffer.GetFollowingSymbol`).
- A sanitized path has an initial separator and no final one, as its comment announces, exactly if it does not lead to
  the root (`Path.SanitizedForm`); for the root it is the empty text (`Path.SanitizedRoot`).
- `buddy_startup` gives an allocator without pages, not NULL, when the header fits and the region reaches the first place
  for a page but no page fits (`BuddyStartup.Startup`), as it happens in `BuddyStartup.NoRoomForPages`.
- `round_pow2` gives 0 for 0 and for sizes above 2^63.

`dafny verify dfyconfig.toml` checks all files.

## Model

| member | source | states |
|---|---|---|
| Bits.IsPow2Correct | alloc/buddy.c:448-451 | the bit trick accepts 0 and exactly the powers of two |
| Words.RoundPow2 | alloc/buddy.c:457-469 | the least power of two that is at least v, for every 64-bit v up to 2^63; 0 for 0 and, by wrap-around, for all others |
| Words.FirstSet | alloc/buddy.c:475-558 | the index of the lowest set bit of a 64-bit word, -1 for 0, by binary search and a table |
| Words.NextPow2 | hashmap/hash_map.c:9-19 | the least power of two that is at least v |
| Words.CeilLog2Least | alloc/buddy.c:457-469 | the exponent by which both roundings are specified is the least that suffices |
| BuddyBlocks.Take | alloc/buddy.c:750-774 | allocating a block of a free list takes it off the lists and changes no other block on them |
| BuddyBlocks.Split | alloc/buddy.c:775-793 | splitting an allocated block puts exactly the other half on the lists; read backwards, it is the merge of two buddies |
| BuddyBlocks.CoalesceTest | alloc/buddy.c:812-820 | the bit test of the coalescing loop says no exactly when the sibling itself is a node of its list, never scattered over smaller lists |
| BuddyBlocks.WithinHalves | alloc/buddy.c:637-648 | the recursion over the halves finds an allocated block inside exactly when there is one |
| BuddyBlocks.NotScattered | alloc/buddy.c:812-826 | in disjoint, covering, fully merged free lists every free block lies in one node |
| BuddyBlocks.CoalescedIsCanon | alloc/buddy.c:750-827 | free lists are disjoint, cover the free space and are fully merged exactly when they hold the largest free blocks: as sets they are a function of the allocations |
| BuddyBlocks.Tiling | alloc/buddy.c:750-827 | allocated blocks and free lists tile every page: each smallest block lies in exactly one of them |
| BuddyBlocks.ListsSeparate | alloc/buddy.c:750-827 | blocks on the lists are disjoint from each other and from every allocation |
| BuddyBlocks.NoTwoBuddies | alloc/buddy.c:808-826 | two buddies are never both on a free list |
| BuddyBlocks.EmptyCanon | alloc/buddy.c:436-439 | with nothing allocated only whole pages are free blocks |
| BuddyLayout.PageOfBlock | alloc/buddy.c:560-566 | the address arithmetic finds the page that contains a block, and a block inside the pool ends inside it |
| BuddyLayout.OverlapIsBytes | alloc/buddy.c:750-793 | blocks overlap in the tree exactly when their byte ranges intersect |
| BuddyLayout.AlignedIsBlock | alloc/buddy.c:795-806 | every length-aligned pointer into the pool is the address of one block of that length |
| BuddyLayout.BuddyByAddress | alloc/buddy.c:670-690 | sibling_of and parent_of, which add to or mask the pointer, give the addresses of the sibling and the parent |
| BuddyLayout.InfoIndexIsTreeIndex | alloc/buddy.c:568-573 | block_info_index is the breadth-first index in the tree of the page |
| BuddyLayout.TreeIndexInjective | alloc/buddy.c:568-573 | no two blocks of a page, of equal or different size, share a bit |
| BuddyLayout.WordInside | alloc/buddy.c:293-300 | the bit of every block is inside the words of the page |
| BuddyLayout.WordNeeded | alloc/buddy.c:293-300 | and every word of a page holds the bit of some block |
| BuddyLayout.WordsOfBits | alloc/buddy.c:293-296 | there are as many words of 32 bits as the bits of a page need, and no more |
| BuddyAllocator.LevelForSmallest | alloc/buddy.c:650-665 | the list that a length is served from is that of the smallest blocks that hold it |
| BuddyLists.PushShape | alloc/buddy.c:721-734 | writing the links of a new first node keeps every list well linked |
| BuddyLists.UnlinkShape | alloc/buddy.c:699-712 | unlinking a node, whether first, last or between, keeps every list well linked |
| BuddyAllocator.Buddy.constructor | alloc/buddy.c:413-441 | the fresh allocator is valid: every page is on the top list, in order, and nothing is allocated |
| BuddyAllocator.Buddy.SetAllocated | alloc/buddy.c:609-631 | setting or clearing a bit changes the state of one block only |
| BuddyAllocator.Buddy.SplitsTest | alloc/buddy.c:637-648 | on agreeing bit trees the recursive test tells whether some part of the block is allocated |
| BuddyAllocator.Buddy.Append | alloc/buddy.c:721-734 | the block becomes the first node of its list; the other lists stay as they are |
| BuddyAllocator.Buddy.Pop | alloc/buddy.c:736-748 | the first node is returned and leaves its list |
| BuddyAllocator.Buddy.RemoveSiblingFromList | alloc/buddy.c:699-712 | exactly the buddy leaves the lists, found by its address alone |
| BuddyAllocator.Buddy.SplitDown | alloc/buddy.c:775-789 | the splitting loop ends with the first part of the block, at the same address, and the halves in front on the lists between |
| BuddyAllocator.Buddy.Malloc | alloc/buddy.c:750-793 | keeps the whole invariant; fails for a length in range exactly when every aligned block of the rounded size overlaps an allocation; else gives such a block, which is the only change to the allocations; says which lists change and how; memory in use is not written |
| BuddyAllocator.Buddy.Merge | alloc/buddy.c:815-823 | one merging turn: the blind unlink is right, and the parent is pending |
| BuddyAllocator.Buddy.Coalesce | alloc/buddy.c:812-826 | the loop ends and leaves fully merged lists |
| BuddyAllocator.Buddy.Free | alloc/buddy.c:795-827 | a block allocated with that size class is released and merged; a double free or a free with the wrong size class changes nothing; memory in use is not written |
| BuddyAllocator.Buddy.Store | alloc/buddy.c:750-793 | whatever an owner writes into its block, the allocator stays valid |
| BuddyRuns.MallocThenFree | alloc/buddy.c:750-827 | malloc and the matching free restore the free lists as sets |
| BuddyRuns.FreeEverything | alloc/buddy.c:795-827 | releasing all allocations in any order leaves only whole pages, and all of them, as after startup |
| BuddyRuns.OutstandingBytes | alloc/buddy.c:750-793 | allocations are inside the pool, aligned to their size, and share no byte |
| Alignment.AlignUpAligns | alloc/buddy.c:337-342 | the masked negation of an address is padding that aligns it |
| Alignment.AlignUpLeast | alloc/buddy.c:400-406 | and no smaller padding does |
| BuddyStartup.FitsMonotone | alloc/buddy.c:357-384 | if trees, padding and aligned pages fit for a count, they fit for every smaller one |
| BuddyStartup.FitsExactly | alloc/buddy.c:357-384 | fitting means that n trees and, from a multiple of the page size behind them on, n pages lie inside the region |
| BuddyStartup.LowestPlace | alloc/buddy.c:334-355 | the header fits exactly if it and the trees have aligned places behind one another, and the trees get the lowest |
| BuddyStartup.CountTrees | alloc/buddy.c:357-384 | the loop finds the largest count for which everything fits |
| BuddyStartup.Startup | alloc/buddy.c:330-442 | as many pages as fit, behind the header and the trees and inside the region, and a valid allocator, whose pages start at the first multiple of their size behind the trees; NULL exactly when the header does not fit or the padding behind it goes past the end, the NULL region included; no pages exactly when not even one fits |
| BuddyStartup.NoRoomForPages | alloc/buddy.c:393-406 | an allocator without pages comes out of every region that is as large as a page and aligned like one and has room for the header |
| BuddyStartup.NoRoomAt4096 | alloc/buddy.c:393-406 | so for a header of 112 bytes and pages of 4096 bytes, in the region of 4096 bytes at 4096 |
| MpmcQueue.StepInv | lockfree/mpmc_queue.c:55-162 | every step of every thread keeps the order of the four counters, the ownership of reserved indices, the contents of the cells and what the threads know |
| MpmcQueue.StepPerforms | lockfree/mpmc_queue.c:55-162 | every step is a step of a bounded FIFO queue that also counts the items on their way in and out, or none; a failure to push happens only when that queue is full, a failure to pop only when it is empty |
| MpmcCalls.EndsWithEvent | lockfree/mpmc_queue.c:99-162 | a call ends only with its item pushed, with an item returned, or with one of the two failures |
| MpmcCalls.EventsAreAsked | lockfree/mpmc_queue.c:99-162 | in every run what a thread enters and pushes is what its call was asked to push, and only calls that were asked to pop take and return items |
| MpmcCalls.PushAlone | lockfree/mpmc_queue.c:55-110 | a push of v that nothing disturbs adds v exactly if the queue has room, and else has found it full |
| MpmcCalls.PopAlone | lockfree/mpmc_queue.c:118-162 | a pop that nothing disturbs returns the first item exactly if there is one, and else has found none |
| MpmcQueue.EveryRun | lockfree/mpmc_queue.c:55-162 | in every run of any number of threads: the counters are ordered, each reserved index has one owner, the returned items are a prefix of the published ones, and the events are a history of that bounded queue, by thread |
| MpmcQueue.FirstInFirstOut | lockfree/mpmc_queue.c:99-162 | in such a history the popped items are the first of the pushed ones, in order |
| MpmcQueue.ReturnsItsOwn | lockfree/mpmc_queue.c:150-162 | in such a history every pop returns the item that the same thread took out of the queue last |
| MpmcQueue.PopReturnsPushed | lockfree/mpmc_queue.c:118-162 | in every run the bytes that a thread has copied out for index k are those of the k-th push, and of its own last pop event |
| MpmcQueue.StepRefines | lockfree/mpmc_queue.c:94-97 | a push takes effect at tail++, a pop at the compare-and-swap on head, and no other step changes the abstract queue |
| MpmcQueue.LoadsAreConsistent | lockfree/mpmc_queue.c:61-76 | the asserts between the loads hold; a failed push saw every cell reserved, a failed pop an empty queue |
| MpmcQueue.NoSharedCell | lockfree/mpmc_queue.c:99-162 | no two threads copy into or out of the same cell at once |
| MpmcQueue.CellOfFirst | lockfree/mpmc_queue.c:49-53 | the first indices have the cells in order, and size indices later they come again |
| MpmcQueue.SomeoneMoves | lockfree/mpmc_queue.c:94-96 | while an operation is reserved, some thread has a step that is not a turn of a wait loop |
| MpmcQueue.Drain | lockfree/mpmc_queue.c:79-148 | from every reachable state all reserved operations can finish, in a bounded number of steps |
| Probing.FullPeriod | hashmap/hash_map.c:172-175 | i -> 5 i + 1 modulo 2^n is one cycle through all slots |
| Probing.PerturbationEnds | hashmap/hash_map.c:172-175 | after thirteen shifts by five nothing is left of a 64-bit hash |
| Probing.PastWarmUp | hashmap/hash_map.c:172-175 | from then on the probes follow that cycle |
| Probing.EverySlot | hashmap/hash_map.c:129-175 | every slot is looked at within the first 12 + size probes, for every hash |
| Probing.FirstProbe | hashmap/hash_map.c:129-132 | the loops start at the masked hash |
| Probing.NextProbe | hashmap/hash_map.c:172-175 | and go on to the masked sum of five times the index, the shifted perturbation and one |
| Probing.Advance | hashmap/hash_map.c:172-175 | the 64-bit arithmetic of the loops, wrap-around included, computes the next probe |
| HashSlots.LoopEnds | hashmap/hash_map.c:264-291 | a probe loop ends, and within 12 + size turns, exactly when a slot is unused or the key is stored |
| HashSlots.EndTells | hashmap/hash_map.c:264-291 | the slot at which it ends tells whether the key is stored, and its value |
| HashSlots.StoreNew | hashmap/hash_map.c:129-185 | a new entry in the first slot not used keeps keys unique and all entries findable |
| HashSlots.Erase | hashmap/hash_map.c:202-242 | marking a slot deleted keeps all other entries findable |
| HashSlots.CountIsSize | hashmap/hash_map.c:50-56 | the number of used slots is the number of entries |
| HashSlots.UnusedLeft | hashmap/hash_map.c:58-62 | a slot is unused exactly when used and deleted slots together are fewer than all |
| HashMap.Table.constructor | hashmap/hash_map.c:26-42 | an empty map of the rounded size, not below eight, for negative sizes too |
| HashMap.Table.Insert | hashmap/hash_map.c:114-185 | the map with the entry added or replaced; grows exactly when seven tenths of the pool are used; a new key goes to the first slot on its probe path that is not used, another one stays where it is |
| HashMap.Table.Resize | hashmap/hash_map.c:64-102 | a pool of twice the size with the same entries, an unused slot, and no need to resize again, so that the calls of insert do not recurse further |
| HashMap.Table.Remove | hashmap/hash_map.c:187-246 | true exactly when the key was stored; only its slot changes, to deleted |
| HashMap.Table.Select | hashmap/hash_map.c:248-295 | the stored value, 0 if there is none |
| HashMap.Table.Exists | hashmap/hash_map.c:297-300 | whether the key is stored |
| HashMap.Table.Count | hashmap/hash_map.c:50-56 | the number of entries |
| HashMap.Table.RoomToProbe | hashmap/hash_map.c:58-62 | as many deleted slots as entries leave room for, and no more, keep an unused slot; fewer than three tenths of the pool always do |
| HashMapRef.Table.Insert | hashmap/hash_map_ref.c:22-49 | the map with the entry added or replaced; a new key makes room for eight entries at first and doubles a full array |
| HashMapRef.Table.Remove | hashmap/hash_map_ref.c:51-62 | the map without the key; true exactly when it was there |
| HashMapRef.ListsSwapRemove | hashmap/hash_map_ref.c:51-62 | moving the last entry into the hole removes one entry and no other |
| HashMapRef.Table.Select | hashmap/hash_map_ref.c:64-72 | the stored value, 0 if there is none |
| HashLockstep.Lockstep | hashmap/test_hashmap.c:35-90 | over every run of insertions, removals and selections, resizing included, both maps give the same answers and the same count, those of a mathematical map; it stops early exactly when a probe would not end or the size would outgrow an int, and without removals, or with fewer than about three tenths of the slots, for its size only |
| HashLockstep.DeletedEverywhere | hashmap/hash_map.c:58-62 | for every hash function and eight keys that start at different slots, an empty map without any unused slot is reached, and should_resize does not see it |
| HashLockstep.DeletedByTheCode | hashmap/hash_map.c:104-112 | it is reached with the hash function of the code |
| HashFunction.OnePerSlotExists | hashmap/hash_map.c:104-112 | the eight keys 6, 1, 4, 12, 9, 3, 2, 0 start at the slots 0 to 7 |
| HashLockstep.SearchNeverEnds | hashmap/hash_map.c:264-291 | in such a map the search for a missing key looks at slot after slot for ever |
| Utf8.SymbolShape | gap_buffer/gap_buffer.c:226-315 | a symbol is one lead byte, which tells its length, and auxiliary bytes |
| Utf8.SymbolAhead | gap_buffer/gap_buffer.c:226-315 | what follows a symbol does not change how it is read |
| Utf8.DecodeEncode | gap_buffer/test.c:49-64 | every rune up to 10FFFF is read back from its encoding, whatever follows |
| Utf8.EncodeDecode | gap_buffer/gap_buffer.c:226-315 | every accepted symbol is the encoding of its rune, up to one bit of the lead bytes F8 to FF |
| Utf8Rfc.AcceptedSymbols | gap_buffer/gap_buffer.c:226-315 | the bytes that are read as rune r are exactly its encoding and, for four bytes, the one with that bit set |
| Utf8Rfc.StrictIsRfc | gap_buffer/gap_buffer.c:226-315 | the byte table of RFC 3629 is exactly the accepted symbols without surrogates and without lead bytes F8 to FF |
| Utf8Rfc.SymbolValue | gap_buffer/gap_buffer.c:226-315 | the rune of a symbol is the sum of what its bytes count for |
| Utf8Rfc.ValidNotStrict | gap_buffer/gap_buffer.c:317-328 | ED A0 80 and F8 90 80 80 are accepted and not allowed by the RFC |
| Utf8.CheckUtf8 | gap_buffer/gap_buffer.c:317-328 | accepts exactly the texts that are symbol after symbol |
| Utf8Rfc.ValidAndStrict | gap_buffer/gap_buffer.c:317-328 | a text conforms to the RFC exactly when it is accepted and none of its symbols is of those two kinds |
| Utf8.SymbolsOfValid | gap_buffer/gap_buffer.c:317-328 | a valid text is the concatenation of its symbols |
| Utf8.ValidOfSymbols | gap_buffer/gap_buffer.c:317-328 | symbols put together are valid and are read back as the same symbols |
| Utf8.RunesOfEncoded | gap_buffer/test.c:49-64 | a text encoded from runes is valid and shows these runes |
| GapBuffers.GapBuffer.CreateUsingMemory | gap_buffer/gap_buffer.c:74-101 | an empty buffer; padding, header and data fill the region exactly; NULL exactly when there is none or padding and header do not fit |
| GapBuffers.CapacityFills | gap_buffer/gap_buffer.c:84-98 | the room by which sessions are specified is what padding and header leave of the region |
| GapBuffers.GapBuffer.InsertBytesBeforeCursor | gap_buffer/gap_buffer.c:148-157 | appends before the cursor, exactly if the gap has room |
| GapBuffers.GapBuffer.InsertBytesAfterCursor | gap_buffer/gap_buffer.c:159-167 | inserts behind the cursor, exactly if the gap has room |
| GapBuffers.GapBuffer.CloneUsingMemory | gap_buffer/gap_buffer.c:190-211 | a buffer with the same text and cursor that fills its region; NULL exactly when padding, header and text do not fit |
| GapBuffers.GapBuffer.InsertString | gap_buffer/gap_buffer.c:348-353 | the symbols of the text appear before the cursor, exactly if the text is valid and fits |
| GapBuffers.GapBuffer.GetPrecedingSymbol | gap_buffer/gap_buffer.c:373-397 | the backward scan stops num symbols before the cursor or at the start, and its assert marked FIXME never fires |
| GapBuffers.GapBuffer.GetFollowingSymbol | gap_buffer/gap_buffer.c:411-437 | the forward scan by lead bytes finds the boundaries of the symbols behind the cursor, num of them or all, and stays inside the data; the announced 0 for too large a num comes out exactly if the array is empty |
| GapBuffers.GapBuffer.RemoveForwards | gap_buffer/gap_buffer.c:439-443 | drops num symbols behind the cursor, or all |
| GapBuffers.GapBuffer.RemoveBackwards | gap_buffer/gap_buffer.c:445-450 | drops num symbols before the cursor, or all |
| GapBuffers.GapBuffer.MoveBytesAfterGap | gap_buffer/gap_buffer.c:452-464 | the overlapping memmove carries symbols over the gap; its asserts hold |
| GapBuffers.GapBuffer.MoveBytesBeforeGap | gap_buffer/gap_buffer.c:466-478 | the same in the other direction; its assert marked FIXME never fires |
| GapBuffers.GapBuffer.MoveRelative | gap_buffer/gap_buffer.c:480-489 | same text, the cursor moved by off symbols and clamped |
| GapBuffers.GapBuffer.MoveAbsolute | gap_buffer/gap_buffer.c:491-514 | same text, the cursor behind the first num symbols, clamped, wherever the gap was |
| GapBuffers.GapBuffer.SidesValid | gap_buffer/gap_buffer.c:116-146 | both sides of the gap pass the validator and read as the symbols of the editor |
| GapEdits.Session | gap_buffer/gap_buffer.c:190-514 | in every session of insertions, cursor moves, removals and clones, on any valid buffer, contents, cursor, room and answers are those of an editor over lists of symbols; so no assert on the way fires, the two marked FIXME included |
| GapIter.Iter.Next | gap_buffer/gap_buffer.c:529-606 | the first line of what is left, also across the gap; false exactly when nothing is left |
| GapIter.AllLines | gap_buffer/gap_buffer.c:516-606 | calling next until false yields exactly the text split at its newlines, wherever the gap is |
| GapIter.GapLineIs | gap_buffer/gap_buffer.c:556-594 | the length that must not exceed 512 is that of the line around the gap |
| GapIter.LinesJoin | gap_buffer/gap_buffer.c:529-606 | the split lines have no newlines and give the text back when joined; no extra line behind a last newline |
| SpscRing.Snapshot | lockfree/spsc_queue.c:201-259 | the two peeked regions, one behind the other, are the contents in order, full and wrapped rings included |
| SpscRing.SlotIsRemainder | lockfree/spsc_queue.c:87-111 | the masked index is the remainder by the capacity |
| SpscRing.PeeksFit | misc/log.c:209-212 | two peeks with pushes in between never see more items than there are |
| SpscRing.PeeksInOrder | misc/log.c:209-217 | their regions are the first items in order if the tail does not pass the wrap in between |
| SpscRing.PeeksOutOfOrder | misc/log.c:209-217 | if it does, the second region is right exactly if the cells at the start of the array hold the same as those that were due |
| SpscQueue.Queue.Push | lockfree/spsc_queue.c:87-111 | appends the item, exactly if the ring is not full; with NULL, what the cell held |
| SpscQueue.Queue.MultiPush | lockfree/spsc_queue.c:113-144 | appends all items in order, or none, exactly if they fit |
| SpscQueue.Queue.Pop | lockfree/spsc_queue.c:146-169 | removes the first item, exactly if there is one |
| SpscQueue.Queue.MultiPop | lockfree/spsc_queue.c:171-199 | removes the first num items in order, exactly if there are so many |
| SpscQueue.Queue.Peek | lockfree/spsc_queue.c:201-259 | the regions are inside the array and hold the contents; which of them are NULL, and where the others start |
| SpscSteps.ProducerKeeps | lockfree/spsc_queue.c:87-144 | every step of the producer keeps the invariant, whatever the consumer is doing |
| SpscSteps.ConsumerKeeps | lockfree/spsc_queue.c:146-199 | every step of the consumer does |
| SpscSteps.EveryRun | lockfree/spsc_queue.c:87-199 | in every interleaving head <= tail <= head + capacity, and if all pops are asked to copy, the output of the consumer is what was pushed up to head |
| SpscSteps.PushEnds | lockfree/spsc_queue.c:87-144 | a push that succeeds has added all its items in order, and one that fails nothing |
| SpscSteps.PopEnds | lockfree/spsc_queue.c:146-199 | a pop that succeeds has removed what it was asked for and, if it was to copy, copied every item; one that fails has changed nothing |
| SpscSteps.ProducerStarts | lockfree/spsc_queue.c:87-144 | what a push does is what it was called with |
| SpscSteps.ConsumerStarts | lockfree/spsc_queue.c:146-199 | what a pop does is what it was called with |
| SpscSteps.PushGetsDone | lockfree/spsc_queue.c:87-144 | every step of a push brings it closer to its end, whatever the consumer does |
| SpscSteps.PopGetsDone | lockfree/spsc_queue.c:146-199 | every step of a pop brings it closer to its end, whatever the producer does |
| SpscSteps.NoSharedCell | lockfree/spsc_queue.c:87-199 | the two threads never copy into and out of the same cell at once |
| SpscSteps.PushFailsExactly | lockfree/spsc_queue.c:119-126 | a push fails exactly when there was too little room in the state in which it loads head, whatever the consumer does before it loads tail |
| SpscSteps.PopFailsExactly | lockfree/spsc_queue.c:171-181 | a pop fails exactly when there are too few items in the state in which it loads tail |
| LogCredit.FlusherKeeps | misc/log.c:200-225 | every step of a flush keeps the credits in balance and the file in order |
| LogCredit.WriterKeeps | misc/log.c:336-343 | every step of a write does |
| LogCredit.EveryRun | misc/log.c:200-343 | in every interleaving: semaphore + credits held + bytes in the ring + bytes popped but not signalled = capacity; multi_push and multi_pop always return true; what was logged, with the record in progress, is the data of the calls in order; the file is a prefix of it exactly if no flush has written other bytes than were due, which takes a push past the wrap between two peeks |
| LogCredit.MisplacesExactly | misc/log.c:209-217 | a flush spoils the file exactly if the tail went past the wrap between its peeks and the first cells differ from those that were due |
| LogCredit.SeesNoMoreThanThereIs | misc/log.c:209-218 | what a flush peeks never exceeds the bytes in the ring |
| LogCredit.WriterIsReleased | thread/sync.c:229-272 | a waiting writer has its credits, and goes on, after at most 21 steps of the flusher, wherever the flusher is |
| LogCredit.TornFlush | misc/log.c:209-217 | in every ring of two or more bytes a record as large as the ring can do that |
| LogCredit.SomeRunMisplaces | misc/log.c:209-217 | some run spoils the file exactly if the ring has more than one byte |
| Path.SplitPathComponents | http/path.c:20-64 | the slices on the stack are the names the path leads to; -1 exactly when it is not accepted |
| Path.ComponentsJoin | http/path.c:24-62 | the components have no separators and, joined with them, give the path without its first separator and without its last |
| Path.RelativeIsAbsolute | http/path.c:26-28 | a path without a separator at its start means what it means with one |
| Path.ComponentCharacters | http/path.c:10-18 | components consist of what is printable except separators and, unless they are let in, colons |
| Path.SanitizePath | http/path.c:71-105 | the text of these names and a null byte, exactly if they fit; nothing is written otherwise |
| Path.SanitizesExactly | http/path.c:71-92 | a path is sanitized exactly if its components are accepted, with room for 64 names, and the text and a null byte fit into the buffer |
| Path.SplitOfPrinted | http/path.c:20-105 | splitting what was printed gives the same names back |
| Path.SanitizedIsClean | http/path.c:66-105 | every result has at most 64 components, none of them empty, "." or ".." |
| Path.SanitizedForm | http/path.c:66-70 | the result starts with a separator and does not end with one exactly if the path does not lead to the root, and else is empty |
| Path.SanitizedRoot | http/path.c:66-70 | the result for the root is the empty text, without the announced separator |
| Path.SanitizeTwice | http/path.c:71-105 | sanitizing is idempotent |
| Path.AcceptedPaths | http/path.c:20-64 | a path is accepted exactly when its components are well formed, none climbs above the root and none is met at the limit; the names left are those that nothing climbs out of again |

## Left out

- BuddyAllocator.Buddy.Free: expects, as the code does, a pointer into the pool that is aligned to the rounded length; the index drops the low bits of any other.
- BuddyAllocator.Buddy.Malloc: the NULL handle, which makes malloc return NULL, is not modelled.
- BuddyStartup.Startup: the number of trees is not limited to an int, and only the empty region may be NULL, as the assert of the code demands.
- HashMap.Table.constructor: sizes above 2^30 have no power of two that is an int, and `next_pow2` overflows on them.
- HashMap.Table.Insert: expects a value other than 0, as the assert of the code does, and a pool of at most 2^28 slots, beyond which int arithmetic overflows; the slot limit also bounds `HashLockstep.Lockstep`.
- HashMap.Table.Remove: that a slot is unused, or the key is stored, is required, since without it the loop does not end; creation and resize establish it and the map does not keep it.
- HashMapRef.Table.Insert: the array grows without the failure of malloc.
- GapIter.Iter.Next: expects the line that the gap interrupts to have at most 512 bytes; a longer one is truncated by the code and its two copies are not modelled.
- GapIter.AllLines: expects the same of the line that the gap interrupts.
- GapBuffers.GapBuffer.MoveRelative: offsets are unbounded; the negation of the least int is not modelled.
- MpmcQueue.EveryRun: counters do not overflow, and the cell of an index is the index modulo the size also beyond 2^31, where the code truncates it to an int.
- SpscQueue.Queue.Push: counters do not overflow, as the code assumes, and the capacity is at most 2^30, as its index asserts require.
- LogCredit.EveryRun: one logging thread, since every thread has a buffer of its own; records of length 0, which the semaphore asserts against, are not written.
- LogCredit.WriterIsReleased: that the flusher goes on running, its wake-ups and its timeout are not modelled.
- The mutexes of the allocator and of the hash map: the operations are modelled one at a time.
- The recycling of deleted slots by a rehash, which the hash map does not do.
- `GapBuffer_insertStringMaybeRelocate`, which drops the old text; cloning is the modelled way to grow.
- The list of thread buffers of the logger, its configuration, and writing to the file, which is taken to write all bytes.
- `match_path_format`, query strings, cookies and request parsing.
- The other queues and pools of the library (`lockfree/spmc_queue.c`, `thread/thread_pool.c`, `alloc/pool.c`, `tcp/byte_queue.c`).
- Sockets, files, graphics, time, threads and the other wrappers of operating system calls.
