# A verification model of Hologine's core

A Dafny 4.11 model of the stateful and byte-level cores of Hologine's platform library
(`code/hologine_platform/hologine/core`), with proofs about every run, every input or every interleaving. The model
follows the code, branch by branch. Where the code does not do what its headers and comments promise, the project
keeps the code, proves for all inputs exactly when the promise is kept (an if-and-only-if with a condition that a
caller can check beforehand), and shows a concrete input on which it is not (`Counterexamples.dfy`).

`dafny verify dfyconfig.toml` checks everything.

## Shape

Each source class is a class whose methods change its fields as the source does; every method is proved against a
function on values (`Grown`, `Popped`, `Writing`, ...), and the theorems are lemmas about those functions and about
runs of them. Memory that the source uses in place (free nodes inside free slots, marker words inside the region) is a
map from addresses to words. Platform calls, allocation failures and the contents of uninitialised variables are
parameters, so a theorem holds whatever they are.

| file | what it models |
|---|---|
| `Arithmetic`, `Bits` | alignment, rounding, logarithms; or, and, shifts and masks on words |
| `ArenaRecords` | the intrusive list, at the arena record, in one array |
| `MemoryArenaPool`, `ArenaConservation` | carving and lending arenas; every carved arena is in one place, over any run of any number of pools |
| `PoolAllocator`, `PoolSlots` | the pool with its lazily split free list inside the arenas; one arena's slots and free nodes |
| `PoolTheorems`, `PoolLists` | blocks, frees and runs of any number of pools; when slots and free nodes partition the arenas, and when the lists are rings |
| `HeapAllocator` | the row of pools, alignment inside a slot, freeing by division |
| `MemoryRegion`, `FixedAllocator` | page commitment, the seeded slot list |
| `LinearAllocator`, `LinearBlocks` | the marker stack stored in the memory it manages; everything live in it, over any run |
| `EventQueue`, `EventDelivery` | queues between threads: nodes and events; batches in hand and delivery under every interleaving |
| `EventOwnership`, `QueueLocks` | who has an event, and when one is disposed of twice; mutexes |
| `Rfc3629`, `Utf8`, `Utf8Theorems` | sections 3 and 4 of RFC 3629; the cursor in both directions; agreement, round trip |
| `Strings`, `StringBuilder` | shared slices with reference counts, chunk concatenation |
| `StringIterator`, `StringSlices` | the bracketing iterator; what substrings cut at iterators decode to |
| `Handle` | four bit fields of any widths in 64 bits |
| `MemoryStream`, `ByteOrder`, `BinaryIo` | the bounded cursor, byte swapping, typed values and handles written and read back |
| `Exceptions`, `WordMemory`, `Options`, `Sequences` | error codes, words in memory, optional values, lists without repetition |
| `Counterexamples` | inputs on which a promise is not kept |

## Where code and documentation disagree

The model follows the code in each case.

- `utf8.cpp:173-174`: an invalid code point, which is a surrogate in three bytes, is answered with the code of an invalid
  first byte; `invalid_unicode_code_point` is returned nowhere. `utf8.hpp:53`: `get_code_point_utf8_sequence_length` is
  documented to return 0 for an invalid code point, and never does (`Utf8.CodePointLength`).
- `utf8.cpp:150-165`: in the four-byte case `&` binds weaker than `<<` and byte 1 is read twice; `Utf8Theorems`
  characterises the sequences on which decoder and grammar differ and the code points that survive a round trip.
- `intrusive_list.hpp:223-251`: `insert_after` links correctly only into a one-element list.
- `pool_allocator.cpp:26-27, 84-94, 127, 134-173, 229` and `memory_arena_pool.cpp:74-93`: the count divides by the
  unclamped size, a split writes into the first live block, a freed block that is not its arena's last is never put on
  a free list, handing out the last slot while such a block is outstanding leads back to a slot in use, and stale links
  can put an arena on two lists or on none. `PoolTheorems` and `ArenaConservation` give the exact guards under which the
  pools and their arenas are nevertheless safe, over any run. The list of free nodes is meant to be
  circular (`pool_allocator.cpp:169-172`); `PoolLists` says when it is, and when it covers all slots that are free.
- `heap_allocator.cpp:63-77`: the pool is chosen from the alignment alone, by a size that is one byte less than the
  padding can be; aligning may leave the block; the destructor (`49-55`) stops one pool short.
- `linear_allocator.cpp:53`: the bump does not add the size; `15-18`: the marker is not initialised; `72-108`: two pushes
  in a row write one word twice, and a push succeeds even when there is no memory.
- `fixed_allocator.cpp:50, 59`: the node count divides by itself while unset, and the loop skips the slot at the base.
- `memory_region.cpp:74-134`: the sum of sizes wraps at 2^64 before the bounds check.
- `event_queue.hpp:133-138`: the first node pushed never becomes the head, so nothing is ever delivered.
- `event_queue.cpp:34` against `event.hpp:37-41`: an event that has come back to its owner, flagged as disposed, is
  disposed of again instead of being deallocated, so it goes round for ever.
- `string.cpp:97, 137, 212-248`, `string.hpp:261-276`: a substring drops its string's own offset, `duplicate` of a managed
  string is an unmanaged view of the same buffer, `==` compares length minus offset from the start of the data, and the
  range constructor never sets the storage mode.
- `string_iterator.cpp:159`: iterators compare by the next offset, so a loop ends before the last code point.
- `string_builder.cpp:46-90`: the total length is never set, and the string that is returned shows nothing.
- `bits.hpp:29`: `mask<N>` has N + 1 bits. `memory_stream.cpp:100`: seeking from the end assigns the wrong variable.

## Model

| member | source | states |
|---|---|---|
| Arithmetic.AlignPointerExact | code/hologine_platform/hologine/core/memory/allocator.cpp:15-29 | aligning yields the only multiple of the alignment from the pointer up to one alignment beyond |
| Arithmetic.BitLog2Exact | code/hologine_platform/hologine/core/math/bits.hpp:114-128 | the result is the rounded-down logarithm, and 0 for 0 |
| Arithmetic.RoundUpAll | code/hologine_platform/hologine/core/math/util.hpp:24-29 | for all words: a value above 0 is rounded up to the next multiple, less 2^64 where that is reached; 0 comes to 0 if and only if the factor divides 2^64 |
| Bits.ShiftsExact | code/hologine_platform/hologine/core/math/bits.hpp:25-134 | shifting right divides by a power of two, the low bits are the remainder, and shifting left multiplies |
| Bits.AndMask | code/hologine_platform/hologine/core/math/bits.hpp:25-37 | a mask of k low bits keeps exactly the k low bits |
| ArenaRecords.Remove | code/hologine_platform/hologine/core/container/intrusive_list.hpp:151-171 | the in-place link surgery leaves the table that the specification function gives |
| ArenaRecords.Unlink | code/hologine_platform/hologine/core/container/intrusive_list.hpp:178-189 | removing and then clearing the node's own links |
| ArenaRecords.InsertBefore | code/hologine_platform/hologine/core/container/intrusive_list.hpp:196-216 | the four link writes, for a position with or without a predecessor |
| ArenaRecords.InsertAfter | code/hologine_platform/hologine/core/container/intrusive_list.hpp:223-251 | the link writes as they are, wrong field and all |
| ArenaRecords.RemoveFromList | code/hologine_platform/hologine/core/container/intrusive_list.hpp:151-171 | removing any node of a doubly linked list leaves the list without it, and the node keeps its links |
| ArenaRecords.UnlinkFromList | code/hologine_platform/hologine/core/container/intrusive_list.hpp:178-189 | unlinking leaves the rest a list and the node a list of its own |
| ArenaRecords.InsertBeforeInList | code/hologine_platform/hologine/core/container/intrusive_list.hpp:196-216 | a fresh node inserted before any position is spliced in there, both ways |
| ArenaRecords.InsertAfterInList | code/hologine_platform/hologine/core/container/intrusive_list.hpp:223-251 | inserting after a position yields the spliced list if and only if the list has one element |
| ArenaRecords.InsertAfterForward | code/hologine_platform/hologine/core/container/intrusive_list.hpp:223-251 | the forward links alone come out spliced if and only if the position is not the last of several |
| ArenaRecords.InsertAfterLinks | code/hologine_platform/hologine/core/container/intrusive_list.hpp:223-251 | for every list and position: the new node leads back to the position and on to its successor, the position on to it, and which other record has its link overwritten; no other changes |
| ArenaRecords.InsertedAfterEntry | code/hologine_platform/hologine/core/container/intrusive_list.hpp:223-251 | the same for any table of records, list or not |
| MemoryArenaPool.Pool.constructor | code/hologine_platform/hologine/core/memory/memory_arena_pool.cpp:17-42 | the arenas start behind the larger of page size, granularity and 48 bytes a record; every record zeroed, nothing carved; no records at all when their pages cannot be committed |
| MemoryArenaPool.ArenasOnBoundary | code/hologine_platform/hologine/core/memory/memory_arena_pool.cpp:28-40 | the arenas start on a 16-byte boundary, but with 2000 records not on a 512-byte one |
| MemoryArenaPool.Pool.AllocateArena | code/hologine_platform/hologine/core/memory/memory_arena_pool.cpp:126-146 | carves the next arena at its address and puts it first on the free list, or changes nothing |
| MemoryArenaPool.Pool.Reserve | code/hologine_platform/hologine/core/memory/memory_arena_pool.cpp:49-61 | carves until the amount is reached, the table is full or the platform refuses, and says which |
| MemoryArenaPool.Pool.TakeArena | code/hologine_platform/hologine/core/memory/memory_arena_pool.cpp:63-81 | takes the first free record, carving one if there is none; its own links stay |
| MemoryArenaPool.Pool.GiveArena | code/hologine_platform/hologine/core/memory/memory_arena_pool.cpp:83-96 | clears the record and puts it first on the free list; its next is written only when that list is not empty |
| MemoryArenaPool.ArenaOfIsOwner | code/hologine_platform/hologine/core/memory/memory_arena_pool.cpp:98-109 | the arena found by division is the one whose range holds the pointer, and only that one |
| MemoryArenaPool.CarvedExact | code/hologine_platform/hologine/core/memory/memory_arena_pool.cpp:126-148 | carving succeeds if and only if a record is left and its pages are committed, and puts it first on the free list over the next stretch of the region |
| MemoryArenaPool.TakenExact | code/hologine_platform/hologine/core/memory/memory_arena_pool.cpp:63-81 | what is taken is the first free record or the one just carved, and nothing if and only if neither is to be had; no record is written |
| MemoryArenaPool.GivenExact | code/hologine_platform/hologine/core/memory/memory_arena_pool.cpp:83-96 | a record given back has no owner, free nodes or predecessor and is first on the free list; no other is touched |
| MemoryArenaPool.GivenIsTaken | code/hologine_platform/hologine/core/memory/memory_arena_pool.cpp:63-96 | the record given back last is taken next, and the free list is then as before if and only if it was not empty or the record led nowhere |
| MemoryArenaPool.RecordsFit | code/hologine_platform/hologine/core/memory/memory_arena_pool.cpp:28-30 | the room for the records is the least that holds all of them, a page and the granularity |
| ArenaConservation.CarveConserves | code/hologine_platform/hologine/core/memory/memory_arena_pool.cpp:126-146 | carving keeps every carved arena on exactly one list, once |
| ArenaConservation.AttachConserves | code/hologine_platform/hologine/core/memory/pool_allocator.cpp:207-234 | a pool's request keeps that law if and only if a guard on four link fields holds beforehand |
| ArenaConservation.AttachMembers | code/hologine_platform/hologine/core/memory/pool_allocator.cpp:207-234 | an allowed request moves the first free arena to the pool and nothing else |
| ArenaConservation.DetachConserves | code/hologine_platform/hologine/core/memory/pool_allocator.cpp:134-152 | returning an arena keeps the law if and only if the link that removal rewrites leads to it and its stale next is overwritten or null |
| ArenaConservation.DetachMembers | code/hologine_platform/hologine/core/memory/pool_allocator.cpp:134-152 | an allowed return takes the arena off its pool's list and moves nothing else |
| ArenaConservation.AttachedReturns | code/hologine_platform/hologine/core/container/intrusive_list.hpp:248 | an arena attached behind a head leads back to the head, and may be returned at once if and only if a free arena is left or the head had no successor; a first arena if and only if its own link back is harmless |
| ArenaConservation.GivenAllLinks | code/hologine_platform/hologine/core/memory/pool_allocator.cpp:32-46 | the destructor's loop chains the arenas it gives back in reverse |
| ArenaConservation.StepConserves | code/hologine_platform/hologine/core/memory/pool_allocator.cpp:32-234 | each kind of step, destroying a pool included, keeps the law if and only if it is allowed |
| ArenaConservation.RunConserves | code/hologine_platform/hologine/core/memory/pool_allocator.cpp:32-234 | over any run of any number of pools every carved arena is in exactly one place throughout if and only if every step is allowed where it is taken |
| ArenaConservation.FreshConserved | code/hologine_platform/hologine/core/memory/memory_arena_pool.cpp:17-42 | the law holds of a system just constructed |
| PoolAllocator.ConfiguredExact | code/hologine_platform/hologine/core/memory/pool_allocator.cpp:17-30 | an arena has as many objects as fit it at the size asked for, and the object size is the least that is no smaller than that and holds a free node |
| PoolAllocator.Allocator.constructor | code/hologine_platform/hologine/core/memory/pool_allocator.cpp:17-30 | an empty pool whose object size is clamped and whose count is not |
| PoolAllocator.Allocator.GetFirstFreeNode | code/hologine_platform/hologine/core/memory/pool_allocator.cpp:187-205 | finds the first arena in list order with a free node, takes that arena's count down and nothing else |
| PoolAllocator.Allocator.Open | code/hologine_platform/hologine/core/memory/pool_allocator.cpp:214-225 | sets up the owner, the count and one lazy node of a fresh arena |
| PoolAllocator.Allocator.RequestEmptyArena | code/hologine_platform/hologine/core/memory/pool_allocator.cpp:207-234 | takes an arena, prepares it and links it in after the tail, which stays the tail |
| PoolAllocator.Allocator.Allocate | code/hologine_platform/hologine/core/memory/pool_allocator.cpp:48-111 | outcome and whole new state of allocate, for every size, list of arenas and answer of the platform |
| PoolAllocator.Allocator.HandOut | code/hologine_platform/hologine/core/memory/pool_allocator.cpp:76-110 | splitting the lazy node, unlinking it and updating its arena |
| PoolAllocator.Allocator.FirstNodeOfNewArena | code/hologine_platform/hologine/core/memory/pool_allocator.cpp:61-74 | the branch that needs a new arena |
| PoolAllocator.Allocator.Deallocate | code/hologine_platform/hologine/core/memory/pool_allocator.cpp:113-175 | outcome and whole new state of deallocate, not-owned pointers included |
| PoolAllocator.Allocator.ReturnArena | code/hologine_platform/hologine/core/memory/pool_allocator.cpp:134-152 | takes the arena off the pool's list and gives it back |
| PoolAllocator.Allocator.WriteFreeNode | code/hologine_platform/hologine/core/memory/pool_allocator.cpp:154-173 | writes the freed node's three words, and installs it nowhere |
| PoolAllocator.Allocator.Destroy | code/hologine_platform/hologine/core/memory/pool_allocator.cpp:32-46 | gives back every arena in list order and ends, when the links form a list |
| PoolAllocator.SearchFirst | code/hologine_platform/hologine/core/memory/pool_allocator.cpp:187-205 | the arena found is the first on the list with a free node |
| PoolAllocator.PoppedWords | code/hologine_platform/hologine/core/memory/pool_allocator.cpp:81-110 | exactly which words handing out a node writes, whatever the list leads to, and which field of which record |
| PoolAllocator.HandedAsserts | code/hologine_platform/hologine/core/memory/pool_allocator.cpp:76-79 | the assertion on the arena fails if and only if the first free node lies in no carved arena |
| PoolAllocator.RequestAsserts | code/hologine_platform/hologine/core/memory/pool_allocator.cpp:60-74 | without an arena nothing is allocated and nothing changes; the assertion on the node fails on an arena at the null address |
| PoolAllocator.DeallocatedOwned | code/hologine_platform/hologine/core/memory/pool_allocator.cpp:113-175 | for a pointer into one of the pool's arenas: when the arena is returned, and otherwise the three words of the node written and the count |
| PoolAllocator.DeallocatedForeign | code/hologine_platform/hologine/core/memory/pool_allocator.cpp:113-130 | any other pointer changes nothing |
| PoolSlots.ConfiguredFits | code/hologine_platform/hologine/core/memory/pool_allocator.cpp:17-30 | the slots of a pool fit in its arenas if and only if the requested size is at most an arena and was not clamped, or the clamped slots happen to fit, which on arenas of 552 bytes or more they never do |
| PoolSlots.PopBump | code/hologine_platform/hologine/core/memory/pool_allocator.cpp:76-110 | handing out a block, after any number of frees, yields the next slot in order and leaves one lazy node covering exactly the slots not handed out, if and only if it is not the last slot while another one has been freed; then the list leads to the slot before it |
| PoolSlots.PopWritesLive | code/hologine_platform/hologine/core/memory/pool_allocator.cpp:84-110 | exactly which word of which live block a hand-out overwrites, and with what |
| PoolSlots.PopKeepsLiveBlock | code/hologine_platform/hologine/core/memory/pool_allocator.cpp:84-110 | a hand-out leaves a live block's contents alone, whatever they are, if and only if it is neither the first slot, while slots remain or others have been freed, nor the one before the last slot when that is handed out |
| PoolSlots.PartitionedExact | code/hologine_platform/hologine/core/memory/pool_allocator.cpp:48-234 | live blocks and the spans of the free nodes that the links lead to partition an arena's slots, with the count the sum of the spans, if and only if no block of it has been freed since it was opened |
| PoolSlots.CircularExact | code/hologine_platform/hologine/core/memory/pool_allocator.cpp:84-173 | the free nodes form a ring linked both ways if and only if none of the arena's slots has been handed out, or all have |
| PoolTheorems.BumpGuard | code/hologine_platform/hologine/core/memory/pool_allocator.cpp:84-110 | while slots go out in order, handing one out leaves the list leading to a slot that is not live unless it is the last one, another has been freed, and the one before it is live |
| PoolTheorems.LiveBlocksApart | code/hologine_platform/hologine/core/memory/pool_allocator.cpp:48-111 | two different live blocks never share an address, across arenas and pools |
| PoolTheorems.AllocateServes | code/hologine_platform/hologine/core/memory/pool_allocator.cpp:48-111 | allocate returns the slot that the list of the arena serving it leads to, which is not live, and with exactly that block live too the pools keep their promise if and only if its guard holds beforehand |
| PoolTheorems.AllocateRefuses | code/hologine_platform/hologine/core/memory/pool_allocator.cpp:48-74 | a size above the object size is refused, and a request the platform cannot meet yields nothing; no block changes |
| PoolTheorems.FoundByDivision | code/hologine_platform/hologine/core/memory/memory_arena_pool.cpp:98-109 | any address inside a live block leads back to its arena and slot by division alone |
| PoolTheorems.DeallocateExact | code/hologine_platform/hologine/core/memory/pool_allocator.cpp:113-175 | freeing through any address inside a block returns the arena if and only if that was its last live block; otherwise exactly where the node goes astray |
| PoolTheorems.DeallocateInv | code/hologine_platform/hologine/core/memory/pool_allocator.cpp:113-175 | with exactly that block live no more the pools keep their promise, if and only if it was not the arena's last live one or the guard of the return holds; that the freed slot is on no list is in `PoolLists.PartitionExact` |
| PoolTheorems.DestroyInv | code/hologine_platform/hologine/core/memory/pool_allocator.cpp:32-46 | destroying a pool returns all of its arenas and leaves every other block live and apart, if and only if the arena pool has a free arena or the pool at most one |
| PoolTheorems.StepExact | code/hologine_platform/hologine/core/memory/pool_allocator.cpp:32-175 | every allocation, free of a live block, store into one and destruction is answered as promised, and leaves live blocks apart, every held arena accounted for and every other one free if and only if it is allowed |
| PoolTheorems.PoolRunExact | code/hologine_platform/hologine/core/memory/pool_allocator.cpp:32-234 | over any run of these, by any number of pools: every carved arena in one place, live blocks apart, each arena's count that of its slots not live and its list null or leading to one of them, throughout, if and only if every operation is allowed where it is made; and then blocks come from slots that are not live and an arena goes back exactly when its last live block is freed or its pool destroyed |
| PoolTheorems.FreshInv | code/hologine_platform/hologine/core/memory/pool_allocator.cpp:17-30 | pools just constructed meet the invariant |
| PoolLists.HandedAgain | code/hologine_platform/hologine/core/memory/pool_allocator.cpp:84-110 | after the last slot has been handed out while another one was free, the next allocation is given the slot before it, whether or not that is in use |
| PoolLists.StepLazy | code/hologine_platform/hologine/core/memory/pool_allocator.cpp:32-175 | while frees are of last blocks, every arena keeps one lazy node behind the slots it has handed out in order, whatever the other pools do |
| PoolLists.FreedBreaks | code/hologine_platform/hologine/core/memory/pool_allocator.cpp:134-173 | a free that is not of the arena's last live block leaves its slot covered by no free node |
| PoolLists.PartitionExact | code/hologine_platform/hologine/core/memory/pool_allocator.cpp:48-234 | over any run by any number of pools: in every arena live blocks and the spans of the free nodes that the links lead to partition the slots and the count is the sum of the spans, throughout, if and only if every free is of its arena's last live block and the guards of the arenas taken and returned hold |
| PoolLists.RingsExact | code/hologine_platform/hologine/core/memory/pool_allocator.cpp:48-234 | over any such run the lists of free nodes are rings linked both ways throughout, and the promise holds, if and only if every operation is allowed and every block is served by a pool with one block an arena; and then the partition holds too |
| HeapAllocator.BuildPools | code/hologine_platform/hologine/core/memory/heap_allocator.cpp:17-45 | one pool for every power of two of the range, in order |
| HeapAllocator.DestroyPools | code/hologine_platform/hologine/core/memory/heap_allocator.cpp:47-56 | the pools are destroyed one after another but for the one of the largest blocks |
| HeapAllocator.DestroyedExact | code/hologine_platform/hologine/core/memory/heap_allocator.cpp:47-56 | the arenas of the pools destroyed are given back, and the lists and records of the others are untouched, so that those of the last pool never go back |
| HeapAllocator.ClassForExact | code/hologine_platform/hologine/core/memory/heap_allocator.cpp:60-77 | which pool an alignment selects, whatever the size |
| HeapAllocator.RowSize | code/hologine_platform/hologine/core/memory/heap_allocator.cpp:28-44 | every pool of the row from 32 bytes up has the power of two it was asked for, and every smaller one the size of a free node |
| HeapAllocator.RowComplete | code/hologine_platform/hologine/core/memory/heap_allocator.cpp:28-44 | every power of two of the range has a pool with blocks at least that large, and as many of them an arena as it has room for |
| HeapAllocator.PaddingDecides | code/hologine_platform/hologine/core/memory/heap_allocator.cpp:58-98 | wherever a slot starts, the bytes asked for lie in it if and only if padding and size fit it together, and the pointer does if and only if the padding is less than the block |
| HeapAllocator.RoomNeeded | code/hologine_platform/hologine/core/memory/heap_allocator.cpp:60-69 | blocks on 16-byte boundaries always hold a request if and only if they hold its size and the whole padding; the source's decremented figure is one byte short in exactly one case |
| HeapAllocator.SlotOnBoundary | code/hologine_platform/hologine/core/memory/heap_allocator.cpp:28-44 | where arenas start on 16-byte boundaries a slot does if and only if its pool is one of 32 bytes or more or its number is even |
| HeapAllocator.NodePadding | code/hologine_platform/hologine/core/memory/heap_allocator.cpp:58-98 | in the smaller pools the padding goes by eights from slot to slot |
| HeapAllocator.AlignedSlot | code/hologine_platform/hologine/core/memory/heap_allocator.cpp:86-97 | where slots start on multiples of their size, aligning leaves a slot's address alone or moves it to the next slot, exactly when which |
| HeapAllocator.AlignedInside | code/hologine_platform/hologine/core/memory/heap_allocator.cpp:58-98 | there, both conditions come down to the alignment being at most the smallest block or the slot being aligned |
| HeapAllocator.HeapServes | code/hologine_platform/hologine/core/memory/heap_allocator.cpp:58-98 | a heap allocation makes one block of the selected pool live, and keeps the pools' promise if and only if that pool's guard holds |
| HeapAllocator.HeapRefuses | code/hologine_platform/hologine/core/memory/heap_allocator.cpp:58-98 | when and how a heap allocation fails, and that nothing changes then |
| HeapAllocator.NoPoolFor | code/hologine_platform/hologine/core/memory/heap_allocator.cpp:78-83 | an alignment that selects no pool of the row is refused as out of memory, and nothing changes |
| HeapAllocator.HeapAnswers | code/hologine_platform/hologine/core/memory/heap_allocator.cpp:58-98 | for every size and alignment: a block is handed out if and only if the row has the pool, the size fits its blocks and an arena is to be had, and which refusal is given otherwise |
| HeapAllocator.RefusedBySize | code/hologine_platform/hologine/core/memory/heap_allocator.cpp:69-86 | a request is refused for its size if and only if it exceeds the blocks of the one pool its alignment selects, which are never smaller than a free node |
| HeapAllocator.HeapAllocateExact | code/hologine_platform/hologine/core/memory/heap_allocator.cpp:58-98 | for arenas anywhere: the pointer is aligned, the bytes asked for lie in the block made live if and only if padding and size fit it, and the pointer is an address of it if and only if the padding is less than it |
| HeapAllocator.SamePointerTwice | code/hologine_platform/hologine/core/memory/heap_allocator.cpp:58-98 | requests served with neighbouring slots return the same pointer if and only if the padding of the first takes up its whole block |
| HeapAllocator.ServedApart | code/hologine_platform/hologine/core/memory/heap_allocator.cpp:58-98 | the bytes from the pointer on share none with any other live block of any pool if padding and size fit the block served |
| HeapAllocator.BlocksReached | code/hologine_platform/hologine/core/memory/heap_allocator.cpp:58-98 | otherwise they lie in the blocks of the arena from the one the pointer is in to the one their last byte is in, and in no other |
| HeapAllocator.RequestsOverlap | code/hologine_platform/hologine/core/memory/heap_allocator.cpp:58-98 | two requests served from one arena are given bytes in common exactly when padding and size of the first reach into the second's and do not start behind it |
| HeapAllocator.PaddingInNext | code/hologine_platform/hologine/core/memory/heap_allocator.cpp:58-98 | a pointer never lies beyond the slot after its own |
| HeapAllocator.HeapFreesBlock | code/hologine_platform/hologine/core/memory/heap_allocator.cpp:100-106 | freeing any address of a live block frees it in the pool that owns its arena, with that pool's guard |
| HeapAllocator.HeapPassesOn | code/hologine_platform/hologine/core/memory/heap_allocator.cpp:100-106 | which pointers are passed on, and to which pool; those into no arena, or one that no pool of the row owns, change nothing |
| HeapAllocator.PaddedPointerFinds | code/hologine_platform/hologine/core/memory/heap_allocator.cpp:100-106 | a padded pointer leads to its own slot if and only if the padding is less than a block, else to the next one, and to its own arena if and only if that reaches so far, else to a later arena or none |
| HeapAllocator.FreeOfPaddedPointer | code/hologine_platform/hologine/core/memory/heap_allocator.cpp:100-106 | while it is in its arena, freeing it does exactly what freeing its own block does, even from the next slot |
| MemoryRegion.MemoryRegion.constructor | code/hologine_platform/hologine/core/memory/memory_region.cpp:16-37 | an empty region of the given maximum |
| MemoryRegion.MemoryRegion.Grow | code/hologine_platform/hologine/core/memory/memory_region.cpp:74-134 | result and new state of grow, for every answer of the platform |
| MemoryRegion.MemoryRegion.Claim | code/hologine_platform/hologine/core/memory/memory_region.cpp:57-72 | result and new state of claim |
| MemoryRegion.MemoryRegion.Reset | code/hologine_platform/hologine/core/memory/memory_region.cpp:136-160 | new state of reset, with and without release |
| MemoryRegion.GrowKeeps | code/hologine_platform/hologine/core/memory/memory_region.cpp:74-134 | committed pages stay exactly the prefix that holds the size if and only if the sum does not wrap, or wraps to as many pages |
| MemoryRegion.GrowCommitsOnce | code/hologine_platform/hologine/core/memory/memory_region.cpp:104-130 | a failed grow changes no size and no page; a successful one commits no page twice |
| MemoryRegion.GrowSucceeds | code/hologine_platform/hologine/core/memory/memory_region.cpp:74-134 | grow returns memory if and only if the region is or can be reserved, the new size is at most the maximum and the platform commits whenever more pages are needed; and which code each failure has |
| MemoryRegion.ClaimKeeps | code/hologine_platform/hologine/core/memory/memory_region.cpp:57-72 | claim keeps the accounting, commits every page when it succeeds, and says so when there is nothing left |
| MemoryRegion.ClaimSucceeds | code/hologine_platform/hologine/core/memory/memory_region.cpp:57-72 | claiming a region with bytes left succeeds if and only if the platform grants the reservation and the pages it needs; one with none left is left alone |
| MemoryRegion.ResetKeeps | code/hologine_platform/hologine/core/memory/memory_region.cpp:136-160 | reset decommits every page, forgets the reservation only when asked to, and keeps the maximum |
| MemoryRegion.PrefixReserved | code/hologine_platform/hologine/core/memory/memory_region.cpp:162-190 | the committed prefix fits the reserved pages for every region if and only if the larger of page size and granularity is a whole number of pages |
| MemoryRegion.ReservedExact | code/hologine_platform/hologine/core/memory/memory_region.cpp:162-190 | what is reserved is the least multiple of the larger of page size and granularity that holds the maximum |
| MemoryRegion.RunKeeps | code/hologine_platform/hologine/core/memory/memory_region.cpp:57-160 | over any run the accounting holds throughout if and only if every grow is allowed |
| LinearAllocator.Allocator.constructor | code/hologine_platform/hologine/core/memory/linear_allocator.cpp:15-33 | offset 0 over the claimed span, or over none and out_of_memory pushed when claiming fails; the marker uninitialised |
| LinearAllocator.Allocator.Allocate | code/hologine_platform/hologine/core/memory/linear_allocator.cpp:40-62 | result and new offset |
| LinearAllocator.Allocator.PushMarker | code/hologine_platform/hologine/core/memory/linear_allocator.cpp:72-108 | saves the marker word in the memory it allocates, or nothing at offset 0 |
| LinearAllocator.Allocator.PopMarker | code/hologine_platform/hologine/core/memory/linear_allocator.cpp:110-131 | restores offset and marker from the word, or resets |
| LinearAllocator.Allocator.Reset | code/hologine_platform/hologine/core/memory/linear_allocator.cpp:133-138 | offset and marker back to 0 |
| LinearAllocator.AllocateExact | code/hologine_platform/hologine/core/memory/linear_allocator.cpp:40-62 | a block starts at the first aligned address from the offset on and lies in the region; the request fails, as out of memory, if and only if that one does not |
| LinearAllocator.PushedExact | code/hologine_platform/hologine/core/memory/linear_allocator.cpp:72-108 | a push away from offset 0 saves the marker in the one word at the first word boundary, if there is room, and does nothing else |
| LinearAllocator.PoppedExact | code/hologine_platform/hologine/core/memory/linear_allocator.cpp:110-138 | a pop goes to the marker, or to 0 without one, and makes the word saved there the marker |
| LinearAllocator.ConsecutiveBlocks | code/hologine_platform/hologine/core/memory/linear_allocator.cpp:40-62 | for two blocks in a row the condition of LinearBlocks.RunLaid is that the second's padding covers the first |
| LinearAllocator.WithoutMemory | code/hologine_platform/hologine/core/memory/linear_allocator.cpp:15-108 | without memory every allocation fails but a push reports success |
| LinearAllocator.AlwaysAtBase | code/hologine_platform/hologine/core/memory/linear_allocator.cpp:40-131 | with alignments that divide the base the offset never leaves 0 and markers do nothing |
| LinearAllocator.NestedPushesStick | code/hologine_platform/hologine/core/memory/linear_allocator.cpp:72-131 | two pushes with nothing in between can never be undone |
| LinearAllocator.StepRefines | code/hologine_platform/hologine/core/memory/linear_allocator.cpp:40-138 | each operation does what a stack of saved offsets promises if and only if it is allowed; the marker words form a strictly decreasing chain ending at 0 |
| LinearAllocator.RunRefines | code/hologine_platform/hologine/core/memory/linear_allocator.cpp:15-138 | over any run offset and marker words together are those of the stack of saved offsets, the words a strictly decreasing chain ending at 0, if and only if the uninitialised marker was 0 and every step is allowed |
| LinearAllocator.OffsetsAgree | code/hologine_platform/hologine/core/memory/linear_allocator.cpp:15-138 | over any run, with stores anywhere, every pop restores the offset of its matching push if and only if no pop away from offset 0 finds a marker that its history makes wrong; the uninitialised one matters only before the first word pushed or reset |
| LinearBlocks.StepLaid | code/hologine_platform/hologine/core/memory/linear_allocator.cpp:40-138 | each operation leaves all live blocks and marker words aligned, in the region and apart if and only if the new one starts at or behind the end of everything live |
| LinearBlocks.RunLaid | code/hologine_platform/hologine/core/memory/linear_allocator.cpp:15-138 | over any run of allocations, pushes, pops, resets and stores into live blocks, everything live is aligned, in the region and pairwise disjoint throughout if and only if that holds at every allocation and push |
| FixedAllocator.Allocator.constructor | code/hologine_platform/hologine/core/memory/fixed_allocator.cpp:14-68 | seeds exactly the ladder of slots that the unset divisor leads to, or nothing when the region cannot be claimed |
| FixedAllocator.Allocator.Seed | code/hologine_platform/hologine/core/memory/fixed_allocator.cpp:55-66 | the loop hands every node to deallocate and yields the free list of the seeds in order |
| FixedAllocator.Allocator.Allocate | code/hologine_platform/hologine/core/memory/fixed_allocator.cpp:70-91 | pops the free list, or says why not |
| FixedAllocator.Allocator.Deallocate | code/hologine_platform/hologine/core/memory/fixed_allocator.cpp:93-101 | pushes the slot on the free list |
| FixedAllocator.NodeSizeHolds | code/hologine_platform/hologine/core/memory/fixed_allocator.cpp:32-44 | the padded node size is the least multiple of the alignment that holds an object |
| FixedAllocator.SeedsLadder | code/hologine_platform/hologine/core/memory/fixed_allocator.cpp:50-66 | the seeds are evenly spaced, ascending, above the base and end where the loop starts |
| FixedAllocator.SeedsExact | code/hologine_platform/hologine/core/memory/fixed_allocator.cpp:46-66 | the seeds are the promised floor(span / node size) slots if and only if a condition on base, padding and the unset divisor holds |
| FixedAllocator.SeedsInside | code/hologine_platform/hologine/core/memory/fixed_allocator.cpp:46-66 | all seeds are aligned and above the base, and in the region if and only if no more nodes are counted than fit, or one on a region that starts aligned |
| FixedAllocator.StepKeeps | code/hologine_platform/hologine/core/memory/fixed_allocator.cpp:70-101 | every operation does what a last-in first-out pool does, a size above the object size is refused, and the free list stays the acyclic complement of the live slots |
| FixedAllocator.StoredStays | code/hologine_platform/hologine/core/memory/fixed_allocator.cpp:70-101 | allocating writes nothing, and freeing only the first word of the slot freed |
| FixedAllocator.RunKeeps | code/hologine_platform/hologine/core/memory/fixed_allocator.cpp:70-101 | over any run free and live slots partition the seeds, the free list staying acyclic |
| FixedAllocator.RunInside | code/hologine_platform/hologine/core/memory/fixed_allocator.cpp:14-101 | over any run from construction every slot, live or free, is aligned and apart from the others, and all are in the region if and only if the constructor counted no more nodes than fit |
| FixedAllocator.SeedsInv | code/hologine_platform/hologine/core/memory/fixed_allocator.cpp:46-66 | a freshly seeded allocator meets the invariant, with slots a node apart |
| EventQueue.EventQueue.constructor | code/hologine_platform/hologine/core/threading/event_queue.cpp:51-57 | an empty queue over nodes of 16 bytes as the fixed allocator seeds them, or none |
| EventQueue.EventQueue.Push | code/hologine_platform/hologine/core/threading/event_queue.hpp:119-141 | takes a node, fills it, links it behind the tail |
| EventQueue.EventQueue.Begin | code/hologine_platform/hologine/core/threading/event_queue.cpp:67-78 | takes the head and empties the queue |
| EventQueue.EventQueue.Dispose | code/hologine_platform/hologine/core/threading/event_queue.cpp:87-95 | flags the event and pushes it to its owner |
| EventQueue.EventQueue.Increment | code/hologine_platform/hologine/core/threading/event_queue.cpp:29-44 | both halves without interruption: the event goes flagged to its owner, the node is freed; the owner may be the same queue |
| EventQueue.PushKeeps | code/hologine_platform/hologine/core/threading/event_queue.hpp:119-141 | a push succeeds if and only if a node is free, and then the event joins the waiting ones last; the head stays |
| EventQueue.BeginKeeps | code/hologine_platform/hologine/core/threading/event_queue.cpp:67-78 | a begin empties the queue, and hands out the waiting nodes if and only if the head has been set |
| EventQueue.RunDeliversNothing | code/hologine_platform/hologine/core/threading/event_queue.cpp:29-95 | over every interleaving of any number of threads and queues as constructed no event is ever shown or disposed of, waiting events keep their order, and a push succeeds if and only if fewer pushes than nodes have succeeded |
| EventQueue.FreshQueue | code/hologine_platform/hologine/core/threading/event_queue.cpp:51-57 | a queue over an allocator as its constructor seeds it meets the invariant |
| EventDelivery.Partition | code/hologine_platform/hologine/core/threading/event_queue.cpp:29-95 | free, waiting, held and lost nodes partition a queue's nodes, and no two threads hold the same |
| EventDelivery.StepRefines | code/hologine_platform/hologine/core/threading/event_queue.cpp:29-95 | push, begin and each half of increment by any thread do what they promise to events, room and batches, and only a begin loses nodes: exactly those |
| EventDelivery.RunRefines | code/hologine_platform/hologine/core/threading/event_queue.cpp:29-95 | so over every interleaving, from any state with batches in hand |
| EventDelivery.WaitsInOrder | code/hologine_platform/hologine/core/threading/event_queue.hpp:119-141 | what waits on a queue is what it accepted since the last begin, in order |
| EventDelivery.FirstInFirstOut | code/hologine_platform/hologine/core/threading/event_queue.cpp:67-78 | a begin takes all of that, in order, if the head was set, and nothing otherwise |
| EventDelivery.ShownInOrder | code/hologine_platform/hologine/core/threading/event_queue.cpp:29-44 | each event of a batch is shown once, in order, whatever other threads do meanwhile |
| EventDelivery.PrimedOnce | code/hologine_platform/hologine/core/threading/event_queue.hpp:133-138 | no step ever sets a head |
| EventDelivery.DrainLeads | code/hologine_platform/hologine/core/threading/event_queue.cpp:29-44 | a thread's increments over its whole batch lead to what draining it says |
| EventDelivery.DrainDelivers | code/hologine_platform/hologine/core/threading/event_queue.cpp:29-95 | draining a batch gives every other queue exactly its own events, in order, once each, as far as it has room; the queue's own go round again, all but the first of the batch when no node was free |
| EventOwnership.OwnedThroughout | code/hologine_platform/hologine/core/threading/event_queue.cpp:29-95 | over every interleaving every event is in one place at most, waiting on one queue or left in one thread's batch, throughout, if and only if no push that succeeds is of an event that is somewhere then |
| EventOwnership.StepOwned | code/hologine_platform/hologine/core/threading/event_queue.cpp:29-95 | each step keeps that if and only if it is not a push, with room, of an event that is somewhere |
| EventOwnership.StepReturned | code/hologine_platform/hologine/core/threading/event_queue.cpp:29-95 | with pushes as they are meant, the events at their own queue are exactly the ones disposed of |
| EventOwnership.DisposedOnce | code/hologine_platform/hologine/core/threading/event_queue.cpp:34 | from events in one place at most and none at its owner's: as long as pushes are of events nowhere yet and not disposed of, to queues not their own, every event stays in one place at most, and none is disposed of twice if and only if no increment is made on an event whose header names the iterator's own queue |
| QueueLocks.StepOrderly | code/hologine_platform/hologine/core/threading/event_queue.cpp:29-95 | a thread is between operations and holds no mutex, or holds the one it releases next |
| QueueLocks.SectionsProtect | code/hologine_platform/hologine/core/threading/event_queue.cpp:29-95 | every operation takes and releases one mutex for each of its critical sections, in their order, and it is the mutex of the one queue the section changes |
| QueueLocks.NoWaitCycle | code/hologine_platform/hologine/core/threading/event_queue.cpp:29-95 | in every interleaving no thread ever holds two mutexes, and while any thread has work left some thread can move |
| QueueLocks.RunsEnd | code/hologine_platform/hologine/core/threading/event_queue.cpp:29-95 | each thread's work shrinks by one action a turn, so every run ends |
| Utf8.Increment | code/hologine_platform/hologine/core/text/utf8.cpp:78-190 | code, offset and value of a forward step, for all bytes |
| Utf8.Decrement | code/hologine_platform/hologine/core/text/utf8.cpp:193-241 | code, offset and value of a backward step, for all bytes |
| Utf8.SequenceLength | code/hologine_platform/hologine/core/text/utf8.cpp:23-53 | the range of lead bytes for each length, and 0 exactly for trail bytes and bytes from F8 up |
| Utf8.CodePointLength | code/hologine_platform/hologine/core/text/utf8.cpp:55-76 | the least length whose 7, 11 or 16 bits hold the code point, else 4 |
| Utf8.ScanBack | code/hologine_platform/hologine/core/text/utf8.cpp:205-220 | the backward scan stops at the nearest byte that is no trail byte, or at 0 |
| Utf8Theorems.ForwardAccepts | code/hologine_platform/hologine/core/text/utf8.cpp:78-190 | exactly which positions a forward step accepts |
| Utf8Theorems.ForwardMatchesGrammar | code/hologine_platform/hologine/core/text/utf8.cpp:78-190 | acceptance and the grammar of section 4 of RFC 3629 agree at a position if and only if it is not one of the divergent four-byte ones |
| Utf8Theorems.ForwardOffset | code/hologine_platform/hologine/core/text/utf8.cpp:78-190 | a forward step never passes the length, moves by the announced length, and on failure does not move |
| Utf8Theorems.StepCodes | code/hologine_platform/hologine/core/text/utf8.cpp:78-242 | which code every failing step forwards or backwards returns, read off the bytes; an invalid code point gets that of an invalid first byte |
| Utf8Theorems.ForwardAtEnd | code/hologine_platform/hologine/core/text/utf8.cpp:78-190 | at the end of the range a step fails whatever byte lies beyond |
| Utf8Theorems.StepValue | code/hologine_platform/hologine/core/text/utf8.cpp:78-190 | what every forward step leaves in the value parameter, failing ones included |
| Utf8Theorems.BackwardExact | code/hologine_platform/hologine/core/text/utf8.cpp:193-241 | a backward step is a forward step from where its scan stops, and moves there if and only if that succeeds |
| Utf8Theorems.ForwardValue | code/hologine_platform/hologine/core/text/utf8.cpp:133-176 | the code point is the one of section 3 if and only if the sequence has at most three bytes or has lead F0 and equal second and third bytes |
| Utf8Theorems.EncodeIsForm | code/hologine_platform/hologine/core/text/utf8.cpp:23-76 | the encoding of every scalar value is a form of the grammar that reads back |
| Utf8Theorems.RoundTrip | code/hologine_platform/hologine/core/text/utf8.cpp:78-190 | repeated forward steps invert encoding on a sequence of scalar values if and only if each of them survives |
| Utf8Theorems.EncodeInjective | code/hologine_platform/hologine/core/text/utf8.cpp:78-190 | different sequences of scalar values have different encodings |
| Utf8Theorems.BackwardUndoesForward | code/hologine_platform/hologine/core/text/utf8.cpp:193-241 | on any bytes, a backward step undoes a successful forward step and shows the same code point |
| Utf8Theorems.ForwardUndoesBackward | code/hologine_platform/hologine/core/text/utf8.cpp:193-241 | a forward step undoes a backward step if and only if the scan skipped no surplus trail byte |
| Utf8Theorems.SurplusTrailByte | code/hologine_platform/hologine/core/text/utf8.cpp:193-241 | concrete bytes on which it does not |
| Utf8Theorems.ThereAndBack | code/hologine_platform/hologine/core/text/utf8.cpp:78-241 | n steps forward and n back restore the offset and show the same code points reversed |
| Strings.StringHeap.ReferenceBuffer | code/hologine_platform/hologine/core/text/string.cpp:184-187 | one more reference, through a live buffer pointer |
| Strings.StringHeap.DereferenceBuffer | code/hologine_platform/hologine/core/text/string.cpp:189-208 | one reference fewer, and the buffer is freed with the last one |
| Strings.StringHeap.ConstructBuffer | code/hologine_platform/hologine/core/text/string.hpp:278-323 | a new buffer with a copy of the range and one reference, or none |
| Strings.StringHeap.Construct | code/hologine_platform/hologine/core/text/string.cpp:34-40 | a managed string over its own buffer; a failed allocation is followed all the same |
| Strings.StringHeap.ConstructRange | code/hologine_platform/hologine/core/text/string.hpp:260-276 | the same without setting the storage mode |
| Strings.StringHeap.Copy | code/hologine_platform/hologine/core/text/string.cpp:42-64 | shares the buffer and counts it, when the mode is a valid one |
| Strings.StringHeap.Assign | code/hologine_platform/hologine/core/text/string.cpp:149-182 | releases the old buffer, then shares the new one |
| Strings.StringHeap.Destroy | code/hologine_platform/hologine/core/text/string.cpp:66-72 | releases the buffer |
| Strings.StringHeap.Substring | code/hologine_platform/hologine/core/text/string.cpp:84-102 | a copy whose slice is the iterators' offsets |
| Strings.StringHeap.Duplicate | code/hologine_platform/hologine/core/text/string.cpp:104-147 | which string duplicate answers, branch by branch |
| Strings.StringHeap.DuplicateWith | code/hologine_platform/hologine/core/text/string.cpp:126-147 | the overload with an allocator, branch by branch |
| Strings.StepKeeps | code/hologine_platform/hologine/core/text/string.cpp:34-208 | an operation faults if and only if it meets a null buffer pointer, an unset mode or characters that are not there; otherwise every buffer's count is the number of its holders afterwards if and only if no range constructor lost its buffer |
| Strings.HistoryCounted | code/hologine_platform/hologine/core/text/string.cpp:34-208 | over any history of construct, copy, assign, substring, duplicate and destroy the counts are right after every step if and only if no such step occurs |
| Strings.NoStrings | code/hologine_platform/hologine/core/text/string.cpp:16-23 | the law holds where there are no strings |
| Strings.FreedOnce | code/hologine_platform/hologine/core/text/string.cpp:184-208 | a buffer is freed by exactly the operations that, as can be seen beforehand, take its last holder away; it never comes back, and its bytes never change |
| Strings.OthersKept | code/hologine_platform/hologine/core/text/string.cpp:34-208 | no operation changes what any other string shows, except that one which takes a buffer's last holder away takes it from the views that duplicate left |
| Strings.CopyShows | code/hologine_platform/hologine/core/text/string.cpp:42-64 | a copy shows what its original shows |
| Strings.OneTarget | code/hologine_platform/hologine/core/text/string.cpp:25-182 | no operation touches any other string object than the one it makes, changes or destroys |
| Strings.ConstructShows | code/hologine_platform/hologine/core/text/string.cpp:34-40 | a string constructed with memory shows exactly its text, is managed, and is the only holder of a buffer that did not exist before; without memory it follows a null pointer |
| Strings.WrapShows | code/hologine_platform/hologine/core/text/string.cpp:25-32 | a string over outside characters shows exactly them and takes no buffer |
| Strings.RangeShows | code/hologine_platform/hologine/core/text/string.hpp:261-276 | a string constructed from a range shows it if and only if there was memory and its storage mode happens to be the managed one |
| Strings.NothingShared | code/hologine_platform/hologine/core/text/string.cpp:84-153 | self-assignment changes nothing; a substring by another string's iterators and a duplicate of an empty string are empty; a duplicate of an unmanaged string is that string |
| Strings.AssignShows | code/hologine_platform/hologine/core/text/string.cpp:149-182 | an assigned string shows what its source showed if and only if it did not free the buffer that the source looks into |
| Strings.SubstringShows | code/hologine_platform/hologine/core/text/string.cpp:84-102 | a substring shows the bytes between the offsets counted from the start of the buffer |
| Strings.SubstringBackwards | code/hologine_platform/hologine/core/text/string.cpp:84-102 | between iterators in the wrong order the length wraps, and the string shows nothing that is there |
| Strings.SubstringExact | code/hologine_platform/hologine/core/text/string.cpp:84-102 | that is the slice asked for, whatever the bytes, if and only if the string is no substring itself or the slice is empty |
| Strings.ManagedDuplicate | code/hologine_platform/hologine/core/text/string.cpp:104-147 | either duplicate of a managed string is unmanaged, over the data of the same buffer from its start, and touches no buffer |
| Strings.StrlenFirst | code/hologine_platform/hologine/core/text/string.cpp:137 | strlen stops at the first null byte |
| Strings.DuplicateShows | code/hologine_platform/hologine/core/text/string.cpp:104-147 | a duplicate of a managed string shows the same if and only if strlen over its buffer comes to its length and the buffer starts with its bytes; without null bytes, if and only if it is its whole buffer and a zero byte follows |
| Strings.DuplicateWithShows | code/hologine_platform/hologine/core/text/string.cpp:126-147 | a duplicate of an unmanaged string by an allocator shows the same, from a buffer of its own, if and only if its storage happened to say managed |
| Strings.DuplicateDangles | code/hologine_platform/hologine/core/text/string.cpp:126-147 | and stops showing anything when the original goes, if and only if that held the last reference |
| Strings.EqualityExact | code/hologine_platform/hologine/core/text/string.cpp:210-249 | on strings over different data, == is right for all contents if and only if a condition on lengths and offsets holds |
| Strings.SharedEqualityExact | code/hologine_platform/hologine/core/text/string.cpp:210-249 | the same for strings over the same data |
| Strings.EqualCompares | code/hologine_platform/hologine/core/text/string.cpp:210-249 | == compares those many bytes from the start of both data, and reads through a null pointer if and only if a managed string has no buffer and the lengths less the offsets agree |
| Strings.WholeStringsEqual | code/hologine_platform/hologine/core/text/string.cpp:210-249 | on strings that are not substrings, == says whether they show the same |
| StringIterator.Iterator.constructor | code/hologine_platform/hologine/core/text/string_iterator.cpp:30-52 | starts before the offset and reads the first code point unless at the end |
| StringIterator.Iterator.Advance | code/hologine_platform/hologine/core/text/string_iterator.cpp:59-108 | offsets, value and validity after ++, or that it terminates the program |
| StringIterator.Iterator.Retreat | code/hologine_platform/hologine/core/text/string_iterator.cpp:110-154 | offsets, value and validity after --, or that it terminates the program |
| StringIterator.MoveExact | code/hologine_platform/hologine/core/text/string_iterator.cpp:30-154 | what ++ and -- do on any text: after a failed step both offsets stay and the iterator is no longer valid, without characters nothing changes, and only an iterator that is not valid terminates the program |
| StringIterator.StartBrackets | code/hologine_platform/hologine/core/text/string_iterator.cpp:30-52 | begin() brackets its code point on any bytes, end() on text that decodes |
| StringIterator.MovesBracket | code/hologine_platform/hologine/core/text/string_iterator.cpp:59-154 | over any sequence of ++ and -- the iterator stands on a code point boundary and current and next bracket the code point it shows |
| StringIterator.DecrementBrackets | code/hologine_platform/hologine/core/text/string_iterator.cpp:110-154 | -- succeeds if and only if the iterator is not at the start |
| StringIterator.IncrementThenDecrement | code/hologine_platform/hologine/core/text/string_iterator.cpp:59-154 | ++ and then -- restores the iterator |
| StringIterator.DecrementThenIncrement | code/hologine_platform/hologine/core/text/string_iterator.cpp:59-154 | -- and then ++ restores it if and only if it showed a code point, so end() is never reached again |
| StringIterator.LoopExact | code/hologine_platform/hologine/core/text/string_iterator.cpp:156-160 | a loop from begin() to end() aborts on malformed text and otherwise shows all code points but the last, so all of them if and only if there are none |
| StringIterator.SubstringDecodes | code/hologine_platform/hologine/core/text/string.cpp:84-102 | cutting text at two iterators gives text that decodes to exactly that slice of the code points |
| StringSlices.SlicedText | code/hologine_platform/hologine/core/text/string.cpp:84-102 | the string that substring makes is cut from everything its string's pointer leads to, whatever part of that the string showed |
| StringSlices.SlicedDecodes | code/hologine_platform/hologine/core/text/string.cpp:84-102 | of a string that is no substring itself, it decodes to exactly the code points between the two iterators |
| StringSlices.SliceOfSliceExact | code/hologine_platform/hologine/core/text/string.cpp:84-102 | whatever the bytes, it decodes to the code points between them if and only if the string's offset is 0 or the two iterators are at the same place |
| StringBuilder.Builder.constructor | code/hologine_platform/hologine/core/text/string_builder.cpp:18-27 | no chunks, and a length that is never set |
| StringBuilder.Builder.RequestBuffer | code/hologine_platform/hologine/core/text/string_builder.cpp:120-144 | one more chunk at the tail of the linked list |
| StringBuilder.Builder.Append | code/hologine_platform/hologine/core/text/string_builder.cpp:92-113 | the list of chunks grows by exactly the bytes the string shows, or not at all |
| StringBuilder.Builder.ToString | code/hologine_platform/hologine/core/text/string_builder.cpp:46-90 | what comes back for every value of the length field: nothing, an overrun, or a buffer that starts with the chunks in order |
| StringBuilder.ToStringShows | code/hologine_platform/hologine/core/text/string_builder.cpp:46-90 | the string shows nothing, so it is the concatenation if and only if that is empty |
| StringBuilder.ToStringCopies | code/hologine_platform/hologine/core/text/string_builder.cpp:64-87 | its buffer starts with the appended texts in order, or overruns if and only if the length field is too small |
| Handle.EncodeCuts | code/hologine_platform/hologine/core/handle.hpp:173-188 | whatever the fields are, only the low bits that the advertised ranges have are encoded |
| Handle.IndexRecovered | code/hologine_platform/hologine/core/handle.hpp:173-211 | for all widths and advertised fields the index comes back if and only if it has the bit it shares with the field above |
| Handle.ScopeRecovered | code/hologine_platform/hologine/core/handle.hpp:173-205 | the same for the scope and both its neighbours |
| Handle.AgeRecovered | code/hologine_platform/hologine/core/handle.hpp:173-199 | the same for the age |
| Handle.TypeRecovered | code/hologine_platform/hologine/core/handle.hpp:173-193 | the type is recognised if and only if it has the bit that spills into it |
| Handle.AllRecovered | code/hologine_platform/hologine/core/handle.hpp:173-211 | everything comes back if and only if every field agrees with what stands right above it on the bit they share, empty fields included |
| Handle.InRangeRecovered | code/hologine_platform/hologine/core/handle.hpp:173-211 | with fields inside their widths the type always comes back, and each field if and only if the bit above it is clear |
| Handle.ExactMasks | code/hologine_platform/hologine/core/math/bits.hpp:25-37 | masks of the documented width would recover every in-range field |
| Handle.EncodeInjective | code/hologine_platform/hologine/core/handle.hpp:173-185 | encode is injective on in-range fields |
| Handle.AgeCycle | code/hologine_platform/hologine/core/handle.hpp:213-217 | from the first increment on ages run through one cycle of length max_age in 1..max_age, and agree if and only if they are a multiple of it apart |
| Handle.Reassembled | code/hologine_platform/hologine/core/handle.hpp:173-211 | for all widths, decoding and encoding a handle gives it back if and only if no bit is set between the one above its age and its type |
| MemoryStream.MemoryStream.constructor | code/hologine_platform/hologine/core/io/memory_stream.cpp:15-29 | a cursor at 0 over the block |
| MemoryStream.MemoryStream.Read | code/hologine_platform/hologine/core/io/memory_stream.cpp:31-47 | copies as many bytes as there are, advances by as many, leaves the rest of the buffer alone |
| MemoryStream.MemoryStream.Write | code/hologine_platform/hologine/core/io/memory_stream.cpp:49-65 | overwrites as many bytes as there is room for and no others |
| MemoryStream.MemoryStream.SeekTo | code/hologine_platform/hologine/core/io/memory_stream.cpp:67-116 | the new position for every flag, the unset variable included |
| MemoryStream.ReadExact | code/hologine_platform/hologine/core/io/memory_stream.cpp:31-47 | a read yields the bytes from the cursor on, as many as asked for or left, and none from a stream that is not readable |
| MemoryStream.WriteExact | code/hologine_platform/hologine/core/io/memory_stream.cpp:49-65 | a write stores the first bytes of the data, as many as there is room for, and none on a stream that is not writable; no other byte changes |
| MemoryStream.WriteThenRead | code/hologine_platform/hologine/core/io/memory_stream.cpp:31-65 | what was written is read back from the same place, and all of it fits if and only if there is room |
| MemoryStream.SeekExact | code/hologine_platform/hologine/core/io/memory_stream.cpp:67-116 | a seek never leaves the stream, and lands where documented if and only if it does not wrap and, from the end, the unset variable suits |
| ByteOrder.BytesInOrder | code/hologine_platform/hologine/core/math/bits.hpp:130-134 | little order puts the lowest byte first and big order last |
| ByteOrder.Swap16Reverses | code/hologine_platform/hologine/core/math/bits.hpp:130-134 | byte k of the swapped value is byte 1 - k |
| ByteOrder.Swap32Reverses | code/hologine_platform/hologine/core/math/bits.hpp:136-143 | byte k of the swapped value is byte 3 - k |
| ByteOrder.Swap64Reverses | code/hologine_platform/hologine/core/math/bits.hpp:145-156 | byte k of the swapped value is byte 7 - k |
| ByteOrder.StoredDeclared | code/hologine_platform/hologine/core/io/binary_writer.cpp:17-105 | whatever the host, what is handed to the stream are the value's bytes in the declared order |
| ByteOrder.LoadedDeclared | code/hologine_platform/hologine/core/io/binary_reader.cpp:17-139 | whatever the host, what is read is the bytes' value in the declared order |
| ByteOrder.StoreThenLoad | code/hologine_platform/hologine/core/io/binary_reader.cpp:17-139 | on any two hosts a value comes back if and only if the declared orders agree or its bytes read the same both ways |
| BinaryIo.BinaryWriter.constructor | code/hologine_platform/hologine/core/io/binary_writer.cpp:17-27 | swaps if and only if the declared order is not the host's |
| BinaryIo.BinaryWriter.WriteByte | code/hologine_platform/hologine/core/io/binary_writer.cpp:29-33 | answer, stream bytes and position after writing one value of this type, partial writes included |
| BinaryIo.BinaryWriter.WriteUByte | code/hologine_platform/hologine/core/io/binary_writer.cpp:35-39 | answer, stream bytes and position after writing one value of this type, partial writes included |
| BinaryIo.BinaryWriter.WriteShort | code/hologine_platform/hologine/core/io/binary_writer.cpp:41-50 | answer, stream bytes and position after writing one value of this type, partial writes included |
| BinaryIo.BinaryWriter.WriteUShort | code/hologine_platform/hologine/core/io/binary_writer.cpp:52-61 | answer, stream bytes and position after writing one value of this type, partial writes included |
| BinaryIo.BinaryWriter.WriteInt | code/hologine_platform/hologine/core/io/binary_writer.cpp:63-72 | answer, stream bytes and position after writing one value of this type, partial writes included |
| BinaryIo.BinaryWriter.WriteUInt | code/hologine_platform/hologine/core/io/binary_writer.cpp:74-83 | answer, stream bytes and position after writing one value of this type, partial writes included |
| BinaryIo.BinaryWriter.WriteLong | code/hologine_platform/hologine/core/io/binary_writer.cpp:85-94 | answer, stream bytes and position after writing one value of this type, partial writes included |
| BinaryIo.BinaryWriter.WriteULong | code/hologine_platform/hologine/core/io/binary_writer.cpp:96-105 | answer, stream bytes and position after writing one value of this type, partial writes included |
| BinaryIo.BinaryWriter.WriteHandle | code/hologine_platform/hologine/core/io/binary_writer.hpp:130-142 | writes type, age, scope and index as a list of four values does, stopping at the first failure |
| BinaryIo.BinaryReader.constructor | code/hologine_platform/hologine/core/io/binary_reader.cpp:17-27 | swaps if and only if the declared order is not the host's |
| BinaryIo.BinaryReader.ReadByte | code/hologine_platform/hologine/core/io/binary_reader.cpp:29-35 | answer, value and position after reading one value of this type |
| BinaryIo.BinaryReader.ReadUByte | code/hologine_platform/hologine/core/io/binary_reader.cpp:37-43 | answer, value and position after reading one value of this type |
| BinaryIo.BinaryReader.ReadShort | code/hologine_platform/hologine/core/io/binary_reader.cpp:45-59 | answer, value and position after reading one value of this type |
| BinaryIo.BinaryReader.ReadUShort | code/hologine_platform/hologine/core/io/binary_reader.cpp:61-75 | answer, value and position after reading one value of this type |
| BinaryIo.BinaryReader.ReadInt | code/hologine_platform/hologine/core/io/binary_reader.cpp:77-91 | answer, value and position after reading one value of this type |
| BinaryIo.BinaryReader.ReadUInt | code/hologine_platform/hologine/core/io/binary_reader.cpp:93-107 | answer, value and position after reading one value of this type |
| BinaryIo.BinaryReader.ReadLong | code/hologine_platform/hologine/core/io/binary_reader.cpp:109-123 | answer, value and position after reading one value of this type |
| BinaryIo.BinaryReader.ReadULong | code/hologine_platform/hologine/core/io/binary_reader.cpp:125-139 | answer, value and position after reading one value of this type |
| BinaryIo.BinaryReader.ReadHandle | code/hologine_platform/hologine/core/io/binary_reader.hpp:136-154 | reads four values, checks the type, encodes the rest |
| BinaryIo.TypeRanges | code/hologine_platform/hologine/core/io/binary_writer.cpp:29-105 | the ranges of the eight types |
| BinaryIo.OneValue | code/hologine_platform/hologine/core/io/binary_reader.cpp:29-135 | a value is written, and read, whole if and only if the stream allows it and has the bytes; otherwise the cursor moves over what there is |
| BinaryIo.HandleRead | code/hologine_platform/hologine/core/io/binary_reader.hpp:136-154 | a handle is read if and only if 16 bytes can be and the first four say its type, and is encoded from age, scope and index in this order |
| BinaryIo.HandleLists | code/hologine_platform/hologine/core/io/binary_writer.hpp:129-143 | a handle is written as its type, age, scope and index, in this order, in 16 bytes |
| BinaryIo.WritesAllExact | code/hologine_platform/hologine/core/io/binary_writer.cpp:29-105 | a list written value by value leaves the stream as one write of its bytes in the declared order, fitting or not, and succeeds if and only if the total size fits |
| BinaryIo.RoundTrip | code/hologine_platform/hologine/core/io/binary_reader.cpp:29-139 | on any two hosts: all writes succeed, the bytes are in the declared order, the position is the sum of the sizes, and after seeking to 0 the same list is read back if and only if the orders agree or every value is mirrored |
| BinaryIo.HandleRoundTrip | code/hologine_platform/hologine/core/io/binary_reader.hpp:136-154 | a handle takes 16 bytes and comes back unchanged if and only if it has no stray bit below its type |
| Counterexamples.InsertAfterLast | code/hologine_platform/hologine/core/container/intrusive_list.hpp:223-251 | after inserting behind the last of two records the first one skips it |
| Counterexamples.ThreeArenas | code/hologine_platform/hologine/core/memory/pool_allocator.cpp:134-152 | three arenas taken and the first returned: the pool's list leads to itself and an arena is lost |
| Counterexamples.SmallObjects | code/hologine_platform/hologine/core/memory/pool_allocator.cpp:26-27 | 16-byte objects do not fit a 4096-byte arena |
| Counterexamples.FirstBlockOverwritten | code/hologine_platform/hologine/core/memory/pool_allocator.cpp:84-94 | a hand-out overwrites the first word of a live block |
| Counterexamples.FreedToNowhere | code/hologine_platform/hologine/core/memory/pool_allocator.cpp:127-173 | a freed block's node is written at address 0 and no list leads to it |
| Counterexamples.LastSlotTwice | code/hologine_platform/hologine/core/memory/pool_allocator.cpp:84-110 | after a free, the last slot is handed out and then a slot in use |
| Counterexamples.LargeRequest | code/hologine_platform/hologine/core/memory/heap_allocator.cpp:69-86 | 100 bytes go to the pool of 32-byte blocks, which refuses them |
| Counterexamples.PointerInNextBlock | code/hologine_platform/hologine/core/memory/heap_allocator.cpp:58-98 | a byte aligned to 64 is placed in the block after its own |
| Counterexamples.LastPoolKept | code/hologine_platform/hologine/core/memory/heap_allocator.cpp:47-56 | the arena of the larger of two pools never goes back |
| Counterexamples.RegionShrinks | code/hologine_platform/hologine/core/memory/memory_region.cpp:90-100 | growing by almost 2^64 succeeds and makes the region smaller |
| Counterexamples.SameBlock | code/hologine_platform/hologine/core/memory/linear_allocator.cpp:40-62 | two allocations in a row return the same block |
| Counterexamples.UnsetMarker | code/hologine_platform/hologine/core/memory/linear_allocator.cpp:15-18 | a pop goes where the marker that was never set says |
| Counterexamples.NestedMarkers | code/hologine_platform/hologine/core/memory/linear_allocator.cpp:72-131 | after two pushes in a row no number of pops leaves the offset |
| Counterexamples.BaseSlotSkipped | code/hologine_platform/hologine/core/memory/fixed_allocator.cpp:50-66 | three of four slots are seeded |
| Counterexamples.SeedsBeyond | code/hologine_platform/hologine/core/memory/fixed_allocator.cpp:50-66 | a node far beyond the region is put on the free list |
| Counterexamples.PushedNotShown | code/hologine_platform/hologine/core/threading/event_queue.hpp:133-138 | an event is accepted and the next begin has nothing to show |
| Counterexamples.GoesRoundForEver | code/hologine_platform/hologine/core/threading/event_queue.cpp:34 | a disposed event that has come back is disposed of again and waits as before |
| Counterexamples.ScopeLeaksIntoIndex | code/hologine_platform/hologine/core/math/bits.hpp:29 | index 0 with scope 1 decodes to another index |
| Counterexamples.SeekEnd | code/hologine_platform/hologine/core/io/memory_stream.cpp:91-101 | seeking to the end lands where the unset variable says |
| Counterexamples.GrinningFace | code/hologine_platform/hologine/core/text/utf8.cpp:150-165 | U+1F600 is read as U+1F7C0 |
| Counterexamples.WrongPlanes | code/hologine_platform/hologine/core/text/utf8.cpp:150-176 | U+40000 is refused and a sequence beyond U+10FFFF accepted |
| Counterexamples.LoopOverA | code/hologine_platform/hologine/core/text/string_iterator.cpp:156-160 | a loop over one letter shows nothing |
| Counterexamples.LostBuffer | code/hologine_platform/hologine/core/text/string.hpp:260-276 | a buffer that counts one holder and has none |
| Counterexamples.SubstringOfSubstring | code/hologine_platform/hologine/core/text/string.cpp:97 | a substring's own substring shows other characters |
| Counterexamples.DuplicateGone | code/hologine_platform/hologine/core/text/string.cpp:126-137 | a duplicate shows nothing once its original is destroyed |
| Counterexamples.WrongEquality | code/hologine_platform/hologine/core/text/string.cpp:210-249 | two different slices of one text are called equal |
| Counterexamples.BuilderOfA | code/hologine_platform/hologine/core/text/string_builder.cpp:46-90 | a builder given one letter hands out a string that shows nothing |

## Left out

- Windows bindings, condition variables, thread creation, thread-local storage and time: foreign calls and thin wrappers.
- Exceptions: pushing one is an error code in the result; the bounded stack of pushed exceptions is not modelled.
- Vectors, matrices and quaternions: floating-point identities would not be about this code.
- `format.hpp`: builds `printf` formats and delegates to `snprintf`.
- Proxies and `buffer`: they pass calls through.
- Object construction and destruction in `allocator.hpp`: raw object lifetime; `construct` is an allocation that may fail.
- Moves of `memory_region`, string iterators without a string, and the getters: nothing beyond copying fields.
- The hint parser and the build scripts: configuration.
- Addresses are unbounded naturals except where wrapping round at 2^64 is part of the code (sizes of a region, UTF-8
  offsets, string lengths, stream positions, counts of free nodes).
- Memory is a map from addresses to 8-byte words: words at addresses less than 8 apart do not overlap in the model.
- `align_pointer` clears low bits arithmetically; the mask expression itself is modelled for powers of two only.
- HeapAllocator.RowSize: sizes are powers of two without bound, where `1 << current_size` is a 32-bit shift, and alignments
  are powers of two. The heap is modelled on values; only its loops are methods.
- PoolTheorems.PoolRunExact: frees are of live blocks, through any address inside; the source says nothing of others. The
  runs go on past a free that is not of an arena's last block, which stores its node at an address below the object size;
  on the real platform that is a store into the null page. A pool that has been destroyed can be used again, as one just
  constructed.
- PoolTheorems.AllocateServes: that the free list covers every slot not live is not part of the promise it is stated for,
  since the code does not keep it; `PoolLists.PartitionExact` says when it does. The same goes for `DeallocateInv`,
  `StepExact` and `PoolRunExact`.
- MemoryArenaPool.Pool.constructor: without record pages no arena can be carved; in the source a later request whose own
  pages are committed writes through the null record pointer. The product of size and count does not wrap.
- PoolAllocator.Allocator.Destroy: stated for arenas whose links form a list; on the looping lists of
  `Counterexamples.ThreeArenas` the source's loop does not end.
- LinearAllocator.Allocator.Allocate: the sum of offset and size does not wrap.
- FixedAllocator.Allocator.constructor: the padding in front is at most the region and the unset divisor is not 0; the
  source's own comment gives up the first case, where the span wraps, and the second divides by zero.
- EventQueue.EventQueue.Increment: as a method it runs both critical sections; other threads coming in between are in
  `EventDelivery.StepRefines`, where the read of the next node and the flag belong to the first section. An event whose
  header names no queue cannot be disposed of.
- Handle.IndexRecovered: widths up to 29 bits each, because the source computes its masks with a 32-bit shift; `increment_age`
  divides by zero for a width of 0 and is stated for larger ones.
- MemoryStream.MemoryStream.Read: the caller's buffer starts where the stream's block starts or shares no byte with it.
- BinaryIo.BinaryReader.ReadInt: nothing is said about the value after a failed read, as in the header; the same goes for the
  other types.
- StringBuilder.Builder.Append: the string is given by the bytes it shows; appending a managed string without a buffer reads
  through a null pointer and is not modelled, nor is the string's destruction through the allocator that `to_string` never
  sets, nor the builder's destructor.
