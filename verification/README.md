# Verified model of the wlmalloc allocator, its collector and its helpers

The repository holds a thread-caching memory allocator (`src/wlmalloc.c`), a
conservative mark-sweep garbage collector (`src/wlgc.c`), the intrusive list they are
built on (`src/list.h`), the generator of the allocator's size classes
(`src/sizeclass.c`) and a directory lister (`src/ls.c`). This project models them in
Dafny and proves what they keep, what they compute, and exactly when they do not do
what they are meant to do.

The model follows the code. Where the code departs from its own intention, the model
keeps the departure and a lemma gives the exact condition.

- **List** (`Rings.dfy`, `ListHead.dfy`). `Rings` says what the writes of `src/list.h` do to
  rings of nodes, on a memory that maps each node to its two links. `ListHead` has nodes with
  `prev` and `next` that are rewritten in place, described by a ghost sequence; its proofs
  rest on `Rings`, and so do those about the lists of the allocator.
- **Collector** (`Memory.dfy`, `GcSpec.dfy`, `GcRuns.dfy`, `GcBytes.dfy`, `Bits.dfy`,
  `Gc.dfy`, `HashFunc.dfy`, `Wlgc.dfy`). `Gc.Collector` is the table of chained records with its
  mark bits, links and bucket array. `GcSpec` is the same collector as an abstract
  machine on a finite map of blocks, whose meaning of "must be kept" is a path of
  8-byte windows at any byte offset, from the stack through tracked blocks. The class
  refines the machine; the machine's runs carry the safety, conservation and load
  theorems, and `GcBytes` says which blocks stay in terms of the bytes in memory.
- **Span allocator** (`SpanSpec.dfy`, `SpanSlots.dfy`, `SpanInv.dfy`, `SpanSteps.dfy`,
  `SpanRuns.dfy`, `SpanReuse.dfy`, `SpanPool.dfy`, `SpanLinks.dfy`, `SpanLinkRuns.dfy`,
  `SpanDefects.dfy`, `SpanMended.dfy`, `SpanMeant.dfy`, `SpanAlloc.dfy`, `SizeTables.dfy`).
  `SpanAlloc.Allocator` holds the span headers, the thread caches and the pool and
  updates them in place; each method does what its step in `SpanSpec` says. Lists are
  sequences of spans, together with the links that the nodes of lost spans still hold.
  `SpanLinks` and `SpanLinkRuns` have the same calls as pointer writes, and show that these
  leave the rings of those lists. A run interleaves whole calls of any number of threads; a
  call may end in a fault, which is an access through a link or a lock that is not there, or
  a call after which the head of a list is on no ring any more. Two properties are kept
  apart. Block safety (`SpanInv.Safe`) says that outstanding blocks are good and headers and
  lists agree; it allows for lost spans. The invariant (`SpanInv.Inv`) says moreover that
  every carved span is in exactly one list. For each of them there is an exact guard on every
  call and an equivalence over runs. `SpanReuse` and `SpanPool` say which block and which span
  an allocation takes, and of what memory the pool consists.
- **Triple redundancy** (`TriMod.dfy`). Three copies in a byte array, read with repair.
- **Lister** (`EntryOrder.dfy`, `ShellSort.dfy`, `ShowFiles.dfy`, `HumanReadable.dfy`)
  and **size classes** (`SizeClass.dfy`).

## Where the code and its intention differ

- `src/wlmalloc.c:106`: the `break` leaves the walk over the suspended spans, not the
  block around it. A suspended span with a free block is unlinked and never used. The
  invariant is lost, block safety is not.
- `src/wlmalloc.c:145-150`: the first suspended span of the pool is taken without
  looking at its free count. A full one hands out memory behind its end, and block
  safety is lost.
- These are the only two ways in which an allocation goes wrong:
  `SpanSteps.MallocKeepsExactly` and `SpanSteps.MallocIsSafeExactly` say so for every
  state. `SpanMeant` is the allocator without them; all its allocations keep the invariant.
- `src/wlmalloc.c:46-63`: a free does not initialise the cache of its thread, as an
  allocation does (line 31). If the first call of a thread is a free that turns a span of
  another thread FREE, the span is linked into a list that is all zero
  (`src/wlmalloc.c:225`, `src/list.h:29`). `SpanSteps.FreeKeepsExactly` says that this is
  the only way in which freeing an outstanding block goes wrong while no span is lost.
- A span that has been lost is still freed into. When its last block comes back,
  `src/wlmalloc.c:196-197`, `210-211` or `224-225` deletes a node that is in no list, which
  links the two neighbours that it remembers to each other, and then puts it into the free
  list. If neither neighbour is on a ring by now, or both are on one, in order, every list
  stays a ring, and what lay between them is lost in its turn. If the neighbour before is the
  last node of the free list and the one behind is on no ring, the first statement breaks the
  free list and the second one mends it. In every other case some list is no ring in the end
  (`SpanLinks.MoveExactly`). So a lost span may be found again (`SpanDefects.LostSpanIsFound`,
  `SpanMended.TornListIsMended`). If its owner has exited, line 221 takes a lock that is gone
  (`SpanDefects.LostSpanOutlivesOwner`).
- `SpanDefects` shows a short run for each of the three branches.
- `src/wlmalloc.c:297-300` and `209`: a span that is in use when its thread exits goes to
  the pool's suspend list as it is, so it does not reach the pool's free list when its
  last block is freed (`SpanSteps.PoolSpanIsFreedExactly`).
- `src/wlgc.h:18`: rounding a size up to 8 wraps around within 7 bytes of 2^64
  (`GcRuns.RoundUpFits`).
- `src/wlmalloc.c:352` and `src/wlmalloc.c:391`: three times the size wraps around alike
  in the allocation and in the check of a write, so that the check lets it pass
  (`TriMod.TriBlockFitsExactly`).
- `src/ls.c:396-405`: the difference of two keys is truncated to 32 bits
  (`EntryOrder.SortCmpIsOrderExactly`, `EntryOrder.SizesGoRound`). Where the low 32 bits are
  2^31, neither entry comes before the other in the forward order, and each may in the reverse
  one (`EntryOrder.TotalExactly`).
- `src/ls.c:999`: rounding in a given unit can wrap around
  (`HumanReadable.RoundedExactly`).
- `doc/doc.md` describes another design of the allocator (spans of 64 KB, a slow
  start); the code is what is modelled.

## Model

| member | source | states |
|---|---|---|
| HashFunc.HashIsBijection | src/wlgc.h:65-74 | the mixer is a bijection on 64-bit words, with an explicit inverse that undoes the four odd multipliers and the three xor-shifts |
| HashFunc.HashIsInjective | src/wlgc.h:65-74 | two words with the same mixed value are equal |
| HashFunc.Multiplier1 | src/wlgc.h:66 | the first statement multiplies by 2^21 - 1 and subtracts 1 |
| HashFunc.HashValues | src/wlgc.h:65-74 | the mixed words of 0, 1 and 4096 |
| Wlgc.MixSeparatesAddresses | src/wlgc.h:65-74 | different addresses are mixed to different words, so buckets collide only by the reduction modulo the capacity |
| Wlgc.MixOfAddress | src/wlgc.c:28 | the table is indexed by the mixed word of the address |
| Wlgc.Init | src/wlgc.c:12-21 | a new collector with this mixer is valid and in the initial state of the machine |
| ListHead.Node.constructor | src/list.h:13-23 | a node starts as an empty list |
| ListHead.Init | src/list.h:20-23 | the head becomes an empty list, whatever it was |
| ListHead.LinkBetween | src/list.h:26-31 | an entry put between two neighbours of a ring joins the ring there, and only the entry and the two facing links are written |
| ListHead.Add | src/list.h:33-35 | cons |
| ListHead.AddTail | src/list.h:37-39 | snoc |
| ListHead.Unlink | src/list.h:42-45 | linking two nodes of a ring to each other drops exactly what lay between them |
| ListHead.Del | src/list.h:48-51 | removal of the element at its index; the removed node keeps its old links |
| ListHead.DelStale | src/list.h:48-51 | deleting a node that is not in a list, whatever two nodes it remembers: the list stays if neither is in it, loses what lies between them if both are, in order, and is no list any more in every other case |
| ListHead.EmptyIsNoElement | src/list.h:54-56 | list_empty holds if and only if the list has no element |
| ListHead.LinksAreInverse | src/list.h:13-15 | at each node of a list, next and prev undo each other |
| ListHead.ElementsAreDetermined | src/list.h:69-79 | walking from a head yields one sequence of elements only |
| ListHead.SpliceBetween | src/list.h:81-93 | all elements of a list are put, in order, between two neighbours of another ring |
| ListHead.Splice | src/list.h:100-105 | concatenation in front; an empty list changes nothing |
| ListHead.SpliceTail | src/list.h:112-117 | concatenation behind; an empty list changes nothing |
| Rings.CutRing | src/list.h:42-45 | on values: linking two nodes of a ring, in order, leaves a ring without what lay between them |
| Rings.StillARing | src/list.h:42-45 | and if one of the two was on the ring, only then is the head on a ring afterwards |
| Rings.InsertRing | src/list.h:26-31 | __list_add puts a node that is not on the ring behind any of its nodes |
| Rings.SpliceRing | src/list.h:81-93 | __list_splice puts all nodes of a ring but its head behind any node of another |
| Rings.TailUndone | src/list.h:37-39 | where the head is on a ring after list_add_tail, it was before, if its last node and it faced each other, and so was every other head |
| Rings.NotMended | src/list.h:37-51 | a list_del that takes the link behind the last node of a list to a node of some ring breaks that ring, also if list_add_tail to the list follows |
| Bits.CapacityMask | src/wlgc.c:113 | for a capacity 4096 * 2^k, masking with capacity - 1 is the remainder modulo the capacity |
| Gc.MaskedIndex | src/wlgc.c:113 | the masked 32-bit index of the resize is the bucket that search computes for the new capacity |
| Gc.Collector.constructor | src/wlgc.c:12-21 | the new table represents the empty map with capacity 4096 and limit 2048 |
| Gc.Collector.Search | src/wlgc.c:25-38 | lookup: the record of a tracked address, null for any other |
| Gc.Collector.Detach | src/wlgc.c:78-94 | whichever record of a chain is taken out, the other records of the table stay linked in order |
| Gc.Collector.FreeAlloc | src/wlgc.c:74-102 | removal: the map loses one address, which is released once; one record less, one freed block more |
| Gc.Collector.Register | src/wlgc.c:156-169 | insertion with the given size; a null address changes nothing; the new record is unmarked |
| Gc.Collector.MarkAlloc | src/wlgc.c:41-57 | the record is marked, the new marks are closed under references through every window of the blocks, nothing unreachable is marked, sizes under the mark bit stay; the recursion ends because unmarked records get fewer |
| Gc.Collector.Mark | src/wlgc.c:59-72 | from clear tags, the records that end up marked are exactly those of the blocks reachable from the stack words |
| Gc.Collector.SweepRecord | src/wlgc.c:131-141 | a marked record loses its mark and stays, an unmarked one is freed, and the walk goes on with the record behind it |
| Gc.Collector.SweepAll | src/wlgc.c:127-142 | exactly the marked records are left, with clear tags, and each other block was released once |
| Gc.Collector.Sweep | src/wlgc.c:125-148 | an empty table is left alone; otherwise the swept table is doubled if it is over either limit |
| Gc.Collector.MoveRecord | src/wlgc.c:111-117 | a record leaves the old chain for the front of its new one, its old successor being kept |
| Gc.Collector.HashResize | src/wlgc.c:105-123 | identity on the map: the same records under the same addresses in twice the buckets, the limit at half of the new capacity |
| Gc.Collector.Collect | src/wlgc.c:150-154 | one collection of the machine: survivors are exactly the reachable blocks |
| Gc.Collector.Check | src/wlgc.c:173-175 | after the check of an allocation the number of blocks is within the limit |
| Gc.Collector.Malloc | src/wlgc.c:171-180 | one allocation of the machine for the address that the system returns; size 0 gives null and changes nothing |
| Gc.Collector.Calloc | src/wlgc.c:182-191 | the same for an array of blocks; a product that overflows is not registered |
| Gc.Collector.Free | src/wlgc.c:204-213 | a tracked address is released and forgotten, any other leaves the collector as it was |
| Gc.AllRootsScanned | src/wlgc.c:41-72 | marks that are closed under references and hold the roots are the reachable records, and no others |
| Gc.SurvivorsLeft | src/wlgc.c:125-142 | the table that the sweep leaves is the map of the reachable blocks |
| GcSpec.ClosedHoldsReachable | src/wlgc.c:41-72 | a set that holds the roots and is closed under references holds everything reachable, through cycles and sharing |
| GcSpec.SurvivorsStayReachable | src/wlgc.c:125-142 | dropping the unreachable blocks neither loses nor creates a path to any block |
| Memory.WordIsBytes | src/wlgc.c:51 | what is read at an address is w if and only if the eight bytes there are those of w, the lowest one first |
| GcBytes.CollectKeepsExactly | src/wlgc.c:41-154 | a collection keeps a block, with its size, if and only if a chain of references leads to it, each of them the eight bytes of an address at any offset, from the stack up to and including its recorded bottom or in a block up to its last eight bytes; any other block it releases once |
| GcBytes.WhatIsStoredIsKept | src/wlgc.c:41-72 | a block stays tracked if eight bytes of the stack, or of a block that stays, are those of its address |
| GcRuns.CollectIsSound | src/wlgc.c:125-154 | a collection keeps the invariant, keeps exactly the survivors and ends within the limit, with one doubling at most |
| GcRuns.CheckIsSound | src/wlgc.c:143-147 | after the check at the head of an allocation size <= sweep_limit |
| GcRuns.NextIsSound | src/wlgc.c:150-213 | every operation keeps size <= capacity/2 + 1, sweep_limit = capacity/2, capacity = 4096 * 2^k, sizes in whole words and disjoint blocks |
| GcRuns.RunIsSound | src/wlgc.c:150-213 | the same between any two operations of every run |
| GcRuns.ReachableIsKept | src/wlgc.c:125-191 | an operation never frees a block that is reachable when it collects, unless it frees that address itself |
| GcRuns.ReachableBlocksAreNeverCollected | src/wlgc.c:125-191 | over every run, a block that stays reachable and is not freed by address stays tracked with its size, however many collections intervene |
| GcRuns.ReturnedBlockIsTracked | src/wlgc.c:171-191 | the block that an allocation returns is tracked when the call is over |
| GcRuns.SecondCollectFreesNothing | src/wlgc.c:150-154 | a second collection that sees the same memory and stack changes nothing |
| GcRuns.BelowTheLimitNothingIsFreed | src/wlgc.c:171-191 | a request for nothing gives null and changes nothing; an allocation that finds at most half as many blocks as buckets frees none and adds the block that it returns |
| GcRuns.AboveTheLimitGarbageIsFreed | src/wlgc.c:173-175 | one that finds more releases every block that is not reachable |
| GcRuns.FreeForgets | src/wlgc.c:204-213 | freeing an address forgets the block there, if there is one, and no other |
| GcRuns.EveryBlockIsReleasedOnce | src/wlgc.c:98-101 | over every run, each address was registered exactly as often as it was released, but for the registration still tracked, and gc_cnt counts the releases |
| GcRuns.CapacityFollowsSurvivors | src/wlgc.c:105-147 | in every state of a run the capacity is 4096 or below four times the survivors of some collection before |
| GcRuns.RoundUpFits | src/wlgc.h:18 | the rounded size is a multiple of 8 that holds the request, less than 8 bytes above it, if and only if the request is at most 2^64 - 8; if not, it is 0 |
| GcRuns.RoundUpCanVanish | src/wlgc.h:18 | a request of 2^64 - 1 bytes is rounded to 0 |
| SizeClass.GenCls2Size | src/sizeclass.c:6-23 | the loops write exactly the ladder of class sizes, for every bound 2^n |
| SizeClass.ClassSizesAreLadder | src/sizeclass.c:6-23 | sizes rise, in multiples of 8, by half at most above 128, and end with the bound |
| SizeClass.FillTable8 | src/sizeclass.c:28-35 | each entry of the first table is the least class for the end of its 8-byte step |
| SizeClass.FillTable256 | src/sizeclass.c:36-42 | each entry from 1 on of the second table is the least class for the end of its 256-byte step |
| SizeClass.GenSize2Cls | src/sizeclass.c:25-44 | both loops together, the second one going on from the class of 512 bytes |
| SizeClass.LookupIsFirstFit | src/wlmalloc.c:338-348 | the lookup in two generated tables equals linear search for the least class that holds the size, for every bound 2^n from 2^9 up |
| SizeClass.LittleIsWasted | src/sizeclass.c:15-22 | above 128 bytes the class is less than 1.5 times the request |
| SizeTables.Size2ClsFits | src/wlmalloc.c:338-348 | a request of up to 16384 bytes gets the least of the 29 classes that holds it, a larger one the large class 31 |
| SizeTables.LookupIsGenerated | src/wlmalloc.c:15-21 | the shipped tables give the linear search through the generated sizes |
| SpanAlloc.SpanRecord.Init | src/wlmalloc.c:182-189 | the header of a prepared span: class, size, a full counter, no freed block; owner and state stay; what that means for the account of the span is SpanSteps.AccountOpens |
| SpanAlloc.SpanRecord.GetBlk | src/wlmalloc.c:125-139 | the front of the freed blocks, or the next uncarved slot; the counter goes down with 32-bit wrap-around; that this is a block of the span which was not outstanding is SpanSteps.AccountTakes, and that it is the one freed last is SpanReuse.FreedBlockComesBack |
| SpanSteps.AccountOpens | src/wlmalloc.c:182-189 | a span without outstanding blocks has its account in order after span_init, with a free block |
| SpanSteps.AccountTakes | src/wlmalloc.c:125-139 | from a span with a free block get_blk takes a slot of this span that was not outstanding, and the account stays in order |
| SpanSteps.AccountGives | src/wlmalloc.c:191-204 | a block that comes back keeps the account, and the counter is full if and only if no block is outstanding any more |
| SpanSteps.CounterGoesRound | src/wlmalloc.h:54 | the counter wraps around at 2^32 in both directions |
| SpanReuse.UsedSpanGives | src/wlmalloc.c:125-139 | a span in use with a free block gives the block that was freed last, and if there is none the lowest one never given; only its account changes |
| SpanReuse.FreshBlocksComeLast | src/wlmalloc.c:127-137 | the pointer to the blocks never given moves only when no freed one is left |
| SpanReuse.FreedBlockComesBack | src/wlmalloc.c:125-204 | a block that any thread frees into a span in use is the next one that this span gives, and then everything is as before |
| SpanReuse.FreedBlocksComeBackReversed | src/wlmalloc.c:125-204 | any number of blocks freed into a span in use come back in reverse order, and then the spans and lists are as before |
| SpanAlloc.Allocator.constructor | src/wlmalloc.c:269-293 | the pool starts at the next multiple of the span size, with empty lists |
| SpanAlloc.Allocator.ThreadCacheInit | src/wlmalloc.c:247-267 | every slot and list of the thread is empty, and no other list changes |
| SpanAlloc.Allocator.AcquireSpan | src/wlmalloc.c:141-180 | the four sources of a span in their order, growth of the pool included, and failure, as the specification has them; what this means for an allocation is SpanPool.AllocationTakes |
| SpanAlloc.Allocator.UnlinkUsable | src/wlmalloc.c:102-109 | the walk with its break: the first suspended span with a free block leaves the list, its node keeps its links, and nothing else happens |
| SpanAlloc.Allocator.ReplaceAvailableSpan | src/wlmalloc.c:98-124 | the using slot holds the span fetched, under the thread's ownership and in use |
| SpanAlloc.Allocator.SmallAlloc | src/wlmalloc.c:78-96 | a used up span is suspended and replaced before the block is taken |
| SpanAlloc.Allocator.WlMalloc | src/wlmalloc.c:28-44 | the step of the specification for a small size, null for 0, the large branch above; from a state with the invariant it returns to one if and only if the guard held |
| SpanAlloc.Allocator.FreeBlock | src/wlmalloc.c:191-218 | the common part of the branches: count, move of a suspended span that is all free, push; it goes well if and only if a span that has to move can: the free list is there, and the span is linked or its list_del and list_add_tail together leave every list a ring; then the state is that of the specification |
| SpanAlloc.Allocator.WlFree | src/wlmalloc.c:46-63 | the step of the specification for blocks of this thread, of the pool and of another thread, those of lost spans and the faults included; for an outstanding block and with no span lost it goes well and keeps the invariant if and only if the free is guarded; whenever it goes well it keeps block safety |
| SpanAlloc.Allocator.ThreadExit | src/wlmalloc.c:295-317 | everything the thread held goes to the pool, class by class and in order, under the pool's ownership, and the invariant is kept |
| SpanInv.OnePlace | src/wlmalloc.h:59-77 | a carved span is in one list, at one index of it |
| SpanInv.SomePlace | src/wlmalloc.h:48-57 | every carved span is in some list, and its owner, class and state agree with that list |
| SpanInv.PlacesCountSpans | src/wlmalloc.c:161-179 | the lists together hold (free_start - start)/SPAN_SIZE spans |
| SpanInv.LiveBlockIsInSpan | src/wlmalloc.h:35 | an outstanding block is as large as requested, lies in the data area of its span, and GET_HEADER of each of its bytes is the header |
| SpanInv.LiveBlocksAreApart | src/wlmalloc.c:125-139 | outstanding blocks share no byte |
| SpanInv.BlocksAreCounted | src/wlmalloc.c:182-204 | free_cnt is the freed blocks and the uncarved slots, with the outstanding blocks it makes the capacity, and a full counter means that nothing is outstanding |
| SpanInv.LostSpan | src/wlmalloc.c:103-108 | a carved span in no list breaks the invariant |
| SpanInv.InvIsNoneLost | src/wlmalloc.c:103-108 | the invariant is block safety with no lost span |
| SpanSlots.HeaderOfSlot | src/wlmalloc.h:35 | GET_HEADER of any slot of an aligned span is that span |
| SpanSlots.NoSlotBehindLast | src/wlmalloc.h:30-35 | a slot behind the last one would stick out of the span |
| SpanSteps.MallocKeepsExactly | src/wlmalloc.c:78-180 | an allocation keeps the invariant if and only if it neither unlinks a usable suspended span nor takes a used up span from the pool |
| SpanSteps.MallocIsSafeExactly | src/wlmalloc.c:78-180 | an allocation keeps block safety, lost spans or not, if and only if the span that gives the block has one; then the block was not outstanding and is the only one that becomes so, and otherwise it sticks out of its span |
| SpanSteps.HandOutOverruns | src/wlmalloc.c:125-139 | from a used up span the block sticks out of the span, the counter wraps around and block safety is lost |
| SpanSteps.DropKeeps | src/wlmalloc.c:102-109 | the walk loses the first suspended span that has a free block, which is recorded as lost, or does nothing; block safety is kept |
| SpanPool.AllocationTakes | src/wlmalloc.c:78-180 | an allocation stops the program if and only if the slot needs a span, none is at hand, the rest of the pool is too small and the next mapping does not start at its end; otherwise the slot gets the first free span of the thread, or else the first one that the pool has suspended for the class, or else its first free one, or else the lowest unused part of the pool, which grows by 128 MiB only if that is too small; a free or new span gives the block right behind its header; of the suspended spans, the used up one added at the end, the first with a free block is dropped |
| SpanPool.GrowthIsMapping | src/wlmalloc.c:167-175 | in any run, the pool grows only in an allocation whose mapping starts at its end, by that mapping, when its rest is too small for a span |
| SpanPool.RunGrowsByMappings | src/wlmalloc.c:275-287 | in every state of every run, the pool starts at the first multiple of the span size not below the first mapping, and ends after one mapping for the start and one for each call that has raised its end |
| SpanPool.SpansAreMapped | src/wlmalloc.c:160-179 | in every run, each byte of a carved span is in the first mapping or in that of an earlier allocation |
| SpanPool.RunStopsExactly | src/wlmalloc.c:169-173 | in every run, a call ends the program exactly at an allocation as above |
| SpanPool.FreeTurnsExactly | src/wlmalloc.c:191-234 | a free that goes well makes a span FREE if and only if it is suspended and its 32-bit counter reaches the number of its blocks; then the span goes to the end of the free list of the pool, if it is the owner, or of the thread that frees; if not, the block goes in front of the freed ones |
| SpanPool.ExitHandsOver | src/wlmalloc.c:295-317 | for each class, the suspended spans of the thread and then the one in its slot go to the end of the pool's list and change their owner, its free spans go to the end of the pool's free list, and its lists are gone |
| SpanSteps.FreeKeepsExactly | src/wlmalloc.c:191-234 | freeing an outstanding block, whoever owns the span and whichever thread frees, also one that has not started: it goes well and keeps the invariant if and only if the thread has started, the pool owns the span, or the span does not turn FREE |
| SpanSteps.FreeIsSafe | src/wlmalloc.c:191-234 | also when spans have been lost, and for their blocks: a free that finds the lock and, for a span that turns FREE, can move it keeps block safety; that the specification's condition for this is that of the pointer writes is SpanLinkRuns.FreeGoesWellExactly |
| SpanSteps.StaleDelKeeps | src/list.h:42-51 | deleting the node of a lost span keeps block safety, and the spans that it takes out of a list are exactly those that are lost in addition |
| SpanSteps.PoolSpanIsFreedExactly | src/wlmalloc.c:206-218 | a span of the pool whose last block is freed reaches the free list if and only if it was suspended; one that was in use stays in the suspend list with a full counter |
| SpanSteps.StartIsSafe | src/wlmalloc.c:247-267 | a thread that starts keeps the invariant, and block safety |
| SpanSteps.ExitIsSafe | src/wlmalloc.c:295-317 | a thread that exits keeps the invariant, no span being lost or listed twice, and block safety |
| SpanSteps.InitialHolds | src/wlmalloc.c:269-293 | the first state has the invariant |
| SpanRuns.CallKeepsExactly | src/wlmalloc.c:28-63 | any one call ends well and keeps the invariant if and only if it is guarded |
| SpanRuns.CallIsSafeExactly | src/wlmalloc.c:28-63 | any one call ends well and keeps block safety if and only if it is safely guarded |
| SpanRuns.RunKeepsExactly | src/wlmalloc.c:28-63 | across any interleaving of calls, those of threads that have not started included, all calls up to j end well with the invariant if and only if each call before j is guarded |
| SpanRuns.RunIsSafeExactly | src/wlmalloc.c:28-63 | the same for block safety under the weaker guard: runs go on with lost spans and free their blocks |
| SpanRuns.SafeRunHasGoodBlocks | src/wlmalloc.c:28-63 | in every state of a safely guarded run, whatever spans it has lost, outstanding blocks are disjoint, as large as requested, within their data areas and found by GET_HEADER from each byte |
| SpanRuns.GuardedRunCountsSpans | src/wlmalloc.c:28-63 | in every state of a guarded run, moreover, the lists together hold every carved span once |
| SpanRuns.RunTilesThePool | src/wlmalloc.c:161-179 | in every run, guarded or not, up to its first fault and as long as the program leaves the headers alone: spans are aligned, disjoint and tile the pool from start to free_start <= end, also across an old end |
| SpanRuns.RunKeepsLinked | src/wlmalloc.h:48-77 | in every such run, also after block safety is gone: the lists are those of the pool and of the running threads, the node of a span is in one of them at most, once, and owner, class and state agree with that list; a span that is in none is recorded as lost |
| SpanLinks.StaleDelIsListDel | src/list.h:42-51 | the two writes of list_del of a lost span leave the rings and the remembered links that the specification gives, where it leaves rings |
| SpanLinks.RingsStayExactly | src/list.h:42-51 | every head is on a ring after the two writes of list_del alone if and only if neither neighbour was on a ring or both were on one, in order |
| SpanLinks.MoveIsListMove | src/wlmalloc.c:196-197 | list_del and list_add_tail of a span that can move find all their links and leave the rings and the remembered links that the specification gives |
| SpanLinks.MoveExactly | src/wlmalloc.c:196-197 | for a lost span, both find their links and leave every head on a ring if and only if list_del alone does, or the neighbour before is the last node of the list that it joins and the one behind is on no ring |
| SpanLinks.DropIsListDel | src/list.h:48-51 | the node of the span that the walk unlinks keeps the links recorded for it, and the writes leave the shorter list |
| SpanLinkRuns.MallocDepicts | src/wlmalloc.c:78-180 | an allocation as pointer writes, which reads lists through their links only, the walk included: it finds all its links and leaves those of the lists of the specification |
| SpanLinkRuns.ExitDepicts | src/wlmalloc.c:295-317 | so do the loops of thread_exit, with list_add_tail and list_splice_tail class by class |
| SpanLinkRuns.FreeGoesWellExactly | src/wlmalloc.c:191-234 | where headers and lists agree, which is so in every state of a run, a free goes well by the specification if and only if the lock of the owner is there and the pointer writes find all their links and leave every list a ring |
| SpanLinkRuns.CallDepicts | src/wlmalloc.c:28-317 | every call that ends well, whatever the counters say, finds all its links, and the links that it leaves are those of the lists of the specification |
| SpanLinkRuns.RunDepicts | src/wlmalloc.c:28-317 | in every state of every run, guarded or not, up to its first fault, the memory that the pointer writes of its calls have left holds the rings of the lists and the links of the lost spans |
| SpanLinkRuns.RunHasTrace | src/wlmalloc.c:28-317 | every run has such memories |
| SpanLinkRuns.RunIsSafeByLinks | src/wlmalloc.c:28-317 | across any interleaving, the calls up to j end well with block safety if and only if each allocation before j takes its block from a span that has one and the pointer writes of each free before j go well |
| SpanLinkRuns.RunFaultsExactly | src/wlmalloc.c:191-234 | a run, guarded or not, comes to a fault exactly at a free whose owner's lock is gone or whose pointer writes do not go well |
| SpanDefects.FullSpanIsReused | src/wlmalloc.c:145-150 | wherever the pool lies: a run of five calls in which a second thread is given a full span and a block that starts at the next header |
| SpanDefects.SuspendedSpanIsLost | src/wlmalloc.c:104-107 | wherever the pool lies: a run of seven calls after which a span with a free block is in no list, and block safety still holds |
| SpanDefects.LostSpanIsFound | src/wlmalloc.c:195-203 | the eighth call of that run frees the last block of the lost span: list_del changes nothing, the span is in the free list of its thread, and the invariant holds again |
| SpanDefects.LostSpanOutlivesOwner | src/wlmalloc.c:219-221 | after that run the owner of the lost span exits, and a thread that frees its last block does not find the lock |
| SpanMended.TornListIsMended | src/wlmalloc.c:195-203 | wherever the pool lies: a run of 15 calls whose last one frees the last block of a lost span; list_del alone would break the free list, but the call leaves every list a ring, the span in the free list and block safety intact |
| SpanDefects.FirstCallIsFree | src/wlmalloc.c:220-226 | wherever the pool lies: a run of four calls in which a thread that has not allocated frees the last block of a suspended span, which faults |
| SpanMeant.MallocMeantKeeps | src/wlmalloc.c:98-180 | the allocation as it is meant always keeps the invariant and returns a block that was not outstanding |
| SpanMeant.SuspendedAreUsedFirst | src/wlmalloc.c:102-109 | the allocation as it is meant uses the first suspended span of the thread that has a free block, and takes nothing from elsewhere |
| SpanMeant.GuardedIsMeant | src/wlmalloc.c:98-180 | where an allocation is guarded, the code does what is meant |
| SpanMeant.MeantRunKeepsExactly | src/wlmalloc.c:28-63 | in every run of the allocator as it is meant, the calls end well with the invariant if and only if its frees are guarded; nothing is asked of allocations |
| TriMod.Memcmp | src/wlmalloc.c:368 | the comparison is 0 if and only if the blocks are equal |
| TriMod.CompareCopies | src/wlmalloc.c:365-369 | the three results say which pairs of copies agree |
| TriMod.TriModRead | src/wlmalloc.c:360-387 | null, with nothing changed, if and only if all copies differ; otherwise all three become what at least two held, and no other byte changes; for every length; this is the read step of the runs |
| TriMod.TriModWrite | src/wlmalloc.c:389-398 | refused if and only if there is no header or the block is smaller than the product modulo 2^64; otherwise all three copies are the source and no other byte changes, which is the write step of the runs; an outstanding block of the allocator is written to if and only if it holds three times the source, unless the product wraps around, and then no byte of another outstanding block changes |
| TriMod.AcceptedExactly | src/wlmalloc.c:391 | for an outstanding block, the check lets a write pass if and only if the block holds the three copies, unless the product wraps around |
| TriMod.InsideItsBlock | src/wlmalloc.c:395-397 | writes within an outstanding block change no byte of another one |
| TriMod.ReadYieldsExactly | src/wlmalloc.c:370-386 | a read leaves v in all copies if and only if at least two held it |
| TriMod.ReadRestores | src/wlmalloc.c:360-398 | in every run in which faults hit at most one copy between two reads or writes, each read succeeds and leaves the value written last in all copies |
| TriMod.TwoHitsOutvote | src/wlmalloc.c:378-385 | two copies hit alike win |
| TriMod.TriBlockFitsExactly | src/wlmalloc.c:350-353 | a write to a block from tri_mod_alloc is never refused, and the block holds the copies if and only if three times the size did not wrap around |
| TriMod.TripleWraps | src/wlmalloc.c:350-353 | a size of which three times is 2 |
| EntryOrder.StrcmpIsLess | src/ls.c:414-416 | the sign of strcmp is the lexicographic order |
| EntryOrder.ToIntOf | src/ls.c:396-405 | what the truncation to int keeps of a difference, and when it is the identity |
| EntryOrder.SortCmpIsOrder | src/ls.c:391-423 | larger keys first and names as tie-breaker, forward or reverse, whenever the difference of the keys fits in an int |
| EntryOrder.SortCmpOnFields | src/ls.c:396-418 | which field each sort key compares: the larger size or time first, directories before files, or the names alone, with the names as tie-breaker; reverse order negates |
| EntryOrder.SortCmpIsOrderExactly | src/ls.c:391-423 | for all keys: that is so if and only if the low 32 bits have the sign of the difference, or are 0 and the names decide alike |
| EntryOrder.SortCmpIsAntisymmetricExactly | src/ls.c:391-423 | swapping the arguments negates the result if and only if the low 32 bits are not 2^31 |
| EntryOrder.CloseIsPreorder | src/ls.c:391-423 | total and transitive on entries whose keys differ by less than 2^31, forward and reverse |
| EntryOrder.TotalExactly | src/ls.c:391-423 | total on a set of entries, so that neighbours end in order, if and only if the order is reverse or no two keys differ by 2^31 in their low 32 bits |
| EntryOrder.SizesGoRound | src/ls.c:397 | three file sizes on which it goes round in a circle |
| ShellSort.Sift | src/ls.c:436-443 | one sifting extends the part that is in order at that gap by one entry |
| ShellSort.GapPass | src/ls.c:435-444 | each pass leaves every gap-th entry in order, whatever came before |
| ShellSort.Shellsort | src/ls.c:426-446 | a permutation for every size; neighbours in order if sortcmp is total on the entries; sorted if it is transitive too |
| ShellSort.SortedAsMeant | src/ls.c:391-446 | with close keys, no entry of a sorted array belongs before an earlier one |
| ShowFiles.ShowFiles | src/ls.c:449-502 | one file in a row in the long and single styles, otherwise as many columns as fit in the fewest rows; by columns, the file below each file is the next one and a column goes on where the one to its left ends; by rows, the file to the right is the next one and a row goes on where the one above ends; every index below nfiles is listed in exactly one place |
| ShowFiles.RowsAreFewest | src/ls.c:481-489 | rounding up gives the least number of rows that hold all files |
| ShowFiles.PlaceHasIndex | src/ls.c:490-496 | each file has a place in the layout |
| ShowFiles.OnlyPlace | src/ls.c:490-496 | and no other |
| HumanReadable.MakeHumanReadable | src/ls.c:973-1014 | 0 for a product of 0; rounding in a given unit; scaling otherwise |
| HumanReadable.SuitableUnit | src/ls.c:1002-1014 | four divisions at most, and the tenths shown are those of what was left before the last one, carry included |
| HumanReadable.RoundedExactly | src/ls.c:998-1000 | rounding is to the nearest multiple, halves up, if and only if adding half of the unit does not wrap around; if it does, 0 is shown |
| HumanReadable.ShownIsClose | src/ls.c:1003-1013 | below 1024 the number itself; otherwise the unit is the largest of 2^10, 2^20, 2^30 and 2^40 that is not above the number, and what is shown is less than 1/2 + 10/1024 of a tenth too small and at most 1/2 of a tenth too large |

## Left out

- The registers and the frame address (`setjmp`, inline assembly): what a collection can read is a parameter, the memory and the two bounds of the stack.
- The answers of `mmap`, `malloc` and `calloc`: parameters that promise a null address or a block apart from the tracked ones, and for the pool whether the mapping is contiguous; the bookkeeping allocations of the collector succeed.
- `gc_realloc` (`src/wlgc.c:193-202`): it registers the new block without retiring the old record, so an address may be registered twice.
- `large_alloc`, the branches for large blocks and for null in `wl_free`, and `realloc`: the size of a large header is unsettled in the code.
- Real mutexes and races within a call: a call is one step, so that the wrong mutex unlocked at `src/wlmalloc.c:217` has no effect here.
- `wl_malloc`'s first-call initialisation, thread-local storage and the libc wrappers: a thread starts by a step of its own before it allocates; a free makes no such step.
- Calls of a thread after its own `thread_exit`, which leaves `thread_state` and `using` set: such a cache is taken as one that has not started, and it may start again as the cache of another thread.
- What a run does after a fault, also after a list has ceased to be a ring: it ends there.
- What the program writes into a block that sticks out of its span: after block safety is lost it may overwrite the next header. RunTilesThePool, RunKeepsLinked, RunDepicts and RunFaultsExactly speak of runs in which headers stay as the allocator wrote them.
- Floating point: `SWEEP_FACTOR` and `LOAD_FACTOR` are exact integer comparisons.
- The contents of blocks in the allocator, and the links stored in freed blocks: freed blocks are a sequence of addresses.
- The nodes inside the span headers: `SpanAlloc.Allocator` keeps lists as sequences of span addresses, and `SpanLinkRuns` has the pointer writes of its calls on values.
- Integer overflow of the table capacity, which would take 2^63 buckets.
- The header size 72 is that of a 64-bit platform.
- The null array and the column width of the lister (`src/ls.c:454-472`): how many columns fit on the terminal is a parameter of the layout.
- `show` and `main` of `src/sizeclass.c`; its bound 2^14 is a parameter, and its tables are as long as the loops need.
- The rest of `src/ls.c` (directories, options, printing), `src/log.c` and `test_benchmark/`.
- `tri_mod_free` and the undefined result of a successful `tri_mod_write`.
