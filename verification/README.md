# NRE runtime kernels, modelled and proved in Dafny

NRE is a C++ user-level runtime for a microhypervisor. This project models the small kernels
its safety rests on: read-copy-update reclamation, the splitting of capability ranges into
aligned blocks, the treap index of dataspaces, the copying UTCB (the page a thread uses for
messages), the region allocator, the shared ring buffer, the user-level semaphore, and the
arithmetic and array code around them. Concurrent code is a transition system over
sequentially consistent memory, one step per shared access; code that updates objects in
place is a class or works on arrays; pure arithmetic is a set of functions. Words are 32 bits
wide where the source uses `size_t`, `uintptr_t` or the bit-scan builtins, times are 64 bits
wide, and wrap-around is written out.

`dafny verify dfyconfig.toml` checks the whole project.

| file | what it models |
|---|---|
| `Bits.dfy`, `Wrappers.dfy` | bitwise operators, bit scans, `minshift`, `prev_pow2`; optional values |
| `CapSplit.dfy`, `MapMem.dfy` | `delegate(CapRange)`, `limit_to`, `map_mem`, `portal_map` |
| `Rcu.dfy`, `RcuCalls.dfy` | read-copy-update with nested readers and one writer; what its calls delete and when they return |
| `TreapShape.dfy`, `TreapLinks.dfy`, `Treaps.dfy`, `DataSpaces.dfy` | the treap as a tree, its links in memory, the pointer code, and the dataspace manager on top |
| `Utcb.dfy` | the two frame stacks in one UTCB page |
| `Regions.dfy` | the region allocator |
| `Ring.dfy`, `UserSm.dfy` | producer/consumer ring and user-level semaphore |
| `TimeoutList.dfy` | the sorted timer ring and the loop that fires due timers |
| `Date.dfy`, `MulDiv.dfy` | calendar arithmetic, 64-bit scaling and clock conversion |
| `Dma.dfy` | scatter/gather copying and the sector loop of the ATA driver |
| `QuickSort.dfy`, `Topology.dfy` | in-place quicksort and the partitioning of CPUs |

## Where the code and its documentation disagree

The model follows the code; each case has a counterexample or an exact condition.

- `prev_pow2` is documented to round down to a power of two. It does so exactly for powers of
  two from 2 on; other numbers from 3 on give half of that, 1 gives 2 and 0 gives 1
  (`Bits.PrevPow2RoundsDown`). A ring for one packet therefore leaves its buffer, and a ring
  for three packets accepts none (`Ring.RingStraysExactly`, `Ring.EmptyRingAccepts`).
- `RegionManager::alloc` takes exactly the range it returns if and only if the alignment gap
  is no larger than the chosen region; otherwise an unsigned difference wraps and space that
  was not free becomes free (`Regions.AllocExactly`, `Regions.AllocCanCorrupt`).
- `muldiv128` is documented to be exact whenever the quotient fits 64 bits. It is exact if and
  only if two partial results fit as well (`MulDiv.MulDiv128`, `MulDiv.Lossy`).
- `DMADescList::in` and `out` are documented to return true on success. They return true when
  bytes are left over (`Dma.DescList.In`, `Dma.DescList.Out`).
- `gmtime` numbers the days of a year from 1, not from 0 as section 4.16 of the POSIX.1-2017
  Base Definitions has it (`Date.GmTime`).
- `map_mem` claims to check that a chunk fits. With at_once the lowest bit in which the page
  numbers differ, it works if and only if they are equal, the pages fit one block of 2^at_once,
  more than at_once + 2 items are free, or fewer are free and the portal happens to have an item
  for every whole block and unaligned bit (`MapMem.RoundExactly`, `MapMem.TooFewItems`). Its
  page count is 0 for sizes within one page of 2^32 (`MapMem.PagesCoverSize`).
- `Consumer::get` is documented to return 0 only if it was stopped and there is no data
  anymore. A packet produced between its two tests is missed (`Ring.NullExactly`,
  `Ring.GetMissesExactly`).
- `RCU::deletable` is documented to accept a thread that has re-entered a read section since its
  snapshot. It does so exactly if the number of sections entered since is no multiple of 2^16; the
  other case only delays deletion (`RcuCalls.RefusedExactly`).

## Model

| member | source | states |
|---|---|---|
| `Bits.ForwardIsAlignment` | nre/include/util/Math.h:124-127 | the position of the lowest set bit is at least k exactly if the number is a multiple of 2^k |
| `Bits.ReverseIsLog` | nre/include/util/Math.h:116-119 | 2 to the position of the highest set bit is the largest power of two not above the number |
| `Bits.IsPow2Exactly` | nre/include/util/Math.h:129-132 | the mask test holds exactly for 0 and the powers of two |
| `Bits.PrevPow2RoundsDown` | nre/include/util/Math.h:138-149 | rounding down to a power of two holds exactly for powers of two from 2 on; from 2 on the result p always satisfies p <= n < 4p; 0 gives 1 and 1 gives 2 |
| `Bits.MinShiftIsLargest` | nre/include/util/Math.h:179-184 | minshift is the largest order up to 31 to which the start is aligned and whose block is not larger than the size |
| `CapSplit.MinShiftIsOrder` | nre/include/utcb/UtcbFrame.h:373 | minshift of start or-ed with hotspot is the largest order at which both are aligned and the block fits |
| `CapSplit.GreedyTiles` | nre/include/utcb/UtcbFrame.h:368-379 | the blocks are naturally aligned powers of two in source and target and tile the range in order without gap or overlap, for every range |
| `CapSplit.TilingMapsEveryUnit` | nre/include/utcb/UtcbFrame.h:368-379 | any such tiling maps unit start+i to target+i, each exactly once and in order |
| `CapSplit.GreedyIsShortest` | nre/include/utcb/UtcbFrame.h:368-379 | no aligned tiling of the range has fewer blocks than the greedy one |
| `CapSplit.GreedyItemCount` | nre/include/utcb/UtcbFrame.h:368-379 | the exact number of blocks, from the low bits of the start and the bits of the count, when source and target first differ in bit a |
| `CapSplit.ChunkItemBound` | nre/services/root/Hypervisor.cc:70-80 | a range of m * 2^a units at any offset, whose source and target first differ in bit a, takes at most m + a items |
| `CapSplit.ChunkItemCount` | nre/include/utcb/UtcbFrame.h:368-379 | such a range takes exactly m + a items less the number of bits below a to which its start is aligned |
| `CapSplit.ShortItemBound` | nre/services/root/Hypervisor.cc:69-82 | a range shorter than 2^k whose source and target agree in k bits takes at most 2k items, less the alignment both have |
| `CapSplit.Delegate` | nre/include/utcb/UtcbFrame.h:368-379 | succeeds exactly if some aligned tiling fits the free items; then unit start+i goes to hotspot+i, or to itself for a range without hotspot, each once; on failure it has written the first items |
| `CapSplit.LimitTo` | nre/libs/libstdc++/cap/CapRange.cc:36-48 | the new count is the largest one that some aligned tiling with the free items covers, towards the hotspot or the start itself |
| `CapSplit.LimitIsLargest` | nre/libs/libstdc++/cap/CapRange.cc:36-48 | what n greedy blocks reach is the longest prefix of the range that any n aligned blocks can cover |
| `MapMem.ChunkByRoom` | nre/services/root/Hypervisor.cc:66-83 | the chunk by the room left: all of it if it fits one block; cut to free - 2 - at_once blocks; empty if the room is exactly at_once + 2; and all whole blocks if it is less and the unsigned difference wraps |
| `MapMem.ChunkFits` | nre/services/root/Hypervisor.cc:65-83 | with equal addresses, a range within one block, or more room than at_once + 2, the chunk is non-empty, no larger than what is left, fits the portal, and if it was cut leaves room for the range itself |
| `MapMem.RoundExactly` | nre/services/root/Hypervisor.cc:64-86 | a round is non-empty and its reply fits if and only if the addresses are equal, or the rest fits one block, or there is more room than at_once + 2, or there is less and the number of whole blocks plus the unaligned low bits is at most 254 |
| `MapMem.TooFewItems` | nre/services/root/Hypervisor.cc:76-80 | 300 pages from page 0 to page 1: refused with one free item, endless with two, working with three |
| `MapMem.NextRound` | nre/services/root/Hypervisor.cc:88-93 | after a round that works at_once is the same and the next round works as well |
| `MapMem.PagesCoverSize` | nre/services/root/Hypervisor.cc:61 | the number of pages covers the size if and only if rounding it up does not wrap, and otherwise is 0 |
| `MapMem.PortalMap` | nre/services/root/Hypervisor.cc:137-143 | succeeds exactly if the range needs at most 254 items, and then maps every page once, to the hotspot or to itself without one |
| `MapMem.MapMemory` | nre/services/root/Hypervisor.cc:58-95 | for all addresses and sizes: page phys+i goes to virt+i exactly once for every i if and only if the condition of RoundExactly holds at the start; the loop is endless exactly if the room is at_once + 2 and the pages exceed one block; in every failing case nothing is mapped |
| `Rcu.DownFacts` | nre/include/RCU.h:129-140 | entering adds one nesting level; at level 0 it takes the next version, a different one also when it wraps, and otherwise keeps it |
| `Rcu.UpFacts` | nre/include/RCU.h:141-146 | leaving takes one nesting level away and keeps the version |
| `Rcu.InvStep` | nre/include/RCU.h:205-306 | every step of readers and writer keeps the reclamation invariant: who may still hold what, against snapshot and counters |
| `Rcu.WriterNeverStuck` | nre/include/RCU.h:205-306 | the writer can always take its next step |
| `Rcu.InvRun` | nre/include/RCU.h:205-306 | the invariant holds in every reachable state |
| `Rcu.ReadersAreSafe` | nre/include/RCU.h:129-306 | in every reachable state no object that a thread fetched in its current read section has been deleted, whatever the interleaving and also after the 16-bit version wraps |
| `Rcu.DeletionRemovesTail` | nre/include/RCU.h:252-272 | between sweeps the invalidated objects, newest first, are the pending list followed by the deleted ones: deletion takes whole suffixes, and no object appears twice |
| `Rcu.DeletedAtMostOnce` | nre/include/RCU.h:252-272 | an object about to be deleted was not deleted before and is held by no thread |
| `Rcu.SweepResult` | nre/include/RCU.h:205-242 | a forced collection leaves nothing pending, an invalidation exactly the new object |
| `RcuCalls.CounterIsHistory` | nre/include/RCU.h:129-146 | in every run the halves of a counter are the nesting depth and the number of sections entered, in 16 bits, and a thread holds what it fetched in its current section |
| `RcuCalls.ListsAreHistory` | nre/include/RCU.h:185-225 | threads, published and invalidated objects are what the calls of the run made them |
| `RcuCalls.RefusedExactly` | nre/include/RCU.h:280-291 | deletable() is refused by a thread exactly if it is inside and has entered a multiple of 2^16 sections since its snapshot, in particular none |
| `RcuCalls.CallExactly` | nre/include/RCU.h:205-242 | gc(true) returns with an empty list; gc(false) and invalidate() delete everything that was pending before exactly if no thread refuses, and nothing otherwise; the newly invalidated object stays |
| `RcuCalls.CallCollects` | nre/include/RCU.h:205-306 | a call deletes everything that was pending before if each thread has left the section of its snapshot (and entered fewer than 2^16 since), or none is in a section during the call |
| `RcuCalls.CallIsWaitFree` | nre/include/RCU.h:205-242 | gc(false) and invalidate() release the lock after a bounded number of the writer's own steps, whatever the readers do |
| `RcuCalls.ForcedGcEnds` | nre/include/RCU.h:233-237 | gc(true) returns within the same bound once no thread refuses any more |
| `RcuCalls.ForcedGcReturns` | nre/include/RCU.h:233-291 | once every thread has left the section it was in when the snapshot was taken, gc(true) returns within the bound, whatever the threads enter meanwhile |
| `RcuCalls.CallsCanReturn` | nre/include/RCU.h:205-306 | from every reachable state the lock can still be released |
| `TreapShape.ShapeIsUnique` | nre/include/collection/Treap.h:67-76 | two trees ordered by key and heap-ordered by priority with the same items are the same tree |
| `TreapShape.InsertItems` | nre/include/collection/Treap.h:112-144 | inserting a fresh item keeps both orders and adds exactly this item |
| `TreapShape.RemoveItems` | nre/include/collection/Treap.h:151-195 | removing an item keeps both orders and takes exactly this item away |
| `TreapShape.InsertRemove` | nre/include/collection/Treap.h:112-195 | inserting a fresh item and removing it again gives the identical tree |
| `TreapShape.InsertCommutes` | nre/include/collection/Treap.h:112-144 | two items give the same tree in either order of insertion |
| `TreapShape.FindIsScan` | nre/include/collection/Treap.h:94-104 | the search by key finds what a scan over all items finds |
| `Treaps.PriosDiffer` | nre/include/collection/Treap.h:124-125 | the priorities handed out by the first 2^32 inserts are pairwise different |
| `Treaps.Treap.constructor` | nre/include/collection/Treap.h:85-86 | an empty, well-linked treap |
| `Treaps.Treap.Find` | nre/include/collection/Treap.h:94-104 | a node with the key if there is one, null otherwise |
| `Treaps.Treap.DescendByPrio` | nre/include/collection/Treap.h:113-120 | the loop stops at the link where the new node belongs in the canonical tree |
| `Treaps.Treap.SplitBelow` | nre/include/collection/Treap.h:127-143 | relinking splits the subtree by key into the two subtrees of the new node, with no node lost |
| `Treaps.Treap.Insert` | nre/include/collection/Treap.h:112-144 | the links hold the canonical tree with the node added; all keys are kept |
| `Treaps.Treap.Locate` | nre/include/collection/Treap.h:151-160 | the search for the node ends at the link that points to it |
| `Treaps.Treap.RemoveFrom` | nre/include/collection/Treap.h:167-195 | the rotations replace the subtree of the node by the canonical join of its children |
| `Treaps.Treap.Remove` | nre/include/collection/Treap.h:151-161 | the links hold the canonical tree without the node; all keys are kept |
| `DataSpaces.CountedStep` | nre/include/mem/DataSpaceManager.h:78-151 | changing the references of one slot by the logged event keeps references equal to creates plus joins minus releases for every dataspace |
| `DataSpaces.TakeSlot` | nre/include/mem/DataSpaceManager.h:78-86 | moving the first free slot to the treap keeps every slot in exactly one of both |
| `DataSpaces.Recount` | nre/include/mem/DataSpaceManager.h:95-108 | counting a join or a release that is not the last keeps all of it consistent |
| `DataSpaces.FreeSlot` | nre/include/mem/DataSpaceManager.h:138-151 | the last release moves the slot from the treap to the free list and keeps all of it consistent |
| `DataSpaces.IndexFindsAll` | nre/include/mem/DataSpaceManager.h:161-163 | a selector is in the treap exactly if a scan over the slots finds it |
| `DataSpaces.DataSpaceManager.constructor` | nre/include/mem/DataSpaceManager.h:63-68 | all slots are free and the treap is empty |
| `DataSpaces.DataSpaceManager.FindUnmap` | nre/include/mem/DataSpaceManager.h:161-163 | finds the used slot with this selector, null exactly if there is none |
| `DataSpaces.DataSpaceManager.FindSel` | nre/include/mem/DataSpaceManager.h:154-160 | the first used slot with this selector, null exactly if there is none |
| `DataSpaces.DataSpaceManager.Create` | nre/include/mem/DataSpaceManager.h:78-86 | fails exactly if no slot is free, and then changes nothing; otherwise one free slot gets the dataspace with one reference and nothing else changes |
| `DataSpaces.DataSpaceManager.Join` | nre/include/mem/DataSpaceManager.h:95-108 | a known selector gains one reference in its first slot and nothing else changes; an unknown one gets a free slot as in create, or fails exactly if there is none and then changes nothing |
| `DataSpaces.DataSpaceManager.Release` | nre/include/mem/DataSpaceManager.h:138-151 | fails exactly for an unknown selector and then changes nothing; otherwise its slot alone loses one reference, or is emptied and put on the free list exactly if that was the last one, and the selector is then unused |
| `Utcb.PackedCounters` | nre/include/utcb/UtcbCopy.h:63-110 | writing one of the three packed counters leaves the other two as they were |
| `Utcb.PushLayout` | nre/include/utcb/UtcbCopy.h:149-165 | copying the current frame out makes it the top of both stacks and disturbs no saved frame |
| `Utcb.PopLayout` | nre/include/utcb/UtcbCopy.h:170-182 | copying the top frame back makes it the current one bit for bit and leaves the frames below it |
| `Utcb.Page.constructor` | nre/include/utcb/UtcbCopy.h:34-39 | an empty page has no saved frame and layer 0 |
| `Utcb.Page.PushLayer` | nre/include/utcb/UtcbCopy.h:135-137 | one layer more, frames unchanged |
| `Utcb.Page.PopLayer` | nre/include/utcb/UtcbCopy.h:141-143 | one layer less, frames unchanged |
| `Utcb.Page.Push` | nre/include/utcb/UtcbCopy.h:149-165 | above layer 1 the current frame is pushed on the stack of frames; then the current frame is cleared |
| `Utcb.Page.Pop` | nre/include/utcb/UtcbCopy.h:170-182 | above layer 1 the current frame is the one that was on top of the stack, head, untyped words and typed items alike |
| `Utcb.Page.Reset` | nre/include/utcb/UtcbBase.h:57-61 | the current frame is cleared, with both windows and the item counts 0; saved frames are untouched |
| `Utcb.Page.Clear` | nre/include/utcb/UtcbFrame.h:165-167 | no items in the current frame, saved frames are untouched |
| `Utcb.Page.PutUntyped` | nre/include/utcb/UtcbFrame.h:432-439 | succeeds exactly if head, old words and new words fit below the saved untyped parts; then appends the words and touches nothing else |
| `Utcb.Page.AddTyped` | nre/include/utcb/UtcbFrame.h:477-484 | succeeds exactly if two more words fit above the saved typed parts; then adds the item below the existing ones and touches nothing else |
| `Utcb.Page.GetTyped` | nre/include/utcb/UtcbFrame.h:416-421 | succeeds exactly if the item exists and returns the item added at this position |
| `Utcb.Page.ReadUntyped` | nre/include/utcb/UtcbFrame.h:459-465 | succeeds exactly if the words exist and returns the words written at this position |
| `Utcb.Page.Execute` | nre/include/utcb/UtcbFrame.h:432-512 | any well-nested program of writes, reads, frames and references sees, leaves and reads the same as on a list of frames, from layer 0 on: every stored flag, every word and item read in every inner frame, the current frame and the frames below |
| `Utcb.Page.ExecuteRef` | nre/include/utcb/UtcbFrame.h:153-160 | a frame reference works on the current frame with read positions of its own, and what it saw is what it sees on a list of frames |
| `Utcb.Page.ExecuteNested` | nre/include/utcb/UtcbFrame.h:499-513 | an inner frame starts cleared and sees what it sees on a list of frames; the outer frame is restored bit for bit when it ends |
| `Utcb.WordsAreQueued` | nre/include/utcb/UtcbFrame.h:432-466 | words that were stored are read back behind the older ones, which stay where they are |
| `Utcb.ItemsAreQueued` | nre/include/utcb/UtcbFrame.h:413-419 | a typed item that was added is read back after the older ones, which are read as before |
| `Utcb.NestedOpensExactly` | nre/include/utcb/UtcbCopy.h:148-166 | a nested frame is opened exactly if a layer is left and, above layer 0, the outer frame can be copied without overlap |
| `Regions.MergedIsCanonical` | nre/include/region/RegionManager.h:167-194 | maximally merged region lists with the same free units are the same set of regions |
| `Regions.OverlappedIsSharing` | nre/include/util/Math.h:104-111 | the three-way test holds exactly if two non-empty ranges share a unit |
| `Regions.FreeRangeInOneRegion` | nre/include/region/RegionManager.h:103-122 | in a merged list a range that overlaps a region is wholly free exactly if it lies in this one region |
| `Regions.CutOutRegions` | nre/include/region/RegionManager.h:216-241 | cutting any overlapping range out of a region makes exactly the units they share not free and keeps the list merged |
| `Regions.FreeRegions` | nre/include/region/RegionManager.h:167-194 | putting a range back, with the neighbours it touches, makes exactly its units free and keeps the list merged |
| `Regions.RoundUpIs` | nre/include/region/RegionManager.h:140 | the mask rounds up to the next multiple of a power of two, and to 0 past the last one |
| `Regions.CarveTakes` | nre/include/region/RegionManager.h:133-158 | carving an aligned range out of a region takes exactly this range if the alignment gap is within the region |
| `Regions.CarveCorrupts` | nre/include/region/RegionManager.h:201-210 | if the gap is larger than the region, a unit next to it that was not free becomes free, also when rounding up wraps |
| `Regions.AllocExactly` | nre/include/region/RegionManager.h:133-158 | the carved list is the old one less the range exactly if the gap is within the region |
| `Regions.AllocCanCorrupt` | nre/include/region/RegionManager.h:201-210 | a concrete region, count and alignment that pass the test with a gap larger than the region |
| `Regions.AllocFreeRestores` | nre/include/region/RegionManager.h:133-194 | freeing what was allocated restores the identical set of regions and the total |
| `Regions.RegionManager.TotalCount` | nre/include/region/RegionManager.h:87-92 | the sum of all region sizes |
| `Regions.RegionManager.AllocAt` | nre/include/region/RegionManager.h:103-122 | strict: takes exactly the range and returns its count if and only if all of it was free, returns 0 if and only if none was, refuses otherwise; nothing changes in the last two cases; the list keeps its order and the right half of a split region comes last |
| `Regions.RegionManager.Free` | nre/include/region/RegionManager.h:167-194 | exactly the range becomes free, the list stays merged and keeps its order, and a new region comes last |
| `Regions.FirstSuitable` | nre/include/region/RegionManager.h:201-210 | the first region that passes the test with its unsigned subtraction, none if no region passes |
| `Regions.RegionManager.Get` | nre/include/region/RegionManager.h:201-210 | the loop finds the first region that passes the test |
| `Regions.RegionManager.Alloc` | nre/include/region/RegionManager.h:133-158 | served by the first region that passes the test; the returned start is aligned; exactly the range is taken, and was wholly free, if and only if the gap of that region is within it; without a region nothing changes and none could have held the range; the list keeps its order and a left gap comes last |
| `Ring.ProduceExactly` | nre/include/ipc/Producer.h:64-69 | in every reachable state produce() finds a slot exactly if fewer than max - 1 items are outstanding |
| `Ring.GetExactly` | nre/include/ipc/Consumer.h:106-119 | in every reachable state the test of get() finds an item exactly if one is outstanding, and it is the oldest one |
| `Ring.InvStep` | nre/include/ipc/Producer.h:64-100 | every step of producer, consumer and semaphore keeps the ring invariant |
| `Ring.RingIsFifo` | nre/include/ipc/Producer.h:64-100 | in every reachable state the released items are the first values that produce() accepted, one for each next(); at most max - 1 are outstanding and no access leaves the buffer |
| `Ring.NoWriteToHeldSlot` | nre/include/ipc/Producer.h:64-84 | the producer never writes the slot that the consumer got and has not released |
| `Ring.NoLostWakeup` | nre/include/ipc/Consumer.h:79-119 | when the consumer blocks or is about to while data is there, the semaphore is up or the producer still owes an up; the same for a stop request |
| `Ring.NothingIsStranded` | nre/include/ipc/Consumer.h:106-127 | from every reachable state the consumer can still take everything that was produced |
| `Ring.IdleConsumerBlocks` | nre/include/ipc/Consumer.h:106-119 | an idle consumer tests the ring at most twice before it blocks, however many signals have piled up |
| `Ring.OneSlotRingStrays` | nre/include/ipc/Producer.h:42-50 | a ring created for one packet has a run that writes outside its buffer |
| `Ring.RingStraysExactly` | nre/include/ipc/Producer.h:42-50 | a ring has a run that leaves its buffer exactly if it was created for one packet |
| `Ring.EmptyRingAccepts` | nre/include/ipc/Producer.h:64-69 | an empty ring accepts a packet exactly if it was not created for none or for three |
| `Ring.NullExactly` | nre/include/ipc/Consumer.h:106-119 | get() returns null exactly if it finds a stop request after an empty test, and the ring is then still empty exactly if the producer did not advance in between |
| `Ring.GetMissesExactly` | nre/include/ipc/Consumer.h:97-119 | a ring has a run in which get() returns null although there is data exactly if it was not created for none or three packets |
| `UserSm.InvStep` | nre/include/kobj/UserSm.h:41-53 | every step of any number of threads keeps the semaphore invariant |
| `UserSm.PermitsConserved` | nre/include/kobj/UserSm.h:34-53 | holders + kernel value + owed ups = min(initial, holders + waiters), hence at most the initial number of holders |
| `UserSm.NoStrandedWaiter` | nre/include/kobj/UserSm.h:34-53 | a thread blocked while a permit is unused is owed an up by some thread |
| `UserSm.ValueFollowsRun` | nre/include/kobj/UserSm.h:41-53 | the value is the initial one less the downs plus the ups |
| `UserSm.DownExactly` | nre/include/kobj/UserSm.h:41-44 | down() returns at once exactly if holders and waiters are fewer than the permits |
| `UserSm.UpExactly` | nre/include/kobj/UserSm.h:50-53 | up() leaves one holder less, and owes a kernel up exactly if holders and waiters are more than the permits |
| `UserSm.AllFreeRestores` | nre/include/kobj/UserSm.h:34-53 | when all threads are out, value and kernel semaphore are as at the start |
| `UserSm.WaiterCanHoldExactly` | nre/include/kobj/UserSm.h:41-53 | from every reachable state a waiting or blocked thread can still get the lock exactly if there are permits |
| `UserSm.ReleasesEnd` | nre/include/kobj/UserSm.h:41-53 | without new downs every run ends after a bounded number of steps |
| `UserSm.NoDeadlock` | nre/include/kobj/UserSm.h:34-53 | from every reachable state all threads can get out without new downs exactly if there are permits or nobody is inside, and until then some thread has a step to take |
| `TimeoutList.Unlink` | nre/include/util/TimeoutList.h:97-99 | the assignments of cancel take one entry out of the ring and keep it a circular doubly linked list |
| `TimeoutList.Link` | nre/include/util/TimeoutList.h:119-123 | the assignments of request put one entry in and keep it a circular doubly linked list |
| `TimeoutList.CutOk` | nre/include/util/TimeoutList.h:91-101 | taking an entry out keeps the list sorted and every other timer |
| `TimeoutList.PutOk` | nre/include/util/TimeoutList.h:112-123 | putting an entry in front of the first one that is not earlier keeps the list sorted and every other timer |
| `TimeoutList.HeadIsEarliest` | nre/include/util/TimeoutList.h:140-143 | the entry behind entry 0 is an earliest timer, and entry 0 itself exactly if none is pending |
| `TimeoutList.TimeoutList.constructor` | nre/include/util/TimeoutList.h:48-56 | nothing pending, all entries unreserved and linked to themselves |
| `TimeoutList.TimeoutList.Alloc` | nre/include/util/TimeoutList.h:61-70 | reserves the lowest unreserved entry from 1 on, fails exactly if there is none, and leaves all timers alone |
| `TimeoutList.TimeoutList.Dealloc` | nre/include/util/TimeoutList.h:75-86 | fails exactly if the entry was not reserved; the timer is removed only on demand |
| `TimeoutList.TimeoutList.Cancel` | nre/include/util/TimeoutList.h:91-101 | the pending timers less this one, in unchanged order; true exactly if it was pending and not the first |
| `TimeoutList.TimeoutList.Request` | nre/include/util/TimeoutList.h:106-125 | the map of pending timers with this one set; the others keep their order and only strictly earlier timers are in front of it; true exactly if the earliest timeout is unchanged |
| `TimeoutList.TimeoutList.FindPlace` | nre/include/util/TimeoutList.h:113-117 | the search ends at the first entry that is not earlier than the new timeout, at entry 0 at the latest |
| `TimeoutList.TimeoutList.Trigger` | nre/include/util/TimeoutList.h:130-138 | an earliest due timer, 0 exactly if none is due |
| `TimeoutList.TimeoutList.Timeout` | nre/include/util/TimeoutList.h:140-143 | the smallest pending timeout, all ones if there is none |
| `TimeoutList.OutcomeDue` | nre/apps/vancouver/Timeouts.cc:46-52 | what is due after some firings is what was due, less what fired and less what handlers set or cancelled |
| `TimeoutList.DrainStep` | nre/apps/vancouver/Timeouts.cc:48-52 | one round fires a timer that was due from the start, never earlier than the last one, and strictly shrinks what is due |
| `TimeoutList.Drain` | nre/apps/vancouver/Timeouts.cc:46-53 | the loop ends with nothing due; only due timers fired, each once, with its own timeout and in order of time; a due timer did not fire only if a handler set or cancelled it, and none fired that a handler had set or cancelled before its turn; each timer ends up as the last message about it says |
| `Date.YearsClosed` | nre/include/util/Date.h:54-56 | days counted year by year equal 365 a year plus the years divisible by 4, less those by 100, plus those by 400 |
| `Date.MonthsClosed` | nre/include/util/Date.h:54 | days counted month by month equal the scaled-month formula with its March correction |
| `Date.IntDaysCount` | nre/include/util/Date.h:54-56 | the day formula counts the days since 1970 on the calendar |
| `Date.MkTimeCounts` | nre/include/util/Date.h:52-58 | mktime is the number of seconds since 1970 modulo 2^64 for every valid date from year 1 on that the int arithmetic can hold |
| `Date.MkTimeInverts` | nre/include/util/Date.h:52-58 | mktime of a date with the seconds of gmtime gives these seconds back |
| `Date.SplitYears` | nre/include/util/Date.h:70-84 | the divisions with their corrections split a day number uniquely into years of 400, 100, 4 and 1 and a day |
| `Date.YearParts` | nre/include/util/Date.h:70-87 | these parts are the calendar year and a day that exists in it |
| `Date.MonthEstimate` | nre/include/util/Date.h:94-100 | the estimate by 31 is at most one month too low |
| `Date.MonthOf` | nre/include/util/Date.h:90-102 | the month and day of the calendar for every day of the year |
| `Date.SecondIsUnique` | nre/include/util/Date.h:60-103 | two valid dates with the same seconds are the same |
| `Date.GmTime` | nre/include/util/Date.h:60-103 | a valid date with exactly these seconds, the right weekday and day of year; mktime gives the seconds back; and any valid date whose mktime is the input is this date |
| `MulDiv.SmallFactors` | nre/include/util/Math.h:68-77 | nothing is lost when factor plus divisor is at most 2^32 |
| `MulDiv.Lossy` | nre/include/util/Math.h:64-77 | values with a fitting quotient for which something is lost |
| `MulDiv.MulDiv128` | nre/include/util/Math.h:68-77 | for all 64-bit inputs with a quotient that fits, the result is the floor of value * factor / divisor exactly if nothing was lost |
| `MulDiv.RoundTrip` | nre/include/util/Clock.h:72-88 | converting ticks to a clock that is not slower and back loses at most one tick, and none exactly if the conversion had no remainder |
| `MulDiv.Clock.SourceTime` | nre/include/util/Clock.h:72-74 | now plus the converted delta, modulo 2^64 |
| `MulDiv.Clock.TimeOf` | nre/include/util/Clock.h:111-113 | the converted time; of a converted tick count it is that count or one less |
| `MulDiv.Clock.DestTimeOf` | nre/include/util/Clock.h:86-88 | the converted time in the clock's own frequency |
| `Dma.PlanIsSlice` | nre/include/util/DMA.h:148-170 | a call copies a prefix of the asked-for slice of the concatenated descriptors, and all of it if they lie in the dataspace |
| `Dma.ReadBack` | nre/include/util/DMA.h:130-145 | what was written to disjoint descriptors is read back |
| `Dma.DescList.constructor` | nre/include/util/DMA.h:64-65 | an empty list |
| `Dma.DescList.Push` | nre/include/util/DMA.h:99-103 | the descriptor is appended |
| `Dma.DescList.Pop` | nre/include/util/DMA.h:107-111 | the last descriptor is removed |
| `Dma.DescList.Clear` | nre/include/util/DMA.h:116-118 | the list is empty |
| `Dma.DescList.ByteCount` | nre/include/util/DMA.h:89-91 | the length of the stream modulo 2^32, however it was built |
| `Dma.DescList.InOut` | nre/include/util/DMA.h:148-170 | copies along the planned addresses in either direction and changes nothing else; true exactly if bytes are left over |
| `Dma.DescList.In` | nre/include/util/DMA.h:130-132 | yields exactly bytes offset..offset+len of the stream, true exactly if the stream is too short |
| `Dma.DescList.Out` | nre/include/util/DMA.h:143-145 | writes exactly bytes offset..offset+len of the stream, true exactly if the stream is too short |
| `Dma.TransferPIO` | nre/services/storage/HostATADevice.cc:79-109 | without an error the sector loop equals one whole transfer of the stream in either direction; with descriptors in the dataspace there is no error exactly if the length is a multiple of the sector size |
| `QuickSort.Partition` | nre/include/collection/QuickSort.h:53-65 | permutes the range so that what is not behind the pivot comes first, then the pivot, then the rest |
| `QuickSort.SortRange` | nre/include/collection/QuickSort.h:45-51 | the range is a sorted permutation of itself and nothing else moves |
| `QuickSort.Sort` | nre/include/collection/QuickSort.h:39-42 | the first count elements are a sorted permutation, for every total preorder |
| `Topology.OrderIsByPlace` | nre/include/util/Topology.h:89-93 | comparing the packed numbers is comparing package, core and thread in this order |
| `Topology.PartsAreBalanced` | nre/include/util/Topology.h:73-81 | parts are non-empty, sizes differ by at most one, and together they are all CPUs |
| `Topology.PartIsUnique` | nre/include/util/Topology.h:73-85 | no position is in two parts |
| `Topology.PartExists` | nre/include/util/Topology.h:73-85 | every position is in a part |
| `Topology.HandOut` | nre/include/util/Topology.h:73-85 | part i is led by its first CPU and every CPU by the leader of its part; other entries are untouched |
| `Topology.Divide` | nre/include/util/Topology.h:55-86 | the CPUs are sorted by place; parts are stretches of neighbours; every CPU is led by the first CPU of its own part and every leader by itself; other entries are untouched |

## Left out

- Weak memory: `Sync::memory_barrier` orders only the compiler (nre/include/util/Sync.h:30-32); all concurrent models assume sequential consistency.
- RCU: removal of threads, and registration while a scan runs, are not modelled; threads are only added between writer operations, callers unpublish before `invalidate`, and nesting stays below 2^16.
- `translate` and `CapRange::revoke`: the loop of `delegate` without a hotspot; they would only add easy members.
- MapMem.MapMemory: the portal call is `portal_map` in a message without saved frames; a reply that does not fit ends the model's run, and so does a round that asks for no page.
- Treaps.Treap.Insert: nodes are slots of an array and links are slot numbers instead of heap pointers; keys are distinct and there are fewer than 2^32 inserts.
- DataSpaces.DataSpaceManager.Create: constructors of dataspaces that throw, and `swap`, are not modelled; unmap selectors are distinct.
- Utcb.Page.Push: has no room check of its own in the source, so the room is a precondition here, and programs skip a frame without room; the String operators and the stacking variant of the UTCB are not modelled.
- Regions.RegionManager.AllocAt: only the strict mode; the non-strict mode restarts in a way that skips the head of the list. The self-hosting pool of `MemRegion` is not modelled.
- Ring.RingIsFifo: semaphores that are revoked while a thread waits (the exception paths of producer and consumer) are not modelled.
- UserSm.PermitsConserved: the kernel semaphore is a counter with atomic up and down.
- TimeoutList.Drain: handlers are a function from the timers fired so far to timers set or cancelled, none of them already due (with one that is due again the loop need not end); the lock, the data pointers of entries, allocation by handlers and the reprogramming of the hardware timer afterwards are not modelled.
- Date.GmTime: says nothing about days from year 2^31 on, whose year does not fit an int; the daylight-saving field is not modelled.
- Dma.DescList.InOut: descriptors that wrap around the address space are excluded by a precondition.
- Dma.TransferPIO: waiting for the device and its status errors are not modelled; the sector size is even and not 0, and the device delivers enough bytes.
- QuickSort.Partition: the pivot position is not truncated to an int.
- Topology.Divide: at least one CPU and one part, since the source divides by their number; CPU ids are distinct.
- System calls, portals, devices, the console, services and guests are not part of this model.
