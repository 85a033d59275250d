# Munux: a verified model of the kernel's hard parts

This project models, in Dafny, the parts of Munux OS and Munux z/OS that keep state over unbounded
runs, and proves that each behaves like the simple object it stands for.

| file | what it models |
|---|---|
| `Words.dfy` | 32-bit words: bitwise operators, masks as remainders, rounding by masking |
| `Pmm.dfy` | the frame allocator: a bitmap that stands for a set of frames |
| `Vmm.dfy` | the two-level page tables, and the flat page map they stand for |
| `HeapPages.dfy` | the C side of the heap: pages mapped one by one, growth, the two limits |
| `BlockList.dfy`, `HeapRuns.dfy` | the heap's block list as a value, and what every legal run keeps |
| `HeapMemory.dfy`, `Heap.dfy` | the heap in place: headers in the memory they manage, the aligned layer |
| `Boot.dfy` | frames, paging, heap pages and allocator brought up in order |
| `IrqLock.dfy` | the interrupt-masking mutex as a machine of single steps, over interrupts and threads |
| `Scheduler.dfy` | the four rings, rotation, quantum accounting |
| `Jes.dfy` | the batch dispatcher, its job states and its address-space pool |
| `BufferCache.dfy`, `Ext2.dfy` | the sector cache, and the ext2 reader on top of it |
| `Ext2Layout.dfy`, `Utf8.dfy` | an image as its maker lays it out, with reading as the inverse; which names are kept |
| `Vfs.dfy` | the path-keyed tree and the descriptor table |
| `Conv.dfy`, `Printf.dfy` | number conversion and the bounded formatter (section 7.19.6.5 of ISO/IEC 9899:1999) |

Code that updates things in place is a class, or a method on an array, whose contract ties the new
state to a function of the old one; the functions carry the laws. `dafny verify dfyconfig.toml`
checks everything.

## What the proofs found

Where a promise of the source, or of its comments, does not hold of the code, the model keeps the
code and states exactly when the promise holds.

- Growing the heap makes one live block of the requested size, and the rounding to a page is lost for
  good; `docs/MEMORY.md` describes a free block that coalesces. `NothingLiveIsOneBlock` gives the exact
  size after everything is freed.
- `kmalloc` halts the kernel instead of returning null for sizes above 0xFFFFFFF0: the workspace
  compiles with overflow checks (`AllocatePanicsIff`).
- The frame scan can hand out a padding bit of the last bitmap word as a frame that does not exist
  (`PaddingFrameHandedOut`). With at least the 512 reserved frames, and while all frames handed out
  exist, the next one does exactly when the used counter is below the total, and they all go on to
  exist exactly when it is, or when the total is a multiple of 32 (`AllocFrame`).
- Running out of frames while mapping the heap silently puts pages or tables in frame 0 or past the end
  of memory. The heap stays backed by existing frames of its own exactly when the frames the mapping
  takes are no more than the total less the used counter (`MapHeapRange`, `Grow`, `Allocate`,
  `AllocateAligned`). On 32 MiB, the size assumed when none is reported, a request for 64 MiB is granted
  and the heap is then not backed (`OutgrowMemory`).
- Dropping guards out of order unmasks interrupts under a held lock in exactly one case
  (`OutOfOrderDropUnmasksIff`); two nested locks from boot lead to it (`OutOfOrderDropReached`).
- A process added to the ring of the running process is lost at the next reschedule
  (`NewcomerSurvivesIff`, and `LoseNewcomer` from the first start), and removing a process empties a
  ring of one other process (`RemoveIsExactIff`).
- A process that keeps the CPU through a reschedule is marked ready while it runs (`StatesAfterSchedule`).
- An aligned request asks for 4 bytes more than it can ever need (`AlignedLeavesFour`).
- Job numbers wrap at 2^32, so ties run in order of submission but not always of number: they do
  exactly when no two waiting jobs of one priority were submitted on either side of the wrap
  (`TiesRiseIff`, `TieAgainstNumber`). One submission in 2^32 returns 0 although it was queued (`Submit`).
- The cache bound of 256 sectors is enforced on reads only (`BoundedIff`, `WritesPassTheBound`), and the
  cache's boot check fails when sector 2 is already cached (`Selftest`).
- A sector write reaches the disk outside the cache's lock. Overlapping writers of one sector can leave
  the cached block different from the disk for good (`OvertakenWriter`, `StaleUntilWritten`); when they are
  done the two agree exactly when the sector was fetched since the last store, or the block stored last
  is the one sent last (`SettledIff`), and always when writers do not overlap (`OneAtATimeStaysInStep`).
- An ext2 block-size shift from 22 to 31 is read as block size 0 (`BlockSizeUsableIff`).
- Listing the root names a file twice when it exists both as `/x` and as `//x` (`ListRepeatsIff`).
- `atoi(itoa(v, 10))` is `v` for every int but the least (`RoundTripIff`).

## Model

| member | source | states |
|---|---|---|
| Words.AlignUpRounds | munux-os/kernel/rust/munux-rs/src/heap.rs:253-255 | the mask form gives the least multiple of a power of two not below the value |
| Words.WordMask | munux-os/kernel/rust/munux-rs/src/heap.rs:74 | rounding a request by mask is rounding it up to words |
| Words.PageMask | munux-os/kernel/memory/heap.c:23 | the page mask rounds down to a page |
| Words.PowerOfTwoIff | munux-os/kernel/rust/munux-rs/src/heap.rs:123 | the test of an alignment accepts the powers of two and nothing else |
| Pmm.FrameAllocator.Init | munux-os/kernel/memory/pmm.c:58-81 | word-wise initialisation marks exactly the reserved frames, for any memory size |
| Pmm.FrameAllocator.FindFreeFrame | munux-os/kernel/memory/pmm.c:42-56 | the nested scan finds the lowest clear bit, or reports none |
| Pmm.FrameAllocator.AllocFrame | munux-os/kernel/memory/pmm.c:83-91 | hands out the lowest clear bit, neither reserved nor outstanding, and marks it alone; 0 when none is left. Over frames that all exist, at least the 512 reserved ones, the next exists iff the used counter is below the total, and all go on to exist iff it is or the total is a multiple of 32 |
| Pmm.FrameAllocator.FreeFrame | munux-os/kernel/memory/pmm.c:93-98 | returns one outstanding frame, clears its bit alone and keeps the count |
| Pmm.SetFrameUses | munux-os/kernel/memory/pmm.c:33-35 | marking sets one bit of the bitmap and no other |
| Pmm.ClearFrameFrees | munux-os/kernel/memory/pmm.c:37-39 | unmarking clears one bit and no other |
| Pmm.FreeUndoesAlloc | munux-os/kernel/memory/pmm.c:83-98 | freeing a frame just handed out restores every word of the bitmap |
| Pmm.UsedFramesCountsBits | munux-os/kernel/memory/pmm.c:80-97 | in every valid state the counter is the number of set bits |
| Pmm.HasFreeIff | munux-os/kernel/memory/pmm.c:83-91 | a frame is free iff the reserved ones and the existing ones handed out are not all there are |
| Pmm.CountersTellFree | munux-os/kernel/memory/pmm.c:100-106 | while only existing frames are out, total minus used is the number of free frames |
| Pmm.PaddingClearIff | munux-os/kernel/memory/pmm.c:29-56 | while only existing frames are out, a bit is clear iff a frame is free or the last word has padding |
| Pmm.PaddingFrameHandedOut | munux-os/kernel/memory/pmm.c:29-91 | with memory of 513 frames the second frame handed out is number 513, which does not exist |
| Pmm.FreeMemoryCounts | munux-os/kernel/memory/pmm.c:104-106 | total minus used counts the free frames iff no padding bit is out |
| Pmm.FrameAllocator.GetFreeMemory | munux-os/kernel/memory/pmm.c:104-106 | the bytes in clear frames while only real frames are out |
| Vmm.TableAdded | munux-os/kernel/memory/vmm.c:61-70 | hanging a fresh zeroed table changes no page of the flat map |
| Vmm.SlotWritten | munux-os/kernel/memory/vmm.c:73-74 | writing a table slot changes exactly one page of the flat map, because tables are distinct frames |
| Vmm.PageEntryFacts | munux-os/kernel/memory/vmm.c:74 | the masked and or-ed page entry is the frame base plus the flags |
| Vmm.TableEntryFacts | munux-os/kernel/memory/vmm.c:63 | the or-ed directory entry names the table's frame and is present and writable |
| Vmm.AddressSpace.EnsureTable | munux-os/kernel/memory/vmm.c:60-70 | a missing table gets a fresh existing frame of its own and no mapping changes; without free frames it falls to frame 0 or past the end of memory |
| Vmm.AddressSpace.MapPage | munux-os/kernel/memory/vmm.c:56-75 | changes exactly one page of the flat map, takes at most one frame, keeps all tables distinct and in memory that exists, and writes to no frame that holds data |
| Vmm.AddressSpace.UnmapPage | munux-os/kernel/memory/vmm.c:78-89 | clears exactly one page of the flat map |
| Vmm.AddressSpace.GetPhysicalAddress | munux-os/kernel/memory/vmm.c:92-107 | frame base plus offset for a present page, 0 otherwise |
| Vmm.AddressSpace.Init | munux-os/kernel/memory/vmm.c:37-53 | with three frames to spare by the kernel's counters, exactly the first 8 MiB are identity-mapped, through tables in memory that exists |
| Vmm.IdentityTranslates | munux-os/kernel/memory/vmm.c:44-47 | after initialisation every address below 8 MiB translates to itself |
| HeapPages.HeapMapper.MapHeapRange | munux-os/kernel/memory/heap.c:29-34 | every page gets an existing frame of its own, apart from all tables, iff the frames it takes are at most total minus used; then the heap so far keeps its content; otherwise the last page or its table is off memory |
| HeapPages.HeapMapper.InitPages | munux-os/kernel/memory/heap.c:62-66 | the initial range is backed by existing frames iff total minus used covers it |
| HeapPages.HeapMapper.Grow | munux-os/kernel/memory/heap.c:75-86 | the page-rounded new end or 0 past the limit, with wrap-around; the heap stays backed by existing frames iff total minus used covers the growth, and keeps its content |
| HeapPages.NextEndCoversIff | munux-os/kernel/memory/heap.c:76-77 | the new end covers the request iff neither rounding nor adding wraps |
| HeapPages.LimitsAgree | munux-os/kernel/memory/heap.c:76-81 | the C limit never rejects a growth the Rust limit admits, and both sides compute the same end |
| HeapPages.HeapBytesAreDistinct | munux-os/kernel/memory/heap.c:29-34 | distinct heap addresses are distinct bytes of memory that exists, none in the directory, a table or a reserved frame |
| HeapPages.WordWritten | munux-os/kernel/memory/heap.c:29-34 | writing one word of a backed heap in RAM changes that heap word and no other, and moves no page |
| HeapPages.StoreWord | munux-os/kernel/memory/vmm.c:92-107 | a store through the page tables is a store in the heap's word map |
| HeapPages.LoadWord | munux-os/kernel/memory/vmm.c:92-107 | a load through the page tables gives the word of the map |
| HeapPages.ReflectsKept | munux-os/kernel/memory/heap.c:75-86 | growing keeps RAM and the map in agreement below the old end |
| HeapPages.ReflectsTaken | munux-os/kernel/memory/heap.c:62-86 | and up to the new end, once the map takes the new words from RAM; at boot, all words |
| HeapRuns.StepGood | munux-os/kernel/rust/munux-rs/src/heap.rs:70-113 | every legal step keeps order, word sizes, complete coalescing, bounds and the footprint equation |
| HeapRuns.Run | munux-os/kernel/rust/munux-rs/src/heap.rs:70-251 | so does every legal run |
| HeapRuns.LiveDisjoint | munux-os/kernel/rust/munux-rs/src/heap.rs:70-113 | blocks, with their headers, never overlap |
| HeapRuns.AllocatePanicsIff | munux-os/kernel/rust/munux-rs/src/heap.rs:70-92 | a request halts the kernel iff its size is above 0xFFFFFFF0, and then changed nothing |
| HeapRuns.AllocateNullIff | munux-os/kernel/rust/munux-rs/src/heap.rs:70-92 | null iff the size is 0, or no free block fits and growing passes the limit |
| HeapRuns.AllocateGrants | munux-os/kernel/rust/munux-rs/src/heap.rs:70-92 | a granted request makes one new block live, the lowest free block that fits, or at the old end |
| HeapRuns.AllocateTakes | munux-os/kernel/rust/munux-rs/src/heap.rs:70-92 | of the lowest free block that is large enough a request takes its size in words, and leaves the rest behind a 12-byte header as a free block if more than 28 bytes are over, else the whole block; nothing else changes |
| HeapRuns.AllocateGrows | munux-os/kernel/rust/munux-rs/src/heap.rs:168-192 | when none is large enough the heap grows by as few pages as hold the request and its header, or the answer is null past the limit |
| HeapRuns.TwoRequests | munux-os/kernel/rust/munux-rs/src/heap.rs:195-213 | in a fresh heap the second request lies a header behind the first one's own words |
| HeapRuns.DeallocateGood | munux-os/kernel/rust/munux-rs/src/heap.rs:98-113 | freeing makes exactly that block dead and keeps the list good |
| HeapRuns.CarveReleaseRestores | munux-os/kernel/rust/munux-rs/src/heap.rs:195-250 | freeing a block just carved restores the identical list, split or not |
| HeapRuns.AllocateDeallocateIdentity | munux-os/kernel/rust/munux-rs/src/heap.rs:70-113 | allocate then free is the identity on the heap when the list served the request |
| HeapRuns.NothingLiveIsOneBlock | munux-os/kernel/rust/munux-rs/src/heap.rs:98-113 | with nothing live there is one free block, of all but the growth slack |
| HeapRuns.RunThenNothingLive | munux-os/kernel/rust/munux-rs/src/heap.rs:50-113 | after any legal run that ends with nothing live; the very initial heap when it never grew |
| HeapRuns.FreeAllInAnyOrder | munux-os/kernel/rust/munux-rs/src/heap.rs:98-113 | freeing all live blocks in any order is legal and leaves nothing live |
| HeapRuns.RoundingStaysWithinLimit | munux-os/kernel/rust/munux-rs/src/heap.rs:168-177 | when the unrounded growth is admitted the rounded one is too |
| BlockList.CarveKeeps | munux-os/kernel/rust/munux-rs/src/heap.rs:195-213 | splitting keeps order, word sizes, coalescing and the footprint |
| BlockList.ReleaseKeeps | munux-os/kernel/rust/munux-rs/src/heap.rs:107-112 | freeing with two-sided merging keeps them as well |
| BlockList.ReleaseCoalesced | munux-os/kernel/rust/munux-rs/src/heap.rs:107-112 | after a release no two neighbours are both free |
| HeapMemory.SplitHeaders | munux-os/kernel/rust/munux-rs/src/heap.rs:204-212 | the five header writes of a split lay out the split list |
| HeapMemory.MergeHeaders | munux-os/kernel/rust/munux-rs/src/heap.rs:248-249 | the two header writes of a merge lay out the merged list |
| HeapMemory.AppendHeaders | munux-os/kernel/rust/munux-rs/src/heap.rs:185-190 | the writes of a growth append a live block |
| HeapMemory.PayloadsUntouched | munux-os/kernel/rust/munux-rs/src/heap.rs:195-250 | writes inside a free block or a header reach no live payload |
| Heap.Heap.constructor | munux-os/kernel/rust/munux-rs/src/heap.rs:50-68 | one free block over the whole region, in step with the C side |
| Heap.Heap.SplitIfWorthwhile | munux-os/kernel/rust/munux-rs/src/heap.rs:195-213 | the header writes realise the split and change no live payload |
| Heap.Heap.MergeWithNextIfFree | munux-os/kernel/rust/munux-rs/src/heap.rs:237-250 | the header writes realise the merge and change no live payload |
| Heap.Heap.FindPredecessor | munux-os/kernel/rust/munux-rs/src/heap.rs:218-233 | the walk finds the block before the target; none for the head |
| Heap.Heap.FindFit | munux-os/kernel/rust/munux-rs/src/heap.rs:75-91 | the walk stops at the lowest free block that fits, or at the tail |
| Heap.Heap.GrowAndAttach | munux-os/kernel/rust/munux-rs/src/heap.rs:168-192 | appends a live block at the old end; both sides keep the same end; null iff past the limit; the heap stays backed iff the free frames cover the growth |
| Heap.Heap.Allocate | munux-os/kernel/rust/munux-rs/src/heap.rs:70-92 | realises the list's allocation, books one new grant, changes no word of any caller's bytes; the heap stays backed iff it did not grow or the free frames cover it |
| Heap.Heap.Deallocate | munux-os/kernel/rust/munux-rs/src/heap.rs:98-113 | realises the list's release, and changes no word of any other caller's bytes |
| Heap.Heap.AllocateAligned | munux-os/kernel/rust/munux-rs/src/heap.rs:122-147 | the result is aligned, its bytes lie in a new block that keeps the base in the word before; null for zero, no power of two or overflow; backing goes as for the larger allocation |
| Heap.Heap.DeallocateAligned | munux-os/kernel/rust/munux-rs/src/heap.rs:152-161 | the word before the pointer still holds the base after any interleaving, and the result is the list's release of that base |
| Heap.Heap.CallerWrites | munux-os/kernel/rust/munux-rs/src/heap.rs:94-96 | a caller writing its own bytes keeps the heap and all other callers' bytes |
| Heap.GrantsDisjoint | munux-os/kernel/rust/munux-rs/src/heap.rs:70-147 | no two callers, plain or aligned, share a byte, and all lie inside the heap |
| Heap.StashKeeps | munux-os/kernel/rust/munux-rs/src/heap.rs:138-146 | writing the back-pointer harms no other caller and makes the aligned pointer a good one |
| Heap.AlignedSpot | munux-os/kernel/rust/munux-rs/src/heap.rs:136-138 | the aligned address leaves room for the back-pointer and wastes less than the alignment |
| Heap.AlignedLeavesFour | munux-os/kernel/rust/munux-rs/src/heap.rs:122-138 | what is asked for an aligned request always leaves at least 4 bytes of the block over, and exactly 4 where the payload is itself aligned |
| Boot.BootMemory | munux-os/kernel/memory/heap.c:62-71 | with memory for 515 frames the boot ends in an empty heap; it is fully backed by existing frames iff there is memory for 772 |
| Boot.OutgrowMemory | munux-os/kernel/memory/heap.c:75-86 | booted on 32 MiB, a request for 64 MiB is granted, and the heap is then not backed |
| Boot.FramesAtLeastPages | munux-os/kernel/memory/heap.c:29-34 | mapping n pages takes at least n frames |
| Boot.OneSlotCost | munux-os/kernel/memory/heap.c:29-34 | mapping pages under one missing table costs one frame each and one for the table |
| IrqLock.StepKeepsInv | munux-os/kernel/rust/munux-rs/src/sync.rs:72-109 | the invariant of the step machine survives every step, interrupts and thread switches included |
| IrqLock.HeldMeansMasked | munux-os/kernel/rust/munux-rs/src/sync.rs:9-11 | in every reachable state a held lock implies interrupts off |
| IrqLock.AcquireNeverSpins | munux-os/kernel/rust/munux-rs/src/sync.rs:35-43 | in every reachable state the compare-and-exchange succeeds at once |
| IrqLock.OneGuardPerMutex | munux-os/kernel/rust/munux-rs/src/sync.rs:72-84 | at most one guard per mutex over all contexts of all threads, and one iff the lock word is set |
| IrqLock.DropsRestoreFlag | munux-os/kernel/rust/munux-rs/src/sync.rs:102-109 | once a context holds nothing again the flag is what it was before the first lock, whatever interrupts and threads ran in between |
| IrqLock.LockTakes | munux-os/kernel/rust/munux-rs/src/sync.rs:72-79 | the steps of lock turn interrupts off, set the lock word and keep the flag there was in the guard |
| IrqLock.LockThenDrop | munux-os/kernel/rust/munux-rs/src/sync.rs:72-109 | dropping the guard just taken leads back to the very state before the lock |
| IrqLock.ReturnsWhereItWas | munux-os/kernel/rust/munux-rs/src/sync.rs:4-11 | an interrupt whose handler returns, and a thread that gets the CPU back, find everything as it was |
| IrqLock.SpawnedStarts | munux-os/kernel/process/process.c:66 | a new thread starts with interrupts on and nothing held |
| IrqLock.OutOfOrderDropUnmasksIff | munux-os/kernel/rust/munux-rs/src/sync.rs:102-109 | an out-of-order drop leaves interrupts on under a lock iff it drops the outermost guard, taken with interrupts on, of several |
| IrqLock.OutOfOrderDropReached | munux-os/kernel/rust/munux-rs/src/sync.rs:72-109 | a legal run from boot, of two nested locks, ends where such a drop is enabled |
| Scheduler.RingScheduler.AddProcess | munux-os/kernel/process/scheduler.c:48-69 | the pointer writes realise the ring operation; all rings stay proper cycles |
| Scheduler.RingScheduler.RemoveProcess | munux-os/kernel/process/scheduler.c:72-98 | likewise for removal |
| Scheduler.RingScheduler.SelectNext | munux-os/kernel/process/scheduler.c:101-113 | the head of the highest ring in use, which turns by one; the idle process otherwise |
| Scheduler.RingScheduler.Reschedule | munux-os/kernel/process/scheduler.c:116-142 | realises the reschedule on rings, states and quanta |
| Scheduler.RingScheduler.OnTick | munux-os/kernel/process/scheduler.c:19-34 | realises the tick |
| Scheduler.RingScheduler.Yield | munux-os/kernel/process/scheduler.c:145-148 | realises a reschedule with an empty quantum |
| Scheduler.HighestPriorityRuns | munux-os/kernel/process/scheduler.c:54-113 | after a reschedule no process in a ring has a higher priority than the running one, all from 3 on being one |
| Scheduler.StatesAfterSchedule | munux-os/kernel/process/scheduler.c:116-142 | the process that gets the CPU is running, the one that had it ready, each with a quantum of 50; one that keeps the CPU is marked ready as well |
| Scheduler.JoinsItsRing | munux-os/kernel/process/scheduler.c:48-69 | a process in no ring joins the end of the ring of its priority, ready and with a quantum of 50 |
| Scheduler.LinkedBehind | munux-os/kernel/process/scheduler.c:62-67 | linking behind the last member gives a proper cycle, cut behind a process that was already in it |
| Scheduler.Bypassed | munux-os/kernel/process/scheduler.c:88-97 | bypassing a process gives the proper cycle of the others |
| Scheduler.ReAddIsNoOpIff | munux-os/kernel/process/scheduler.c:61-68 | adding a member again changes nothing iff it is the last of its ring |
| Scheduler.RemoveIsExactIff | munux-os/kernel/process/scheduler.c:72-98 | removal takes out that process and nothing else iff the ring is not one other process |
| Scheduler.NewcomerSurvivesIff | munux-os/kernel/process/scheduler.c:116-122 | an added process survives the next reschedule iff the running process is not a running member of its ring |
| Scheduler.LoseNewcomer | munux-os/kernel/process/scheduler.c:48-142 | from the first start, a process runs alone, a second of its priority is added, and after a reschedule it is ready and in no ring |
| Scheduler.HandOver | munux-os/kernel/process/scheduler.c:116-142 | when the quantum ends the head of the highest ring runs and the ring turns by one |
| Scheduler.TurnsInOrder | munux-os/kernel/process/scheduler.c:19-142 | over j quanta the processes gain one quantum each in ring order |
| Scheduler.EqualShares | munux-os/kernel/process/scheduler.c:19-142 | over n quanta each of n processes gains exactly 50 ticks, no other gains any, and the ring is back |
| Jes.BatchOrderUnique | munux-zos/kernel/src/jes.rs:112-131 | there is one order that is a stable sort of the waiting jobs by falling priority |
| Jes.BatchOrderIff | munux-zos/kernel/src/jes.rs:112-131 | an order of all waiting jobs is that one iff between neighbours the priority falls, or stays and the slot rises |
| Jes.JobEntry.Submit | munux-zos/kernel/src/jes.rs:72-90 | queues in the first empty slot under the next number modulo 2^32; 0 iff full or the number wraps to 0 |
| Jes.JobEntry.AllocAsid | munux-zos/kernel/src/jes.rs:93-101 | takes the first free address space, or 0 |
| Jes.JobEntry.FreeAsid | munux-zos/kernel/src/jes.rs:103-109 | frees exactly the spaces of that number |
| Jes.JobEntry.PickNext | munux-zos/kernel/src/jes.rs:112-131 | the waiting job due before all others, none iff nothing waits |
| Jes.JobEntry.Dispatch | munux-zos/kernel/src/jes.rs:146-182 | one job lives INPUT, ACTIVE, its steps, OUTPUT, PURGE with a space that is free again after |
| Jes.JobEntry.Run | munux-zos/kernel/src/jes.rs:185-189 | ends; every waiting job lives once in the stable order over slots numbered by submission; the table is empty and all spaces free after |
| Jes.LifeAt | munux-zos/kernel/src/jes.rs:146-182 | the k-th event of a life: activation, the steps counted from 1, output, purge |
| Jes.LivesInTurn | munux-zos/kernel/src/jes.rs:185-189 | in the log of a run each life lies whole behind those of the jobs before it |
| Jes.TiesRiseIff | munux-zos/kernel/src/jes.rs:112-131 | jobs of one priority run by rising number iff no two waiting ones are tied across the wrap of the counter |
| Jes.TieAgainstNumber | munux-zos/kernel/src/jes.rs:75-76 | jobs 4294967295 and 0 of one priority run in this order |
| Jes.NumbersRiseIff | munux-zos/kernel/src/jes.rs:75-76 | numbers rise over a window of submissions iff the counter does not wrap in it |
| BufferCache.Cache.ReadSector | munux-os/kernel/rust/munux-rs/src/bcache.rs:44-65 | returns the disk's sector, keeps every cached block equal to the disk, evicts the least key when full |
| BufferCache.Cache.WriteSector | munux-os/kernel/rust/munux-rs/src/bcache.rs:68-76 | writes disk and cache as one step |
| BufferCache.SettledIff | munux-os/kernel/rust/munux-rs/src/bcache.rs:44-76 | in any schedule of writers in two steps and of readers, once no writer of a sector is under way, its cached block is the disk's iff it was fetched since the last store or the block stored last is the one sent last |
| BufferCache.OneAtATimeStaysInStep | munux-os/kernel/rust/munux-rs/src/bcache.rs:68-76 | writers of a sector that do not overlap leave its cached block equal to the disk's |
| BufferCache.OvertakenWriter | munux-os/kernel/rust/munux-rs/src/bcache.rs:68-76 | from any coherent state, two overlapping writers of different blocks can leave the cache with one and the disk with the other |
| BufferCache.StaleUntilWritten | munux-os/kernel/rust/munux-rs/src/bcache.rs:44-76 | a settled sector that stays cached keeps its cached block and its disk block until it is written again |
| BufferCache.DiskHoldsLastSent | munux-os/kernel/rust/munux-rs/src/bcache.rs:68-72 | the disk holds the block sent last |
| BufferCache.Cache.Selftest | munux-os/kernel/rust/munux-rs/src/bcache.rs:86-94 | passes iff sector 2 was not cached before |
| BufferCache.Transparent | munux-os/kernel/rust/munux-rs/src/bcache.rs:44-76 | any run of reads and writes answers, and leaves the disk, as without a cache |
| BufferCache.EveryReadCounted | munux-os/kernel/rust/munux-rs/src/bcache.rs:46-51 | hits plus misses is the number of reads |
| BufferCache.MissesAreFirstReads | munux-os/kernel/rust/munux-rs/src/bcache.rs:44-65 | while a run touches at most 256 sectors, a read misses iff it is the first to touch its sector |
| BufferCache.MissEvictsLeast | munux-os/kernel/rust/munux-rs/src/bcache.rs:57-62 | a miss in a full cache gives up the least sector for the one read |
| BufferCache.BoundedIff | munux-os/kernel/rust/munux-rs/src/bcache.rs:57-76 | a run keeps to 256 entries iff no write in it meets a full cache without its sector |
| BufferCache.ReadsStayBounded | munux-os/kernel/rust/munux-rs/src/bcache.rs:57-62 | read-only runs never exceed 256 entries |
| BufferCache.NeverShrinks | munux-os/kernel/rust/munux-rs/src/bcache.rs:44-76 | nothing ever makes the cache smaller |
| BufferCache.WritesPassTheBound | munux-os/kernel/rust/munux-rs/src/bcache.rs:68-76 | n writes to new sectors leave n more entries, past the bound too |
| Ext2.ReadRange | munux-os/kernel/rust/munux-rs/src/ext2.rs:32-43 | the disk's bytes, across sector boundaries and through the cache |
| Ext2.BlockAt | munux-os/kernel/rust/munux-rs/src/ext2.rs:105-132 | the pointer of a logical block through direct, indirect and double-indirect tables, which `BlockMapInvertsLayout` ties to the bytes; 0 for a hole |
| Ext2Layout.BlockMapInvertsLayout | munux-os/kernel/rust/munux-rs/src/ext2.rs:105-132 | for any list of block numbers written little-endian into the inode from byte 40, the indirect table and the tables the double-indirect block names, the n-th is found for every n |
| Ext2Layout.FileRoundTrip | munux-os/kernel/rust/munux-rs/src/ext2.rs:160-177 | of a file laid out on the disk with all its blocks, what is read is its content |
| Ext2Layout.LaidOutIsOnDisk | munux-os/kernel/rust/munux-rs/src/ext2.rs:160-177 | such a file meets what reading asks for |
| Ext2.PointerAtSlot | munux-os/kernel/rust/munux-rs/src/ext2.rs:107-131 | an indirect pointer is the word at its slot address on the disk |
| Ext2.SlotsApart | munux-os/kernel/rust/munux-rs/src/ext2.rs:107-131 | distinct logical blocks have their pointers in distinct bytes of the disk, when the file's tables are different blocks |
| Ext2.ReadFile | munux-os/kernel/rust/munux-rs/src/ext2.rs:160-177 | each byte from its own disk block; all `size` bytes, or the blocks before the first hole |
| Ext2.AssembledStep | munux-os/kernel/rust/munux-rs/src/ext2.rs:164-175 | one more block extends the file read so far by its own bytes |
| Ext2.ScanBlock | munux-os/kernel/rust/munux-rs/src/ext2.rs:141-155 | ends and stays in bounds on every content, collecting the chain of live records |
| Ext2.ReadDir | munux-os/kernel/rust/munux-rs/src/ext2.rs:134-158 | the entries of the direct blocks in order, skipping absent blocks |
| Ext2.ScanIsSound | munux-os/kernel/rust/munux-rs/src/ext2.rs:141-155 | on any content each entry is a named live record, whole within the block, valid UTF-8 |
| Ext2.ScanInvertsLayout | munux-os/kernel/rust/munux-rs/src/ext2.rs:141-155 | reading a block laid out as records returns exactly the live ones, in order |
| Ext2.DirectoryRoundTrip | munux-os/kernel/rust/munux-rs/src/ext2.rs:134-158 | so does reading a whole directory over its direct blocks |
| Ext2.AsciiIsUtf8 | munux-os/kernel/rust/munux-rs/src/ext2.rs:150-152 | an ASCII name is never dropped for its encoding |
| Utf8.ValidIff | munux-os/kernel/rust/munux-rs/src/ext2.rs:150-152 | a name is kept iff its bytes encode some Unicode scalar values |
| Ext2.ReadSuper | munux-os/kernel/rust/munux-rs/src/ext2.rs:61-82 | reads the parameters at byte 1024; none without the magic number |
| Ext2Layout.SuperRoundTrip | munux-os/kernel/rust/munux-rs/src/ext2.rs:61-82 | each parameter is read from its own bytes of the superblock |
| Ext2Layout.OtherMagic | munux-os/kernel/rust/munux-rs/src/ext2.rs:63-65 | a superblock is refused iff its magic number is another |
| Ext2.BlockSizeUsableIff | munux-os/kernel/rust/munux-rs/src/ext2.rs:66 | the 32-bit shift gives a usable block size iff it is at most 21 |
| Ext2.ReadInode | munux-os/kernel/rust/munux-rs/src/ext2.rs:84-101 | decodes the inode at its address in its group's table, which `InodeIsAt` gives |
| Ext2Layout.InodeIsAt | munux-os/kernel/rust/munux-rs/src/ext2.rs:85-89 | slot k of group g is inode g * inodesPerGroup + k + 1, at the table the group's descriptor names at its byte 8 |
| Ext2.InodeRoundTrip | munux-os/kernel/rust/munux-rs/src/ext2.rs:91-100 | decoding inverts the on-disk layout of an inode |
| Ext2.InodesApart | munux-os/kernel/rust/munux-rs/src/ext2.rs:85-89 | different inode numbers are different bytes when the groups' tables do not overlap |
| Ext2.U32RoundTrip | munux-os/kernel/rust/munux-rs/src/ext2.rs:27-29 | reading a little-endian word inverts writing it |
| Ext2.U16RoundTrip | munux-os/kernel/rust/munux-rs/src/ext2.rs:23-25 | likewise for half words |
| Vfs.CleanRemovesOne | munux-os/kernel/rust/munux-rs/src/vfs.rs:108-117 | cleaning takes off one slash behind an absolute path; a path is clean iff it is the root or ends in no slash |
| Vfs.CleanStableIff | munux-os/kernel/rust/munux-rs/src/vfs.rs:108-117 | cleaning twice is cleaning once iff the path does not end in two slashes, or is at most two characters long |
| Vfs.ParentIsShorter | munux-os/kernel/rust/munux-rs/src/vfs.rs:120-125 | the parent of an absolute path is a shorter absolute path |
| Vfs.ChildForms | munux-os/kernel/rust/munux-rs/src/vfs.rs:120-133 | which keys have a given parent, by their base name |
| Vfs.CreateGrows | munux-os/kernel/rust/munux-rs/src/vfs.rs:136-152 | creation succeeds iff the path is new under a directory, adds one empty node and keeps the tree closed |
| Vfs.CreateErrors | munux-os/kernel/rust/munux-rs/src/vfs.rs:136-152 | each error of creation, in exactly its own case |
| Vfs.WriteReplaces | munux-os/kernel/rust/munux-rs/src/vfs.rs:154-165 | writing succeeds iff the path is a file, and changes that content alone |
| Vfs.LookupErrors | munux-os/kernel/rust/munux-rs/src/vfs.rs:154-178 | each error of a lookup and of a write, in exactly its own case |
| Vfs.WrittenIsRead | munux-os/kernel/rust/munux-rs/src/vfs.rs:154-165 | a descriptor opened behind a write reads what was written |
| Vfs.RunStaysClosed | munux-os/kernel/rust/munux-rs/src/vfs.rs:136-165 | every reachable tree is closed: parents exist and are directories |
| Vfs.NodesReachRoot | munux-os/kernel/rust/munux-rs/src/vfs.rs:120-152 | in a closed tree every node reaches the root through directories |
| Vfs.TmpFs.Create | munux-os/kernel/rust/munux-rs/src/vfs.rs:136-152 | realises creation, with the error the source gives in each case |
| Vfs.TmpFs.Write | munux-os/kernel/rust/munux-rs/src/vfs.rs:154-165 | realises writing, with its errors |
| Vfs.TmpFs.Read | munux-os/kernel/rust/munux-rs/src/vfs.rs:167-178 | copies the start of the file that fits and nothing else |
| Vfs.TmpFs.List | munux-os/kernel/rust/munux-rs/src/vfs.rs:180-194 | the base name of each child, once for each child key, in the order of the sorted map |
| Vfs.BelowOneWay | munux-os/kernel/rust/munux-rs/src/vfs.rs:188 | the order of the map's keys is total and strict |
| Vfs.BelowChains | munux-os/kernel/rust/munux-rs/src/vfs.rs:188 | and transitive |
| Vfs.TmpFs.Stat | munux-os/kernel/rust/munux-rs/src/vfs.rs:203-216 | kind and size of a node |
| Vfs.ListRepeatsIff | munux-os/kernel/rust/munux-rs/src/vfs.rs:180-194 | a listing repeats a name iff it is the root's and some x exists both as /x and //x |
| Vfs.ListOnce | munux-os/kernel/rust/munux-rs/src/vfs.rs:180-194 | without empty first components each child is listed once |
| Vfs.RepeatIsReachable | munux-os/kernel/rust/munux-rs/src/vfs.rs:136-152 | such a tree is two creations away from the empty one, for every name |
| Vfs.ReadsConcatenate | munux-os/kernel/rust/munux-rs/src/vfs.rs:310-357 | reads of any sizes, interleaved with anything that spares file and descriptor, give the file's bytes in order |
| Vfs.WholeFileThenNothing | munux-os/kernel/rust/munux-rs/src/vfs.rs:331-357 | once the size was asked for, the whole content was read and further reads give nothing |
| Vfs.Vfs.FdOpen | munux-os/kernel/rust/munux-rs/src/vfs.rs:310-327 | realises opening; -1 iff it is no file or nothing is mounted |
| Vfs.Vfs.FdRead | munux-os/kernel/rust/munux-rs/src/vfs.rs:331-357 | realises a read into the caller's buffer; 0 at the end, -1 for a bad descriptor |
| Vfs.Vfs.FdClose | munux-os/kernel/rust/munux-rs/src/vfs.rs:360-365 | realises closing |
| Vfs.CloseFrees | munux-os/kernel/rust/munux-rs/src/vfs.rs:360-365 | a closed descriptor is gone, no other changes, and the next open gives it out again when all lower ones are in use |
| Vfs.ClosedStaysClosed | munux-os/kernel/rust/munux-rs/src/vfs.rs:331-365 | until a file is opened again it answers no read, whatever else happens |
| Vfs.Vfs.InitDefault | munux-os/kernel/rust/munux-rs/src/vfs.rs:296-307 | leaves a closed tree with the greeting file and an empty descriptor table |
| Conv.NumeralEvaluates | munux-os/kernel/lib/conv.c:20-27 | the digits evaluate back to the number, with no redundant leading zero |
| Conv.NumeralUnique | munux-os/kernel/lib/conv.c:20-27 | no other string of digits does |
| Conv.OneDigit | munux-os/kernel/lib/conv.c:16-26 | the digits are '0' to '9' and then 'a' to 'f' |
| Conv.PatternText | munux-os/kernel/lib/conv.c:38-47 | in any base but 10 the text is the 32-bit pattern of the number; for a base out of range it is empty |
| Conv.ReadsNumber | munux-os/kernel/lib/conv.c:49-68 | blanks, a sign and digits read as their number, whatever stands behind them |
| Conv.NumeralLength | munux-os/kernel/lib/conv.c:17 | at most k digits iff the number is below base^k |
| Conv.TextFits | munux-os/kernel/lib/libk.h:24-25 | every 32-bit number takes at most 32 digits, and 10 in base 10 |
| Conv.SignedTextFits | munux-os/kernel/lib/libk.h:24-25 | with the sign at most 11 characters in base 10 |
| Conv.Utoa | munux-os/kernel/lib/conv.c:10-36 | writes the numeral and a NUL in place and nothing else; only the NUL for a base out of range |
| Conv.Itoa | munux-os/kernel/lib/conv.c:38-47 | writes the signed text and a NUL in place and nothing else |
| Conv.Atoi | munux-os/kernel/lib/conv.c:49-68 | the number behind spaces and sign, none iff the int accumulator overflows |
| Conv.RoundTripIff | munux-os/kernel/lib/conv.c:38-68 | reading back what was written gives the number iff it is not the least int |
| Printf.Kvsnprintf | munux-os/kernel/lib/printf.c:51-134 | returns the length of the unbounded text, writes the prefix that fits and a NUL, and nothing at or past `size` |
| Printf.PutItem | munux-os/kernel/lib/printf.c:55-128 | one turn of the scan writes one item and never passes the format's NUL |
| Printf.Convert | munux-os/kernel/lib/printf.c:73-116 | each conversion writes its field |
| Printf.EmitNum | munux-os/kernel/lib/printf.c:25-49 | sign, padding and digits in the right order |
| Printf.PutC | munux-os/kernel/lib/printf.c:11-16 | writes a character iff it leaves room for the NUL, and always counts it |
| Printf.ScanDirective | munux-os/kernel/lib/printf.c:62-71 | reads the flag and the width |
| Printf.RenderAppends | munux-os/kernel/lib/printf.c:55-128 | a format behind a complete one renders behind it |
| Printf.LiteralRendersItself | munux-os/kernel/lib/printf.c:56-59 | a format without '%' is its own text |
| Printf.PrintsSigned | munux-os/kernel/lib/printf.c:82-96 | %d and %i print a minus and digits that evaluate to the number in base 10, filled to the width with spaces before or zeros behind the sign, and no more |
| Printf.PrintsUnsigned | munux-os/kernel/lib/printf.c:97-111 | %u prints in base 10, %x in base 16, %X in base 16 in upper case, padded likewise |
| Printf.PrintsPointer | munux-os/kernel/lib/printf.c:112-116 | %p prints "0x" and then base 16 |
| Printf.PrintsText | munux-os/kernel/lib/printf.c:74-81 | %c prints the character, %s the string or "(null)", whatever the width |
| Printf.PrintsPlain | munux-os/kernel/lib/printf.c:117-127 | "%%" prints "%", and an unknown conversion itself behind a '%' |
| Printf.PaddedReadsBack | munux-os/kernel/lib/printf.c:82-96 | whatever the padding, a printed int reads back as itself iff it is not the least |

## Left out

- Hardware: port I/O, VGA, serial, mouse, timer and interrupt-controller programming, boot code, the context-switch assembly and the SCLP console. Console output of the dispatcher is a ghost log; the context switch is where `Dispatch` ends.
- BufferCache.Cache.WriteSector: writes disk and cache in one step, although the driver call runs outside the lock; the two steps are schedules of `Send` and `Insert`, in which a driver call itself is one step.
- The disk driver is an array of sectors that succeeds, and all requests lie on the disk; a failing read, which the cache would store as zeros, is not modelled.
- `process.c`: its process list shares the `next` field with the scheduler rings, and termination does not leave the ring. The rings are modelled alone, over processes that stay allocated.
- The keyboard ring buffer, the C string functions of `string.c`, the memory copy and fill loops of `utils.c` and the command shell. The MJP protocol, JCL, datasets and EBCDIC translation are documents without code.
- Double frees and foreign pointers: excluded by the documented contracts, so preconditions here.
- Reachability of page tables above the 8 MiB identity map, TLB and CR3 effects, and `vmm_switch_directory`: physical memory is accessible as a whole, and there is one directory.
- Where the frame bitmap sits and how memory is detected: the bitmap is an array that covers the 32-bit address space.
- The heap's methods work on a map of 32-bit words at word addresses, which starts as zeros over the whole range and is not read from RAM. How it would be taken from RAM at boot and at each growth is `ReflectsTaken`, and loads and stores through the page tables agree with it from there (`LoadWord`, `StoreWord`); the methods are not written out over RAM a second time.
- The heap is initialised: a request before `init`, which returns null, is not modelled, and freeing null, which does nothing, is left to the callers.
- Several CPUs and a weak compare-and-exchange that fails without cause: the lock machine has one CPU, whose exchange succeeds exactly on a clear word. Of the flags register only the interrupt flag is kept. Threads switch where the running context holds no guard, which is where the kernel calls `schedule`; threads do not end.
- Scheduler.RingScheduler.Reschedule: does not model the fallback to the idle process after the selection, which is dead because the selection already falls back to it.
- Scheduler counters are unbounded: `total_time` wraps at 2^32 ticks in the source.
- Cache counters are unbounded: the source halts when one passes 2^32. The lazy creation of the cache is its constructor.
- Ext2.ReadFile: asks that, as far as the first hole, the file's tables and blocks lie on the disk below the first 4 GiB and that the file is within double-indirect reach; outside, the source halts on an index or on 32-bit overflow.
- Ext2.ReadDir: asks that the direct blocks lie on the disk below the first 4 GiB, for the same reason. Names are byte strings; the text type is not modelled.
- Vfs.Vfs.FdOpen: does not model the overflow of the descriptor number after 2^31 open files. The locks around the tree and the table are module `IrqLock`; each operation runs as a whole.
- Paths are strings of characters instead of UTF-8 bytes; only the slash matters to what is proved.
- Conv.Atoi: stops where int overflows, which ISO C leaves undefined, instead of going on with some value.
- Printf.Kvsnprintf: asks that the arguments match the format, the widths fit int and the text is at most 2^31 - 1 characters, as the standard does. Arguments are typed values instead of a `va_list`, and pointers are 32 bits.
- The order of heap words in an interrupted update is not visible: each heap operation runs under its lock.
