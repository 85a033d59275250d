/**
 Boot order: frames, then paging, then the heap's pages, then the allocator.
 */
module Boot {
  import opened Words
  import opened Pmm
  import opened Vmm
  import opened HeapPages
  import BlockList
  import HeapRuns
  import Heap

  /** Frames the boot takes: a directory and two tables, then 256 heap pages and one table. */
  const BOOT_FRAMES := 260

  /** Pages that fill part of one table's slot cost one frame each, and one for the table. */
  lemma {:induction false} OneSlotCost(row: Frame, a: nat, b: nat)
    requires a < b <= FRAME_COUNT && a % ENTRIES == 0 && b - a <= ENTRIES && !HasTable(row, a / ENTRIES)
    ensures FramesNeeded(row, a, b) == b - a + 1
    decreases b
  {
    if b - 1 > a {
      OneSlotCost(row, a, b - 1);
      SameSlot(a, b - 1);
    }
  }

  lemma SameSlot(a: nat, p: nat)
    requires a % ENTRIES == 0 && a < p < a + ENTRIES
    ensures p / ENTRIES == a / ENTRIES && p % ENTRIES != 0
  {
    ModUnique(p, ENTRIES, a / ENTRIES, p - a);
  }

  lemma HeapFramesSufficeIff(pages: HeapMapper)
    requires pages.vm.IdentityUpTo(IDENTITY_LIMIT / PAGE_SIZE, 1)
    ensures pages.FramesFor(HEAP_START, HEAP_START + HEAP_INITIAL_SIZE) <==>
            pages.vm.pmm.totalFrames >= RESERVED_FRAMES + BOOT_FRAMES
  {
    CountersTellFree(pages.vm.pmm);
    OneSlotCost(pages.vm.ram[pages.vm.directory], HEAP_START / PAGE_SIZE, (HEAP_START + HEAP_INITIAL_SIZE) / PAGE_SIZE);
  }

  method BootPaging(memSize: Word) returns (vm: AddressSpace)
    requires memSize >= (RESERVED_FRAMES + 3) * PAGE_SIZE
    ensures fresh(vm) && fresh(vm.ram) && fresh(vm.pmm) && fresh(vm.pmm.bitmap)
    ensures vm.IdentityUpTo(IDENTITY_LIMIT / PAGE_SIZE, 1) && vm.pmm.totalFrames == memSize / PAGE_SIZE
  {
    hide Marks, Used, Sound, Inside;
    var pmm := new FrameAllocator();
    pmm.Init(memSize);
    NothingHeld(pmm);
    vm := new AddressSpace(pmm);
    vm.Init();
  }

  lemma NothingHeld(pmm: FrameAllocator)
    requires pmm.outstanding == {}
    ensures pmm.Held() == {}
  {
  }

  method BootPages(memSize: Word) returns (pages: HeapMapper)
    requires memSize >= (RESERVED_FRAMES + 3) * PAGE_SIZE
    ensures fresh(pages) && fresh(pages.vm.ram) && fresh(pages.vm.pmm) && fresh(pages.vm.pmm.bitmap)
    ensures pages.Limits() && pages.vm.Usable() && pages.vm.pmm.totalFrames == memSize / PAGE_SIZE
    ensures pages.heapEnd == HEAP_START + HEAP_INITIAL_SIZE
    ensures pages.BackedTo(pages.heapEnd) <==> memSize >= (RESERVED_FRAMES + BOOT_FRAMES) * PAGE_SIZE
  {
    hide Marks, Used, Sound, Inside, AllBacked, ClearOf;
    var vm := BootPaging(memSize);
    pages := new HeapMapper(vm);
    HeapFramesSufficeIff(pages);
    pages.InitPages();
  }

  /**
   With memory for the reserved frames and three more, the kernel comes up with an empty heap of
   one free block and low memory translating to itself. Every heap page has an existing frame of
   its own exactly when there is memory for all the frames the boot takes.
   */
  method BootMemory(memSize: Word) returns (heap: Heap.Heap)
    requires memSize >= 515 * 4096
    ensures fresh(heap) && fresh(heap.pages) && fresh(heap.pages.vm.ram)
    ensures fresh(heap.pages.vm.pmm) && fresh(heap.pages.vm.pmm.bitmap)
    ensures heap.Valid() && heap.grants == map[] && heap.max == 0xD000_0000
    ensures heap.State() == HeapRuns.Initial(0xC000_0000, 0x10_0000)
    ensures heap.pages.vm.pmm.totalFrames == memSize / 4096
    ensures heap.HeapBacked() <==> memSize >= 772 * 4096
  {
    hide HeapMapper.BackedTo, AddressSpace.Usable, BlockList.Good, HeapRuns.Initial;
    var pages := BootPages(memSize);
    heap := new Heap.Heap(pages, HEAP_START, HEAP_INITIAL_SIZE, HEAP_MAX_SIZE);
  }

  // ----- a heap that outgrows its memory

  /** The memory the kernel assumes when none is reported, and a request for twice as much. */
  const FALLBACK_MEMORY := 0x200_0000
  const LARGE_REQUEST := 0x400_0000

  lemma {:induction false} FramesAtLeastPages(row: Frame, a: nat, b: nat)
    requires a <= b <= FRAME_COUNT
    ensures FramesNeeded(row, a, b) >= b - a
    decreases b
  {
    if a == b {
    } else {
      FramesAtLeastPages(row, a, b - 1);
    }
  }

  /** On 32 MiB a request for 64 MiB is granted, and the heap is then not backed. */
  method OutgrowMemory() returns (heap: Heap.Heap, o: BlockList.Outcome)
    ensures fresh(heap) && heap.Valid() && o.Granted? && !heap.HeapBacked()
    ensures o.ptr in heap.grants && heap.grants[o.ptr].size == LARGE_REQUEST
  {
    heap := BootMemory(FALLBACK_MEMORY);
    LargeRequestGrows(heap);
    o := heap.Allocate(LARGE_REQUEST);
  }

  lemma LargeRequestGrows(heap: Heap.Heap)
    requires heap.Valid() && heap.HeapBacked() && heap.pages.vm.pmm.totalFrames == FALLBACK_MEMORY / PAGE_SIZE
    requires heap.State() == HeapRuns.Initial(HEAP_START, HEAP_INITIAL_SIZE)
    ensures heap.max <= 0xF000_0000 && !heap.CanBack(LARGE_REQUEST)
    ensures var (t, o) := BlockList.Allocate(heap.State(), heap.max, LARGE_REQUEST); o.Granted? && t.end > heap.end
  {
    var end := NextEnd(heap.end, LARGE_REQUEST + BlockList.HEADER_SIZE);
    LimitsAgree(heap.end, heap.max, LARGE_REQUEST + BlockList.HEADER_SIZE);
    FramesAtLeastPages(heap.pages.vm.ram[heap.pages.vm.directory], heap.end / PAGE_SIZE, end / PAGE_SIZE);
  }
}
