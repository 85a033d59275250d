/**
 The C side of the heap: pages behind the heap's addresses, mapped one by one as the heap
 is created and grown.
 */
module HeapPages {
  import opened Words
  import opened Pmm
  import opened Vmm
  import BlockList
  import HeapRuns

  const HEAP_START := 0xC000_0000
  const HEAP_INITIAL_SIZE := 0x10_0000
  const HEAP_MAX_SIZE := 0x1000_0000

  // ----- backing as a value

  /** Page p is present and writable in a frame of the `owned` that serves no page table. */
  ghost predicate Backed(ram: Ram, dir: nat, owned: set<nat>, p: nat)
    requires dir < FRAME_COUNT && p < FRAME_COUNT
  {
    var e := Entry(ram, dir, p);
    && e % 4096 == 3
    && FrameOf(e) in owned && HoldsData(ram[dir], dir, FrameOf(e))
  }

  function WritableEntry(frame: nat): Word
    requires frame < FRAME_COUNT
  {
    frame * PAGE_SIZE + PAGE_PRESENT + PAGE_WRITE
  }

  /** Every page in [lo, hi) has a frame of its own. */
  ghost predicate AllBacked(ram: Ram, dir: nat, owned: set<nat>, lo: nat, hi: nat)
    requires dir < FRAME_COUNT && hi <= FRAME_COUNT
  {
    && (forall p :: lo <= p < hi ==> Backed(ram, dir, owned, p))
    && (forall p, q :: lo <= p < q < hi ==> FrameOf(Entry(ram, dir, p)) != FrameOf(Entry(ram, dir, q)))
  }

  /** What a page holds. */
  ghost function PageContent(ram: Ram, dir: nat, p: nat): Frame
    requires dir < FRAME_COUNT && p < FRAME_COUNT
  {
    ram[FrameOf(Entry(ram, dir, p))]
  }

  ghost predicate ContentKept(before: Ram, after: Ram, dir: nat, lo: nat, hi: nat)
    requires dir < FRAME_COUNT && hi <= FRAME_COUNT
  {
    forall p :: lo <= p < hi ==> PageContent(after, dir, p) == PageContent(before, dir, p)
  }

  /** Frames that mapping pages [a, b) takes: one a page, and one for each table still missing. */
  ghost function FramesNeeded(row: Frame, a: nat, b: nat): nat
    requires b <= FRAME_COUNT
  {
    if b <= a then 0 else FramesNeeded(row, a, b - 1) + PageCost(row, a, b - 1)
  }

  ghost function PageCost(row: Frame, a: nat, p: nat): nat
    requires a <= p < FRAME_COUNT
  {
    if !HasTable(row, p / ENTRIES) && (p == a || p % ENTRIES == 0) then 2 else 1
  }

  lemma {:induction false} FramesNeededMonotone(row: Frame, a: nat, b: nat, c: nat)
    requires b <= c <= FRAME_COUNT
    ensures FramesNeeded(row, a, b) <= FramesNeeded(row, a, c)
    decreases c
  {
    if b < c { FramesNeededMonotone(row, a, b, c - 1); }
  }

  /** Slots that have a table once pages [a, b) are mapped. */
  ghost predicate SlotUsed(row: Frame, a: nat, b: nat, j: nat)
    requires j < ENTRIES
  {
    HasTable(row, j) || (a < b && a / ENTRIES <= j <= (b - 1) / ENTRIES)
  }

  ghost predicate SlotsMatch(row0: Frame, row: Frame, a: nat, k: nat) {
    forall j :: 0 <= j < ENTRIES ==> (HasTable(row, j) <==> SlotUsed(row0, a, k, j))
  }

  lemma CostNow(row0: Frame, row: Frame, a: nat, k: nat)
    requires SlotsMatch(row0, row, a, k) && a <= k < FRAME_COUNT
    ensures HasTable(row, k / ENTRIES) <==> PageCost(row0, a, k) == 1
  {
    assert HasTable(row, k / ENTRIES) <==> SlotUsed(row0, a, k, k / ENTRIES);
  }

  lemma SlotsNext(row0: Frame, before: Frame, after: Frame, a: nat, k: nat)
    requires SlotsMatch(row0, before, a, k) && a <= k < FRAME_COUNT && Extends(before, after, k / ENTRIES)
    ensures SlotsMatch(row0, after, a, k + 1)
  {
    forall j | 0 <= j < ENTRIES
      ensures HasTable(after, j) <==> SlotUsed(row0, a, k + 1, j)
    {
      assert HasTable(before, j) <==> SlotUsed(row0, a, k, j);
    }
  }

  /** One more page mapped to a fresh frame keeps everything already backed. */
  lemma BackOneMore(before: Ram, after: Ram, dir: nat, owned: set<nat>, owned': set<nat>, lo: nat, p: nat, f: nat)
    requires dir < FRAME_COUNT && lo <= p < FRAME_COUNT && f < FRAME_COUNT
    requires Sound(before[dir], dir, owned) && AllBacked(before, dir, owned, lo, p)
    requires Sound(after[dir], dir, owned') && owned <= owned' && f in owned' && f !in owned
    requires Extends(before[dir], after[dir], p / ENTRIES)
    requires !HasTable(before[dir], p / ENTRIES) ==> TableFrame(after[dir], p / ENTRIES) !in owned + {f}
    requires OnePageChanged(before, after, dir, p, WritableEntry(f))
    requires forall g :: g in owned && g < FRAME_COUNT && HoldsData(before[dir], dir, g) ==> after[g] == before[g]
    ensures AllBacked(after, dir, owned', lo, p + 1) && ContentKept(before, after, dir, lo, p)
  {
    forall j | 0 <= j < ENTRIES && HasTable(after[dir], j)
      ensures TableFrame(after[dir], j) != f
      ensures !HasTable(before[dir], j) ==> TableFrame(after[dir], j) !in owned
    {
      if HasTable(before[dir], j) {
        assert TableFrame(after[dir], j) == TableFrame(before[dir], j);
      }
    }
    forall q | lo <= q < p + 1
      ensures Backed(after, dir, owned', q)
      ensures q < p ==> FrameOf(Entry(after, dir, q)) in owned && PageContent(after, dir, q) == PageContent(before, dir, q)
    {
      if q < p {
        assert Backed(before, dir, owned, q);
      }
    }
  }

  lemma NothingMoved(ram: Ram, dir: nat, lo: nat, hi: nat)
    requires dir < FRAME_COUNT && hi <= FRAME_COUNT
    ensures ContentKept(ram, ram, dir, lo, hi)
  {
  }

  lemma ContentKeptOn(start: Ram, before: Ram, after: Ram, dir: nat, lo: nat, a: nat, k: nat)
    requires dir < FRAME_COUNT && a <= k <= FRAME_COUNT
    requires ContentKept(start, before, dir, lo, a) && ContentKept(before, after, dir, lo, k)
    ensures ContentKept(start, after, dir, lo, a)
  {
  }

  // ----- where growth ends

  /** The end the C side computes for a growth, with the wrap-around of its unsigned arithmetic. */
  function NextEnd(heapEnd: Word, minBytes: Word): Word {
    Wrap(heapEnd + FloorToPage(Wrap(minBytes + PAGE_SIZE - 1)))
  }

  lemma NextEndAligned(heapEnd: Word, minBytes: Word)
    requires heapEnd % PAGE_SIZE == 0
    ensures NextEnd(heapEnd, minBytes) % PAGE_SIZE == 0
  {
    SumOfPages(heapEnd, FloorToPage(Wrap(minBytes + PAGE_SIZE - 1)));
  }

  lemma SumOfPages(a: Word, b: Word)
    requires a % PAGE_SIZE == 0 && b % PAGE_SIZE == 0
    ensures Wrap(a + b) % PAGE_SIZE == 0
  {
    MultiplesAdd(a, b, PAGE_SIZE);
    if a + b >= MODULUS {
      MultiplesDiffer(MODULUS, a + b, PAGE_SIZE);
    }
  }

  /** The C side covers a request exactly when neither rounding nor adding wraps around. */
  lemma NextEndCoversIff(heapEnd: Word, minBytes: Word)
    requires heapEnd % PAGE_SIZE == 0 && minBytes > 0
    ensures NextEnd(heapEnd, minBytes) >= heapEnd + minBytes <==> heapEnd + minBytes <= MODULUS - PAGE_SIZE
  {
    FloorCovers(heapEnd, minBytes, FloorToPage(Wrap(minBytes + PAGE_SIZE - 1)));
  }

  lemma FloorCovers(heapEnd: Word, minBytes: Word, aligned: Word)
    requires heapEnd % PAGE_SIZE == 0 && minBytes > 0 && aligned % PAGE_SIZE == 0
    requires aligned <= Wrap(minBytes + PAGE_SIZE - 1) < aligned + PAGE_SIZE
    ensures Wrap(heapEnd + aligned) >= heapEnd + minBytes <==> heapEnd + minBytes <= MODULUS - PAGE_SIZE
  {
    var room := MODULUS - PAGE_SIZE - heapEnd;
    PagesApartFrom(heapEnd);
    MultiplesDiffer(heapEnd, MODULUS - PAGE_SIZE, PAGE_SIZE);
    if room < aligned {
      PagesApart(room, aligned);
    }
  }

  lemma PagesApartFrom(a: Word)
    requires a % PAGE_SIZE == 0
    ensures a <= MODULUS - PAGE_SIZE
  {
    PagesApart(a, MODULUS);
  }

  /** Whatever growth the Rust side's own limit admits, the C side admits too, with the same new end. */
  lemma LimitsAgree(heapEnd: Word, max: Word, minBytes: Word)
    requires heapEnd % PAGE_SIZE == 0 && max % PAGE_SIZE == 0 && max <= 0xF000_0000
    requires heapEnd + minBytes <= max
    ensures NextEnd(heapEnd, minBytes) == BlockList.GrownEnd(heapEnd, minBytes)
    ensures heapEnd + minBytes <= NextEnd(heapEnd, minBytes) <= max && NextEnd(heapEnd, minBytes) % PAGE_SIZE == 0
  {
    HeapRuns.RoundingStaysWithinLimit(heapEnd, max, minBytes);
  }

  // ----- the mapper

  class HeapMapper {
    const vm: AddressSpace
    var heapEnd: Word
    var heapMaxAddr: Word

    constructor (vm: AddressSpace)
      ensures this.vm == vm && fresh(this) && heapEnd == 0 && heapMaxAddr == 0
    {
      this.vm := vm;
      heapEnd, heapMaxAddr := 0, 0;
    }

    ghost predicate Limits()
      reads this
    {
      && heapEnd % PAGE_SIZE == 0 && HEAP_START <= heapEnd <= heapMaxAddr
      && heapMaxAddr == HEAP_START + HEAP_MAX_SIZE
    }

    /** Every page of [HEAP_START, end) is mapped to an existing frame of its own, apart from every page-table frame. */
    ghost predicate BackedTo(end: Word)
      reads this, vm, vm.ram, vm.pmm, vm.pmm.bitmap
    {
      && vm.Valid() && vm.pmm.OnlyRealFrames()
      && AllBacked(vm.ram[..], vm.directory, vm.pmm.Held(), HEAP_START / PAGE_SIZE, end / PAGE_SIZE)
    }

    /** The free frames, by the kernel's counters, cover mapping [from, to). */
    ghost predicate FramesFor(from: Word, to: Word)
      reads this, vm, vm.ram, vm.pmm, vm.pmm.bitmap
      requires vm.WellFormed()
    {
      FramesNeeded(vm.ram[vm.directory], from / PAGE_SIZE, to / PAGE_SIZE) <= vm.pmm.totalFrames - vm.pmm.usedFrames
    }

    /** The page lies in a frame that was never handed out or does not exist, or its table does. */
    ghost predicate FellOffMemory(p: nat)
      reads vm, vm.ram, vm.pmm, vm.pmm.bitmap
      requires vm.WellFormed() && p < FRAME_COUNT
    {
      HasTable(vm.ram[vm.directory], p / ENTRIES) &&
      (TableFrame(vm.ram[vm.directory], p / ENTRIES) !in vm.pmm.Held() || FrameOf(vm.EntryAt(p)) !in vm.pmm.Held())
    }

    ghost function CostOf(va: Word): nat
      reads vm, vm.ram
      requires vm.ram.Length == FRAME_COUNT && vm.directory < FRAME_COUNT
    {
      if vm.HasTableFor(va) then 1 else 2
    }

    method TakeFrame() returns (addr: Word)
      requires vm.Usable()
      modifies vm.pmm, vm.pmm.bitmap
      ensures vm.Usable() && vm.pmm.totalFrames == old(vm.pmm.totalFrames) && addr % PAGE_SIZE == 0
      ensures old(vm.Valid()) ==> vm.Valid()
      ensures old(vm.pmm.OnlyRealFrames()) && old(vm.pmm.FreeFrames()) > 0 ==> vm.pmm.OnlyRealFrames()
      ensures if old(vm.pmm.FreeFrames()) > 0
              then addr / PAGE_SIZE !in old(vm.pmm.Held())
                   && vm.pmm.Held() == old(vm.pmm.Held()) + {addr / PAGE_SIZE}
                   && vm.pmm.FreeFrames() == old(vm.pmm.FreeFrames()) - 1
              else addr / PAGE_SIZE !in vm.pmm.Held() && vm.pmm.Held() == old(vm.pmm.Held())
    {
      hide LowestFree, Used, Marks;
      HasFreeIff(vm.pmm);
      addr := vm.pmm.AllocFrame();
    }

    /** Maps one page to whatever frame the allocator has next. */
    method MapFresh(va: Word) returns (ghost frame: nat)
      requires vm.Usable() && va % PAGE_SIZE == 0
      modifies vm.ram, vm.pmm, vm.pmm.bitmap
      ensures vm.Usable() && vm.pmm.totalFrames == old(vm.pmm.totalFrames) && frame < FRAME_COUNT
      ensures old(vm.Valid()) && old(CostOf(va)) <= old(vm.pmm.FreeFrames()) ==>
                && vm.Valid() && Extends(old(vm.ram[vm.directory]), vm.ram[vm.directory], va / PAGE_SIZE / ENTRIES)
                && (old(vm.pmm.OnlyRealFrames()) ==> vm.pmm.OnlyRealFrames())
                && frame !in old(vm.pmm.Held()) && frame in vm.pmm.Held()
                && old(vm.pmm.Held()) <= vm.pmm.Held()
                && |vm.pmm.Held()| == |old(vm.pmm.Held())| + old(CostOf(va))
                && (!old(vm.HasTableFor(va)) ==>
                      TableFrame(vm.ram[vm.directory], va / PAGE_SIZE / ENTRIES) !in old(vm.pmm.Held()) + {frame})
                && OnePageChanged(old(vm.ram[..]), vm.ram[..], vm.directory, va / PAGE_SIZE, WritableEntry(frame))
                && (forall f :: f in old(vm.pmm.Held()) && HoldsData(old(vm.ram[vm.directory]), vm.directory, f) ==>
                      vm.ram[f] == old(vm.ram[f]))
      ensures old(vm.pmm.FreeFrames()) < old(CostOf(va)) ==> vm.pmm.FreeFrames() <= 0 && FellOffMemory(va / PAGE_SIZE)
    {
      hide LowestFree, Used, Marks, Sound;
      var addr := TakeFrame();
      frame := addr / PAGE_SIZE;
      HasFreeIff(vm.pmm);
      vm.MapPage(va, addr, PAGE_PRESENT + PAGE_WRITE);
    }

    method MapHeapPage(va: Word)
      requires vm.Usable() && va % PAGE_SIZE == 0 && HEAP_START <= va < MODULUS - PAGE_SIZE
      modifies vm.ram, vm.pmm, vm.pmm.bitmap
      ensures vm.Usable() && vm.pmm.totalFrames == old(vm.pmm.totalFrames)
      ensures old(BackedTo(va)) && old(CostOf(va)) <= old(vm.pmm.FreeFrames()) ==>
                && BackedTo(va + PAGE_SIZE)
                && |vm.pmm.Held()| == |old(vm.pmm.Held())| + old(CostOf(va))
                && Extends(old(vm.ram[vm.directory]), vm.ram[vm.directory], va / PAGE_SIZE / ENTRIES)
                && ContentKept(old(vm.ram[..]), vm.ram[..], vm.directory, HEAP_START / PAGE_SIZE, va / PAGE_SIZE)
      ensures old(vm.pmm.FreeFrames()) < old(CostOf(va)) ==> vm.pmm.FreeFrames() <= 0 && FellOffMemory(va / PAGE_SIZE)
    {
      ghost var before, owned := vm.ram[..], vm.pmm.Held();
      ghost var sound := BackedTo(va) && CostOf(va) <= vm.pmm.FreeFrames();
      ghost var frame := MapFresh(va);
      if sound {
        BackOneMore(before, vm.ram[..], vm.directory, owned, vm.pmm.Held(), HEAP_START / PAGE_SIZE, va / PAGE_SIZE, frame);
      }
    }

    /** Where mapping [a*4096, ...) over `start` stands before page k: everything backed, or stuck without frames. */
    ghost predicate MappedUpTo(start: Ram, taken: nat, free: int, a: nat, k: nat)
      reads this, vm, vm.ram, vm.pmm, vm.pmm.bitmap
      requires HEAP_START / PAGE_SIZE <= a <= k <= FRAME_COUNT - 1
    {
      && vm.Usable()
      && vm.pmm.FreeFrames() + |vm.pmm.Held()| == free + taken
      && (var row := start[vm.directory];
          if FramesNeeded(row, a, k) <= free
          then BackedTo(k * PAGE_SIZE)
               && |vm.pmm.Held()| == taken + FramesNeeded(row, a, k)
               && SlotsMatch(row, vm.ram[vm.directory], a, k)
               && ContentKept(start, vm.ram[..], vm.directory, HEAP_START / PAGE_SIZE, a)
          else a < k && vm.pmm.FreeFrames() <= 0 && FellOffMemory(k - 1))
    }

    method MapNextPage(va: Word, ghost start: Ram, ghost taken: nat, ghost free: int, ghost a: nat, ghost k: nat, ghost sound: bool)
      requires vm.Usable() && va == k * PAGE_SIZE && HEAP_START <= va < HEAP_START + HEAP_MAX_SIZE
      requires sound ==> HEAP_START / PAGE_SIZE <= a <= k && MappedUpTo(start, taken, free, a, k)
      modifies vm.ram, vm.pmm, vm.pmm.bitmap
      ensures vm.Usable() && vm.pmm.totalFrames == old(vm.pmm.totalFrames)
      ensures sound ==> MappedUpTo(start, taken, free, a, k + 1)
    {
      hide AllBacked, SlotsMatch, Extends, ContentKept, Marks, Inside, ClearOf;
      ghost var row, now := start[vm.directory], vm.ram[..];
      FramesNeededMonotone(row, a, k, k + 1);
      ghost var onTrack := sound && FramesNeeded(row, a, k) <= free;
      if onTrack {
        CostNow(row, now[vm.directory], a, k);
      }
      MapHeapPage(va);
      if onTrack && FramesNeeded(row, a, k + 1) <= free {
        SlotsNext(row, now[vm.directory], vm.ram[vm.directory], a, k);
        ContentKeptOn(start, now, vm.ram[..], vm.directory, HEAP_START / PAGE_SIZE, a, k);
      }
    }

    /** map_heap_range's loop. */
    method MapPages(from: Word, to: Word, ghost start: Ram, ghost taken: nat, ghost free: int,
                    ghost a: nat, ghost b: nat, ghost sound: bool)
      requires vm.Usable() && from == a * PAGE_SIZE && to == b * PAGE_SIZE
      requires HEAP_START <= from <= HEAP_START + HEAP_MAX_SIZE && to <= HEAP_START + HEAP_MAX_SIZE
      requires sound ==> a <= b && MappedUpTo(start, taken, free, a, a)
      modifies vm.ram, vm.pmm, vm.pmm.bitmap
      ensures vm.Usable() && vm.pmm.totalFrames == old(vm.pmm.totalFrames)
      ensures sound ==> MappedUpTo(start, taken, free, a, b)
    {
      hide AddressSpace.Usable, MappedUpTo;
      var va := from;
      ghost var k := a;
      while va < to
        invariant va == k * PAGE_SIZE && a <= k && (a <= b ==> k <= b)
        invariant vm.Usable() && vm.pmm.totalFrames == old(vm.pmm.totalFrames) && (va < to ==> va < HEAP_START + HEAP_MAX_SIZE)
        invariant sound ==> MappedUpTo(start, taken, free, a, k)
      {
        MapNextPage(va, start, taken, free, a, k, sound);
        va, k := va + PAGE_SIZE, k + 1;
      }
    }

    /**
     Maps [from, to) page by page. Over a backed heap, every page ends up in an existing frame of
     its own exactly when the free frames suffice, and then the heap so far keeps what it holds;
     otherwise pages or tables fall to frame 0 or past the end of memory.
     */
    method MapHeapRange(from: Word, to: Word)
      requires vm.Usable() && from % PAGE_SIZE == 0 && to % PAGE_SIZE == 0
      requires HEAP_START <= from <= HEAP_START + HEAP_MAX_SIZE && to <= HEAP_START + HEAP_MAX_SIZE
      modifies vm.ram, vm.pmm, vm.pmm.bitmap
      ensures vm.Usable() && vm.pmm.totalFrames == old(vm.pmm.totalFrames)
      ensures old(BackedTo(from)) && from <= to ==> (BackedTo(to) <==> old(FramesFor(from, to)))
      ensures old(BackedTo(from)) && from <= to && !old(FramesFor(from, to)) ==> FellOffMemory(to / PAGE_SIZE - 1)
      ensures old(BackedTo(from)) && from <= to && BackedTo(to) ==> HeapKept(old(vm.ram[..]), from)
    {
      ghost var sound := BackedTo(from) && from <= to;
      if sound {
        CountersTellFree(vm.pmm);
        StartMapping(from);
      }
      MapPages(from, to, vm.ram[..], |vm.pmm.Held()|, vm.pmm.FreeFrames(), from / PAGE_SIZE, to / PAGE_SIZE, sound);
      if from < to {
        OffMemoryIsNotBacking(to);
      }
    }

    /** The heap below `end` holds what it held in `before`. */
    ghost predicate HeapKept(before: Ram, end: Word)
      reads this, vm, vm.ram
      requires vm.ram.Length == FRAME_COUNT && vm.directory < FRAME_COUNT
    {
      ContentKept(before, vm.ram[..], vm.directory, HEAP_START / PAGE_SIZE, end / PAGE_SIZE)
    }

    lemma StartMapping(from: Word)
      requires BackedTo(from) && from % PAGE_SIZE == 0 && HEAP_START <= from <= HEAP_START + HEAP_MAX_SIZE
      ensures MappedUpTo(vm.ram[..], |vm.pmm.Held()|, vm.pmm.FreeFrames(), from / PAGE_SIZE, from / PAGE_SIZE)
    {
      HasFreeIff(vm.pmm);
    }

    /** What fell off memory is not backed. */
    lemma OffMemoryIsNotBacking(end: Word)
      requires vm.WellFormed() && HEAP_START < end && end % PAGE_SIZE == 0
      ensures FellOffMemory(end / PAGE_SIZE - 1) ==> !BackedTo(end)
    {
      var p := end / PAGE_SIZE - 1;
      if BackedTo(end) {
        assert Backed(vm.ram[..], vm.directory, vm.pmm.Held(), p);
      }
    }

    /** heap_init up to the hand-over: the initial range is mapped. */
    method InitPages()
      requires vm.Valid()
      modifies this, vm.ram, vm.pmm, vm.pmm.bitmap
      ensures Limits() && heapEnd == HEAP_START + HEAP_INITIAL_SIZE && vm.Usable()
      ensures vm.pmm.totalFrames == old(vm.pmm.totalFrames)
      ensures old(vm.pmm.OnlyRealFrames()) ==> (BackedTo(heapEnd) <==> old(FramesFor(HEAP_START, HEAP_START + HEAP_INITIAL_SIZE)))
    {
      heapEnd := HEAP_START + HEAP_INITIAL_SIZE;
      heapMaxAddr := HEAP_START + HEAP_MAX_SIZE;
      MapHeapRange(HEAP_START, heapEnd);
    }

    /**
     munux_c_heap_grow: the new end, or 0 past the limit. The heap stays backed through a
     growth exactly when the free frames cover it, and keeps what it holds.
     */
    method Grow(minBytes: Word) returns (newEnd: Word)
      requires Limits() && vm.Usable()
      modifies this`heapEnd, vm.ram, vm.pmm, vm.pmm.bitmap
      ensures newEnd == if NextEnd(old(heapEnd), minBytes) > heapMaxAddr then 0 else NextEnd(old(heapEnd), minBytes)
      ensures heapEnd == if NextEnd(old(heapEnd), minBytes) > heapMaxAddr then old(heapEnd) else newEnd
      ensures vm.Usable()
      ensures old(BackedTo(heapEnd)) && old(heapEnd) < heapEnd ==>
                (BackedTo(heapEnd) <==> old(FramesFor(heapEnd, NextEnd(heapEnd, minBytes))))
      ensures heapEnd == old(heapEnd) && old(BackedTo(heapEnd)) ==> BackedTo(heapEnd)
      ensures old(BackedTo(heapEnd)) && old(heapEnd) <= heapEnd && BackedTo(heapEnd) ==> HeapKept(old(vm.ram[..]), old(heapEnd))
    {
      hide AllBacked, ContentKept, And, Marks, Inside, ClearOf;
      if vm.pmm.OnlyRealFrames() {
        CountersTellFree(vm.pmm);
      }
      NothingMoved(vm.ram[..], vm.directory, HEAP_START / PAGE_SIZE, heapEnd / PAGE_SIZE);
      PageMask(Wrap(minBytes + PAGE_SIZE - 1));
      var aligned := And(Wrap(minBytes + PAGE_SIZE - 1), PAGE_MASK);
      newEnd := Wrap(heapEnd + aligned);
      NextEndAligned(heapEnd, minBytes);
      HasFreeIff(vm.pmm);
      if newEnd > heapMaxAddr {
        return 0;
      }
      MapHeapRange(heapEnd, newEnd);
      heapEnd := newEnd;
    }
  }

  // ----- why heap memory is safe to treat as memory of its own

  /** The word at a heap address, as the processor finds it through the page tables. */
  ghost function WordAt(ram: Ram, dir: nat, va: Word): Word
    requires dir < FRAME_COUNT
  {
    PageContent(ram, dir, va / PAGE_SIZE)[va % PAGE_SIZE / 4]
  }

  /** The words of `mem` below `end` are the words of RAM at the same addresses. */
  ghost predicate Reflects(mem: map<nat, Word>, ram: Ram, dir: nat, end: Word)
    requires dir < FRAME_COUNT
  {
    forall a: Word :: HEAP_START <= a < end && a % 4 == 0 && a in mem ==> mem[a] == WordAt(ram, dir, a)
  }

  /** What growing keeps of every page it keeps of every word. */
  lemma ReflectsKept(mem: map<nat, Word>, before: Ram, after: Ram, dir: nat, end: Word)
    requires dir < FRAME_COUNT && end % PAGE_SIZE == 0 && Reflects(mem, before, dir, end)
    requires ContentKept(before, after, dir, HEAP_START / PAGE_SIZE, end / PAGE_SIZE)
    ensures Reflects(mem, after, dir, end)
  {
    forall a: Word | HEAP_START <= a < end && a % 4 == 0 && a in mem
      ensures mem[a] == WordAt(after, dir, a)
    {
      assert PageContent(after, dir, a / PAGE_SIZE) == PageContent(before, dir, a / PAGE_SIZE);
    }
  }

  /** `mem` with the words RAM holds in [lo, hi). */
  ghost function Taken(mem: map<nat, Word>, ram: Ram, dir: nat, lo: Word, hi: Word): map<nat, Word>
    requires dir < FRAME_COUNT
  {
    mem + map a: nat | lo <= a < hi && a % 4 == 0 :: WordAt(ram, dir, a)
  }

  /** At boot, from the start of the heap, and at each growth, from its old end: the new words are those RAM holds. */
  lemma ReflectsTaken(mem: map<nat, Word>, before: Ram, after: Ram, dir: nat, lo: Word, hi: Word)
    requires dir < FRAME_COUNT && lo % PAGE_SIZE == 0 && Reflects(mem, before, dir, lo)
    requires ContentKept(before, after, dir, HEAP_START / PAGE_SIZE, lo / PAGE_SIZE)
    ensures Reflects(Taken(mem, after, dir, lo, hi), after, dir, hi)
    ensures forall a: nat :: lo <= a < hi && a % 4 == 0 ==> a in Taken(mem, after, dir, lo, hi)
  {
    ReflectsKept(mem, before, after, dir, lo);
  }

  lemma WordPlace(a: Word)
    requires a % 4 == 0
    ensures a == PAGE_SIZE * (a / PAGE_SIZE) + 4 * (a % PAGE_SIZE / 4)
  {
    assert a == 4 * (1024 * (a / PAGE_SIZE)) + a % PAGE_SIZE;
  }

  lemma SameWordIff(a: Word, b: Word)
    requires a % 4 == 0 && b % 4 == 0
    ensures a == b <==> a / PAGE_SIZE == b / PAGE_SIZE && a % PAGE_SIZE / 4 == b % PAGE_SIZE / 4
  {
    WordPlace(a);
    WordPlace(b);
  }

  lemma BackedThroughWrite(ram: Ram, dir: nat, owned: set<nat>, lo: nat, hi: nat, f: nat, k: nat, v: Word)
    requires dir < FRAME_COUNT && hi <= FRAME_COUNT && f < FRAME_COUNT && k < ENTRIES && HoldsData(ram[dir], dir, f)
    requires AllBacked(ram, dir, owned, lo, hi)
    ensures var after := WithSlot(ram, f, k, v);
            after[dir] == ram[dir] && SameMap(ram, after, dir) && AllBacked(after, dir, owned, lo, hi)
  {
    DataWritten(ram, dir, f, k, v);
    var after := WithSlot(ram, f, k, v);
    hide Entry, HoldsData, WithSlot;
    forall q | lo <= q < hi
      ensures Backed(after, dir, owned, q) && Entry(after, dir, q) == Entry(ram, dir, q)
    {
      assert Backed(ram, dir, owned, q);
    }
  }

  /** Writing one word of a backed heap changes that word and no other, and moves no page. */
  lemma WordWritten(ram: Ram, dir: nat, owned: set<nat>, end: Word, va: Word, v: Word)
    requires dir < FRAME_COUNT && end % PAGE_SIZE == 0 && HEAP_START <= va < end && va % 4 == 0
    requires AllBacked(ram, dir, owned, HEAP_START / PAGE_SIZE, end / PAGE_SIZE)
    ensures var after := WithSlot(ram, FrameOf(Entry(ram, dir, va / PAGE_SIZE)), va % PAGE_SIZE / 4, v);
            && after[dir] == ram[dir] && SameMap(ram, after, dir)
            && AllBacked(after, dir, owned, HEAP_START / PAGE_SIZE, end / PAGE_SIZE)
            && forall a: Word :: HEAP_START <= a < end && a % 4 == 0 ==>
                 WordAt(after, dir, a) == if a == va then v else WordAt(ram, dir, a)
  {
    var p, k := va / PAGE_SIZE, va % PAGE_SIZE / 4;
    var f := FrameOf(Entry(ram, dir, p));
    assert Backed(ram, dir, owned, p);
    BackedThroughWrite(ram, dir, owned, HEAP_START / PAGE_SIZE, end / PAGE_SIZE, f, k, v);
    var after := WithSlot(ram, f, k, v);
    hide Entry, HoldsData, Backed;
    forall a: Word | HEAP_START <= a < end && a % 4 == 0
      ensures WordAt(after, dir, a) == if a == va then v else WordAt(ram, dir, a)
    {
      SameWordIff(a, va);
      assert a / PAGE_SIZE == p || FrameOf(Entry(ram, dir, a / PAGE_SIZE)) != f;
    }
  }

  /** A store through the page tables is a store in `mem`. */
  method StoreWord(h: HeapMapper, va: Word, v: Word, ghost end: Word, ghost mem: map<nat, Word>)
    requires h.BackedTo(end) && end % PAGE_SIZE == 0 && HEAP_START <= va < end && va % 4 == 0
    requires Reflects(mem, h.vm.ram[..], h.vm.directory, end)
    modifies h.vm.ram
    ensures h.BackedTo(end) && Reflects(mem[va as nat := v], h.vm.ram[..], h.vm.directory, end)
  {
    ghost var before := h.vm.ram[..];
    assert Backed(before, h.vm.directory, h.vm.pmm.Held(), va / PAGE_SIZE);
    BackedTranslates(Entry(before, h.vm.directory, va / PAGE_SIZE), va);
    WordWritten(before, h.vm.directory, h.vm.pmm.Held(), end, va, v);
    hide AllBacked, Entry, WordAt;
    var pa := h.vm.GetPhysicalAddress(va);
    h.vm.ram[pa / PAGE_SIZE] := h.vm.ram[pa / PAGE_SIZE][pa % PAGE_SIZE / 4 := v];
    assert h.vm.ram[..] == WithSlot(before, pa / PAGE_SIZE, pa % PAGE_SIZE / 4, v);
  }

  /** A load through the page tables gives the word of `mem`. */
  method LoadWord(h: HeapMapper, va: Word, ghost end: Word, ghost mem: map<nat, Word>) returns (v: Word)
    requires h.BackedTo(end) && end % PAGE_SIZE == 0 && HEAP_START <= va < end && va % 4 == 0 && va in mem
    requires Reflects(mem, h.vm.ram[..], h.vm.directory, end)
    ensures v == mem[va]
  {
    assert Backed(h.vm.ram[..], h.vm.directory, h.vm.pmm.Held(), va / PAGE_SIZE);
    BackedTranslates(Entry(h.vm.ram[..], h.vm.directory, va / PAGE_SIZE), va);
    var pa := h.vm.GetPhysicalAddress(va);
    v := h.vm.ram[pa / PAGE_SIZE][pa % PAGE_SIZE / 4];
  }

  ghost function PhysicalOf(ram: Ram, dir: nat, va: Word): nat
    requires dir < FRAME_COUNT
  {
    Translation(Entry(ram, dir, va / PAGE_SIZE), va)
  }

  /** Distinct heap addresses are distinct bytes of memory that exists, and none is a byte of a page table or the directory. */
  lemma HeapBytesAreDistinct(h: HeapMapper, end: Word, v: Word, w: Word)
    requires h.vm.Valid() && h.BackedTo(end) && end % PAGE_SIZE == 0
    requires HEAP_START <= v < end && HEAP_START <= w < end && v != w
    ensures var pv, pw := PhysicalOf(h.vm.ram[..], h.vm.directory, v), PhysicalOf(h.vm.ram[..], h.vm.directory, w);
            && pv != pw && pv / PAGE_SIZE != h.vm.directory
            && RESERVED_FRAMES <= pv / PAGE_SIZE < h.vm.pmm.totalFrames
            && forall j :: 0 <= j < ENTRIES && HasTable(h.vm.ram[h.vm.directory], j) ==>
                 pv / PAGE_SIZE != TableFrame(h.vm.ram[h.vm.directory], j)
  {
    var ram: Ram, dir := h.vm.ram[..], h.vm.directory;
    var owned := h.vm.pmm.Held();
    var p, q := v / PAGE_SIZE, w / PAGE_SIZE;
    assert Backed(ram, dir, owned, p) && Backed(ram, dir, owned, q);
    BackedTranslates(Entry(ram, dir, p), v);
    BackedTranslates(Entry(ram, dir, q), w);
    assert p == q || FrameOf(Entry(ram, dir, p)) != FrameOf(Entry(ram, dir, q));
  }

  lemma BackedTranslates(e: Word, va: Word)
    requires e % PAGE_SIZE == PAGE_PRESENT + PAGE_WRITE
    ensures Translation(e, va) == FrameOf(e) * PAGE_SIZE + va % PAGE_SIZE
  {
    var q := e / PAGE_SIZE;
    assert e == 2 * (2048 * q + 1) + 1;
  }
}
