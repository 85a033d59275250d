/**
 The virtual memory manager: a two-level x86 page table kept in physical frames, and the
 flat page map it stands for.
 */
module Vmm {
  import opened Words
  import opened Pmm

  const PAGE_PRESENT := 1
  const PAGE_WRITE := 2
  const ENTRIES := 1024
  const IDENTITY_LIMIT := 0x80_0000
  const VGA_BUFFER := 0xB8000

  /** Frames, and pages, of a 32-bit address space. */
  const FRAME_COUNT := 0x10_0000

  // ----- entries

  // The meaning of an entry or an address, and the mask expression that computes it.

  predicate Present(entry: Word) {
    entry % 2 == 1
  }

  /** Present, and open to writes. */
  predicate Writable(entry: Word) {
    entry % 2 == 1 && entry / 2 % 2 == 1
  }

  predicate PresentBit(entry: Word)
    ensures PresentBit(entry) == Present(entry)
  {
    MaskTestsBit(entry, 0);
    assert Pow2(0) == PAGE_PRESENT;
    And(entry, PAGE_PRESENT) != 0
  }

  function FrameOf(entry: Word): (f: nat)
    ensures f < FRAME_COUNT
  {
    entry / PAGE_SIZE
  }

  function FrameBase(entry: Word): (a: Word)
    ensures a == FrameOf(entry) * PAGE_SIZE
  {
    PageMask(entry);
    And(entry, PAGE_MASK)
  }

  function DirectoryIndex(va: Word): (i: nat)
    ensures i < ENTRIES
  {
    va / PAGE_SIZE / ENTRIES
  }

  function ShiftedDirectoryIndex(va: Word): (i: nat)
    ensures i == DirectoryIndex(va)
  {
    ShrIsDivision(va, 22); Pow2Of22();
    Shr(va, 22)
  }

  function TableIndex(va: Word): (i: nat)
    ensures i < ENTRIES
  {
    va / PAGE_SIZE % ENTRIES
  }

  function ShiftedTableIndex(va: Word): (i: nat)
    ensures i == TableIndex(va)
  {
    ShrIsDivision(va, 12); Pow2Of32(); LowMask(Shr(va, 12), 10, 0x3FF); LowIsRemainder(Shr(va, 12), 10);
    And(Shr(va, 12), 0x3FF)
  }

  function PageOffset(va: Word): (o: nat)
    ensures o == va % PAGE_SIZE
  {
    Pow2Of32(); LowMask(va, 12, 0xFFF); LowOfPage(va);
    And(va, 0xFFF)
  }

  /** The entry for a page mapped to the frame containing `pa`. */
  function PageEntry(pa: Word, flags: Word): Word
    requires flags < PAGE_SIZE
  {
    FloorToPage(pa) + flags
  }

  function ComposedPageEntry(pa: Word, flags: Word): (e: Word)
    requires flags < PAGE_SIZE
    ensures e == PageEntry(pa, flags)
  {
    PageEntryFacts(pa, flags);
    Or(And(pa, PAGE_MASK), flags)
  }

  lemma PageEntryFacts(pa: Word, flags: Word)
    requires flags < PAGE_SIZE
    ensures Or(And(pa, PAGE_MASK), flags) == FloorToPage(pa) + flags < MODULUS
  {
    PageMask(pa);
    LowCleared(pa, 12);
    LowOfPage(pa);
    assert flags < Pow2(12) by { Pow2Of32(); }
    OrDisjoint(pa - Low(pa, 12), flags, 12);
  }

  /** The directory entry for a table in the frame at `table`. */
  function ComposedTableEntry(table: Word, flags: Word): (e: Word)
    requires flags < PAGE_SIZE
    ensures FrameOf(e) == table / PAGE_SIZE && Writable(e)
  {
    TableEntryFacts(table, flags);
    Or(Or(Or(table, PAGE_PRESENT), PAGE_WRITE), flags)
  }

  lemma TableEntryFacts(table: Word, flags: Word)
    requires flags < PAGE_SIZE
    ensures var e := Or(Or(Or(table, PAGE_PRESENT), PAGE_WRITE), flags);
            e < MODULUS && e / PAGE_SIZE == table / PAGE_SIZE && e % 2 == 1 && e / 2 % 2 == 1
  {
    Pow2Of32();
    var a := Or(table, PAGE_PRESENT);
    var b := Or(a, PAGE_WRITE);
    var e := Or(b, flags);
    OrBound(table, PAGE_PRESENT, 32); OrBound(a, PAGE_WRITE, 32); OrBound(b, flags, 32);
    OrKeepsHigh(table, PAGE_PRESENT, 12); OrKeepsHigh(a, PAGE_WRITE, 12); OrKeepsHigh(b, flags, 12);
    ShrIsDivision(table, 12); ShrIsDivision(e, 12);
    OrBits(table, PAGE_PRESENT, 0); OrBits(a, PAGE_WRITE, 0); OrBits(b, flags, 0);
    OrBits(a, PAGE_WRITE, 1); OrBits(b, flags, 1);
    assert Bit(e, 0) && Bit(e, 1);
  }

  // ----- page tables as values

  /** The words of one physical frame. */
  type Frame = f: seq<Word> | |f| == ENTRIES witness seq(ENTRIES, i => 0)

  type Ram = r: seq<Frame> | |r| == FRAME_COUNT witness seq<Frame>(FRAME_COUNT, i => seq(ENTRIES, k => 0))

  ghost predicate HasTable(row: Frame, i: nat)
    requires i < ENTRIES
  {
    Present(row[i])
  }

  ghost function TableFrame(row: Frame, i: nat): nat
    requires i < ENTRIES
  {
    FrameOf(row[i])
  }

  /** The directory, whose entries are `row`, and every table own a frame of their own, and all tables are writable. */
  ghost predicate Sound(row: Frame, dir: nat, owned: set<nat>) {
    && dir in owned
    && (forall i :: 0 <= i < ENTRIES && HasTable(row, i) ==>
          Writable(row[i]) && TableFrame(row, i) in owned && TableFrame(row, i) != dir)
    && (forall i, j :: 0 <= i < j < ENTRIES && HasTable(row, i) && HasTable(row, j) ==> TableFrame(row, i) != TableFrame(row, j))
  }

  /** The flat page map: the entry that governs a page, 0 where there is no table. */
  ghost function Entry(ram: Ram, dir: nat, page: nat): Word
    requires dir < FRAME_COUNT && page < FRAME_COUNT
  {
    var row := ram[dir];
    if HasTable(row, page / ENTRIES) then ram[TableFrame(row, page / ENTRIES)][page % ENTRIES] else 0
  }

  ghost predicate SameMap(before: Ram, after: Ram, dir: nat)
    requires dir < FRAME_COUNT
  {
    forall q :: 0 <= q < FRAME_COUNT ==> Entry(after, dir, q) == Entry(before, dir, q)
  }

  /** The flat map differs in one page only, which now has entry `e`. */
  ghost predicate OnePageChanged(before: Ram, after: Ram, dir: nat, page: nat, e: Word)
    requires dir < FRAME_COUNT
  {
    forall q :: 0 <= q < FRAME_COUNT ==> Entry(after, dir, q) == (if q == page then e else Entry(before, dir, q))
  }

  /** Memory after a zeroed table at frame `t` is hung on directory slot `i`. */
  ghost function WithTable(ram: Ram, dir: nat, i: nat, t: nat, pde: Word): Ram
    requires dir < FRAME_COUNT && i < ENTRIES && t < FRAME_COUNT
  {
    ram[dir := ram[dir][i := pde]][t := seq(ENTRIES, k => 0)]
  }

  ghost function WithSlot(ram: Ram, f: nat, k: nat, e: Word): Ram
    requires f < FRAME_COUNT && k < ENTRIES
  {
    ram[f := ram[f][k := e]]
  }

  /** Slot `i` now has a table and the tables there were are untouched. */
  ghost predicate Extends(before: Frame, after: Frame, i: nat) {
    && (forall j :: 0 <= j < ENTRIES ==> (HasTable(after, j) <==> HasTable(before, j) || j == i))
    && (forall j :: 0 <= j < ENTRIES && HasTable(before, j) ==> TableFrame(after, j) == TableFrame(before, j))
  }

  lemma SoundWithTable(row: Frame, dir: nat, owned: set<nat>, i: nat, t: nat, pde: Word)
    requires Sound(row, dir, owned) && i < ENTRIES && t !in owned && FrameOf(pde) == t && Writable(pde)
    ensures Sound(row[i := pde], dir, owned + {t})
    ensures !HasTable(row, i) ==> Extends(row, row[i := pde], i)
  {
    var after := row[i := pde];
    forall j | 0 <= j < ENTRIES && j != i
      ensures HasTable(after, j) == HasTable(row, j) && TableFrame(after, j) == TableFrame(row, j)
    {
    }
  }

  /** No table lies over the directory itself. */
  ghost predicate ClearOf(row: Frame, dir: nat) {
    forall i :: 0 <= i < ENTRIES && HasTable(row, i) ==> TableFrame(row, i) != dir
  }

  lemma ClearOfWithTable(row: Frame, dir: nat, i: nat, t: nat, pde: Word)
    requires i < ENTRIES && FrameOf(pde) == t != dir
    ensures ClearOf(row, dir) ==> ClearOf(row[i := pde], dir)
  {
    var after: Frame := row[i := pde];
    forall j | 0 <= j < ENTRIES && HasTable(after, j) && ClearOf(row, dir)
      ensures TableFrame(after, j) != dir
    {
      if j != i {
        assert HasTable(row, j) && TableFrame(row, j) == TableFrame(after, j);
      }
    }
  }

  /** The frame is neither the directory nor a table. */
  ghost predicate HoldsData(row: Frame, dir: nat, f: nat) {
    f != dir && forall j :: 0 <= j < ENTRIES && HasTable(row, j) ==> TableFrame(row, j) != f
  }

  /** A fresh zeroed table changes no page of the flat map. */
  lemma TableAdded(ram: Ram, dir: nat, owned: set<nat>, i: nat, t: nat, pde: Word)
    requires dir < FRAME_COUNT && Sound(ram[dir], dir, owned) && i < ENTRIES && !HasTable(ram[dir], i)
    requires t !in owned && t < FRAME_COUNT && Writable(pde) && FrameOf(pde) == t
    ensures var after := WithTable(ram, dir, i, t, pde);
            && after[dir] == ram[dir][i := pde]
            && Sound(after[dir], dir, owned + {t})
            && SameMap(ram, after, dir)
  {
    var after := WithTable(ram, dir, i, t, pde);
    SoundWithTable(ram[dir], dir, owned, i, t, pde);
    forall q | 0 <= q < FRAME_COUNT
      ensures Entry(after, dir, q) == Entry(ram, dir, q)
    {
      var j := q / ENTRIES;
      if j != i && HasTable(ram[dir], j) {
        assert TableFrame(after[dir], j) == TableFrame(ram[dir], j) != t;
      }
    }
  }

  /** Writing one slot of a table changes exactly one page of the flat map. */
  lemma SlotWritten(ram: Ram, dir: nat, owned: set<nat>, page: nat, e: Word)
    requires dir < FRAME_COUNT && Sound(ram[dir], dir, owned) && page < FRAME_COUNT && HasTable(ram[dir], page / ENTRIES)
    ensures var after := WithSlot(ram, TableFrame(ram[dir], page / ENTRIES), page % ENTRIES, e);
            && after[dir] == ram[dir]
            && OnePageChanged(ram, after, dir, page, e)
  {
    var row := ram[dir];
    var t := TableFrame(row, page / ENTRIES);
    var after := WithSlot(ram, t, page % ENTRIES, e);
    assert after[dir] == row;
    forall q | 0 <= q < FRAME_COUNT
      ensures Entry(after, dir, q) == if q == page then e else Entry(ram, dir, q)
    {
      var j := q / ENTRIES;
      if HasTable(row, j) {
        assert j == page / ENTRIES || TableFrame(row, j) != t;
      }
    }
  }

  /** Writing a frame that holds data changes no page of the flat map. */
  lemma DataWritten(ram: Ram, dir: nat, f: nat, k: nat, v: Word)
    requires dir < FRAME_COUNT && f < FRAME_COUNT && k < ENTRIES && HoldsData(ram[dir], dir, f)
    ensures var after := WithSlot(ram, f, k, v); after[dir] == ram[dir] && SameMap(ram, after, dir)
  {
    var after := WithSlot(ram, f, k, v);
    forall q | 0 <= q < FRAME_COUNT
      ensures Entry(after, dir, q) == Entry(ram, dir, q)
    {
      var j := q / ENTRIES;
      assert HasTable(ram[dir], j) ==> TableFrame(ram[dir], j) != f;
    }
  }

  // ----- the pager

  class AddressSpace {
    const pmm: FrameAllocator

    /** Physical memory, frame by frame. */
    const ram: array<Frame>

    /** Frame of the current page directory. */
    var directory: nat

    constructor (pmm: FrameAllocator)
      ensures this.pmm == pmm && fresh(this) && fresh(ram)
      ensures ram.Length == FRAME_COUNT && directory == 0
    {
      this.pmm := pmm;
      ram := new Frame[FRAME_COUNT];
      directory := 0;
    }

    ghost predicate WellFormed()
      reads this, ram, pmm, pmm.bitmap
    {
      ram.Length == FRAME_COUNT && directory < FRAME_COUNT && pmm.Valid()
    }

    ghost predicate Valid()
      reads this, ram, pmm, pmm.bitmap
    {
      WellFormed() && Sound(ram[directory], directory, pmm.Held())
    }

    /** What survives running out of frames: no table lies over the directory. */
    ghost predicate Usable()
      reads this, ram, pmm, pmm.bitmap
    {
      && WellFormed()
      && directory in pmm.outstanding
      && ClearOf(ram[directory], directory)
    }

    ghost predicate HasTableFor(va: Word)
      reads this, ram
      requires ram.Length == FRAME_COUNT && directory < FRAME_COUNT
    {
      HasTable(ram[directory], DirectoryIndex(va))
    }

    ghost function EntryAt(page: nat): Word
      reads this, ram
      requires ram.Length == FRAME_COUNT && directory < FRAME_COUNT && page < FRAME_COUNT
    {
      Entry(ram[..], directory, page)
    }

    method ZeroFrame(frame: nat)
      requires frame < ram.Length
      modifies ram
      ensures ram[..] == old(ram[..])[frame := seq(ENTRIES, k => 0)]
    {
      for i := 0 to ENTRIES
        invariant forall k :: 0 <= k < i ==> ram[frame][k] == 0
        invariant forall f :: 0 <= f < ram.Length && f != frame ==> ram[f] == old(ram[f])
      {
        ram[frame] := ram[frame][i := 0];
      }
      assert ram[frame] == seq(ENTRIES, k => 0);
    }

    /** Hangs a zeroed table on a directory slot that has none; when no frame is left, one that does not exist serves, or frame 0. */
    method AddTable(i: nat, flags: Word) returns (ghost t: nat, ghost pde: Word)
      requires WellFormed() && flags < PAGE_SIZE && i < ENTRIES
      modifies ram, pmm, pmm.bitmap
      ensures WellFormed() && pmm.totalFrames == old(pmm.totalFrames)
      ensures t < FRAME_COUNT && Writable(pde) && FrameOf(pde) == t
      ensures ram[..] == WithTable(old(ram[..]), directory, i, t, pde)
      ensures old(pmm.outstanding) <= pmm.outstanding && t !in old(pmm.outstanding)
      ensures old(pmm.HasFree()) ==> t !in old(pmm.Held()) && pmm.Held() == old(pmm.Held()) + {t}
      ensures old(pmm.HasFree()) && old(pmm.OnlyRealFrames()) ==> pmm.OnlyRealFrames()
      ensures !old(pmm.HasFree()) ==> t !in pmm.Held() && pmm.Held() == old(pmm.Held())
    {
      hide LowestFree, Used, Marks, Inside;
      ghost var before := ram[..];
      var table := pmm.AllocFrame();
      pde := ComposedTableEntry(table, flags);
      t := table / PAGE_SIZE;
      ram[directory] := ram[directory][i := ComposedTableEntry(table, flags)];
      ZeroFrame(table / PAGE_SIZE);
    }

    /** Makes sure directory slot `i` has a table; no page of the flat map changes. */
    method EnsureTable(i: nat, flags: Word)
      requires WellFormed() && flags < PAGE_SIZE && i < ENTRIES
      modifies ram, pmm, pmm.bitmap
      ensures WellFormed() && pmm.totalFrames == old(pmm.totalFrames)
      ensures old(Usable()) ==> Usable() && HasTable(ram[directory], i)
      ensures old(HasTable(ram[directory], i)) || !old(pmm.HasFree()) ==> pmm.Held() == old(pmm.Held())
      ensures old(Valid()) && (old(HasTable(ram[directory], i)) || old(pmm.HasFree())) ==>
                Valid() && Extends(old(ram[directory]), ram[directory], i)
                && SameMap(old(ram[..]), ram[..], directory)
      ensures old(pmm.OnlyRealFrames()) && (old(HasTable(ram[directory], i)) || old(pmm.HasFree())) ==> pmm.OnlyRealFrames()
      ensures old(Valid()) && (old(HasTable(ram[directory], i)) || old(pmm.HasFree())) ==>
                forall f :: f in old(pmm.Held()) && f != directory ==> ram[f] == old(ram[f])
      ensures old(Valid()) && !old(HasTable(ram[directory], i)) && old(pmm.HasFree()) ==>
                var t := TableFrame(ram[directory], i);
                t !in old(pmm.Held()) && pmm.Held() == old(pmm.Held()) + {t}
      ensures old(Usable()) && !old(HasTable(ram[directory], i)) && !old(pmm.HasFree()) ==> TableFrame(ram[directory], i) !in pmm.Held()
    {
      if !PresentBit(ram[directory][i]) {
        ghost var before, owned := ram[..], pmm.Held();
        ghost var sound := Valid() && pmm.HasFree();
        ghost var t, pde := AddTable(i, flags);
        if sound {
          TableAdded(before, directory, owned, i, t, pde);
          SoundWithTable(before[directory], directory, owned, i, t, pde);
        }
        if t != directory {
          assert ram[directory] == before[directory][i := pde];
          ClearOfWithTable(before[directory], directory, i, t, pde);
        }
      }
    }

    /**
     vmm_map_page: changes exactly one page of the flat map, taking at most one frame, for a
     table, and writes to no frame that holds data. When it needs a table and no frame is left, it
     puts the table in frame 0 or in one that does not exist.
     */
    method MapPage(va: Word, pa: Word, flags: Word)
      requires WellFormed() && flags < PAGE_SIZE
      modifies ram, pmm, pmm.bitmap
      ensures WellFormed() && pmm.totalFrames == old(pmm.totalFrames)
      ensures old(HasTableFor(va)) || !old(pmm.HasFree()) ==> pmm.Held() == old(pmm.Held())
      ensures old(pmm.OnlyRealFrames()) && (old(HasTableFor(va)) || old(pmm.HasFree())) ==> pmm.OnlyRealFrames()
      ensures old(Valid()) && (old(HasTableFor(va)) || old(pmm.HasFree())) ==>
                forall f :: f in old(pmm.Held()) && HoldsData(old(ram[directory]), directory, f) ==> ram[f] == old(ram[f])
      ensures old(Valid()) && (old(HasTableFor(va)) || old(pmm.HasFree())) ==>
                && Valid() && Extends(old(ram[directory]), ram[directory], DirectoryIndex(va))
                && OnePageChanged(old(ram[..]), ram[..], directory, va / PAGE_SIZE, PageEntry(pa, flags))
      ensures old(Valid()) && !old(HasTableFor(va)) && old(pmm.HasFree()) ==>
                var t := TableFrame(ram[directory], DirectoryIndex(va));
                t !in old(pmm.Held()) && pmm.Held() == old(pmm.Held()) + {t}
      ensures old(Usable()) ==> Usable() && HasTableFor(va) && EntryAt(va / PAGE_SIZE) == PageEntry(pa, flags)
      ensures old(Usable()) && !old(HasTableFor(va)) && !old(pmm.HasFree()) ==>
                TableFrame(ram[directory], DirectoryIndex(va)) !in pmm.Held()
    {
      hide LowestFree, Used, Marks, Inside;
      var pdIndex := ShiftedDirectoryIndex(va);
      var ptIndex := ShiftedTableIndex(va);
      ghost var sound := Valid() && (HasTableFor(va) || pmm.HasFree());
      ghost var usable := Usable();
      EnsureTable(pdIndex, flags);
      var table := FrameBase(ram[directory][pdIndex]) / PAGE_SIZE;
      assert sound ==> forall f :: f in old(pmm.Held()) && HoldsData(old(ram[directory]), directory, f) ==> f != table;
      WriteSlot(va / PAGE_SIZE, table, ptIndex, ComposedPageEntry(pa, flags), usable, sound);
    }

    method WriteSlot(page: nat, table: nat, k: nat, e: Word, ghost usable: bool, ghost sound: bool)
      requires WellFormed() && table < FRAME_COUNT && k < ENTRIES && page < FRAME_COUNT
      requires usable ==> Usable() && HasTable(ram[directory], page / ENTRIES)
                          && table == TableFrame(ram[directory], page / ENTRIES) && k == page % ENTRIES
      requires sound ==> Valid() && usable
      modifies ram
      ensures WellFormed()
      ensures usable ==> Usable() && ram[directory] == old(ram[directory]) && EntryAt(page) == e
      ensures sound ==> Valid()
      ensures sound ==> OnePageChanged(old(ram[..]), ram[..], directory, page, e)
      ensures forall f :: 0 <= f < FRAME_COUNT && f != table ==> ram[f] == old(ram[f])
    {
      ghost var before := ram[..];
      ram[table] := ram[table][k := e];
      assert ram[..] == WithSlot(before, table, k, e);
      if sound {
        SlotWritten(before, directory, pmm.Held(), page, e);
      }
    }

    /** Clears one page of the flat map; a page without a table already has entry 0. */
    method UnmapPage(va: Word)
      requires Valid()
      modifies ram
      ensures Valid()
      ensures OnePageChanged(old(ram[..]), ram[..], directory, va / PAGE_SIZE, 0)
    {
      var pdIndex := ShiftedDirectoryIndex(va);
      var ptIndex := ShiftedTableIndex(va);
      if PresentBit(ram[directory][pdIndex]) {
        WriteSlot(va / PAGE_SIZE, FrameBase(ram[directory][pdIndex]) / PAGE_SIZE, ptIndex, 0, true, true);
      }
    }

    /** Frame base plus offset for a present page, 0 otherwise. */
    method GetPhysicalAddress(va: Word) returns (pa: Word)
      requires WellFormed()
      ensures pa == Translation(EntryAt(va / PAGE_SIZE), va)
    {
      var pdIndex := ShiftedDirectoryIndex(va);
      var ptIndex := ShiftedTableIndex(va);
      var offset := PageOffset(va);
      if !PresentBit(ram[directory][pdIndex]) {
        return 0;
      }
      var entry := ram[FrameBase(ram[directory][pdIndex]) / PAGE_SIZE][ptIndex];
      if !PresentBit(entry) {
        return 0;
      }
      pa := FrameBase(entry) + offset;
    }

    /** The first n pages, and no others, are identity-mapped, through n/1024 (rounded up) tables. */
    ghost predicate IdentityUpTo(n: nat, base: nat)
      reads this, ram, pmm, pmm.bitmap
    {
      && Valid() && pmm.OnlyRealFrames()
      && |pmm.Held()| == base + TablesFor(n)
      && (forall j :: 0 <= j < ENTRIES ==> (HasTable(ram[directory], j) <==> j < TablesFor(n)))
      && (forall q :: 0 <= q < FRAME_COUNT ==> Entry(ram[..], directory, q) == IdentityEntry(q, n))
    }

    method MapIdentityPage(n: nat, ghost base: nat, ghost sound: bool)
      requires WellFormed() && n < IDENTITY_LIMIT / PAGE_SIZE
      requires sound ==> IdentityUpTo(n, base) && pmm.FreeFrames() + TablesFor(n) >= 2
      modifies ram, pmm, pmm.bitmap
      ensures WellFormed() && pmm.totalFrames == old(pmm.totalFrames)
      ensures sound ==> IdentityUpTo(n + 1, base) && pmm.FreeFrames() + TablesFor(n + 1) == old(pmm.FreeFrames()) + TablesFor(n)
    {
      HasFreeIff(pmm);
      assert n * PAGE_SIZE / PAGE_SIZE == n;
      assert sound ==> (HasTableFor(n * PAGE_SIZE) <==> n / ENTRIES < TablesFor(n));
      MapPage(n * PAGE_SIZE, n * PAGE_SIZE, PAGE_PRESENT + PAGE_WRITE);
    }

    method NewDirectory()
      requires ram.Length == FRAME_COUNT && pmm.Valid()
      modifies this`directory, ram, pmm, pmm.bitmap
      ensures WellFormed() && pmm.totalFrames == old(pmm.totalFrames)
      ensures old(pmm.OnlyRealFrames()) && old(pmm.FreeFrames()) > 0 ==>
                IdentityUpTo(0, |old(pmm.Held())| + 1) && pmm.FreeFrames() == old(pmm.FreeFrames()) - 1
    {
      hide LowestFree, Used, Marks, Inside;
      HasFreeIff(pmm);
      var frame := pmm.AllocFrame();
      directory := frame / PAGE_SIZE;
      ZeroFrame(directory);
      EmptyDirectory(ram[..], directory, pmm.Held());
    }

    /**
     vmm_init: with three frames to spare by the kernel's counters, exactly the first 8 MiB are
     mapped, each page to the frame of the same number (the screen buffer among them), and the
     directory and both tables lie in memory that exists.
     */
    method Init()
      requires ram.Length == FRAME_COUNT && pmm.Valid()
      modifies this`directory, ram, pmm, pmm.bitmap
      ensures WellFormed() && pmm.totalFrames == old(pmm.totalFrames)
      ensures old(pmm.OnlyRealFrames()) && old(pmm.usedFrames) + 3 <= old(pmm.totalFrames) ==>
                IdentityUpTo(IDENTITY_LIMIT / PAGE_SIZE, |old(pmm.Held())| + 1)
    {
      hide AddressSpace.IdentityUpTo, Marks, Inside;
      ghost var sound := pmm.OnlyRealFrames() && pmm.usedFrames + 3 <= pmm.totalFrames;
      if sound {
        CountersTellFree(pmm);
      }
      ghost var base := |pmm.Held()| + 1;
      NewDirectory();
      var i := 0;
      while i < IDENTITY_LIMIT
        invariant 0 <= i <= IDENTITY_LIMIT && i % PAGE_SIZE == 0
        invariant WellFormed() && pmm.totalFrames == old(pmm.totalFrames)
        invariant sound ==> IdentityUpTo(i / PAGE_SIZE, base) && pmm.FreeFrames() + TablesFor(i / PAGE_SIZE) >= 2
      {
        MapIdentityPage(i / PAGE_SIZE, base, sound);
        i := i + PAGE_SIZE;
      }
      MapVga(base, sound);
    }

    /** The screen buffer already lies below 8 MiB, so mapping it again changes nothing. */
    method MapVga(ghost base: nat, ghost sound: bool)
      requires WellFormed()
      requires sound ==> IdentityUpTo(IDENTITY_LIMIT / PAGE_SIZE, base)
      modifies ram, pmm, pmm.bitmap
      ensures WellFormed() && pmm.totalFrames == old(pmm.totalFrames)
      ensures sound ==> IdentityUpTo(IDENTITY_LIMIT / PAGE_SIZE, base)
    {
      assert sound ==> HasTableFor(VGA_BUFFER);
      MapPage(VGA_BUFFER, VGA_BUFFER, PAGE_PRESENT + PAGE_WRITE);
    }
  }

  /** Tables needed for the first n pages. */
  function TablesFor(n: nat): nat {
    (n + ENTRIES - 1) / ENTRIES
  }

  function Translation(entry: Word, va: Word): nat {
    if Present(entry) then FrameOf(entry) * PAGE_SIZE + va % PAGE_SIZE else 0
  }

  function IdentityEntry(page: nat, limit: nat): nat {
    if page < limit then page * 4096 + 3 else 0
  }

  lemma EmptyDirectory(ram: Ram, dir: nat, owned: set<nat>)
    requires dir < FRAME_COUNT && ram[dir] == seq(ENTRIES, k => 0)
    ensures forall j :: 0 <= j < ENTRIES ==> !HasTable(ram[dir], j)
    ensures dir in owned ==> Sound(ram[dir], dir, owned)
    ensures forall q :: 0 <= q < FRAME_COUNT ==> Entry(ram, dir, q) == 0
  {
  }

  lemma IdentityEntryTranslates(va: Word)
    requires va < IDENTITY_LIMIT
    ensures Translation(IdentityEntry(va / PAGE_SIZE, IDENTITY_LIMIT / PAGE_SIZE), va) == va
  {
    assert (va / PAGE_SIZE * PAGE_SIZE + 3) / PAGE_SIZE == va / PAGE_SIZE;
  }

  /** After vmm_init every address below 8 MiB translates to itself. */
  lemma IdentityTranslates(vm: AddressSpace, base: nat, va: Word)
    requires vm.IdentityUpTo(2048, base) && va < 0x80_0000
    ensures Translation(vm.EntryAt(va / PAGE_SIZE), va) == va
  {
    hide Entry, Translation, IdentityEntry, Sound, Marks;
    IdentityEntryTranslates(va);
    assert vm.EntryAt(va / PAGE_SIZE) == IdentityEntry(va / PAGE_SIZE, IDENTITY_LIMIT / PAGE_SIZE);
  }
}
