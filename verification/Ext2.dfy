/**
 The read-only ext2 reader: byte ranges assembled from cached sectors, block numbers through the
 direct, indirect and double-indirect pointers, files, directories and inodes. Names are the
 bytes of the strings the reader makes of them.
 */
module Ext2 {
  import opened BufferCache
  import opened Wrappers
  import Words

  const EXT2_MAGIC := 0xEF53
  const DIRECT := 12

  datatype Inode = Inode(size: nat, blocks: seq<nat>, indirect: nat, doubleIndirect: nat)

  datatype Fs = Fs(blockSize: nat, inodesPerGroup: nat, inodeSize: nat, bgdtOff: nat) {
    /** Pointers in a block. */
    function PerBlock(): nat {
      blockSize / 4
    }

    predicate Valid() {
      blockSize > 0 && blockSize % 4 == 0
    }
  }

  // ----- little-endian words

  function ReadU16(b: seq<Byte>, off: nat): (v: nat)
    requires off + 2 <= |b|
    ensures v < 0x1_0000
  {
    b[off] as int + 0x100 * b[off + 1] as int
  }

  function ReadU32(b: seq<Byte>, off: nat): (v: nat)
    requires off + 4 <= |b|
    ensures v < Words.MODULUS
  {
    b[off] as int + 0x100 * b[off + 1] as int + 0x1_0000 * b[off + 2] as int + 0x100_0000 * b[off + 3] as int
  }

  function PutU16(v: nat): seq<Byte>
    requires v < 0x1_0000
  {
    [v % 0x100, v / 0x100]
  }

  function PutU32(v: nat): seq<Byte>
    requires v < Words.MODULUS
  {
    [v % 0x100, v / 0x100 % 0x100, v / 0x1_0000 % 0x100, v / 0x100_0000]
  }

  lemma U16RoundTrip(b: seq<Byte>, off: nat, v: nat)
    requires v < 0x1_0000 && off + 2 <= |b| && b[off..off + 2] == PutU16(v)
    ensures ReadU16(b, off) == v
  {
    assert b[off..off + 2][0] == b[off] && b[off..off + 2][1] == b[off + 1];
  }

  lemma U32RoundTrip(b: seq<Byte>, off: nat, v: nat)
    requires v < Words.MODULUS && off + 4 <= |b| && b[off..off + 4] == PutU32(v)
    ensures ReadU32(b, off) == v
  {
    var w := b[off..off + 4];
    assert w[0] == b[off] && w[1] == b[off + 1] && w[2] == b[off + 2] && w[3] == b[off + 3];
    FourDigits(v);
  }

  lemma FourDigits(v: nat)
    ensures v == v % 0x100 + 0x100 * (v / 0x100 % 0x100) + 0x1_0000 * (v / 0x1_0000 % 0x100) + 0x100_0000 * (v / 0x100_0000)
  {
    var a, b := v / 0x100, v / 0x1_0000;
    assert v == 0x100 * a + v % 0x100 && a / 0x100 == b && b / 0x100 == v / 0x100_0000;
    assert a == 0x100 * b + a % 0x100 && b == 0x100 * (b / 0x100) + b % 0x100;
  }

  // ----- the disk as bytes

  function DiskSize(sectors: seq<Sector>): nat {
    |sectors| * SECTOR
  }

  function DiskByte(sectors: seq<Sector>, i: nat): Byte
    requires i < DiskSize(sectors)
  {
    sectors[i / SECTOR][i % SECTOR]
  }

  ghost function Slice(sectors: seq<Sector>, off: nat, len: nat): (s: seq<Byte>)
    requires off + len <= DiskSize(sectors)
    ensures |s| == len && forall i :: 0 <= i < len ==> s[i] == DiskByte(sectors, off + i)
  {
    seq<Byte>(len, i requires 0 <= i < len => DiskByte(sectors, off + i))
  }

  /** `len` bytes from `off`, out of whole sectors: the bytes of the disk, across sector boundaries. */
  method ReadRange(cache: Cache, off: nat, len: nat) returns (bytes: seq<Byte>)
    requires Coherent(cache.State()) && off + len <= DiskSize(cache.disk.sectors) && off + len < Words.MODULUS
    modifies cache
    ensures Coherent(cache.State()) && bytes == Slice(cache.disk.sectors, off, len)
  {
    hide Coherent, Apply;
    var start, end := off / SECTOR, (off + len + SECTOR - 1) / SECTOR;
    var raw: seq<Byte> := [];
    for sec := start to end
      invariant Coherent(cache.State()) && |raw| == (sec - start) * SECTOR
      invariant forall i :: 0 <= i < |raw| ==> raw[i] == DiskByte(cache.disk.sectors, start * SECTOR + i)
    {
      var block := cache.ReadSector(sec);
      raw := raw + block;
    }
    var skip := off % SECTOR;
    bytes := raw[skip..skip + len];
  }

  // ----- block arithmetic

  /** The first byte of a block. */
  function StartOf(fs: Fs, blk: nat): nat {
    blk * fs.blockSize
  }

  /** The block byte i of a file is in, and its place there. */
  function IndexOf(fs: Fs, i: nat): nat
    requires fs.blockSize > 0
  {
    i / fs.blockSize
  }

  function OffsetOf(fs: Fs, i: nat): (r: nat)
    requires fs.blockSize > 0
    ensures r < fs.blockSize
  {
    i % fs.blockSize
  }

  function BlocksOf(fs: Fs, size: nat): nat
    requires fs.blockSize > 0
  {
    (size + fs.blockSize - 1) / fs.blockSize
  }

  lemma StartsApart(fs: Fs, t: nat, u: nat)
    requires t < u
    ensures StartOf(fs, t) + fs.blockSize <= StartOf(fs, u)
  {
    Words.NextMultiple(t, u, fs.blockSize);
  }

  lemma StartOfNext(fs: Fs, n: nat)
    ensures StartOf(fs, 0) == 0 && StartOf(fs, n + 1) == StartOf(fs, n) + fs.blockSize
  {
  }

  lemma BlockOfByte(fs: Fs, n: nat, i: nat)
    requires fs.blockSize > 0 && StartOf(fs, n) <= i < StartOf(fs, n) + fs.blockSize
    ensures IndexOf(fs, i) == n && OffsetOf(fs, i) == i - StartOf(fs, n)
  {
    Words.ModUnique(i, fs.blockSize, n, i - StartOf(fs, n));
  }

  /** A file of `size` bytes has the blocks that start before its end. */
  lemma BlocksCover(fs: Fs, size: nat, n: nat)
    requires fs.blockSize > 0
    ensures n < BlocksOf(fs, size) <==> StartOf(fs, n) < size
  {
    var count := BlocksOf(fs, size);
    if n < count {
      Words.NextMultiple(n, count, fs.blockSize);
    } else if count < n {
      Words.NextMultiple(count, n, fs.blockSize);
    }
  }

  /** Whether place m past the indirect pointers is among the double-indirect ones. */
  predicate InReach(fs: Fs, m: nat) {
    m < fs.PerBlock() * fs.PerBlock()
  }

  function RowOf(fs: Fs, m: nat): (q: nat)
    requires fs.PerBlock() > 0 && InReach(fs, m)
    ensures q < fs.PerBlock()
  {
    var q := m / fs.PerBlock();
    assert q < fs.PerBlock() by {
      if fs.PerBlock() <= q {
        Words.NextMultiple(fs.PerBlock() - 1, q, fs.PerBlock());
      }
    }
    q
  }

  function ColumnOf(fs: Fs, m: nat): (r: nat)
    requires fs.PerBlock() > 0
    ensures r < fs.PerBlock()
  {
    m % fs.PerBlock()
  }

  lemma RowAndColumn(fs: Fs, a: nat, b: nat)
    requires fs.PerBlock() > 0 && InReach(fs, a) && InReach(fs, b)
    requires RowOf(fs, a) == RowOf(fs, b) && ColumnOf(fs, a) == ColumnOf(fs, b)
    ensures a == b
  {
  }

  // ----- logical blocks to disk blocks

  /** The block is on the disk and its bytes have 32-bit offsets, past which the reader's arithmetic halts. */
  predicate HasBlock(sectors: seq<Sector>, fs: Fs, blk: nat) {
    StartOf(fs, blk) + fs.blockSize <= DiskSize(sectors) && StartOf(fs, blk) + fs.blockSize < Words.MODULUS
  }

  ghost function BlockBytes(sectors: seq<Sector>, fs: Fs, blk: nat): (s: seq<Byte>)
    requires HasBlock(sectors, fs, blk)
    ensures |s| == fs.blockSize
  {
    hide StartOf;
    Slice(sectors, StartOf(fs, blk), fs.blockSize)
  }

  /** Pointer k of a block of pointers. */
  ghost function PointerIn(sectors: seq<Sector>, fs: Fs, table: nat, k: nat): (p: nat)
    requires HasBlock(sectors, fs, table) && k < fs.PerBlock()
  {
    ReadU32(BlockBytes(sectors, fs, table), k * 4)
  }

  /** Logical block n lies within the double-indirect reach, and the tables on the way to it are on the disk. */
  ghost predicate Reachable(sectors: seq<Sector>, fs: Fs, inode: Inode, n: nat)
    requires fs.Valid()
  {
    hide StartOf, InReach, RowOf, ColumnOf, HasBlock;
    var ppb := fs.PerBlock();
    |inode.blocks| == DIRECT &&
    if n < DIRECT then true
    else if n - DIRECT < ppb then inode.indirect == 0 || HasBlock(sectors, fs, inode.indirect)
    else
      InReach(fs, n - DIRECT - ppb) &&
      (inode.doubleIndirect == 0 ||
       (HasBlock(sectors, fs, inode.doubleIndirect) &&
        var outer := PointerIn(sectors, fs, inode.doubleIndirect, RowOf(fs, n - DIRECT - ppb));
        outer == 0 || HasBlock(sectors, fs, outer)))
  }

  /** The disk block that holds logical block n, 0 for none. */
  ghost function Pointer(sectors: seq<Sector>, fs: Fs, inode: Inode, n: nat): nat
    requires fs.Valid() && Reachable(sectors, fs, inode, n)
  {
    hide StartOf, InReach, RowOf, ColumnOf, HasBlock;
    var ppb := fs.PerBlock();
    if n < DIRECT then inode.blocks[n]
    else if n - DIRECT < ppb then
      if inode.indirect == 0 then 0 else PointerIn(sectors, fs, inode.indirect, n - DIRECT)
    else
      var m := n - DIRECT - ppb;
      if inode.doubleIndirect == 0 then 0
      else
        var outer := PointerIn(sectors, fs, inode.doubleIndirect, RowOf(fs, m));
        if outer == 0 then 0 else PointerIn(sectors, fs, outer, ColumnOf(fs, m))
  }

  method ReadPointer(cache: Cache, fs: Fs, table: nat, k: nat) returns (p: nat)
    requires Coherent(cache.State())
    requires fs.Valid() && HasBlock(cache.disk.sectors, fs, table) && k < fs.PerBlock()
    modifies cache
    ensures Coherent(cache.State()) && p == PointerIn(cache.disk.sectors, fs, table, k)
  {
    hide StartOf, Coherent, DiskByte, ReadU32;
    var tbl := ReadRange(cache, StartOf(fs, table), fs.blockSize);
    p := ReadU32(tbl, k * 4);
  }

  method BlockAt(cache: Cache, fs: Fs, inode: Inode, n: nat) returns (blk: nat)
    requires Coherent(cache.State())
    requires fs.Valid() && Reachable(cache.disk.sectors, fs, inode, n)
    modifies cache
    ensures Coherent(cache.State()) && blk == Pointer(cache.disk.sectors, fs, inode, n)
  {
    hide HasBlock, InReach, RowOf, ColumnOf, Coherent, PointerIn, DiskSize;
    if n < DIRECT {
      return inode.blocks[n];
    }
    var ppb := fs.PerBlock();
    var m := n - DIRECT;
    if m < ppb {
      if inode.indirect == 0 {
        return 0;
      }
      blk := ReadPointer(cache, fs, inode.indirect, m);
      return;
    }
    m := m - ppb;
    if inode.doubleIndirect == 0 {
      return 0;
    }
    var outer := ReadPointer(cache, fs, inode.doubleIndirect, RowOf(fs, m));
    if outer == 0 {
      return 0;
    }
    blk := ReadPointer(cache, fs, outer, ColumnOf(fs, m));
  }

  // ----- distinct logical blocks use distinct pointers

  /** The table block that holds the pointer of logical block n, 0 for none. */
  ghost function TableOf(sectors: seq<Sector>, fs: Fs, inode: Inode, n: nat): (t: nat)
    requires fs.Valid() && Reachable(sectors, fs, inode, n) && n >= DIRECT
    ensures t != 0 ==> HasBlock(sectors, fs, t)
  {
    hide StartOf, InReach, RowOf, ColumnOf, HasBlock;
    var ppb := fs.PerBlock();
    if n - DIRECT < ppb then inode.indirect
    else if inode.doubleIndirect == 0 then 0
    else PointerIn(sectors, fs, inode.doubleIndirect, RowOf(fs, n - DIRECT - ppb))
  }

  function PlaceOf(fs: Fs, n: nat): (k: nat)
    requires n >= DIRECT && fs.PerBlock() > 0
    ensures k < fs.PerBlock()
  {
    var ppb := fs.PerBlock();
    if n - DIRECT < ppb then n - DIRECT else ColumnOf(fs, n - DIRECT - ppb)
  }

  /** Where on the disk the pointer of logical block n is, in bytes. */
  ghost function SlotAddress(sectors: seq<Sector>, fs: Fs, inode: Inode, n: nat): nat
    requires fs.Valid() && Reachable(sectors, fs, inode, n) && n >= DIRECT
  {
    hide StartOf, InReach, RowOf, ColumnOf;
    StartOf(fs, TableOf(sectors, fs, inode, n)) + 4 * PlaceOf(fs, n)
  }

  /** The pointer is the word at its address. */
  lemma PointerAtSlot(sectors: seq<Sector>, fs: Fs, inode: Inode, n: nat)
    requires fs.Valid() && Reachable(sectors, fs, inode, n) && n >= DIRECT && TableOf(sectors, fs, inode, n) != 0
    ensures SlotAddress(sectors, fs, inode, n) + 4 <= DiskSize(sectors)
    ensures Pointer(sectors, fs, inode, n) == ReadU32(Slice(sectors, SlotAddress(sectors, fs, inode, n), 4), 0)
  {
    hide StartOf, InReach, RowOf, ColumnOf, DiskSize, DiskByte;
    var t, k := TableOf(sectors, fs, inode, n), PlaceOf(fs, n);
    assert Pointer(sectors, fs, inode, n) == PointerIn(sectors, fs, t, k);
    var table, word := BlockBytes(sectors, fs, t), Slice(sectors, StartOf(fs, t) + 4 * k, 4);
    assert forall i :: 0 <= i < 4 ==> word[i] == table[4 * k + i];
  }

  /** The tables of the file are different blocks: the entries of the outer table, and the indirect one. */
  ghost predicate TablesDistinct(sectors: seq<Sector>, fs: Fs, inode: Inode)
    requires fs.Valid()
  {
    inode.doubleIndirect != 0 && HasBlock(sectors, fs, inode.doubleIndirect) ==>
      forall j, k :: 0 <= j < fs.PerBlock() && 0 <= k < fs.PerBlock() && PointerIn(sectors, fs, inode.doubleIndirect, j) != 0 ==>
        && PointerIn(sectors, fs, inode.doubleIndirect, j) != inode.indirect
        && (j != k ==> PointerIn(sectors, fs, inode.doubleIndirect, j) != PointerIn(sectors, fs, inode.doubleIndirect, k))
  }

  /** Different logical blocks have their pointers in different bytes of the disk. */
  lemma SlotsApart(sectors: seq<Sector>, fs: Fs, inode: Inode, a: nat, b: nat)
    requires fs.Valid() && TablesDistinct(sectors, fs, inode) && DIRECT <= a && DIRECT <= b && a != b
    requires Reachable(sectors, fs, inode, a) && Reachable(sectors, fs, inode, b)
    requires TableOf(sectors, fs, inode, a) != 0 && TableOf(sectors, fs, inode, b) != 0
    ensures var x, y := SlotAddress(sectors, fs, inode, a), SlotAddress(sectors, fs, inode, b);
            x + 4 <= y || y + 4 <= x
  {
    hide StartOf, InReach, RowOf, ColumnOf, HasBlock, DiskSize;
    var ppb := fs.PerBlock();
    var s, t := TableOf(sectors, fs, inode, a), TableOf(sectors, fs, inode, b);
    if s < t {
      StartsApart(fs, s, t);
    } else if t < s {
      StartsApart(fs, t, s);
    } else if a - DIRECT >= ppb && b - DIRECT >= ppb && PlaceOf(fs, a) == PlaceOf(fs, b) {
      RowAndColumn(fs, a - DIRECT - ppb, b - DIRECT - ppb);
    }
  }

  // ----- files

  /** Logical block n has its pointer, and the block it names, on the disk. */
  ghost predicate Holds(sectors: seq<Sector>, fs: Fs, inode: Inode, n: nat)
    requires fs.Valid()
  {
    hide HasBlock;
    Reachable(sectors, fs, inode, n) && HasBlock(sectors, fs, Pointer(sectors, fs, inode, n))
  }

  ghost predicate Present(sectors: seq<Sector>, fs: Fs, inode: Inode, n: nat)
    requires fs.Valid()
  {
    hide Reachable, HasBlock;
    Holds(sectors, fs, inode, n) && Pointer(sectors, fs, inode, n) != 0
  }

  ghost predicate NoHoleBefore(sectors: seq<Sector>, fs: Fs, inode: Inode, n: nat)
    requires fs.Valid()
  {
    hide Present;
    forall m :: 0 <= m < n ==> Present(sectors, fs, inode, m)
  }

  /** As far as the first hole, the file's blocks and their tables are on the disk. */
  ghost predicate FileOnDisk(sectors: seq<Sector>, fs: Fs, inode: Inode)
    requires fs.Valid()
  {
    hide BlocksOf, Holds, NoHoleBefore;
    forall n :: 0 <= n < BlocksOf(fs, inode.size) && NoHoleBefore(sectors, fs, inode, n) ==> Holds(sectors, fs, inode, n)
  }

  /** The file has disk blocks up to h of its `count` blocks, and none at h. */
  ghost predicate IsFirstHole(sectors: seq<Sector>, fs: Fs, inode: Inode, h: nat, count: nat)
    requires fs.Valid()
  {
    hide Present, NoHoleBefore;
    h <= count && (h < count ==> !Present(sectors, fs, inode, h)) && NoHoleBefore(sectors, fs, inode, h)
  }

  /** Byte i of the file, on the disk. */
  ghost function FileByte(sectors: seq<Sector>, fs: Fs, inode: Inode, i: nat): Byte
    requires fs.Valid() && Holds(sectors, fs, inode, IndexOf(fs, i))
  {
    hide StartOf, IndexOf, OffsetOf, Reachable, Pointer, DiskSize, DiskByte;
    DiskByte(sectors, StartOf(fs, Pointer(sectors, fs, inode, IndexOf(fs, i))) + OffsetOf(fs, i))
  }

  /** `out` is n blocks of the file, each byte from its own disk block. */
  ghost predicate Assembled(sectors: seq<Sector>, fs: Fs, inode: Inode, n: nat, out: seq<Byte>)
    requires fs.Valid()
  {
    hide StartOf, IndexOf, FileByte, Holds;
    && |out| == Min(inode.size, StartOf(fs, n))
    && forall i :: 0 <= i < |out| ==> Holds(sectors, fs, inode, IndexOf(fs, i)) && out[i] == FileByte(sectors, fs, inode, i)
  }

  lemma AssembledStep(sectors: seq<Sector>, fs: Fs, inode: Inode, n: nat, out: seq<Byte>)
    requires fs.Valid() && Holds(sectors, fs, inode, n) && n < BlocksOf(fs, inode.size)
    requires Assembled(sectors, fs, inode, n, out)
    ensures |out| == StartOf(fs, n) < inode.size
    ensures var take := Min(inode.size - |out|, fs.blockSize);
            HasBlock(sectors, fs, Pointer(sectors, fs, inode, n))
            && Assembled(sectors, fs, inode, n + 1, out + Slice(sectors, StartOf(fs, Pointer(sectors, fs, inode, n)), take))
  {
    hide StartOf, IndexOf, OffsetOf, BlocksOf, Reachable, Pointer, DiskSize, DiskByte;
    BlocksCover(fs, inode.size, n);
    StartOfNext(fs, n);
    var base := StartOf(fs, Pointer(sectors, fs, inode, n));
    var longer := out + Slice(sectors, base, Min(inode.size - |out|, fs.blockSize));
    forall i | |out| <= i < |longer|
      ensures Holds(sectors, fs, inode, IndexOf(fs, i)) && longer[i] == FileByte(sectors, fs, inode, i)
    {
      BlockOfByte(fs, n, i);
    }
  }

  /** All blocks of a file are all its bytes. */
  lemma AllBlocks(fs: Fs, size: nat)
    requires fs.Valid()
    ensures Min(size, StartOf(fs, BlocksOf(fs, size))) == size
  {
    BlocksCover(fs, size, BlocksOf(fs, size));
  }

  /**
     The bytes of the file, each from its own disk block: all `size` of them when every block is
     there, and otherwise the bytes before the first hole.
   */
  method ReadFile(cache: Cache, fs: Fs, inode: Inode) returns (out: seq<Byte>, ghost hole: nat)
    requires Coherent(cache.State())
    requires fs.Valid() && FileOnDisk(cache.disk.sectors, fs, inode)
    modifies cache
    ensures Coherent(cache.State())
    ensures IsFirstHole(cache.disk.sectors, fs, inode, hole, BlocksOf(fs, inode.size))
    ensures Assembled(cache.disk.sectors, fs, inode, hole, out)
    ensures hole == BlocksOf(fs, inode.size) ==> |out| == inode.size
  {
    hide StartOf, BlocksOf, Reachable, Pointer, DiskSize, Coherent, Assembled;
    ghost var sectors := cache.disk.sectors;
    out := [];
    var remaining := inode.size;
    var nblocks := BlocksOf(fs, inode.size);
    NothingYet(sectors, fs, inode);
    AllBlocks(fs, inode.size);
    var n := 0;
    while n < nblocks
      invariant n <= nblocks && Coherent(cache.State()) && remaining == inode.size - |out|
      invariant |out| == Min(inode.size, StartOf(fs, n)) && Assembled(sectors, fs, inode, n, out)
      invariant NoHoleBefore(sectors, fs, inode, n)
    {
      AssembledStep(sectors, fs, inode, n, out);
      if remaining == 0 {
        break;
      }
      var blk := BlockAt(cache, fs, inode, n);
      if blk == 0 {
        break;
      }
      var take := Min(remaining, fs.blockSize);
      var chunk := ReadRange(cache, StartOf(fs, blk), take);
      AssembledLength(sectors, fs, inode, n + 1, out + chunk);
      out := out + chunk;
      remaining := remaining - take;
      n := n + 1;
    }
    hole := n;
  }

  lemma NothingYet(sectors: seq<Sector>, fs: Fs, inode: Inode)
    requires fs.Valid()
    ensures Assembled(sectors, fs, inode, 0, []) && StartOf(fs, 0) == 0
  {
  }

  lemma AssembledLength(sectors: seq<Sector>, fs: Fs, inode: Inode, n: nat, out: seq<Byte>)
    requires fs.Valid() && Assembled(sectors, fs, inode, n, out)
    ensures |out| == Min(inode.size, StartOf(fs, n))
  {
  }

  // ----- directories

  datatype Entry = Entry(name: seq<Byte>, ino: nat)

  predicate IsTail(b: Byte) {
    0x80 <= b < 0xC0
  }

  /** Well-formed UTF-8, section 4 of RFC 3629: no overlong form, no surrogate, nothing above U+10FFFF. */
  predicate ValidUtf8(s: seq<Byte>) {
    if |s| == 0 then true
    else if s[0] < 0x80 then ValidUtf8(s[1..])
    else if 0xC2 <= s[0] < 0xE0 then |s| >= 2 && IsTail(s[1]) && ValidUtf8(s[2..])
    else if 0xE0 <= s[0] < 0xF0 then
      && |s| >= 3 && IsTail(s[1]) && IsTail(s[2])
      && (s[0] == 0xE0 ==> s[1] >= 0xA0) && (s[0] == 0xED ==> s[1] < 0xA0)
      && ValidUtf8(s[3..])
    else if 0xF0 <= s[0] < 0xF5 then
      && |s| >= 4 && IsTail(s[1]) && IsTail(s[2]) && IsTail(s[3])
      && (s[0] == 0xF0 ==> s[1] >= 0x90) && (s[0] == 0xF4 ==> s[1] < 0x90)
      && ValidUtf8(s[4..])
    else false
  }

  /** ASCII names are never dropped for their encoding. */
  lemma {:induction false} AsciiIsUtf8(s: seq<Byte>)
    requires forall i :: 0 <= i < |s| ==> s[i] < 0x80
    ensures ValidUtf8(s)
  {
    if |s| == 0 {
    } else {
      AsciiIsUtf8(s[1..]);
    }
  }

  function EntryAt(data: seq<Byte>, pos: nat): Option<Entry>
    requires pos + 8 <= |data|
  {
    var ino, nameLen := ReadU32(data, pos), data[pos + 6];
    if ino != 0 && nameLen > 0 && pos + 8 + nameLen <= |data| && ValidUtf8(data[pos + 8..pos + 8 + nameLen])
    then Some(Entry(data[pos + 8..pos + 8 + nameLen], ino))
    else None
  }

  /** The live entries of a block's bytes from `pos` on, each record leading to the next. */
  ghost function Scan(data: seq<Byte>, pos: nat): seq<Entry>
    decreases |data| - pos
  {
    if pos + 8 > |data| || ReadU16(data, pos + 4) == 0 then []
    else
      var rest := Scan(data, pos + ReadU16(data, pos + 4));
      match EntryAt(data, pos)
      case Some(e) => [e] + rest
      case None => rest
  }

  /** Whatever the block holds, each entry is a named, live record of it, whole within its bytes. */
  lemma {:induction false} ScanIsSound(data: seq<Byte>, pos: nat, k: nat)
    requires k < |Scan(data, pos)|
    ensures exists at :: pos <= at && at + 8 <= |data| && EntryAt(data, at) == Some(Scan(data, pos)[k])
    ensures var e := Scan(data, pos)[k]; 0 < |e.name| < 256 && 0 < e.ino < Words.MODULUS && ValidUtf8(e.name)
    decreases |data| - pos
  {
    var next := pos + ReadU16(data, pos + 4);
    if EntryAt(data, pos).None? {
      ScanIsSound(data, next, k);
    } else if k > 0 {
      ScanIsSound(data, next, k - 1);
    }
  }

  ghost predicate DirOnDisk(sectors: seq<Sector>, fs: Fs, inode: Inode) {
    |inode.blocks| == DIRECT && forall k :: 0 <= k < DIRECT ==> HasBlock(sectors, fs, inode.blocks[k])
  }

  ghost function ScanBlocks(sectors: seq<Sector>, fs: Fs, blks: seq<nat>): seq<Entry>
    requires forall k :: 0 <= k < |blks| ==> HasBlock(sectors, fs, blks[k])
  {
    hide HasBlock;
    if |blks| == 0 then []
    else
      var last := blks[|blks| - 1];
      ScanBlocks(sectors, fs, blks[..|blks| - 1]) + if last == 0 then [] else Scan(BlockBytes(sectors, fs, last), 0)
  }

  method ReadDir(cache: Cache, fs: Fs, inode: Inode) returns (out: seq<Entry>)
    requires Coherent(cache.State())
    requires DirOnDisk(cache.disk.sectors, fs, inode)
    modifies cache
    ensures Coherent(cache.State()) && out == ScanBlocks(cache.disk.sectors, fs, inode.blocks)
  {
    hide StartOf, Coherent, DiskSize, DiskByte;
    out := [];
    for k := 0 to DIRECT
      invariant Coherent(cache.State()) && out == ScanBlocks(cache.disk.sectors, fs, inode.blocks[..k])
    {
      var blk := inode.blocks[k];
      assert inode.blocks[..k + 1][..k] == inode.blocks[..k];
      if blk == 0 {
        continue;
      }
      var data := ReadRange(cache, StartOf(fs, blk), fs.blockSize);
      var found := ScanBlock(data);
      out := out + found;
    }
    assert inode.blocks[..DIRECT] == inode.blocks;
  }

  /** The inner loop: it ends and stays inside the block for every content. */
  method ScanBlock(data: seq<Byte>) returns (out: seq<Entry>)
    ensures out == Scan(data, 0)
  {
    out := [];
    var pos := 0;
    while pos + 8 <= |data|
      invariant out + Scan(data, pos) == Scan(data, 0)
      decreases |data| - pos
    {
      var recLen := ReadU16(data, pos + 4);
      if recLen == 0 {
        break;
      }
      match EntryAt(data, pos) {
        case Some(e) => out := out + [e];
        case None =>
      }
      pos := pos + recLen;
    }
  }

  // ----- directories laid out by a writer

  datatype Record = Record(ino: nat, fileType: Byte, name: seq<Byte>, pad: seq<Byte>) {
    function Length(): nat {
      8 + |name| + |pad|
    }

    predicate Valid() {
      ino < Words.MODULUS && |name| < 0x100 && Length() < 0x1_0000
    }

    predicate Live() {
      ino != 0 && |name| > 0 && ValidUtf8(name)
    }

    function Bytes(): (b: seq<Byte>)
      requires Valid()
      ensures |b| == Length()
    {
      PutU32(ino) + PutU16(Length()) + [|name|, fileType] + name + pad
    }
  }

  ghost predicate AllValid(rs: seq<Record>) {
    forall k :: 0 <= k < |rs| ==> rs[k].Valid()
  }

  ghost function Layout(rs: seq<Record>): seq<Byte>
    requires AllValid(rs)
  {
    if |rs| == 0 then [] else rs[0].Bytes() + Layout(rs[1..])
  }

  ghost function LiveEntries(rs: seq<Record>): seq<Entry> {
    if |rs| == 0 then []
    else EntriesOf(rs[0]) + LiveEntries(rs[1..])
  }

  lemma PartOf(data: seq<Byte>, pos: nat, b: seq<Byte>, lo: nat, hi: nat)
    requires pos + |b| <= |data| && data[pos..pos + |b|] == b && lo <= hi <= |b|
    ensures data[pos + lo..pos + hi] == b[lo..hi]
  {
    forall i | lo <= i < hi
      ensures data[pos + i] == b[i]
    {
      assert data[pos + i] == data[pos..pos + |b|][i];
    }
  }

  lemma RecordReads(data: seq<Byte>, pos: nat, r: Record)
    requires r.Valid() && pos + r.Length() <= |data| && data[pos..pos + r.Length()] == r.Bytes()
    ensures ReadU16(data, pos + 4) == r.Length()
    ensures EntryAt(data, pos) == if r.Live() then Some(Entry(r.name, r.ino)) else None
  {
    hide ValidUtf8, ReadU32, ReadU16;
    var b, n := r.Bytes(), 8 + |r.name|;
    PartOf(data, pos, b, 0, 4);
    PartOf(data, pos, b, 4, 6);
    PartOf(data, pos, b, 6, 7);
    PartOf(data, pos, b, 8, n);
    assert b[0..4] == PutU32(r.ino) && b[4..6] == PutU16(r.Length()) && b[6..7] == [|r.name|] && b[8..n] == r.name;
    assert data[pos + 6] == data[pos + 6..pos + 7][0];
    U32RoundTrip(data, pos, r.ino);
    U16RoundTrip(data, pos + 4, r.Length());
  }

  ghost function EntriesOf(r: Record): seq<Entry> {
    if r.Live() then [Entry(r.name, r.ino)] else []
  }

  lemma ScanRecord(data: seq<Byte>, pos: nat, r: Record)
    requires r.Valid() && pos + r.Length() <= |data| && data[pos..pos + r.Length()] == r.Bytes()
    ensures Scan(data, pos) == EntriesOf(r) + Scan(data, pos + r.Length())
  {
    hide ValidUtf8, EntryAt, ReadU16, PutU32, PutU16, Record.Bytes;
    RecordReads(data, pos, r);
  }

  lemma ScanEnds(data: seq<Byte>, pos: nat)
    requires pos + 8 > |data|
    ensures Scan(data, pos) == []
  {
  }

  lemma SplitAt(data: seq<Byte>, pos: nat, b: seq<Byte>, rest: seq<Byte>)
    requires pos <= |data| && data[pos..] == b + rest
    ensures pos + |b| <= |data| && data[pos..pos + |b|] == b && data[pos + |b|..] == rest
  {
    assert data[pos..pos + |b|] == data[pos..][..|b|];
    assert data[pos + |b|..] == data[pos..][|b|..];
  }

  /** Reading a block inverts laying it out: the live records, in order. */
  lemma {:induction false} ScanInvertsLayout(data: seq<Byte>, pos: nat, rs: seq<Record>)
    requires AllValid(rs) && pos <= |data| && data[pos..] == Layout(rs)
    ensures Scan(data, pos) == LiveEntries(rs)
    decreases |rs|
  {
    hide Scan, EntriesOf, Record.Bytes, Record.Valid;
    if |rs| == 0 {
      ScanEnds(data, pos);
    } else {
      SplitAt(data, pos, rs[0].Bytes(), Layout(rs[1..]));
      ScanRecord(data, pos, rs[0]);
      ScanInvertsLayout(data, pos + rs[0].Length(), rs[1..]);
    }
  }

  ghost function AllLive(rss: seq<seq<Record>>): seq<Entry> {
    if |rss| == 0 then [] else AllLive(rss[..|rss| - 1]) + LiveEntries(rss[|rss| - 1])
  }

  /** A directory written as records over its direct blocks lists exactly the live ones, in order. */
  lemma {:induction false} DirectoryRoundTrip(sectors: seq<Sector>, fs: Fs, blks: seq<nat>, rss: seq<seq<Record>>)
    requires |rss| == |blks|
    requires forall k :: 0 <= k < |blks| ==> HasBlock(sectors, fs, blks[k]) && AllValid(rss[k])
    requires forall k :: 0 <= k < |blks| ==>
               if blks[k] == 0 then rss[k] == [] else BlockBytes(sectors, fs, blks[k]) == Layout(rss[k])
    ensures ScanBlocks(sectors, fs, blks) == AllLive(rss)
  {
    hide HasBlock, Scan, Layout, StartOf, DiskByte;
    var n := |blks| - 1;
    if n >= 0 {
      DirectoryRoundTrip(sectors, fs, blks[..n], rss[..n]);
      if blks[n] != 0 {
        var data := BlockBytes(sectors, fs, blks[n]);
        assert data[0..] == data;
        ScanInvertsLayout(data, 0, rss[n]);
      }
    }
  }

  // ----- the superblock and inodes

  function SuperOf(sb: seq<Byte>): Option<Fs>
    requires |sb| == 1024
  {
    if ReadU16(sb, 56) != EXT2_MAGIC then None
    else
      var blockSize := 1024 * Words.Pow2(ReadU32(sb, 24)) % Words.MODULUS;
      var inodeSize := if ReadU32(sb, 76) >= 1 then ReadU16(sb, 88) else 128;
      Some(Fs(blockSize, ReadU32(sb, 40), inodeSize, if blockSize == 1024 then 2 * blockSize else blockSize))
  }

  /** Mounts the image. A block size shift of 32 or more stops the kernel, so it is the caller's to exclude. */
  method ReadSuper(cache: Cache) returns (fs: Option<Fs>)
    requires Coherent(cache.State()) && DiskSize(cache.disk.sectors) >= 2048
    requires ReadU16(Slice(cache.disk.sectors, 1024, 1024), 56) == EXT2_MAGIC ==> ReadU32(Slice(cache.disk.sectors, 1024, 1024), 24) < 32
    modifies cache
    ensures Coherent(cache.State()) && fs == SuperOf(Slice(cache.disk.sectors, 1024, 1024))
  {
    hide Words.Pow2;
    var sb := ReadRange(cache, 1024, 1024);
    if ReadU16(sb, 56) != EXT2_MAGIC {
      return None;
    }
    var blockSize := 1024 * Words.Pow2(ReadU32(sb, 24)) % Words.MODULUS;
    var inodesPerGroup := ReadU32(sb, 40);
    var rev := ReadU32(sb, 76);
    var inodeSize := if rev >= 1 then ReadU16(sb, 88) else 128;
    var bgdtBlock := if blockSize == 1024 then 2 else 1;
    fs := Some(Fs(blockSize, inodesPerGroup, inodeSize, bgdtBlock * blockSize));
  }

  lemma {:induction false} ShiftedOut(log: nat)
    requires 22 <= log
    ensures exists q: nat :: 1024 * Words.Pow2(log) == q * Words.MODULUS
  {
    if log > 22 {
      ShiftedOut(log - 1);
      var q: nat :| 1024 * Words.Pow2(log - 1) == q * Words.MODULUS;
      assert 1024 * Words.Pow2(log) == (2 * q) * Words.MODULUS;
    } else {
      Words.Pow2Of22();
      assert 1024 * Words.Pow2(log) == 1 * Words.MODULUS;
    }
  }

  lemma SmallShift(p: nat)
    requires 1 <= p <= 0x20_0000
    ensures 1024 * p % Words.MODULUS == 1024 * p && 1024 * p % 4 == 0
  {
    assert 1024 * p == 4 * (256 * p);
  }

  lemma ShiftedSize(log: nat)
    ensures var size := 1024 * Words.Pow2(log) % Words.MODULUS;
            if log <= 21 then size > 0 && size % 4 == 0 else size == 0
  {
    hide Words.Pow2;
    var p := Words.Pow2(log);
    if log >= 22 {
      ShiftedOut(log);
      var q: nat :| 1024 * p == q * Words.MODULUS;
      Words.ModUnique(1024 * p, Words.MODULUS, q, 0);
    } else {
      Words.Pow2Of22();
      Words.Pow2Monotone(log, 21);
      SmallShift(p);
    }
  }

  /** The block size read from the superblock is usable exactly when its shift is at most 21. */
  lemma BlockSizeUsableIff(sb: seq<Byte>)
    requires |sb| == 1024 && SuperOf(sb).Some?
    ensures SuperOf(sb).value.Valid() <==> ReadU32(sb, 24) <= 21
  {
    hide Words.Pow2, ReadU32, ReadU16;
    ShiftedSize(ReadU32(sb, 24));
  }

  function InodeOf(raw: seq<Byte>): Inode
    requires |raw| >= 96
  {
    Inode(ReadU32(raw, 4), seq(DIRECT, k requires 0 <= k < DIRECT => ReadU32(raw, 40 + 4 * k)), ReadU32(raw, 88), ReadU32(raw, 92))
  }

  lemma InodeRoundTrip(raw: seq<Byte>, inode: Inode)
    requires |raw| >= 96 && |inode.blocks| == DIRECT
    requires inode.size < Words.MODULUS && inode.indirect < Words.MODULUS && inode.doubleIndirect < Words.MODULUS
    requires forall k :: 0 <= k < DIRECT ==> inode.blocks[k] < Words.MODULUS && raw[40 + 4 * k..40 + 4 * k + 4] == PutU32(inode.blocks[k])
    requires raw[4..8] == PutU32(inode.size) && raw[88..92] == PutU32(inode.indirect) && raw[92..96] == PutU32(inode.doubleIndirect)
    ensures InodeOf(raw) == inode
  {
    hide PutU32, ReadU32;
    U32RoundTrip(raw, 4, inode.size);
    U32RoundTrip(raw, 88, inode.indirect);
    U32RoundTrip(raw, 92, inode.doubleIndirect);
    forall k | 0 <= k < DIRECT
      ensures ReadU32(raw, 40 + 4 * k) == inode.blocks[k]
    {
      U32RoundTrip(raw, 40 + 4 * k, inode.blocks[k]);
    }
  }

  function GroupOf(fs: Fs, ino: nat): nat
    requires fs.inodesPerGroup > 0 && ino > 0
  {
    (ino - 1) / fs.inodesPerGroup
  }

  function SlotOf(fs: Fs, ino: nat): (k: nat)
    requires fs.inodesPerGroup > 0 && ino > 0
    ensures k < fs.inodesPerGroup
  {
    (ino - 1) % fs.inodesPerGroup
  }

  function SlotStart(fs: Fs, k: nat): nat {
    k * fs.inodeSize
  }

  ghost predicate HasGroup(sectors: seq<Sector>, fs: Fs, group: nat) {
    fs.bgdtOff + group * 32 + 32 <= DiskSize(sectors) && fs.bgdtOff + group * 32 + 32 < Words.MODULUS
  }

  /** The first byte of a group's inode table. */
  ghost function TableStart(sectors: seq<Sector>, fs: Fs, group: nat): nat
    requires HasGroup(sectors, fs, group)
  {
    StartOf(fs, ReadU32(Slice(sectors, fs.bgdtOff + group * 32, 32), 8))
  }

  ghost function InodeAddress(sectors: seq<Sector>, fs: Fs, ino: nat): nat
    requires fs.inodesPerGroup > 0 && ino > 0 && HasGroup(sectors, fs, GroupOf(fs, ino))
  {
    hide GroupOf, SlotOf, HasGroup;
    TableStart(sectors, fs, GroupOf(fs, ino)) + SlotStart(fs, SlotOf(fs, ino))
  }

  method ReadInode(cache: Cache, fs: Fs, ino: nat) returns (inode: Inode)
    requires Coherent(cache.State())
    requires fs.inodesPerGroup > 0 && fs.inodeSize >= 96 && ino > 0
    requires HasGroup(cache.disk.sectors, fs, GroupOf(fs, ino))
    requires InodeAddress(cache.disk.sectors, fs, ino) + fs.inodeSize <= DiskSize(cache.disk.sectors)
    requires InodeAddress(cache.disk.sectors, fs, ino) + fs.inodeSize < Words.MODULUS
    modifies cache
    ensures Coherent(cache.State())
    ensures inode == InodeOf(Slice(cache.disk.sectors, InodeAddress(cache.disk.sectors, fs, ino), fs.inodeSize))
  {
    hide GroupOf, SlotOf, StartOf, SlotStart, ReadU32, Coherent, DiskSize, DiskByte;
    var group, index := GroupOf(fs, ino), SlotOf(fs, ino);
    var desc := ReadRange(cache, fs.bgdtOff + group * 32, 32);
    var inodeTable := ReadU32(desc, 8);
    var off := StartOf(fs, inodeTable) + SlotStart(fs, index);
    var raw := ReadRange(cache, off, fs.inodeSize);
    var blocks: seq<nat> := [];
    for k := 0 to DIRECT
      invariant |blocks| == k && forall j :: 0 <= j < k ==> blocks[j] == ReadU32(raw, 40 + 4 * j)
    {
      blocks := blocks + [ReadU32(raw, 40 + 4 * k)];
    }
    inode := Inode(ReadU32(raw, 4), blocks, ReadU32(raw, 88), ReadU32(raw, 92));
  }

  /** Inode tables of different groups do not overlap. */
  ghost predicate GroupsApart(sectors: seq<Sector>, fs: Fs, g: nat, h: nat)
    requires HasGroup(sectors, fs, g) && HasGroup(sectors, fs, h)
  {
    var size := SlotStart(fs, fs.inodesPerGroup);
    TableStart(sectors, fs, g) + size <= TableStart(sectors, fs, h) || TableStart(sectors, fs, h) + size <= TableStart(sectors, fs, g)
  }

  lemma SlotsInOrder(fs: Fs, j: nat, k: nat)
    requires j < k
    ensures SlotStart(fs, j) + fs.inodeSize <= SlotStart(fs, k)
  {
    Words.NextMultiple(j, k, fs.inodeSize);
  }

  lemma GroupAndSlot(fs: Fs, a: nat, b: nat)
    requires fs.inodesPerGroup > 0 && 0 < a && 0 < b && a != b
    ensures GroupOf(fs, a) != GroupOf(fs, b) || SlotOf(fs, a) != SlotOf(fs, b)
  {
  }

  /** Different inode numbers are different bytes of the disk. */
  lemma InodesApart(sectors: seq<Sector>, fs: Fs, a: nat, b: nat)
    requires fs.inodesPerGroup > 0 && 0 < a && 0 < b && a != b
    requires HasGroup(sectors, fs, GroupOf(fs, a)) && HasGroup(sectors, fs, GroupOf(fs, b))
    requires GroupOf(fs, a) != GroupOf(fs, b) ==> GroupsApart(sectors, fs, GroupOf(fs, a), GroupOf(fs, b))
    ensures var x, y := InodeAddress(sectors, fs, a), InodeAddress(sectors, fs, b);
            x + fs.inodeSize <= y || y + fs.inodeSize <= x
  {
    hide GroupOf, SlotOf, SlotStart, HasGroup, TableStart;
    GroupAndSlot(fs, a, b);
    SlotsInOrder(fs, SlotOf(fs, a), fs.inodesPerGroup);
    SlotsInOrder(fs, SlotOf(fs, b), fs.inodesPerGroup);
    if SlotOf(fs, a) < SlotOf(fs, b) {
      SlotsInOrder(fs, SlotOf(fs, a), SlotOf(fs, b));
    } else if SlotOf(fs, b) < SlotOf(fs, a) {
      SlotsInOrder(fs, SlotOf(fs, b), SlotOf(fs, a));
    }
  }
}
