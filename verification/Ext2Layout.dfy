/**
 An ext2 image as its maker lays it out in bytes, and the reader as the inverse of that: the
 superblock, the place of an inode, the block numbers of a file through all three kinds of
 pointers, and the file's content.
 */
module Ext2Layout {
  import opened BufferCache
  import opened Wrappers
  import opened Ext2
  import Words

  // ----- words in a row

  predicate AllWords(ws: seq<nat>) {
    forall i :: 0 <= i < |ws| ==> ws[i] < Words.MODULUS
  }

  /** Little-endian words one behind the other. */
  function PutTable(ws: seq<nat>): (b: seq<Byte>)
    requires AllWords(ws)
    ensures |b| == 4 * |ws|
  {
    if |ws| == 0 then [] else PutTable(ws[..|ws| - 1]) + PutU32(ws[|ws| - 1])
  }

  lemma {:induction false} TableWord(ws: seq<nat>, k: nat)
    requires AllWords(ws) && k < |ws|
    ensures PutTable(ws)[4 * k..4 * k + 4] == PutU32(ws[k])
  {
    hide PutU32;
    if k < |ws| - 1 {
      TableWord(ws[..|ws| - 1], k);
    }
  }

  lemma SliceOfSlice(b: seq<Byte>, off: nat, n: nat, from: nat, len: nat)
    requires from + len <= n && off + n <= |b|
    ensures b[off..off + n][from..from + len] == b[off + from..off + from + len]
  {
    var inner, outer := b[off..off + n][from..from + len], b[off + from..off + from + len];
    assert forall k :: 0 <= k < len ==> inner[k] == b[off + from + k];
    assert forall k :: 0 <= k < len ==> outer[k] == b[off + from + k];
    assert inner == outer;
  }

  lemma TableReads(b: seq<Byte>, off: nat, ws: seq<nat>, k: nat)
    requires AllWords(ws) && k < |ws| && off + 4 * |ws| <= |b| && b[off..off + 4 * |ws|] == PutTable(ws)
    ensures ReadU32(b, off + 4 * k) == ws[k]
  {
    hide PutU32, PutTable;
    TableWord(ws, k);
    SliceOfSlice(b, off, 4 * |ws|, 4 * k, 4);
    U32RoundTrip(b, off + 4 * k, ws[k]);
  }

  /** At most n elements from `from` on, as far as there are any. */
  function Part<T>(s: seq<T>, from: nat, n: nat): (r: seq<T>)
    ensures |r| == Min(n, if from < |s| then |s| - from else 0)
    ensures forall i :: 0 <= i < |r| ==> r[i] == s[from + i]
  {
    s[Min(from, |s|)..Min(from + n, |s|)]
  }

  // ----- the block numbers of a file

  /** A block of the disk begins with these words. */
  ghost predicate IsTable(sectors: seq<Sector>, fs: Fs, blk: nat, ws: seq<nat>)
    requires fs.Valid()
  {
    hide StartOf;
    && blk != 0 && HasBlock(sectors, fs, blk) && AllWords(ws) && 4 * |ws| <= fs.blockSize
    && BlockBytes(sectors, fs, blk)[..4 * |ws|] == PutTable(ws)
  }

  /** The numbers of a file's blocks in order, the blocks of its two tables, and the tables the second one lists. */
  datatype BlockMap = BlockMap(numbers: seq<nat>, indirect: nat, doubleIndirect: nat, tables: seq<nat>)

  /** The inode has the first 12 block numbers from byte 40 on, and the blocks of the two tables behind them. */
  ghost predicate InodeHolds(raw: seq<Byte>, bm: BlockMap) {
    var direct := Part(bm.numbers, 0, 12);
    && |raw| >= 96 && AllWords(direct) && raw[40..40 + 4 * |direct|] == PutTable(direct)
    && bm.indirect < Words.MODULUS && raw[88..92] == PutU32(bm.indirect)
    && bm.doubleIndirect < Words.MODULUS && raw[92..96] == PutU32(bm.doubleIndirect)
  }

  /** The blockful of numbers that table q of the double-indirect ones has. */
  function TableOfRow(numbers: seq<nat>, per: nat, q: nat): seq<nat> {
    Part(numbers, 12 + per + q * per, per)
  }

  /**
   The block numbers of a file, written out: 12 in the inode, a blockful in the indirect table,
   and the rest, a blockful each, in the tables that the double-indirect one names in order.
   */
  ghost predicate MapLaidOut(sectors: seq<Sector>, fs: Fs, raw: seq<Byte>, bm: BlockMap)
    requires fs.Valid()
  {
    var per, count := fs.blockSize / 4, |bm.numbers|;
    && InodeHolds(raw, bm)
    && (count > 12 ==> IsTable(sectors, fs, bm.indirect, Part(bm.numbers, 12, per)))
    && (count > 12 + per ==>
          && IsTable(sectors, fs, bm.doubleIndirect, bm.tables) && count <= 12 + per + |bm.tables| * per
          && forall q :: 0 <= q < |bm.tables| ==>
               IsTable(sectors, fs, bm.tables[q], TableOfRow(bm.numbers, per, q)))
  }

  lemma TablePointer(sectors: seq<Sector>, fs: Fs, blk: nat, ws: seq<nat>, k: nat)
    requires fs.Valid() && IsTable(sectors, fs, blk, ws) && k < |ws|
    ensures k < fs.PerBlock() && PointerIn(sectors, fs, blk, k) == ws[k]
  {
    hide HasBlock, PutTable, StartOf, ReadU32;
    TableReads(BlockBytes(sectors, fs, blk), 0, ws, k);
  }

  lemma DirectNumber(raw: seq<Byte>, bm: BlockMap, n: nat)
    requires InodeHolds(raw, bm) && n < |bm.numbers| && n < 12
    ensures InodeOf(raw).blocks[n] == bm.numbers[n]
  {
    hide ReadU32, PutU32, PutTable;
    TableReads(raw, 40, Part(bm.numbers, 0, 12), n);
  }

  lemma TableNumbers(raw: seq<Byte>, bm: BlockMap)
    requires InodeHolds(raw, bm)
    ensures var i := InodeOf(raw); |i.blocks| == 12 && i.indirect == bm.indirect && i.doubleIndirect == bm.doubleIndirect
  {
    hide ReadU32, PutU32, PutTable;
    U32RoundTrip(raw, 88, bm.indirect);
    U32RoundTrip(raw, 92, bm.doubleIndirect);
  }

  lemma TimesOrder(a: nat, b: nat, c: nat)
    ensures a <= b ==> a * c <= b * c
  {
  }

  /** Place m of the double-indirect numbers is in table m / per, at m % per. */
  lemma RowIsThere(per: nat, m: nat, rows: nat)
    requires per > 0 && m < rows * per
    ensures m / per < rows && m == m / per * per + m % per && m % per < per
  {
    TimesOrder(rows, m / per, per);
  }

  lemma RowsFit(fs: Fs, m: nat, rows: nat)
    requires fs.Valid() && m < rows * fs.PerBlock() && rows <= fs.PerBlock()
    ensures InReach(fs, m)
  {
    TimesOrder(rows, fs.PerBlock(), fs.PerBlock());
  }

  /** Looking up a block number inverts laying the numbers out, in all three kinds of pointers. */
  lemma BlockMapInvertsLayout(sectors: seq<Sector>, fs: Fs, raw: seq<Byte>, bm: BlockMap, n: nat)
    requires fs.Valid() && MapLaidOut(sectors, fs, raw, bm) && n < |bm.numbers|
    ensures Reachable(sectors, fs, InodeOf(raw), n) && Pointer(sectors, fs, InodeOf(raw), n) == bm.numbers[n]
  {
    hide HasBlock, BlockBytes, PutTable, StartOf, InodeHolds, InodeOf, PointerIn, InReach;
    var per := fs.PerBlock();
    TableNumbers(raw, bm);
    if n < 12 {
      DirectNumber(raw, bm, n);
    } else if n < 12 + per {
      TablePointer(sectors, fs, bm.indirect, Part(bm.numbers, 12, per), n - 12);
    } else {
      var m := n - 12 - per;
      RowIsThere(per, m, |bm.tables|);
      RowsFit(fs, m, |bm.tables|);
      var q := m / per;
      TablePointer(sectors, fs, bm.doubleIndirect, bm.tables, q);
      TablePointer(sectors, fs, bm.tables[q], TableOfRow(bm.numbers, per, q), m % per);
    }
  }

  // ----- the content of a file

  /** Block n of the file, on the disk, begins with the bytes of the content from n blocks on. */
  ghost predicate ContentLaidOut(sectors: seq<Sector>, fs: Fs, ws: seq<nat>, content: seq<Byte>)
    requires fs.Valid()
  {
    hide StartOf;
    forall n :: 0 <= n < |ws| ==>
      && ws[n] != 0 && HasBlock(sectors, fs, ws[n])
      && forall j :: 0 <= j < fs.blockSize && n * fs.blockSize + j < |content| ==>
           BlockBytes(sectors, fs, ws[n])[j] == content[n * fs.blockSize + j]
  }

  /** A file laid out with all its blocks, just enough of them for the size its inode gives. */
  ghost predicate FileLaidOut(sectors: seq<Sector>, fs: Fs, raw: seq<Byte>, bm: BlockMap, content: seq<Byte>)
    requires fs.Valid()
  {
    && MapLaidOut(sectors, fs, raw, bm) && ContentLaidOut(sectors, fs, bm.numbers, content)
    && |raw| >= 96 && |content| < Words.MODULUS && raw[4..8] == PutU32(|content|)
    && |content| <= |bm.numbers| * fs.blockSize < |content| + fs.blockSize
  }

  lemma BlocksAre(fs: Fs, size: nat, n: nat)
    requires fs.Valid() && size <= n * fs.blockSize < size + fs.blockSize
    ensures BlocksOf(fs, size) == n
  {
    hide BlocksOf;
    BlocksCover(fs, size, n);
    if n > 0 {
      BlocksCover(fs, size, n - 1);
      StartOfNext(fs, n - 1);
    }
  }

  lemma BlockIsThere(sectors: seq<Sector>, fs: Fs, raw: seq<Byte>, bm: BlockMap, content: seq<Byte>, n: nat)
    requires fs.Valid() && FileLaidOut(sectors, fs, raw, bm, content) && n < |bm.numbers|
    ensures Present(sectors, fs, InodeOf(raw), n) && Pointer(sectors, fs, InodeOf(raw), n) == bm.numbers[n]
  {
    hide MapLaidOut, HasBlock, StartOf, BlockBytes, Reachable, Pointer, InodeOf;
    BlockMapInvertsLayout(sectors, fs, raw, bm, n);
  }

  lemma BlockByte(sectors: seq<Sector>, fs: Fs, ws: seq<nat>, content: seq<Byte>, n: nat, j: nat)
    requires fs.Valid() && ContentLaidOut(sectors, fs, ws, content) && n < |ws| && j < fs.blockSize
    requires n * fs.blockSize + j < |content|
    ensures HasBlock(sectors, fs, ws[n]) && DiskByte(sectors, StartOf(fs, ws[n]) + j) == content[n * fs.blockSize + j]
  {
    hide DiskByte, StartOf;
    assert BlockBytes(sectors, fs, ws[n])[j] == content[n * fs.blockSize + j];
  }

  lemma ByteAt(sectors: seq<Sector>, fs: Fs, raw: seq<Byte>, bm: BlockMap, content: seq<Byte>,
               n: nat, j: nat, i: nat)
    requires fs.Valid() && FileLaidOut(sectors, fs, raw, bm, content)
    requires n < |bm.numbers| && j < fs.blockSize && i == n * fs.blockSize + j && i < |content|
    ensures Holds(sectors, fs, InodeOf(raw), IndexOf(fs, i)) && FileByte(sectors, fs, InodeOf(raw), i) == content[i]
  {
    BlockOfByte(fs, n, i);
    hide MapLaidOut, ContentLaidOut, HasBlock, StartOf, Reachable, Pointer, InodeOf, IndexOf, OffsetOf, DiskByte, DiskSize;
    BlockIsThere(sectors, fs, raw, bm, content, n);
    BlockByte(sectors, fs, bm.numbers, content, n, j);
  }

  lemma BlockAndOffset(size: nat, i: nat, count: nat) returns (n: nat, j: nat)
    requires size > 0 && i < count * size
    ensures n < count && j < size && i == n * size + j
  {
    RowIsThere(size, i, count);
    n, j := i / size, i % size;
  }

  /** Byte i of the file on the disk is byte i of the content. */
  lemma ByteIsContent(sectors: seq<Sector>, fs: Fs, raw: seq<Byte>, bm: BlockMap, content: seq<Byte>, i: nat)
    requires fs.Valid() && FileLaidOut(sectors, fs, raw, bm, content) && i < |content|
    ensures Holds(sectors, fs, InodeOf(raw), IndexOf(fs, i)) && FileByte(sectors, fs, InodeOf(raw), i) == content[i]
  {
    hide MapLaidOut, ContentLaidOut, Holds, FileByte, InodeOf, IndexOf;
    var n, j := BlockAndOffset(fs.blockSize, i, |bm.numbers|);
    ByteAt(sectors, fs, raw, bm, content, n, j, i);
  }

  lemma SizeIs(raw: seq<Byte>, size: nat)
    requires |raw| >= 96 && size < Words.MODULUS && raw[4..8] == PutU32(size)
    ensures InodeOf(raw).size == size
  {
    hide ReadU32, PutU32;
    U32RoundTrip(raw, 4, size);
  }

  lemma AllPresent(sectors: seq<Sector>, fs: Fs, raw: seq<Byte>, bm: BlockMap, content: seq<Byte>)
    requires fs.Valid() && FileLaidOut(sectors, fs, raw, bm, content)
    ensures |raw| >= 96 && InodeOf(raw).size == |content| && BlocksOf(fs, |content|) == |bm.numbers|
    ensures forall n :: 0 <= n < |bm.numbers| ==> Present(sectors, fs, InodeOf(raw), n)
  {
    hide MapLaidOut, ContentLaidOut, Present, InodeOf, BlocksOf;
    SizeIs(raw, |content|);
    BlocksAre(fs, |content|, |bm.numbers|);
    forall n | 0 <= n < |bm.numbers|
      ensures Present(sectors, fs, InodeOf(raw), n)
    {
      BlockIsThere(sectors, fs, raw, bm, content, n);
    }
  }

  /** What the reader asks of a file holds of one laid out whole. */
  lemma LaidOutIsOnDisk(sectors: seq<Sector>, fs: Fs, raw: seq<Byte>, bm: BlockMap, content: seq<Byte>)
    requires fs.Valid() && FileLaidOut(sectors, fs, raw, bm, content)
    ensures FileOnDisk(sectors, fs, InodeOf(raw))
  {
    hide FileLaidOut, Holds, InodeOf, BlocksOf;
    AllPresent(sectors, fs, raw, bm, content);
    forall n | 0 <= n < |bm.numbers|
      ensures Holds(sectors, fs, InodeOf(raw), n)
    {
      assert Present(sectors, fs, InodeOf(raw), n);
    }
  }

  /** Reading a file inverts writing it: what the reader can return is the content and nothing else. */
  lemma FileRoundTrip(sectors: seq<Sector>, fs: Fs, raw: seq<Byte>, bm: BlockMap, content: seq<Byte>,
                      hole: nat, out: seq<Byte>)
    requires fs.Valid() && FileLaidOut(sectors, fs, raw, bm, content)
    requires IsFirstHole(sectors, fs, InodeOf(raw), hole, BlocksOf(fs, InodeOf(raw).size))
    requires Assembled(sectors, fs, InodeOf(raw), hole, out)
    ensures out == content
  {
    hide FileLaidOut, Present, Holds, InodeOf, BlocksOf, StartOf, FileByte, IndexOf;
    AllPresent(sectors, fs, raw, bm, content);
    assert hole == |bm.numbers|;
    AllBlocks(fs, |content|);
    forall i | 0 <= i < |content|
      ensures out[i] == content[i]
    {
      ByteIsContent(sectors, fs, raw, bm, content, i);
    }
  }

  // ----- the superblock and the place of an inode

  /** The reader takes each parameter from its own place in the superblock. */
  lemma SuperRoundTrip(sb: seq<Byte>, shift: nat, perGroup: nat, revision: nat, inodeSize: nat)
    requires |sb| == 1024 && shift <= 21 && perGroup < Words.MODULUS && revision < Words.MODULUS && inodeSize < 0x1_0000
    requires sb[56..58] == PutU16(0xEF53) && sb[24..28] == PutU32(shift) && sb[40..44] == PutU32(perGroup)
    requires sb[76..80] == PutU32(revision) && sb[88..90] == PutU16(inodeSize)
    ensures SuperOf(sb) == Some(Fs(1024 * Words.Pow2(shift), perGroup, if revision >= 1 then inodeSize else 128,
                                   if shift == 0 then 2048 else 1024 * Words.Pow2(shift)))
  {
    hide ReadU32, ReadU16, PutU32, PutU16, Words.Pow2;
    U16RoundTrip(sb, 56, 0xEF53);
    U32RoundTrip(sb, 24, shift);
    U32RoundTrip(sb, 40, perGroup);
    U32RoundTrip(sb, 76, revision);
    U16RoundTrip(sb, 88, inodeSize);
    BlockSizes(shift);
  }

  lemma BlockSizes(shift: nat)
    requires shift <= 21
    ensures 1024 * Words.Pow2(shift) < Words.MODULUS && (1024 * Words.Pow2(shift) == 1024 <==> shift == 0)
  {
    Words.Pow2Of22();
    Words.Pow2Monotone(shift, 21);
    if shift > 0 {
      Words.Pow2Monotone(1, shift);
    }
  }

  /** A superblock with any other magic number is refused. */
  lemma OtherMagic(sb: seq<Byte>, magic: nat)
    requires |sb| == 1024 && magic < 0x1_0000 && sb[56..58] == PutU16(magic)
    ensures SuperOf(sb).None? <==> magic != 0xEF53
  {
    U16RoundTrip(sb, 56, magic);
  }

  /**
   Inodes are numbered from 1 on through the groups in order: slot k of group g is number
   g * inodesPerGroup + k + 1, in the table the group's descriptor names at its byte 8.
   */
  lemma InodeIsAt(sectors: seq<Sector>, fs: Fs, g: nat, k: nat, table: nat)
    requires k < fs.inodesPerGroup && HasGroup(sectors, fs, g) && table < Words.MODULUS
    requires Slice(sectors, fs.bgdtOff + 32 * g + 8, 4) == PutU32(table)
    ensures var ino := g * fs.inodesPerGroup + k + 1;
            GroupOf(fs, ino) == g && InodeAddress(sectors, fs, ino) == table * fs.blockSize + k * fs.inodeSize
  {
    Words.ModUnique(g * fs.inodesPerGroup + k, fs.inodesPerGroup, g, k);
    DescriptorReads(sectors, fs, g, table);
  }

  lemma DescriptorReads(sectors: seq<Sector>, fs: Fs, g: nat, table: nat)
    requires HasGroup(sectors, fs, g) && table < Words.MODULUS
    requires Slice(sectors, fs.bgdtOff + 32 * g + 8, 4) == PutU32(table)
    ensures TableStart(sectors, fs, g) == table * fs.blockSize
  {
    hide PutU32, ReadU32, DiskByte;
    var desc, word := Slice(sectors, fs.bgdtOff + g * 32, 32), Slice(sectors, fs.bgdtOff + 32 * g + 8, 4);
    assert desc[8..12] == word;
    U32RoundTrip(desc, 8, table);
  }
}
