/**
 How the block list lies in memory: three header words before each payload, and what the
 allocator's writes do to them and to the payloads.
 */
module HeapMemory {
  import opened Words
  import opened BlockList

  /** Heap memory, word by word, at addresses that are multiples of 4. */
  type Memory = map<nat, Word>

  const IS_FREE_OFFSET := 4
  const NEXT_OFFSET := 8

  ghost predicate Covers(mem: Memory, start: nat, max: nat) {
    forall a :: start <= a < max && a % 4 == 0 ==> a in mem
  }

  function FlagOf(free: bool): Word {
    if free then 1 else 0
  }

  /** Address of the block after block i, or the null pointer. */
  function NextOf(bs: seq<Block>, i: nat): nat
    requires i < |bs|
  {
    if i + 1 < |bs| then bs[i + 1].addr else 0
  }

  /** The header at `addr`, as raw words. */
  ghost predicate HeaderIs(mem: Memory, addr: nat, size: nat, free: bool, next: nat) {
    && addr in mem && addr + IS_FREE_OFFSET in mem && addr + NEXT_OFFSET in mem
    && mem[addr] == size && mem[addr + IS_FREE_OFFSET] == FlagOf(free) && mem[addr + NEXT_OFFSET] == next
  }

  ghost predicate Headers(mem: Memory, bs: seq<Block>) {
    forall i {:trigger NextOf(bs, i)} :: 0 <= i < |bs| ==> HeaderIs(mem, bs[i].addr, bs[i].size, bs[i].free, NextOf(bs, i))
  }

  /** The words of live payloads are the same in both memories. */
  ghost predicate PayloadsKept(bs: seq<Block>, before: Memory, after: Memory) {
    forall b, a :: b in bs && !b.free && b.Payload() <= a < b.Top() && a in before ==> a in after && after[a] == before[a]
  }

  /** Only words in [lo, hi) may differ. */
  ghost predicate SameOutside(before: Memory, after: Memory, lo: nat, hi: nat) {
    forall a :: a in before && !(lo <= a < hi) ==> a in after && after[a] == before[a]
  }

  function WriteHeader(mem: Memory, addr: nat, size: Word, free: bool, next: Word): Memory {
    mem[addr := size][addr + IS_FREE_OFFSET := FlagOf(free)][addr + NEXT_OFFSET := next]
  }

  // ----- effect of the writes

  lemma HeaderKept(mem: Memory, mem': Memory, lo: nat, hi: nat, addr: nat, size: nat, free: bool, next: nat)
    requires HeaderIs(mem, addr, size, free, next) && SameOutside(mem, mem', lo, hi)
    requires addr + HEADER_SIZE <= lo || hi <= addr
    ensures HeaderIs(mem', addr, size, free, next)
  {
  }

  /** Writes inside block k leave the other headers alone. */
  lemma OtherHeaderKept(mem: Memory, bs: seq<Block>, k: nat, mem': Memory, j: nat)
    requires Headers(mem, bs) && Ordered(bs) && k < |bs| && j < |bs| && j != k
    requires SameOutside(mem, mem', bs[k].addr, bs[k].Top())
    ensures HeaderIs(mem', bs[j].addr, bs[j].size, bs[j].free, NextOf(bs, j))
  {
    assert bs[j].Top() <= bs[k].addr || bs[k].Top() <= bs[j].addr;
    HeaderKept(mem, mem', bs[k].addr, bs[k].Top(), bs[j].addr, bs[j].size, bs[j].free, NextOf(bs, j));
  }

  lemma MarkHeaders(mem: Memory, bs: seq<Block>, k: nat, free: bool)
    requires Headers(mem, bs) && Ordered(bs) && k < |bs|
    ensures Headers(mem[bs[k].addr + IS_FREE_OFFSET := FlagOf(free)], bs[k := bs[k].(free := free)])
  {
    var mem' := mem[bs[k].addr + IS_FREE_OFFSET := FlagOf(free)];
    var cs := bs[k := bs[k].(free := free)];
    forall i | 0 <= i < |cs|
      ensures HeaderIs(mem', cs[i].addr, cs[i].size, cs[i].free, NextOf(cs, i))
    {
      assert NextOf(cs, i) == NextOf(bs, i);
      assert HeaderIs(mem, bs[i].addr, bs[i].size, bs[i].free, NextOf(bs, i));
      if i != k { OtherHeaderKept(mem, bs, k, mem', i); }
    }
  }

  /** Writes of split_if_worthwhile: the new header first, then the shortened block. */
  function SplitWrites(mem: Memory, addr: nat, needed: Word, size: Word, next: Word): Memory
    requires size > needed + MIN_SPLIT_REMAINDER && addr + HEADER_SIZE + needed <= MAX_WORD
  {
    var high := addr + HEADER_SIZE + needed;
    WriteHeader(mem, high, size - needed - HEADER_SIZE, true, next)[addr := needed][addr + NEXT_OFFSET := high]
  }

  function LowHalf(b: Block, needed: nat): Block {
    Block(b.addr, needed, true)
  }

  function HighHalf(b: Block, needed: nat): Block
    requires b.size >= needed + HEADER_SIZE
  {
    Block(b.addr + HEADER_SIZE + needed, b.size - needed - HEADER_SIZE, true)
  }

  function Halved(bs: seq<Block>, k: nat, needed: nat): seq<Block>
    requires k < |bs| && bs[k].size >= needed + HEADER_SIZE
  {
    bs[..k] + [LowHalf(bs[k], needed), HighHalf(bs[k], needed)] + bs[k + 1..]
  }

  lemma HalvedAt(bs: seq<Block>, k: nat, needed: nat, i: nat)
    requires k < |bs| && bs[k].size >= needed + HEADER_SIZE && i <= |bs|
    ensures var cs := Halved(bs, k, needed);
            && |cs| == |bs| + 1
            && (i < k ==> cs[i] == bs[i] && NextOf(cs, i) == NextOf(bs, i))
            && (i == k ==> cs[i] == LowHalf(bs[k], needed) && NextOf(cs, i) == HighHalf(bs[k], needed).addr)
            && (i == k + 1 ==> cs[i] == HighHalf(bs[k], needed) && NextOf(cs, i) == NextOf(bs, k))
            && (i > k + 1 ==> cs[i] == bs[i - 1] && NextOf(cs, i) == NextOf(bs, i - 1))
  {
  }

  lemma SplitWritesLocal(mem: Memory, b: Block, needed: Word, next: Word)
    requires HeaderIs(mem, b.addr, b.size, true, next)
    requires b.size > needed + MIN_SPLIT_REMAINDER && b.Top() <= MAX_WORD
    ensures var mem' := SplitWrites(mem, b.addr, needed, b.size, next);
            var high := HighHalf(b, needed);
            && SameOutside(mem, mem', b.addr, b.Top())
            && HeaderIs(mem', b.addr, needed, true, high.addr)
            && HeaderIs(mem', high.addr, high.size, true, next)
  {
  }

  lemma SplitHeaders(mem: Memory, bs: seq<Block>, k: nat, needed: Word)
    requires Headers(mem, bs) && Ordered(bs) && k < |bs| && bs[k].free
    requires bs[k].size > needed + MIN_SPLIT_REMAINDER && bs[k].Top() <= MAX_WORD
    ensures NextOf(bs, k) <= MAX_WORD
    ensures Headers(SplitWrites(mem, bs[k].addr, needed, bs[k].size, NextOf(bs, k)), Halved(bs, k, needed))
  {
    var b := bs[k];
    assert HeaderIs(mem, b.addr, b.size, true, NextOf(bs, k));
    SplitWritesLocal(mem, b, needed, NextOf(bs, k));
    var cs := Halved(bs, k, needed);
    var mem' := SplitWrites(mem, b.addr, needed, b.size, NextOf(bs, k));
    forall i | 0 <= i < |cs|
      ensures HeaderIs(mem', cs[i].addr, cs[i].size, cs[i].free, NextOf(cs, i))
    {
      HalvedAt(bs, k, needed, i);
      if i < k {
        OtherHeaderKept(mem, bs, k, mem', i);
      } else if i > k + 1 {
        OtherHeaderKept(mem, bs, k, mem', i - 1);
      }
    }
  }

  lemma MergedAt(bs: seq<Block>, k: nat, i: nat)
    requires k + 1 < |bs| && bs[k].free && bs[k + 1].free && i + 1 < |bs|
    ensures var cs := Merge(bs, k);
            && |cs| == |bs| - 1
            && (i < k ==> cs[i] == bs[i] && NextOf(cs, i) == NextOf(bs, i))
            && (i == k ==> cs[i] == Block(bs[k].addr, bs[k].size + HEADER_SIZE + bs[k + 1].size, true)
                           && NextOf(cs, i) == NextOf(bs, k + 1))
            && (i > k ==> cs[i] == bs[i + 1] && NextOf(cs, i) == NextOf(bs, i + 1))
  {
  }

  /** Writes of merge_with_next_if_free. */
  function MergeWrites(mem: Memory, addr: nat, size: Word, next: Word): Memory {
    mem[addr := size][addr + NEXT_OFFSET := next]
  }

  lemma MergeWritesLocal(mem: Memory, b: Block, size: Word, oldNext: nat, next: Word)
    requires HeaderIs(mem, b.addr, b.size, true, oldNext)
    ensures var mem' := MergeWrites(mem, b.addr, size, next);
            SameOutside(mem, mem', b.addr, b.Top()) && HeaderIs(mem', b.addr, size, true, next)
  {
  }

  lemma MergeHeaders(mem: Memory, bs: seq<Block>, k: nat)
    requires Headers(mem, bs) && Ordered(bs) && k + 1 < |bs| && bs[k].free && bs[k + 1].free
    requires bs[k + 1].Top() <= MAX_WORD
    ensures var size := bs[k].size + HEADER_SIZE + bs[k + 1].size;
            size <= MAX_WORD && NextOf(bs, k + 1) <= MAX_WORD
            && Headers(MergeWrites(mem, bs[k].addr, size, NextOf(bs, k + 1)), Merge(bs, k))
  {
    var size := bs[k].size + HEADER_SIZE + bs[k + 1].size;
    assert bs[k].Top() <= bs[k + 1].addr;
    assert HeaderIs(mem, bs[k + 1].addr, bs[k + 1].size, true, NextOf(bs, k + 1));
    MergeWritesLocal(mem, bs[k], size, NextOf(bs, k), NextOf(bs, k + 1));
    MergedHeaders(mem, bs, k, MergeWrites(mem, bs[k].addr, size, NextOf(bs, k + 1)));
  }

  lemma MergedHeaders(mem: Memory, bs: seq<Block>, k: nat, mem': Memory)
    requires Headers(mem, bs) && Ordered(bs) && k + 1 < |bs| && bs[k].free && bs[k + 1].free
    requires SameOutside(mem, mem', bs[k].addr, bs[k].Top())
    requires HeaderIs(mem', bs[k].addr, bs[k].size + HEADER_SIZE + bs[k + 1].size, true, NextOf(bs, k + 1))
    ensures Headers(mem', Merge(bs, k))
  {
    var cs := Merge(bs, k);
    forall i | 0 <= i < |cs|
      ensures HeaderIs(mem', cs[i].addr, cs[i].size, cs[i].free, NextOf(cs, i))
    {
      assert |cs| == |bs| - 1;
      MergedAt(bs, k, i);
      if i != k { OtherHeaderKept(mem, bs, k, mem', if i < k then i else i + 1); }
    }
  }

  lemma AppendHeaders(mem: Memory, bs: seq<Block>, addr: Word, needed: Word)
    requires Headers(mem, bs) && Ordered(bs) && |bs| > 0 && bs[|bs| - 1].Top() <= addr
    ensures Headers(WriteHeader(mem, addr, needed, false, 0)[bs[|bs| - 1].addr + NEXT_OFFSET := addr], bs + [Block(addr, needed, false)])
  {
    var cs := bs + [Block(addr, needed, false)];
    var mem' := WriteHeader(mem, addr, needed, false, 0)[bs[|bs| - 1].addr + NEXT_OFFSET := addr];
    forall i | 0 <= i < |cs|
      ensures HeaderIs(mem', cs[i].addr, cs[i].size, cs[i].free, NextOf(cs, i))
    {
      if i < |bs| {
        assert HeaderIs(mem, bs[i].addr, bs[i].size, bs[i].free, NextOf(bs, i));
        assert i == |bs| - 1 || bs[i].Top() <= bs[|bs| - 1].addr;
      }
    }
  }

  /** Writes to block k's header, or anywhere in it while it is free, reach no live payload. */
  lemma PayloadsUntouched(bs: seq<Block>, k: nat, before: Memory, after: Memory, hi: nat)
    requires Ordered(bs) && k < |bs| && SameOutside(before, after, bs[k].addr, hi)
    requires hi <= if bs[k].free then bs[k].Top() else bs[k].Payload()
    ensures PayloadsKept(bs, before, after)
  {
    forall b, a | b in bs && !b.free && b.Payload() <= a < b.Top() && a in before
      ensures a in after && after[a] == before[a]
    {
      var i :| 0 <= i < |bs| && bs[i] == b;
      assert i == k || bs[i].Top() <= bs[k].addr || bs[k].Top() <= bs[i].addr;
    }
  }

  /** Writing a payload word leaves every header as it was. */
  lemma PayloadWriteKeepsHeaders(mem: Memory, bs: seq<Block>, b: Block, a: nat, v: Word)
    requires Headers(mem, bs) && Ordered(bs) && b in bs && b.Payload() <= a < b.Top()
    ensures Headers(mem[a := v], bs)
  {
    var k :| 0 <= k < |bs| && bs[k] == b;
    forall i | 0 <= i < |bs|
      ensures HeaderIs(mem[a := v], bs[i].addr, bs[i].size, bs[i].free, NextOf(bs, i))
    {
      assert HeaderIs(mem, bs[i].addr, bs[i].size, bs[i].free, NextOf(bs, i));
      Apart(bs, i, k);
    }
  }

  // ----- whole lists

  /** The list `bs` is laid out in `mem` from `head` on. */
  ghost predicate LinkedList(mem: Memory, bs: seq<Block>, head: nat) {
    && |bs| > 0 && bs[0].addr == head && head > 0
    && Ordered(bs) && bs[|bs| - 1].Top() <= MAX_WORD
    && Headers(mem, bs)
  }

  /** No live payload word changes and no word is lost. */
  ghost predicate Gentle(bs: seq<Block>, before: Memory, after: Memory) {
    PayloadsKept(bs, before, after) && forall a :: a in before ==> a in after
  }

  lemma CoversKept(bs: seq<Block>, m0: Memory, m1: Memory, start: nat, max: nat)
    requires Gentle(bs, m0, m1) && Covers(m0, start, max)
    ensures Covers(m1, start, max)
  {
  }

  lemma GentleSame(bs: seq<Block>, mem: Memory)
    ensures Gentle(bs, mem, mem)
  {
  }

  /** Gentle steps compose as long as the first loses no live block. */
  lemma GentleTwice(bs: seq<Block>, m0: Memory, cs: seq<Block>, m1: Memory, m2: Memory)
    requires Gentle(bs, m0, m1) && Gentle(cs, m1, m2)
    requires forall b :: b in bs && !b.free ==> b in cs
    ensures Gentle(bs, m0, m2)
  {
  }

  /** Marking a block free only shortens the list of payloads to respect. */
  lemma GentleMarked(bs: seq<Block>, k: nat, m0: Memory, m1: Memory)
    requires k < |bs| && Gentle(bs, m0, m1)
    ensures Gentle(bs[k := bs[k].(free := true)], m0, m1)
  {
    var cs := bs[k := bs[k].(free := true)];
    forall b | b in cs && !b.free
      ensures b in bs
    {
      var i :| 0 <= i < |cs| && cs[i] == b;
      assert bs[i] == b;
    }
  }

  lemma GentleReleased(bs: seq<Block>, k: nat, m0: Memory, m1: Memory, m2: Memory)
    requires k < |bs| && Gentle(bs, m0, m1) && Gentle(bs[k := bs[k].(free := true)], m1, m2)
    ensures Gentle(bs[k := bs[k].(free := true)], m0, m2)
  {
    var marked := bs[k := bs[k].(free := true)];
    GentleMarked(bs, k, m0, m1);
    GentleTwice(marked, m0, marked, m1, m2);
  }

  lemma GentleMerge(bs: seq<Block>, k: nat, m0: Memory, m1: Memory, m2: Memory)
    requires k < |bs| && Gentle(bs, m0, m1) && Gentle(Merge(bs, k), m1, m2)
    ensures Gentle(bs, m0, m2)
  {
    forall b | b in bs && !b.free
      ensures b in Merge(bs, k)
    {
      MergeMember(bs, k, b);
    }
    GentleTwice(bs, m0, Merge(bs, k), m1, m2);
  }

  lemma LinkedHeader(mem: Memory, bs: seq<Block>, head: nat, k: nat)
    requires LinkedList(mem, bs, head) && k < |bs|
    ensures HeaderIs(mem, bs[k].addr, bs[k].size, bs[k].free, NextOf(bs, k))
    ensures bs[k].Top() <= MAX_WORD && head <= bs[k].addr
    ensures NextOf(bs, k) == 0 <==> k == |bs| - 1
  {
    assert HeaderIs(mem, bs[k].addr, bs[k].size, bs[k].free, NextOf(bs, k));
    assert k == |bs| - 1 || bs[k].Top() <= bs[|bs| - 1].addr;
    assert k == 0 || bs[0].Top() <= bs[k].addr;
    assert k == |bs| - 1 || bs[k].Top() <= bs[k + 1].addr;
  }

  lemma SplitLinked(mem: Memory, bs: seq<Block>, head: nat, k: nat, needed: Word)
    requires LinkedList(mem, bs, head) && k < |bs| && bs[k].free && bs[k].size > needed + MIN_SPLIT_REMAINDER
    ensures bs[k].Top() <= MAX_WORD && NextOf(bs, k) <= MAX_WORD
    ensures var after := SplitWrites(mem, bs[k].addr, needed, bs[k].size, NextOf(bs, k));
            LinkedList(after, Halved(bs, k, needed), head) && Gentle(bs, mem, after)
  {
    LinkedHeader(mem, bs, head, k);
    SplitHeaders(mem, bs, k, needed);
    SplitWritesLocal(mem, bs[k], needed, NextOf(bs, k));
    PayloadsUntouched(bs, k, mem, SplitWrites(mem, bs[k].addr, needed, bs[k].size, NextOf(bs, k)), bs[k].Top());
    SpliceOrdered(bs, k, k + 1, [LowHalf(bs[k], needed), HighHalf(bs[k], needed)]);
    HalvedEnds(bs, k, needed);
  }

  lemma HalvedEnds(bs: seq<Block>, k: nat, needed: nat)
    requires k < |bs| && bs[k].size >= needed + HEADER_SIZE
    ensures var cs := Halved(bs, k, needed);
            |cs| == |bs| + 1 && cs[0].addr == bs[0].addr && cs[|cs| - 1].Top() == bs[|bs| - 1].Top()
  {
  }

  lemma MarkLinked(mem: Memory, bs: seq<Block>, head: nat, k: nat, free: bool)
    requires LinkedList(mem, bs, head) && k < |bs|
    ensures var after := mem[bs[k].addr + IS_FREE_OFFSET := FlagOf(free)];
            LinkedList(after, bs[k := bs[k].(free := free)], head) && Gentle(bs, mem, after)
  {
    var after := mem[bs[k].addr + IS_FREE_OFFSET := FlagOf(free)];
    MarkHeaders(mem, bs, k, free);
    MarkOrdered(bs, k, free);
    PayloadsUntouched(bs, k, mem, after, bs[k].Payload());
  }

  lemma MergeLinked(mem: Memory, bs: seq<Block>, head: nat, k: nat)
    requires LinkedList(mem, bs, head) && k + 1 < |bs| && bs[k].free && bs[k + 1].free
    ensures bs[k].size + HEADER_SIZE + bs[k + 1].size <= MAX_WORD && NextOf(bs, k + 1) <= MAX_WORD
    ensures LinkedList(MergeWrites(mem, bs[k].addr, bs[k].size + HEADER_SIZE + bs[k + 1].size, NextOf(bs, k + 1)), Merge(bs, k), head)
  {
    LinkedHeader(mem, bs, head, k + 1);
    MergeHeaders(mem, bs, k);
    MergeOrderedEnds(bs, k);
  }

  lemma MergeGentle(mem: Memory, bs: seq<Block>, head: nat, k: nat, size: Word, next: Word)
    requires LinkedList(mem, bs, head) && k < |bs| && bs[k].free
    ensures Gentle(bs, mem, MergeWrites(mem, bs[k].addr, size, next))
  {
    LinkedHeader(mem, bs, head, k);
    MergeWritesLocal(mem, bs[k], size, NextOf(bs, k), next);
    PayloadsUntouched(bs, k, mem, MergeWrites(mem, bs[k].addr, size, next), bs[k].Top());
  }

  lemma MergeOrderedEnds(bs: seq<Block>, k: nat)
    requires Ordered(bs) && k + 1 < |bs| && bs[k].free && bs[k + 1].free
    ensures var cs := Merge(bs, k);
            Ordered(cs) && |cs| > 0 && cs[0].addr == bs[0].addr && cs[|cs| - 1].Top() <= bs[|bs| - 1].Top()
  {
    assert bs[k].Top() <= bs[k + 1].addr;
    SpliceOrdered(bs, k, k + 2, [Block(bs[k].addr, bs[k].size + HEADER_SIZE + bs[k + 1].size, true)]);
  }

  lemma AppendLinked(mem: Memory, bs: seq<Block>, head: nat, addr: Word, needed: Word)
    requires LinkedList(mem, bs, head) && bs[|bs| - 1].Top() <= addr && addr + HEADER_SIZE + needed <= MAX_WORD
    ensures var after := WriteHeader(mem, addr, needed, false, 0)[bs[|bs| - 1].addr + NEXT_OFFSET := addr];
            LinkedList(after, bs + [Block(addr, needed, false)], head) && Gentle(bs, mem, after)
  {
    var after := WriteHeader(mem, addr, needed, false, 0)[bs[|bs| - 1].addr + NEXT_OFFSET := addr];
    AppendHeaders(mem, bs, addr, needed);
    forall b, a | b in bs && !b.free && b.Payload() <= a < b.Top() && a in mem
      ensures after[a] == mem[a]
    {
      var i :| 0 <= i < |bs| && bs[i] == b;
      assert i == |bs| - 1 || bs[i].Top() <= bs[|bs| - 1].addr;
    }
  }
}
