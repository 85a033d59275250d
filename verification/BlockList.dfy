/**
 The heap's block list as a value: the address-ordered blocks, where the heap ends, and
 how many bytes page rounding has left unused. The in-place allocator in module Heap is
 proved to move between these values; what holds over whole runs is proved here.
 */
module BlockList {
  import opened Words

  const HEADER_SIZE := 12
  const MIN_SPLIT_REMAINDER := 28
  const DEFAULT_ALIGN := 4

  /** Largest request that never overflows the allocator's 32-bit arithmetic. */
  const LARGEST_REQUEST := 0xFFFF_FFF0

  datatype Block = Block(addr: nat, size: nat, free: bool) {
    function Payload(): nat { addr + HEADER_SIZE }
    function Top(): nat { addr + HEADER_SIZE + size }
    predicate Fits(needed: nat) { free && size >= needed }
  }

  datatype HeapState = HeapState(blocks: seq<Block>, end: nat, slack: nat)

  datatype Outcome = Granted(ptr: nat) | Null | Panicked

  // ----- invariants

  ghost predicate Ordered(bs: seq<Block>) {
    forall i, j {:trigger bs[i].Top(), bs[j].addr} :: 0 <= i < j < |bs| ==> bs[i].Top() <= bs[j].addr
  }

  ghost predicate WordSized(bs: seq<Block>) {
    forall i :: 0 <= i < |bs| ==> bs[i].addr % 4 == 0 && bs[i].size % 4 == 0
  }

  ghost predicate Coalesced(bs: seq<Block>) {
    forall i, j :: 0 <= i < |bs| && j == i + 1 && j < |bs| ==> !(bs[i].free && bs[j].free)
  }

  /** Header and payload bytes of every block. */
  function Footprint(bs: seq<Block>): nat {
    if |bs| == 0 then 0 else Footprint(bs[..|bs| - 1]) + HEADER_SIZE + bs[|bs| - 1].size
  }

  ghost predicate GoodList(bs: seq<Block>, start: nat) {
    |bs| > 0 && bs[0].addr == start && Ordered(bs) && WordSized(bs) && Coalesced(bs)
  }

  ghost predicate GoodBounds(start: nat, end: nat, max: nat) {
    && start % PAGE_SIZE == 0 && end % PAGE_SIZE == 0 && max % PAGE_SIZE == 0
    && start < end <= max <= 0xF000_0000
    && max - start <= 0x1000_0000
  }

  ghost predicate Good(s: HeapState, start: nat, max: nat) {
    && GoodBounds(start, s.end, max)
    && GoodList(s.blocks, start)
    && s.blocks[|s.blocks| - 1].Top() <= s.end
    && Footprint(s.blocks) + s.slack == s.end - start
  }

  ghost function Live(bs: seq<Block>): set<Block> {
    set b | b in bs && !b.free
  }

  // ----- operations

  function FirstFit(bs: seq<Block>, needed: nat): (k: nat)
    ensures k <= |bs|
    ensures k < |bs| ==> bs[k].Fits(needed)
    ensures forall j :: 0 <= j < k ==> !bs[j].Fits(needed)
  {
    if |bs| == 0 || bs[0].Fits(needed) then 0 else 1 + FirstFit(bs[1..], needed)
  }

  function IndexOf(bs: seq<Block>, addr: nat): (k: nat)
    ensures k <= |bs|
    ensures k < |bs| ==> bs[k].addr == addr
    ensures forall j :: 0 <= j < k ==> bs[j].addr != addr
  {
    if |bs| == 0 || bs[0].addr == addr then 0 else 1 + IndexOf(bs[1..], addr)
  }

  /** Takes block k for `needed` bytes, returning the tail to the list when it is worth a header. */
  function Carve(bs: seq<Block>, k: nat, needed: nat): seq<Block>
    requires k < |bs| && bs[k].Fits(needed)
  {
    var b := bs[k];
    if b.size <= needed + MIN_SPLIT_REMAINDER then bs[k := b.(free := false)]
    else bs[..k] + [Block(b.addr, needed, false),
                    Block(b.addr + HEADER_SIZE + needed, b.size - needed - HEADER_SIZE, true)] + bs[k + 1..]
  }

  function Merge(bs: seq<Block>, k: nat): seq<Block>
    requires k < |bs|
  {
    if k + 1 < |bs| && bs[k].free && bs[k + 1].free
    then bs[..k] + [Block(bs[k].addr, bs[k].size + HEADER_SIZE + bs[k + 1].size, true)] + bs[k + 2..]
    else bs
  }

  function Release(bs: seq<Block>, k: nat): seq<Block>
    requires k < |bs|
  {
    var marked := Merge(bs[k := bs[k].(free := true)], k);
    if k > 0 then Merge(marked, k - 1) else marked
  }

  /** Page-rounded end after growing by `required` bytes. */
  function GrownEnd(end: nat, required: nat): nat {
    end + RoundToPage(required)
  }

  function Grow(s: HeapState, max: nat, needed: nat): (HeapState, Outcome)
    requires max <= 0xF000_0000
  {
    var required := needed + HEADER_SIZE;
    if required > MAX_WORD then (s, Panicked)
    else if s.end + required > max then (s, Null)
    else
      var newEnd := GrownEnd(s.end, required);
      if newEnd > max || newEnd < s.end + required then (s, Null)
      else (HeapState(s.blocks + [Block(s.end, needed, false)], newEnd, s.slack + (newEnd - s.end - required)),
            Granted(s.end + HEADER_SIZE))
  }

  /** First fit, growing when nothing fits. */
  function Serve(s: HeapState, max: nat, needed: nat): (HeapState, Outcome)
    requires max <= 0xF000_0000
  {
    var k := FirstFit(s.blocks, needed);
    if k < |s.blocks| then (s.(blocks := Carve(s.blocks, k, needed)), Granted(s.blocks[k].Payload()))
    else Grow(s, max, needed)
  }

  function Allocate(s: HeapState, max: nat, size: Word): (HeapState, Outcome)
    requires max <= 0xF000_0000
  {
    if size == 0 then (s, Null)
    else if size + DEFAULT_ALIGN > MAX_WORD then (s, Panicked)
    else Serve(s, max, RoundToWord(size))
  }

  ghost predicate IsLive(bs: seq<Block>, ptr: nat) {
    exists b :: b in Live(bs) && b.Payload() == ptr
  }

  ghost function BlockOf(bs: seq<Block>, ptr: nat): (b: Block)
    requires IsLive(bs, ptr)
    ensures b in Live(bs) && b.Payload() == ptr
  {
    var b :| b in Live(bs) && b.Payload() == ptr;
    b
  }

  function Deallocate(s: HeapState, ptr: nat): HeapState
    requires ptr >= HEADER_SIZE && IndexOf(s.blocks, ptr - HEADER_SIZE) < |s.blocks|
  {
    s.(blocks := Release(s.blocks, IndexOf(s.blocks, ptr - HEADER_SIZE)))
  }

  // ----- footprint arithmetic

  lemma {:induction false} FootprintConcat(xs: seq<Block>, ys: seq<Block>)
    ensures Footprint(xs + ys) == Footprint(xs) + Footprint(ys)
    decreases |ys|
  {
    if |ys| == 0 {
      assert xs + ys == xs;
    } else {
      FootprintConcat(xs, ys[..|ys| - 1]);
      assert (xs + ys)[..|xs + ys| - 1] == xs + ys[..|ys| - 1];
    }
  }

  lemma FootprintSplice(bs: seq<Block>, i: nat, j: nat, mid: seq<Block>)
    requires i <= j <= |bs| && Footprint(mid) == Footprint(bs[i..j])
    ensures Footprint(bs[..i] + mid + bs[j..]) == Footprint(bs)
  {
    FootprintConcat(bs[..i] + mid, bs[j..]);
    FootprintConcat(bs[..i], mid);
    assert bs == bs[..i] + bs[i..j] + bs[j..];
    FootprintConcat(bs[..i] + bs[i..j], bs[j..]);
    FootprintConcat(bs[..i], bs[i..j]);
  }

  lemma FootprintOne(b: Block)
    ensures Footprint([b]) == HEADER_SIZE + b.size
  {
    assert [b][..0] == [];
  }

  lemma FootprintTwo(a: Block, b: Block)
    ensures Footprint([a, b]) == 2 * HEADER_SIZE + a.size + b.size
  {
    assert [a, b][..1] == [a];
    FootprintOne(a);
  }

  // ----- one operation

  lemma Apart(bs: seq<Block>, i: nat, j: nat)
    requires Ordered(bs) && i < |bs| && j < |bs|
    ensures bs[i].addr == bs[j].addr <==> i == j
    ensures i < j ==> bs[i].Top() <= bs[j].addr
    ensures j < i ==> bs[j].Top() <= bs[i].addr
  {
    assert i == j || bs[i].Top() <= bs[j].addr || bs[j].Top() <= bs[i].addr;
  }

  /** Addresses never repeat, so a block is found by its address. */
  lemma IndexOfBlock(bs: seq<Block>, k: nat)
    requires Ordered(bs) && k < |bs|
    ensures IndexOf(bs, bs[k].addr) == k
  {
    Apart(bs, IndexOf(bs, bs[k].addr), k);
  }

  lemma MarkOrdered(bs: seq<Block>, k: nat, free: bool)
    requires Ordered(bs) && k < |bs|
    ensures Ordered(bs[k := bs[k].(free := free)])
  {
    var cs := bs[k := bs[k].(free := free)];
    forall i, j | 0 <= i < j < |cs|
      ensures cs[i].Top() <= cs[j].addr
    {
      Apart(bs, i, j);
    }
  }

  lemma LiveIsListed(bs: seq<Block>, ptr: nat)
    requires Ordered(bs) && IsLive(bs, ptr)
    ensures ptr >= HEADER_SIZE
    ensures var k := IndexOf(bs, ptr - HEADER_SIZE);
            k < |bs| && !bs[k].free && bs[k] == BlockOf(bs, ptr)
  {
    var b := BlockOf(bs, ptr);
    var k :| 0 <= k < |bs| && bs[k] == b;
    IndexOfBlock(bs, k);
  }

  lemma SpliceOrdered(bs: seq<Block>, i: nat, j: nat, mid: seq<Block>)
    requires Ordered(bs) && i < j <= |bs| && |mid| > 0 && Ordered(mid)
    requires mid[0].addr == bs[i].addr && mid[|mid| - 1].Top() <= bs[j - 1].Top()
    ensures Ordered(bs[..i] + mid + bs[j..])
  {
    var cs := bs[..i] + mid + bs[j..];
    forall x, y | 0 <= x < y < |cs|
      ensures cs[x].Top() <= cs[y].addr
    {
      if i <= x < i + |mid| && i + |mid| <= y {
        assert cs[x].Top() <= mid[|mid| - 1].Top();
        assert bs[j - 1].Top() <= bs[y - |mid| - i + j].addr;
      } else if x < i && i <= y < i + |mid| {
        Apart(mid, 0, y - i);
        Apart(bs, x, i);
      }
    }
  }

  lemma SpliceKeeps(bs: seq<Block>, i: nat, j: nat, mid: seq<Block>)
    requires Ordered(bs) && WordSized(bs) && i < j <= |bs| && |mid| > 0
    requires mid[0].addr == bs[i].addr && mid[|mid| - 1].Top() <= bs[j - 1].Top()
    requires Ordered(mid) && WordSized(mid) && Footprint(mid) == Footprint(bs[i..j])
    ensures var cs := bs[..i] + mid + bs[j..];
            && Ordered(cs) && WordSized(cs)
            && |cs| > 0 && cs[0].addr == bs[0].addr && cs[|cs| - 1].Top() <= bs[|bs| - 1].Top()
            && Footprint(cs) == Footprint(bs)
  {
    SpliceOrdered(bs, i, j, mid);
    FootprintSplice(bs, i, j, mid);
  }

  /** Shape kept by every list operation. */
  ghost predicate Keeps(bs: seq<Block>, cs: seq<Block>) {
    && Ordered(cs) && WordSized(cs)
    && |bs| > 0 && |cs| > 0 && cs[0].addr == bs[0].addr && cs[|cs| - 1].Top() <= bs[|bs| - 1].Top()
    && Footprint(cs) == Footprint(bs)
  }

  lemma MarkKeeps(bs: seq<Block>, k: nat, free: bool)
    requires Ordered(bs) && WordSized(bs) && k < |bs|
    ensures Keeps(bs, bs[k := bs[k].(free := free)])
  {
    var b := bs[k].(free := free);
    assert bs[k := b] == bs[..k] + [b] + bs[k + 1..];
    assert bs[k..k + 1] == [bs[k]];
    FootprintOne(b);
    FootprintOne(bs[k]);
    SpliceKeeps(bs, k, k + 1, [b]);
  }

  lemma SplitPair(b: Block, needed: nat)
    requires b.addr % 4 == 0 && b.size % 4 == 0 && needed % 4 == 0 && b.size >= needed + HEADER_SIZE
    ensures var high := Block(b.addr + HEADER_SIZE + needed, b.size - needed - HEADER_SIZE, true);
            WordSized([Block(b.addr, needed, false), high]) && high.Top() == b.Top()
            && Footprint([Block(b.addr, needed, false), high]) == Footprint([b])
  {
    WordOffsets(b.addr, needed);
    WordOffsets(b.size, needed);
    FootprintOne(b);
    FootprintTwo(Block(b.addr, needed, false), Block(b.addr + HEADER_SIZE + needed, b.size - needed - HEADER_SIZE, true));
  }

  lemma CarveKeeps(bs: seq<Block>, k: nat, needed: nat)
    requires Ordered(bs) && WordSized(bs) && Coalesced(bs)
    requires k < |bs| && bs[k].Fits(needed) && needed % 4 == 0
    ensures Keeps(bs, Carve(bs, k, needed)) && Coalesced(Carve(bs, k, needed))
  {
    if bs[k].size <= needed + MIN_SPLIT_REMAINDER {
      MarkKeeps(bs, k, false);
    } else {
      CarveSplitKeeps(bs, k, needed);
    }
  }

  lemma CarveSplitKeeps(bs: seq<Block>, k: nat, needed: nat)
    requires Ordered(bs) && WordSized(bs) && Coalesced(bs)
    requires k < |bs| && bs[k].Fits(needed) && needed % 4 == 0 && bs[k].size > needed + MIN_SPLIT_REMAINDER
    ensures Keeps(bs, Carve(bs, k, needed)) && Coalesced(Carve(bs, k, needed))
  {
    var b := bs[k];
    var low := Block(b.addr, needed, false);
    var high := Block(b.addr + HEADER_SIZE + needed, b.size - needed - HEADER_SIZE, true);
    assert bs[k..k + 1] == [b];
    SplitPair(b, needed);
    SpliceKeeps(bs, k, k + 1, [low, high]);
    CarveCoalesced(bs, k, low, high);
    assert Carve(bs, k, needed) == bs[..k] + [low, high] + bs[k + 1..];
  }

  lemma CarveCoalesced(bs: seq<Block>, k: nat, low: Block, high: Block)
    requires Coalesced(bs) && k < |bs| && bs[k].free && !low.free
    ensures Coalesced(bs[..k] + [low, high] + bs[k + 1..])
  {
    var cs := bs[..k] + [low, high] + bs[k + 1..];
    forall i, j | 0 <= i < |cs| && j == i + 1 && j < |cs|
      ensures !(cs[i].free && cs[j].free)
    {
      if j < k {
        assert cs[i] == bs[i] && cs[j] == bs[j];
      } else if i > k {
        assert cs[j] == bs[j - 1] && (i == k + 1 || cs[i] == bs[i - 1]);
      }
    }
  }

  lemma MergeKeeps(bs: seq<Block>, k: nat)
    requires Ordered(bs) && WordSized(bs) && k < |bs|
    ensures Keeps(bs, Merge(bs, k))
  {
    if k + 1 < |bs| && bs[k].free && bs[k + 1].free {
      var m := Block(bs[k].addr, bs[k].size + HEADER_SIZE + bs[k + 1].size, true);
      assert bs[k..k + 2] == [bs[k], bs[k + 1]];
      FootprintOne(m);
      FootprintTwo(bs[k], bs[k + 1]);
      Apart(bs, k, k + 1);
      SpliceKeeps(bs, k, k + 2, [m]);
    }
  }

  /** Every pair of neighbours is coalesced, except perhaps those at `hole`. */
  ghost predicate CoalescedBut(bs: seq<Block>, holes: set<int>) {
    forall i, j :: 0 <= i < |bs| && j == i + 1 && j < |bs| && i !in holes ==> !(bs[i].free && bs[j].free)
  }

  lemma MergeCoalesces(bs: seq<Block>, k: nat, holes: set<int>)
    requires k < |bs| && CoalescedBut(bs, holes) && holes <= {k, k - 1} && bs[k].free
    ensures CoalescedBut(Merge(bs, k), holes - {k})
    ensures k < |Merge(bs, k)| && Merge(bs, k)[k].free
  {
    var cs := Merge(bs, k);
    if cs != bs {
      forall i, j | 0 <= i < |cs| && j == i + 1 && j < |cs| && i !in holes - {k}
        ensures !(cs[i].free && cs[j].free)
      {
        if j <= k {
          assert i != k && !(bs[i].free && bs[j].free);
        } else {
          assert cs[j] == bs[j + 1] && !(bs[j].free && bs[j + 1].free);
        }
      }
    }
  }

  lemma ReleaseKeeps(bs: seq<Block>, k: nat)
    requires Ordered(bs) && WordSized(bs) && Coalesced(bs)
    requires k < |bs| && !bs[k].free
    ensures Keeps(bs, Release(bs, k)) && Coalesced(Release(bs, k))
  {
    ReleaseShape(bs, k);
    ReleaseCoalesced(bs, k);
  }

  lemma ReleaseShape(bs: seq<Block>, k: nat)
    requires Ordered(bs) && WordSized(bs) && k < |bs|
    ensures Keeps(bs, Release(bs, k))
  {
    var marked := bs[k := bs[k].(free := true)];
    MarkKeeps(bs, k, true);
    MergeTwiceKeeps(marked, k);
    KeepsTransitive(bs, marked, if k > 0 then Merge(Merge(marked, k), k - 1) else Merge(marked, k));
  }

  lemma MergeTwiceKeeps(bs: seq<Block>, k: nat)
    requires Ordered(bs) && WordSized(bs) && k < |bs|
    ensures Keeps(bs, if k > 0 then Merge(Merge(bs, k), k - 1) else Merge(bs, k))
  {
    var once := Merge(bs, k);
    MergeKeeps(bs, k);
    if k > 0 {
      MergeKeeps(once, k - 1);
      KeepsTransitive(bs, once, Merge(once, k - 1));
    }
  }

  lemma KeepsTransitive(a: seq<Block>, b: seq<Block>, c: seq<Block>)
    requires Keeps(a, b) && Keeps(b, c)
    ensures Keeps(a, c)
  {
  }

  lemma ReleaseCoalesced(bs: seq<Block>, k: nat)
    requires Coalesced(bs) && k < |bs|
    ensures Coalesced(Release(bs, k))
  {
    var marked := bs[k := bs[k].(free := true)];
    var once := Merge(marked, k);
    MergeCoalesces(marked, k, {k, k - 1});
    if k > 0 {
      assert CoalescedBut(once, {k - 1});
      if once[k - 1].free {
        MergeCoalesces(once, k - 1, {k - 1});
      }
    }
  }

  /** What is live after carving: everything before, plus the block handed out. */
  lemma CarveLive(bs: seq<Block>, k: nat, needed: nat)
    requires Ordered(bs) && k < |bs| && bs[k].Fits(needed)
    ensures exists b: Block :: Live(Carve(bs, k, needed)) == Live(bs) + {b} && b !in Live(bs)
                        && b.addr == bs[k].addr && b.size >= needed
  {
    var cs := Carve(bs, k, needed);
    var b := cs[k];
    forall x ensures x in Live(cs) <==> x in Live(bs) + {b} {
      CarveMember(bs, k, needed, x);
    }
    assert Live(cs) == Live(bs) + {b};
    forall x | x in Live(bs)
      ensures x.addr != b.addr
    {
      var i :| 0 <= i < |bs| && bs[i] == x;
      Apart(bs, i, k);
    }
  }

  lemma CarveMember(bs: seq<Block>, k: nat, needed: nat, x: Block)
    requires k < |bs| && bs[k].Fits(needed)
    ensures var cs := Carve(bs, k, needed); x in Live(cs) <==> x in Live(bs) || x == cs[k]
  {
    var cs := Carve(bs, k, needed);
    assert cs[k] in cs;
    if b :| b in bs && b == x && !b.free {
      var i :| 0 <= i < |bs| && bs[i] == x;
      assert i != k;
      assert cs[if i < k then i else i + |cs| - |bs|] == x;
    }
    if x in Live(cs) && x != cs[k] {
      var i :| 0 <= i < |cs| && cs[i] == x;
      assert bs[if i < k then i else i + |bs| - |cs|] == x;
    }
  }

  lemma MergeMember(bs: seq<Block>, k: nat, x: Block)
    requires k < |bs| && !x.free
    ensures x in Merge(bs, k) <==> x in bs
  {
    if k + 1 < |bs| && bs[k].free && bs[k + 1].free {
      var m := Block(bs[k].addr, bs[k].size + HEADER_SIZE + bs[k + 1].size, true);
      assert bs == bs[..k] + [bs[k], bs[k + 1]] + bs[k + 2..];
      assert Merge(bs, k) == bs[..k] + [m] + bs[k + 2..];
    }
  }

  lemma MarkMember(bs: seq<Block>, k: nat, x: Block)
    requires Ordered(bs) && k < |bs| && !bs[k].free && !x.free
    ensures x in bs[k := bs[k].(free := true)] <==> x in bs && x != bs[k]
  {
    var marked := bs[k := bs[k].(free := true)];
    if x in marked {
      var i :| 0 <= i < |marked| && marked[i] == x;
      Apart(bs, i, k);
    }
    if x in bs && x != bs[k] {
      var i :| 0 <= i < |bs| && bs[i] == x;
      assert marked[i] == x;
    }
  }

  /** Releasing a block removes exactly it from the live set. */
  lemma ReleaseLive(bs: seq<Block>, k: nat)
    requires Ordered(bs) && k < |bs| && !bs[k].free
    ensures Live(Release(bs, k)) == Live(bs) - {bs[k]}
  {
    var marked := bs[k := bs[k].(free := true)];
    forall x: Block | !x.free
      ensures x in Release(bs, k) <==> x in bs && x != bs[k]
    {
      MergeMember(marked, k, x);
      if k > 0 { MergeMember(Merge(marked, k), k - 1, x); }
      MarkMember(bs, k, x);
    }
  }
}
