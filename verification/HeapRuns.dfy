/**
 What the block list guarantees over every legal run of allocations, releases and growth.
 */
module HeapRuns {
  import opened Words
  import opened BlockList

  datatype Op = Alloc(size: Word) | Free(ptr: nat)

  function Initial(start: nat, initialSize: nat): HeapState
    requires initialSize >= HEADER_SIZE
  {
    HeapState([Block(start, initialSize - HEADER_SIZE, true)], start + initialSize, 0)
  }

  /** Callers free only what is live; nothing else is asked of them. */
  ghost predicate Legal(s: HeapState, op: Op) {
    op.Free? ==> IsLive(s.blocks, op.ptr)
  }

  ghost function Step(s: HeapState, max: nat, op: Op): HeapState
    requires max <= 0xF000_0000 && Ordered(s.blocks) && Legal(s, op)
  {
    match op
    case Alloc(size) => Allocate(s, max, size).0
    case Free(ptr) => FreeStep(s, ptr)
  }

  ghost function FreeStep(s: HeapState, ptr: nat): HeapState
    requires Ordered(s.blocks) && IsLive(s.blocks, ptr)
  {
    LiveIsListed(s.blocks, ptr); Deallocate(s, ptr)
  }

  ghost predicate LegalRun(s: HeapState, start: nat, max: nat, ops: seq<Op>)
    requires Good(s, start, max)
    decreases |ops|
  {
    |ops| == 0 || (Legal(s, ops[0]) && (StepGood(s, start, max, ops[0]); LegalRun(Step(s, max, ops[0]), start, max, ops[1..])))
  }

  ghost function Run(s: HeapState, start: nat, max: nat, ops: seq<Op>): (r: HeapState)
    requires Good(s, start, max) && LegalRun(s, start, max, ops)
    ensures Good(r, start, max)
    decreases |ops|
  {
    if |ops| == 0 then s
    else StepGood(s, start, max, ops[0]); Run(Step(s, max, ops[0]), start, max, ops[1..])
  }

  // ----- growth

  /** When the allocator's own limit admits a growth, page rounding never passes the limit. */
  lemma RoundingStaysWithinLimit(end: nat, max: nat, required: nat)
    requires end % PAGE_SIZE == 0 && max % PAGE_SIZE == 0 && max <= 0xF000_0000
    requires end + required <= max
    ensures end + required <= GrownEnd(end, required) <= max && GrownEnd(end, required) % PAGE_SIZE == 0
  {
    MultiplesDiffer(end, max, PAGE_SIZE);
    if max - end < RoundToPage(required) {
      PagesApart(max - end, RoundToPage(required));
    }
    MultiplesAdd(end, RoundToPage(required), PAGE_SIZE);
  }

  lemma GrowGood(s: HeapState, start: nat, max: nat, needed: nat)
    requires Good(s, start, max) && needed % 4 == 0
    requires s.end + needed + HEADER_SIZE <= max
    ensures var (t, o) := Grow(s, max, needed);
            && Good(t, start, max) && o == Granted(s.end + HEADER_SIZE)
            && t.end == GrownEnd(s.end, needed + HEADER_SIZE)
            && t.blocks == s.blocks + [Block(s.end, needed, false)]
  {
    var b := Block(s.end, needed, false);
    RoundingStaysWithinLimit(s.end, max, needed + HEADER_SIZE);
    FootprintConcat(s.blocks, [b]);
    FootprintOne(b);
    AppendGood(s.blocks, start, b);
  }

  lemma AppendGood(bs: seq<Block>, start: nat, b: Block)
    requires GoodList(bs, start) && bs[|bs| - 1].Top() <= b.addr
    requires b.addr % PAGE_SIZE == 0 && b.size % 4 == 0 && !b.free
    ensures GoodList(bs + [b], start)
  {
    PageIsWord(b.addr);
    assert Ordered(bs + [b]);
  }

  // ----- one allocation

  /** The kernel halts on exactly the requests whose size arithmetic overflows. */
  lemma AllocatePanicsIff(s: HeapState, start: nat, max: nat, size: Word)
    requires Good(s, start, max)
    ensures Allocate(s, max, size).1.Panicked? <==> size > 0xFFFF_FFF0
    ensures Allocate(s, max, size).1.Panicked? ==> Allocate(s, max, size).0 == s
  {
    if size + DEFAULT_ALIGN <= MAX_WORD && size > 0 {
      var needed := RoundToWord(size);
      if size > LARGEST_REQUEST {
        NothingThatLargeFits(s, start, max, needed);
      }
    }
  }

  lemma NothingThatLargeFits(s: HeapState, start: nat, max: nat, needed: nat)
    requires Good(s, start, max) && needed > max - start
    ensures FirstFit(s.blocks, needed) == |s.blocks|
  {
    var k := FirstFit(s.blocks, needed);
    if k < |s.blocks| {
      BlockWithin(s, start, max, k);
      assert false;
    }
  }

  lemma BlockWithin(s: HeapState, start: nat, max: nat, k: nat)
    requires Good(s, start, max) && k < |s.blocks|
    ensures start <= s.blocks[k].addr && s.blocks[k].Top() <= s.end <= max
  {
    assert k == 0 || s.blocks[0].Top() <= s.blocks[k].addr;
    assert k == |s.blocks| - 1 || s.blocks[k].Top() <= s.blocks[|s.blocks| - 1].addr;
  }

  ghost predicate SomeFits(bs: seq<Block>, needed: nat) {
    exists k :: 0 <= k < |bs| && bs[k].Fits(needed)
  }

  /** Null means a zero request, or that no free block fits and growing would pass the limit. */
  lemma AllocateNullIff(s: HeapState, start: nat, max: nat, size: Word)
    requires Good(s, start, max) && size <= LARGEST_REQUEST
    ensures Allocate(s, max, size).1.Null? <==>
              size == 0 || (var needed := RoundToWord(size);
                            !SomeFits(s.blocks, needed) && s.end + needed + HEADER_SIZE > max)
    ensures Allocate(s, max, size).1.Null? ==> Allocate(s, max, size).0 == s
  {
    if size > 0 {
      var needed := RoundToWord(size);
      if s.end + needed + HEADER_SIZE <= max {
        GrowGood(s, start, max, needed);
      }
    }
  }

  /**
   A granted request makes exactly one new block live, at least as large as asked; it is the
   lowest free block that fits, or lies at the old end when none fits.
   */
  lemma AllocateGrants(s: HeapState, start: nat, max: nat, size: Word)
    requires Good(s, start, max) && Allocate(s, max, size).1.Granted?
    ensures var (t, o) := Allocate(s, max, size);
            var needed := RoundToWord(size);
            && Good(t, start, max)
            && (exists b :: b !in Live(s.blocks) && Live(t.blocks) == Live(s.blocks) + {b}
                            && b.Payload() == o.ptr && b.size >= size)
            && (forall f :: f in s.blocks && f.Fits(needed) ==> o.ptr <= f.Payload())
            && (SomeFits(s.blocks, needed) ==> t.end == s.end && exists f :: f in s.blocks && f.Fits(needed) && f.Payload() == o.ptr)
            && (!SomeFits(s.blocks, needed) ==> o.ptr == s.end + HEADER_SIZE)
  {
    var b := ServeGrants(s, start, max, RoundToWord(size));
  }

  lemma ServeGrants(s: HeapState, start: nat, max: nat, needed: nat) returns (b: Block)
    requires Good(s, start, max) && needed % 4 == 0 && Serve(s, max, needed).1.Granted?
    ensures var (t, o) := Serve(s, max, needed);
            && Good(t, start, max)
            && b !in Live(s.blocks) && Live(t.blocks) == Live(s.blocks) + {b} && b.Payload() == o.ptr && b.size >= needed
            && (forall f :: f in s.blocks && f.Fits(needed) ==> o.ptr <= f.Payload())
            && (SomeFits(s.blocks, needed) ==> t.end == s.end && exists f :: f in s.blocks && f.Fits(needed) && f.Payload() == o.ptr)
            && (!SomeFits(s.blocks, needed) ==> o.ptr == s.end + HEADER_SIZE)
  {
    var k := FirstFit(s.blocks, needed);
    if k < |s.blocks| {
      CarveGrants(s, start, max, needed);
      var t := s.(blocks := Carve(s.blocks, k, needed));
      b :| b !in Live(s.blocks) && Live(t.blocks) == Live(s.blocks) + {b}
           && b.Payload() == s.blocks[k].Payload() && b.size >= needed;
    } else {
      GrowGrants(s, start, max, needed);
      b := Block(s.end, needed, false);
    }
  }

  lemma CarveGrants(s: HeapState, start: nat, max: nat, needed: nat)
    requires Good(s, start, max) && needed % 4 == 0 && FirstFit(s.blocks, needed) < |s.blocks|
    ensures var k := FirstFit(s.blocks, needed);
            var t := s.(blocks := Carve(s.blocks, k, needed));
            && Good(t, start, max)
            && (exists b :: b !in Live(s.blocks) && Live(t.blocks) == Live(s.blocks) + {b}
                            && b.Payload() == s.blocks[k].Payload() && b.size >= needed)
            && (forall f :: f in s.blocks && f.Fits(needed) ==> s.blocks[k].Payload() <= f.Payload())
  {
    var k := FirstFit(s.blocks, needed);
    CarveKeeps(s.blocks, k, needed);
    CarveLive(s.blocks, k, needed);
    forall f | f in s.blocks && f.Fits(needed)
      ensures s.blocks[k].Payload() <= f.Payload()
    {
      var i :| 0 <= i < |s.blocks| && s.blocks[i] == f;
      Apart(s.blocks, k, i);
    }
  }

  lemma GrowGrants(s: HeapState, start: nat, max: nat, needed: nat)
    requires Good(s, start, max) && needed % 4 == 0 && Grow(s, max, needed).1.Granted?
    ensures var (t, o) := Grow(s, max, needed);
            var b := Block(s.end, needed, false);
            && Good(t, start, max) && o.ptr == s.end + HEADER_SIZE
            && b !in Live(s.blocks) && Live(t.blocks) == Live(s.blocks) + {b}
  {
    GrowGood(s, start, max, needed);
    forall c | c in s.blocks
      ensures c.addr < s.end
    {
      var i :| 0 <= i < |s.blocks| && s.blocks[i] == c;
      BlockWithin(s, start, max, i);
    }
    var b := Block(s.end, needed, false);
    assert Live(s.blocks + [b]) == Live(s.blocks) + {b};
  }

  // ----- how much a request takes

  ghost function FreeBlocks(bs: seq<Block>): set<Block> {
    set b | b in bs && b.free
  }

  /** The lowest free block of at least `size` bytes is block k. */
  ghost predicate IsFirstFit(bs: seq<Block>, size: nat, k: nat) {
    && k < |bs| && bs[k].free && bs[k].size >= size
    && forall j :: 0 <= j < k ==> !bs[j].free || bs[j].size < size
  }

  /** `needed` is `size` in whole words. */
  predicate InWords(size: nat, needed: nat) {
    needed % 4 == 0 && size <= needed < size + 4
  }

  lemma WordsRound(size: Word, needed: nat)
    requires InWords(size, needed) && size <= 0xFFFF_FFF0
    ensures RoundToWord(size) == needed
  {
    ModUnique(RoundToWord(size), 4, RoundToWord(size) / 4, 0);
  }

  lemma FirstFitInWords(bs: seq<Block>, size: Word, needed: nat, k: nat)
    requires WordSized(bs) && InWords(size, needed) && IsFirstFit(bs, size, k)
    ensures FirstFit(bs, needed) == k
  {
    assert bs[k].size >= needed;
  }

  lemma CarvedLarge(bs: seq<Block>, k: nat, needed: nat)
    requires Ordered(bs) && k < |bs| && bs[k].Fits(needed) && bs[k].size > needed + 28
    ensures var f := bs[k];
            && Live(Carve(bs, k, needed)) == Live(bs) + {Block(f.addr, needed, false)}
            && FreeBlocks(Carve(bs, k, needed))
               == FreeBlocks(bs) - {f} + {Block(f.addr + 12 + needed, f.size - needed - 12, true)}
  {
    var f, cs := bs[k], Carve(bs, k, needed);
    var low, high := Block(f.addr, needed, false), Block(f.addr + 12 + needed, f.size - needed - 12, true);
    assert cs == bs[..k] + [low, high] + bs[k + 1..];
    assert bs == bs[..k] + [f] + bs[k + 1..];
    assert forall x :: x in cs <==> x in bs[..k] || x in bs[k + 1..] || x == low || x == high;
    OnlyOnce(bs, k);
  }

  lemma CarvedWhole(bs: seq<Block>, k: nat, needed: nat)
    requires Ordered(bs) && k < |bs| && bs[k].Fits(needed) && bs[k].size <= needed + 28
    ensures var f := bs[k];
            && Live(Carve(bs, k, needed)) == Live(bs) + {Block(f.addr, f.size, false)}
            && FreeBlocks(Carve(bs, k, needed)) == FreeBlocks(bs) - {f}
  {
    var f, cs := bs[k], Carve(bs, k, needed);
    var low := Block(f.addr, f.size, false);
    assert cs == bs[..k] + [low] + bs[k + 1..];
    assert bs == bs[..k] + [f] + bs[k + 1..];
    assert forall x :: x in cs <==> x in bs[..k] || x in bs[k + 1..] || x == low;
    OnlyOnce(bs, k);
  }

  lemma OnlyOnce(bs: seq<Block>, k: nat)
    requires Ordered(bs) && k < |bs|
    ensures bs[k] !in bs[..k] && bs[k] !in bs[k + 1..]
  {
    forall i | 0 <= i < |bs| && i != k
      ensures bs[i] != bs[k]
    {
      Apart(bs, i, k);
    }
  }

  /**
   A request takes the lowest free block that is large enough. Of a block with more than 28 bytes
   to spare it takes its own size in words and leaves the rest, behind a new header of 12 bytes,
   as a free block; otherwise it takes the whole block. Nothing else changes.
   */
  lemma AllocateTakes(s: HeapState, start: nat, max: nat, size: Word, needed: nat, k: nat)
    requires Good(s, start, max) && 0 < size <= 0xFFFF_FFF0 && InWords(size, needed) && IsFirstFit(s.blocks, size, k)
    ensures var f, (t, o) := s.blocks[k], Allocate(s, max, size);
            && o == Granted(f.addr + 12) && t.end == s.end && t.slack == s.slack
            && if f.size > needed + 28
               then && Live(t.blocks) == Live(s.blocks) + {Block(f.addr, needed, false)}
                    && FreeBlocks(t.blocks) == FreeBlocks(s.blocks) - {f} + {Block(f.addr + 12 + needed, f.size - needed - 12, true)}
               else && Live(t.blocks) == Live(s.blocks) + {Block(f.addr, f.size, false)}
                    && FreeBlocks(t.blocks) == FreeBlocks(s.blocks) - {f}
  {
    hide Carve, Live, FreeBlocks;
    WordsRound(size, needed);
    FirstFitInWords(s.blocks, size, needed, k);
    if s.blocks[k].size > needed + 28 {
      CarvedLarge(s.blocks, k, needed);
    } else {
      CarvedWhole(s.blocks, k, needed);
    }
  }

  /**
   When no free block is large enough, the heap grows by whole pages, as few as hold the request
   and its header of 12 bytes; the block lies at the old end and what is left of the pages is lost.
   Past the limit the answer is null.
   */
  lemma AllocateGrows(s: HeapState, start: nat, max: nat, size: Word, needed: nat)
    requires Good(s, start, max) && 0 < size <= 0xFFFF_FFF0 && InWords(size, needed)
    requires forall b :: b in s.blocks && b.free ==> b.size < size
    ensures var (t, o) := Allocate(s, max, size);
            if s.end + needed + 12 > max then o == Null && t == s
            else && o == Granted(s.end + 12)
                 && t.end % 4096 == 0 && s.end + needed + 12 <= t.end < s.end + needed + 12 + 4096
                 && t.slack == s.slack + (t.end - s.end - needed - 12)
                 && Live(t.blocks) == Live(s.blocks) + {Block(s.end, needed, false)}
                 && FreeBlocks(t.blocks) == FreeBlocks(s.blocks)
  {
    WordsRound(size, needed);
    assert FirstFit(s.blocks, needed) == |s.blocks|;
    if s.end + needed + 12 <= max {
      GrowGood(s, start, max, needed);
      assert needed + 12 <= RoundToPage(needed + 12) < needed + 12 + 4096;
    }
  }

  /** In a fresh heap of n bytes the second request lies a header behind the first one's own words. */
  lemma TwoRequests(start: nat, n: nat, max: nat, a: Word, b: Word, na: nat, nb: nat)
    requires GoodBounds(start, start + n, max)
    requires 0 < a && 0 < b && InWords(a, na) && InWords(b, nb) && na + nb + 24 <= n && na + 40 < n
    ensures n >= HEADER_SIZE
    ensures var (s, o) := Allocate(Initial(start, n), max, a);
            o == Granted(start + 12) && Allocate(s, max, b).1 == Granted(start + 24 + na)
  {
    InitialGood(start, n, max);
    var s0 := Initial(start, n);
    var (s, o) := Allocate(s0, max, a);
    WordsRound(a, na);
    FirstFitInWords(s0.blocks, a, na, 0);
    assert s.blocks == [Block(start, na, false), Block(start + 12 + na, n - na - 24, true)];
    WordsRound(b, nb);
    assert FirstFit(s.blocks[1..], nb) == 0;
    assert FirstFit(s.blocks, nb) == 1;
  }

  lemma DeallocateGood(s: HeapState, start: nat, max: nat, ptr: nat)
    requires Good(s, start, max) && IsLive(s.blocks, ptr)
    ensures ptr >= HEADER_SIZE && IndexOf(s.blocks, ptr - HEADER_SIZE) < |s.blocks|
    ensures var t := Deallocate(s, ptr);
            Good(t, start, max) && t.end == s.end && t.slack == s.slack
            && Live(t.blocks) == Live(s.blocks) - {BlockOf(s.blocks, ptr)}
  {
    LiveIsListed(s.blocks, ptr);
    var k := IndexOf(s.blocks, ptr - HEADER_SIZE);
    ReleaseKeeps(s.blocks, k);
    ReleaseLive(s.blocks, k);
  }

  lemma StepGood(s: HeapState, start: nat, max: nat, op: Op)
    requires Good(s, start, max) && Legal(s, op)
    ensures Good(Step(s, max, op), start, max)
  {
    match op
    case Alloc(size) =>
      var o := Allocate(s, max, size).1;
      if o.Granted? {
        AllocateGrants(s, start, max, size);
      } else if size <= LARGEST_REQUEST {
        AllocateNullIff(s, start, max, size);
      } else {
        AllocatePanicsIff(s, start, max, size);
      }
    case Free(ptr) =>
      DeallocateGood(s, start, max, ptr);
  }

  // ----- main results

  /** Live payloads never overlap one another or any header. */
  lemma LiveDisjoint(s: HeapState, start: nat, max: nat, b: Block, c: Block)
    requires Good(s, start, max) && b in s.blocks && c in s.blocks && b != c
    ensures b.Top() <= c.addr || c.Top() <= b.addr
  {
    var i :| 0 <= i < |s.blocks| && s.blocks[i] == b;
    var j :| 0 <= j < |s.blocks| && s.blocks[j] == c;
  }

  /** Freeing a block at once after it was carved restores the identical list, split or not. */
  lemma CarveReleaseRestores(bs: seq<Block>, k: nat, needed: nat)
    requires Ordered(bs) && Coalesced(bs) && k < |bs| && bs[k].Fits(needed)
    ensures Release(Carve(bs, k, needed), k) == bs
  {
    var cs := Carve(bs, k, needed);
    var marked := cs[k := cs[k].(free := true)];
    if bs[k].size <= needed + MIN_SPLIT_REMAINDER {
      assert marked == bs;
      assert Merge(marked, k) == bs;
    } else {
      assert marked[k].free && marked[k + 1].free;
      assert Merge(marked, k) == bs;
    }
  }

  /** Allocate then free is the identity on the heap whenever the list served the request. */
  lemma AllocateDeallocateIdentity(s: HeapState, start: nat, max: nat, size: Word)
    requires Good(s, start, max) && Allocate(s, max, size).1.Granted?
    requires SomeFits(s.blocks, RoundToWord(size))
    ensures var (t, o) := Allocate(s, max, size);
            o.ptr >= HEADER_SIZE && IndexOf(t.blocks, o.ptr - HEADER_SIZE) < |t.blocks| && Deallocate(t, o.ptr) == s
  {
    ServeDeallocateIdentity(s, max, RoundToWord(size));
  }

  lemma ServeDeallocateIdentity(s: HeapState, max: nat, needed: nat)
    requires max <= 0xF000_0000 && needed % 4 == 0 && SomeFits(s.blocks, needed)
    requires Ordered(s.blocks) && WordSized(s.blocks) && Coalesced(s.blocks)
    ensures var (t, o) := Serve(s, max, needed);
            o.Granted? && o.ptr >= HEADER_SIZE && IndexOf(t.blocks, o.ptr - HEADER_SIZE) < |t.blocks| && Deallocate(t, o.ptr) == s
  {
    var k := FirstFit(s.blocks, needed);
    ServeFromList(s, max, needed);
    CarveReleaseByAddress(s.blocks, k, needed);
    var t := s.(blocks := Carve(s.blocks, k, needed));
    DeallocateAt(t, k, s.blocks[k].addr);
  }

  lemma DeallocateAt(s: HeapState, k: nat, addr: nat)
    requires IndexOf(s.blocks, addr) == k < |s.blocks|
    ensures Deallocate(s, addr + HEADER_SIZE) == s.(blocks := Release(s.blocks, k))
  {
  }

  lemma ServeFromList(s: HeapState, max: nat, needed: nat)
    requires max <= 0xF000_0000 && SomeFits(s.blocks, needed)
    ensures var k := FirstFit(s.blocks, needed);
            k < |s.blocks| && Serve(s, max, needed) == (s.(blocks := Carve(s.blocks, k, needed)), Granted(s.blocks[k].Payload()))
  {
  }

  lemma CarveReleaseByAddress(bs: seq<Block>, k: nat, needed: nat)
    requires Ordered(bs) && WordSized(bs) && Coalesced(bs) && k < |bs| && bs[k].Fits(needed) && needed % 4 == 0
    ensures var cs := Carve(bs, k, needed);
            IndexOf(cs, bs[k].addr) == k < |cs| && Release(cs, k) == bs
  {
    CarveKeeps(bs, k, needed);
    IndexOfBlock(Carve(bs, k, needed), k);
    CarveReleaseRestores(bs, k, needed);
  }

  /** A heap with nothing live has coalesced into one free block covering all but the growth slack. */
  lemma NothingLiveIsOneBlock(s: HeapState, start: nat, max: nat)
    requires Good(s, start, max) && Live(s.blocks) == {}
    ensures s.blocks == [Block(start, s.end - start - s.slack - HEADER_SIZE, true)]
  {
    forall i | 0 <= i < |s.blocks|
      ensures s.blocks[i].free
    {
      assert s.blocks[i] !in Live(s.blocks);
    }
    var second := if |s.blocks| > 1 then 1 else 0;
    assert s.blocks[0].free && s.blocks[second].free;
    assert s.blocks == [s.blocks[0]];
    FootprintOne(s.blocks[0]);
  }

  lemma {:induction false} SlackOnlyGrowsWithEnd(s: HeapState, start: nat, max: nat, ops: seq<Op>)
    requires Good(s, start, max) && LegalRun(s, start, max, ops)
    ensures var t := Run(s, start, max, ops); s.end <= t.end && s.slack <= t.slack && (t.end == s.end ==> t.slack == s.slack)
    decreases |ops|
  {
    if |ops| == 0 {
    } else {
      StepGood(s, start, max, ops[0]);
      var t := Step(s, max, ops[0]);
      assert s.end <= t.end && s.slack <= t.slack && (t.end == s.end ==> t.slack == s.slack);
      SlackOnlyGrowsWithEnd(t, start, max, ops[1..]);
    }
  }

  lemma InitialGood(start: nat, initialSize: nat, max: nat)
    requires GoodBounds(start, start + initialSize, max)
    ensures initialSize >= HEADER_SIZE && Good(Initial(start, initialSize), start, max)
  {
    PagesAreWords(start, initialSize);
    FootprintOne(Block(start, initialSize - HEADER_SIZE, true));
  }

  lemma PagesAreWords(a: nat, n: nat)
    requires a % PAGE_SIZE == 0 && (a + n) % PAGE_SIZE == 0
    ensures a % 4 == 0 && n % 4 == 0 && (n > 0 ==> n >= PAGE_SIZE && (n - HEADER_SIZE) % 4 == 0)
  {
    MultiplesDiffer(a, a + n, PAGE_SIZE);
    PageIsWord(a);
    PageIsWord(n);
  }

  /**
   Whatever legal run led there, a heap whose callers have given everything back is a single
   free block; if it never grew it is the very heap it started as.
   */
  lemma RunThenNothingLive(start: nat, initialSize: nat, max: nat, ops: seq<Op>)
    requires initialSize >= HEADER_SIZE && Good(Initial(start, initialSize), start, max)
    requires LegalRun(Initial(start, initialSize), start, max, ops)
    requires Live(Run(Initial(start, initialSize), start, max, ops).blocks) == {}
    ensures var t := Run(Initial(start, initialSize), start, max, ops);
            && t.blocks == [Block(start, t.end - start - t.slack - HEADER_SIZE, true)]
            && (t.end == start + initialSize ==> t == Initial(start, initialSize))
  {
    SlackOnlyGrowsWithEnd(Initial(start, initialSize), start, max, ops);
    NothingLiveIsOneBlock(Run(Initial(start, initialSize), start, max, ops), start, max);
  }

  ghost function Frees(order: seq<Block>): seq<Op> {
    if |order| == 0 then [] else [Free(order[0].Payload())] + Frees(order[1..])
  }

  /** Freeing the live blocks in any order whatever is a legal run and leaves nothing live. */
  lemma {:induction false} FreeAllInAnyOrder(s: HeapState, start: nat, max: nat, order: seq<Block>)
    requires Good(s, start, max)
    requires forall i, j :: 0 <= i < j < |order| ==> order[i] != order[j]
    requires Live(s.blocks) == set b | b in order
    ensures LegalRun(s, start, max, Frees(order))
    ensures var t := Run(s, start, max, Frees(order));
            Live(t.blocks) == {} && t.end == s.end && t.slack == s.slack
    decreases |order|
  {
    if |order| == 0 {
    } else {
      var t := FreeFirst(s, start, max, order);
      var ops := Frees(order);
      assert ops[0] == Free(order[0].Payload()) && ops[1..] == Frees(order[1..]);
      FreeAllInAnyOrder(t, start, max, order[1..]);
    }
  }

  lemma FreeFirst(s: HeapState, start: nat, max: nat, order: seq<Block>) returns (t: HeapState)
    requires Good(s, start, max) && |order| > 0
    requires forall i, j :: 0 <= i < j < |order| ==> order[i] != order[j]
    requires Live(s.blocks) == set b | b in order
    ensures Legal(s, Free(order[0].Payload())) && t == Step(s, max, Free(order[0].Payload()))
    ensures Good(t, start, max) && t.end == s.end && t.slack == s.slack
    ensures Live(t.blocks) == set b | b in order[1..]
  {
    var b := order[0];
    assert b in order;
    FreeStepGood(s, start, max, b);
    t := FreeStep(s, b.Payload());
    RestOfDistinct(order);
  }

  lemma RestOfDistinct(order: seq<Block>)
    requires |order| > 0 && forall i, j :: 0 <= i < j < |order| ==> order[i] != order[j]
    ensures (set b | b in order[1..]) == (set b | b in order) - {order[0]}
  {
    var rest := order[1..];
    forall b ensures b in rest <==> b in order && b != order[0] {
      assert order == [order[0]] + rest;
    }
  }

  lemma FreeStepGood(s: HeapState, start: nat, max: nat, b: Block)
    requires Good(s, start, max) && b in Live(s.blocks)
    ensures IsLive(s.blocks, b.Payload())
    ensures var t := FreeStep(s, b.Payload());
            Good(t, start, max) && t.end == s.end && t.slack == s.slack && Live(t.blocks) == Live(s.blocks) - {b}
  {
    PayloadNamesBlock(s, start, max, b);
    DeallocateGood(s, start, max, b.Payload());
  }

  lemma PayloadNamesBlock(s: HeapState, start: nat, max: nat, b: Block)
    requires Good(s, start, max) && b in Live(s.blocks)
    ensures IsLive(s.blocks, b.Payload()) && BlockOf(s.blocks, b.Payload()) == b
  {
    var c := BlockOf(s.blocks, b.Payload());
    if b != c {
      LiveDisjoint(s, start, max, b, c);
    }
  }
}
