/**
 The kernel heap in place: a first-fit allocator whose headers live inside the memory it
 hands out, with splitting, two-sided coalescing, growth through the C side, and an
 aligned layer that hides a back-pointer in the payload.
 */
module Heap {
  import opened Wrappers
  import opened Words
  import opened BlockList
  import opened HeapMemory
  import opened HeapRuns
  import opened HeapPages

  const WORD := 4

  /** What a caller holds: `size` bytes inside `block`. */
  datatype Grant = Grant(block: Block, size: nat)

  type Grants = map<nat, Grant>

  /**
   Every pointer handed out lies with its bytes inside a live block of its own; where it is
   not the payload itself, the word before it holds the payload's address.
   */
  ghost predicate LedgerHolds(grants: Grants, bs: seq<Block>, mem: Memory) {
    && (forall p :: p in grants ==> GrantHolds(p, grants[p], bs, mem))
    && (forall p, q :: p in grants && q in grants && p != q ==> grants[p].block != grants[q].block)
  }

  ghost predicate GrantHolds(p: nat, g: Grant, bs: seq<Block>, mem: Memory) {
    && g.block in bs && !g.block.free && g.size > 0
    && g.block.Payload() <= p && p + g.size <= g.block.Top()
    && (p != g.block.Payload() ==>
          p % WORD == 0 && g.block.Payload() + WORD <= p && p - WORD in mem && mem[p - WORD] == g.block.Payload())
  }

  lemma LedgerKept(grants: Grants, bs: seq<Block>, bs': seq<Block>, mem: Memory, mem': Memory)
    requires LedgerHolds(grants, bs, mem) && PayloadsKept(bs, mem, mem')
    requires forall p :: p in grants ==> grants[p].block in bs'
    ensures LedgerHolds(grants, bs', mem')
  {
    forall p | p in grants
      ensures GrantHolds(p, grants[p], bs', mem')
    {
      assert GrantHolds(p, grants[p], bs, mem);
    }
  }

  /** Two callers never share a byte. */
  lemma GrantsDisjoint(grants: Grants, s: HeapState, start: nat, max: nat, mem: Memory, p: nat, q: nat)
    requires Good(s, start, max) && LedgerHolds(grants, s.blocks, mem) && p in grants && q in grants && p != q
    ensures p + grants[p].size <= q || q + grants[q].size <= p
    ensures start + HEADER_SIZE <= p && p + grants[p].size <= s.end
  {
    assert GrantHolds(p, grants[p], s.blocks, mem) && GrantHolds(q, grants[q], s.blocks, mem);
    LiveDisjoint(s, start, max, grants[p].block, grants[q].block);
    var k :| 0 <= k < |s.blocks| && s.blocks[k] == grants[p].block;
    BlockWithin(s, start, max, k);
  }

  /** A block newly live, given to a caller at `p`, joins the ledger under a pointer of its own. */
  lemma LedgerGrows(grants: Grants, bs: seq<Block>, bs': seq<Block>, mem: Memory, mem': Memory, b: Block, size: nat)
    requires LedgerHolds(grants, bs, mem) && Gentle(bs, mem, mem') && Ordered(bs')
    requires Live(bs') == Live(bs) + {b} && b !in Live(bs) && 0 < size <= b.size
    ensures b.Payload() !in grants
    ensures LedgerHolds(grants[b.Payload() := Grant(b, size)], bs', mem')
  {
    forall p | p in grants
      ensures grants[p].block in bs' && grants[p].block != b && p != b.Payload()
    {
      assert GrantHolds(p, grants[p], bs, mem);
      assert grants[p].block in Live(bs') && b in Live(bs');
      ApartInList(bs', grants[p].block, b);
    }
    LedgerKept(grants, bs, bs', mem, mem');
  }

  lemma ApartInList(bs: seq<Block>, b: Block, c: Block)
    requires Ordered(bs) && b in bs && c in bs && b != c
    ensures b.Top() <= c.addr || c.Top() <= b.addr
  {
    var i :| 0 <= i < |bs| && bs[i] == b;
    var j :| 0 <= j < |bs| && bs[j] == c;
    Apart(bs, i, j);
  }

  /** Dropping a caller's pointer and releasing its block keeps everyone else's. */
  lemma LedgerShrinks(grants: Grants, bs: seq<Block>, bs': seq<Block>, mem: Memory, mem': Memory, k: nat, p: nat)
    requires LedgerHolds(grants, bs, mem) && k < |bs| && Gentle(bs[k := bs[k].(free := true)], mem, mem')
    requires Live(bs') == Live(bs) - {bs[k]} && p in grants && grants[p].block == bs[k]
    ensures LedgerHolds(grants - {p}, bs', mem')
  {
    var marked := bs[k := bs[k].(free := true)];
    forall q | q in grants - {p}
      ensures GrantHolds(q, grants[q], bs', mem')
    {
      assert GrantHolds(q, grants[q], bs, mem) && grants[q].block != grants[p].block;
      assert grants[q].block in Live(bs');
      var i :| 0 <= i < |bs| && bs[i] == grants[q].block;
      assert marked[i] == grants[q].block;
    }
  }

  /** Writing a word a caller holds, or the word it keeps its back-pointer in, harms no one else. */
  lemma LedgerWrite(grants: Grants, bs: seq<Block>, mem: Memory, b: Block, a: nat, v: Word)
    requires LedgerHolds(grants, bs, mem) && Ordered(bs) && b in bs && !b.free && b.Payload() <= a < b.Top()
    requires forall p :: p in grants && grants[p].block == b ==> p - WORD != a
    ensures LedgerHolds(grants, bs, mem[a := v])
  {
    forall p | p in grants
      ensures GrantHolds(p, grants[p], bs, mem[a := v])
    {
      assert GrantHolds(p, grants[p], bs, mem);
      if grants[p].block != b {
        ApartInList(bs, grants[p].block, b);
      }
    }
  }

  lemma FirstFitIs(bs: seq<Block>, needed: nat, k: nat)
    requires k < |bs| && bs[k].Fits(needed) && forall j :: 0 <= j < k ==> !bs[j].Fits(needed)
    ensures FirstFit(bs, needed) == k
  {
  }

  lemma NoneFits(bs: seq<Block>, needed: nat)
    requires forall j :: 0 <= j < |bs| ==> !bs[j].Fits(needed)
    ensures FirstFit(bs, needed) == |bs|
  {
  }

  ghost predicate NewGrant(p: nat, g: Grant, size: nat) {
    g.size == size && g.block.Payload() == p && g.block.size >= size
  }

  /** The list after growing to `newEnd` for `needed` bytes. */
  ghost function Grown(s: HeapState, newEnd: nat, needed: nat): HeapState
    requires newEnd >= s.end + needed + HEADER_SIZE
  {
    HeapState(s.blocks + [Block(s.end, needed, false)], newEnd, s.slack + (newEnd - s.end - needed - HEADER_SIZE))
  }

  /** Growing as the allocator does it is growing as the block list describes it. */
  lemma GrownGood(s: HeapState, start: nat, max: nat, needed: Word)
    requires Good(s, start, max) && needed % WORD == 0 && needed + HEADER_SIZE <= MAX_WORD
    ensures if s.end + needed + HEADER_SIZE <= max
            then var e := NextEnd(s.end, needed + HEADER_SIZE);
                 e >= s.end + needed + HEADER_SIZE
                 && Good(Grown(s, e, needed), start, max)
                 && Grow(s, max, needed) == (Grown(s, e, needed), Granted(s.end + HEADER_SIZE))
            else Grow(s, max, needed) == (s, Null)
  {
    if s.end + needed + HEADER_SIZE <= max {
      GrowGood(s, start, max, needed);
      LimitsAgree(s.end, max, needed + HEADER_SIZE);
    }
  }

  class Heap {
    var mem: Memory
    var head: nat
    var end: nat
    var max: nat
    const pages: HeapMapper

    ghost var blocks: seq<Block>
    ghost var slack: nat
    ghost var grants: Grants

    ghost function State(): HeapState
      reads this
    {
      HeapState(blocks, end, slack)
    }

    /** The list is laid out in memory; blocks may be caught half-way through a release. */
    ghost predicate Linked()
      reads this
    {
      LinkedList(mem, blocks, head)
    }

    /** The C side's end and limit are this heap's. */
    ghost predicate InStep()
      reads this, pages, pages.vm, pages.vm.ram, pages.vm.pmm, pages.vm.pmm.bitmap
    {
      && pages.Limits() && pages.vm.Usable()
      && head == HEAP_START && end == pages.heapEnd && max == pages.heapMaxAddr
    }

    ghost predicate Core()
      reads this, pages, pages.vm, pages.vm.ram, pages.vm.pmm, pages.vm.pmm.bitmap
    {
      InStep() && OnList()
    }

    ghost predicate OnList()
      reads this
    {
      Linked() && Good(State(), head, max) && Covers(mem, head, max)
    }

    ghost predicate Valid()
      reads this, pages, pages.vm, pages.vm.ram, pages.vm.pmm, pages.vm.pmm.bitmap
    {
      Core() && LedgerHolds(grants, blocks, mem)
    }

    /** Every page of the heap is mapped to an existing frame of its own. */
    ghost predicate HeapBacked()
      reads pages, pages.vm, pages.vm.ram, pages.vm.pmm, pages.vm.pmm.bitmap
    {
      pages.BackedTo(pages.heapEnd)
    }

    /** The free frames cover growing for a block of `needed` bytes. */
    ghost predicate FramesForGrowth(needed: Word)
      reads pages, pages.vm, pages.vm.ram, pages.vm.pmm, pages.vm.pmm.bitmap
      requires pages.vm.WellFormed()
    {
      needed + HEADER_SIZE <= MAX_WORD && pages.FramesFor(pages.heapEnd, NextEnd(pages.heapEnd, needed + HEADER_SIZE))
    }

    /** And for serving a request of `size` bytes, if it comes to growing. */
    ghost predicate CanBack(size: nat)
      reads pages, pages.vm, pages.vm.ram, pages.vm.pmm, pages.vm.pmm.bitmap
    {
      pages.vm.WellFormed() && size + DEFAULT_ALIGN <= MAX_WORD && FramesForGrowth(RoundToWord(size))
    }

    /** Heap::new, over the region the C side has mapped. */
    constructor (pages: HeapMapper, start: Word, initialSize: Word, max: Word)
      requires pages.Limits() && pages.vm.Usable()
      requires start == HEAP_START && start + initialSize == pages.heapEnd && start + max == pages.heapMaxAddr
      requires initialSize > HEADER_SIZE
      ensures Valid() && this.pages == pages && grants == map[] && this.max == start + max
      ensures State() == Initial(start, initialSize)
    {
      var raw: Memory := map a: nat | start <= a < start + max && a % WORD == 0 :: 0;
      mem := WriteHeader(raw, start, initialSize - HEADER_SIZE, true, 0);
      head, end, this.max := start, start + initialSize, start + max;
      this.pages := pages;
      blocks, slack, grants := [Block(start, initialSize - HEADER_SIZE, true)], 0, map[];
      new;
      InitialGood(start, initialSize, start + max);
    }

    /** Cuts the tail off a free block when it is worth a header of its own. */
    method SplitIfWorthwhile(block: nat, requested: Word, ghost k: nat)
      requires Linked() && k < |blocks| && block == blocks[k].addr && blocks[k].Fits(requested)
      modifies `mem, `blocks
      ensures Linked() && Gentle(old(blocks), old(mem), mem)
      ensures blocks == if old(blocks)[k].size <= requested + MIN_SPLIT_REMAINDER then old(blocks) else Halved(old(blocks), k, requested)
    {
      hide Headers, Ordered, Gentle, PayloadsKept, Halved;
      GentleSame(blocks, mem);
      LinkedHeader(mem, blocks, head, k);
      var size := mem[block];
      if size <= requested + MIN_SPLIT_REMAINDER {
        return;
      }
      SplitLinked(mem, blocks, head, k, requested);
      var newHeader := block + HEADER_SIZE + requested;
      var next := mem[block + NEXT_OFFSET];
      ghost var bs := blocks;
      assert newHeader == HighHalf(bs[k], requested).addr;
      var words := WriteHeader(mem, newHeader, size - requested - HEADER_SIZE, true, next);
      words := words[block := requested];
      words := words[block + NEXT_OFFSET := newHeader];
      assert words == SplitWrites(mem, bs[k].addr, requested, bs[k].size, NextOf(bs, k));
      mem, blocks := words, Halved(bs, k, requested);
    }

    method SetFree(block: nat, free: bool, ghost k: nat)
      requires Linked() && k < |blocks| && block == blocks[k].addr
      modifies `mem, `blocks
      ensures Linked() && Gentle(old(blocks), old(mem), mem)
      ensures blocks == old(blocks)[k := old(blocks)[k].(free := free)]
    {
      MarkLinked(mem, blocks, head, k, free);
      mem := mem[block + IS_FREE_OFFSET := FlagOf(free)];
      blocks := blocks[k := blocks[k].(free := free)];
    }

    /** Absorbs the next block when both are free. */
    method MergeWithNextIfFree(block: nat, ghost k: nat)
      requires Linked() && k < |blocks| && block == blocks[k].addr
      modifies `mem, `blocks
      ensures Linked() && Gentle(old(blocks), old(mem), mem)
      ensures blocks == Merge(old(blocks), k)
    {
      LinkedHeader(mem, blocks, head, k);
      var next := mem[block + NEXT_OFFSET];
      if mem[block + IS_FREE_OFFSET] != 1 || next == 0 {
        return;
      }
      LinkedHeader(mem, blocks, head, k + 1);
      if mem[next + IS_FREE_OFFSET] != 1 {
        return;
      }
      Absorb(block, next, k);
    }

    method Absorb(block: nat, next: nat, ghost k: nat)
      requires Linked() && k + 1 < |blocks| && blocks[k].free && blocks[k + 1].free
      requires block == blocks[k].addr && next == blocks[k + 1].addr
      modifies `mem, `blocks
      ensures Linked() && Gentle(old(blocks), old(mem), mem)
      ensures blocks == Merge(old(blocks), k)
    {
      hide Headers, Ordered, Gentle, PayloadsKept, Merge;
      ghost var bs := blocks;
      ghost var fused, after := bs[k].size + HEADER_SIZE + bs[k + 1].size, NextOf(bs, k + 1);
      LinkedHeader(mem, bs, head, k);
      LinkedHeader(mem, bs, head, k + 1);
      Apart(bs, k, k + 1);
      MergeLinked(mem, bs, head, k);
      MergeGentle(mem, bs, head, k, fused, after);
      var words := mem[block := mem[block] + HEADER_SIZE + mem[next]];
      assert words[next + NEXT_OFFSET] == after;
      words := words[block + NEXT_OFFSET := words[next + NEXT_OFFSET]];
      assert words == MergeWrites(mem, block, fused, after);
      mem, blocks := words, Merge(bs, k);
    }

    /** Walks to the block whose `next` is `target`; the head has none. */
    method FindPredecessor(target: nat, ghost k: nat) returns (prev: Option<nat>)
      requires Linked() && k < |blocks| && blocks[k].addr == target
      ensures prev == if k == 0 then None else Some(blocks[k - 1].addr)
    {
      if head == target {
        Apart(blocks, 0, k);
        return None;
      }
      var current := head;
      ghost var i := 0;
      while true
        invariant i < k && current == blocks[i].addr
        decreases k - i
      {
        LinkedHeader(mem, blocks, head, i);
        Apart(blocks, i + 1, k);
        var next := mem[current + NEXT_OFFSET];
        if next == target {
          return Some(current);
        }
        current, i := next, i + 1;
      }
    }

    /** Writes a live block's header at `addr` and links it behind the tail. */
    method Attach(tail: nat, addr: Word, needed: Word)
      requires Linked() && tail == blocks[|blocks| - 1].addr
      requires blocks[|blocks| - 1].Top() <= addr && addr + HEADER_SIZE + needed <= MAX_WORD
      modifies `mem, `blocks
      ensures Linked() && Gentle(old(blocks), old(mem), mem)
      ensures blocks == old(blocks) + [Block(addr, needed, false)]
    {
      ghost var bs := blocks;
      AppendLinked(mem, bs, head, addr, needed);
      var words := WriteHeader(mem, addr, needed, false, 0);
      words := words[tail + NEXT_OFFSET := addr];
      mem, blocks := words, bs + [Block(addr, needed, false)];
    }

    /** The new heap end from the C side, or nothing when this side's limit is passed. */
    method AskForPages(required: Word) returns (newEnd: Option<Word>)
      requires InStep() && GoodBounds(head, end, max) && required > 0
      modifies pages`heapEnd, pages.vm.ram, pages.vm.pmm, pages.vm.pmm.bitmap
      ensures pages.Limits() && pages.vm.Usable()
      ensures newEnd == if end + required > max then None else Some(NextEnd(end, required))
      ensures pages.heapEnd == if newEnd.Some? then newEnd.value else end
      ensures old(HeapBacked()) ==>
                (HeapBacked() <==> newEnd.None? || old(pages.FramesFor(pages.heapEnd, NextEnd(pages.heapEnd, required))))
    {
      if end + required > max {
        return None;
      }
      LimitsAgree(end, max, required);
      var e := pages.Grow(required);
      if e == 0 || e <= end || e > max {
        return None;
      }
      return Some(e);
    }

    method TakeGrowth(tail: nat, newEnd: Word, needed: Word)
      requires OnList() && needed % WORD == 0 && tail == blocks[|blocks| - 1].addr
      requires end + needed + HEADER_SIZE <= max && newEnd == NextEnd(end, needed + HEADER_SIZE)
      modifies `mem, `end, `blocks, `slack
      ensures OnList() && Gentle(old(blocks), old(mem), mem)
      ensures newEnd >= old(end) + needed + HEADER_SIZE && State() == Grown(old(State()), newEnd, needed)
    {
      hide Headers, WordSized, Coalesced, Gentle, PayloadsKept;
      GrownGood(State(), head, max, needed);
      ghost var s := State();
      Attach(tail, end, needed);
      slack := slack + (newEnd - end - needed - HEADER_SIZE);
      end := newEnd;
      assert State() == Grown(s, newEnd, needed);
    }

    /**
     Appends a live block at the old end. The C side is asked only for what this side's limit
     admits and then always agrees, so both sides keep the same end.
     */
    method GrowAndAttach(tail: nat, needed: Word) returns (o: Outcome)
      requires Core() && needed % WORD == 0 && tail == blocks[|blocks| - 1].addr
      modifies `mem, `end, `blocks, `slack, pages`heapEnd, pages.vm.ram, pages.vm.pmm, pages.vm.pmm.bitmap
      ensures Core() && Gentle(old(blocks), old(mem), mem)
      ensures o == (if needed + HEADER_SIZE > MAX_WORD then Panicked
                    else if old(end) + needed + HEADER_SIZE > max then Null
                    else Granted(old(end) + HEADER_SIZE))
      ensures if o.Granted? then end >= old(end) + needed + HEADER_SIZE && end == NextEnd(old(end), needed + HEADER_SIZE)
                                 && State() == Grown(old(State()), end, needed)
              else State() == old(State()) && mem == old(mem)
      ensures old(HeapBacked()) ==> (HeapBacked() <==> !o.Granted? || old(FramesForGrowth(needed)))
    {
      hide LedgerHolds, Headers, Ordered, WordSized, Coalesced, GoodBounds, Gentle, PayloadsKept, Covers;
      GentleSame(blocks, mem);
      if needed + HEADER_SIZE > MAX_WORD {
        return Panicked;
      }
      var newEnd := AskForPages(needed + HEADER_SIZE);
      if newEnd.None? {
        return Null;
      }
      o := Granted(end + HEADER_SIZE);
      TakeGrowth(tail, newEnd.value, needed);
    }

    /** The walk from the head to the lowest free block that fits, or to the tail. */
    method FindFit(needed: Word) returns (current: nat, fits: bool, ghost k: nat)
      requires Linked()
      ensures k < |blocks| && current == blocks[k].addr
      ensures fits ==> blocks[k].Fits(needed)
      ensures forall j :: 0 <= j < |blocks| && (fits ==> j < k) ==> !blocks[j].Fits(needed)
      ensures !fits ==> k == |blocks| - 1
    {
      current, fits, k := head, false, 0;
      while true
        invariant k < |blocks| && current == blocks[k].addr
        invariant forall j :: 0 <= j < k ==> !blocks[j].Fits(needed)
        decreases |blocks| - k
      {
        LinkedHeader(mem, blocks, head, k);
        if mem[current + IS_FREE_OFFSET] == 1 && mem[current] >= needed {
          fits := true;
          return;
        }
        var next := mem[current + NEXT_OFFSET];
        if next == 0 {
          return;
        }
        current, k := next, k + 1;
      }
    }

    lemma BlockBounds(b: Block)
      requires OnList() && b in blocks
      ensures head <= b.addr && b.Top() <= end <= max <= 0xF000_0000
    {
      var k :| 0 <= k < |blocks| && blocks[k] == b;
      BlockWithin(State(), head, max, k);
    }

    /** First fit from the head; growth when the walk falls off the end. */
    method FirstFitOrGrow(needed: Word) returns (o: Outcome)
      requires Core() && needed % WORD == 0
      modifies `mem, `end, `blocks, `slack, pages`heapEnd, pages.vm.ram, pages.vm.pmm, pages.vm.pmm.bitmap
      ensures Core() && Gentle(old(blocks), old(mem), mem)
      ensures (State(), o) == Serve(old(State()), max, needed)
      ensures !o.Granted? ==> mem == old(mem)
      ensures old(HeapBacked()) ==> (HeapBacked() <==> end == old(end) || old(FramesForGrowth(needed)))
    {
      hide LedgerHolds, Headers, Ordered, WordSized, Coalesced, GoodBounds, Gentle, PayloadsKept, Covers;
      ghost var s := State();
      ghost var k;
      var current, fits;
      current, fits, k := FindFit(needed);
      if fits {
        FirstFitIs(blocks, needed, k);
        TakeBlock(current, needed, k);
        return Granted(current + HEADER_SIZE);
      }
      NoneFits(blocks, needed);
      GrowthServes(s, head, max, needed);
      o := GrowAndAttach(current, needed);
    }

    /** Serves a request with a block, `b`, that was not live before. */
    method ServeFresh(needed: Word) returns (o: Outcome, ghost b: Block)
      requires Core() && needed % WORD == 0
      modifies `mem, `end, `blocks, `slack, pages`heapEnd, pages.vm.ram, pages.vm.pmm, pages.vm.pmm.bitmap
      ensures Core() && Gentle(old(blocks), old(mem), mem)
      ensures (State(), o) == Serve(old(State()), max, needed)
      ensures if o.Granted? then b !in Live(old(blocks)) && Live(blocks) == Live(old(blocks)) + {b}
                                 && b.Payload() == o.ptr && b.size >= needed
              else mem == old(mem) && blocks == old(blocks)
      ensures old(HeapBacked()) ==> (HeapBacked() <==> end == old(end) || old(FramesForGrowth(needed)))
    {
      hide LedgerHolds, Headers, Ordered, WordSized, Coalesced, GoodBounds, Gentle, PayloadsKept, Covers;
      b := Block(0, 0, true);
      ghost var served := Serve(State(), max, needed);
      if served.1.Granted? {
        b := ServeGrants(State(), head, max, needed);
      }
      ghost var bs := blocks;
      RefusedIsSame(State(), max, needed);
      o := FirstFitOrGrow(needed);
    }

    /** Serves `needed` bytes to a caller that asked for `size` of them. */
    method ServeCaller(needed: Word, size: Word) returns (o: Outcome)
      requires Valid() && 0 < size <= needed && needed % WORD == 0
      modifies `mem, `end, `blocks, `slack, `grants, pages`heapEnd, pages.vm.ram, pages.vm.pmm, pages.vm.pmm.bitmap
      ensures Valid() && Gentle(old(blocks), old(mem), mem)
      ensures (State(), o) == Serve(old(State()), max, needed)
      ensures Booked(old(grants), old(blocks), o, size)
      ensures !o.Granted? ==> mem == old(mem)
      ensures old(HeapBacked()) ==> (HeapBacked() <==> end == old(end) || old(FramesForGrowth(needed)))
    {
      hide Good, Serve, Live, FramesForGrowth, HeapBacked;
      hide LedgerHolds, Headers, Ordered, WordSized, Coalesced, GoodBounds, Gentle, PayloadsKept, Covers;
      ghost var bs, before := blocks, mem;
      ghost var b;
      o, b := ServeFresh(needed);
      if o.Granted? {
        LedgerGrows(grants, bs, blocks, before, mem, b, size);
        grants := grants[o.ptr := Grant(b, size)];
      }
    }

    /** The ledger after an allocation: one entry more, for a block not live before, or none. */
    ghost predicate Booked(before: Grants, bs: seq<Block>, o: Outcome, size: nat)
      reads this
    {
      if o.Granted? then
        && o.ptr !in before && o.ptr in grants && NewGrant(o.ptr, grants[o.ptr], size)
        && grants == before[o.ptr := grants[o.ptr]]
        && grants[o.ptr].block !in Live(bs) && Live(blocks) == Live(bs) + {grants[o.ptr].block}
      else grants == before
    }

    /** Heap::allocate: `size` bytes for the caller, in a block that was not live before. */
    method Allocate(size: Word) returns (o: Outcome)
      requires Valid()
      modifies `mem, `end, `blocks, `slack, `grants, pages`heapEnd, pages.vm.ram, pages.vm.pmm, pages.vm.pmm.bitmap
      ensures Valid() && Gentle(old(blocks), old(mem), mem)
      ensures (State(), o) == BlockList.Allocate(old(State()), max, size)
      ensures Booked(old(grants), old(blocks), o, size)
      ensures OthersKept(old(grants), old(mem), mem)
      ensures !o.Granted? ==> mem == old(mem)
      ensures old(HeapBacked()) ==> (HeapBacked() <==> end == old(end) || old(CanBack(size)))
    {
      if size == 0 {
        return Null;
      }
      if size + DEFAULT_ALIGN > MAX_WORD {
        return Panicked;
      }
      WordMask(size);
      ghost var bs, before := blocks, mem;
      o := ServeCaller(AlignUp(size, DEFAULT_ALIGN), size);
      GentleKeepsOthers(old(grants), bs, before, mem);
    }

    /** Marks block k free and merges it with its free neighbours on both sides. */
    method ReleaseBlock(header: nat, ghost k: nat)
      requires OnList() && k < |blocks| && header == blocks[k].addr && !blocks[k].free
      modifies `mem, `blocks
      ensures OnList() && blocks == Release(old(blocks), k)
      ensures Gentle(old(blocks)[k := old(blocks)[k].(free := true)], old(mem), mem)
    {
      hide Ordered, Headers, WordSized, Coalesced, GoodBounds, Gentle, PayloadsKept, Covers, Merge;
      ghost var s, m0 := State(), mem;
      ghost var marked := blocks[k := blocks[k].(free := true)];
      ReleasedGood(s, head, max, k);
      MergeKeepsPrefix(marked, k);
      var prev := FindPredecessor(header, k);
      SetFree(header, true, k);
      ghost var m1 := mem;
      MergeWithNextIfFree(header, k);
      GentleReleased(s.blocks, k, m0, m1, mem);
      if prev.Some? {
        ghost var m2 := mem;
        MergeWithNextIfFree(prev.value, k - 1);
        GentleMerge(marked, k, m0, m2, mem);
      }
      CoversKept(marked, m0, mem, head, max);
      assert State() == s.(blocks := Release(s.blocks, k));
    }

    /** Returns a caller's block, found through its payload address. */
    method ReturnBlock(payload: nat, ghost p: nat, ghost k: nat)
      requires Valid() && p in grants && grants[p].block.Payload() == payload
      requires k < |blocks| && blocks[k] == grants[p].block && !blocks[k].free
      modifies `mem, `blocks, `grants
      ensures Valid() && grants == old(grants) - {p}
      ensures blocks == Release(old(blocks), k)
      ensures Live(blocks) == Live(old(blocks)) - {old(grants)[p].block}
      ensures OthersKept(old(grants) - {p}, old(mem), mem)
    {
      hide Ordered, Headers, Good, Covers, LedgerHolds, Gentle, OthersKept, Live, Release;
      ghost var bs, m0 := blocks, mem;
      ReleaseBlock(payload - HEADER_SIZE, k);
      ReturnKeeps(grants, bs, m0, mem, k, p);
      grants := grants - {p};
    }

    lemma GrantIndex(p: nat) returns (k: nat)
      requires Valid() && p in grants
      ensures k < |blocks| && blocks[k] == grants[p].block && !blocks[k].free
      ensures IndexOf(blocks, blocks[k].addr) == k
    {
      assert GrantHolds(p, grants[p], blocks, mem);
      k :| 0 <= k < |blocks| && blocks[k] == grants[p].block;
      IndexOfBlock(blocks, k);
    }

    /** Heap::deallocate. */
    method Deallocate(ptr: nat)
      requires Valid() && ptr in grants && grants[ptr].block.Payload() == ptr
      modifies `mem, `blocks, `grants
      ensures Valid() && grants == old(grants) - {ptr}
      ensures ptr >= HEADER_SIZE && IndexOf(old(blocks), ptr - HEADER_SIZE) < |old(blocks)|
      ensures State() == BlockList.Deallocate(old(State()), ptr)
      ensures OthersKept(old(grants) - {ptr}, old(mem), mem)
    {
      hide Ordered, Headers, Good, Covers, LedgerHolds, Gentle, OthersKept, Live, Release, BlockList.Deallocate;
      ghost var s := State();
      ghost var k := GrantIndex(ptr);
      ReturnBlock(ptr, ptr, k);
      DeallocateAt(s, k, ptr - HEADER_SIZE);
    }

    /** The larger block an aligned request is cut from. */
    method AllocateOuter(total: Word) returns (o: Outcome)
      requires Valid()
      modifies `mem, `end, `blocks, `slack, `grants, pages`heapEnd, pages.vm.ram, pages.vm.pmm, pages.vm.pmm.bitmap
      ensures Valid() && (State(), o) == BlockList.Allocate(old(State()), max, total)
      ensures Booked(old(grants), old(blocks), o, total) && OthersKept(old(grants), old(mem), mem)
      ensures !o.Granted? ==> mem == old(mem) && grants == old(grants)
      ensures old(HeapBacked()) ==> (HeapBacked() <==> end == old(end) || old(CanBack(total)))
    {
      hide Valid, BlockList.Allocate, OthersKept, State, NewGrant, Gentle, CanBack, HeapBacked;
      o := Allocate(total);
    }

    /** An outer block of `size + a + 4` bytes with an aligned pointer inside. */
    method AllocateWithin(size: Word, a: Word) returns (o: Outcome, ghost inner: Outcome)
      requires Valid() && 0 < size && IsPowerOfTwo(a) && a >= DEFAULT_ALIGN && size + a + WORD <= MAX_WORD
      modifies `mem, `end, `blocks, `slack, `grants, pages`heapEnd, pages.vm.ram, pages.vm.pmm, pages.vm.pmm.bitmap
      ensures Valid() && (State(), inner) == BlockList.Allocate(old(State()), max, size + a + WORD)
      ensures if inner.Granted? then o.Granted? && IsAligned(o.ptr, a) && AlignedGrant(old(grants), old(blocks), o.ptr, size)
              else o == inner && grants == old(grants) && mem == old(mem)
      ensures OthersKept(old(grants), old(mem), mem)
      ensures old(HeapBacked()) ==> (HeapBacked() <==> end == old(end) || old(CanBack(size + a + WORD)))
    {
      var total: Word := size + a + WORD;
      hide *;
      var base := AllocateOuter(total);
      inner := base;
      o := AlignInside(base, size, a, total, old(grants), old(blocks), old(mem));
    }

    /** What follows the outer allocation: an aligned pointer inside the block, or its refusal. */
    method AlignInside(base: Outcome, size: Word, a: Word, ghost total: Word,
                       ghost g: Grants, ghost bs: seq<Block>, ghost before: Memory) returns (o: Outcome)
      requires Valid() && Booked(g, bs, base, total) && OthersKept(g, before, mem)
      requires 0 < size && IsPowerOfTwo(a) && a >= DEFAULT_ALIGN && total == size + a + WORD
      modifies `mem, `grants
      ensures Valid() && State() == old(State()) && OthersKept(g, before, mem)
      ensures if base.Granted? then o.Granted? && IsAligned(o.ptr, a) && AlignedGrant(g, bs, o.ptr, size)
              else o == base && grants == g && mem == old(mem)
    {
      hide Valid, OthersKept, AlignedGrant, State, NewGrant;
      if base.Granted? {
        var aligned := StashInNew(base.ptr, size, a, g, bs, before);
        o := Granted(aligned);
      } else {
        o := base;
      }
    }

    method StashInNew(base: nat, size: Word, a: Word, ghost g: Grants, ghost bs: seq<Block>, ghost before: Memory) returns (aligned: nat)
      requires Valid() && Booked(g, bs, Granted(base), size + a + WORD) && OthersKept(g, before, mem)
      requires 0 < size && IsPowerOfTwo(a) && a >= DEFAULT_ALIGN
      modifies `mem, `grants
      ensures Valid() && State() == old(State())
      ensures aligned % a == 0 && AlignedGrant(g, bs, aligned, size) && OthersKept(g, before, mem)
    {
      ghost var middle := mem;
      assert grants - {base} == g;
      aligned := Stash(base, size, a);
      OthersKeptTwice(g, before, middle, mem);
    }

    /** `p` is a new pointer, for `size` bytes strictly inside a block that was not live before. */
    ghost predicate AlignedGrant(before: Grants, bs: seq<Block>, p: nat, size: nat)
      reads this
    {
      && p !in before && p in grants && grants == before[p := grants[p]]
      && grants[p].size == size && grants[p].block.Payload() < p
      && grants[p].block !in Live(bs) && Live(blocks) == Live(bs) + {grants[p].block}
    }

    /**
     Heap::allocate_aligned: a multiple of the alignment inside a larger block, whose payload
     address goes into the word just before. Null for a zero size, an alignment that is no
     power of two, or a total that overflows; otherwise as the larger allocation goes.
     */
    method AllocateAligned(size: Word, align: Word) returns (o: Outcome)
      requires Valid()
      modifies `mem, `end, `blocks, `slack, `grants, pages`heapEnd, pages.vm.ram, pages.vm.pmm, pages.vm.pmm.bitmap
      ensures Valid() && OthersKept(old(grants), old(mem), mem)
      ensures o.Granted? ==> IsPowerOfTwo(align) && o.ptr % align == 0 && AlignedGrant(old(grants), old(blocks), o.ptr, size)
      ensures !o.Granted? ==> grants == old(grants) && mem == old(mem)
      ensures if size == 0 || !IsPowerOfTwo(align) || AlignedTotal(size, align) > MAX_WORD
              then o == Null && State() == old(State())
              else var (t, inner) := BlockList.Allocate(old(State()), max, AlignedTotal(size, align));
                   State() == t && (if inner.Granted? then o.Granted? else o == inner)
      ensures old(HeapBacked()) ==> (HeapBacked() <==> end == old(end) || old(CanBack(AlignedTotal(size, align))))
    {
      hide Valid, BlockList.Allocate, AlignedGrant, CanBack, HeapBacked;
      if size == 0 || !IsPowerOfTwo(align) {
        return Null;
      }
      var a := if align < DEFAULT_ALIGN then DEFAULT_ALIGN else align;
      if size + a > MAX_WORD || size + a + WORD > MAX_WORD {
        return Null;
      }
      ghost var inner;
      o, inner := AllocateWithin(size, a);
      if o.Granted? {
        AlignmentCarriesOver(o.ptr, align);
      }
    }

    /** Hides the base address before the first aligned address that leaves room for it. */
    method Stash(base: nat, size: Word, a: Word) returns (aligned: nat)
      requires Valid() && base in grants && NewGrant(base, grants[base], size + a + WORD)
      requires 0 < size && IsPowerOfTwo(a) && a >= DEFAULT_ALIGN
      modifies `mem, `grants
      ensures Valid() && aligned % a == 0
      ensures base + WORD <= aligned && aligned !in old(grants) - {base}
      ensures grants == (old(grants) - {base})[aligned := Grant(old(grants)[base].block, size)]
      ensures OthersKept(old(grants) - {base}, old(mem), mem)
    {
      assert GrantHolds(base, grants[base], blocks, mem);
      BlockBounds(grants[base].block);
      AlignedSpot(base, a);
      aligned := AlignUp(base + WORD, a);
      StashWrite(base, aligned, size);
    }

    method StashWrite(base: nat, aligned: nat, size: Word)
      requires Valid() && base in grants && grants[base].block.Payload() == base && base <= MAX_WORD
      requires base + WORD <= aligned && aligned % WORD == 0 && size > 0 && aligned + size <= grants[base].block.Top()
      modifies `mem, `grants
      ensures Valid() && aligned !in old(grants) - {base}
      ensures grants == (old(grants) - {base})[aligned := Grant(old(grants)[base].block, size)]
      ensures OthersKept(old(grants) - {base}, old(mem), mem)
    {
      hide Good, Ordered;
      ghost var b := grants[base].block;
      assert GrantHolds(base, grants[base], blocks, mem);
      BlockBounds(b);
      StashKeeps(grants, blocks, mem, base, aligned, size);
      PayloadWriteKeepsHeaders(mem, blocks, b, aligned - WORD, base);
      mem := mem[aligned - WORD := base];
      grants := (grants - {base})[aligned := Grant(b, size)];
    }

    /** Heap::deallocate_aligned: the word before the pointer still leads to its block. */
    method DeallocateAligned(ptr: nat)
      requires Valid() && ptr in grants && grants[ptr].block.Payload() != ptr
      modifies `mem, `blocks, `grants
      ensures Valid() && grants == old(grants) - {ptr}
      ensures ptr >= WORD && ptr - WORD in old(mem) && old(mem)[ptr - WORD] == old(grants)[ptr].block.Payload()
      ensures var base := old(grants)[ptr].block.Payload();
              && base >= HEADER_SIZE && IndexOf(old(blocks), base - HEADER_SIZE) < |old(blocks)|
              && State() == BlockList.Deallocate(old(State()), base)
      ensures Live(blocks) == Live(old(blocks)) - {old(grants)[ptr].block}
      ensures OthersKept(old(grants) - {ptr}, old(mem), mem)
    {
      assert GrantHolds(ptr, grants[ptr], blocks, mem);
      hide Ordered, Headers, Good, Covers, LedgerHolds, GrantHolds, Gentle, OthersKept, Live, Release, BlockList.Deallocate;
      ghost var s := State();
      var base := mem[ptr - WORD];
      if base != 0 {
        ghost var k := GrantIndex(ptr);
        ReturnBlock(base, ptr, k);
        DeallocateAt(s, k, base - HEADER_SIZE);
      }
    }

    /** A caller writing one word of its own bytes. */
    method CallerWrites(p: nat, a: nat, v: Word)
      requires Valid() && p in grants && p <= a < p + grants[p].size && a % WORD == 0
      modifies `mem
      ensures Valid() && mem == old(mem)[a := v]
      ensures OthersKept(grants - {p}, old(mem), mem)
    {
      ghost var b := grants[p].block;
      assert GrantHolds(p, grants[p], blocks, mem);
      BlockBounds(b);
      LedgerWrite(grants, blocks, mem, b, a, v);
      PayloadWriteKeepsHeaders(mem, blocks, b, a, v);
      WriteAwayFromOthers(grants, blocks, mem, p, a, v);
      mem := mem[a := v];
    }

    /** Takes block k for a request it fits. */
    method TakeBlock(block: nat, needed: Word, ghost k: nat)
      requires OnList() && needed % WORD == 0 && k < |blocks| && block == blocks[k].addr && blocks[k].Fits(needed)
      modifies `mem, `blocks
      ensures OnList() && Gentle(old(blocks), old(mem), mem)
      ensures blocks == Carve(old(blocks), k, needed)
    {
      hide LedgerHolds, Headers, WordSized, Coalesced, GoodBounds, Gentle, PayloadsKept, Covers;
      ghost var s, before := State(), mem;
      CarvedGood(s, head, max, k, needed);
      HalvedThenMarked(blocks, k, needed);
      SplitIfWorthwhile(block, needed, k);
      ghost var middle, cut := mem, blocks;
      SetFree(block, false, k);
      GentleTwice(s.blocks, before, cut, middle, mem);
      CoversKept(s.blocks, before, mem, head, max);
      assert State() == s.(blocks := Carve(s.blocks, k, needed));
    }
  }

  /** Not a word of any of these callers' bytes changes. */
  ghost predicate OthersKept(grants: Grants, before: Memory, after: Memory) {
    forall p, a :: p in grants && p <= a < p + grants[p].size && a in before ==> a in after && after[a] == before[a]
  }

  lemma OthersKeptTwice(grants: Grants, m0: Memory, m1: Memory, m2: Memory)
    requires OthersKept(grants, m0, m1) && OthersKept(grants, m1, m2)
    ensures OthersKept(grants, m0, m2)
  {
  }

  lemma GentleKeepsOthers(grants: Grants, bs: seq<Block>, before: Memory, after: Memory)
    requires LedgerHolds(grants, bs, before) && Gentle(bs, before, after)
    ensures OthersKept(grants, before, after)
  {
    forall q | q in grants
      ensures GrantHolds(q, grants[q], bs, before)
    {
    }
  }

  lemma OthersKeptAfter(grants: Grants, bs: seq<Block>, before: Memory, after: Memory, k: nat, p: nat)
    requires LedgerHolds(grants, bs, before) && k < |bs| && p in grants && grants[p].block == bs[k]
    requires Gentle(bs[k := bs[k].(free := true)], before, after)
    ensures OthersKept(grants - {p}, before, after)
  {
    var marked := bs[k := bs[k].(free := true)];
    forall q | q in grants - {p}
      ensures grants[q].block in marked && GrantHolds(q, grants[q], bs, before)
    {
      assert GrantHolds(q, grants[q], bs, before) && grants[q].block != grants[p].block;
      var i :| 0 <= i < |bs| && bs[i] == grants[q].block;
      assert marked[i] == bs[i];
    }
  }

  /** What releasing a caller's block means for the live blocks, the ledger and everyone else's bytes. */
  lemma ReturnKeeps(grants: Grants, bs: seq<Block>, before: Memory, after: Memory, k: nat, p: nat)
    requires LedgerHolds(grants, bs, before) && Ordered(bs) && k < |bs| && !bs[k].free
    requires Gentle(bs[k := bs[k].(free := true)], before, after) && p in grants && grants[p].block == bs[k]
    ensures Live(Release(bs, k)) == Live(bs) - {bs[k]}
    ensures LedgerHolds(grants - {p}, Release(bs, k), after)
    ensures OthersKept(grants - {p}, before, after)
  {
    ReleaseLive(bs, k);
    LedgerShrinks(grants, bs, Release(bs, k), before, after, k, p);
    OthersKeptAfter(grants, bs, before, after, k, p);
  }

  lemma MergeKeepsPrefix(bs: seq<Block>, k: nat)
    requires k < |bs|
    ensures k < |Merge(bs, k)| && forall i :: 0 <= i < k ==> Merge(bs, k)[i] == bs[i]
  {
  }

  lemma ReleasedGood(s: HeapState, start: nat, max: nat, k: nat)
    requires Good(s, start, max) && k < |s.blocks| && !s.blocks[k].free
    ensures Good(s.(blocks := Release(s.blocks, k)), start, max)
  {
    ReleaseKeeps(s.blocks, k);
  }

  predicate IsAligned(p: nat, a: nat)
    requires a > 0
  {
    p % a == 0
  }

  function AlignedTotal(size: nat, align: nat): nat {
    size + (if align < DEFAULT_ALIGN then DEFAULT_ALIGN else align) + WORD
  }

  lemma AlignmentCarriesOver(p: nat, align: nat)
    requires IsPowerOfTwo(align) && p % (if align < DEFAULT_ALIGN then DEFAULT_ALIGN else align) == 0
    ensures p % align == 0
  {
    if align == 1 || align == 2 {
      WordsAreEven(p);
    }
  }

  lemma WordsAreEven(p: nat)
    requires p % DEFAULT_ALIGN == 0
    ensures p % 1 == 0 && p % 2 == 0
  {
  }

  lemma AlignedSpot(base: nat, a: nat)
    requires IsPowerOfTwo(a) && a >= DEFAULT_ALIGN && base + WORD + a <= MAX_WORD
    ensures var r := AlignUp(base + WORD, a);
            base + WORD <= r < base + WORD + a && r % a == 0 && r % WORD == 0
  {
    var k := Exponent(a);
    if k > 32 {
      Pow2Monotone(32, k); Pow2Of32();
    }
    AlignUpRounds(base + WORD, k);
    LargePowerIsWords(k);
    MultipleOfWords(AlignUp(base + WORD, a), a);
  }

  /**
   What an aligned request asks for always leaves at least 4 bytes of its block over, whatever the
   payload address, and exactly 4 when that is itself aligned: `size` and the alignment would do.
   */
  lemma AlignedLeavesFour(base: nat, size: nat, align: nat)
    requires IsPowerOfTwo(align) && base % 4 == 0 && base + align + 8 <= MAX_WORD
    ensures var a := if align < 4 then 4 else align;
            var r := AlignUp(base + 4, a);
            && r + size + 4 <= base + AlignedTotal(size, align)
            && (base % a == 0 ==> r + size + 4 == base + AlignedTotal(size, align))
  {
    var a := if align < 4 then 4 else align;
    PowerAtLeastWord(align);
    AlignedSpot(base, a);
    var r := AlignUp(base + 4, a);
    WordsBelow(base, r, a);
    if base % a == 0 {
      NextAligned(base, r, a);
    }
  }

  lemma PowerAtLeastWord(align: nat)
    requires IsPowerOfTwo(align)
    ensures IsPowerOfTwo(if align < 4 then 4 else align) && (if align < 4 then 4 else align) % 4 == 0
  {
    assert Pow2(2) == 4;
    if align >= 4 {
      var k := Exponent(align);
      LargePowerIsWords(k);
    }
  }

  lemma WordsBelow(base: nat, r: nat, a: nat)
    requires a % 4 == 0 && base % 4 == 0 && r % 4 == 0 && r < base + 4 + a
    ensures r <= base + a
  {
  }

  lemma NextAligned(base: nat, r: nat, a: nat)
    requires a > 0 && base % a == 0 && r % a == 0 && base < r <= base + a
    ensures r == base + a
  {
    MultiplesDiffer(base, r, a);
    if r < base + a {
      ModUnique(r - base, a, 0, r - base);
    }
  }

  /** Moving a caller's pointer up inside its block, with the base stashed before it, keeps the ledger. */
  lemma StashKeeps(grants: Grants, bs: seq<Block>, mem: Memory, base: nat, p: nat, size: nat)
    requires LedgerHolds(grants, bs, mem) && Ordered(bs) && base in grants && grants[base].block.Payload() == base
    requires base <= MAX_WORD && base + WORD <= p && p % WORD == 0 && size > 0 && p + size <= grants[base].block.Top()
    requires p - WORD in mem
    ensures p !in grants - {base}
    ensures LedgerHolds((grants - {base})[p := Grant(grants[base].block, size)], bs, mem[p - WORD := base])
    ensures OthersKept(grants - {base}, mem, mem[p - WORD := base])
  {
    hide LedgerHolds, GrantHolds, OthersKept, Ordered;
    var b := grants[base].block;
    GrantInList(grants, bs, mem, base);
    BackPointersApart(grants, bs, mem, base, p);
    LedgerWrite(grants, bs, mem, b, p - WORD, base);
    LedgerMove(grants, bs, mem[p - WORD := base], base, p, size);
    WriteAwayFromOthers(grants, bs, mem, base, p - WORD, base);
  }

  lemma GrantInList(grants: Grants, bs: seq<Block>, mem: Memory, p: nat)
    requires LedgerHolds(grants, bs, mem) && p in grants
    ensures grants[p].block in bs && !grants[p].block.free
  {
    assert GrantHolds(p, grants[p], bs, mem);
  }

  /** No other pointer shares the block, so no back-pointer is where this one's goes. */
  lemma BackPointersApart(grants: Grants, bs: seq<Block>, mem: Memory, base: nat, p: nat)
    requires LedgerHolds(grants, bs, mem) && base in grants && grants[base].block.Payload() == base && base + WORD <= p
    ensures forall q :: q in grants && grants[q].block == grants[base].block ==> q - WORD != p - WORD
  {
  }

  /** A caller's pointer may move up inside its block once the word before it holds the payload address. */
  lemma LedgerMove(grants: Grants, bs: seq<Block>, mem: Memory, base: nat, p: nat, size: nat)
    requires LedgerHolds(grants, bs, mem) && Ordered(bs) && base in grants && grants[base].block.Payload() == base
    requires base + WORD <= p && p % WORD == 0 && size > 0 && p + size <= grants[base].block.Top()
    requires p - WORD in mem && mem[p - WORD] == base
    ensures p !in grants - {base}
    ensures LedgerHolds((grants - {base})[p := Grant(grants[base].block, size)], bs, mem)
  {
    var b := grants[base].block;
    assert GrantHolds(base, grants[base], bs, mem);
    forall q | q in grants && q != base
      ensures GrantHolds(q, grants[q], bs, mem) && grants[q].block != b && q != p
    {
      assert GrantHolds(q, grants[q], bs, mem);
      ApartInList(bs, grants[q].block, b);
    }
  }

  lemma WriteAwayFromOthers(grants: Grants, bs: seq<Block>, mem: Memory, p: nat, a: nat, v: Word)
    requires LedgerHolds(grants, bs, mem) && Ordered(bs) && p in grants
    requires grants[p].block.Payload() <= a < grants[p].block.Top()
    ensures OthersKept(grants - {p}, mem, mem[a := v])
  {
    assert GrantHolds(p, grants[p], bs, mem);
    forall q | q in grants && q != p
      ensures !(q <= a < q + grants[q].size)
    {
      assert GrantHolds(q, grants[q], bs, mem);
      ApartInList(bs, grants[q].block, grants[p].block);
    }
  }

  lemma RefusedIsSame(s: HeapState, max: nat, needed: nat)
    requires max <= 0xF000_0000
    ensures !Serve(s, max, needed).1.Granted? ==> Serve(s, max, needed).0 == s
  {
  }

  /** When nothing fits, serving a request is growing for it. */
  lemma GrowthServes(s: HeapState, start: nat, max: nat, needed: Word)
    requires Good(s, start, max) && needed % WORD == 0 && FirstFit(s.blocks, needed) == |s.blocks|
    ensures Serve(s, max, needed) ==
              if needed + HEADER_SIZE > MAX_WORD then (s, Panicked)
              else if s.end + needed + HEADER_SIZE > max then (s, Null)
              else var e := NextEnd(s.end, needed + HEADER_SIZE);
                   assert e >= s.end + needed + HEADER_SIZE by { GrownGood(s, start, max, needed); }
                   (Grown(s, e, needed), Granted(s.end + HEADER_SIZE))
  {
    if needed + HEADER_SIZE <= MAX_WORD {
      GrownGood(s, start, max, needed);
    }
  }

  lemma CarvedGood(s: HeapState, start: nat, max: nat, k: nat, needed: nat)
    requires Good(s, start, max) && needed % WORD == 0 && k < |s.blocks| && s.blocks[k].Fits(needed)
    ensures Good(s.(blocks := Carve(s.blocks, k, needed)), start, max)
  {
    CarveKeeps(s.blocks, k, needed);
  }

  lemma HalvedThenMarked(bs: seq<Block>, k: nat, needed: nat)
    requires k < |bs| && bs[k].Fits(needed)
    ensures var cut := if bs[k].size <= needed + MIN_SPLIT_REMAINDER then bs else Halved(bs, k, needed);
            k < |cut| && cut[k].addr == bs[k].addr && cut[k := cut[k].(free := false)] == Carve(bs, k, needed)
            && forall b :: b in bs && !b.free ==> b in cut
  {
    if bs[k].size > needed + MIN_SPLIT_REMAINDER {
      HalvedAt(bs, k, needed, k);
      assert bs == bs[..k] + [bs[k]] + bs[k + 1..];
    }
  }
}
