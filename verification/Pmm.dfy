/**
 The physical memory manager: one bit per 4 KiB frame, scanned word by word.
 */
module Pmm {
  import opened Words

  const BITS_PER_WORD := 32
  const KERNEL_RESERVED := 0x20_0000
  const RESERVED_FRAMES := 512
  const FRAMES_NOT_FOUND := 0xFFFF_FFFF

  /** Bitmap words that cover the whole 32-bit physical address space. */
  const BITMAP_CAPACITY := 32768

  // ----- the bitmap as a set of frames

  predicate Used(bits: seq<Word>, frame: nat)
    requires frame < BITS_PER_WORD * |bits|
  {
    Bit(bits[frame / BITS_PER_WORD], frame % BITS_PER_WORD)
  }

  function BitmapWords(totalFrames: nat): nat {
    (totalFrames + BITS_PER_WORD - 1) / BITS_PER_WORD
  }

  /** The lowest clear frame in the bitmap, or one past its last bit. */
  ghost function LowestFree(bits: seq<Word>, from: nat := 0): (f: nat)
    requires from <= BITS_PER_WORD * |bits|
    ensures from <= f <= BITS_PER_WORD * |bits|
    ensures f < BITS_PER_WORD * |bits| ==> !Used(bits, f)
    ensures forall g :: from <= g < f ==> Used(bits, g)
    decreases BITS_PER_WORD * |bits| - from
  {
    if from == BITS_PER_WORD * |bits| || !Used(bits, from) then from else LowestFree(bits, from + 1)
  }

  lemma OneBitWord(bit: nat)
    requires bit < 32
    ensures Pow2(bit) <= MAX_WORD
  {
    Pow2Monotone(bit, 31);
    Pow2Of32();
  }

  function SetFrame(bits: seq<Word>, frame: nat): (r: seq<Word>)
    requires frame < BITS_PER_WORD * |bits|
    ensures |r| == |bits|
  {
    OneBitWord(frame % BITS_PER_WORD); Pow2Of32();
    OrBound(bits[frame / BITS_PER_WORD], Pow2(frame % BITS_PER_WORD), 32);
    bits[frame / BITS_PER_WORD := Or(bits[frame / BITS_PER_WORD], Pow2(frame % BITS_PER_WORD))]
  }

  function ClearFrame(bits: seq<Word>, frame: nat): (r: seq<Word>)
    requires frame < BITS_PER_WORD * |bits|
    ensures |r| == |bits|
  {
    OneBitWord(frame % BITS_PER_WORD);
    bits[frame / BITS_PER_WORD := And(bits[frame / BITS_PER_WORD], Not(Pow2(frame % BITS_PER_WORD)))]
  }

  /** A word of ones has none of its frames free. */
  lemma FullWord(bits: seq<Word>, w: nat)
    requires w < |bits| && bits[w] == MAX_WORD
    ensures forall f :: BITS_PER_WORD * w <= f < BITS_PER_WORD * (w + 1) ==> Used(bits, f)
  {
    Pow2Of32();
    forall f | BITS_PER_WORD * w <= f < BITS_PER_WORD * (w + 1)
      ensures Used(bits, f)
    {
      LowOnesBits(32, f % BITS_PER_WORD);
    }
  }

  /** Masking a word with one bit tests the frame of that bit. */
  lemma BitOfWord(bits: seq<Word>, w: nat, bit: nat)
    requires w < |bits| && bit < BITS_PER_WORD
    ensures And(bits[w], Pow2(bit)) != 0 <==> Used(bits, BITS_PER_WORD * w + bit)
  {
    MaskTestsBit(bits[w], bit);
    var f := BITS_PER_WORD * w + bit;
    assert f / BITS_PER_WORD == w && f % BITS_PER_WORD == bit;
  }

  lemma SetFrameUses(bits: seq<Word>, f: nat, g: nat)
    requires f < BITS_PER_WORD * |bits| && g < BITS_PER_WORD * |bits|
    ensures Used(SetFrame(bits, f), g) <==> Used(bits, g) || g == f
  {
    if f / BITS_PER_WORD == g / BITS_PER_WORD {
      OrBits(bits[f / BITS_PER_WORD], Pow2(f % BITS_PER_WORD), g % BITS_PER_WORD);
      Pow2Bits(f % BITS_PER_WORD, g % BITS_PER_WORD);
    }
  }

  lemma ClearFrameFrees(bits: seq<Word>, f: nat, g: nat)
    requires f < BITS_PER_WORD * |bits| && g < BITS_PER_WORD * |bits|
    ensures Used(ClearFrame(bits, f), g) <==> Used(bits, g) && g != f
  {
    if f / BITS_PER_WORD == g / BITS_PER_WORD {
      OneBitWord(f % BITS_PER_WORD); Pow2Of32();
      AndBits(bits[f / BITS_PER_WORD], Not(Pow2(f % BITS_PER_WORD)), g % BITS_PER_WORD);
      ComplementBits(Pow2(f % BITS_PER_WORD), 32, g % BITS_PER_WORD);
      Pow2Bits(f % BITS_PER_WORD, g % BITS_PER_WORD);
    }
  }

  /** Exactly the reserved frames and those handed out are marked. */
  ghost predicate Marks(bits: seq<Word>, outstanding: set<nat>) {
    forall f :: 0 <= f < BITS_PER_WORD * |bits| ==> (Used(bits, f) <==> f < RESERVED_FRAMES || f in outstanding)
  }

  lemma SetFrameMarks(bits: seq<Word>, f: nat, outstanding: set<nat>)
    requires Marks(bits, outstanding) && f < BITS_PER_WORD * |bits|
    ensures Marks(SetFrame(bits, f), outstanding + {f})
  {
    forall g | 0 <= g < BITS_PER_WORD * |bits|
      ensures Used(SetFrame(bits, f), g) <==> g < RESERVED_FRAMES || g in outstanding + {f}
    {
      SetFrameUses(bits, f, g);
    }
  }

  lemma ClearFrameMarks(bits: seq<Word>, f: nat, outstanding: set<nat>)
    requires Marks(bits, outstanding) && RESERVED_FRAMES <= f < BITS_PER_WORD * |bits|
    ensures Marks(ClearFrame(bits, f), outstanding - {f})
  {
    forall g | 0 <= g < BITS_PER_WORD * |bits|
      ensures Used(ClearFrame(bits, f), g) <==> g < RESERVED_FRAMES || g in outstanding - {f}
    {
      ClearFrameFrees(bits, f, g);
    }
  }

  /** Freeing a frame right after it was handed out restores every word of the bitmap. */
  lemma FreeUndoesAlloc(bits: seq<Word>, f: nat)
    requires f < BITS_PER_WORD * |bits| && !Used(bits, f)
    ensures ClearFrame(SetFrame(bits, f), f) == bits
  {
    var w, b := f / BITS_PER_WORD, f % BITS_PER_WORD;
    var after := ClearFrame(SetFrame(bits, f), f);
    forall i: nat | i < 32
      ensures Bit(after[w], i) <==> Bit(bits[w], i)
    {
      var g := w * BITS_PER_WORD + i;
      assert g / BITS_PER_WORD == w && g % BITS_PER_WORD == i;
      SetFrameUses(bits, f, g);
      ClearFrameFrees(SetFrame(bits, f), f, g);
    }
    Pow2Of32();
    SameBits(after[w], bits[w], 32);
  }

  // ----- the allocator

  class FrameAllocator {
    const bitmap: array<Word>
    var totalFrames: nat
    var usedFrames: nat

    /** Frames handed out and not yet returned. */
    ghost var outstanding: set<nat>

    ghost function Bits(): seq<Word>
      reads this, bitmap
      requires BitmapWords(totalFrames) <= bitmap.Length
    {
      bitmap[..BitmapWords(totalFrames)]
    }

    ghost predicate Valid()
      reads this, bitmap
    {
      && bitmap.Length == BITMAP_CAPACITY
      && totalFrames <= BITS_PER_WORD * BITMAP_CAPACITY
      && usedFrames == RESERVED_FRAMES + |outstanding|
      && (forall f :: f in outstanding ==> RESERVED_FRAMES <= f < BITS_PER_WORD * BitmapWords(totalFrames))
      && Marks(Bits(), outstanding)
    }

    /** Those of them that exist: the last bitmap word also has bits for frames past the end of memory. */
    ghost function Held(): (s: set<nat>)
      reads this
      ensures forall f :: f in s ==> f in outstanding && f < totalFrames
    {
      Inside(outstanding, totalFrames)
    }

    /** Some bit of the bitmap is clear, be it of a frame or of padding. */
    ghost predicate HasClearBit()
      reads this, bitmap
      requires Valid()
    {
      LowestFree(Bits()) < BITS_PER_WORD * BitmapWords(totalFrames)
    }

    /** Some frame is free. */
    ghost predicate HasFree()
      reads this, bitmap
      requires Valid()
    {
      LowestFree(Bits()) < totalFrames
    }

    /** The frames that are free. */
    ghost function FreeFrames(): int
      reads this
    {
      totalFrames - RESERVED_FRAMES - |Held()|
    }

    /** No padding bit has been handed out as a frame. */
    ghost predicate OnlyRealFrames()
      reads this
    {
      forall f :: f in outstanding ==> f < totalFrames
    }

    /** Holds the bitmap's raw memory; nothing is known of it until Init. */
    constructor ()
      ensures fresh(this) && fresh(bitmap) && bitmap.Length == BITMAP_CAPACITY
    {
      bitmap := new Word[BITMAP_CAPACITY];
      totalFrames, usedFrames, outstanding := 0, 0, {};
    }

    /** Sets the first `reservedFrames` bits a word at a time. */
    method ReserveFirst(reservedFrames: nat)
      requires reservedFrames < BITS_PER_WORD * bitmap.Length
      modifies bitmap
      ensures forall f :: 0 <= f < reservedFrames ==> Used(bitmap[..], f)
      ensures forall w :: reservedFrames <= BITS_PER_WORD * w && 0 <= w < bitmap.Length ==> bitmap[w] == old(bitmap[w])
      ensures var w := reservedFrames / BITS_PER_WORD;
              forall f :: reservedFrames <= f < BITS_PER_WORD * (w + 1) && reservedFrames % BITS_PER_WORD != 0 ==> !Used(bitmap[..], f)
    {
      var fullWords := reservedFrames / BITS_PER_WORD;
      var tailBits := reservedFrames % BITS_PER_WORD;
      for w := 0 to fullWords
        invariant forall v :: 0 <= v < w ==> bitmap[v] == MAX_WORD
        invariant forall v :: w <= v < bitmap.Length ==> bitmap[v] == old(bitmap[v])
      {
        bitmap[w] := MAX_WORD;
      }
      if tailBits != 0 {
        OneBitWord(tailBits);
        bitmap[fullWords] := Pow2(tailBits) - 1;
      }
      Pow2Of32();
      forall f | 0 <= f < reservedFrames ensures Used(bitmap[..], f) {
        LowOnesBits(32, f % BITS_PER_WORD);
        LowOnesBits(tailBits, f % BITS_PER_WORD);
      }
      forall f | reservedFrames <= f < BITS_PER_WORD * (fullWords + 1) && tailBits != 0 ensures !Used(bitmap[..], f) {
        LowOnesBits(tailBits, f % BITS_PER_WORD);
      }
    }

    /** Afterwards exactly the reserved frames are used, as if each had been marked by itself. */
    method Init(memSize: Word)
      requires bitmap.Length == BITMAP_CAPACITY
      modifies this, bitmap
      ensures Valid() && outstanding == {}
      ensures totalFrames == memSize / PAGE_SIZE && usedFrames == KERNEL_RESERVED / PAGE_SIZE
      ensures forall f :: 0 <= f < BITS_PER_WORD * BitmapWords(totalFrames) ==> (Used(Bits(), f) <==> f < RESERVED_FRAMES)
    {
      totalFrames := memSize / PAGE_SIZE;
      var words := BitmapWords(totalFrames);
      for w := 0 to words
        invariant totalFrames == memSize / PAGE_SIZE
        invariant forall v :: 0 <= v < w ==> bitmap[v] == 0
      {
        bitmap[w] := 0;
      }
      var reservedFrames := KERNEL_RESERVED / PAGE_SIZE;
      ReserveFirst(reservedFrames);
      usedFrames, outstanding := reservedFrames, {};
      forall f | 0 <= f < BITS_PER_WORD * words
        ensures Used(Bits(), f) <==> f < RESERVED_FRAMES
      {
        if f < RESERVED_FRAMES {
          assert Used(bitmap[..], f);
        } else {
          ZeroBits(f % BITS_PER_WORD);
        }
      }
    }

    method FindFreeFrame() returns (frame: Word)
      requires Valid()
      ensures frame == if HasClearBit() then LowestFree(Bits()) else FRAMES_NOT_FOUND
    {
      hide Used, Marks;
      var words := BitmapWords(totalFrames);
      for w := 0 to words
        invariant forall f :: 0 <= f < BITS_PER_WORD * w ==> Used(Bits(), f)
      {
        var word := bitmap[w];
        assert word == Bits()[w];
        if word == MAX_WORD {
          FullWord(Bits(), w);
          continue;
        }
        for bit := 0 to BITS_PER_WORD
          invariant forall f :: 0 <= f < BITS_PER_WORD * w + bit ==> Used(Bits(), f)
        {
          BitOfWord(Bits(), w, bit);
          if And(word, Pow2(bit)) == 0 {
            return w * BITS_PER_WORD + bit;
          }
        }
      }
      return FRAMES_NOT_FOUND;
    }

    lemma NotHeld(f: nat)
      requires Valid() && f < RESERVED_FRAMES
      ensures f !in Held()
    {
    }

    lemma NotOutstanding(f: nat)
      requires Valid() && f == LowestFree(Bits()) < BITS_PER_WORD * BitmapWords(totalFrames)
      ensures RESERVED_FRAMES <= f && f !in outstanding
    {
    }

    /** mark_frame_used, of a clear bit. */
    method MarkFrameUsed(frame: Word)
      requires Valid() && frame == LowestFree(Bits()) < BITS_PER_WORD * BitmapWords(totalFrames)
      modifies this`outstanding, bitmap
      ensures outstanding == old(outstanding) + {frame as nat} && Bits() == SetFrame(old(Bits()), frame)
      ensures Marks(Bits(), outstanding)
    {
      ghost var before := Bits();
      OneBitWord(frame % BITS_PER_WORD); Pow2Of32();
      OrBound(bitmap[frame / BITS_PER_WORD], Pow2(frame % BITS_PER_WORD), 32);
      bitmap[frame / BITS_PER_WORD] := Or(bitmap[frame / BITS_PER_WORD], Pow2(frame % BITS_PER_WORD));
      outstanding := outstanding + {frame as nat};
      assert Bits() == SetFrame(before, frame);
      SetFrameMarks(before, frame, old(outstanding));
    }

    /** Marks and counts a clear bit: one frame more is held if it is one that exists. */
    method TakeFrame(frame: Word)
      requires Valid() && frame == LowestFree(Bits()) < BITS_PER_WORD * BitmapWords(totalFrames)
      modifies this`usedFrames, this`outstanding, bitmap
      ensures Valid() && RESERVED_FRAMES <= frame && frame !in old(outstanding) && usedFrames == old(usedFrames) + 1
      ensures outstanding == old(outstanding) + {frame as nat} && Bits() == SetFrame(old(Bits()), frame)
      ensures if frame < totalFrames
              then frame !in old(Held()) && Held() == old(Held()) + {frame as nat} && FreeFrames() == old(FreeFrames()) - 1
              else frame !in Held() && Held() == old(Held())
    {
      hide Used, Marks, LowestFree, SetFrame, Inside;
      NotOutstanding(frame);
      InsideGrows(outstanding, frame, totalFrames);
      MarkFrameUsed(frame);
      usedFrames := usedFrames + 1;
    }

    /**
     Hands out the lowest clear bit as a frame, or 0 when none is left: a frame that exists as long
     as one is free, and a padding bit after that. Over memory whose frames handed out all exist,
     the next one exists as well exactly while the counter is below the total, and all go on to
     exist unless the counter has reached a total that leaves padding in the last bitmap word.
     */
    method AllocFrame() returns (addr: Word)
      requires Valid()
      modifies this`usedFrames, this`outstanding, bitmap
      ensures Valid() && totalFrames == old(totalFrames) && old(outstanding) <= outstanding
      ensures !old(HasClearBit()) ==> addr == 0 && outstanding == old(outstanding) && Bits() == old(Bits())
      ensures old(HasClearBit()) ==>
                var frame := old(LowestFree(Bits()));
                addr == frame * PAGE_SIZE && RESERVED_FRAMES <= frame && frame !in old(outstanding)
                && outstanding == old(outstanding) + {frame} && Bits() == SetFrame(old(Bits()), frame)
      ensures if old(HasFree())
              then addr / PAGE_SIZE !in old(Held()) && Held() == old(Held()) + {addr / PAGE_SIZE}
                   && FreeFrames() == old(FreeFrames()) - 1 && (old(OnlyRealFrames()) ==> OnlyRealFrames())
              else addr / PAGE_SIZE !in Held() && Held() == old(Held())
      ensures old(OnlyRealFrames()) && totalFrames >= RESERVED_FRAMES ==>
                && (0 < addr < totalFrames * PAGE_SIZE <==> old(usedFrames) < totalFrames)
                && (OnlyRealFrames() <==> old(usedFrames) < totalFrames || totalFrames % BITS_PER_WORD == 0)
    {
      hide Used, Marks, LowestFree, SetFrame, Inside;
      HasFreeIff(this);
      PaddingClearIff(this);
      var frame := FindFreeFrame();
      if frame == FRAMES_NOT_FOUND {
        NotHeld(0);
        return 0;
      }
      TakeFrame(frame);
      return frame * PAGE_SIZE;
    }

    /** pmm_get_free_memory: the bytes in clear frames, while only frames that exist are out. */
    method GetFreeMemory() returns (bytes: Word)
      requires Valid()
      ensures totalFrames >= RESERVED_FRAMES && OnlyRealFrames() ==> bytes == PAGE_SIZE * |FreeSet(Bits(), totalFrames)|
    {
      hide Used, LowestFree;
      if totalFrames >= RESERVED_FRAMES {
        FreeMemoryCounts(this);
      }
      var frames := (totalFrames - usedFrames) % MODULUS;
      bytes := frames * PAGE_SIZE % MODULUS;
    }

    /** Callers return only frames they hold. */
    method FreeFrame(addr: Word)
      requires Valid() && addr / PAGE_SIZE in outstanding
      modifies this`usedFrames, this`outstanding, bitmap
      ensures Valid() && totalFrames == old(totalFrames) && outstanding == old(outstanding) - {addr / PAGE_SIZE}
      ensures Bits() == ClearFrame(old(Bits()), addr / PAGE_SIZE)
    {
      var frame := addr / PAGE_SIZE;
      ghost var before := Bits();
      OneBitWord(frame % BITS_PER_WORD);
      bitmap[frame / BITS_PER_WORD] := And(bitmap[frame / BITS_PER_WORD], Not(Pow2(frame % BITS_PER_WORD)));
      if usedFrames > 0 {
        usedFrames := usedFrames - 1;
      }
      outstanding := outstanding - {frame as nat};
      assert Bits() == ClearFrame(before, frame);
      ClearFrameMarks(before, frame, old(outstanding));
    }
  }

  // ----- the counters

  ghost function FreeSet(bits: seq<Word>, totalFrames: nat): set<nat>
    requires totalFrames <= BITS_PER_WORD * |bits|
  {
    set f: nat | f < totalFrames && !Used(bits, f)
  }

  /**
   The free-memory counter counts the frames that are free, as long as the memory covers the
   reserved frames; each padding bit handed out makes it one frame too low.
   */
  lemma FreeMemoryCounts(pmm: FrameAllocator)
    requires pmm.Valid() && pmm.totalFrames >= RESERVED_FRAMES
    ensures |FreeSet(pmm.Bits(), pmm.totalFrames)| == pmm.FreeFrames()
    ensures pmm.FreeFrames() == pmm.totalFrames - pmm.usedFrames <==> pmm.OnlyRealFrames()
  {
    hide Used;
    CountFree(pmm.Bits(), RESERVED_FRAMES, pmm.outstanding, pmm.totalFrames);
    SizeInside(pmm.outstanding, pmm.totalFrames);
  }

  ghost function Inside(frames: set<nat>, n: nat): set<nat> {
    set f | f in frames && f < n
  }

  lemma InsideGrows(frames: set<nat>, f: nat, n: nat)
    requires f !in frames
    ensures f !in Inside(frames, n) && (f >= n ==> Inside(frames + {f}, n) == Inside(frames, n))
    ensures f < n ==> Inside(frames + {f}, n) == Inside(frames, n) + {f} && |Inside(frames + {f}, n)| == |Inside(frames, n)| + 1
  {
    if f < n {
      assert Inside(frames + {f}, n) == Inside(frames, n) + {f};
    } else {
      assert Inside(frames + {f}, n) == Inside(frames, n);
    }
  }

  lemma SizeInside(frames: set<nat>, n: nat)
    ensures |Inside(frames, n)| <= |frames|
    ensures |Inside(frames, n)| == |frames| <==> forall f :: f in frames ==> f < n
  {
    if f :| f in frames && f >= n {
      SubsetSize(Inside(frames, n), frames - {f});
    } else {
      assert Inside(frames, n) == frames;
    }
  }

  lemma CountFree(bits: seq<Word>, reserved: nat, outstanding: set<nat>, n: nat)
    requires reserved <= n <= BITS_PER_WORD * |bits|
    requires forall f :: f in outstanding ==> reserved <= f
    requires forall f :: 0 <= f < BITS_PER_WORD * |bits| ==> (Used(bits, f) <==> f < reserved || f in outstanding)
    ensures |FreeSet(bits, n)| == n - reserved - |Inside(outstanding, n)|
  {
    hide Used;
    var low, inside, clear := FramesBelow(reserved), Inside(outstanding, n), FreeSet(bits, n);
    assert FramesBelow(n) == low + inside + clear;
    assert low !! inside;
    assert (low + inside) !! clear;
  }

  ghost function UsedSet(bits: seq<Word>): set<nat> {
    set f: nat | f < BITS_PER_WORD * |bits| && Used(bits, f)
  }

  /** The counter agrees with the bitmap: it is the number of set bits. */
  lemma UsedFramesCountsBits(pmm: FrameAllocator)
    requires pmm.Valid() && RESERVED_FRAMES <= BITS_PER_WORD * BitmapWords(pmm.totalFrames)
    ensures pmm.usedFrames == |UsedSet(pmm.Bits())|
  {
    CountUsed(pmm.Bits(), RESERVED_FRAMES, pmm.outstanding);
  }

  lemma CountUsed(bits: seq<Word>, reserved: nat, outstanding: set<nat>)
    requires reserved <= BITS_PER_WORD * |bits|
    requires forall f :: f in outstanding ==> reserved <= f < BITS_PER_WORD * |bits|
    requires forall f :: 0 <= f < BITS_PER_WORD * |bits| ==> (Used(bits, f) <==> f < reserved || f in outstanding)
    ensures |UsedSet(bits)| == reserved + |outstanding|
  {
    var low := FramesBelow(reserved);
    assert UsedSet(bits) == low + outstanding;
    assert low !! outstanding;
  }

  /** A frame is free exactly while the held ones and the reserved ones are not all there are. */
  lemma HasFreeIff(pmm: FrameAllocator)
    requires pmm.Valid()
    ensures pmm.HasFree() <==> pmm.FreeFrames() > 0
    ensures pmm.Held() != {} ==> pmm.FreeFrames() >= 0
  {
    var bits, n := pmm.Bits(), pmm.totalFrames;
    if n < RESERVED_FRAMES {
      assert pmm.Held() == {};
    } else {
      CountFree(bits, RESERVED_FRAMES, pmm.outstanding, n);
      FreeSetEmptyIff(bits, n);
    }
  }

  /** While only frames that exist are out, the kernel's two counters give the number that are free. */
  lemma CountersTellFree(pmm: FrameAllocator)
    requires pmm.Valid() && pmm.OnlyRealFrames()
    ensures pmm.FreeFrames() == pmm.totalFrames - pmm.usedFrames
  {
    SizeInside(pmm.outstanding, pmm.totalFrames);
  }

  lemma FreeSetEmptyIff(bits: seq<Word>, n: nat)
    requires n <= BITS_PER_WORD * |bits|
    ensures LowestFree(bits) < n <==> |FreeSet(bits, n)| > 0
  {
    var free := FreeSet(bits, n);
    if LowestFree(bits) < n {
      assert LowestFree(bits) in free;
    } else {
      assert free == {};
    }
  }

  /** Once every frame is used, a bit is still clear exactly when the last word has padding. */
  lemma PaddingClearIff(pmm: FrameAllocator)
    requires pmm.Valid()
    ensures pmm.totalFrames >= RESERVED_FRAMES && pmm.OnlyRealFrames() ==>
              && pmm.FreeFrames() == pmm.totalFrames - pmm.usedFrames
              && (pmm.HasClearBit() <==> pmm.HasFree() || pmm.totalFrames % BITS_PER_WORD != 0)
  {
    SizeInside(pmm.outstanding, pmm.totalFrames);
    var n, bits := pmm.totalFrames, pmm.Bits();
    if n % BITS_PER_WORD != 0 {
      assert n < BITS_PER_WORD * |bits|;
      assert n >= RESERVED_FRAMES && pmm.OnlyRealFrames() ==> !Used(bits, n);
    }
  }

  /** Memory of 513 frames: the second frame handed out is number 513, which does not exist. */
  method PaddingFrameHandedOut() returns (pmm: FrameAllocator, addr: Word)
    ensures fresh(pmm) && pmm.Valid() && pmm.totalFrames == 513
    ensures pmm.outstanding == {512, 513} && addr == 513 * PAGE_SIZE && !pmm.OnlyRealFrames()
  {
    hide Used, Marks, LowestFree, SetFrame;
    pmm := new FrameAllocator();
    pmm.Init(513 * PAGE_SIZE);
    FirstClear(pmm, 512);
    var first := pmm.AllocFrame();
    FirstClear(pmm, 513);
    addr := pmm.AllocFrame();
    assert 513 in pmm.outstanding;
  }

  lemma FirstClear(pmm: FrameAllocator, f: nat)
    requires pmm.Valid() && RESERVED_FRAMES <= f < BITS_PER_WORD * BitmapWords(pmm.totalFrames)
    requires f !in pmm.outstanding && forall g :: RESERVED_FRAMES <= g < f ==> g in pmm.outstanding
    ensures LowestFree(pmm.Bits()) == f
  {
    assert !Used(pmm.Bits(), f);
  }

  lemma {:induction false} SubsetSize(a: set<nat>, b: set<nat>)
    requires a <= b
    ensures |a| <= |b|
  {
    assert b == a + (b - a);
  }

  ghost function FramesBelow(n: nat): (s: set<nat>)
    ensures |s| == n && forall f: nat :: f in s <==> f < n
  {
    if n == 0 then {} else FramesBelow(n - 1) + {n - 1}
  }
}
