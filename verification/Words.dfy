/**
 Unsigned 32-bit words and the bitwise operators the kernel applies to them, given by
 recursion over binary digits so that masks, flags and bitmaps can be reasoned about
 as numbers.
 */
module Words {

  const MODULUS := 0x1_0000_0000
  const MAX_WORD := 0xFFFF_FFFF
  const PAGE_SIZE := 4096

  type Word = x: int | 0 <= x < 0x1_0000_0000

  function Pow2(k: nat): (p: nat)
    ensures p >= 1
  {
    if k == 0 then 1 else 2 * Pow2(k - 1)
  }

  function And(a: nat, b: nat): (r: nat)
    ensures r <= a && r <= b
  {
    if a == 0 || b == 0 then 0
    else (if a % 2 == 1 && b % 2 == 1 then 1 else 0) + 2 * And(a / 2, b / 2)
  }

  function Or(a: nat, b: nat): (r: nat)
    ensures a <= r && b <= r <= a + b
    decreases a + b
  {
    if a == 0 then b else if b == 0 then a
    else (if a % 2 == 1 || b % 2 == 1 then 1 else 0) + 2 * Or(a / 2, b / 2)
  }

  function Not(a: Word): Word {
    MAX_WORD - a
  }

  /** The 32-bit sum of two words. */
  function Wrap(x: nat): Word
    requires x < 2 * MODULUS
  {
    if x < MODULUS then x else x - MODULUS
  }

  /** Binary digit i of a. */
  predicate Bit(a: nat, i: nat) {
    if i == 0 then a % 2 == 1 else Bit(a / 2, i - 1)
  }

  // ----- digits of the operators

  lemma {:induction false} AndBits(a: nat, b: nat, i: nat)
    ensures Bit(And(a, b), i) <==> Bit(a, i) && Bit(b, i)
    decreases i
  {
    if a == 0 || b == 0 {
      ZeroBits(i);
    } else {
      var r := And(a / 2, b / 2);
      assert And(a, b) / 2 == r;
      if i > 0 { AndBits(a / 2, b / 2, i - 1); }
    }
  }

  lemma {:induction false} OrBits(a: nat, b: nat, i: nat)
    ensures Bit(Or(a, b), i) <==> Bit(a, i) || Bit(b, i)
    decreases i
  {
    if a == 0 || b == 0 {
      ZeroBits(i);
    } else {
      assert Or(a, b) / 2 == Or(a / 2, b / 2);
      if i > 0 { OrBits(a / 2, b / 2, i - 1); }
    }
  }

  lemma {:induction false} ZeroBits(i: nat)
    ensures !Bit(0, i)
  {
    if i == 0 {
    } else {
      ZeroBits(i - 1);
    }
  }

  lemma {:induction false} Pow2Bits(k: nat, i: nat)
    ensures Bit(Pow2(k), i) <==> i == k
  {
    if k == 0 {
      if i > 0 { ZeroBits(i - 1); }
    } else if i > 0 {
      Pow2Bits(k - 1, i - 1);
    }
  }

  /** Subtracting from a block of n ones flips the n low digits. */
  lemma {:induction false} ComplementBits(a: nat, n: nat, i: nat)
    requires a < Pow2(n) && i < n
    ensures Bit(Pow2(n) - 1 - a, i) <==> !Bit(a, i)
  {
    var c := Pow2(n) - 1 - a;
    assert c % 2 == 1 - a % 2 && c / 2 == Pow2(n - 1) - 1 - a / 2;
    if i == 0 {
    } else {
      ComplementBits(a / 2, n - 1, i - 1);
    }
  }

  lemma {:induction false} LowOnesBits(k: nat, i: nat)
    ensures Bit(Pow2(k) - 1, i) <==> i < k
  {
    if k == 0 {
      ZeroBits(i);
    } else {
      assert (Pow2(k) - 1) / 2 == Pow2(k - 1) - 1 && (Pow2(k) - 1) % 2 == 1;
      if i > 0 { LowOnesBits(k - 1, i - 1); }
    }
  }

  /** Testing one digit with a one-bit mask: a & (1 << i). */
  lemma {:induction false} MaskTestsBit(a: nat, i: nat)
    ensures And(a, Pow2(i)) != 0 <==> Bit(a, i)
    decreases i
  {
    if a == 0 {
      ZeroBits(i);
    } else if i > 0 {
      MaskTestsBit(a / 2, i - 1);
    }
  }

  lemma {:induction false} OrBound(a: nat, b: nat, n: nat)
    requires a < Pow2(n) && b < Pow2(n)
    ensures Or(a, b) < Pow2(n)
    decreases n
  {
    if a > 0 && b > 0 { OrBound(a / 2, b / 2, n - 1); }
  }

  lemma {:induction false} SameBits(a: nat, b: nat, n: nat)
    requires a < Pow2(n) && b < Pow2(n) && forall i: nat :: i < n ==> (Bit(a, i) <==> Bit(b, i))
    ensures a == b
    decreases n
  {
    if n == 0 {
    } else {
      assert Bit(a, 0) <==> Bit(b, 0);
      forall i: nat | i < n - 1 ensures Bit(a / 2, i) <==> Bit(b / 2, i) {
        assert Bit(a, i + 1) <==> Bit(b, i + 1);
      }
      SameBits(a / 2, b / 2, n - 1);
    }
  }

  lemma Pow2Of32()
    ensures Pow2(32) == MODULUS && Pow2(12) == PAGE_SIZE && Pow2(10) == 1024 && Pow2(5) == 32 && Pow2(2) == 4
  {
    assert Pow2(5) == 32;
    assert Pow2(10) == 1024;
    assert Pow2(12) == PAGE_SIZE;
    assert Pow2(20) == 0x10_0000;
    assert Pow2(28) == 0x1000_0000;
    assert Pow2(32) == 16 * Pow2(28);
  }

  lemma Pow2Of22()
    ensures Pow2(22) == 0x40_0000 && Pow2(21) == 0x20_0000
  {
    Pow2Of32();
    assert Pow2(16) == 16 * Pow2(12);
    assert Pow2(21) == 32 * Pow2(16);
  }

  lemma {:induction false} Pow2Monotone(j: nat, k: nat)
    requires j <= k
    ensures Pow2(j) <= Pow2(k)
    decreases k
  {
    if j < k { Pow2Monotone(j, k - 1); }
  }

  // ----- masks are remainders

  /** The number formed by the k low digits of a. */
  function Low(a: nat, k: nat): (r: nat)
    ensures r <= a
  {
    if k == 0 then 0 else a % 2 + 2 * Low(a / 2, k - 1)
  }

  lemma {:induction false} LowBound(a: nat, k: nat)
    ensures Low(a, k) < Pow2(k)
    decreases k
  {
    if k == 0 {
    } else {
      LowBound(a / 2, k - 1);
    }
  }

  lemma LowIsRemainder(a: nat, k: nat)
    ensures Low(a, k) == a % Pow2(k) < Pow2(k)
  {
    LowBound(a, k);
    ShrAndLow(a, k);
    ModUnique(a, Pow2(k), Shr(a, k), Low(a, k));
  }

  lemma ModUnique(a: nat, d: nat, q: nat, r: nat)
    requires 0 <= r < d && a == q * d + r
    ensures a % d == r && a / d == q
  {
    var q' := a / d;
    if q' < q {
      NextMultiple(q', q, d);
      assert false;
    } else if q < q' {
      NextMultiple(q, q', d);
      assert false;
    }
  }

  lemma {:induction false} NextMultiple(m: nat, n: nat, d: nat)
    requires m < n
    ensures m * d + d <= n * d
    decreases n
  {
    if m + 1 < n {
      NextMultiple(m, n - 1, d);
      assert n * d == (n - 1) * d + d;
    } else {
      assert n * d == m * d + d;
    }
  }

  /** Right shift. */
  function Shr(a: nat, k: nat): (r: nat)
    ensures r <= a
  {
    if k == 0 then a else Shr(a / 2, k - 1)
  }

  lemma {:induction false} ShrAndLow(a: nat, k: nat)
    ensures a == Shr(a, k) * Pow2(k) + Low(a, k)
    decreases k
  {
    if k == 0 {
    } else {
      ShrAndLow(a / 2, k - 1);
      DoubleProduct(Shr(a, k), Pow2(k - 1));
    }
  }

  lemma DoubleProduct(q: nat, p: nat)
    ensures q * (2 * p) == 2 * (q * p)
  {
  }

  lemma ShrIsDivision(a: nat, k: nat)
    ensures Shr(a, k) == a / Pow2(k)
  {
    LowBound(a, k);
    ShrAndLow(a, k);
    ModUnique(a, Pow2(k), Shr(a, k), Low(a, k));
  }

  /** Or-ing in digits below k leaves the digits above k alone. */
  lemma {:induction false} OrKeepsHigh(a: nat, b: nat, k: nat)
    requires b < Pow2(k)
    ensures Shr(Or(a, b), k) == Shr(a, k)
    decreases k
  {
    if b > 0 && a > 0 {
      OrKeepsHigh(a / 2, b / 2, k - 1);
    } else if a == 0 {
      ShrSmall(b, k);
      ShrSmall(0, k);
    }
  }

  lemma {:induction false} ShrSmall(b: nat, k: nat)
    requires b < Pow2(k)
    ensures Shr(b, k) == 0
    decreases k
  {
    if k == 0 {
    } else {
      ShrSmall(b / 2, k - 1);
    }
  }

  /** Keeping k low digits: a & (2^k - 1). */
  lemma {:induction false} LowMask(a: nat, k: nat, m: nat)
    requires m + 1 == Pow2(k)
    ensures And(a, m) == Low(a, k)
    decreases k
  {
    if k == 0 {
    } else {
      assert m % 2 == 1 && m / 2 + 1 == Pow2(k - 1);
      LowMask(a / 2, k - 1, m / 2);
    }
  }

  /** Clearing k low digits within n digits: a & ~(2^k - 1). */
  lemma {:induction false} HighMask(a: nat, k: nat, n: nat, m: nat)
    requires k <= n && a < Pow2(n) && m + Pow2(k) == Pow2(n)
    ensures And(a, m) == a - Low(a, k)
    decreases n
  {
    if k == 0 {
      LowMask(a, n, m);
      LowAll(a, n);
    } else {
      HighMask(a / 2, k - 1, n - 1, m / 2);
    }
  }

  lemma {:induction false} LowAll(a: nat, n: nat)
    requires a < Pow2(n)
    ensures Low(a, n) == a
  {
    if n == 0 {
    } else {
      LowAll(a / 2, n - 1);
    }
  }

  lemma {:induction false} LowCleared(a: nat, k: nat)
    ensures Low(a - Low(a, k), k) == 0
    decreases k
  {
    if k == 0 {
    } else {
      LowCleared(a / 2, k - 1);
      assert (a - Low(a, k)) / 2 == a / 2 - Low(a / 2, k - 1);
    }
  }

  /** Or-ing flags below 2^k into a number whose k low digits are clear adds them. */
  lemma {:induction false} OrDisjoint(a: nat, b: nat, k: nat)
    requires Low(a, k) == 0 && b < Pow2(k)
    ensures Or(a, b) == a + b
    decreases k
  {
    if k > 0 && a > 0 && b > 0 {
      OrDisjoint(a / 2, b / 2, k - 1);
    }
  }

  // ----- rounding up by masking

  /** The kernel's align_up / ALIGN on values that do not overflow: (value + align - 1) & ~(align - 1). */
  function AlignUp(value: nat, align: nat): nat
    requires 0 < align && value + align <= MAX_WORD
  {
    And(value + align - 1, Not(align - 1))
  }

  /** The mask form rounds up to the next multiple of a power of two. */
  lemma AlignUpRounds(value: nat, k: nat)
    requires k <= 32 && value + Pow2(k) <= MAX_WORD
    ensures var r := AlignUp(value, Pow2(k));
            value <= r < value + Pow2(k) && r % Pow2(k) == 0
            && forall m: nat :: m % Pow2(k) == 0 && value <= m ==> r <= m
  {
    hide *;
    var x := value + Pow2(k) - 1;
    AlignUpFloor(value, k);
    LowIsRemainder(x, k);
    RoundDown(value, Pow2(k), x - Low(x, k));
  }

  lemma AlignUpFloor(value: nat, k: nat)
    requires k <= 32 && value + Pow2(k) <= MAX_WORD
    ensures AlignUp(value, Pow2(k)) == value + Pow2(k) - 1 - Low(value + Pow2(k) - 1, k)
  {
    var x, m := value + Pow2(k) - 1, Not(Pow2(k) - 1);
    Pow2Of32();
    hide And, Low, Pow2;
    HighMask(x, k, 32, m);
  }

  // ----- what the kernel's fixed masks compute

  const PAGE_MASK := 0xFFFF_F000

  function RoundToWord(size: nat): (r: nat)
    ensures size <= r < size + 4 && r % 4 == 0
  {
    (size + 3) / 4 * 4
  }

  function FloorToPage(x: nat): (r: nat)
    ensures r <= x < r + PAGE_SIZE && r % PAGE_SIZE == 0
  {
    x / PAGE_SIZE * PAGE_SIZE
  }

  function RoundToPage(x: nat): (r: nat)
    ensures x <= r < x + PAGE_SIZE && r % PAGE_SIZE == 0
  {
    FloorToPage(x + 4095)
  }

  lemma WordMask(size: nat)
    requires size + 4 <= MAX_WORD
    ensures AlignUp(size, 4) == RoundToWord(size)
  {
    var x := size + 3;
    Pow2Of32();
    hide And, Low, Pow2;
    HighMask(x, 2, 32, Not(3));
    LowOfWord(x);
  }

  lemma LowOfWord(x: nat)
    ensures Low(x, 2) == x % 4
  {
    LowIsRemainder(x, 2);
    assert Pow2(2) == 4;
  }

  lemma PageMask(x: Word)
    ensures And(x, PAGE_MASK) == FloorToPage(x)
  {
    Pow2Of32();
    hide And, Low, Pow2;
    HighMask(x, 12, 32, PAGE_MASK);
    LowOfPage(x);
  }

  lemma LowOfPage(x: nat)
    ensures Low(x, 12) == x % PAGE_SIZE
  {
    LowIsRemainder(x, 12);
    Pow2Of32();
  }

  // ----- powers of two

  predicate IsPowerOfTwo(n: nat) {
    n == 1 || (n > 0 && n % 2 == 0 && IsPowerOfTwo(n / 2))
  }

  ghost function Exponent(n: nat): (k: nat)
    requires IsPowerOfTwo(n)
    ensures Pow2(k) == n
  {
    if n == 1 then 0 else 1 + Exponent(n / 2)
  }

  /** The test for a power of two accepts the powers of two and nothing else. */
  lemma PowerOfTwoIff(n: nat)
    ensures IsPowerOfTwo(n) <==> exists k :: Pow2(k) == n
  {
    if IsPowerOfTwo(n) {
      assert Pow2(Exponent(n)) == n;
    }
    if k :| Pow2(k) == n {
      PowersPass(k);
    }
  }

  lemma {:induction false} PowersPass(k: nat)
    ensures IsPowerOfTwo(Pow2(k))
  {
    if k > 0 {
      PowersPass(k - 1);
      assert Pow2(k) / 2 == Pow2(k - 1);
    }
  }

  lemma {:induction false} LargePowerIsWords(k: nat)
    requires Pow2(k) >= 4
    ensures Pow2(k) % 4 == 0
  {
    if Pow2(k) > 4 {
      LargePowerIsWords(k - 1);
    }
  }

  lemma MultipleOfWords(a: nat, p: nat)
    requires p > 0 && p % 4 == 0 && a % p == 0
    ensures a % 4 == 0
  {
    assert a == (a / p) * p;
    assert p == 4 * (p / 4);
    assert a == 4 * ((a / p) * (p / 4));
  }

  // ----- multiples of the page size

  lemma MultiplesDiffer(a: nat, b: nat, p: nat)
    requires p > 0 && a % p == 0 && b % p == 0 && a <= b
    ensures (b - a) % p == 0
  {
    assert b - a == (b / p - a / p) * p;
    ModUnique(b - a, p, b / p - a / p, 0);
  }

  lemma MultiplesAdd(a: nat, b: nat, p: nat)
    requires p > 0 && a % p == 0 && b % p == 0
    ensures (a + b) % p == 0
  {
    assert a + b == (a / p + b / p) * p;
    ModUnique(a + b, p, a / p + b / p, 0);
  }

  lemma PageIsWord(a: nat)
    requires a % PAGE_SIZE == 0
    ensures a % 4 == 0
  {
    var q := a / PAGE_SIZE;
    assert a == 4 * (1024 * q);
  }

  lemma WordOffsets(a: int, n: int)
    requires a % 4 == 0 && n % 4 == 0
    ensures (a + 12 + n) % 4 == 0 && (a - n - 12) % 4 == 0
  {
  }

  lemma PagesApart(a: nat, b: nat)
    requires a % PAGE_SIZE == 0 && b % PAGE_SIZE == 0 && a < b
    ensures a + PAGE_SIZE <= b
  {
  }

  lemma RoundDown(value: nat, p: nat, r: nat)
    requires p > 0 && r == value + p - 1 - (value + p - 1) % p
    ensures value <= r < value + p && r % p == 0
    ensures forall m: nat :: m % p == 0 && value <= m ==> r <= m
  {
    var q := (value + p - 1) / p;
    assert r == q * p;
    ModUnique(r, p, q, 0);
    forall m: nat | m % p == 0 && value <= m
      ensures r <= m
    {
      RoundDownLeast(value, p, q, m / p);
    }
  }

  lemma RoundDownLeast(value: nat, p: nat, q: nat, n: nat)
    requires p > 0 && q * p <= value + p - 1 && value <= n * p
    ensures q * p <= n * p
  {
    if n < q {
      NextMultiple(n, q, p);
    }
  }
}
