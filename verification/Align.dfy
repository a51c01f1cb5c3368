/** `align` and `page_align` of kernel/memory/memory.c. */
module Align {
  import opened Bits

  const PAGE_SIZE: u32 := 0x1000

  /** C's unary minus on an unsigned 32-bit word. */
  function Negate(a: u32): u32 {
    if a == 0 then 0 else 0x1_0000_0000 - a
  }

  /** `addr & -align`. */
  function AlignDown(ptr: u32, align: u32): u32 {
    AndBound(ptr, Negate(align));
    And(ptr, Negate(align))
  }

  function PageAlign(ptr: u32): u32 {
    AlignDown(ptr, PAGE_SIZE)
  }

  lemma PageAlignIs(ptr: u32)
    ensures PageAlign(ptr) == ptr - ptr % PAGE_SIZE
    ensures PageAlign(ptr) % PAGE_SIZE == 0
  {
    hide And;
    AndPageMask(ptr);
    WholePages(ptr);
  }

  lemma WholePages(ptr: nat)
    ensures (ptr - ptr % 0x1000) % 0x1000 == 0
  {
  }

  /** r is the greatest multiple of m that is not above n. */
  ghost predicate GreatestMultiple(r: int, n: int, m: int) {
    m > 0 && r <= n && r % m == 0 && forall x :: r < x <= n ==> x % m != 0
  }

  lemma MaskToPower(ptr: u32, k: nat)
    requires k < 32
    ensures 0 < Pow2(k) < 0x1_0000_0000
    ensures And(ptr, 0x1_0000_0000 - Pow2(k)) == ptr - ptr % Pow2(k)
  {
    Pow2Values();
    Pow2Strict(k, 32);
    AndHighMask(ptr, k, 32);
    LowIsRemainder(ptr, k);
  }

  lemma AlignDownToPower(ptr: u32, k: nat)
    requires k < 32
    ensures 0 < Pow2(k) < 0x1_0000_0000
    ensures AlignDown(ptr, Pow2(k)) == ptr - ptr % Pow2(k)
  {
    MaskToPower(ptr, k);
  }

  lemma RoundDown(n: nat, m: nat)
    requires m > 0
    ensures GreatestMultiple(n - n % m, n, m)
  {
    var q, r := n / m, n % m;
    assert n == m * q + r;
    MultipleHasNoRemainder(q, m);
    forall x | n - r < x <= n
      ensures x % m != 0
    {
      RemainderUnique(x, m, q, x - m * q);
    }
  }

  /** Rounding down with `align` works for every pointer exactly when the alignment is a power of two. */
  lemma AlignsIffPowerOfTwo(align: u32)
    ensures (forall ptr: u32 :: GreatestMultiple(AlignDown(ptr, align), ptr, align))
            <==> (exists k: nat :: k < 32 && Pow2(k) == align)
  {
    if k: nat :| k < 32 && Pow2(k) == align {
      forall ptr: u32
        ensures GreatestMultiple(AlignDown(ptr, align), ptr, align)
      {
        AlignDownToPower(ptr, k);
        RoundDown(ptr, align);
      }
    }
    if forall ptr: u32 :: GreatestMultiple(AlignDown(ptr, align), ptr, align) {
      assert GreatestMultiple(AlignDown(WORD_MAX, align), WORD_MAX, align);
      var k := AligningTopGivesPower(align);
    }
  }

  lemma AligningTopGivesPower(align: u32) returns (k: nat)
    requires align > 0 && AlignDown(WORD_MAX, align) % align == 0
    ensures k < 32 && Pow2(k) == align
  {
    TopOfMemory(align);
    var q := WholeQuotient(0x1_0000_0000 - align, align);
    Pow2Values();
    hide AlignDown, Pow2;
    k := DivisorOfPower(align, q + 1, 32);
  }

  lemma WholeQuotient(r: nat, d: nat) returns (q: nat)
    requires d > 0 && r % d == 0
    ensures r == d * q && r + d == d * (q + 1)
  {
    q := r / d;
    assert d * (q + 1) == d * q + d;
  }

  /** Aligning the last address of the address space yields 2^32 minus the alignment. */
  lemma TopOfMemory(align: u32)
    requires align > 0
    ensures AlignDown(WORD_MAX, align) == 0x1_0000_0000 - align
  {
    AndAllOnes(0x1_0000_0000 - align);
  }

  lemma AndAllOnes(a: u32)
    ensures And(WORD_MAX, a) == a
  {
    Pow2Values();
    AndCommutes(WORD_MAX, a);
    AndLowMask(a, 32);
    LowOfSmall(a, 32);
  }

  lemma {:induction false} AndCommutes(a: nat, b: nat)
    ensures And(a, b) == And(b, a)
  {
    if a != 0 && b != 0 {
      AndCommutes(a / 2, b / 2);
    }
  }

  lemma {:induction false} DivisorOfPower(a: nat, b: nat, m: nat) returns (k: nat)
    requires a * b == Pow2(m)
    ensures k <= m && a == Pow2(k)
    decreases m
  {
    if m == 0 {
      k := 0;
      FactorOfOne(a, b);
    } else if a % 2 == 0 {
      HalveProduct(a, b);
      k := DivisorOfPower(a / 2, b, m - 1);
      k := k + 1;
    } else {
      if b % 2 == 1 {
        OddTimesOdd(a, b);
      }
      HalveProduct(b, a);
      k := DivisorOfPower(a, b / 2, m - 1);
    }
  }

  lemma HalveProduct(a: nat, b: nat)
    requires a % 2 == 0
    ensures a * b == 2 * (a / 2 * b)
    ensures b * a == 2 * (b * (a / 2))
  {
  }

  lemma OddTimesOdd(a: nat, b: nat)
    requires a % 2 == 1 && b % 2 == 1
    ensures (a * b) % 2 == 1
  {
    var i, j := a / 2, b / 2;
    assert a * b == (2 * i + 1) * (2 * j + 1) == 2 * (2 * i * j + i + j) + 1;
  }

  lemma FactorOfOne(a: nat, b: nat)
    requires a * b == 1
    ensures a == 1
  {
    if a >= 2 {
      MultipleGap(a, b);
    }
  }
}
