/** 32-bit words and the C operators the kernel applies to them.

    A word is an integer below 2^32.  `And`, `Or` and `Not` are the C operators
    `&`, `|` and `~`, defined bit by bit; `Bit(w, k)` reads bit k. */
module Bits {

  type u32 = w: int | 0 <= w < 0x1_0000_0000

  const WORD_MAX: u32 := 0xffff_ffff

  /** 2^k, which is also the C expression `1 << k` for k < 32. */
  function Pow2(k: nat): (p: nat)
    ensures p >= 1
  {
    if k == 0 then 1 else 2 * Pow2(k - 1)
  }

  lemma Pow2Values()
    ensures Pow2(0) == 1 && Pow2(8) == 0x100 && Pow2(10) == 0x400 && Pow2(11) == 0x800 && Pow2(12) == 0x1000
    ensures Pow2(22) == 0x40_0000 && Pow2(32) == 0x1_0000_0000
  {
    assert Pow2(12) == 0x1000;
    assert Pow2(22) == 0x40_0000;
  }

  lemma {:induction false} Pow2Strict(j: nat, k: nat)
    requires j < k
    ensures Pow2(j) < Pow2(k)
    decreases k
  {
    if j < k - 1 {
      Pow2Strict(j, k - 1);
    }
  }

  predicate Bit(w: nat, k: nat) {
    if k == 0 then w % 2 == 1 else Bit(w / 2, k - 1)
  }

  function And(a: nat, b: nat): nat {
    if a == 0 || b == 0 then 0
    else 2 * And(a / 2, b / 2) + (if a % 2 == 1 && b % 2 == 1 then 1 else 0)
  }

  function Or(a: nat, b: nat): nat {
    if a == 0 && b == 0 then 0
    else 2 * Or(a / 2, b / 2) + (if a % 2 == 1 || b % 2 == 1 then 1 else 0)
  }

  function Not(a: u32): u32 {
    WORD_MAX - a
  }

  /** Unsigned 32-bit wrap-around. */
  function Wrap(n: int): u32 {
    n % 0x1_0000_0000
  }

  /** `a | b` on words. */
  function Join(a: u32, b: u32): u32 {
    Pow2Values();
    OrBound(a, b, 32);
    Or(a, b)
  }

  // ----- reading single bits

  lemma {:induction false} BitZero(k: nat)
    ensures !Bit(0, k)
  {
    if k > 0 {
      BitZero(k - 1);
    }
  }

  lemma {:induction false} BitAnd(a: nat, b: nat, k: nat)
    ensures Bit(And(a, b), k) <==> Bit(a, k) && Bit(b, k)
  {
    if a == 0 || b == 0 {
      BitZero(k);
    } else if k > 0 {
      assert And(a, b) / 2 == And(a / 2, b / 2);
      BitAnd(a / 2, b / 2, k - 1);
    }
  }

  lemma OrHalf(a: nat, b: nat)
    ensures Or(a, b) / 2 == Or(a / 2, b / 2)
    ensures Or(a, b) % 2 == 1 <==> a % 2 == 1 || b % 2 == 1
  {
  }

  lemma {:induction false} BitOr(a: nat, b: nat, k: nat)
    ensures Bit(Or(a, b), k) <==> Bit(a, k) || Bit(b, k)
  {
    hide Or;
    OrHalf(a, b);
    if k > 0 {
      BitOr(a / 2, b / 2, k - 1);
    }
  }

  lemma {:induction false} BitPow2(j: nat, k: nat)
    ensures Bit(Pow2(j), k) <==> j == k
  {
    if j == 0 && k > 0 {
      BitZero(k - 1);
    } else if j > 0 && k > 0 {
      BitPow2(j - 1, k - 1);
    }
  }

  /** Complementing the low n bits of a word flips each of them. */
  lemma {:induction false} BitComplement(a: nat, n: nat, k: nat)
    requires a < Pow2(n)
    ensures k < n ==> (Bit(Pow2(n) - 1 - a, k) <==> !Bit(a, k))
    decreases n
  {
    if 0 < k < n {
      assert (Pow2(n) - 1 - a) / 2 == Pow2(n - 1) - 1 - a / 2;
      BitComplement(a / 2, n - 1, k - 1);
    }
  }

  lemma BitNot(a: u32, k: nat)
    requires k < 32
    ensures Bit(Not(a), k) <==> !Bit(a, k)
  {
    Pow2Values();
    BitComplement(a, 32, k);
  }

  /** Two words below 2^n with the same n low bits are the same word. */
  lemma {:induction false} BitExtensional(a: nat, b: nat, n: nat)
    requires a < Pow2(n) && b < Pow2(n)
    requires forall k: nat :: k < n ==> (Bit(a, k) <==> Bit(b, k))
    ensures a == b
    decreases n
  {
    if n > 0 {
      assert Bit(a, 0) <==> Bit(b, 0);
      forall k: nat | k < n - 1
        ensures Bit(a / 2, k) <==> Bit(b / 2, k)
      {
        assert Bit(a, k + 1) <==> Bit(b, k + 1);
      }
      BitExtensional(a / 2, b / 2, n - 1);
    }
  }

  /** The C test `w & (1 << k)` is non-zero exactly when bit k is set. */
  lemma {:induction false} TestBit(w: nat, k: nat)
    ensures And(w, Pow2(k)) != 0 <==> Bit(w, k)
  {
    if w == 0 {
      BitZero(k);
    } else if k > 0 {
      TestBit(w / 2, k - 1);
    } else {
      assert And(w / 2, 0) == 0;
    }
  }

  // ----- size and arithmetic

  lemma {:induction false} OrBound(a: nat, b: nat, n: nat)
    requires a < Pow2(n) && b < Pow2(n)
    ensures Or(a, b) < Pow2(n)
    decreases n
  {
    if n > 0 && (a != 0 || b != 0) {
      OrBound(a / 2, b / 2, n - 1);
    }
  }

  lemma {:induction false} AndBound(a: nat, b: nat)
    ensures And(a, b) <= a && And(a, b) <= b
  {
    if a != 0 && b != 0 {
      AndBound(a / 2, b / 2);
    }
  }

  lemma {:induction false} OrCommutes(a: nat, b: nat)
    ensures Or(a, b) == Or(b, a)
  {
    if a != 0 || b != 0 {
      OrCommutes(a / 2, b / 2);
    }
  }

  lemma {:induction false} OrAssociative(a: nat, b: nat, c: nat)
    ensures Or(Or(a, b), c) == Or(a, Or(b, c))
    decreases a + b + c
  {
    if a + b + c > 0 {
      assert Or(a, b) / 2 == Or(a / 2, b / 2);
      assert Or(b, c) / 2 == Or(b / 2, c / 2);
      OrAssociative(a / 2, b / 2, c / 2);
    }
  }

  /** Joining a multiple of 2^n with a word below 2^n adds them. */
  lemma {:induction false} OrDisjoint(high: nat, low: nat, n: nat)
    requires high % Pow2(n) == 0 && low < Pow2(n)
    ensures Or(high, low) == high + low
    decreases n
  {
    if n == 0 {
      OrZero(high);
    } else if high != 0 || low != 0 {
      HalveMultiple(high, Pow2(n - 1));
      OrDisjoint(high / 2, low / 2, n - 1);
    }
  }

  lemma {:induction false} OrZero(a: nat)
    ensures Or(a, 0) == a
  {
    if a != 0 {
      OrZero(a / 2);
    }
  }

  lemma HalveMultiple(a: nat, p: nat)
    requires p >= 1
    requires a % (2 * p) == 0
    ensures a % 2 == 0 && (a / 2) % p == 0
  {
    var q := a / (2 * p);
    assert a == (2 * p) * q;
    assert a == 2 * (p * q);
    assert a / 2 == p * q;
    MultipleHasNoRemainder(q, p);
  }

  lemma MultipleHasNoRemainder(q: nat, p: nat)
    requires p >= 1
    ensures (p * q) % p == 0
  {
    RemainderUnique(p * q, p, q, 0);
  }

  /** The n low bits of a, as a number. */
  function Low(a: nat, n: nat): (r: nat)
    ensures r <= a
  {
    if n == 0 then 0 else 2 * Low(a / 2, n - 1) + a % 2
  }

  lemma LowStep(a: nat, n: nat)
    requires n > 0
    ensures a - Low(a, n) == 2 * (a / 2 - Low(a / 2, n - 1))
  {
  }

  lemma {:induction false} LowIsRemainder(a: nat, n: nat)
    ensures Low(a, n) == a % Pow2(n)
    decreases n
  {
    if n > 0 {
      LowIsRemainder(a / 2, n - 1);
      RemainderStep(a, Pow2(n - 1));
    }
  }

  lemma {:induction false} LowOfSmall(a: nat, n: nat)
    requires a < Pow2(n)
    ensures Low(a, n) == a
    decreases n
  {
    if n > 0 {
      LowOfSmall(a / 2, n - 1);
    }
  }

  lemma AndUnfold(a: nat, b: nat)
    ensures And(a, b) == 2 * And(a / 2, b / 2) + (if a % 2 == 1 && b % 2 == 1 then 1 else 0)
  {
  }

  lemma AndEven(a: nat, b: nat)
    ensures And(a, 2 * b) == 2 * And(a / 2, b)
  {
    hide And;
    EvenHalves(b);
    AndUnfold(a, 2 * b);
  }

  lemma EvenHalves(b: nat)
    ensures 2 * b / 2 == b && 2 * b % 2 == 0
  {
  }

  /** Masking with 2^n - 1 keeps the n low bits. */
  lemma {:induction false} AndLowMask(a: nat, n: nat)
    ensures And(a, Pow2(n) - 1) == Low(a, n)
    decreases n
  {
    if n > 0 {
      var p := Pow2(n - 1);
      AndUnfold(a, 2 * p - 1);
      assert (2 * p - 1) / 2 == p - 1;
      AndLowMask(a / 2, n - 1);
    }
  }

  /** Clearing the n low bits of a word below 2^m. */
  lemma {:induction false} AndHighMask(a: nat, n: nat, m: nat)
    requires n <= m && a < Pow2(m)
    ensures Pow2(n) <= Pow2(m)
    ensures And(a, Pow2(m) - Pow2(n)) == a - Low(a, n)
    decreases m
  {
    hide And, Low, Pow2;
    if n == 0 {
      AndAllButNothing(a, m);
    } else {
      Pow2Step(n);
      Pow2Step(m);
      HalfIsLess(a, Pow2(m - 1));
      AndHighMask(a / 2, n - 1, m - 1);
      AndDoubled(a, n, Pow2(m - 1) - Pow2(n - 1));
      assert Pow2(m) - Pow2(n) == 2 * (Pow2(m - 1) - Pow2(n - 1));
    }
  }

  lemma AndAllButNothing(a: nat, m: nat)
    requires a < Pow2(m)
    ensures And(a, Pow2(m) - Pow2(0)) == a - Low(a, 0) && Pow2(0) <= Pow2(m)
  {
    AndLowMask(a, m);
    LowOfSmall(a, m);
  }

  lemma AndDoubled(a: nat, n: nat, mask: nat)
    requires n > 0 && And(a / 2, mask) == a / 2 - Low(a / 2, n - 1)
    ensures And(a, 2 * mask) == a - Low(a, n)
  {
    hide And, Low;
    AndEven(a, mask);
    LowStep(a, n);
  }

  lemma Pow2Step(k: nat)
    requires k > 0
    ensures Pow2(k) == 2 * Pow2(k - 1)
  {
  }

  lemma HalfIsLess(a: nat, p: nat)
    requires a < 2 * p
    ensures a / 2 < p
  {
  }

  /** `w & ~0xfff` clears the offset into a page. */
  lemma AndPageMask(w: u32)
    ensures And(w, Not(0xfff)) == w - w % 0x1000
  {
    Pow2Values();
    AndHighMask(w, 12, 32);
    LowIsRemainder(w, 12);
  }

  lemma AndTableMask(w: nat)
    ensures And(w, 0x3ff) == w % 0x400
  {
    Pow2Values();
    AndLowMask(w, 10);
    LowIsRemainder(w, 10);
  }

  /** Joining a page address with a word below the page size adds them. */
  lemma OrPage(page: nat, low: nat)
    requires page % 0x1000 == 0 && low < 0x1000
    ensures Or(page, low) == page + low
  {
    Pow2Values();
    OrDisjoint(page, low, 12);
  }

  lemma OrBelowPage(a: nat, b: nat)
    requires a < 0x1000 && b < 0x1000
    ensures Or(a, b) < 0x1000
  {
    Pow2Values();
    OrBound(a, b, 12);
  }

  lemma RemainderStep(a: nat, p: nat)
    requires p >= 1
    ensures a % (2 * p) == 2 * ((a / 2) % p) + a % 2
  {
    var q, r := (a / 2) / p, (a / 2) % p;
    assert a / 2 == p * q + r;
    assert a == (2 * p) * q + (2 * r + a % 2);
    RemainderUnique(a, 2 * p, q, 2 * r + a % 2);
  }

  lemma RemainderUnique(a: int, p: int, q: int, r: int)
    requires 0 <= r < p
    requires a == p * q + r
    ensures a / p == q && a % p == r
  {
    var q', r' := a / p, a % p;
    assert a == p * q' + r';
    assert p * (q - q') == r' - r;
    MultipleGap(p, q - q');
  }

  lemma MultipleGap(p: int, d: int)
    requires p > 0
    ensures d >= 1 ==> p * d >= p
    ensures d <= -1 ==> p * d <= -p
    ensures d == 0 ==> p * d == 0
  {
    if d >= 1 {
      assert p * d == p * (d - 1) + p;
    } else if d <= -1 {
      assert p * d == p * (d + 1) - p;
    }
  }
}
