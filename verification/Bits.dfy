/** Bitwise or and and on natural numbers, and the two masks the kernel applies to table entries. */
module Bits {
  import opened Products

  function BitOr(a: nat, b: nat): nat
    decreases a + b
  {
    if a == 0 && b == 0 then 0
    else 2 * BitOr(a / 2, b / 2) + (if a % 2 == 1 || b % 2 == 1 then 1 else 0)
  }

  function BitAnd(a: nat, b: nat): nat
    decreases a + b
  {
    if a == 0 && b == 0 then 0
    else 2 * BitAnd(a / 2, b / 2) + (if a % 2 == 1 && b % 2 == 1 then 1 else 0)
  }

  function Pow2(k: nat): (p: nat)
    ensures 1 <= p
  {
    if k == 0 then 1 else 2 * Pow2(k - 1)
  }

  /** The k lowest bits, one at a time. */
  function Low(x: nat, k: nat): nat {
    if k == 0 then 0 else 2 * Low(x / 2, k - 1) + x % 2
  }

  lemma {:induction false} LowSplit(x: nat, k: nat) returns (q: nat)
    ensures x == q * Pow2(k) + Low(x, k) && Low(x, k) < Pow2(k)
  {
    if k == 0 {
      q := x;
    } else {
      q := LowSplit(x / 2, k - 1);
      assert q * Pow2(k) == 2 * (q * Pow2(k - 1));
    }
  }

  lemma {:induction false} LowMask(x: nat, k: nat)
    ensures BitAnd(x, Pow2(k) - 1) == Low(x, k)
  {
    if k == 0 {
      AndZero(x);
    } else {
      LowMask(x / 2, k - 1);
      assert (Pow2(k) - 1) / 2 == Pow2(k - 1) - 1;
    }
  }

  lemma {:induction false} AndZero(x: nat)
    ensures BitAnd(x, 0) == 0
  {
    if x != 0 { AndZero(x / 2); }
  }

  /** The mask of bits k to n - 1. */
  function HighOnes(n: nat, k: nat): nat
    requires k <= n
  {
    if k == 0 then Pow2(n) - 1 else 2 * HighOnes(n - 1, k - 1)
  }

  /** Clearing the k low bits of an n-bit number. */
  lemma {:induction false} HighMask(x: nat, n: nat, k: nat)
    requires k <= n && x < Pow2(n)
    ensures BitAnd(x, HighOnes(n, k)) == x - Low(x, k)
  {
    if k == 0 {
      LowMask(x, n);
      LowOfSmall(x, n);
    } else {
      HighMask(x / 2, n - 1, k - 1);
    }
  }

  lemma {:induction false} LowOfSmall(x: nat, n: nat)
    requires x < Pow2(n)
    ensures Low(x, n) == x
  {
    if n != 0 { LowOfSmall(x / 2, n - 1); }
  }

  lemma {:induction false} OrZero(x: nat)
    ensures BitOr(0, x) == x == BitOr(x, 0)
  {
    if x != 0 { OrZero(x / 2); }
  }

  /** Or-ing into the k low bits leaves the higher bits alone. */
  lemma {:induction false} OrLow(a: nat, b: nat, c: nat, k: nat)
    requires Low(a, k) == 0 && b < Pow2(k) && c < Pow2(k)
    ensures BitOr(a + b, c) == a + BitOr(b, c)
    ensures BitOr(b, c) < Pow2(k)
  {
    if k == 0 {
      OrZero(a);
    } else {
      assert a % 2 == 0 && (a + b) / 2 == a / 2 + b / 2;
      OrLow(a / 2, b / 2, c / 2, k - 1);
    }
  }

  // ----- The same with remainders; m is the k-th power of two

  lemma LowIs(x: nat, k: nat, m: nat)
    requires m == Pow2(k)
    ensures Low(x, k) == x % m
  {
    var q := LowSplit(x, k);
    TimesIs(q, m);
    DivModUnique(x, m, q, Low(x, k));
  }

  lemma AndLow(x: nat, k: nat, m: nat)
    requires m == Pow2(k)
    ensures BitAnd(x, m - 1) == x % m
  {
    LowMask(x, k);
    LowIs(x, k, m);
  }

  lemma {:induction false} HighOnesIs(n: nat, k: nat)
    requires k <= n
    ensures HighOnes(n, k) == Pow2(n) - Pow2(k)
  {
    if k != 0 { HighOnesIs(n - 1, k - 1); }
  }

  lemma AndHigh(x: nat, n: nat, k: nat, whole: nat, m: nat)
    requires k <= n && whole == Pow2(n) && m == Pow2(k) && x < whole
    ensures m <= whole && BitAnd(x, whole - m) == x - x % m
  {
    HighOnesIs(n, k);
    HighMask(x, n, k);
    LowIs(x, k, m);
  }

  lemma OrBelow(a: nat, b: nat, c: nat, k: nat, m: nat)
    requires m == Pow2(k) && a % m == 0 && b < m && c < m
    ensures BitOr(a + b, c) == a + BitOr(b, c)
    ensures BitOr(b, c) < m
  {
    LowIs(a, k, m);
    OrLow(a, b, c, k);
  }

  lemma {:induction false} OrSwap(a: nat, b: nat)
    ensures BitOr(a, b) == BitOr(b, a)
    decreases a + b
  {
    if a != 0 || b != 0 { OrSwap(a / 2, b / 2); }
  }

  /** Numbers whose bits lie apart: or is addition. */
  lemma OrAdds(a: nat, b: nat, k: nat, m: nat)
    requires m == Pow2(k) && a % m == 0 && b < m
    ensures BitOr(a, b) == a + b == BitOr(b, a)
  {
    LowIs(a, k, m);
    OrLow(a, 0, b, k);
    OrZero(b);
    OrSwap(a, b);
  }

  lemma Powers()
    ensures Pow2(4) == 16 && Pow2(8) == 256 && Pow2(12) == 4096 && Pow2(32) == 0x1_0000_0000
  {
    assert Pow2(8) == 0x100;
    assert Pow2(16) == 0x1_0000;
    assert Pow2(24) == 0x100_0000;
  }

  lemma Half(x: nat, r: nat)
    requires r < 2
    ensures (2 * x + r) / 2 == x
  {
  }

  // ----- Bit by bit

  /** Bit k of a number, 0 or 1. */
  function Bit(x: nat, k: nat): (b: nat)
    ensures b <= 1
  {
    if k == 0 then x % 2 else Bit(x / 2, k - 1)
  }

  lemma {:induction false} OrBits(a: nat, b: nat, k: nat)
    ensures Bit(BitOr(a, b), k) == if Bit(a, k) == 1 || Bit(b, k) == 1 then 1 else 0
  {
    if a == 0 && b == 0 {
      ZeroBits(k);
    } else {
      var digit := if a % 2 == 1 || b % 2 == 1 then 1 else 0;
      Half(BitOr(a / 2, b / 2), digit);
      if k != 0 { OrBits(a / 2, b / 2, k - 1); }
    }
  }

  lemma {:induction false} AndBits(a: nat, b: nat, k: nat)
    ensures Bit(BitAnd(a, b), k) == if Bit(a, k) == 1 && Bit(b, k) == 1 then 1 else 0
  {
    if a == 0 && b == 0 {
      ZeroBits(k);
    } else {
      var digit := if a % 2 == 1 && b % 2 == 1 then 1 else 0;
      Half(BitAnd(a / 2, b / 2), digit);
      if k != 0 { AndBits(a / 2, b / 2, k - 1); }
    }
  }

  lemma {:induction false} ZeroBits(k: nat)
    ensures Bit(0, k) == 0
  {
    if k != 0 { ZeroBits(k - 1); }
  }

  /** The n low bits of a number are its own, and the others are zero. */
  lemma {:induction false} BitsOfLow(x: nat, n: nat, k: nat)
    ensures Bit(Low(x, n), k) == if k < n then Bit(x, k) else 0
  {
    if n == 0 {
      ZeroBits(k);
    } else {
      Half(Low(x / 2, n - 1), x % 2);
      if k != 0 { BitsOfLow(x / 2, n - 1, k - 1); }
    }
  }

  lemma BitsOfRemainder(x: nat, n: nat, m: nat, k: nat)
    requires m == Pow2(n)
    ensures Bit(x % m, k) == if k < n then Bit(x, k) else 0
  {
    LowIs(x, n, m);
    BitsOfLow(x, n, k);
  }

  /** Two numbers with the same bits are the same. */
  lemma {:induction false} BitsDetermine(x: nat, y: nat)
    requires forall k: nat :: Bit(x, k) == Bit(y, k)
    ensures x == y
    decreases x + y
  {
    assert Bit(x, 0) == Bit(y, 0);
    if x != 0 || y != 0 {
      forall k: nat ensures Bit(x / 2, k) == Bit(y / 2, k) { assert Bit(x, k + 1) == Bit(y, k + 1); }
      BitsDetermine(x / 2, y / 2);
    }
  }

  // ----- The masks of 4 KiB pages

  lemma PageMasks(x: nat)
    requires x < 0x1_0000_0000
    ensures BitAnd(x, 0xfff) == x % 4096
    ensures BitAnd(x, 0xfffff000) == x - x % 4096
  {
    Powers();
    AndLow(x, 12, 4096);
    AndHigh(x, 32, 12, 0x1_0000_0000, 4096);
  }

  lemma PageOr(base: nat, b: nat, c: nat)
    requires base % 4096 == 0 && b < 4096 && c < 4096
    ensures BitOr(base + b, c) == base + BitOr(b, c)
    ensures BitOr(b, c) < 4096
  {
    Powers();
    OrBelow(base, b, c, 12, 4096);
  }

  lemma PageOr1(base: nat, a: nat)
    requires base % 4096 == 0 && a < 4096
    ensures BitOr(base, a) == base + a
  {
    Powers();
    OrAdds(base, a, 12, 4096);
  }

  lemma PageOr2(base: nat, a: nat, b: nat)
    requires base % 4096 == 0 && a < 4096 && b < 4096
    ensures BitOr(BitOr(base, a), b) == base + BitOr(a, b)
    ensures BitOr(a, b) < 4096
  {
    PageOr1(base, a);
    PageOr(base, a, b);
  }

  lemma PageOr3(base: nat, a: nat, b: nat, c: nat)
    requires base % 4096 == 0 && a < 4096 && b < 4096 && c < 4096
    ensures BitOr(BitOr(BitOr(base, a), b), c) == base + BitOr(BitOr(a, b), c)
    ensures BitOr(BitOr(a, b), c) < 4096
  {
    PageOr2(base, a, b);
    PageOr(base, BitOr(a, b), c);
  }

  lemma OrOne(f: nat)
    ensures BitOr(f, 1) == 2 * (f / 2) + 1
  {
    OrZero(f / 2);
  }

  lemma Quarters(f: nat)
    ensures 2 * (2 * (f / 2 / 2)) == f - f % 4
  {
  }

  /** Setting the two lowest bits, one after the other. */
  lemma OrTwoOrOne(f: nat)
    ensures BitOr(BitOr(f, 2), 1) == f - f % 4 + 3
  {
    OrOne(f / 2);
    var g := BitOr(f, 2);
    assert g == 2 * BitOr(f / 2, 1) + f % 2;
    Half(BitOr(f / 2, 1), f % 2);
    OrOne(g);
    Quarters(f);
  }

  /** A page-aligned base or-ed with twelve flag bits, of which the two lowest are set. */
  lemma PageWord(base: nat, f: nat)
    requires base % 4096 == 0 && f < 4096
    ensures BitOr(BitOr(BitOr(base, f), 2), 1) == base + (f - f % 4 + 3)
  {
    PageOr3(base, f, 2, 1);
    OrTwoOrOne(f);
  }

  lemma OrWord(b: nat, c: nat)
    requires b < 0x1_0000_0000 && c < 0x1_0000_0000
    ensures BitOr(b, c) < 0x1_0000_0000
  {
    Powers();
    OrBelow(0, b, c, 32, 0x1_0000_0000);
  }
}
