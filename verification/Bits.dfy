/** Unsigned 64-bit words and the bit operations of C on them, on mathematical integers.

    `And` and `Or` are the bitwise operators.  The lemmas turn every mask that the kernel
    uses into division and remainder, so that the rest of the model can reason linearly. */
module Bits {
  const WORD_LIMIT: nat := 0x1_0000_0000_0000_0000

  type Word = w: nat | w < WORD_LIMIT

  function And(a: nat, b: nat): nat {
    if a == 0 || b == 0 then 0
    else 2 * And(a / 2, b / 2) + (if a % 2 == 1 && b % 2 == 1 then 1 else 0)
  }

  function Or(a: nat, b: nat): nat {
    if a == 0 then b
    else if b == 0 then a
    else 2 * Or(a / 2, b / 2) + (if a % 2 == 1 || b % 2 == 1 then 1 else 0)
  }

  // The 64-bit complement `~a`.
  function Not(a: Word): Word {
    WORD_LIMIT - 1 - a
  }

  // The k low bits of a, a shifted right by k, and a shifted left by k, bit by bit.
  function Low(a: nat, k: nat): nat {
    if k == 0 then 0 else a % 2 + 2 * Low(a / 2, k - 1)
  }

  function High(a: nat, k: nat): nat {
    if k == 0 then a else High(a / 2, k - 1)
  }

  function Left(a: nat, k: nat): nat {
    if k == 0 then a else 2 * Left(a, k - 1)
  }

  lemma AndStep(a: nat, b: nat)
    ensures And(a, b) == 2 * And(a / 2, b / 2) + (if a % 2 == 1 && b % 2 == 1 then 1 else 0)
  {
  }

  lemma OrStep(a: nat, b: nat)
    ensures Or(a, b) == 2 * Or(a / 2, b / 2) + (if a % 2 == 1 || b % 2 == 1 then 1 else 0)
  {
  }

  lemma {:induction false} AndSplit(a: nat, b: nat, k: nat)
    ensures And(a, b) == And(Low(a, k), Low(b, k)) + Left(And(High(a, k), High(b, k)), k)
  {
    if k > 0 {
      AndSplit(a / 2, b / 2, k - 1);
      AndStep(a, b);
      AndStep(Low(a, k), Low(b, k));
      assert Low(a, k) / 2 == Low(a / 2, k - 1) && Low(b, k) / 2 == Low(b / 2, k - 1);
      assert Low(a, k) % 2 == a % 2 && Low(b, k) % 2 == b % 2;
    }
  }

  lemma {:induction false} OrSplit(a: nat, b: nat, k: nat)
    ensures Or(a, b) == Or(Low(a, k), Low(b, k)) + Left(Or(High(a, k), High(b, k)), k)
  {
    if k > 0 {
      OrSplit(a / 2, b / 2, k - 1);
      OrStep(a, b);
      OrStep(Low(a, k), Low(b, k));
      assert Low(a, k) / 2 == Low(a / 2, k - 1) && Low(b, k) / 2 == Low(b / 2, k - 1);
      assert Low(a, k) % 2 == a % 2 && Low(b, k) % 2 == b % 2;
    }
  }

  lemma SplitAt2(a: nat)
    ensures High(a, 2) == a / 4 && Low(a, 2) == a % 4
    ensures Left(a, 2) == 4 * a
  {
    assert High(a, 2) == High(a / 2, 1) == High(a / 2 / 2, 0);
    assert Low(a, 2) == a % 2 + 2 * Low(a / 2, 1);
    assert Low(a / 2, 1) == a / 2 % 2 + 2 * Low(a / 2 / 2, 0);
    assert Left(a, 2) == 2 * Left(a, 1) && Left(a, 1) == 2 * Left(a, 0);
  }

  // Splitting at 4, 8 and 12 bits, in terms of division.
  lemma SplitAt4(a: nat)
    ensures High(a, 4) == a / 16 && Low(a, 4) == a % 16
    ensures Left(a, 4) == 16 * a
  {
    hide Low, High, Left;
    SplitTwice(a, 2, 2);
    SplitAt2(a);
    SplitAt2(a / 4);
    SplitAt2(a / 4 % 4);
    SplitAt2(4 * a);
  }

  lemma {:induction false} SplitTwice(a: nat, j: nat, k: nat)
    ensures High(a, j + k) == High(High(a, j), k)
    ensures Low(a, j + k) == Low(a, j) + Left(Low(High(a, j), k), j)
    ensures Left(a, j + k) == Left(Left(a, k), j)
  {
    if j > 0 {
      SplitTwice(a / 2, j - 1, k);
      SplitTwice(a, j - 1, k);
    }
  }

  lemma SplitAt8(a: nat)
    ensures High(a, 8) == a / 0x100 && Low(a, 8) == a % 0x100
    ensures Left(a, 8) == 0x100 * a
  {
    hide Low, High, Left;
    SplitTwice(a, 4, 4);
    SplitAt4(a);
    SplitAt4(a / 16);
    SplitAt4(a / 16 % 16);
    SplitAt4(16 * a);
  }

  lemma SplitAt12(a: nat)
    ensures High(a, 12) == a / 0x1000 && Low(a, 12) == a % 0x1000
    ensures Left(a, 12) == 0x1000 * a
  {
    hide Low, High, Left;
    SplitTwice(a, 4, 8);
    SplitAt4(a);
    SplitAt8(a);
    SplitAt8(a / 16);
    SplitAt4(a / 16 % 0x100);
    SplitAt4(0x100 * a);
  }

  // The mask of k ones.
  function Ones(k: nat): nat {
    if k == 0 then 0 else 1 + 2 * Ones(k - 1)
  }

  lemma {:induction false} AndOnes(a: nat, k: nat)
    ensures And(a, Ones(k)) == Low(a, k) <= Ones(k)
    ensures a <= Ones(k) ==> Low(a, k) == a && High(a, k) == 0
  {
    if k > 0 {
      AndOnes(a / 2, k - 1);
      AndStep(a, Ones(k));
    }
  }

  lemma OnesAre()
    ensures Ones(9) == 0x1ff && Ones(12) == 0xfff && Ones(52) == 0xf_ffff_ffff_ffff
  {
    OnesPlus4(0); OnesPlus4(4); OnesPlus4(8); OnesPlus4(12); OnesPlus4(16); OnesPlus4(20);
    OnesPlus4(24); OnesPlus4(28); OnesPlus4(32); OnesPlus4(36); OnesPlus4(40); OnesPlus4(44);
    OnesPlus4(48);
    assert Ones(9) == 1 + 2 * Ones(8);
  }

  lemma Ones62()
    ensures Ones(62) == 0x3fff_ffff_ffff_ffff
  {
    OnesAre();
    OnesPlus4(52); OnesPlus4(56);
    assert Ones(62) == 1 + 2 * Ones(61) && Ones(61) == 1 + 2 * Ones(60);
  }

  lemma OnesPlus4(k: nat)
    ensures Ones(k + 4) == 15 + 16 * Ones(k)
  {
    assert Ones(k + 4) == 1 + 2 * Ones(k + 3);
    assert Ones(k + 3) == 1 + 2 * Ones(k + 2);
    assert Ones(k + 2) == 1 + 2 * Ones(k + 1);
  }

  // x & 0xfff, x & 0x1ff and x & ~0xfff
  lemma PageOffsetMask(x: Word)
    ensures And(x, 0xfff) == x % 0x1000
  {
    hide And, Low, High, Left, Ones;
    OnesAre();
    AndOnes(x, 12);
    SplitAt12(x);
  }

  lemma ByteMask(x: nat)
    ensures And(x, 0xff) == x % 0x100
  {
    hide And, Low, High, Left;
    OnesAre();
    assert Ones(9) == 1 + 2 * Ones(8);
    AndOnes(x, 8);
    SplitAt8(x);
  }

  lemma IndexMask(x: nat)
    ensures And(x, 0x1ff) == x % 0x200
  {
    hide And, Low, High, Left, Ones;
    AndStep(x, 0x1ff);
    ByteMask(x / 2);
  }

  lemma AndAbove(x: nat, b: nat, k: nat)
    requires Low(b, k) == 0
    ensures And(x, b) == Left(And(High(x, k), High(b, k)), k)
  {
    AndSplit(x, b, k);
  }

  lemma PageMask(x: Word)
    ensures And(x, 0xffff_ffff_ffff_f000) == x - x % 0x1000
  {
    hide And, Low, High, Left, Ones;
    var b: nat := 0xffff_ffff_ffff_f000;
    assert Low(b, 12) == 0 && High(b, 12) == Ones(52) by {
      SplitAt12(b);
      OnesAre();
    }
    AndAbove(x, b, 12);
    PageNumberMask(x);
    SplitAt12(x / 0x1000);
  }

  lemma PageNumberMask(x: Word)
    ensures High(x, 12) == x / 0x1000 && And(x / 0x1000, Ones(52)) == x / 0x1000
  {
    hide And, Low, High, Left, Ones;
    SplitAt12(x);
    OnesAre();
    AndOnes(x / 0x1000, 52);
  }

  // Single bits of an entry: present, writable, user, huge.
  lemma Bit3Mask(y: nat)
    ensures And(y, 8) == 8 * (y / 8 % 2)
  {
    hide And;
    AndStep(y, 8);
    AndStep(y / 2, 4);
    AndStep(y / 4, 2);
    BitMask(y / 8);
  }

  lemma Bit7Mask(x: nat)
    ensures And(x, 0x80) == 16 * And(x / 16, 8)
  {
    hide And;
    AndEven(x, 0x40);
    AndEven(x / 2, 0x20);
    AndEven(x / 4, 0x10);
    AndEven(x / 8, 8);
    assert x / 2 / 2 == x / 4 && x / 4 / 2 == x / 8 && x / 8 / 2 == x / 16;
  }

  lemma HugeMask(x: nat)
    ensures And(x, 0x80) == 0x80 * (x / 0x80 % 2)
  {
    hide And;
    Bit7Mask(x);
    Bit3Mask(x / 16);
  }

  lemma BitMask(x: nat)
    ensures And(x, 1) == x % 2
  {
    AndStep(x, 1);
  }

  // x & ~2
  lemma ClearBit1(x: Word)
    ensures And(x, 0xffff_ffff_ffff_fffd) == x - 2 * (x / 2 % 2)
  {
    hide And, Low, High, Left, Ones;
    AndStep(x, 0xffff_ffff_ffff_fffd);
    AndEven(x / 2, 0x3fff_ffff_ffff_ffff);
    Ones62();
    AndOnes(x / 2 / 2, 62);
  }

  lemma AndEven(x: nat, b: nat)
    ensures And(x, 2 * b) == 2 * And(x / 2, b)
  {
    hide And;
    AndStep(x, 2 * b);
  }

  // x | 1, x | 2, and x | 6 where neither bit is set
  lemma SetPresent(x: nat)
    ensures Or(x, 1) == x + (1 - x % 2)
  {
    OrStep(x, 1);
  }

  lemma SetWritable(x: nat)
    ensures Or(x, 2) == x + 2 * (1 - x / 2 % 2)
  {
    hide Or;
    OrStep(x, 2);
    SetPresent(x / 2);
  }

  // rflags | 0x200
  lemma SetInterruptFlag(x: Word)
    ensures Or(x, 0x200) % 0x1_0000_0000_0000_0000 == x + (if x / 0x200 % 2 == 1 then 0 else 0x200)
  {
    hide Or, Low, High, Left;
    OrSplit(x, 0x200, 8);
    SplitAt8(x);
    SplitAt8(0x200);
    SplitAt8(Or(x / 0x100, 2));
    OrZero(x % 0x100);
    SetWritable(x / 0x100);
    assert x / 0x100 / 2 == x / 0x200;
    assert x == 0x100 * (x / 0x100) + x % 0x100;
    BelowWord(x);
  }

  // Setting a clear bit stays within the word.
  lemma BelowWord(x: Word)
    ensures x / 0x200 % 2 == 0 ==> x + 0x200 < WORD_LIMIT
  {
    var q := x / 0x400;
    assert x / 0x200 == 2 * q + x / 0x200 % 2;
  }

  lemma SetUserWritable(q: nat)
    ensures Or(8 * q + 1, 6) == 8 * q + 7
  {
    hide Or;
    OrStep(8 * q + 1, 6);
    Halved(4 * q, 1);
    OrStep(4 * q, 3);
    Halved(2 * q, 0);
    OrStep(2 * q, 1);
    Halved(q, 0);
    OrZero(q);
  }

  lemma Halved(n: nat, bit: nat)
    requires bit < 2
    ensures (2 * n + bit) / 2 == n && (2 * n + bit) % 2 == bit
  {
  }

  lemma OrZero(a: nat)
    ensures Or(a, 0) == a
  {
  }

  // A page-aligned address or'ed with bits below the page size.
  lemma OrBelowPage(p: nat, b: nat)
    requires p % 0x1000 == 0 && b < 0x1000
    ensures Or(p, b) == p + b
  {
    hide Low, High, Left;
    OrSplit(p, b, 12);
    SplitAt12(p);
    SplitAt12(b);
    SplitAt12(p / 0x1000);
  }

  // Both operands below the page size, but for a page-aligned part.
  lemma OrWithinPage(p: nat, a: nat, b: nat)
    requires p % 0x1000 == 0 && a < 0x1000 && b < 0x1000
    ensures Or(p + a, b) == p + Or(a, b)
  {
    hide Low, High, Left;
    assert (p + a) / 0x1000 == p / 0x1000 && (p + a) % 0x1000 == a;
    assert Or(p / 0x1000, 0) == p / 0x1000;
    hide Or;
    OrSplit(p + a, b, 12);
    SplitAt12(p + a);
    SplitAt12(b);
    SplitAt12(p / 0x1000);
  }

  // Bits below position k and bits from k on do not overlap.
  lemma {:induction false} OrAbove(p: nat, b: nat, k: nat)
    requires p <= Ones(k)
    ensures Or(p, Left(b, k)) == p + Left(b, k)
  {
    if k > 0 {
      OrStep(p, Left(b, k));
      OrAbove(p / 2, b, k - 1);
    }
  }

  lemma {:induction false} OrCommutes(a: nat, b: nat)
    ensures Or(a, b) == Or(b, a)
  {
    if a > 0 && b > 0 {
      OrCommutes(a / 2, b / 2);
    }
  }

  // (p << 9) | i
  lemma OrIndex(p: nat, i: nat)
    requires i < 512
    ensures Or(512 * p, i) == 512 * p + i
  {
    hide Or, Left, Ones;
    OnesAre();
    OrAbove(i, p, 9);
    Left9(p);
    OrCommutes(512 * p, i);
  }

  lemma Left9(x: nat)
    ensures Left(x, 9) == 512 * x
  {
    hide Low, High;
    SplitAt8(x);
    assert Left(x, 9) == 2 * Left(x, 8);
  }

  lemma {:induction false} OrAboveBoth(p: nat, b: nat, k: nat)
    requires p <= Ones(k)
    ensures Or(p + Left(b, k), Left(b, k)) == p + Left(b, k)
  {
    if k > 0 {
      var x := p + Left(b, k);
      OrStep(x, Left(b, k));
      assert x / 2 == p / 2 + Left(b, k - 1);
      OrAboveBoth(p / 2, b, k - 1);
    } else {
      OrSelf(b);
    }
  }

  lemma {:induction false} OrSelf(a: nat)
    ensures Or(a, a) == a
  {
    if a > 0 {
      OrSelf(a / 2);
    }
  }

  lemma Left35(x: nat)
    ensures Left(x, 35) == 0x8_0000_0000 * x
  {
    hide Left, Low, High;
    SplitTwice(x, 12, 23);
    SplitTwice(x, 12, 11);
    Left11(x);
    SplitAt12(0x800 * x);
    SplitAt12(0x80_0000 * x);
  }

  lemma Left11(x: nat)
    ensures Left(x, 11) == 0x800 * x
  {
    SplitTwice(x, 8, 3);
    assert Left(x, 3) == 2 * Left(x, 2);
    SplitAt2(x);
    SplitAt8(8 * x);
  }

  lemma HigherHalf()
    ensures Left(0x1_ffff, 47) == 0xffff_8000_0000_0000
  {
    hide Left, Low, High;
    SplitTwice(0x1_ffff, 12, 35);
    Left35(0x1_ffff);
    SplitAt12(0x8_0000_0000 * 0x1_ffff);
  }

  lemma Ones47()
    ensures Ones(47) == 0x7fff_ffff_ffff
  {
    OnesPlus4(0); OnesPlus4(4); OnesPlus4(8); OnesPlus4(12); OnesPlus4(16); OnesPlus4(20);
    OnesPlus4(24); OnesPlus4(28); OnesPlus4(32); OnesPlus4(36); OnesPlus4(40);
    assert Ones(47) == 1 + 2 * Ones(46) && Ones(46) == 1 + 2 * Ones(45) && Ones(45) == 1 + 2 * Ones(44);
  }
}
