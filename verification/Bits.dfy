/**
  Bitwise operators on words, as functions of natural numbers, and the arithmetic
  that the masks, shifts and alternatives of the sources amount to.
 */
module Bits {

  function Pow2(k: nat): (r: nat)
    ensures r > 0
  {
    if k == 0 then 1 else 2 * Pow2(k - 1)
  }

  function And(x: nat, y: nat): nat
    decreases x
  {
    if x == 0 then 0 else (if x % 2 == 1 && y % 2 == 1 then 1 else 0) + 2 * And(x / 2, y / 2)
  }

  function Or(x: nat, y: nat): nat
    decreases x + y
  {
    if x == 0 && y == 0 then 0 else (if x % 2 == 1 || y % 2 == 1 then 1 else 0) + 2 * Or(x / 2, y / 2)
  }

  /** The complement in a word of `width` bits. */
  function Not(x: nat, width: nat): nat
    requires x < Pow2(width)
  {
    Pow2(width) - 1 - x
  }

  function Shr(x: nat, k: nat): nat
    decreases k
  {
    if k == 0 then x else Shr(x / 2, k - 1)
  }

  function Shl(x: nat, k: nat): nat
    decreases k
  {
    if k == 0 then x else 2 * Shl(x, k - 1)
  }

  /** The value of the lowest `k` bits. */
  function Low(x: nat, k: nat): (r: nat)
    ensures r < Pow2(k)
    decreases k
  {
    if k == 0 then 0 else x % 2 + 2 * Low(x / 2, k - 1)
  }

  lemma {:induction false} Split(x: nat, k: nat)
    ensures x == Shl(Shr(x, k), k) + Low(x, k)
    decreases k
  {
    if k > 0 { Split(x / 2, k - 1); }
  }

  /** A mask of ones takes the low bits. */
  lemma {:induction false} LowMask(x: nat, k: nat)
    ensures And(x, Pow2(k) - 1) == Low(x, k)
    decreases k
  {
    if k == 0 {
      AndZero(x);
    } else {
      hide And, Low;
      LowMask(x / 2, k - 1);
      OnesHalf(k);
      AndHalf(x, Pow2(k) - 1);
      LowHalf(x, k);
      SameHalves(And(x, Pow2(k) - 1), Low(x, k));
    }
  }

  lemma AndHalf(x: nat, y: nat)
    ensures And(x, y) / 2 == And(x / 2, y / 2) && And(x, y) % 2 == if x % 2 == 1 && y % 2 == 1 then 1 else 0
  {
  }

  lemma {:induction false} AndZero(x: nat)
    ensures And(x, 0) == 0
  {
    if x != 0 { AndZero(x / 2); }
  }

  /** The complement of such a mask takes them off. */
  lemma {:induction false} HighMask(x: nat, k: nat, width: nat)
    requires k <= width && x < Pow2(width)
    ensures Pow2(k) <= Pow2(width) && And(x, Not(Pow2(k) - 1, width)) == x - Low(x, k)
    decreases k, width
  {
    PowGrows(k, width);
    if x == 0 {
      LowOfZero(k);
    } else {
      var mask := Not(Pow2(k) - 1, width);
      HighMask(x / 2, if k == 0 then 0 else k - 1, width - 1);
      if k == 0 {
        assert mask / 2 == Not(0, width - 1) && mask % 2 == 1;
      } else {
        assert mask / 2 == Not(Pow2(k - 1) - 1, width - 1) && mask % 2 == 0;
      }
    }
  }

  lemma {:induction false} LowOfZero(k: nat)
    ensures Low(0, k) == 0
  {
    if k > 0 { LowOfZero(k - 1); }
  }

  lemma {:induction false} PowGrows(k: nat, n: nat)
    requires k <= n
    ensures Pow2(k) <= Pow2(n)
  {
    if k < n { PowGrows(k, n - 1); }
  }

  lemma {:induction false} OrZero(x: nat)
    ensures Or(x, 0) == x && Or(0, x) == x
  {
    if x != 0 { OrZero(x / 2); }
  }

  /** Bits put below others are added. */
  lemma {:induction false} OrAdds(x: nat, y: nat, k: nat)
    requires y < Pow2(k)
    ensures Or(Shl(x, k), y) == Shl(x, k) + y
    decreases k
  {
    if k == 0 { OrZero(x); } else { OrAdds(x, y / 2, k - 1); }
  }

  /** A word of ones absorbs what fits into it. */
  lemma {:induction false} OrOnes(x: nat, n: nat)
    requires x < Pow2(n)
    ensures Or(Pow2(n) - 1, x) == Pow2(n) - 1
  {
    if n > 0 {
      hide Or;
      OrOnes(x / 2, n - 1);
      OnesHalf(n);
      OrHalf(Pow2(n) - 1, x);
      SameHalves(Or(Pow2(n) - 1, x), Pow2(n) - 1);
    } else {
      OrZero(0);
    }
  }

  lemma OnesHalf(n: nat)
    requires n > 0
    ensures (Pow2(n) - 1) / 2 == Pow2(n - 1) - 1 && (Pow2(n) - 1) % 2 == 1
  {
  }

  lemma SameHalves(a: nat, b: nat)
    ensures a / 2 == b / 2 && a % 2 == b % 2 ==> a == b
  {
  }

  /** Ones above the lowest `k` bits leave only those of the other side. */
  lemma {:induction false} OrAbsorbs(x: nat, n: nat, k: nat)
    requires x < Pow2(n + k)
    ensures Or(Shl(Pow2(n) - 1, k), x) == Shl(Pow2(n) - 1, k) + Low(x, k)
    decreases k
  {
    if k == 0 { OrOnes(x, n); } else { OrAbsorbs(x / 2, n, k - 1); }
  }

  lemma OrHalf(x: nat, y: nat)
    ensures Or(x, y) / 2 == Or(x / 2, y / 2) && Or(x, y) % 2 == if x % 2 == 1 || y % 2 == 1 then 1 else 0
  {
  }

  lemma LowHalf(x: nat, k: nat)
    requires k > 0
    ensures Low(x, k) / 2 == Low(x / 2, k - 1) && Low(x, k) % 2 == x % 2
  {
  }

  lemma {:induction false} LowOfLow(x: nat, j: nat, k: nat)
    requires j <= k
    ensures Low(Low(x, k), j) == Low(x, j)
    decreases j
  {
    if j > 0 {
      hide Low;
      LowOfLow(x / 2, j - 1, k - 1);
      LowHalf(x, k);
      LowHalf(x, j);
      LowHalf(Low(x, k), j);
      SameHalves(Low(Low(x, k), j), Low(x, j));
    }
  }

  /** An alternative takes the low bits of both sides apart from the rest. */
  lemma {:induction false} LowOfOr(x: nat, y: nat, k: nat)
    ensures Low(Or(x, y), k) == Or(Low(x, k), Low(y, k))
    decreases k
  {
    if k == 0 {
      OrZero(0);
    } else {
      hide Or, Low;
      LowOfOr(x / 2, y / 2, k - 1);
      OrHalf(x, y);
      OrHalf(Low(x, k), Low(y, k));
      LowHalf(x, k);
      LowHalf(y, k);
      LowHalf(Or(x, y), k);
    }
  }

  // Constants of the sources.

  lemma Powers()
    ensures Pow2(2) == 4 && Pow2(3) == 8 && Pow2(4) == 16 && Pow2(5) == 32 && Pow2(6) == 64 && Pow2(7) == 128
    ensures Pow2(8) == 256 && Pow2(12) == 0x1000 && Pow2(18) == 0x40000
    ensures Pow2(64) == 0x1_0000_0000_0000_0000
  {
    assert Pow2(4) == 16;
    assert Pow2(8) == 16 * Pow2(4);
    assert Pow2(12) == 16 * Pow2(8);
    assert Pow2(18) == 64 * Pow2(12);
    PowTimes(8, 256, 8);
    PowTimes(16, 0x1_0000, 16);
    PowTimes(32, 0x1_0000_0000, 32);
  }

  lemma {:induction false} PowTimes(a: nat, p: nat, b: nat)
    requires p == Pow2(a)
    ensures Pow2(a + b) == p * Pow2(b)
  {
    if b > 0 {
      PowTimes(a, p, b - 1);
      Doubled(p, Pow2(b - 1));
    }
  }

  lemma Doubled(p: nat, x: nat)
    ensures p * (2 * x) == 2 * (p * x)
  {
  }

  lemma {:induction false} ShlSum(x: nat, a: nat, b: nat)
    ensures Shl(x, a + b) == Shl(Shl(x, a), b)
    decreases b
  {
    if b > 0 { ShlSum(x, a, b - 1); }
  }

  /** Shifts of the sources as products and quotients, and their masks as rests. */
  lemma Shifts(x: nat)
    ensures Shl(x, 2) == 4 * x && Shl(x, 3) == 8 * x && Shl(x, 4) == 16 * x && Shl(x, 5) == 32 * x && Shl(x, 6) == 64 * x
    ensures Shl(x, 8) == 256 * x && Shl(x, 12) == 0x1000 * x && Shl(x, 18) == 0x40000 * x
  {
    hide Shl;
    ShlSmall(x);
    ShlSmall(16 * x);
    ShlSmall(64 * x);
    ShlSmall(0x1000 * x);
    ShlSum(x, 4, 4);
    ShlSum(x, 6, 6);
    ShlSum(x, 12, 6);
  }

  lemma ShlSmall(x: nat)
    ensures Shl(x, 2) == 4 * x && Shl(x, 3) == 8 * x && Shl(x, 4) == 16 * x && Shl(x, 5) == 32 * x && Shl(x, 6) == 64 * x
  {
  }

  lemma Quotients(x: nat)
    ensures Shr(x, 2) == x / 4 && Shr(x, 6) == x / 64 && Shr(x, 12) == x / 0x1000 && Shr(x, 18) == x / 0x40000
  {
    hide Shr, Shl, Low;
    Powers();
    Split(x, 2);
    Shifts(Shr(x, 2));
    Split(x, 6);
    Shifts(Shr(x, 6));
    Split(x, 12);
    Shifts(Shr(x, 12));
    Split(x, 18);
    Shifts(Shr(x, 18));
  }

  lemma LowThree(x: nat)
    ensures Low(x, 3) == x % 8
  {
    hide Shr, Shl, Low;
    Powers();
    Split(x, 3);
    ShlSmall(Shr(x, 3));
  }

  lemma LowFour(x: nat)
    ensures Low(x, 4) == x % 16
  {
    hide Shr, Shl, Low;
    Powers();
    Split(x, 4);
    ShlSmall(Shr(x, 4));
  }

  lemma LowFive(x: nat)
    ensures Low(x, 5) == x % 32
  {
    hide Shr, Shl, Low;
    Powers();
    Split(x, 5);
    ShlSmall(Shr(x, 5));
  }

  lemma LeadRests(x: nat)
    ensures Low(x, 3) == x % 8 && Low(x, 4) == x % 16 && Low(x, 5) == x % 32
  {
    hide Low;
    LowThree(x);
    LowFour(x);
    LowFive(x);
  }

  lemma LowSix(x: nat)
    ensures Low(x, 6) == x % 64
  {
    hide Shr, Shl, Low;
    Powers();
    Split(x, 6);
    ShlSmall(Shr(x, 6));
  }

  lemma LowByte(x: nat)
    ensures Low(x, 8) == x % 256
  {
    hide Shr, Shl, Low;
    Powers();
    Split(x, 8);
    ShlByte(Shr(x, 8));
  }

  lemma ShlByte(x: nat)
    ensures Shl(x, 8) == 256 * x
  {
    hide Shl;
    ShlSmall(x);
    ShlSmall(16 * x);
    ShlSum(x, 4, 4);
  }

  lemma ByteRests(x: nat)
    ensures Low(x, 6) == x % 64 && Low(x, 8) == x % 256
  {
    hide Low;
    LowSix(x);
    LowByte(x);
  }
}
