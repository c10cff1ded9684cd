/**
  `align_up` for the two alignments the note tools pass it, 4 and 0x1000. The
  code masks the low bits off; the rest of the model uses the meaning of that,
  the smallest multiple not below the value.
 */
module Alignment {
  import opened Bits
  import opened Bytes

  const PAGE: nat := 0x1000

  /** The smallest multiple of 4 not below `x`. */
  function Align4(x: nat): (r: nat)
    ensures r % 4 == 0 && x <= r < x + 4
  {
    (x + 3) / 4 * 4
  }

  /** The smallest multiple of the page size not below `x`. */
  function AlignPage(x: nat): (r: nat)
    ensures r % PAGE == 0 && x <= r < x + PAGE
  {
    (x + 0xFFF) / 0x1000 * 0x1000
  }

  /** The expression the code evaluates, on 64-bit words. */
  function AlignUp(value: nat, alignment: nat): nat
    requires 0 < alignment <= Pow2(64)
  {
    And(W64(value + alignment - 1), Not(alignment - 1, 64))
  }

  /** The mask takes the low bits off the sum, for every power of two. */
  lemma AlignUpMasks(v: nat, k: nat)
    requires v < TWO_64 && k <= 64
    ensures Pow2(k) <= Pow2(64)
    ensures var sum := W64(v + Pow2(k) - 1); AlignUp(v, Pow2(k)) == Shl(Shr(sum, k), k)
  {
    hide W64, And, Shl, Shr, Low, Not;
    var sum := W64(v + Pow2(k) - 1);
    Powers();
    PowGrows(k, 64);
    HighMask(sum, k, 64);
    Split(sum, k);
  }

  /** To 4 bytes: the smallest multiple not below the value, or zero when the sum wraps. */
  lemma AlignUpFour(v: nat)
    requires v < TWO_64
    ensures 4 <= Pow2(64) && AlignUp(v, 4) == if v + 3 < TWO_64 then Align4(v) else 0
  {
    hide W64, And, Not, AlignUp, Shl, Shr;
    Powers();
    AlignUpMasks(v, 2);
    W64Once(v + 3);
    Quotients(W64(v + 3));
    Shifts(W64(v + 3) / 4);
  }

  /** To pages: the smallest multiple not below the value, or zero when the sum wraps. */
  lemma AlignUpPage(v: nat)
    requires v < TWO_64
    ensures 0x1000 <= Pow2(64) && AlignUp(v, 0x1000) == if v + 0xFFF < TWO_64 then AlignPage(v) else 0
  {
    hide W64, And, Not, AlignUp, Shl, Shr;
    Powers();
    AlignUpMasks(v, 12);
    W64Once(v + 0xFFF);
    Quotients(W64(v + 0xFFF));
    Shifts(W64(v + 0xFFF) / 0x1000);
  }

  lemma W64Once(x: nat)
    requires x < 2 * TWO_64
    ensures W64(x) == if x < TWO_64 then x else x - TWO_64
  {
  }
}
