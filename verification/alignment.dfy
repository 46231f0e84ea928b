/** Padding an address to a power of two, as buddy_startup and the gap buffer do. */
module Alignment {
  import opened Bits
  import opened Words

  /** -base & (2^k - 1): the padding that aligns base to 2^k. */
  function Pad(base: nat, k: nat): nat
    requires base <= WORD
  {
    And((WORD - base) % WORD, Pow2(k) - 1)
  }

  function AlignUp(base: nat, k: nat): nat
    requires base <= WORD
  {
    base + Pad(base, k)
  }

  /** What is missing to the next multiple of 2^k is what the distance to the end of the address space has in its low
      bits. */
  lemma Missing(base: nat, x: nat, k: nat) returns (q: nat)
    requires base + x == WORD && k <= 64
    ensures base + Low(x, k) == Shl(q, k)
  {
    Recompose(x, k);
    WordMultiple(k);
    var top, h := Shl(1, 64 - k), Shr(x, k);
    if top < h { ShlMonotone(top, h, k); }
    q := top - h;
    ShlAdd(q, h, k);
  }

  lemma PadIsLow(base: nat, k: nat)
    requires base <= WORD && k <= 64
    ensures base == 0 ==> Pad(base, k) == 0
    ensures base > 0 ==> Pad(base, k) == Low(WORD - base, k)
  {
    var x := (WORD - base) % WORD;
    assert x == if base == 0 then 0 else WORD - base;
    AndMask(x, k);
    if base == 0 { LowOfZero(k); }
  }

  /** Adding the padding aligns an address, ... */
  lemma AlignUpAligns(base: nat, k: nat) returns (q: nat)
    requires base <= WORD && k <= 64
    ensures AlignUp(base, k) == Shl(q, k)
    ensures Low(AlignUp(base, k), k) == 0
    ensures Pad(base, k) < Pow2(k)
  {
    PadIsLow(base, k);
    if base == 0 {
      NothingShifted(k);
      q := 0;
    } else {
      q := Missing(base, WORD - base, k);
    }
    LowUnique(AlignUp(base, k), k, q, 0);
  }

  /** ... and no smaller padding does. */
  lemma AlignUpLeast(base: nat, k: nat, y: nat)
    requires base <= WORD && k <= 64
    requires base <= y && Low(y, k) == 0
    ensures AlignUp(base, k) <= y
  {
    var q := AlignUpAligns(base, k);
    Recompose(y, k);
    var m := Shr(y, k);
    if m < q {
      ShlMonotone(m + 1, q, k);
      ShlAdd(m, 1, k);
      ShlOne(k);
    } else {
      ShlMonotone(q, m, k);
    }
  }

  lemma WordMultiple(k: nat)
    requires k <= 64
    ensures WORD == Shl(Shl(1, 64 - k), k)
  {
    ShlShl(1, 64 - k, k);
    ShlOne(64);
    Pow2Of64();
  }

  lemma {:induction false} NothingShifted(k: nat)
    ensures Shl(0, k) == 0
  {
    if k == 0 {
    } else {
      NothingShifted(k - 1);
    }
  }
}
