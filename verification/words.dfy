/** The word-level helpers of the allocator and the hash map: rounding up to a power of two by smearing bits,
    and finding the lowest set bit by halving. */
module Words {
  import opened Bits

  const WORD: nat := 0x1_0000_0000_0000_0000

  /** The exponent of the least power of two that is at least v. */
  function CeilLog2(v: nat): (k: nat)
    requires v > 0
    ensures v <= Pow2(k)
    ensures k > 0 ==> Pow2(k - 1) < v
  {
    if v == 1 then 0 else 1 + CeilLog2((v + 1) / 2)
  }

  lemma CeilLog2Least(v: nat, k: nat)
    requires v > 0
    ensures CeilLog2(v) <= k <==> v <= Pow2(k)
  {
    var c := CeilLog2(v);
    if c < k {
      Pow2Monotone(c, k);
    } else if k < c - 1 {
      Pow2Monotone(k, c - 1);
    }
  }

  // ----- smearing -----

  /** The m bits of v from bit k downwards are ones, and v has no bit above k. */
  ghost predicate TopOnes(v: nat, k: nat, m: nat) {
    v < Pow2(k + 1) && forall i: nat :: k < i + m && i <= k ==> Bit(v, i)
  }

  lemma {:induction false} TopBit(v: nat, k: nat)
    requires Pow2(k) <= v < Pow2(k + 1)
    ensures Bit(v, k)
  {
    if k == 0 {
    } else {
      TopBit(v / 2, k - 1);
    }
  }

  lemma SmearStep(v: nat, k: nat, m: nat)
    requires TopOnes(v, k, m)
    ensures TopOnes(Or(v, Shr(v, m)), k, 2 * m)
  {
    var w := Shr(v, m);
    ShrAtMost(v, m);
    OrBelow(v, w, k + 1);
    forall i: nat | k < i + 2 * m && i <= k
      ensures Bit(Or(v, w), i)
    {
      BitOfOr(v, w, i);
      BitOfShift(v, m, i);
      assert k < i + m || Bit(v, m + i);
    }
  }

  lemma {:induction false} ShrAtMost(v: nat, m: nat)
    ensures Shr(v, m) <= v
  {
    if m == 0 {
    } else {
      ShrAtMost(v / 2, m - 1);
    }
  }

  lemma {:induction false} FloorLog2Exists(v: nat) returns (k: nat)
    requires v > 0
    ensures Pow2(k) <= v < Pow2(k + 1)
  {
    if v == 1 {
      k := 0;
    } else {
      k := FloorLog2Exists(v / 2);
      k := k + 1;
    }
  }

  lemma {:induction false} ZeroSmears(m: nat)
    ensures Shr(0, m) == 0
  {
    if m == 0 {
    } else {
      ZeroSmears(m - 1);
    }
  }

  /** The smearing sequence: v with its highest bit at k < 2^steps becomes 2^(k+1) - 1; 0 stays 0. */
  ghost predicate Smearing(v0: nat, v: nat, m: nat) {
    if v0 == 0 then v == 0
    else forall k: nat :: Pow2(k) <= v0 < Pow2(k + 1) ==> TopOnes(v, k, m)
  }

  lemma SmearingStart(v: nat)
    ensures Smearing(v, v, 1)
  {
    forall k: nat | Pow2(k) <= v < Pow2(k + 1) ensures TopOnes(v, k, 1) {
      TopBit(v, k);
    }
  }

  lemma SmearingStep(v0: nat, v: nat, m: nat)
    requires Smearing(v0, v, m)
    ensures Smearing(v0, Or(v, Shr(v, m)), 2 * m)
  {
    if v0 == 0 {
      ZeroSmears(m);
    } else {
      forall k: nat | Pow2(k) <= v0 < Pow2(k + 1) ensures TopOnes(Or(v, Shr(v, m)), k, 2 * m) {
        SmearStep(v, k, m);
      }
    }
  }

  lemma SmearingEnd(v0: nat, v: nat, m: nat)
    requires Smearing(v0, v, m) && v0 < Pow2(m)
    ensures v + 1 == Pow2(CeilLog2(v0 + 1))
  {
    if v0 > 0 {
      var k := FloorLog2Exists(v0);
      if m < k { Pow2Monotone(m, k); }
      AllOnes(v, k + 1);
      CeilOfNext(v0, k);
    }
  }

  lemma CeilOfNext(v: nat, k: nat)
    requires Pow2(k) <= v < Pow2(k + 1)
    ensures CeilLog2(v + 1) == k + 1
  {
    CeilLog2Least(v + 1, k + 1);
    CeilLog2Least(v + 1, k);
  }

  /** The steps common to both widths. */
  method Smear(u: nat) returns (v: nat)
    ensures Smearing(u, v, 32)
  {
    v := u;
    SmearingStart(u);
    SmearingStep(u, v, 1);
    v := Or(v, Shr(v, 1));
    SmearingStep(u, v, 2);
    v := Or(v, Shr(v, 2));
    SmearingStep(u, v, 4);
    v := Or(v, Shr(v, 4));
    SmearingStep(u, v, 8);
    v := Or(v, Shr(v, 8));
    SmearingStep(u, v, 16);
    v := Or(v, Shr(v, 16));
  }

  /** round_pow2 on a 64-bit size_t, wrap-around included. */
  method RoundPow2(v0: nat) returns (v: nat)
    requires v0 < WORD
    ensures 0 < v0 <= WORD / 2 ==> v == Pow2(CeilLog2(v0))
    ensures v0 == 0 || v0 > WORD / 2 ==> v == 0
  {
    var u := if v0 == 0 then WORD - 1 else v0 - 1;
    v := Smear(u);
    SmearingStep(u, v, 32);
    v := Or(v, Shr(v, 32));
    SmearedWord(u, v);
    v := if v + 1 == WORD then 0 else v + 1;
  }

  lemma SmearedWord(u: nat, v: nat)
    requires u < WORD && Smearing(u, v, 64)
    ensures v + 1 == Pow2(CeilLog2(u + 1))
    ensures if u + 1 <= WORD / 2 then v + 1 < WORD else v + 1 == WORD
  {
    var c := CeilLog2(u + 1);
    Pow2Of64();
    SmearingEnd(u, v, 64);
    CeilLog2Least(u + 1, 64);
    CeilLog2Least(u + 1, 63);
    assert Pow2(63) == WORD / 2 by { assert Pow2(64) == 2 * Pow2(63); }
    if c < 64 { Pow2Monotone(c, 64); }
  }

  /** next_pow2 on a positive 32-bit int that has a power of two above it. */
  method NextPow2(v0: nat) returns (v: nat)
    requires 0 < v0 <= 0x4000_0000
    ensures v == Pow2(CeilLog2(v0))
  {
    v := Smear(v0 - 1);
    SmearedInt(v0 - 1, v);
    v := v + 1;
  }

  lemma SmearedInt(u: nat, v: nat)
    requires u < 0x4000_0000 && Smearing(u, v, 32)
    ensures v + 1 == Pow2(CeilLog2(u + 1))
  {
    Pow2Of64();
    SmearingEnd(u, v, 32);
  }

  // ----- the lowest set bit -----

  /** The table of logarithms: entry 2^k holds k, every other entry holds 0. */
  function Table(z: nat): nat
    requires z < 0x100
  {
    if z == 2 then 1 else if z == 4 then 2 else if z == 8 then 3 else if z == 16 then 4
    else if z == 32 then 5 else if z == 64 then 6 else if z == 128 then 7 else 0
  }

  lemma TableOfPow2(k: nat)
    requires k < 8
    ensures Pow2(k) < 0x100 && Table(Pow2(k)) == k
  {
    assert Pow2(3) == 8 && Pow2(4) == 16 && Pow2(5) == 32 && Pow2(6) == 64 && Pow2(7) == 128;
  }

  /** Shifting a power of two 2^k right by h leaves nothing exactly when k < h. */
  lemma {:induction false} ShiftPow2(k: nat, h: nat)
    ensures Shr(Pow2(k), h) == if k < h then 0 else Pow2(k - h)
  {
    if k == 0 {
      if h > 0 { ZeroSmears(h - 1); }
    } else if h > 0 {
      ShiftPow2(k - 1, h - 1);
    }
  }

  /** One step of the binary search: when the upper part is not empty, the bit is there. */
  method SearchHalf(i0: nat, z0: nat, h: nat, ghost k: nat) returns (i: nat, z: nat)
    requires i0 <= k < i0 + 2 * h && z0 == Pow2(k - i0)
    ensures i <= k < i + h && z == Pow2(k - i)
  {
    ShiftPow2(k - i0, h);
    var t := Shr(z0, h);
    i, z := i0, z0;
    if t != 0 {
      i := i + h;
      z := t;
    }
  }

  /** first_set: the index of the lowest set bit of a 64-bit word, -1 for 0. */
  method FirstSet(x: nat) returns (i: int)
    requires x < WORD
    ensures i == if x == 0 then -1 else LowestSet(x)
    ensures x > 0 ==> Bit(x, i) && forall j :: 0 <= j < i ==> !Bit(x, j)
  {
    if x == 0 { return -1; }
    var y := And(x, x - 1);
    var z := x - y;
    ghost var k := LowestSet(x);
    IsolateLowest(x);
    LowestSetIsLowest(x);
    assert k < 64 by {
      Pow2Of64();
      if k > 64 { Pow2Monotone(64, k); }
    }
    var n := 0;
    n, z := SearchHalf(n, z, 32, k);
    n, z := SearchHalf(n, z, 16, k);
    n, z := SearchHalf(n, z, 8, k);
    TableOfPow2(k - n);
    i := n + Table(z);
  }
}
