/** The probe sequence of the hash map: i -> 5 i + perturbation + 1 modulo the size, where the perturbation is the hash
    shifted right by five more bits at every turn. */
module Probing {
  import opened Bits
  import opened Words

  type Word = x: nat | x < WORD

  /** The turns after which the perturbation of a 64-bit hash is used up. */
  const WARM_UP: nat := 12

  /** The slot that is looked at in turn j, in a pool of 2^n slots. */
  function Probe(hash: nat, n: nat, j: nat): (i: nat)
    ensures i < Pow2(n)
  {
    if j == 0 then Low(hash, n) else Low(5 * Probe(hash, n, j - 1) + Shr(hash, 5 * j) + 1, n)
  }

  // ----- the recurrence x -> 5 x + 1 -----

  function Iterate(x: nat, k: nat): nat {
    if k == 0 then x else 5 * Iterate(x, k - 1) + 1
  }

  lemma {:induction false} IterateAdd(x: nat, a: nat, b: nat)
    ensures Iterate(x, a + b) == Iterate(Iterate(x, a), b)
  {
    if b == 0 {
    } else {
      IterateAdd(x, a, b - 1);
    }
  }

  /** k turns move x by a multiple of 4 x + 1 that depends on k only. */
  lemma {:induction false} IterateMoves(x: nat, k: nat)
    ensures Iterate(x, k) == x + Iterate(0, k) * (4 * x + 1)
  {
    if k == 0 {
    } else {
      var s, y := Iterate(0, k - 1), 4 * x + 1;
      IterateMoves(x, k - 1);
      MulDistributes(5 * s, 1, y);
      MulAssociative(5, s, y);
    }
  }

  /** 2^n turns move 0 by 2^n times an odd number. */
  lemma {:induction false} IteratePow2(n: nat) returns (o: nat)
    ensures Iterate(0, Pow2(n)) == Pow2(n) * (2 * o + 1)
  {
    if n == 0 {
      o := 0;
    } else {
      var p := IteratePow2(n - 1);
      var m, s := Pow2(n - 1), Iterate(0, Pow2(n - 1));
      IterateAdd(0, m, m);
      IterateMoves(s, m);
      o := OddProduct(p, s);
      DoubleProduct(m, s, 2 * p + 1, 2 * s + 1, 2 * o + 1);
    }
  }

  lemma OddProduct(p: nat, s: nat) returns (o: nat)
    ensures (2 * p + 1) * (2 * s + 1) == 2 * o + 1
  {
    o := 2 * (p * s) + p + s;
  }

  lemma DoubleProduct(m: nat, s: nat, a: nat, b: nat, c: nat)
    requires s == m * a && b == 2 * s + 1 && a * b == c
    ensures s + s * (4 * s + 1) == 2 * m * c
  {
    assert s + s * (4 * s + 1) == 2 * (s * b);
    assert s * b == (m * a) * b == m * (a * b);
  }

  /** The recurrence modulo 2^n is one cycle through all residues: from any x, every t is hit in the first 2^n turns. */
  lemma {:induction false} FullPeriod(x: nat, n: nat, t: nat) returns (k: nat, c: int)
    requires t < Pow2(n)
    ensures k < Pow2(n)
    ensures Iterate(x, k) == t + c * Pow2(n)
  {
    if n == 0 {
      k, c := 0, x;
    } else {
      var p := Pow2(n - 1);
      var r := if t < p then t else t - p;
      k, c := FullPeriod(x, n - 1, r);
      c := if t < p then c else c - 1;
      MulDistributes(c, 1, p);
      if c % 2 == 0 {
        c := c / 2;
        MulAssociative(c, 2, p);
      } else {
        var o := IteratePow2(n - 1);
        var y := Iterate(x, k);
        IterateAdd(x, k, p);
        IterateMoves(y, p);
        var odd := OddProduct(o, 2 * y);
        HalfTurn(c, odd, p, 2 * o + 1, 4 * y + 1);
        k, c := k + p, (c + 2 * odd + 1) / 2;
        MulAssociative(c, 2, p);
      }
    }
  }

  lemma HalfTurn(c: int, odd: nat, p: nat, a: nat, b: nat)
    requires c % 2 == 1 && a * b == 2 * odd + 1
    ensures c * p + p * a * b == (2 * ((c + 2 * odd + 1) / 2)) * p
  {
    assert p * a * b == p * (a * b);
    assert 2 * ((c + 2 * odd + 1) / 2) == c + (2 * odd + 1);
    MulDistributes(c, 2 * odd + 1, p);
  }

  // ----- the probe sequence -----

  lemma {:induction false} ShrVanishes(x: nat, k: nat)
    requires x < Pow2(k)
    ensures Shr(x, k) == 0
  {
    if k == 0 {
    } else {
      ShrVanishes(x / 2, k - 1);
    }
  }

  lemma {:induction false} ShrShr(x: nat, a: nat, b: nat)
    ensures Shr(Shr(x, a), b) == Shr(x, a + b)
  {
    if a == 0 {
    } else {
      ShrShr(x / 2, a - 1, b);
    }
  }

  /** After thirteen shifts by five nothing is left of a 64-bit hash. */
  lemma PerturbationEnds(hash: Word, j: nat)
    requires j > WARM_UP
    ensures Shr(hash, 5 * j) == 0
  {
    Pow2Of64();
    ShrVanishes(hash, 64);
    ShrShr(hash, 64, 5 * j - 64);
    ShrVanishes(0, 5 * j - 64);
  }

  lemma LowOfStep(y: nat, n: nat)
    ensures Low(5 * Low(y, n) + 1, n) == Low(5 * y + 1, n)
  {
    var q, r := Shr(y, n), Low(y, n);
    Recompose(y, n);
    Recompose(5 * r + 1, n);
    var q' := Shr(5 * r + 1, n);
    ShlIsMul(q, n);
    ShlIsMul(q', n);
    ShlIsMul(5 * q + q', n);
    MulDistributes(5 * q, q', Pow2(n));
    MulAssociative(5, q, Pow2(n));
    LowUnique(5 * y + 1, n, 5 * q + q', Low(5 * r + 1, n));
  }

  /** Past the warm-up the probe sequence is the recurrence x -> 5 x + 1 modulo the size. */
  lemma {:induction false} PastWarmUp(hash: Word, n: nat, k: nat)
    ensures Probe(hash, n, WARM_UP + k) == Low(Iterate(Probe(hash, n, WARM_UP), k), n)
  {
    var x := Probe(hash, n, WARM_UP);
    if k == 0 {
      ShlIsMul(0, n);
      LowUnique(x, n, 0, x);
    } else {
      PastWarmUp(hash, n, k - 1);
      PerturbationEnds(hash, WARM_UP + k);
      LowOfStep(Iterate(x, k - 1), n);
    }
  }

  /** Every slot is looked at within the first 12 + size turns. */
  lemma EverySlot(hash: Word, n: nat, t: nat) returns (j: nat)
    requires t < Pow2(n)
    ensures j < WARM_UP + Pow2(n) && Probe(hash, n, j) == t
  {
    var k, c := FullPeriod(Probe(hash, n, WARM_UP), n, t);
    j := WARM_UP + k;
    PastWarmUp(hash, n, k);
    if c < 0 { NegativeMultiple(c, Pow2(n)); }
    ShlIsMul(c, n);
    LowUnique(Iterate(Probe(hash, n, WARM_UP), k), n, c, t);
  }

  lemma NegativeMultiple(c: int, p: nat)
    requires c < 0
    ensures c * p + p <= 0
  {
    MulMonotone(1, -c, p);
    MulDistributes(0, -c, p);
  }

  lemma {:induction false} LowLow(x: nat, n: nat, m: nat)
    requires n <= m
    ensures Low(Low(x, m), n) == Low(x, n)
  {
    if n == 0 {
    } else {
      LowLow(x / 2, n - 1, m - 1);
    }
  }

  /** The loops of the map start at the masked hash. */
  lemma FirstProbe(hash: Word, n: nat)
    ensures Probe(hash, n, 0) == And(hash, Pow2(n) - 1)
  {
    AndMask(hash, n);
  }

  /** One turn of the loops of the map: 64-bit arithmetic, shifts and masks compute the next probe. */
  lemma NextProbe(hash: Word, n: nat, j: nat)
    requires n <= 64
    ensures Shr(Shr(hash, 5 * j), 5) == Shr(hash, 5 * (j + 1))
    ensures And((5 * Probe(hash, n, j) + Shr(hash, 5 * (j + 1)) + 1) % WORD, Pow2(n) - 1) == Probe(hash, n, j + 1)
  {
    ShrShr(hash, 5 * j, 5);
    MaskedWord(5 * Probe(hash, n, j) + Shr(hash, 5 * (j + 1)) + 1, n);
  }

  /** Masking the low bits of a sum that has wrapped is masking those of the sum. */
  lemma MaskedWord(x: nat, n: nat)
    requires n <= 64
    ensures And(x % WORD, Pow2(n) - 1) == Low(x, n)
  {
    WordIsLow(x);
    LowLow(x, n, 64);
    AndMask(x % WORD, n);
  }

  lemma WordIsLow(x: nat)
    ensures x % WORD == Low(x, 64)
  {
    Pow2Of64();
    LowIsMod(x, 64);
  }

  /** The advance to the next slot that the loops of the map share. */
  method Advance(hash: Word, ghost n: nat, i: nat, pert: Word, mask: nat, ghost j: nat) returns (i': nat, pert': Word)
    requires n <= 64 && mask == Pow2(n) - 1
    requires i == Probe(hash, n, j) && pert == Shr(hash, 5 * j)
    ensures i' == Probe(hash, n, j + 1) && pert' == Shr(hash, 5 * (j + 1))
  {
    NextProbe(hash, n, j);
    ShrAtMost(pert, 5);
    pert' := Shr(pert, 5);
    i' := And((5 * i + pert' + 1) % WORD, mask);
  }

  // ----- maps -----

  lemma OneLess(m: map<Word, Word>, k: Word)
    requires k in m
    ensures |m| == |m - {k}| + 1
  {
    assert (m - {k}).Keys == m.Keys - {k};
    assert |m| == |m.Keys| && |m - {k}| == |(m - {k}).Keys|;
  }
}
