/** Natural numbers as strings of bits: the shifts, masks and smearing tricks of the C sources,
    with the properties that give them meaning. A shift by n is a division or a multiplication by Pow2(n). */
module Bits {

  function Pow2(n: nat): (p: nat)
    ensures p >= 1
  {
    if n == 0 then 1 else 2 * Pow2(n - 1)
  }

  /** Bit i of n. */
  predicate Bit(n: nat, i: nat) {
    if i == 0 then n % 2 == 1 else Bit(n / 2, i - 1)
  }

  function And(a: nat, b: nat): nat {
    if a == 0 || b == 0 then 0
    else 2 * And(a / 2, b / 2) + (if a % 2 == 1 && b % 2 == 1 then 1 else 0)
  }

  function Or(a: nat, b: nat): nat {
    if a == 0 then b
    else if b == 0 then a
    else 2 * Or(a / 2, b / 2) + (if a % 2 == 1 || b % 2 == 1 then 1 else 0)
  }

  /** n >> m */
  function Shr(n: nat, m: nat): nat {
    if m == 0 then n else Shr(n / 2, m - 1)
  }

  /** n << m */
  function Shl(n: nat, m: nat): nat {
    if m == 0 then n else 2 * Shl(n, m - 1)
  }

  lemma {:induction false} ShlIsMul(n: nat, m: nat)
    ensures Shl(n, m) == n * Pow2(m)
  {
    if m == 0 {
    } else {
      ShlIsMul(n, m - 1);
      MulAssociative(2, n, Pow2(m - 1));
      MulAssociative(n, 2, Pow2(m - 1));
    }
  }

  lemma {:induction false} ShlAdd(a: nat, b: nat, m: nat)
    ensures Shl(a + b, m) == Shl(a, m) + Shl(b, m)
  {
    if m == 0 {
    } else {
      ShlAdd(a, b, m - 1);
    }
  }

  lemma {:induction false} ShlOne(m: nat)
    ensures Shl(1, m) == Pow2(m)
  {
    if m == 0 {
    } else {
      ShlOne(m - 1);
    }
  }

  lemma {:induction false} ShlDouble(a: nat, m: nat)
    ensures Shl(2 * a, m) == Shl(a, m + 1)
  {
    if m == 0 {
    } else {
      ShlDouble(a, m - 1);
    }
  }

  lemma {:induction false} ShlShl(a: nat, m: nat, n: nat)
    ensures Shl(Shl(a, m), n) == Shl(a, m + n)
  {
    if n == 0 {
    } else {
      ShlShl(a, m, n - 1);
    }
  }

  lemma {:induction false} ShlMonotone(a: nat, b: nat, m: nat)
    requires a <= b
    ensures Shl(a, m) <= Shl(b, m)
    ensures a < b ==> Shl(a, m) < Shl(b, m)
  {
    if m == 0 {
    } else {
      ShlMonotone(a, b, m - 1);
    }
  }

  /** (q << k) + r with r < 2^k has quotient q and remainder r by 2^k. */
  lemma {:induction false} ShrUnique(n: nat, k: nat, q: nat, r: nat)
    requires n == Shl(q, k) + r && r < Pow2(k)
    ensures Shr(n, k) == q
  {
    if k == 0 {
    } else {
      ShrUnique(n / 2, k - 1, q, r / 2);
    }
  }

  /** n & (2^k - 1) */
  function Low(n: nat, k: nat): (r: nat)
    ensures r < Pow2(k)
  {
    if k == 0 then 0 else 2 * Low(n / 2, k - 1) + n % 2
  }

  lemma {:induction false} LowUnique(n: nat, k: nat, q: nat, r: nat)
    requires n == Shl(q, k) + r && r < Pow2(k)
    ensures Low(n, k) == r
  {
    if k == 0 {
    } else {
      LowUnique(n / 2, k - 1, q, r / 2);
    }
  }

  lemma {:induction false} Recompose(n: nat, k: nat)
    ensures n == Shl(Shr(n, k), k) + Low(n, k)
  {
    if k == 0 {
    } else {
      Recompose(n / 2, k - 1);
    }
  }

  // ----- powers of two -----

  lemma {:induction false} Pow2Add(a: nat, b: nat)
    ensures Pow2(a + b) == Pow2(a) * Pow2(b)
  {
    if a == 0 {
    } else {
      Pow2Add(a - 1, b);
      assert a + b - 1 == (a - 1) + b;
    }
  }

  lemma {:induction false} Pow2Monotone(a: nat, b: nat)
    requires a < b
    ensures Pow2(a) < Pow2(b)
  {
    if a + 1 == b {
    } else {
      Pow2Monotone(a, b - 1);
    }
  }

  lemma Pow2Of64()
    ensures Pow2(5) == 32
    ensures Pow2(8) == 0x100
    ensures Pow2(16) == 0x1_0000
    ensures Pow2(32) == 0x1_0000_0000
    ensures Pow2(64) == 0x1_0000_0000_0000_0000
  {
    Pow2Of16();
    Pow2Twice(16);
    Pow2Twice(32);
  }

  lemma Pow2Of16()
    ensures Pow2(5) == 32
    ensures Pow2(8) == 0x100
    ensures Pow2(16) == 0x1_0000
  {
    Pow2Twice(8);
  }

  lemma Pow2Twice(n: nat)
    ensures Pow2(n + n) == Pow2(n) * Pow2(n)
  {
    Pow2Add(n, n);
  }

  // ----- single bits -----

  lemma {:induction false} BitOfZero(i: nat)
    ensures !Bit(0, i)
  {
    if i == 0 {
    } else {
      BitOfZero(i - 1);
    }
  }

  lemma {:induction false} BitOfAnd(a: nat, b: nat, i: nat)
    ensures Bit(And(a, b), i) == (Bit(a, i) && Bit(b, i))
  {
    if a == 0 || b == 0 {
      BitOfZero(i);
    } else if i > 0 {
      BitOfAnd(a / 2, b / 2, i - 1);
    }
  }

  lemma {:induction false} BitOfOr(a: nat, b: nat, i: nat)
    ensures Bit(Or(a, b), i) == (Bit(a, i) || Bit(b, i))
  {
    if a == 0 || b == 0 {
      BitOfZero(i);
    } else if i > 0 {
      BitOfOr(a / 2, b / 2, i - 1);
    }
  }

  lemma DivUnique(n: nat, d: nat, q: nat, r: nat)
    requires d > 0 && r < d && n == q * d + r
    ensures n / d == q && n % d == r
  {
    var q', r' := n / d, n % d;
    assert n == q' * d + r';
    if q < q' {
      assert (q' - q) * d >= d by { MulMonotone(1, q' - q, d); }
    } else if q' < q {
      assert (q - q') * d >= d by { MulMonotone(1, q - q', d); }
    }
  }

  lemma MulAssociative(a: int, b: int, c: int)
    ensures a * (b * c) == (a * b) * c
  {
  }

  lemma MulDistributes(a: int, b: int, c: int)
    ensures (a + b) * c == a * c + b * c
    ensures (a - b) * c == a * c - b * c
  {
  }

  lemma MulNat(a: nat, b: nat)
    ensures a * b >= 0
  {
  }

  lemma MulMonotone(a: nat, b: nat, c: nat)
    requires a <= b
    ensures a * c <= b * c
  {
    assert b * c == a * c + (b - a) * c;
  }

  lemma {:induction false} BitOfShift(n: nat, m: nat, i: nat)
    ensures Bit(Shr(n, m), i) == Bit(n, m + i)
  {
    if m == 0 {
    } else {
      BitOfShift(n / 2, m - 1, i);
    }
  }

  lemma {:induction false} AllOnes(n: nat, k: nat)
    requires forall i :: 0 <= i < k ==> Bit(n, i)
    requires n < Pow2(k)
    ensures n == Pow2(k) - 1
  {
    if k == 0 {
    } else {
      assert Bit(n, 0);
      forall i | 0 <= i < k - 1 ensures Bit(n / 2, i) {
        assert Bit(n, i + 1);
      }
      AllOnes(n / 2, k - 1);
    }
  }

  lemma {:induction false} OrBelow(a: nat, b: nat, k: nat)
    requires a < Pow2(k) && b < Pow2(k)
    ensures Or(a, b) < Pow2(k)
  {
    if a == 0 || b == 0 {
    } else {
      OrBelow(a / 2, b / 2, k - 1);
    }
  }

  // ----- masks -----

  /** x & (2^k - 1) keeps the k lowest bits. */
  lemma {:induction false} AndMask(x: nat, k: nat)
    ensures And(x, Pow2(k) - 1) == Low(x, k)
  {
    if x == 0 {
      LowOfZero(k);
    } else if k > 0 {
      AndMask(x / 2, k - 1);
      assert (2 * Pow2(k - 1) - 1) / 2 == Pow2(k - 1) - 1 && (2 * Pow2(k - 1) - 1) % 2 == 1;
      if k == 1 { assert And(x / 2, 0) == 0; }
    }
  }

  lemma {:induction false} LowOfZero(k: nat)
    ensures Low(0, k) == 0
  {
    if k == 0 {
    } else {
      LowOfZero(k - 1);
    }
  }

  /** ... which is the remainder by 2^k. */
  lemma LowIsMod(x: nat, k: nat)
    ensures Low(x, k) == x % Pow2(k)
  {
    Recompose(x, k);
    ShlIsMul(Shr(x, k), k);
    DivUnique(x, Pow2(k), Shr(x, k), Low(x, k));
  }

  /** The index of the lowest set bit of a positive number. */
  function LowestSet(n: nat): nat
    requires n > 0
  {
    if n % 2 == 1 then 0 else LowestSet(n / 2) + 1
  }

  lemma {:induction false} LowestSetIsLowest(n: nat)
    requires n > 0
    ensures Bit(n, LowestSet(n))
    ensures forall j :: 0 <= j < LowestSet(n) ==> !Bit(n, j)
    ensures Pow2(LowestSet(n)) <= n
  {
    if n % 2 == 1 {
    } else {
      LowestSetIsLowest(n / 2);
      forall j | 0 < j < LowestSet(n) ensures !Bit(n, j) {
        assert !Bit(n / 2, j - 1);
      }
    }
  }

  /** x - (x & (x - 1)) isolates the lowest set bit. */
  lemma {:induction false} IsolateLowest(x: nat)
    requires x > 0
    ensures And(x, x - 1) + Pow2(LowestSet(x)) == x
  {
    if x % 2 == 1 {
      AndSame(x / 2);
      if x > 1 {
        assert And(x, x - 1) == 2 * And(x / 2, (x - 1) / 2);
      }
    } else {
      IsolateLowest(x / 2);
      assert (x - 1) / 2 == x / 2 - 1;
    }
  }

  lemma {:induction false} AndSame(x: nat)
    ensures And(x, x) == x
  {
    if x == 0 {
    } else {
      AndSame(x / 2);
    }
  }

  lemma {:induction false} LowestSetOfPow2(k: nat)
    ensures LowestSet(Pow2(k)) == k
  {
    if k == 0 {
    } else {
      LowestSetOfPow2(k - 1);
    }
  }

  /** n & (n - 1) == 0 holds of 0 and of the powers of two, and of nothing else. */
  predicate IsPow2(n: nat) {
    n == 0 || And(n, n - 1) == 0
  }

  lemma IsPow2Correct(n: nat)
    ensures IsPow2(n) <==> n == 0 || exists k :: n == Pow2(k)
  {
    if n > 0 {
      IsolateLowest(n);
      if IsPow2(n) {
        assert n == Pow2(LowestSet(n));
      }
      if k :| n == Pow2(k) {
        LowestSetOfPow2(k);
      }
    }
  }

  // ----- setting, clearing and testing one bit -----

  /** ~n in words of k bits */
  function Not(n: nat, k: nat): nat
    requires n < Pow2(k)
  {
    Pow2(k) - 1 - n
  }

  lemma {:induction false} BitOfNot(n: nat, k: nat, i: nat)
    requires n < Pow2(k) && i < k
    ensures Bit(Not(n, k), i) == !Bit(n, i)
  {
    if i == 0 {
    } else {
      BitOfNot(n / 2, k - 1, i - 1);
      assert Not(n, k) / 2 == Not(n / 2, k - 1);
    }
  }

  lemma {:induction false} BitOfPow2(v: nat, i: nat)
    ensures Bit(Pow2(v), i) == (i == v)
  {
    if i == 0 {
    } else if v == 0 {
      BitOfZero(i - 1);
    } else {
      BitOfPow2(v - 1, i - 1);
    }
  }

  /** w & (1 << v) == 1 << v is the test of bit v. */
  lemma {:induction false} TestBit(w: nat, v: nat)
    ensures And(w, Pow2(v)) == if Bit(w, v) then Pow2(v) else 0
  {
    if w == 0 {
      BitOfZero(v);
    } else if v > 0 {
      TestBit(w / 2, v - 1);
    } else {
      assert And(w / 2, 0) == 0;
    }
  }

  lemma SetBit(w: nat, v: nat, i: nat)
    ensures Bit(Or(w, Pow2(v)), i) == (i == v || Bit(w, i))
  {
    BitOfOr(w, Pow2(v), i);
    BitOfPow2(v, i);
  }

  lemma ClearBit(w: nat, v: nat, k: nat, i: nat)
    requires v < k && i < k
    ensures Pow2(v) < Pow2(k)
    ensures Bit(And(w, Not(Pow2(v), k)), i) == (i != v && Bit(w, i))
  {
    Pow2Monotone(v, k);
    BitOfAnd(w, Not(Pow2(v), k), i);
    BitOfNot(Pow2(v), k, i);
    BitOfPow2(v, i);
  }
}
