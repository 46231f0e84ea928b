/** The tree of blocks of the buddy allocator, and its free blocks as a function of its allocated ones.
    A block is named by its level (level i holds the blocks of list i, of size 2^(i + MIN)) and by its position
    among the blocks of that size. */
module BuddyBlocks {
  datatype Block = Block(level: nat, idx: nat)

  /** depth is NUM_LISTS - 1, so that pages are the blocks at that level. */
  datatype Pool = Pool(depth: nat, pages: nat)

  function Parent(b: Block): Block {
    Block(b.level + 1, b.idx / 2)
  }

  function Sibling(b: Block): Block {
    Block(b.level, if b.idx % 2 == 0 then b.idx + 1 else b.idx - 1)
  }

  function FirstHalf(b: Block): Block
    requires b.level > 0
  {
    Block(b.level - 1, 2 * b.idx)
  }

  /** The block of level l that contains b. */
  function Up(b: Block, l: nat): (a: Block)
    requires b.level <= l
    ensures a.level == l
    decreases l - b.level
  {
    if b.level == l then b else Up(Parent(b), l)
  }

  predicate Inside(a: Block, b: Block) {
    a.level <= b.level && Up(a, b.level) == b
  }

  predicate Overlap(a: Block, b: Block) {
    Inside(a, b) || Inside(b, a)
  }

  predicate InPool(p: Pool, b: Block) {
    b.level <= p.depth && Up(b, p.depth).idx < p.pages
  }

  /** No allocated block shares a byte with b. */
  ghost predicate FullyFree(A: set<Block>, b: Block) {
    forall a :: a in A ==> !Overlap(a, b)
  }

  /** The blocks that the free lists should hold: the largest blocks that are fully free. */
  ghost predicate Canon(p: Pool, A: set<Block>, b: Block) {
    InPool(p, b) && FullyFree(A, b) && (b.level == p.depth || !FullyFree(A, Parent(b)))
  }

  /** What any set of outstanding allocations looks like. */
  ghost predicate Separate(p: Pool, A: set<Block>) {
    && (forall a :: a in A ==> InPool(p, a))
    && (forall a, b :: a in A && b in A && a != b ==> !Overlap(a, b))
  }

  // ----- the tree -----

  lemma {:induction false} UpUp(b: Block, l: nat, m: nat)
    requires b.level <= l <= m
    ensures Up(Up(b, l), m) == Up(b, m)
    decreases l - b.level
  {
    if b.level == l {
    } else {
      UpUp(Parent(b), l, m);
    }
  }

  lemma InsideTransitive(a: Block, b: Block, c: Block)
    requires Inside(a, b) && Inside(b, c)
    ensures Inside(a, c)
  {
    UpUp(a, b.level, c.level);
  }

  lemma InsideParent(b: Block)
    ensures Inside(b, Parent(b))
  {
    assert Up(b, b.level + 1) == Up(Parent(b), b.level + 1);
  }

  lemma StrictlyInside(a: Block, b: Block)
    requires Inside(a, b) && a != b
    ensures Inside(Parent(a), b)
  {
  }

  /** Two blocks that contain a common one are nested. */
  lemma Nested(a: Block, b: Block, c: Block)
    requires Inside(a, b) && Inside(a, c)
    ensures Overlap(b, c)
  {
    if b.level <= c.level {
      UpUp(a, b.level, c.level);
    } else {
      UpUp(a, c.level, b.level);
    }
  }

  lemma OverlapLarger(a: Block, b: Block, c: Block)
    requires Overlap(a, b) && Inside(b, c)
    ensures Overlap(a, c)
  {
    if Inside(a, b) {
      InsideTransitive(a, b, c);
    } else {
      Nested(b, a, c);
    }
  }

  lemma Siblings(b: Block)
    ensures Parent(Sibling(b)) == Parent(b)
    ensures Sibling(Sibling(b)) == b
    ensures !Overlap(b, Sibling(b))
    ensures forall p :: InPool(p, b) && b.level < p.depth ==> InPool(p, Sibling(b)) && InPool(p, Parent(b))
  {
  }

  /** A block inside a parent is the parent itself or inside one of its halves. */
  lemma {:induction false} Halves(a: Block, b: Block)
    requires Inside(a, Parent(b))
    ensures a == Parent(b) || Inside(a, b) || Inside(a, Sibling(b))
  {
    if a.level <= b.level {
      UpUp(a, b.level, b.level + 1);
      var h := Up(a, b.level);
      assert Up(h, b.level + 1) == Parent(h);
    }
  }

  lemma FreePart(A: set<Block>, a: Block, b: Block)
    requires FullyFree(A, b) && Inside(a, b)
    ensures FullyFree(A, a)
  {
    forall x | x in A ensures !Overlap(x, a) {
      if Overlap(x, a) { OverlapLarger(x, a, b); }
    }
  }

  // ----- the free blocks -----

  lemma CanonDisjoint(p: Pool, A: set<Block>, a: Block, b: Block)
    requires Canon(p, A, a) && Canon(p, A, b) && a != b
    ensures !Overlap(a, b)
  {
    if Inside(a, b) {
      StrictlyInside(a, b);
      FreePart(A, Parent(a), b);
    } else if Inside(b, a) {
      StrictlyInside(b, a);
      FreePart(A, Parent(b), a);
    }
  }

  /** Two buddies are never both on a free list. */
  lemma NoTwoBuddies(p: Pool, A: set<Block>, b: Block)
    requires Separate(p, A) && b.level < p.depth
    requires Canon(p, A, b)
    ensures !Canon(p, A, Sibling(b))
  {
    Siblings(b);
    if Canon(p, A, Sibling(b)) {
      var a :| a in A && Overlap(a, Parent(b));
      InsideParent(b);
      if Inside(a, Parent(b)) {
        Halves(a, b);
      } else {
        InsideTransitive(b, Parent(b), a);
      }
    }
  }

  /** Allocating a whole free block takes it off the lists and changes nothing else. */
  lemma Take(p: Pool, A: set<Block>, b: Block, c: Block)
    requires Canon(p, A, b)
    ensures Canon(p, A + {b}, c) <==> Canon(p, A, c) && c != b
  {
    var A' := A + {b};
    if Canon(p, A, c) && c != b {
      CanonDisjoint(p, A, b, c);
    }
    if Canon(p, A', c) {
      assert b in A' && !Overlap(b, c);
      assert FullyFree(A, c) by { assert A <= A'; }
      if c.level < p.depth && FullyFree(A, Parent(c)) {
        assert Overlap(b, Parent(c));
        InsideParent(c);
        if Inside(Parent(c), b) {
          InsideTransitive(c, Parent(c), b);
        } else if b == Parent(c) {
        } else {
          StrictlyInside(b, Parent(c));
          FreePart(A, Parent(b), Parent(c));
        }
        assert false;
      }
    }
  }

  /** Shaving one half off an allocated block puts that half, and only that half, on the lists.
      Read from right to left it is the coalescing of two buddies. */
  lemma Split(p: Pool, A: set<Block>, x: Block, c: Block)
    requires InPool(p, x) && x.level < p.depth && FullyFree(A, Parent(x))
    ensures Canon(p, A + {x}, c) <==> Canon(p, A + {Parent(x)}, c) || c == Sibling(x)
  {
    var b, y := Parent(x), Sibling(x);
    Siblings(x);
    InsideParent(x);
    InsideParent(y);
    FreePart(A, y, b);
    assert Canon(p, A + {x}, y) by {
      assert x in A + {x} && Overlap(x, b);
    }
    if Canon(p, A + {b}, c) { SplitForth(p, A, x, c); }
    if Canon(p, A + {x}, c) && c != y { SplitBack(p, A, x, c); }
  }

  lemma SplitForth(p: Pool, A: set<Block>, x: Block, c: Block)
    requires InPool(p, x) && x.level < p.depth && FullyFree(A, Parent(x))
    requires Canon(p, A + {Parent(x)}, c)
    ensures Canon(p, A + {x}, c)
  {
    var b := Parent(x);
    InsideParent(x);
    assert b in A + {b} && !Overlap(b, c);
    if Overlap(x, c) {
      if Inside(c, x) { InsideTransitive(c, x, b); } else { Nested(x, c, b); }
    }
    forall a | a in A + {x} ensures !Overlap(a, c) {
      assert a == x || a in A + {b};
    }
    if c.level < p.depth {
      InsideParent(c);
      var a :| a in A + {b} && Overlap(a, Parent(c));
      if a == b {
        if Inside(Parent(c), b) {
          InsideTransitive(c, Parent(c), b);
        } else {
          InsideTransitive(x, b, Parent(c));
        }
        assert x in A + {x} && Overlap(x, Parent(c));
      } else {
        assert a in A + {x};
      }
    }
  }

  lemma SplitBack(p: Pool, A: set<Block>, x: Block, c: Block)
    requires InPool(p, x) && x.level < p.depth && FullyFree(A, Parent(x))
    requires Canon(p, A + {x}, c) && c != Sibling(x)
    ensures Canon(p, A + {Parent(x)}, c)
  {
    var b, y := Parent(x), Sibling(x);
    InsideParent(x);
    InsideParent(y);
    Siblings(x);
    assert x in A + {x} && !Overlap(x, c);
    if Overlap(b, c) {
      if Inside(b, c) {
        InsideTransitive(x, b, c);
      } else {
        Halves(c, x);
        assert Inside(c, y);
        StrictlyInside(c, y);
        FreePart(A, y, b);
        FreePart(A + {x}, Parent(c), y);
      }
      assert false;
    }
    forall a | a in A + {b} ensures !Overlap(a, c) {
      assert a == b || a in A + {x};
    }
    if c.level < p.depth {
      var a :| a in A + {x} && Overlap(a, Parent(c));
      if a == x {
        OverlapLarger(Parent(c), x, b);
        assert b in A + {b} && Overlap(b, Parent(c));
      } else {
        assert a in A + {b};
      }
    }
  }

  /** Some allocated block is b or a part of it: what the recursive bit test looks for. */
  ghost predicate AllocatedWithin(A: set<Block>, b: Block) {
    exists a :: a in A && Inside(a, b)
  }

  lemma WithinHalves(A: set<Block>, b: Block)
    ensures AllocatedWithin(A, b) <==>
            || b in A
            || (b.level > 0 && AllocatedWithin(A, FirstHalf(b)))
            || (b.level > 0 && AllocatedWithin(A, Sibling(FirstHalf(b))))
  {
    assert Inside(b, b);
    if b.level == 0 {
      forall a | a in A && Inside(a, b) ensures a == b {}
    } else {
      var h := FirstHalf(b);
      assert Parent(h) == b == Parent(Sibling(h));
      forall a | a in A && Inside(a, b) ensures a == b || Inside(a, h) || Inside(a, Sibling(h)) { Halves(a, h); }
      InsideParent(h);
      InsideParent(Sibling(h));
      forall a | a in A && Inside(a, h) ensures Inside(a, b) { InsideTransitive(a, h, b); }
      forall a | a in A && Inside(a, Sibling(h)) ensures Inside(a, b) { InsideTransitive(a, Sibling(h), b); }
    }
  }

  /** The bit test of coalescing decides whether the sibling is a node of its own free list: when it finds
      nothing, the free space of the sibling is not scattered over smaller lists. */
  lemma CoalesceTest(p: Pool, A: set<Block>, b: Block)
    requires InPool(p, b) && b.level < p.depth && FullyFree(A, b)
    ensures AllocatedWithin(A, Sibling(b)) <==> !FullyFree(A, Parent(b))
    ensures AllocatedWithin(A, Sibling(b)) <==> !Canon(p, A + {b}, Sibling(b))
  {
    var s := Sibling(b);
    Siblings(b);
    InsideParent(b);
    InsideParent(s);
    if a :| a in A && Inside(a, s) {
      InsideTransitive(a, s, Parent(b));
      assert Overlap(a, s) && a in A + {b};
    }
    if !FullyFree(A, Parent(b)) {
      var a :| a in A && Overlap(a, Parent(b));
      if Inside(a, Parent(b)) {
        Halves(a, b);
      } else {
        InsideTransitive(b, Parent(b), a);
      }
      assert Inside(a, s);
    } else {
      Split(p, A, b, s);
    }
  }

  /** Climbing from a fully free block reaches a block on the lists. */
  lemma {:induction false} FreeIsListed(p: Pool, A: set<Block>, b: Block) returns (c: Block)
    requires InPool(p, b) && FullyFree(A, b)
    ensures Canon(p, A, c) && Inside(b, c)
    decreases p.depth - b.level
  {
    if b.level < p.depth && FullyFree(A, Parent(b)) {
      Siblings(b);
      c := FreeIsListed(p, A, Parent(b));
      InsideParent(b);
      InsideTransitive(b, Parent(b), c);
    } else {
      c := b;
    }
  }

  /** The first part of level l of a block. */
  function FirstPart(b: Block, l: nat): (a: Block)
    requires l <= b.level
    ensures a.level == l
    decreases b.level
  {
    if b.level == l then b else FirstPart(FirstHalf(b), l)
  }

  lemma {:induction false} FirstPartInside(b: Block, l: nat)
    requires l <= b.level
    ensures Inside(FirstPart(b, l), b)
    decreases b.level
  {
    if l == b.level {
    } else {
      FirstPartInside(FirstHalf(b), l);
      InsideParent(FirstHalf(b));
      assert Parent(FirstHalf(b)) == b;
      InsideTransitive(FirstPart(b, l), FirstHalf(b), b);
    }
  }

  lemma {:induction false} FirstPartStep(b: Block, l: nat)
    requires l < b.level
    ensures FirstPart(b, l) == FirstHalf(FirstPart(b, l + 1))
    decreases b.level
  {
    if l + 1 == b.level {
    } else {
      FirstPartStep(FirstHalf(b), l);
    }
  }

  lemma PartInPool(p: Pool, a: Block, b: Block)
    requires InPool(p, b) && Inside(a, b)
    ensures InPool(p, a)
  {
    UpUp(a, b.level, p.depth);
  }

  /** The allocated blocks and the free lists tile the pool: every smallest block of it lies in exactly one block. */
  lemma Tiling(p: Pool, A: set<Block>, u: Block) returns (t: Block)
    requires Separate(p, A)
    requires u.level == 0 && InPool(p, u)
    ensures (t in A || Canon(p, A, t)) && Inside(u, t)
    ensures forall t' :: (t' in A || Canon(p, A, t')) && Inside(u, t') ==> t' == t
  {
    if FullyFree(A, u) {
      t := FreeIsListed(p, A, u);
    } else {
      t :| t in A && Overlap(t, u);
    }
    forall t' | (t' in A || Canon(p, A, t')) && Inside(u, t')
      ensures t' == t
    {
      Nested(u, t, t');
      if t' != t && Canon(p, A, t) && Canon(p, A, t') {
        CanonDisjoint(p, A, t, t');
      }
    }
  }

  /** The blocks of the lists are pairwise disjoint and disjoint from the allocated ones. */
  lemma ListsSeparate(p: Pool, A: set<Block>, b: Block, c: Block)
    requires Separate(p, A)
    requires Canon(p, A, b) && (Canon(p, A, c) || c in A) && b != c
    ensures !Overlap(b, c)
  {
    if Canon(p, A, c) { CanonDisjoint(p, A, b, c); }
  }

  /** With nothing allocated, the lists hold the pages and nothing else. */
  lemma EmptyCanon(p: Pool, b: Block)
    ensures Canon(p, {}, b) <==> b.level == p.depth && b.idx < p.pages
  {
  }

  /** The requirement on free lists in its usual words: they hold disjoint blocks that cover the free space exactly,
      and every pair of free buddies has been merged. */
  ghost predicate Coalesced(p: Pool, A: set<Block>, F: set<Block>) {
    && (forall f :: f in F ==> InPool(p, f) && FullyFree(A, f))
    && (forall f, g :: f in F && g in F && f != g ==> !Overlap(f, g))
    && (forall u: Block :: u.level == 0 && InPool(p, u) && FullyFree(A, u) ==> exists f :: f in F && Inside(u, f))
    && (forall f :: f in F && f.level < p.depth ==> Sibling(f) !in F)
  }

  /** In coalesced lists a fully free block is never scattered over smaller blocks. */
  lemma {:induction false} NotScattered(p: Pool, A: set<Block>, F: set<Block>, s: Block) returns (f: Block)
    requires Coalesced(p, A, F) && InPool(p, s) && FullyFree(A, s)
    ensures f in F && Inside(s, f)
    decreases s.level
  {
    if s.level == 0 {
      f :| f in F && Inside(s, f);
    } else {
      var h := FirstHalf(s);
      var k := Sibling(h);
      Siblings(h);
      InsideParent(h);
      InsideParent(k);
      assert Parent(h) == s == Parent(k);
      FreePart(A, h, s);
      FreePart(A, k, s);
      PartInPool(p, h, s);
      PartInPool(p, k, s);
      f := NotScattered(p, A, F, h);
      if f == h {
        f := NotScattered(p, A, F, k);
      }
      assert f != h && f != k;
      if Inside(h, f) { StrictlyInside(h, f); } else { StrictlyInside(k, f); }
    }
  }

  /** Free lists meet that requirement exactly when they hold the largest fully free blocks: the lists, as sets,
      are a function of the outstanding allocations. */
  lemma CoalescedIsCanon(p: Pool, A: set<Block>, F: set<Block>)
    requires Separate(p, A)
    ensures Coalesced(p, A, F) <==> forall b :: b in F <==> Canon(p, A, b)
  {
    if Coalesced(p, A, F) {
      forall b ensures b in F <==> Canon(p, A, b) { CoalescedMember(p, A, F, b); }
    }
    if forall b :: b in F <==> Canon(p, A, b) { CanonCoalesced(p, A, F); }
  }

  lemma CoalescedMember(p: Pool, A: set<Block>, F: set<Block>, b: Block)
    requires Coalesced(p, A, F)
    ensures b in F <==> Canon(p, A, b)
  {
    InsideParent(b);
    if b in F && b.level < p.depth && FullyFree(A, Parent(b)) {
      Siblings(b);
      var f := NotScattered(p, A, F, Parent(b));
      InsideTransitive(b, Parent(b), f);
      assert false;
    }
    if Canon(p, A, b) {
      var f := NotScattered(p, A, F, b);
      if f != b {
        StrictlyInside(b, f);
        FreePart(A, Parent(b), f);
      }
    }
  }

  lemma CanonCoalesced(p: Pool, A: set<Block>, F: set<Block>)
    requires Separate(p, A)
    requires forall b :: b in F <==> Canon(p, A, b)
    ensures Coalesced(p, A, F)
  {
    forall f, g | f in F && g in F && f != g ensures !Overlap(f, g) {
      CanonDisjoint(p, A, f, g);
    }
    forall u: Block | u.level == 0 && InPool(p, u) && FullyFree(A, u)
      ensures exists f :: f in F && Inside(u, f)
    {
      var f := FreeIsListed(p, A, u);
    }
    forall f | f in F && f.level < p.depth ensures Sibling(f) !in F {
      NoTwoBuddies(p, A, f);
    }
  }
}
