/** Where the blocks of the buddy allocator lie in memory: addresses, buddies, pages and the index of a block's bit. */
module BuddyLayout {
  import opened Bits
  import opened Words
  import opened BuddyBlocks

  /** The pool: pages of size 2^(minLog2 + depth) from base on, split down to blocks of size 2^minLog2. */
  datatype Layout = Layout(base: nat, minLog2: nat, pool: Pool) {

    /** The size of the blocks of list l. */
    function Len(l: nat): nat { Pow2(minLog2 + l) }

    function PageLen(): nat { Len(pool.depth) }

    function Size(): nat { Shl(pool.pages, minLog2 + pool.depth) }

    function Addr(b: Block): nat { base + Shl(b.idx, minLog2 + b.level) }

    /** buddy.h demands room for two pointers in every block; 1U << MAX must not overflow. */
    ghost predicate Ok() {
      && 3 < minLog2
      && minLog2 + pool.depth <= 31
      && 0 < base
      && BaseAligned()
      && base + Size() <= WORD
    }

    ghost predicate BaseAligned() {
      Low(base, minLog2 + pool.depth) == 0
    }
  }

  // ----- addresses -----

  lemma AddrOfHalves(g: Layout, b: Block)
    ensures g.Addr(b) == g.Addr(Parent(b)) + (if b.idx % 2 == 0 then 0 else g.Len(b.level))
    ensures g.Addr(Sibling(b)) == if b.idx % 2 == 0 then g.Addr(b) + g.Len(b.level) else g.Addr(b) - g.Len(b.level)
    ensures g.Len(b.level + 1) == 2 * g.Len(b.level)
  {
    var k, even := g.minLog2 + b.level, b.idx / 2 * 2;
    ShlDouble(b.idx / 2, k);
    ShlAdd(even, 1, k);
    ShlOne(k);
  }

  /** The bytes of a block lie within those of every block that contains it. */
  lemma {:induction false} AddrOfUp(g: Layout, b: Block, l: nat)
    requires b.level <= l
    ensures g.Addr(Up(b, l)) <= g.Addr(b)
    ensures g.Addr(b) + g.Len(b.level) <= g.Addr(Up(b, l)) + g.Len(l)
    decreases l - b.level
  {
    if b.level == l {
    } else {
      AddrOfHalves(g, b);
      AddrOfUp(g, Parent(b), l);
    }
  }

  lemma SameLevelApart(g: Layout, a: Block, b: Block)
    requires a.level == b.level && a.idx < b.idx
    ensures g.Addr(a) + g.Len(a.level) <= g.Addr(b)
  {
    var k := g.minLog2 + a.level;
    ShlMonotone(a.idx + 1, b.idx, k);
    ShlAdd(a.idx, 1, k);
    ShlOne(k);
  }

  /** Blocks overlap in the tree exactly when they share bytes. */
  lemma OverlapIsBytes(g: Layout, a: Block, b: Block)
    ensures Overlap(a, b) <==>
            g.Addr(a) < g.Addr(b) + g.Len(b.level) && g.Addr(b) < g.Addr(a) + g.Len(a.level)
  {
    if a.level <= b.level {
      OverlapIsBytesOrdered(g, a, b);
    } else {
      OverlapIsBytesOrdered(g, b, a);
    }
  }

  lemma OverlapIsBytesOrdered(g: Layout, a: Block, b: Block)
    requires a.level <= b.level
    ensures Overlap(a, b) <==>
            g.Addr(a) < g.Addr(b) + g.Len(b.level) && g.Addr(b) < g.Addr(a) + g.Len(a.level)
  {
    AddrOfUp(g, a, b.level);
    var c := Up(a, b.level);
    if c.idx < b.idx {
      SameLevelApart(g, c, b);
    } else if b.idx < c.idx {
      SameLevelApart(g, b, c);
    }
  }

  lemma AddrSeparates(g: Layout, a: Block, b: Block)
    requires !Overlap(a, b)
    ensures g.Addr(a) != g.Addr(b)
  {
    OverlapIsBytes(g, a, b);
  }

  lemma AddrInjective(g: Layout, a: Block, b: Block)
    requires a.level == b.level && g.Addr(a) == g.Addr(b)
    ensures a == b
  {
    if a.idx < b.idx { SameLevelApart(g, a, b); }
    if b.idx < a.idx { SameLevelApart(g, b, a); }
  }

  /** page_index */
  function PageIndex(g: Layout, ptr: nat): nat
    requires ptr >= g.base
  {
    Shr(ptr - g.base, g.minLog2 + g.pool.depth)
  }

  /** The page of a block, by address. */
  lemma PageOfBlock(g: Layout, b: Block)
    requires b.level <= g.pool.depth
    ensures PageIndex(g, g.Addr(b)) == Up(b, g.pool.depth).idx
    ensures InPool(g.pool, b) <==> g.Addr(b) < g.base + g.Size()
    ensures InPool(g.pool, b) ==> g.Addr(b) + g.Len(b.level) <= g.base + g.Size()
  {
    AddrOfUp(g, b, g.pool.depth);
    WithinPage(g.Addr(b) - g.base, g.Len(b.level), Up(b, g.pool.depth).idx, g.pool.pages, g.minLog2 + g.pool.depth);
  }

  lemma WithinPage(x: nat, len: nat, i: nat, n: nat, k: nat)
    requires 0 < len && Shl(i, k) <= x && x + len <= Shl(i, k) + Pow2(k)
    ensures Shr(x, k) == i
    ensures i < n <==> x < Shl(n, k)
    ensures i < n ==> x + len <= Shl(n, k)
  {
    ShrUnique(x, k, i, x - Shl(i, k));
    if i < n {
      ShlMonotone(i + 1, n, k);
      ShlAdd(i, 1, k);
      ShlOne(k);
    } else {
      ShlMonotone(n, i, k);
    }
  }

  /** The block of level l at an address. */
  function BlockAt(g: Layout, ptr: nat, l: nat): Block
    requires ptr >= g.base
  {
    Block(l, Shr(ptr - g.base, g.minLog2 + l))
  }

  /** A number that is aligned to 2^k is aligned to every smaller power of two. */
  lemma {:induction false} LowerAlignment(x: nat, j: nat, k: nat)
    requires j <= k && Low(x, k) == 0
    ensures Low(x, j) == 0
  {
    if j == 0 {
    } else {
      LowerAlignment(x / 2, j - 1, k - 1);
    }
  }

  /** Every length-aligned pointer into the pool is the address of one block of that length. */
  lemma AlignedIsBlock(g: Layout, ptr: nat, l: nat)
    requires g.BaseAligned() && l <= g.pool.depth
    requires g.base <= ptr < g.base + g.Size() && Low(ptr, g.minLog2 + l) == 0
    ensures g.Addr(BlockAt(g, ptr, l)) == ptr
    ensures InPool(g.pool, BlockAt(g, ptr, l))
  {
    var k := g.minLog2 + l;
    LowerAlignment(g.base, k, g.minLog2 + g.pool.depth);
    Recompose(g.base, k);
    Recompose(ptr, k);
    var p, q := Shr(ptr, k), Shr(g.base, k);
    if p < q { ShlMonotone(p, q, k); }
    ShlAdd(p - q, q, k);
    ShrUnique(ptr - g.base, k, p - q, 0);
    PageOfBlock(g, BlockAt(g, ptr, l));
  }

  lemma BlockAtAddr(g: Layout, b: Block)
    ensures BlockAt(g, g.Addr(b), b.level) == b
  {
    ShrUnique(g.Addr(b) - g.base, g.minLog2 + b.level, b.idx, 0);
  }

  lemma AddrAligned(g: Layout, b: Block) returns (q: nat)
    requires g.BaseAligned() && b.level <= g.pool.depth
    ensures g.Addr(b) == Shl(q, g.minLog2 + b.level)
    ensures Low(g.Addr(b), g.minLog2 + b.level) == 0
  {
    var k := g.minLog2 + b.level;
    LowerAlignment(g.base, k, g.minLog2 + g.pool.depth);
    Recompose(g.base, k);
    q := Shr(g.base, k) + b.idx;
    ShlAdd(Shr(g.base, k), b.idx, k);
    LowUnique(g.Addr(b), k, q, 0);
  }

  // ----- buddies by address -----

  /** sibling_of */
  function SiblingOf(ptr: nat, len: nat): int
    requires len > 0
  {
    if And(ptr, 2 * len - 1) == 0 then ptr + len else ptr - len
  }

  /** parent_of */
  function ParentOf(ptr: nat, len: nat): int
    requires len > 0
  {
    var sib := SiblingOf(ptr, len);
    if sib < ptr then sib else ptr
  }

  /** The masks on pointers find the address of the buddy and of the parent. */
  lemma BuddyByAddress(g: Layout, b: Block)
    requires g.BaseAligned() && b.level < g.pool.depth
    ensures SiblingOf(g.Addr(b), g.Len(b.level)) == g.Addr(Sibling(b))
    ensures ParentOf(g.Addr(b), g.Len(b.level)) == g.Addr(Parent(b))
  {
    AddrOfHalves(g, b);
    var q := AddrAligned(g, Parent(b));
    MaskUnique(g.Addr(b), g.minLog2 + b.level + 1, q, if b.idx % 2 == 0 then 0 else g.Len(b.level));
    assert 2 * g.Len(b.level) == Pow2(g.minLog2 + b.level + 1);
  }

  // ----- bits of the tree -----

  /** block_info_index */
  function BlockInfoIndex(g: Layout, ptr: nat, len: nat): nat
    requires len > 0 && LowestSet(len) <= g.minLog2 + g.pool.depth
  {
    var lenLog2 := LowestSet(len);
    var reloff := And(ptr, g.PageLen() - 1);
    Pow2(g.minLog2 + g.pool.depth - lenLog2) + Shr(reloff, lenLog2)
  }

  /** The index of a block in the breadth-first tree of its page: 1 for the page, 2i and 2i + 1 for the halves of i. */
  function TreeIndex(g: Layout, b: Block): nat
    requires b.level <= g.pool.depth
    decreases g.pool.depth - b.level
  {
    if b.level == g.pool.depth then 1 else 2 * TreeIndex(g, Parent(b)) + b.idx % 2
  }

  lemma {:induction false} TreeIndexRange(g: Layout, b: Block)
    requires b.level <= g.pool.depth
    ensures Pow2(g.pool.depth - b.level) <= TreeIndex(g, b) < Pow2(g.pool.depth - b.level + 1)
    decreases g.pool.depth - b.level
  {
    if b.level == g.pool.depth {
    } else {
      TreeIndexRange(g, Parent(b));
    }
  }

  /** No two blocks of a page share a bit. */
  lemma {:induction false} TreeIndexInjective(g: Layout, a: Block, b: Block)
    requires a.level <= g.pool.depth && b.level <= g.pool.depth
    requires Up(a, g.pool.depth) == Up(b, g.pool.depth)
    requires TreeIndex(g, a) == TreeIndex(g, b)
    ensures a == b
    decreases g.pool.depth - a.level
  {
    TreeIndexRange(g, a);
    TreeIndexRange(g, b);
    if a.level < b.level {
      Pow2UpTo(g.pool.depth - b.level + 1, g.pool.depth - a.level);
    } else if b.level < a.level {
      Pow2UpTo(g.pool.depth - a.level + 1, g.pool.depth - b.level);
    } else if a.level < g.pool.depth {
      TreeIndexInjective(g, Parent(a), Parent(b));
    }
  }

  lemma Pow2UpTo(a: nat, b: nat)
    requires a <= b
    ensures Pow2(a) <= Pow2(b)
  {
    if a < b { Pow2Monotone(a, b); }
  }

  /** The offset of a block in its page. */
  function Offset(g: Layout, b: Block): nat
    requires b.level <= g.pool.depth
    decreases g.pool.depth - b.level
  {
    if b.level == g.pool.depth then 0
    else Offset(g, Parent(b)) + (if b.idx % 2 == 0 then 0 else g.Len(b.level))
  }

  lemma {:induction false} OffsetByAddress(g: Layout, b: Block)
    requires b.level <= g.pool.depth
    ensures g.Addr(b) == g.Addr(Up(b, g.pool.depth)) + Offset(g, b)
    decreases g.pool.depth - b.level
  {
    if b.level == g.pool.depth {
    } else {
      AddrOfHalves(g, b);
      OffsetByAddress(g, Parent(b));
    }
  }

  /** The sum of the first index of a size class and of the offset counted in blocks is the breadth-first index. */
  lemma {:induction false} TreeIndexByOffset(g: Layout, b: Block)
    requires b.level <= g.pool.depth
    ensures Pow2(g.pool.depth - b.level) <= TreeIndex(g, b)
    ensures Shl(TreeIndex(g, b) - Pow2(g.pool.depth - b.level), g.minLog2 + b.level) == Offset(g, b)
    decreases g.pool.depth - b.level
  {
    var k := g.minLog2 + b.level;
    if b.level == g.pool.depth {
      ShlIsMul(0, k);
    } else {
      TreeIndexByOffset(g, Parent(b));
      OffsetOfHalf(TreeIndex(g, Parent(b)) - Pow2(g.pool.depth - b.level - 1), b.idx % 2, k);
    }
  }

  lemma OffsetOfHalf(n: nat, bit: nat, k: nat)
    requires bit < 2
    ensures Shl(2 * n + bit, k) == Shl(n, k + 1) + (if bit == 0 then 0 else Pow2(k))
  {
    ShlDouble(n, k);
    ShlAdd(2 * n, 1, k);
    ShlOne(k);
  }

  /** block_info_index computes the breadth-first index. */
  lemma InfoIndexIsTreeIndex(g: Layout, b: Block)
    requires g.BaseAligned() && b.level <= g.pool.depth
    ensures LowestSet(g.Len(b.level)) == g.minLog2 + b.level
    ensures BlockInfoIndex(g, g.Addr(b), g.Len(b.level)) == TreeIndex(g, b)
  {
    LowestSetOfPow2(g.minLog2 + b.level);
    RelativeOffset(g, b);
    TreeIndexByOffset(g, b);
    var i := TreeIndex(g, b) - Pow2(g.pool.depth - b.level);
    IndexOfOffset(g, g.Addr(b), g.Len(b.level), b.level, Offset(g, b), i);
  }

  lemma IndexOfOffset(g: Layout, ptr: nat, len: nat, l: nat, offset: nat, i: nat)
    requires len > 0 && LowestSet(len) == g.minLog2 + l && l <= g.pool.depth
    requires And(ptr, g.PageLen() - 1) == offset == Shl(i, g.minLog2 + l)
    ensures BlockInfoIndex(g, ptr, len) == Pow2(g.pool.depth - l) + i
  {
    ShiftedOffset(offset, g.minLog2 + l, i);
    assert g.minLog2 + g.pool.depth - LowestSet(len) == g.pool.depth - l;
  }

  lemma ShiftedOffset(offset: nat, k: nat, i: nat)
    requires offset == Shl(i, k)
    ensures Shr(offset, k) == i
  {
    ShrUnique(offset, k, i, 0);
  }

  lemma RelativeOffset(g: Layout, b: Block)
    requires g.BaseAligned() && b.level <= g.pool.depth
    ensures And(g.Addr(b), g.PageLen() - 1) == Offset(g, b)
  {
    OffsetByAddress(g, b);
    AddrOfUp(g, b, g.pool.depth);
    var q := AddrAligned(g, Up(b, g.pool.depth));
    MaskUnique(g.Addr(b), g.minLog2 + g.pool.depth, q, Offset(g, b));
  }

  lemma MaskUnique(x: nat, k: nat, q: nat, r: nat)
    requires x == Shl(q, k) + r && r < Pow2(k)
    ensures And(x, Pow2(k) - 1) == r
  {
    AndMask(x, k);
    LowUnique(x, k, q, r);
  }

  /** BIT_TREE_WORDS_PER_PAGE */
  function WordsPerPage(depth: nat): nat {
    (Pow2(depth + 1) - 1 + 31) / 32
  }

  /** The word of every bit lies inside the page's words. */
  lemma WordInside(g: Layout, b: Block)
    requires b.level <= g.pool.depth
    ensures TreeIndex(g, b) / 32 < WordsPerPage(g.pool.depth)
  {
    TreeIndexRange(g, b);
    Pow2UpTo(g.pool.depth - b.level + 1, g.pool.depth + 1);
    EnoughWords(TreeIndex(g, b), g.pool.depth);
  }

  /** Every index but 0 is that of a block, in every page. */
  lemma {:induction false} IndexTaken(g: Layout, page: nat, j: nat) returns (b: Block)
    requires 0 < j < Pow2(g.pool.depth + 1)
    ensures b.level <= g.pool.depth && Up(b, g.pool.depth) == Block(g.pool.depth, page)
    ensures TreeIndex(g, b) == j
  {
    if j == 1 {
      b := Block(g.pool.depth, page);
    } else {
      var parent := IndexTaken(g, page, j / 2);
      TreeIndexRange(g, parent);
      assert parent.level > 0;
      b := Block(parent.level - 1, 2 * parent.idx + j % 2);
      assert Parent(b) == parent;
    }
  }

  /** No word of the trees is there for nothing: it holds the bit of some block, in every page. */
  lemma WordNeeded(g: Layout, page: nat, w: nat) returns (b: Block)
    requires w < WordsPerPage(g.pool.depth)
    ensures b.level <= g.pool.depth && Up(b, g.pool.depth) == Block(g.pool.depth, page)
    ensures TreeIndex(g, b) / 32 == w
  {
    var j := if w == 0 then 1 else 32 * w;
    WordsOfBits(g.pool.depth);
    b := IndexTaken(g, page, j);
  }

  /** As many words of 32 bits as the bits of a page need, and no more. */
  lemma WordsOfBits(d: nat)
    ensures 32 * (WordsPerPage(d) - 1) < Pow2(d + 1) - 1 <= 32 * WordsPerPage(d)
  {
  }

  lemma EnoughWords(j: nat, d: nat)
    requires 0 < j < Pow2(d + 1)
    ensures j / 32 < WordsPerPage(d)
  {
    if d >= 4 {
      Pow2Add(d - 4, 5);
      assert Pow2(5) == 32;
      MultipleOf32(j, Pow2(d - 4));
    } else {
      Pow2UpTo(d + 1, 4);
      assert Pow2(4) == 16;
    }
  }

  lemma MultipleOf32(j: nat, m: nat)
    requires j < m * 32
    ensures j / 32 < (m * 32 - 1 + 31) / 32
  {
  }
}
