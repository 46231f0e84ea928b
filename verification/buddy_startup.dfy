/** buddy_startup: carving a region of memory into a header, bit trees and aligned pages. */
module BuddyStartup {
  import opened Bits
  import opened Words
  import opened Alignment
  import opened BuddyBlocks
  import opened BuddyLayout
  import opened BuddyLists
  import opened BuddyAllocator

  // ----- how many pages -----

  /** A region that starts with its trees, of treeLen bytes each; pages have 2^k bytes. */
  datatype Region = Region(base: nat, size: nat, treeLen: nat, k: nat) {
    ghost predicate Ok() { base + size <= WORD && k <= 64 }

    /** Where n trees end. */
    function TreesEnd(n: nat): nat {
      if n == 0 then base else TreesEnd(n - 1) + treeLen
    }

    /** n trees, the padding and n aligned pages all fit. */
    predicate Fits(n: nat)
      requires Ok()
    {
      TreesEnd(n) <= base + size && AlignUp(TreesEnd(n), k) + Shl(n, k) <= base + size
    }

    /** The region goes as far as the first place where a page could start. */
    predicate Reaches()
      requires Ok()
    {
      AlignUp(base, k) <= base + size
    }

    /** The largest count for which everything fits. */
    ghost predicate LargestFit(n: nat)
      requires Ok()
    {
      (n > 0 ==> Fits(n)) && forall m :: m > n ==> !Fits(m)
    }
  }

  lemma {:induction false} TreesEndIsProduct(r: Region, n: nat)
    ensures r.TreesEnd(n) == r.base + n * r.treeLen
  {
    if n == 0 {
    } else {
      TreesEndIsProduct(r, n - 1);
      MulDistributes(n - 1, 1, r.treeLen);
    }
  }

  /** If one page more fits, so do these. */
  lemma FitsStep(r: Region, n: nat)
    requires r.Ok() && r.Fits(n + 1)
    ensures r.Fits(n)
  {
    var q := AlignUpAligns(r.TreesEnd(n + 1), r.k);
    AlignUpLeast(r.TreesEnd(n), r.k, AlignUp(r.TreesEnd(n + 1), r.k));
    ShlMonotone(n, n + 1, r.k);
  }

  lemma {:induction false} FitsMonotone(r: Region, m: nat, n: nat)
    requires r.Ok() && m <= n && r.Fits(n)
    ensures r.Fits(m)
  {
    if m == n {
    } else {
      FitsStep(r, n - 1);
      FitsMonotone(r, m, n - 1);
    }
  }

  lemma FirstFailure(r: Region, n: nat)
    requires r.Ok() && (n > 0 ==> r.Fits(n)) && !r.Fits(n + 1)
    ensures r.LargestFit(n)
  {
    forall m | m > n ensures !r.Fits(m) {
      if r.Fits(m) { FitsMonotone(r, n + 1, m); }
    }
  }

  /** What fitting means: n trees, and behind them n pages from a multiple of their size on, inside the region. */
  lemma FitsExactly(r: Region, n: nat)
    requires r.Ok()
    ensures r.Fits(n) <==>
            exists p: nat :: r.base + n * r.treeLen <= p && Low(p, r.k) == 0 && p + n * Pow2(r.k) <= r.base + r.size
  {
    TreesEndIsProduct(r, n);
    ShlIsMul(n, r.k);
    MulNat(n, Pow2(r.k));
    var end := r.TreesEnd(n);
    if r.Fits(n) {
      var q := AlignUpAligns(end, r.k);
      assert end <= AlignUp(end, r.k) && Low(AlignUp(end, r.k), r.k) == 0;
    }
    if p: nat :| end <= p && Low(p, r.k) == 0 && p + n * Pow2(r.k) <= r.base + r.size {
      AlignUpLeast(end, r.k, p);
    }
  }

  lemma WholeBlocks(l: nat, k: nat, n: nat)
    ensures n <= Shr(l, k) <==> Shl(n, k) <= l
  {
    Recompose(l, k);
    var q := Shr(l, k);
    if n <= q {
      ShlMonotone(n, q, k);
    } else {
      ShlMonotone(q + 1, n, k);
      ShlAdd(q, 1, k);
      ShlOne(k);
    }
  }

  lemma {:induction false} AtLeastAsLong(n: nat, k: nat)
    ensures n <= Shl(n, k)
  {
    if k == 0 {
    } else {
      AtLeastAsLong(n, k - 1);
    }
  }

  /** There are never more pages than bytes. */
  lemma FitsBound(r: Region, n: nat)
    requires r.Ok() && r.Fits(n)
    ensures n <= r.size
  {
    TreesEndBehind(r, n);
    AtLeastAsLong(n, r.k);
  }

  /** One turn of the counting loop: whether maybe trees and as many pages fit. */
  method TryTrees(r: Region, maybe: nat) returns (ok: bool)
    requires r.Ok()
    ensures ok == r.Fits(maybe)
  {
    var p, l := r.base, r.size;
    TreesEndIsProduct(r, maybe);
    MulNat(maybe, r.treeLen);
    var region := maybe * r.treeLen;
    if region > l { return false; }
    p, l := p + region, l - region;
    var pad := Pad(p, r.k);
    if pad > l { return false; }
    p, l := p + pad, l - pad;
    WholeBlocks(l, r.k, maybe);
    var blocks := Shr(l, r.k);
    return blocks >= maybe;
  }

  /** The loop of buddy_startup that counts the trees. */
  method CountTrees(r: Region) returns (n: nat)
    requires r.Ok()
    ensures r.LargestFit(n) && !r.Fits(n + 1)
  {
    n := 0;
    var ok := TryTrees(r, 1);
    while ok
      invariant ok == r.Fits(n + 1)
      invariant n > 0 ==> r.Fits(n)
      decreases r.size + 1 - n, ok
    {
      FitsBound(r, n + 1);
      n := n + 1;
      ok := TryTrees(r, n + 1);
    }
    FirstFailure(r, n);
  }

  // ----- the whole of it -----

  /** There is room for the header and the paddings before and behind it. */
  predicate HeaderFits(base: nat, size: nat, alignLog2: nat, headerLen: nat)
    requires base + size <= WORD
  {
    var header := AlignUp(base, alignLog2) + headerLen;
    header <= base + size && AlignUp(header, 2) <= base + size
  }

  /** What is left of a region behind its padding, the header and the alignment of the 32-bit words of the trees. */
  function AfterHeader(base: nat, size: nat, alignLog2: nat, headerLen: nat, depth: nat, k: nat): Region
    requires base + size <= WORD
  {
    if !HeaderFits(base, size, alignLog2, headerLen) then Region(base + size, 0, 1, k)
    else
      var start := AlignUp(AlignUp(base, alignLog2) + headerLen, 2);
      Region(start, base + size - start, 4 * WordsPerPage(depth), k)
  }

  /** The header can start at start and the trees at trees, aligned and one behind the other. */
  ghost predicate Placed(base: nat, size: nat, alignLog2: nat, headerLen: nat, start: nat, trees: nat) {
    && base <= start && Low(start, alignLog2) == 0
    && start + headerLen <= trees <= base + size && trees % 4 == 0
  }

  /** The header fits exactly if it can be placed somewhere; then the trees get the lowest place that they can have. */
  lemma LowestPlace(base: nat, size: nat, alignLog2: nat, headerLen: nat, depth: nat, k: nat)
    requires base + size <= WORD && alignLog2 <= 64
    ensures HeaderFits(base, size, alignLog2, headerLen) <==>
            exists start: nat, trees: nat :: Placed(base, size, alignLog2, headerLen, start, trees)
    ensures HeaderFits(base, size, alignLog2, headerLen) ==>
              var r := AfterHeader(base, size, alignLog2, headerLen, depth, k);
              && (exists start: nat :: Placed(base, size, alignLog2, headerLen, start, r.base))
              && (forall start: nat, trees: nat ::
                    Placed(base, size, alignLog2, headerLen, start, trees) ==> r.base <= trees)
  {
    var q := AlignUpAligns(base, alignLog2);
    var start := AlignUp(base, alignLog2);
    if HeaderFits(base, size, alignLog2, headerLen) {
      var p := AlignUpAligns(start + headerLen, 2);
      LowOfTwo(AlignUp(start + headerLen, 2));
      assert Placed(base, size, alignLog2, headerLen, start, AlignUp(start + headerLen, 2));
    }
    forall start': nat, trees: nat | Placed(base, size, alignLog2, headerLen, start', trees)
      ensures HeaderFits(base, size, alignLog2, headerLen) && AlignUp(start + headerLen, 2) <= trees
    {
      AlignUpLeast(base, alignLog2, start');
      LowOfTwo(trees);
      AlignUpLeast(start + headerLen, 2, trees);
    }
  }

  lemma LowOfTwo(x: nat)
    ensures Low(x, 2) == x % 4
  {
    LowIsMod(x, 2);
    assert Pow2(2) == 4;
  }

  lemma NothingFits(r: Region)
    requires r.Ok() && r.size == 0 && r.treeLen > 0
    ensures !r.Fits(1)
  {
    assert r.TreesEnd(1) == r.TreesEnd(0) + r.treeLen;
  }

  /** The header and the two paddings around it. */
  method SkipHeader(base0: nat, size0: nat, alignLog2: nat, headerLen: nat, depth: nat, k: nat)
    returns (ok: bool, r: Region)
    requires base0 + size0 <= WORD && k <= 64
    ensures r == AfterHeader(base0, size0, alignLog2, headerLen, depth, k)
    ensures r.Ok() && r.k == k && ok == HeaderFits(base0, size0, alignLog2, headerLen)
    ensures if ok then base0 + headerLen <= r.base && r.base + r.size == base0 + size0 else !r.Fits(1)
  {
    var none := Region(base0 + size0, 0, 1, k);
    NothingFits(none);
    var base, size := base0, size0;
    var pad := Pad(base, alignLog2);
    if size < pad { return false, none; }
    base, size := base + pad, size - pad;
    if size < headerLen { return false, none; }
    base, size := base + headerLen, size - headerLen;
    pad := Pad(base, 2);
    if size < pad { return false, none; }
    base, size := base + pad, size - pad;
    return true, Region(base, size, 4 * WordsPerPage(depth), k);
  }

  lemma ReachesIfPages(r: Region, n: nat)
    requires r.Ok() && (n > 0 ==> r.Fits(n))
    ensures Shl(0, r.k) == 0 && r.TreesEnd(0) == r.base
    ensures n > 0 ==> r.Reaches()
  {
    NothingShifted(r.k);
    if n > 0 { FitsMonotone(r, 0, n); }
  }

  lemma PagesStart(r: Region, n: nat, end: nat)
    requires r.Ok() && end == r.TreesEnd(n) <= r.base + r.size && (n > 0 ==> r.Fits(n))
    ensures Low(AlignUp(end, r.k), r.k) == 0
    ensures AlignUp(end, r.k) <= r.base + r.size <==> r.Reaches()
    ensures r.Reaches() ==> AlignUp(end, r.k) + Shl(n, r.k) <= r.base + r.size
    ensures n > 0 ==> r.Reaches()
  {
    var q := AlignUpAligns(end, r.k);
    ReachesIfPages(r, n);
  }

  /** Where the pages start, behind n trees; it fails when not even the padding fits. */
  method PlacePages(r: Region, n: nat) returns (ok: bool, base: nat)
    requires r.Ok() && r.TreesEnd(n) <= r.base + r.size && (n > 0 ==> r.Fits(n))
    ensures ok ==> Low(base, r.k) == 0 && r.TreesEnd(n) <= base == AlignUp(r.TreesEnd(n), r.k)
    ensures ok ==> base + Shl(n, r.k) <= r.base + r.size
    ensures n > 0 ==> ok
    ensures ok <==> r.Reaches()
  {
    var size := r.base + r.size - r.TreesEnd(n);
    base := r.TreesEnd(n);
    PagesStart(r, n, base);
    var pad := Pad(base, r.k);
    if pad > size { return false, base; }
    base := base + pad;
    ok := true;
  }

  /** The pages of g are as many as fit, and lie behind the trees in r. */
  ghost predicate Carved(r: Region, g: Layout)
    requires r.Ok()
  {
    && r.LargestFit(g.pool.pages)
    && r.TreesEnd(g.pool.pages) <= g.base == AlignUp(r.TreesEnd(g.pool.pages), r.k)
    && g.base + g.Size() <= r.base + r.size
  }

  /** n pages from base on. */
  lemma CarvedFrom(r: Region, g: Layout, end: nat)
    requires r.Ok() && 0 < r.base && r.k == g.minLog2 + g.pool.depth && 3 < g.minLog2 && r.k <= 31
    requires end == r.TreesEnd(g.pool.pages) && r.LargestFit(g.pool.pages) && r.base <= end
    requires g.base == AlignUp(end, r.k) && Low(g.base, r.k) == 0 && end <= g.base
    requires g.base + Shl(g.pool.pages, r.k) <= r.base + r.size
    ensures g.Ok() && Carved(r, g)
  {
  }

  lemma {:induction false} TreesEndBehind(r: Region, n: nat)
    ensures r.base <= r.TreesEnd(n)
  {
    if n == 0 {
    } else {
      TreesEndBehind(r, n - 1);
    }
  }

  lemma NoPages(r: Region, n: nat)
    requires r.Ok() && r.LargestFit(n)
    ensures n == 0 <==> !r.Fits(1)
  {
    if n > 0 { FitsMonotone(r, 1, n); }
  }

  method Carve(r: Region, minLog2: nat, depth: nat) returns (ok: bool, g: Layout)
    requires r.Ok() && 0 < r.base && r.k == minLog2 + depth
    requires 3 < minLog2 && minLog2 + depth <= 31
    ensures ok <==> r.Reaches()
    ensures ok ==> g.Ok() && g.minLog2 == minLog2 && g.pool.depth == depth && Carved(r, g)
    ensures g.pool.pages == 0 <==> !r.Fits(1)
    ensures !ok ==> !r.Fits(1)
  {
    var n := CountTrees(r);
    var base;
    ok, base := PlacePages(r, n);
    g := Layout(base, minLog2, Pool(depth, n));
    NoPages(r, n);
    TreesEndBehind(r, n);
    if ok { CarvedFrom(r, g, r.TreesEnd(n)); }
  }

  /** buddy_startup; it fails exactly when the header does not fit or the padding behind it goes past the end, which
      includes the region that is NULL and empty. When the padding still fits and no page does, there are no pages. mem
      is what the region holds before. */
  method Startup(base0: nat, size0: nat, alignLog2: nat, headerLen: nat, minLog2: nat, depth: nat, mem: Memory)
    returns (alloc: Buddy?)
    requires (base0 == 0 ==> size0 == 0) && base0 + size0 <= WORD
    requires alignLog2 <= 64 && headerLen > 0
    requires 3 < minLog2 && minLog2 + depth <= 31
    ensures alloc != null ==>
              && fresh(alloc) && fresh(alloc.lists) && fresh(alloc.trees)
              && alloc.Valid()
              && alloc.live == {}
              && alloc.g.minLog2 == minLog2 && alloc.g.pool.depth == depth
              && alloc.chains[depth] == Pages(alloc.g.pool, alloc.g.pool.pages)
              && alloc.trees.Length0 == alloc.g.pool.pages
    ensures var r := AfterHeader(base0, size0, alignLog2, headerLen, depth, minLog2 + depth);
            && r.Ok()
            && (alloc == null <==> !HeaderFits(base0, size0, alignLog2, headerLen) || !r.Reaches())
            && (alloc == null ==> !r.Fits(1))
            && (alloc != null ==>
                  && Carved(r, alloc.g) && r.treeLen == 4 * alloc.trees.Length1
                  && base0 + headerLen <= r.base && r.base + r.size == base0 + size0
                  && (alloc.g.pool.pages == 0 <==> !r.Fits(1)))
  {
    var ok, r := SkipHeader(base0, size0, alignLog2, headerLen, depth, minLog2 + depth);
    if !ok { return null; }
    var g;
    ok, g := Carve(r, minLog2, depth);
    if !ok { return null; }
    alloc := new Buddy(g, mem);
  }

  /** The NULL region. */
  lemma NothingInNull(alignLog2: nat, headerLen: nat)
    requires headerLen > 0
    ensures !HeaderFits(0, 0, alignLog2, headerLen)
  {
  }

  lemma AlignedAlready(x: nat, k: nat)
    requires x <= WORD && k <= 64 && Low(x, k) == 0
    ensures AlignUp(x, k) == x
  {
    AlignUpLeast(x, k, x);
  }

  /** Nothing between two neighbouring multiples of 2^k is aligned. */
  lemma NextAligned(x: nat, q: nat, k: nat)
    requires Shl(q, k) < x <= Shl(q + 1, k) <= WORD && k <= 64
    ensures AlignUp(x, k) == Shl(q + 1, k)
  {
    LowUnique(Shl(q + 1, k), k, q + 1, 0);
    AlignUpLeast(x, k, Shl(q + 1, k));
    var p := AlignUpAligns(x, k);
    if p <= q { ShlMonotone(p, q, k); }
    if q + 1 < p { ShlMonotone(q + 1, p, k); }
  }

  lemma EndsAtFirstPage(r: Region, q: nat)
    requires r.Ok() && Shl(q, r.k) < r.base <= Shl(q + 1, r.k) == r.base + r.size
    ensures r.Reaches() && !r.Fits(1)
  {
    NextAligned(r.base, q, r.k);
    TreesEndBehind(r, 1);
    if r.TreesEnd(1) <= r.base + r.size { NextAligned(r.TreesEnd(1), q, r.k); }
    ShlOne(r.k);
  }

  lemma HeaderAt(base: nat, size: nat, alignLog2: nat, headerLen: nat, depth: nat, k: nat)
    requires base + headerLen <= base + size <= WORD
    requires AlignUp(base, alignLog2) == base && AlignUp(base + headerLen, 2) == base + headerLen
    ensures HeaderFits(base, size, alignLog2, headerLen)
    ensures AfterHeader(base, size, alignLog2, headerLen, depth, k)
            == Region(base + headerLen, size - headerLen, 4 * WordsPerPage(depth), k)
  {
  }

  lemma HeaderAligned(base: nat, size: nat, alignLog2: nat, headerLen: nat, depth: nat, k: nat)
    requires base + headerLen <= base + size <= WORD && alignLog2 <= 64
    requires Low(base, alignLog2) == 0 && Low(base + headerLen, 2) == 0
    ensures HeaderFits(base, size, alignLog2, headerLen)
    ensures AfterHeader(base, size, alignLog2, headerLen, depth, k)
            == Region(base + headerLen, size - headerLen, 4 * WordsPerPage(depth), k)
  {
    AlignedAlready(base, alignLog2);
    AlignedAlready(base + headerLen, 2);
    HeaderAt(base, size, alignLog2, headerLen, depth, k);
  }

  /** There are allocators without pages: when the region is as large as a page and aligned like one, and its header
      ends at a multiple of four, the first place for a page is the end of the region. */
  lemma NoRoomForPages(q: nat, alignLog2: nat, headerLen: nat, depth: nat, k: nat)
    requires k <= 64 && Shl(q, k) <= Shl(q + 1, k) <= WORD && alignLog2 <= 64 && Low(Shl(q, k), alignLog2) == 0
    requires 0 < headerLen && Shl(q, k) + headerLen <= Shl(q + 1, k) && Low(Shl(q, k) + headerLen, 2) == 0
    ensures var base, size := Shl(q, k), Shl(q + 1, k) - Shl(q, k);
            && HeaderFits(base, size, alignLog2, headerLen)
            && AfterHeader(base, size, alignLog2, headerLen, depth, k).Reaches()
            && !AfterHeader(base, size, alignLog2, headerLen, depth, k).Fits(1)
  {
    var base, end := Shl(q, k), Shl(q + 1, k);
    HeaderAligned(base, end - base, alignLog2, headerLen, depth, k);
    EndsAtFirstPage(Region(base + headerLen, end - base - headerLen, 4 * WordsPerPage(depth), k), q);
  }

  /** So with a header of 112 bytes and pages of 4096, in the region of 4096 bytes at 4096. */
  lemma NoRoomAt4096()
    ensures Shl(1, 12) == 4096 && Shl(2, 12) - Shl(1, 12) == 4096
    ensures HeaderFits(Shl(1, 12), Shl(2, 12) - Shl(1, 12), 3, 112)
    ensures var r := AfterHeader(Shl(1, 12), Shl(2, 12) - Shl(1, 12), 3, 112, 8, 12); r.Reaches() && !r.Fits(1)
  {
    assert Low(4096, 3) == 0 && Low(4208, 2) == 0;
    NoRoomForPages(1, 3, 112, 8, 12);
  }
}
