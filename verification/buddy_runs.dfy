/** What one call of the buddy allocator undoes, and what is left when everything has been freed. */
module BuddyRuns {
  import opened Bits
  import opened Words
  import opened BuddyBlocks
  import opened BuddyLayout
  import opened BuddyLists
  import opened BuddyAllocator

  /** A request for release: the length and the pointer of an allocation. */
  datatype Handle = Handle(len: nat, ptr: nat)

  function BlockOf(g: Layout, h: Handle): Block { Granted(g, h.ptr, h.len) }

  predicate WellFormed(g: Layout, h: Handle) {
    && 0 < h.len <= g.PageLen()
    && g.base <= h.ptr < g.base + g.Size()
    && Low(h.ptr, g.minLog2 + LevelFor(g, h.len)) == 0
  }

  /** malloc followed by the matching free restores the free lists as sets. */
  method MallocThenFree(alloc: Buddy, len: nat)
    requires alloc.Valid() && len < WORD
    modifies alloc, alloc.lists, alloc.trees
    ensures alloc.Valid() && alloc.live == old(alloc.live)
    ensures forall b :: Listed(alloc.chains, b) <==> old(Listed(alloc.chains, b))
  {
    ghost var live, cs := alloc.live, alloc.chains;
    ListsFollow(alloc);
    var p := alloc.Malloc(len);
    if p != 0 {
      FreeGiven(alloc, live, len, p);
    }
    ListsFollow(alloc);
    forall b ensures Listed(alloc.chains, b) <==> Listed(cs, b) {
      assert Canon(alloc.g.pool, live, b) <==> Listed(cs, b);
    }
  }

  /** The free of what malloc has given. */
  method FreeGiven(alloc: Buddy, ghost live: set<Block>, len: nat, p: nat)
    requires alloc.Valid() && p != 0 && 0 < len <= alloc.g.PageLen()
    requires p == alloc.g.Addr(Granted(alloc.g, p, len))
    requires Available(alloc.g, live, LevelFor(alloc.g, len), Granted(alloc.g, p, len))
    requires alloc.live == live + {Granted(alloc.g, p, len)}
    modifies alloc, alloc.lists, alloc.trees
    ensures alloc.Valid() && alloc.live == live
  {
    FitsInWord(alloc.g);
    GivenBack(alloc.g, live, len, p);
    alloc.Free(len, p);
  }

  lemma ListsFollow(alloc: Buddy)
    requires alloc.Valid()
    ensures forall b :: Listed(alloc.chains, b) <==> Canon(alloc.g.pool, alloc.live, b)
  {
  }

  /** What malloc gives, free takes back. */
  lemma GivenBack(g: Layout, live: set<Block>, len: nat, p: nat)
    requires g.Ok() && p != 0 && 0 < len <= g.PageLen()
    requires p == g.Addr(Granted(g, p, len)) && Available(g, live, LevelFor(g, len), Granted(g, p, len))
    ensures g.base <= p < g.base + g.Size() && Low(p, g.minLog2 + LevelFor(g, len)) == 0
    ensures Freeable(g, live + {Granted(g, p, len)}, len, p)
    ensures live + {Granted(g, p, len)} - {Granted(g, p, len)} == live
  {
    var b := Granted(g, p, len);
    var q := AddrAligned(g, b);
    PageOfBlock(g, b);
    assert b !in live by { assert Overlap(b, b); }
  }

  /** The outstanding allocations are those of the handles from i on. */
  ghost predicate Outstanding(g: Layout, order: seq<Handle>, i: nat, live: set<Block>) {
    forall b :: b in live <==> exists k :: i <= k < |order| && b == BlockOf(g, order[k])
  }

  predicate Distinct(g: Layout, order: seq<Handle>) {
    forall i, j :: 0 <= i < j < |order| ==> BlockOf(g, order[i]) != BlockOf(g, order[j])
  }

  lemma OneReleased(g: Layout, order: seq<Handle>, i: nat, live: set<Block>)
    requires Outstanding(g, order, i, live) && Distinct(g, order) && i < |order|
    ensures BlockOf(g, order[i]) in live
    ensures Outstanding(g, order, i + 1, live - {BlockOf(g, order[i])})
  {
    var rest := live - {BlockOf(g, order[i])};
    forall b ensures b in rest <==> exists k :: i + 1 <= k < |order| && b == BlockOf(g, order[k]) {
      if k :| i <= k < |order| && b == BlockOf(g, order[k]) {
        if k == i { assert forall j :: i < j < |order| ==> BlockOf(g, order[j]) != b; }
      }
    }
  }

  /** Releasing all allocations, in any order, leaves the lists as after startup: only whole pages, and all of them. */
  method FreeEverything(alloc: Buddy, order: seq<Handle>)
    requires alloc.Valid()
    requires forall i :: 0 <= i < |order| ==> WellFormed(alloc.g, order[i])
    requires Distinct(alloc.g, order) && Outstanding(alloc.g, order, 0, alloc.live)
    modifies alloc, alloc.lists, alloc.trees
    ensures alloc.Valid() && alloc.live == {}
    ensures AtStartup(alloc.g, alloc.chains)
  {
    var i := 0;
    while i < |order|
      invariant 0 <= i <= |order|
      invariant alloc.Valid()
      invariant Outstanding(alloc.g, order, i, alloc.live)
    {
      OneReleased(alloc.g, order, i, alloc.live);
      FreeOne(alloc, order[i]);
      i := i + 1;
    }
    assert alloc.live == {};
    OnlyPages(alloc);
  }

  method FreeOne(alloc: Buddy, h: Handle)
    requires alloc.Valid() && WellFormed(alloc.g, h) && BlockOf(alloc.g, h) in alloc.live
    modifies alloc, alloc.lists, alloc.trees
    ensures alloc.Valid() && alloc.live == old(alloc.live) - {BlockOf(alloc.g, h)}
  {
    FitsInWord(alloc.g);
    alloc.Free(h.len, h.ptr);
  }

  lemma FitsInWord(g: Layout)
    requires g.Ok()
    ensures g.PageLen() < WORD
  {
    PageFitsWord(g);
  }

  /** The lists as buddy_startup leaves them, up to the order of the pages. */
  ghost predicate AtStartup(g: Layout, cs: seq<seq<Block>>) {
    && |cs| == g.pool.depth + 1
    && (forall l :: 0 <= l < g.pool.depth ==> cs[l] == [])
    && multiset(cs[g.pool.depth]) == multiset(Pages(g.pool, g.pool.pages))
  }

  lemma OnlyPages(alloc: Buddy)
    requires alloc.Valid() && alloc.live == {}
    ensures AtStartup(alloc.g, alloc.chains)
  {
    var g, cs := alloc.g, alloc.chains;
    forall b ensures Listed(cs, b) <==> b.level == g.pool.depth && b.idx < g.pool.pages {
      EmptyCanon(g.pool, b);
    }
    forall l | 0 <= l < g.pool.depth ensures cs[l] == [] {
      assert ChainOk(g, alloc.memory, alloc.lists[..][l], cs[l], l);
      if cs[l] != [] { assert Listed(cs, cs[l][0]); }
    }
    var top, pages := cs[g.pool.depth], Pages(g.pool, g.pool.pages);
    assert ChainOk(g, alloc.memory, alloc.lists[..][g.pool.depth], top, g.pool.depth);
    forall b ensures b in top <==> b in pages {
      assert b in top ==> Listed(cs, b);
      if b.level == g.pool.depth && b.idx < g.pool.pages { assert pages[b.idx] == b && Listed(cs, b); }
    }
    SameMembers(top, pages);
  }

  lemma SameMembers(s: seq<Block>, t: seq<Block>)
    requires NoDuplicates(s) && NoDuplicates(t)
    requires forall b :: b in s <==> b in t
    ensures multiset(s) == multiset(t)
  {
    forall b ensures multiset(s)[b] == multiset(t)[b] {
      Once(s, b);
      Once(t, b);
    }
  }

  lemma {:induction false} Once(s: seq<Block>, b: Block)
    requires NoDuplicates(s)
    ensures multiset(s)[b] == if b in s then 1 else 0
  {
    if s == [] {
    } else {
      AllDiffer(s);
      assert s == [s[0]] + s[1..];
      Once(s[1..], b);
    }
  }

  /** Outstanding allocations in terms of bytes: each lies in the pool, aligned to its size; no two share a byte. */
  lemma OutstandingBytes(alloc: Buddy, a: Block, b: Block)
    requires alloc.Valid() && a in alloc.live && b in alloc.live && a != b
    ensures var g := alloc.g;
            && g.base <= g.Addr(a) && g.Addr(a) + g.Len(a.level) <= g.base + g.Size()
            && g.Addr(a) % g.Len(a.level) == 0
            && (g.Addr(a) + g.Len(a.level) <= g.Addr(b) || g.Addr(b) + g.Len(b.level) <= g.Addr(a))
  {
    PageOfBlock(alloc.g, a);
    var q := AddrAligned(alloc.g, a);
    LowIsMod(alloc.g.Addr(a), alloc.g.minLog2 + a.level);
    OverlapIsBytes(alloc.g, a, b);
  }
}
