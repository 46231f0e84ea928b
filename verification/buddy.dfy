/** The buddy allocator: free lists threaded through the free memory, one bit tree per page. */
module BuddyAllocator {
  import opened Bits
  import opened Words
  import opened BuddyBlocks
  import opened BuddyLayout
  import opened BuddyLists

  /** The list that serves requests of len bytes: that of the smallest blocks that are large enough. */
  function LevelFor(g: Layout, len: nat): nat
    requires len > 0
  {
    if CeilLog2(len) <= g.minLog2 then 0 else CeilLog2(len) - g.minLog2
  }

  lemma LevelForSmallest(g: Layout, len: nat, l: nat)
    requires 0 < len <= g.PageLen()
    ensures LevelFor(g, len) <= l <==> len <= g.Len(l)
    ensures LevelFor(g, len) <= g.pool.depth
  {
    CeilLog2Least(len, g.minLog2 + l);
    CeilLog2Least(len, g.minLog2 + g.pool.depth);
  }

  predicate HasBit(w: nat, v: nat) {
    And(w, Pow2(v)) == Pow2(v)
  }

  lemma MaskBits(w: nat, v: nat, u: nat)
    requires v < 32 && u < 32
    ensures HasBit(Or(w, Pow2(v)), u) == (u == v || HasBit(w, u))
    ensures Pow2(v) < Pow2(32)
    ensures HasBit(And(w, Not(Pow2(v), 32)), u) == (u != v && HasBit(w, u))
  {
    TestBit(w, u);
    TestBit(Or(w, Pow2(v)), u);
    SetBit(w, v, u);
    ClearBit(w, v, 32, u);
    TestBit(And(w, Not(Pow2(v), 32)), u);
  }

  /** Different blocks have different pages, words or bits. */
  lemma OneBitEach(g: Layout, b: Block, c: Block)
    requires b.level <= g.pool.depth && c.level <= g.pool.depth && b != c
    ensures || Up(b, g.pool.depth).idx != Up(c, g.pool.depth).idx
            || TreeIndex(g, b) / 32 != TreeIndex(g, c) / 32
            || TreeIndex(g, b) % 32 != TreeIndex(g, c) % 32
  {
    if Up(b, g.pool.depth).idx == Up(c, g.pool.depth).idx && TreeIndex(g, b) == TreeIndex(g, c) {
      TreeIndexInjective(g, b, c);
    }
  }

  /** The first n pages of a pool. */
  function Pages(p: Pool, n: nat): (s: seq<Block>)
    ensures |s| == n && forall i :: 0 <= i < n ==> s[i] == Block(p.depth, i)
  {
    seq(n, (i: nat) => Block(p.depth, i))
  }

  /** Linking page i behind the pages before it. */
  lemma LinkPage(g: Layout, mem: Memory, head: nat, i: nat)
    requires g.base > 0
    requires ChainOk(g, mem, head, Pages(g.pool, i), g.pool.depth)
    ensures i > 0 ==> g.Addr(Block(g.pool.depth, i - 1)) in mem
    ensures var p := g.Addr(Block(g.pool.depth, i));
            i == 0 ==> ChainOk(g, mem[p := Node(0, 0)], p, Pages(g.pool, 1), g.pool.depth)
    ensures var p, tail := g.Addr(Block(g.pool.depth, i)), if i == 0 then 0 else g.Addr(Block(g.pool.depth, i - 1));
            i > 0 ==> ChainOk(g, mem[tail := mem[tail].(next := p)][p := Node(tail, 0)], head,
                              Pages(g.pool, i + 1), g.pool.depth)
  {
    var ps, qs, p := Pages(g.pool, i), Pages(g.pool, i + 1), g.Addr(Block(g.pool.depth, i));
    DistinctAddresses(g, qs, g.pool.depth);
    assert forall k :: 0 <= k < i ==> At(g, qs, k) == At(g, ps, k);
    if i > 0 {
      NodeAt(g, mem, head, ps, g.pool.depth, i - 1);
      var tail := At(g, ps, i - 1);
      var mem' := mem[tail := mem[tail].(next := p)][p := Node(tail, 0)];
      forall k | 0 <= k < i + 1 ensures NodeOk(g, mem', qs, k) {
        assert k < i ==> NodeOk(g, mem, ps, k);
        assert k < i ==> At(g, qs, k) != At(g, qs, i);
        assert k < i - 1 ==> At(g, qs, k) != At(g, qs, i - 1);
      }
    }
  }

  /** The loop of buddy_startup that makes the linked list of pages. */
  method LinkPages(g: Layout, mem: Memory) returns (m: Memory, head: nat)
    requires g.base > 0
    ensures ChainOk(g, m, head, Pages(g.pool, g.pool.pages), g.pool.depth)
  {
    m, head := mem, 0;
    var tail, i := 0, 0;
    while i < g.pool.pages
      invariant 0 <= i <= g.pool.pages
      invariant ChainOk(g, m, head, Pages(g.pool, i), g.pool.depth)
      invariant i > 0 ==> tail == g.Addr(Block(g.pool.depth, i - 1))
    {
      LinkPage(g, m, head, i);
      var p := g.base + Shl(i, g.minLog2 + g.pool.depth);
      if head != 0 {
        m := m[tail := m[tail].(next := p)];
        m := m[p := Node(tail, 0)];
      } else {
        head := p;
        m := m[p := Node(0, 0)];
      }
      tail := p;
      i := i + 1;
    }
  }

  /** The lists at startup: all empty except the one of the pages. */
  ghost function FreshChains(p: Pool): seq<seq<Block>> {
    seq(p.depth + 1, l => if l == p.depth then Pages(p, p.pages) else [])
  }

  lemma FreshListed(p: Pool, b: Block)
    ensures Listed(FreshChains(p), b) <==> Canon(p, {}, b)
  {
    EmptyCanon(p, b);
    if b.level <= p.depth {
      assert FreshChains(p)[b.level] == if b.level == p.depth then Pages(p, p.pages) else [];
    }
    if b.level == p.depth && b.idx < p.pages {
      assert Pages(p, p.pages)[b.idx] == b;
    }
  }

  lemma FreshShape(g: Layout, mem: Memory, heads: seq<nat>)
    requires g.base > 0 && |heads| == g.pool.depth + 1
    requires forall l :: 0 <= l < g.pool.depth ==> heads[l] == 0
    requires ChainOk(g, mem, heads[g.pool.depth], Pages(g.pool, g.pool.pages), g.pool.depth)
    ensures ShapeOk(g, mem, heads, FreshChains(g.pool))
  {
    var cs := FreshChains(g.pool);
    forall b, c | Listed(cs, b) && Listed(cs, c) && g.Addr(b) == g.Addr(c) ensures b == c {
      AddrInjective(g, b, c);
    }
  }

  class Buddy {
    const g: Layout
    const lists: array<nat>
    const trees: array2<nat>
    var memory: Memory
    ghost var chains: seq<seq<Block>>
    ghost var live: set<Block>

    /** The last part of buddy_startup: clears the trees and strings the pages together. mem is what the region held. */
    constructor (g0: Layout, mem: Memory)
      requires g0.Ok()
      ensures g == g0 && Valid() && live == {}
      ensures chains[g0.pool.depth] == Pages(g0.pool, g0.pool.pages)
      ensures fresh(lists) && fresh(trees)
    {
      g := g0;
      lists := new nat[g0.pool.depth + 1](_ => 0);
      trees := new nat[g0.pool.pages, WordsPerPage(g0.pool.depth)]((_, _) => 0);
      memory := mem;
      chains := FreshChains(g0.pool);
      live := {};
      new;
      var m, head := LinkPages(g, memory);
      memory := m;
      lists[lists.Length - 1] := head;
      FreshShape(g, m, lists[..]);
      forall b ensures Listed(chains, b) <==> Canon(g.pool, {}, b) { FreshListed(g.pool, b); }
      ClearBits();
    }

    lemma ClearBits()
      requires TreesSized() && live == {}
      requires forall i, j :: 0 <= i < trees.Length0 && 0 <= j < trees.Length1 ==> trees[i, j] == 0
      ensures BitsAgree()
    {
      forall b | InPool(g.pool, b) ensures !BlockBit(b) {
        WordInside(g, b);
        TestBit(0, TreeIndex(g, b) % 32);
        BitOfZero(TreeIndex(g, b) % 32);
      }
    }

    // ----- the invariant -----

    ghost predicate Shape()
      reads this, lists
    {
      g.Ok() && lists.Length == g.pool.depth + 1 && ShapeOk(g, memory, lists[..], chains)
    }

    /** The lists hold the largest blocks that are free when A is allocated. */
    ghost predicate Serves(A: set<Block>)
      reads this
    {
      forall b :: Listed(chains, b) <==> Canon(g.pool, A, b)
    }

    ghost predicate TreesSized()
      reads this
    {
      g.Ok() && trees.Length0 == g.pool.pages && trees.Length1 == WordsPerPage(g.pool.depth)
    }

    /** The state bit of a block. */
    ghost predicate BlockBit(b: Block)
      requires TreesSized() && InPool(g.pool, b)
      reads this, trees
    {
      WordInside(g, b);
      var j := TreeIndex(g, b);
      HasBit(trees[Up(b, g.pool.depth).idx, j / 32], j % 32)
    }

    /** The bits are set for the allocated blocks and for no other. */
    ghost predicate BitsAgree()
      reads this, trees
    {
      TreesSized() && forall b :: InPool(g.pool, b) ==> (BlockBit(b) <==> b in live)
    }

    ghost predicate Valid()
      reads this, lists, trees
    {
      Shape() && Serves(live) && Separate(g.pool, live) && BitsAgree()
    }

    // ----- the bit trees -----

    /** is_allocated */
    predicate IsAllocated(ptr: nat, len: nat, ghost b: Block)
      requires TreesSized() && InPool(g.pool, b)
      requires ptr == g.Addr(b) && len == g.Len(b.level)
      reads this, trees
      ensures IsAllocated(ptr, len, b) == BlockBit(b)
    {
      InfoIndexIsTreeIndex(g, b);
      PageOfBlock(g, b);
      WordInside(g, b);
      var i := PageIndex(g, ptr);
      var j := BlockInfoIndex(g, ptr, len);
      HasBit(trees[i, j / 32], j % 32)
    }

    /** set_allocated: changes the bit of one block and of no other block. */
    method SetAllocated(ptr: nat, len: nat, value: bool, ghost b: Block)
      requires BitsAgree() && InPool(g.pool, b)
      requires ptr == g.Addr(b) && len == g.Len(b.level)
      modifies trees, `live
      ensures live == if value then old(live) + {b} else old(live) - {b}
      ensures BitsAgree()
    {
      InfoIndexIsTreeIndex(g, b);
      PageOfBlock(g, b);
      WordInside(g, b);
      var i := PageIndex(g, ptr);
      var j := BlockInfoIndex(g, ptr, len);
      var u, v := j / 32, j % 32;
      WriteBit(i, u, v, value);
      live := if value then live + {b} else live - {b};
      forall c | InPool(g.pool, c) ensures BlockBit(c) <==> c in live {
        WordInside(g, c);
        if c != b { OneBitEach(g, b, c); }
        assert old(BlockBit(c)) <==> c in old(live);
      }
    }

    /** Sets or clears bit v of one word. */
    method WriteBit(i: nat, u: nat, v: nat, value: bool)
      requires i < trees.Length0 && u < trees.Length1 && v < 32
      modifies trees
      ensures forall x, y :: 0 <= x < trees.Length0 && 0 <= y < trees.Length1 && (x != i || y != u) ==>
                trees[x, y] == old(trees[x, y])
      ensures forall z: nat :: z < 32 ==>
                HasBit(trees[i, u], z) == if z == v then value else old(HasBit(trees[i, u], z))
    {
      ghost var w := trees[i, u];
      MaskBits(w, v, v);
      if value {
        trees[i, u] := Or(trees[i, u], Pow2(v));
      } else {
        trees[i, u] := And(trees[i, u], Not(Pow2(v), 32));
      }
      forall z: nat | z < 32 ensures HasBit(trees[i, u], z) == if z == v then value else HasBit(w, z) {
        MaskBits(w, v, z);
      }
    }

    /** is_allocated_considering_splits */
    predicate IsAllocatedConsideringSplits(ptr: nat, len: nat, ghost b: Block)
      requires TreesSized() && InPool(g.pool, b)
      requires ptr == g.Addr(b) && len == g.Len(b.level)
      reads this, trees
      decreases len
    {
      if len == Pow2(g.minLog2) then IsAllocated(ptr, len, b)
      else
        HalvesOf(b);
        var sib := ptr + len / 2;
        || IsAllocated(ptr, len, b)
        || IsAllocatedConsideringSplits(ptr, len / 2, FirstHalf(b))
        || IsAllocatedConsideringSplits(sib, len / 2, Sibling(FirstHalf(b)))
    }

    lemma HalvesOf(b: Block)
      requires InPool(g.pool, b) && g.Len(b.level) != Pow2(g.minLog2)
      ensures b.level > 0
      ensures g.Len(b.level - 1) == g.Len(b.level) / 2 < g.Len(b.level)
      ensures g.Addr(FirstHalf(b)) == g.Addr(b)
      ensures g.Addr(Sibling(FirstHalf(b))) == g.Addr(b) + g.Len(b.level) / 2
      ensures InPool(g.pool, FirstHalf(b)) && InPool(g.pool, Sibling(FirstHalf(b)))
    {
      var h := FirstHalf(b);
      AddrOfHalves(g, h);
      assert Parent(h) == b;
      InsideParent(h);
      PartInPool(g.pool, h, b);
      Siblings(h);
    }

    /** One level of the recursive test. */
    lemma SplitsLevel(ptr: nat, len: nat, b: Block)
      requires TreesSized() && InPool(g.pool, b) && b.level > 0
      requires ptr == g.Addr(b) && len == g.Len(b.level)
      ensures g.Len(b.level - 1) == len / 2 < len
      ensures g.Addr(FirstHalf(b)) == ptr && g.Addr(Sibling(FirstHalf(b))) == ptr + len / 2
      ensures InPool(g.pool, FirstHalf(b)) && InPool(g.pool, Sibling(FirstHalf(b)))
      ensures IsAllocatedConsideringSplits(ptr, len, b) <==>
              || BlockBit(b)
              || IsAllocatedConsideringSplits(ptr, len / 2, FirstHalf(b))
              || IsAllocatedConsideringSplits(ptr + len / 2, len / 2, Sibling(FirstHalf(b)))
    {
      Pow2Monotone(g.minLog2, g.minLog2 + b.level);
      HalvesOf(b);
    }

    lemma SmallestTest(ptr: nat, len: nat, b: Block)
      requires TreesSized() && InPool(g.pool, b) && b.level == 0
      requires ptr == g.Addr(b) && len == g.Len(b.level)
      ensures IsAllocatedConsideringSplits(ptr, len, b) <==> BlockBit(b)
    {
    }

    /** The recursive test is true when the block or any of its splits is allocated, and only then. */
    lemma {:induction false} SplitsTest(ptr: nat, len: nat, b: Block)
      requires BitsAgree() && InPool(g.pool, b)
      requires ptr == g.Addr(b) && len == g.Len(b.level)
      ensures IsAllocatedConsideringSplits(ptr, len, b) <==> AllocatedWithin(live, b)
      decreases b.level
    {
      WithinHalves(live, b);
      if b.level == 0 {
        SmallestTest(ptr, len, b);
      } else {
        SplitsLevel(ptr, len, b);
        SplitsTest(ptr, len / 2, FirstHalf(b));
        SplitsTest(ptr + len / 2, len / 2, Sibling(FirstHalf(b)));
      }
    }

    // ----- the free lists -----

    /** append: puts a block in front of its list. */
    method Append(i: nat, ptr: nat, ghost b: Block)
      requires Shape() && b.level == i < lists.Length && ptr == g.Addr(b)
      requires forall c :: Listed(chains, c) ==> g.Addr(c) != ptr
      modifies lists, `memory, `chains
      ensures Shape()
      ensures chains == old(chains)[i := [b] + old(chains[i])]
      ensures old(lists[i]) != 0 ==> old(lists[i]) in old(memory)
      ensures memory == Pushed(old(memory), old(lists[i]), ptr)
    {
      PushShape(g, memory, lists[..], chains, b);
      ghost var heads := lists[..];
      if lists[i] != 0 {
        memory := memory[lists[i] := memory[lists[i]].(prev := ptr)];
      }
      memory := memory[ptr := Node(0, lists[i])];
      lists[i] := ptr;
      chains := chains[i := [b] + chains[i]];
      assert lists[..] == heads[i := ptr];
    }

    /** pop: takes the first block off a list. */
    method Pop(i: nat) returns (ptr: nat)
      requires Shape() && i < lists.Length && lists[i] != 0
      modifies lists, `memory, `chains
      ensures Shape()
      ensures |old(chains[i])| > 0 && ptr == g.Addr(old(chains[i][0]))
      ensures chains == old(chains)[i := old(chains[i])[1..]]
      ensures forall x :: x in old(memory) && (forall c :: Listed(old(chains), c) ==> x != g.Addr(c)) ==>
                x in memory && memory[x] == old(memory[x])
    {
      ghost var cs, mem, heads := chains, memory, lists[..];
      assert ChainOk(g, mem, heads[i], cs[i], i);
      UnlinkShape(g, mem, heads, cs, i, 0);
      ptr := lists[i];
      lists[i] := memory[ptr].next;
      if lists[i] != 0 {
        memory := memory[lists[i] := memory[lists[i]].(prev := 0)];
        ChainMember(g, mem, heads, cs, i, 1);
      }
      chains := chains[i := chains[i][1..]];
      assert Without(cs[i], 0) == cs[i][1..];
      assert lists[..] == heads[i := At(g, cs[i], 1)];
    }

    /** remove_sibling_from_list: unlinks the buddy of a block, which must be on the list. */
    method RemoveSiblingFromList(i: nat, ptr: nat, ghost b: Block)
      requires Shape() && b.level == i < g.pool.depth && ptr == g.Addr(b)
      requires Listed(chains, Sibling(b))
      modifies lists, `memory, `chains
      ensures Shape()
      ensures forall c :: Listed(chains, c) <==> Listed(old(chains), c) && c != Sibling(b)
      ensures |chains| == |old(chains)|
      ensures forall x :: x in old(memory) && (forall c :: Listed(old(chains), c) ==> x != g.Addr(c)) ==>
                x in memory && memory[x] == old(memory[x])
    {
      BuddyByAddress(g, b);
      ghost var cs, mem, heads := chains, memory, lists[..];
      ghost var k :| 0 <= k < |cs[i]| && cs[i][k] == Sibling(b);
      UnlinkShape(g, mem, heads, cs, i, k);
      if k > 0 { ChainMember(g, mem, heads, cs, i, k - 1); }
      if k + 1 < |cs[i]| { ChainMember(g, mem, heads, cs, i, k + 1); }
      var sibling := SiblingOf(ptr, g.Len(i));
      var links := memory[sibling];
      if links.prev != 0 {
        memory := memory[links.prev := memory[links.prev].(next := links.next)];
      } else {
        lists[i] := links.next;
      }
      if links.next != 0 {
        memory := memory[links.next := memory[links.next].(prev := links.prev)];
      }
      chains := chains[i := Without(chains[i], k)];
      assert memory == Unlinked(mem, sibling);
      assert lists[..] == heads[i := if k == 0 then At(g, cs[i], 1) else heads[i]];
      forall c ensures Listed(chains, c) <==> Listed(cs, c) && c != Sibling(b) {
        ListedWithout(g, mem, heads, cs, i, k, c);
      }
    }

    // ----- allocation -----

    /** normalize_len */
    method NormalizeLen(len0: nat) returns (len: nat)
      requires g.Ok() && len0 <= g.PageLen()
      ensures len == if len0 == 0 then 0 else g.Len(LevelFor(g, len0))
    {
      if len0 == 0 { return 0; }
      LevelForSmallest(g, len0, 0);
      CeilLog2Least(len0, g.minLog2);
      if len0 < Pow2(g.minLog2) { return Pow2(g.minLog2); }
      PageFitsWord(g);
      if CeilLog2(len0) < g.minLog2 { Pow2Monotone(CeilLog2(len0), g.minLog2); }
      len := RoundPow2(len0);
    }

    /** list_index_for_size */
    method ListIndexForSize(len: nat, ghost l: nat) returns (i: nat)
      requires g.Ok() && l <= g.pool.depth && len == g.Len(l)
      ensures i == l
    {
      LowestSetOfPow2(g.minLog2 + l);
      PageFitsWord(g);
      Pow2UpTo(g.minLog2 + l, g.minLog2 + g.pool.depth);
      var k := FirstSet(len);
      i := k - g.minLog2;
    }

    /** The lists while block cur is neither free nor allocated. */
    ghost predicate Pending(A: set<Block>, cur: Block)
      reads this, lists
    {
      && Shape()
      && Separate(g.pool, A)
      && InPool(g.pool, cur)
      && FullyFree(A, cur)
      && Serves(A + {cur})
    }

    /** One turn of the splitting loop: the second half of cur goes to the list below. */
    method SplitOff(ptr: nat, j: nat, ghost A: set<Block>, ghost cur: Block)
      requires Pending(A, cur) && cur.level == j + 1 && ptr == g.Addr(cur)
      modifies lists, `memory, `chains
      ensures Pending(A, FirstHalf(cur)) && g.Addr(FirstHalf(cur)) == ptr
      ensures chains == old(chains)[j := [Sibling(FirstHalf(cur))] + old(chains[j])]
      ensures Kept(g, A, old(memory), memory)
    {
      ghost var x := FirstHalf(cur);
      ghost var y := Sibling(x);
      FirstHalfOf(g, A, cur, j);
      PendingApart(g, A, cur, chains);
      PushKeptHere(A, y);
      ghost var cs := chains;
      var sibling := SiblingOf(ptr, g.Len(j));
      Append(j, sibling, y);
      ListedPushed(cs, y);
      SplitServes(g.pool, A, x, cs, chains);
    }

    lemma PushKeptHere(A: set<Block>, b: Block)
      requires Shape() && b.level < lists.Length
      requires forall c :: Listed(chains, c) ==> FullyFree(A, c)
      requires FullyFree(A, b)
      ensures lists[b.level] != 0 ==> lists[b.level] in memory
      ensures Kept(g, A, memory, Pushed(memory, lists[b.level], g.Addr(b)))
    {
      assert lists[..][b.level] == lists[b.level];
      assert ChainOk(g, memory, lists[..][b.level], chains[b.level], b.level);
      if lists[b.level] != 0 { ChainMember(g, memory, lists[..], chains, b.level, 0); }
      PushKept(g, A, memory, lists[..], chains, b);
    }

    lemma EmptyList(j: nat)
      requires Shape() && j < lists.Length
      ensures lists[j] == 0 <==> chains[j] == []
      ensures chains[j] != [] ==> lists[j] == g.Addr(chains[j][0]) && chains[j][0].level == j
    {
      assert ChainOk(g, memory, lists[..][j], chains[j], j);
    }

    lemma PopServes(A: set<Block>, cs: seq<seq<Block>>, cur: Block)
      requires forall b :: Listed(cs, b) <==> Canon(g.pool, A, b)
      requires Listed(cs, cur) && cs[cur.level][0] == cur && NoDuplicates(cs[cur.level])
      requires chains == cs[cur.level := cs[cur.level][1..]]
      ensures Serves(A + {cur})
    {
      AllDiffer(cs[cur.level]);
      forall c ensures Listed(chains, c) <==> Canon(g.pool, A + {cur}, c) {
        Take(g.pool, A, cur, c);
        if c.level == cur.level {
          assert cs[cur.level] == [cur] + chains[cur.level];
          if c in chains[cur.level] {
            var k :| 0 <= k < |chains[cur.level]| && chains[cur.level][k] == c;
            assert cs[cur.level][k + 1] == c;
          }
        }
      }
    }

    /** The index of the first list from i on that is not empty. */
    method FindList(i: nat) returns (j: nat)
      requires Shape() && i < lists.Length
      ensures i <= j <= lists.Length
      ensures forall l :: i <= l < j ==> chains[l] == []
      ensures j < lists.Length ==> lists[j] != 0 && chains[j] != []
    {
      j := i;
      while j < lists.Length && lists[j] == 0
        invariant i <= j <= lists.Length
        invariant forall l :: i <= l < j ==> chains[l] == []
      {
        EmptyList(j);
        j := j + 1;
      }
      if j < lists.Length { EmptyList(j); }
    }

    /** The splitting loop: shaves second halves off the block at ptr until it has level i. */
    method SplitDown(ptr: nat, m: nat, i: nat, ghost A: set<Block>, ghost top: Block)
      requires Pending(A, top) && i <= m == top.level && ptr == g.Addr(top)
      modifies lists, `memory, `chains
      ensures Pending(A, FirstPart(top, i)) && ptr == g.Addr(FirstPart(top, i))
      ensures Shaved(old(chains), top, i, chains)
      ensures Kept(g, A, old(memory), memory)
    {
      var j := m;
      ShavedNothing(chains, top);
      while j > i
        invariant i <= j <= m
        invariant Pending(A, FirstPart(top, j)) && ptr == g.Addr(FirstPart(top, j))
        invariant Shaved(old(chains), top, j, chains)
        invariant Kept(g, A, old(memory), memory)
      {
        SplitTurn(ptr, j, A, top, old(chains), old(memory));
        j := j - 1;
      }
    }

    /** One turn of the loop: from level j to the one below. */
    method SplitTurn(ptr: nat, j: nat, ghost A: set<Block>, ghost top: Block,
                     ghost cs: seq<seq<Block>>, ghost mem: Memory)
      requires 0 < j <= top.level && Pending(A, FirstPart(top, j)) && ptr == g.Addr(FirstPart(top, j))
      requires Shaved(cs, top, j, chains) && Kept(g, A, mem, memory)
      modifies lists, `memory, `chains
      ensures Pending(A, FirstPart(top, j - 1)) && ptr == g.Addr(FirstPart(top, j - 1))
      ensures Shaved(cs, top, j - 1, chains) && Kept(g, A, mem, memory)
    {
      FirstPartStep(top, j - 1);
      SplitOff(ptr, j - 1, A, FirstPart(top, j));
      ShavedStep(cs, top, j - 1, old(chains), chains);
      KeptOn(g, A, mem, old(memory), memory);
    }

    /** Takes the first block off list j; it is pending from then on. */
    method TakeFirst(j: nat, ghost top: Block) returns (ptr: nat)
      requires Valid() && j < lists.Length && chains[j] != [] && top == chains[j][0]
      modifies lists, `memory, `chains
      ensures Pending(live, top) && top.level == j && ptr == g.Addr(top)
      ensures chains == old(chains)[j := old(chains[j])[1..]]
      ensures Kept(g, live, old(memory), memory)
    {
      EmptyList(j);
      ghost var cs := chains;
      ChainMember(g, memory, lists[..], chains, j, 0);
      assert ChainOk(g, memory, lists[..][j], chains[j], j);
      ptr := Pop(j);
      UnlinkKept(g, live, old(memory), memory, cs);
      PopServes(live, cs, top);
    }

    /** buddy_malloc on a handle that is not NULL. */
    method Malloc(len0: nat) returns (ptr: nat)
      requires Valid() && len0 < WORD
      modifies this, lists, trees
      ensures Valid()
      ensures len0 == 0 || len0 > g.PageLen() ==> ptr == 0
      ensures ptr == 0 ==> live == old(live) && chains == old(chains) && memory == old(memory)
      ensures 0 < len0 <= g.PageLen() ==>
                (ptr != 0 <==> exists b :: Available(g, old(live), LevelFor(g, len0), b))
      ensures ptr != 0 ==>
                && ptr == g.Addr(Granted(g, ptr, len0))
                && Available(g, old(live), LevelFor(g, len0), Granted(g, ptr, len0))
                && live == old(live) + {Granted(g, ptr, len0)}
                && CutFrom(old(chains), LevelFor(g, len0), Granted(g, ptr, len0), chains)
      ensures Kept(g, old(live), old(memory), memory)
    {
      if len0 == 0 || len0 > g.PageLen() { return 0; }
      ghost var A, cs, l := live, chains, LevelFor(g, len0);
      LevelForSmallest(g, len0, g.pool.depth);
      var len := NormalizeLen(len0);
      var i := ListIndexForSize(len, l);
      var j := FindList(i);
      if j == lists.Length {
        NothingAvailable(l);
        return 0;
      }
      ghost var top := chains[j][0];
      ptr := TakeFirst(j, top);
      ghost var mem := memory;
      SplitDown(ptr, j, i, A, top);
      ghost var cur := FirstPart(top, i);
      SetAllocated(ptr, len, true, cur);
      BlockAtAddr(g, cur);
      SeparateTogether(g.pool, A, cur);
      assert Available(g, A, l, cur);
      ShavedIsCarved(cs, l, j, chains);
    }

    /** The last turn of the coalescing loop: cur cannot be merged and becomes a node of its list. */
    method PutBack(i: nat, ptr: nat, ghost A: set<Block>, ghost cur: Block)
      requires Pending(A, cur) && cur.level == i && ptr == g.Addr(cur)
      requires i == g.pool.depth || AllocatedWithin(A, Sibling(cur))
      modifies lists, `memory, `chains
      ensures Shape() && Serves(A)
      ensures Kept(g, A, old(memory), memory)
    {
      if i < g.pool.depth { CoalesceTest(g.pool, A, cur); }
      PendingApart(g, A, cur, chains);
      PushKeptHere(A, cur);
      ghost var cs := chains;
      Append(i, ptr, cur);
      ListedPushed(cs, cur);
      forall c ensures Listed(chains, c) <==> Canon(g.pool, A, c) { Take(g.pool, A, cur, c); }
    }

    /** One merging turn of the coalescing loop. The bit test has found no allocated part of the sibling; then the
        sibling is a node of list i, so that unlinking it without a search is right. */
    method Merge(i: nat, ptr: nat, ghost A: set<Block>, ghost cur: Block)
      requires Pending(A, cur) && cur.level == i < g.pool.depth && ptr == g.Addr(cur)
      requires !AllocatedWithin(A, Sibling(cur))
      modifies lists, `memory, `chains
      ensures Pending(A, Parent(cur))
      ensures Kept(g, A, old(memory), memory)
    {
      CoalesceTest(g.pool, A, cur);
      Siblings(cur);
      assert Listed(chains, Sibling(cur));
      EmptyList(i);
      assert lists[i] != 0;
      forall c | Listed(chains, c) ensures FullyFree(A, c) { assert A <= A + {cur}; }
      ghost var cs := chains;
      RemoveSiblingFromList(i, ptr, cur);
      UnlinkKept(g, A, old(memory), memory, cs);
      forall c ensures Listed(chains, c) <==> Canon(g.pool, A + {Parent(cur)}, c) {
        Split(g.pool, A, cur, c);
        Split(g.pool, A, cur, Sibling(cur));
        MergedApart(g.pool, A, cur);
      }
    }

    /** The coalescing loop: merges the block at ptr0 with free buddies and puts the result on its list. */
    method Coalesce(ptr0: nat, len0: nat, ghost b: Block)
      requires Pending(live, b) && BitsAgree() && ptr0 == g.Addr(b) && len0 == g.Len(b.level)
      modifies lists, `memory, `chains
      ensures Valid()
      ensures Kept(g, live, old(memory), memory)
    {
      var ptr, len := ptr0, len0;
      ghost var cur := b;
      while true
        invariant Pending(live, cur) && BitsAgree() && ptr == g.Addr(cur) && len == g.Len(cur.level)
        invariant Kept(g, live, old(memory), memory)
        decreases g.pool.depth - cur.level
      {
        var i := ListIndexForSize(len, cur.level);
        PageOnlyAtTop(cur.level);
        if len == g.PageLen() || SiblingAllocated(ptr, len, cur) {
          PutBack(i, ptr, live, cur);
          break;
        }
        Merge(i, ptr, live, cur);
        ParentOfBlock(g, ptr, len, cur);
        ptr := ParentOf(ptr, len);
        len := 2 * len;
        cur := Parent(cur);
      }
    }

    lemma PageOnlyAtTop(l: nat)
      requires l <= g.pool.depth
      ensures g.Len(l) == g.PageLen() <==> l == g.pool.depth
    {
      if l < g.pool.depth { Pow2Monotone(g.minLog2 + l, g.minLog2 + g.pool.depth); }
    }

    /** sibling_allocated_considering_splits */
    predicate SiblingAllocated(ptr: nat, len: nat, ghost b: Block)
      requires BitsAgree() && InPool(g.pool, b) && b.level < g.pool.depth
      requires ptr == g.Addr(b) && len == g.Len(b.level)
      reads this, trees
      ensures SiblingAllocated(ptr, len, b) <==> AllocatedWithin(live, Sibling(b))
    {
      BuddyByAddress(g, b);
      Siblings(b);
      SplitsTest(g.Addr(Sibling(b)), len, Sibling(b));
      IsAllocatedConsideringSplits(SiblingOf(ptr, len), len, Sibling(b))
    }

    /** buddy_free on a handle that is not NULL. */
    method Free(len0: nat, ptr: nat)
      requires Valid() && len0 < WORD
      requires ptr != 0 && 0 < len0 <= g.PageLen() ==>
                 g.base <= ptr < g.base + g.Size() && Low(ptr, g.minLog2 + LevelFor(g, len0)) == 0
      modifies this, lists, trees
      ensures Valid()
      ensures Freeable(g, old(live), len0, ptr) ==> live == old(live) - {Granted(g, ptr, len0)}
      ensures !Freeable(g, old(live), len0, ptr) ==> unchanged(this) && unchanged(lists) && unchanged(trees)
      ensures Kept(g, live, old(memory), memory)
    {
      if ptr == 0 || len0 == 0 { return; }
      if len0 > g.PageLen() { return; }
      LevelForSmallest(g, len0, g.pool.depth);
      ghost var l := LevelFor(g, len0);
      ghost var b := BlockAt(g, ptr, l);
      AlignedIsBlock(g, ptr, l);
      var len := NormalizeLen(len0);
      if !IsAllocated(ptr, len, b) { return; }
      TakenOut(g.pool, live, b);
      assert Serves((live - {b}) + {b}) by { assert (live - {b}) + {b} == live; }
      SetAllocated(ptr, len, false, b);
      Coalesce(ptr, len, b);
    }

    /** The owner of an allocated block writes into it. */
    method Store(x: nat, n: Node, ghost b: Block)
      requires Valid() && b in live && g.Addr(b) <= x < g.Addr(b) + g.Len(b.level)
      modifies `memory
      ensures Valid()
      ensures memory == old(memory)[x := n]
    {
      ghost var mem := memory;
      forall c | Listed(chains, c) ensures g.Addr(c) != x { FreeNotInUse(g, live, c); }
      memory := memory[x := n];
      forall l | 0 <= l < |chains| ensures ChainOk(g, memory, lists[..][l], chains[l], l) {
        OtherList(g, mem, memory, lists[..], chains, l, {x});
      }
    }

    lemma NothingAvailable(l: nat)
      requires Valid()
      requires forall k :: l <= k < |chains| ==> chains[k] == []
      ensures forall b :: !Available(g, live, l, b)
    {
      forall b ensures !Available(g, live, l, b) {
        if Available(g, live, l, b) {
          var c := FreeIsListed(g.pool, live, b);
        }
      }
    }
  }

  /** b is a block of level l that shares no byte with any block of A. */
  ghost predicate Available(g: Layout, A: set<Block>, l: nat, b: Block) {
    b.level == l && InPool(g.pool, b) && FullyFree(A, b)
  }

  lemma FirstHalfOf(g: Layout, A: set<Block>, b: Block, j: nat)
    requires g.BaseAligned()
    requires b.level == j + 1 && InPool(g.pool, b) && FullyFree(A, b)
    ensures Parent(FirstHalf(b)) == b
    ensures InPool(g.pool, FirstHalf(b)) && FullyFree(A, FirstHalf(b)) && FullyFree(A, Sibling(FirstHalf(b)))
    ensures Inside(Sibling(FirstHalf(b)), b)
    ensures g.Addr(FirstHalf(b)) == g.Addr(b)
    ensures SiblingOf(g.Addr(b), g.Len(j)) == g.Addr(Sibling(FirstHalf(b)))
  {
    var x := FirstHalf(b);
    assert Parent(x) == b;
    InsideParent(x);
    InsideParent(Sibling(x));
    Siblings(x);
    PartInPool(g.pool, x, b);
    FreePart(A, x, b);
    FreePart(A, Sibling(x), b);
    AddrOfHalves(g, x);
    BuddyByAddress(g, x);
  }

  lemma ParentOfBlock(g: Layout, ptr: nat, len: nat, b: Block)
    requires g.BaseAligned() && b.level < g.pool.depth
    requires ptr == g.Addr(b) && len == g.Len(b.level)
    ensures ParentOf(ptr, len) == g.Addr(Parent(b))
    ensures 2 * len == g.Len(Parent(b).level)
  {
    BuddyByAddress(g, b);
    AddrOfHalves(g, b);
  }

  /** While cur is pending, no block of the lists shares its address, nor that of a part of it. */
  lemma PendingApart(g: Layout, A: set<Block>, cur: Block, cs: seq<seq<Block>>)
    requires forall c :: Listed(cs, c) <==> Canon(g.pool, A + {cur}, c)
    ensures forall c, y :: Listed(cs, c) && Inside(y, cur) ==> g.Addr(c) != g.Addr(y)
    ensures forall c :: Listed(cs, c) ==> FullyFree(A, c)
  {
    forall c | Listed(cs, c) ensures FullyFree(A, c) && !Overlap(cur, c) {
      assert cur in A + {cur};
      assert A <= A + {cur};
    }
    forall c, y | Listed(cs, c) && Inside(y, cur) ensures g.Addr(c) != g.Addr(y) {
      if Overlap(c, y) { OverlapLarger(c, y, cur); }
      AddrSeparates(g, c, y);
    }
  }

  lemma ListedPushed(cs: seq<seq<Block>>, b: Block)
    requires b.level < |cs|
    ensures forall c :: Listed(cs[b.level := [b] + cs[b.level]], c) <==> Listed(cs, c) || c == b
  {
    var cs' := cs[b.level := [b] + cs[b.level]];
    forall c ensures Listed(cs', c) <==> Listed(cs, c) || c == b {
      assert c.level < |cs| ==> cs'[c.level] == if c.level == b.level then [b] + cs[c.level] else cs[c.level];
    }
  }

  lemma SplitServes(p: Pool, A: set<Block>, x: Block, cs: seq<seq<Block>>, cs': seq<seq<Block>>)
    requires InPool(p, x) && x.level < p.depth && FullyFree(A, Parent(x))
    requires forall c :: Listed(cs, c) <==> Canon(p, A + {Parent(x)}, c)
    requires forall c :: Listed(cs', c) <==> Listed(cs, c) || c == Sibling(x)
    ensures forall c :: Listed(cs', c) <==> Canon(p, A + {x}, c)
  {
    forall c ensures Listed(cs', c) <==> Canon(p, A + {x}, c) { Split(p, A, x, c); }
  }

  /** The call asks for the release of a block that is allocated with that very size class. */
  ghost predicate Freeable(g: Layout, A: set<Block>, len: nat, ptr: nat) {
    ptr != 0 && 0 < len <= g.PageLen() && ptr >= g.base && Granted(g, ptr, len) in A
  }

  lemma TakenOut(p: Pool, A: set<Block>, b: Block)
    requires Separate(p, A) && b in A
    ensures Separate(p, A - {b}) && FullyFree(A - {b}, b) && InPool(p, b)
  {
  }

  lemma MergedApart(p: Pool, A: set<Block>, x: Block)
    ensures !Canon(p, A + {Parent(x)}, Sibling(x))
  {
    InsideParent(Sibling(x));
    assert Parent(x) in A + {Parent(x)};
  }

  /** The block that a pointer stands for when it was asked for with length len. */
  function Granted(g: Layout, ptr: nat, len: nat): Block {
    if len == 0 || ptr < g.base then Block(0, 0) else BlockAt(g, ptr, LevelFor(g, len))
  }

  lemma SeparateTogether(p: Pool, A: set<Block>, b: Block)
    requires Separate(p, A) && InPool(p, b) && FullyFree(A, b)
    ensures Separate(p, A + {b})
  {
  }

  /** List j is the first one from i on that is not empty. */
  ghost predicate FirstNonEmpty(cs: seq<seq<Block>>, i: nat, j: nat) {
    i <= j < |cs| && cs[j] != [] && cs[j][0].level == j && forall l :: i <= l < j ==> cs[l] == []
  }

  /** cs is cs0 with the halves in front that are shaved off top when its first part of level i is cut out. */
  ghost predicate Shaved(cs0: seq<seq<Block>>, top: Block, i: nat, cs: seq<seq<Block>>) {
    && |cs| == |cs0|
    && forall l :: 0 <= l < |cs| ==>
         cs[l] == (if i <= l < top.level then [Sibling(FirstPart(top, l))] else []) + cs0[l]
  }

  lemma ShavedNothing(cs: seq<seq<Block>>, top: Block)
    ensures Shaved(cs, top, top.level, cs)
  {
  }

  lemma ShavedStep(cs0: seq<seq<Block>>, top: Block, i: nat, cs: seq<seq<Block>>, cs': seq<seq<Block>>)
    requires i < top.level && i < |cs|
    requires Shaved(cs0, top, i + 1, cs)
    requires cs' == cs[i := [Sibling(FirstPart(top, i))] + cs[i]]
    ensures Shaved(cs0, top, i, cs')
  {
  }

  /** Block b of level i is the first part of the first block of the first list that can serve it: that block leaves
      its list and the halves shaved off it become the only blocks of the lists between; the others stay. */
  ghost predicate CutFrom(cs: seq<seq<Block>>, i: nat, b: Block, cs': seq<seq<Block>>) {
    exists j: nat ::
      && FirstNonEmpty(cs, i, j)
      && b == FirstPart(cs[j][0], i)
      && |cs'| == |cs|
      && cs'[j] == cs[j][1..]
      && (forall l :: i <= l < j ==> cs'[l] == [Sibling(FirstPart(cs[j][0], l))])
      && (forall l :: 0 <= l < |cs| && !(i <= l <= j) ==> cs'[l] == cs[l])
  }

  lemma ShavedIsCarved(cs: seq<seq<Block>>, i: nat, j: nat, cs': seq<seq<Block>>)
    requires FirstNonEmpty(cs, i, j)
    requires Shaved(cs[j := cs[j][1..]], cs[j][0], i, cs')
    ensures CutFrom(cs, i, FirstPart(cs[j][0], i), cs')
  {
  }

  lemma PageFitsWord(g: Layout)
    requires g.Ok()
    ensures g.PageLen() <= 0x8000_0000
    ensures g.PageLen() <= WORD / 2
  {
    Pow2UpTo(g.minLog2 + g.pool.depth, 31);
    Pow2Of64();
    assert Pow2(32) == 2 * Pow2(31);
  }
}
