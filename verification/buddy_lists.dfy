/** The intrusive doubly linked free lists of the buddy allocator, as links stored in memory. */
module BuddyLists {
  import opened BuddyBlocks
  import opened BuddyLayout

  /** struct buddy_page: what the first bytes of a free block hold; address 0 is NULL. */
  datatype Node = Node(prev: nat, next: nat)

  type Memory = map<nat, Node>

  /** The address of the k-th block of a chain, NULL beyond its ends. */
  function At(g: Layout, chain: seq<Block>, k: int): nat {
    if 0 <= k < |chain| then g.Addr(chain[k]) else 0
  }

  /** The k-th node links its neighbours. */
  predicate NodeOk(g: Layout, mem: Memory, chain: seq<Block>, k: int) {
    At(g, chain, k) in mem && mem[At(g, chain, k)] == Node(At(g, chain, k - 1), At(g, chain, k + 1))
  }

  /** The list starting at head runs through the blocks of chain, forwards and backwards. */
  ghost predicate Linked(g: Layout, mem: Memory, head: nat, chain: seq<Block>) {
    && head == At(g, chain, 0)
    && forall k :: 0 <= k < |chain| ==> NodeOk(g, mem, chain, k)
  }

  predicate Differ(chain: seq<Block>, j: int, k: int) {
    0 <= j < k < |chain| ==> chain[j] != chain[k]
  }

  ghost predicate NoDuplicates(chain: seq<Block>) {
    forall j, k :: Differ(chain, j, k)
  }

  lemma AllDiffer(chain: seq<Block>)
    requires NoDuplicates(chain)
    ensures forall j, k :: 0 <= j < k < |chain| ==> chain[j] != chain[k]
  {
    forall j, k | 0 <= j < k < |chain| ensures chain[j] != chain[k] {
      assert Differ(chain, j, k);
    }
  }

  ghost predicate OnLevel(chain: seq<Block>, l: nat) {
    forall k :: 0 <= k < |chain| ==> chain[k].level == l
  }

  ghost predicate ChainOk(g: Layout, mem: Memory, head: nat, chain: seq<Block>, l: nat) {
    OnLevel(chain, l) && NoDuplicates(chain) && Linked(g, mem, head, chain)
  }

  lemma DistinctAddresses(g: Layout, chain: seq<Block>, l: nat)
    requires OnLevel(chain, l) && NoDuplicates(chain)
    ensures forall j, k :: 0 <= j < k < |chain| ==> At(g, chain, j) != At(g, chain, k)
  {
    AllDiffer(chain);
    forall j, k | 0 <= j < k < |chain| ensures At(g, chain, j) != At(g, chain, k) {
      if At(g, chain, j) == At(g, chain, k) { AddrInjective(g, chain[j], chain[k]); }
    }
  }

  /** Lists whose nodes were not written stay as they are. */
  lemma Untouched(g: Layout, mem: Memory, mem': Memory, head: nat, chain: seq<Block>, l: nat)
    requires ChainOk(g, mem, head, chain, l)
    requires forall b :: b in chain ==> g.Addr(b) in mem' && (g.Addr(b) in mem ==> mem'[g.Addr(b)] == mem[g.Addr(b)])
    ensures ChainOk(g, mem', head, chain, l)
  {
    forall k | 0 <= k < |chain| ensures NodeOk(g, mem', chain, k) {
      assert chain[k] in chain && NodeOk(g, mem, chain, k);
    }
  }

  /** What append stores. */
  function Pushed(mem: Memory, head: nat, ptr: nat): Memory
    requires head != 0 ==> head in mem
  {
    (if head != 0 then mem[head := mem[head].(prev := ptr)] else mem)[ptr := Node(0, head)]
  }

  lemma PushKeepsList(g: Layout, mem: Memory, head: nat, chain: seq<Block>, b: Block)
    requires g.base > 0
    requires ChainOk(g, mem, head, chain, b.level) && b !in chain
    ensures head != 0 ==> head in mem
    ensures ChainOk(g, Pushed(mem, head, g.Addr(b)), g.Addr(b), [b] + chain, b.level)
  {
    var chain' := [b] + chain;
    assert forall k :: 0 <= k < |chain| ==> chain'[k + 1] == chain[k];
    AllDiffer(chain);
    DistinctAddresses(g, chain', b.level);
    if chain != [] { assert NodeOk(g, mem, chain, 0); }
    var mem' := Pushed(mem, head, g.Addr(b));
    forall k | 0 <= k < |chain'| ensures NodeOk(g, mem', chain', k) {
      if k > 0 {
        assert At(g, chain', k) == At(g, chain, k - 1) && At(g, chain', k + 1) == At(g, chain, k);
        assert At(g, chain', 0) != At(g, chain', k);
        assert NodeOk(g, mem, chain, k - 1);
        if k > 1 {
          assert At(g, chain', 1) != At(g, chain', k);
          assert At(g, chain', k - 1) == At(g, chain, k - 2);
        }
      }
    }
  }

  /** What unlinking the node at ptr stores, head excepted: the links of ptr itself stay. */
  function Unlinked(mem: Memory, ptr: nat): Memory
    requires ptr in mem
    requires mem[ptr].prev != 0 ==> mem[ptr].prev in mem
    requires mem[ptr].next != 0 ==> mem[ptr].next in mem
  {
    var n := mem[ptr];
    var m := if n.prev != 0 then mem[n.prev := mem[n.prev].(next := n.next)] else mem;
    if n.next != 0 then m[n.next := m[n.next].(prev := n.prev)] else m
  }

  function Without(chain: seq<Block>, k: nat): seq<Block>
    requires k < |chain|
  {
    chain[..k] + chain[k + 1..]
  }

  lemma NodeAt(g: Layout, mem: Memory, head: nat, chain: seq<Block>, l: nat, k: nat)
    requires g.base > 0
    requires ChainOk(g, mem, head, chain, l) && k < |chain|
    ensures At(g, chain, k) in mem
    ensures mem[At(g, chain, k)] == Node(At(g, chain, k - 1), At(g, chain, k + 1))
    ensures At(g, chain, k - 1) != 0 <==> k > 0
    ensures At(g, chain, k + 1) != 0 <==> k + 1 < |chain|
    ensures At(g, chain, k - 1) != 0 ==> At(g, chain, k - 1) in mem
    ensures At(g, chain, k + 1) != 0 ==> At(g, chain, k + 1) in mem
  {
    assert NodeOk(g, mem, chain, k);
    if k > 0 { assert NodeOk(g, mem, chain, k - 1); }
    if k + 1 < |chain| { assert NodeOk(g, mem, chain, k + 1); }
  }

  /** What the other nodes hold after the k-th one was unlinked. */
  lemma UnlinkedAt(g: Layout, mem: Memory, head: nat, chain: seq<Block>, l: nat, k: nat, j: nat)
    requires g.base > 0
    requires ChainOk(g, mem, head, chain, l) && k < |chain| && j < |chain| && j != k
    requires At(g, chain, k) in mem
    requires mem[At(g, chain, k)].prev != 0 ==> mem[At(g, chain, k)].prev in mem
    requires mem[At(g, chain, k)].next != 0 ==> mem[At(g, chain, k)].next in mem
    ensures At(g, chain, j) in Unlinked(mem, At(g, chain, k))
    ensures Unlinked(mem, At(g, chain, k))[At(g, chain, j)] ==
            Node(At(g, chain, if j == k + 1 then k - 1 else j - 1), At(g, chain, if j == k - 1 then k + 1 else j + 1))
  {
    DistinctAddresses(g, chain, l);
    NodeAt(g, mem, head, chain, l, k);
    NodeAt(g, mem, head, chain, l, j);
  }

  /** Unlinking a node by its own links takes it, and only it, off its list: no search is needed. */
  lemma UnlinkKeepsList(g: Layout, mem: Memory, head: nat, chain: seq<Block>, l: nat, k: nat)
    requires g.base > 0
    requires ChainOk(g, mem, head, chain, l) && k < |chain|
    requires At(g, chain, k) in mem
    requires mem[At(g, chain, k)].prev != 0 ==> mem[At(g, chain, k)].prev in mem
    requires mem[At(g, chain, k)].next != 0 ==> mem[At(g, chain, k)].next in mem
    ensures ChainOk(g, Unlinked(mem, At(g, chain, k)), if k == 0 then At(g, chain, 1) else head, Without(chain, k), l)
  {
    var chain', mem' := Without(chain, k), Unlinked(mem, At(g, chain, k));
    AllDiffer(chain);
    forall i | 0 <= i < |chain'| ensures NodeOk(g, mem', chain', i) {
      UnlinkedAt(g, mem, head, chain, l, k, if i < k then i else i + 1);
      assert At(g, chain', i - 1) == At(g, chain, if i - 1 < k then i - 1 else i);
      assert At(g, chain', i + 1) == At(g, chain, if i + 1 < k then i + 1 else i + 2);
    }
  }

  // ----- all lists together -----

  /** b is on the list of its level. */
  predicate Listed(cs: seq<seq<Block>>, b: Block) {
    b.level < |cs| && b in cs[b.level]
  }

  /** No other block of the lists has the address of b. */
  ghost predicate Alone(g: Layout, cs: seq<seq<Block>>, b: Block) {
    forall c :: Listed(cs, c) && g.Addr(c) == g.Addr(b) ==> c == b
  }

  /** Every list runs through its chain, and no address is on two lists. */
  ghost predicate ShapeOk(g: Layout, mem: Memory, heads: seq<nat>, cs: seq<seq<Block>>) {
    && g.base > 0
    && |heads| == |cs|
    && (forall l :: 0 <= l < |cs| ==> ChainOk(g, mem, heads[l], cs[l], l))
    && (forall b {:trigger Alone(g, cs, b)} :: Listed(cs, b) ==> Alone(g, cs, b))
  }

  lemma ChainMember(g: Layout, mem: Memory, heads: seq<nat>, cs: seq<seq<Block>>, l: nat, k: nat)
    requires ShapeOk(g, mem, heads, cs) && l < |cs| && k < |cs[l]|
    ensures Listed(cs, cs[l][k])
    ensures At(g, cs[l], k) in mem && At(g, cs[l], k) != 0
  {
    NodeAt(g, mem, heads[l], cs[l], l, k);
  }

  /** A list keeps its shape when only nodes of another list, or no nodes at all, were written. */
  lemma OtherList(g: Layout, mem: Memory, mem': Memory, heads: seq<nat>, cs: seq<seq<Block>>, l: nat, touched: set<nat>)
    requires ShapeOk(g, mem, heads, cs) && l < |cs|
    requires mem.Keys <= mem'.Keys
    requires forall a :: a in mem && a !in touched ==> mem'[a] == mem[a]
    requires forall b :: Listed(cs, b) && b.level == l ==> g.Addr(b) !in touched
    ensures ChainOk(g, mem', heads[l], cs[l], l)
  {
    forall b | b in cs[l]
      ensures g.Addr(b) in mem' && (g.Addr(b) in mem ==> mem'[g.Addr(b)] == mem[g.Addr(b)])
    {
      var k :| 0 <= k < |cs[l]| && cs[l][k] == b;
      ChainMember(g, mem, heads, cs, l, k);
    }
    Untouched(g, mem, mem', heads[l], cs[l], l);
  }

  lemma PushShape(g: Layout, mem: Memory, heads: seq<nat>, cs: seq<seq<Block>>, b: Block)
    requires ShapeOk(g, mem, heads, cs) && b.level < |cs|
    requires forall c :: Listed(cs, c) ==> g.Addr(c) != g.Addr(b)
    ensures heads[b.level] != 0 ==> heads[b.level] in mem
    ensures ShapeOk(g, Pushed(mem, heads[b.level], g.Addr(b)), heads[b.level := g.Addr(b)],
                    cs[b.level := [b] + cs[b.level]])
  {
    var i, head, ptr := b.level, heads[b.level], g.Addr(b);
    PushKeepsList(g, mem, head, cs[i], b);
    var mem', heads', cs' := Pushed(mem, head, ptr), heads[i := ptr], cs[i := [b] + cs[i]];
    forall l | 0 <= l < |cs'| ensures ChainOk(g, mem', heads'[l], cs'[l], l) {
      if l != i {
        if |cs[i]| > 0 {
          ChainMember(g, mem, heads, cs, i, 0);
          assert Alone(g, cs, cs[i][0]);
        }
        OtherList(g, mem, mem', heads, cs, l, {head, ptr});
      }
    }
    forall c | Listed(cs', c) ensures Alone(g, cs', c) {
      assert forall d :: Listed(cs', d) ==> d == b || Listed(cs, d);
      assert c == b || Alone(g, cs, c);
    }
  }

  lemma UnlinkShape(g: Layout, mem: Memory, heads: seq<nat>, cs: seq<seq<Block>>, i: nat, k: nat)
    requires ShapeOk(g, mem, heads, cs) && i < |cs| && k < |cs[i]|
    ensures At(g, cs[i], k) in mem
    ensures mem[At(g, cs[i], k)] == Node(At(g, cs[i], k - 1), At(g, cs[i], k + 1))
    ensures At(g, cs[i], k - 1) != 0 <==> k > 0
    ensures At(g, cs[i], k - 1) != 0 ==> At(g, cs[i], k - 1) in mem
    ensures At(g, cs[i], k + 1) != 0 ==> At(g, cs[i], k + 1) in mem
    ensures ShapeOk(g, Unlinked(mem, At(g, cs[i], k)),
                    heads[i := if k == 0 then At(g, cs[i], 1) else heads[i]], cs[i := Without(cs[i], k)])
  {
    NodeAt(g, mem, heads[i], cs[i], i, k);
    UnlinkKeepsList(g, mem, heads[i], cs[i], i, k);
    var mem', heads' := Unlinked(mem, At(g, cs[i], k)), heads[i := if k == 0 then At(g, cs[i], 1) else heads[i]];
    var cs' := cs[i := Without(cs[i], k)];
    forall l | 0 <= l < |cs'| ensures ChainOk(g, mem', heads'[l], cs'[l], l) {
      if l != i {
        if k > 0 {
          ChainMember(g, mem, heads, cs, i, k - 1);
          assert Alone(g, cs, cs[i][k - 1]);
        }
        if k + 1 < |cs[i]| {
          ChainMember(g, mem, heads, cs, i, k + 1);
          assert Alone(g, cs, cs[i][k + 1]);
        }
        OtherList(g, mem, mem', heads, cs, l, {At(g, cs[i], k - 1), At(g, cs[i], k + 1)});
      }
    }
    forall c | Listed(cs', c) ensures Alone(g, cs', c) {
      assert forall d :: Listed(cs', d) ==> Listed(cs, d);
      assert Alone(g, cs, c);
    }
  }

  /** A chain without its k-th block lists exactly the other blocks. */
  lemma ListedWithout(g: Layout, mem: Memory, heads: seq<nat>, cs: seq<seq<Block>>, i: nat, k: nat, c: Block)
    requires ShapeOk(g, mem, heads, cs) && i < |cs| && k < |cs[i]|
    ensures Listed(cs[i := Without(cs[i], k)], c) <==> Listed(cs, c) && c != cs[i][k]
  {
    AllDiffer(cs[i]);
    if Listed(cs, c) && c.level == i && c != cs[i][k] {
      var j :| 0 <= j < |cs[i]| && cs[i][j] == c;
      assert Without(cs[i], k)[if j < k then j else j - 1] == c;
    }
  }

  // ----- memory in use -----

  /** Address x lies in a block of A. */
  ghost predicate InUse(g: Layout, A: set<Block>, x: nat) {
    exists b :: b in A && g.Addr(b) <= x < g.Addr(b) + g.Len(b.level)
  }

  /** What is stored in the blocks of A is not changed. */
  ghost predicate Kept(g: Layout, A: set<Block>, mem: Memory, mem': Memory) {
    forall x :: x in mem && InUse(g, A, x) ==> x in mem' && mem'[x] == mem[x]
  }

  lemma KeptOn(g: Layout, A: set<Block>, mem: Memory, mem': Memory, mem'': Memory)
    requires Kept(g, A, mem, mem') && Kept(g, A, mem', mem'')
    ensures Kept(g, A, mem, mem'')
  {
  }

  lemma FreeNotInUse(g: Layout, A: set<Block>, b: Block)
    requires FullyFree(A, b)
    ensures !InUse(g, A, g.Addr(b))
  {
    if a :| a in A && g.Addr(a) <= g.Addr(b) < g.Addr(a) + g.Len(a.level) {
      OverlapIsBytes(g, a, b);
    }
  }

  lemma PushKept(g: Layout, A: set<Block>, mem: Memory, heads: seq<nat>, cs: seq<seq<Block>>, b: Block)
    requires ShapeOk(g, mem, heads, cs) && b.level < |cs|
    requires forall c :: Listed(cs, c) ==> FullyFree(A, c)
    requires FullyFree(A, b)
    requires heads[b.level] != 0 ==> heads[b.level] in mem
    ensures Kept(g, A, mem, Pushed(mem, heads[b.level], g.Addr(b)))
  {
    FreeNotInUse(g, A, b);
    if |cs[b.level]| > 0 {
      ChainMember(g, mem, heads, cs, b.level, 0);
      FreeNotInUse(g, A, cs[b.level][0]);
    }
    assert ChainOk(g, mem, heads[b.level], cs[b.level], b.level);
  }

  lemma UnlinkKept(g: Layout, A: set<Block>, mem: Memory, mem': Memory, cs: seq<seq<Block>>)
    requires forall c :: Listed(cs, c) ==> FullyFree(A, c)
    requires forall x :: x in mem && (forall c :: Listed(cs, c) ==> x != g.Addr(c)) ==> x in mem' && mem'[x] == mem[x]
    ensures Kept(g, A, mem, mem')
  {
    forall x | x in mem && InUse(g, A, x) ensures x in mem' && mem'[x] == mem[x] {
      forall c | Listed(cs, c) ensures x != g.Addr(c) { FreeNotInUse(g, A, c); }
    }
  }
}
