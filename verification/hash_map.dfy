/** The open-addressing hash map with deleted-slot markers. The hash function is a parameter. */
module HashMap {
  import opened Bits
  import opened Words
  import opened Probing
  import opened HashSlots

  /** The largest pool for which all int arithmetic of the operations stays in range, ... */
  const MAX_LOG2: nat := 28

  /** ... and the largest that hashmap_create can make: the greatest power of two that is an int. */
  const MAX_CREATED_LOG2: nat := 30

  /** The loop that remove and select share: it ends at the first slot that is unused or holds the key. last is a
      turn at which it would end. */
  method FindEnd(pool: array<Slot>, h: Word, ghost n: nat, key: Word, ghost last: nat) returns (i: nat, ghost j: nat)
    requires pool.Length == Pow2(n) && n <= 64
    requires Ends(ProbeAt(pool[..], h, n, last), key)
    ensures i < pool.Length && i == Probe(h, n, j) && j <= last
    ensures forall q :: 0 <= q < j ==> !Ends(ProbeAt(pool[..], h, n, q), key)
    ensures Ends(pool[i], key) && Ends(ProbeAt(pool[..], h, n, j), key)
  {
    var mask := pool.Length - 1;
    var pert := h;
    AndMask(h, n);
    i, j := And(h, mask), 0;
    while !(pool[i].state == Unused || (pool[i].state == Used && pool[i].key == key))
      invariant i < pool.Length && i == Probe(h, n, j) && pert == Shr(h, 5 * j)
      invariant j <= last
      invariant forall q :: 0 <= q < j ==> !Ends(ProbeAt(pool[..], h, n, q), key)
      decreases last - j
    {
      assert !Ends(ProbeAt(pool[..], h, n, j), key);
      i, pert := Advance(h, n, i, pert, mask, j);
      j := j + 1;
    }
  }

  /** The loop of insert. insertIndex is the first slot on the way that is not used, -1 when the key itself is met. */
  method FindSlot(pool: array<Slot>, h: Word, ghost n: nat, key: Word, ghost last: nat)
    returns (insertIndex: int, i: nat, ghost j: nat, ghost d: nat)
    requires pool.Length == Pow2(n) && n <= 64
    requires Ends(ProbeAt(pool[..], h, n, last), key)
    ensures i < pool.Length && i == Probe(h, n, j) && j <= last
    ensures forall q :: 0 <= q < j ==> !Ends(ProbeAt(pool[..], h, n, q), key)
    ensures Ends(ProbeAt(pool[..], h, n, j), key)
    ensures Holds(pool[i], key) ==> insertIndex == -1
    ensures !Holds(pool[i], key) ==>
              pool[i].state == Unused && insertIndex == Probe(h, n, d) && FirstFree(pool[..], h, n, d)
  {
    var mask := pool.Length - 1;
    var pert := h;
    AndMask(h, n);
    i, j, d, insertIndex := And(h, mask), 0, 0, -1;
    while true
      invariant i < pool.Length && i == Probe(h, n, j) && pert == Shr(h, 5 * j)
      invariant j <= last
      invariant forall q :: 0 <= q < j ==> !Ends(ProbeAt(pool[..], h, n, q), key)
      invariant insertIndex == -1 ==> forall q :: 0 <= q < j ==> ProbeAt(pool[..], h, n, q).state == Used
      invariant insertIndex != -1 ==> insertIndex == Probe(h, n, d) && FirstFree(pool[..], h, n, d)
      decreases last - j
    {
      assert pool[i] == ProbeAt(pool[..], h, n, j);
      if pool[i].state == Unused || pool[i].state == Deleted {
        if insertIndex < 0 {
          insertIndex, d := i, j;
          assert FirstFree(pool[..], h, n, d);
        }
        if pool[i].state == Unused { break; }
      } else {
        if pool[i].key == key {
          insertIndex := -1;
          break;
        }
      }
      i, pert := Advance(h, n, i, pert, mask, j);
      j := j + 1;
    }
  }

  class Table {
    const hash: Hash
    var pool: array<Slot>
    var size: nat
    var used: nat
    ghost var log2: nat
    ghost var contents: map<Word, Word>

    ghost predicate Valid()
      reads this, pool
    {
      && pool.Length == size == Pow2(log2)
      && 3 <= log2 <= MAX_CREATED_LOG2
      && TableOk(pool[..], hash, log2, contents)
      && used == Tally(pool[..], Used)
    }

    /** used is the number of entries. */
    lemma UsedIsSize()
      requires Valid()
      ensures used == |contents|
    {
      CountIsSize(pool[..], contents);
    }

    /** should_resize: the pool is about 70% full. */
    predicate ShouldResize()
      reads this
    {
      used * 10 >= size * 7
    }

    predicate SomeUnused()
      reads this, pool
    {
      HasUnused(pool[..])
    }

    /** The condition under which a loop that looks for key ends (see LoopEnds), and its int arithmetic is in range. */
    ghost predicate CanProbe(key: Word)
      reads this, pool
    {
      log2 <= MAX_LOG2 && (SomeUnused() || key in contents)
    }

    /** The number of deleted slots. */
    ghost function Tombstones(): nat
      reads this, pool
    {
      Tally(pool[..], Deleted)
    }

    /** should_resize is asked before every insertion, so that at most one entry is above its threshold. */
    predicate Thin()
      reads this
    {
      used * 10 < size * 7 + 10
    }

    /** Probing ends for every key exactly when entries and deleted slots do not fill the pool; few enough deleted slots
        are enough for that. */
    lemma RoomToProbe()
      requires Valid()
      ensures used + Tombstones() <= size
      ensures SomeUnused() <==> used + Tombstones() < size
      ensures Thin() && Tombstones() * 10 + 10 < size * 3 ==> SomeUnused()
    {
      UnusedLeft(pool[..]);
    }

    // ----- creation -----

    /** hashmap_create, for every size up to the greatest power of two that is an int */
    constructor (hash: Hash, initSize: int)
      requires initSize <= 0x4000_0000
      ensures Valid() && fresh(pool) && this.hash == hash
      ensures contents == map[] && used == 0 && SomeUnused()
      ensures log2 == CeilLog2(if initSize < 8 then 8 else initSize)
      ensures forall i :: 0 <= i < pool.Length ==> pool[i].state == Unused
    {
      var n := if initSize < 8 then 8 else initSize;
      n := NextPow2(n);
      this.hash := hash;
      this.size := n;
      this.used := 0;
      log2 := CeilLog2(if initSize < 8 then 8 else initSize);
      contents := map[];
      var p := new Slot[n](_ => Slot(Unused, 0, 0));
      pool := p;
      new;
      SizeInRange(if initSize < 8 then 8 else initSize);
      EmptyTable(pool[..], hash, log2);
    }

    // ----- lookup -----

    /** Where the loops of remove and select end, and what that tells. */
    method Search(key: Word) returns (i: nat, ghost j: nat)
      requires Valid() && CanProbe(key)
      ensures i < pool.Length && i == Probe(hash(key), log2, j) && j < WARM_UP + size
      ensures forall q :: 0 <= q < j ==> !Ends(ProbeAt(pool[..], hash(key), log2, q), key)
      ensures Ends(pool[i], key)
      ensures key in contents <==> Holds(pool[i], key)
      ensures key in contents ==> contents[key] == pool[i].value
    {
      LoopEnds(pool[..], hash, log2, contents, key);
      ghost var last: nat :| last < WARM_UP + |pool[..]| && Ends(ProbeAt(pool[..], hash(key), log2, last), key);
      i, j := FindEnd(pool, hash(key), log2, key, last);
      EndTells(pool[..], hash, log2, contents, key, j);
    }

    /** hashmap_select */
    method Select(key: Word) returns (value: Word)
      requires Valid() && CanProbe(key)
      ensures value == if key in contents then contents[key] else 0
    {
      var i;
      ghost var j;
      i, j := Search(key);
      if pool[i].state == Unused { return 0; }
      return pool[i].value;
    }

    /** hashmap_exists: no stored value is 0. */
    method Exists(key: Word) returns (b: bool)
      requires Valid() && CanProbe(key)
      ensures b <==> key in contents
    {
      var v := Select(key);
      if key in contents {
        var i :| 0 <= i < |pool[..]| && Holds(pool[..][i], key);
        assert contents[key] == pool[..][i].value;
      }
      return v != 0;
    }

    /** hashmap_count */
    method Count() returns (n: nat)
      requires Valid()
      ensures n == |contents|
    {
      UsedIsSize();
      return used;
    }

    // ----- insertion -----

    /** The search of insert: the slot of the key if it is stored, else the first one on its probe sequence that is not
        used. */
    method Locate(key: Word) returns (insertIndex: int, i: nat, ghost d: nat)
      requires Valid() && CanProbe(key)
      ensures i < pool.Length
      ensures insertIndex == -1 <==> key in contents
      ensures insertIndex == -1 ==> Holds(pool[i], key)
      ensures insertIndex != -1 ==> insertIndex == Probe(hash(key), log2, d) && FirstFree(pool[..], hash(key), log2, d)
    {
      LoopEnds(pool[..], hash, log2, contents, key);
      ghost var last: nat :| last < WARM_UP + |pool[..]| && Ends(ProbeAt(pool[..], hash(key), log2, last), key);
      ghost var j;
      insertIndex, i, j, d := FindSlot(pool, hash(key), log2, key, last);
      EndTells(pool[..], hash, log2, contents, key, j);
    }

    /** hashmap_insert behind the resizing: stores over the entry of the key, or in the first slot on the probe sequence
        that is not used. */
    method Place(key: Word, value: Word)
      requires Valid() && value != 0 && CanProbe(key)
      modifies `used, `contents, pool
      ensures Valid()
      ensures contents == old(contents)[key := value]
      ensures used == old(used) + (if key in old(contents) then 0 else 1) && Tombstones() <= old(Tombstones())
      ensures key in old(contents) ==> StoredOver(old(pool[..]), pool[..], key, value)
      ensures key !in old(contents) ==> StoredFirst(old(pool[..]), pool[..], hash(key), log2, key, value)
    {
      ghost var items := pool[..];
      var insertIndex, i;
      ghost var d;
      insertIndex, i, d := Locate(key);
      if insertIndex == -1 {
        PutOver(items, hash, log2, contents, key, value, i);
        Write(i, pool[i].(value := value), used, contents[key := value]);
      }
      if insertIndex > -1 {
        PutFirst(items, hash, log2, contents, key, value, d);
        Write(insertIndex, Slot(Used, key, value), used + 1, contents[key := value]);
      }
    }

    /** Writes one slot of the pool and the counter; m is what the slots store then. */
    method Write(i: nat, x: Slot, n: nat, ghost m: map<Word, Word>)
      requires pool.Length == size == Pow2(log2) && 3 <= log2 <= MAX_CREATED_LOG2 && i < pool.Length
      requires TableOk(pool[..][i := x], hash, log2, m) && n == Tally(pool[..][i := x], Used)
      modifies `used, `contents, pool
      ensures Valid() && contents == m && used == n
      ensures pool[..] == old(pool[..])[i := x]
    {
      ghost var items := pool[..];
      pool[i] := x;
      assert pool[..] == items[i := x];
      used := n;
      contents := m;
    }

    /** hashmap_insert */
    method Insert(key: Word, value: Word)
      requires Valid() && value != 0
      requires CanProbe(key) || ShouldResize()
      requires ShouldResize() ==> log2 < MAX_LOG2
      modifies this, pool
      ensures Valid() && (pool == old(pool) || fresh(pool))
      ensures contents == old(contents)[key := value]
      ensures log2 == old(log2) + (if 10 * old(used) >= 7 * old(size) then 1 else 0)
      ensures Thin() && Tombstones() <= if old(ShouldResize()) then 0 else old(Tombstones())
      ensures !old(ShouldResize()) ==> pool == old(pool)
      ensures !old(ShouldResize()) && key !in old(contents) ==>
                StoredFirst(old(pool[..]), pool[..], hash(key), log2, key, value)
      ensures !old(ShouldResize()) && key in old(contents) ==> StoredOver(old(pool[..]), pool[..], key, value)
      decreases if ShouldResize() then 4 else 0
    {
      if ShouldResize() {
        Resize(2 * size);
      }
      assert used < size;
      Place(key, value);
    }

    /** resize, which insert calls with twice the size. */
    method Resize(newSize0: nat)
      requires Valid() && newSize0 == 2 * size && log2 < MAX_LOG2
      modifies this
      ensures Valid() && fresh(pool) && SomeUnused()
      ensures contents == old(contents) && log2 == old(log2) + 1 && used == old(used)
      ensures !ShouldResize() && Tombstones() == 0
      decreases 3
    {
      var newSize := NewSize(newSize0);
      var oldPool, oldSize := pool, size;
      ghost var items, m := pool[..], contents;
      UsedIsSize();
      RoomToProbe();
      NewPool(newSize, log2 + 1);
      Refill(oldPool, oldSize, items, m);
      WholePart(items, m, contents);
      UsedIsSize();
      Roomy();
    }

    /** The size of the new pool. */
    method NewSize(newSize0: nat) returns (newSize: nat)
      requires Valid() && newSize0 == 2 * size && log2 < MAX_LOG2
      ensures newSize == newSize0 == Pow2(log2 + 1)
    {
      newSize := newSize0;
      RoomToProbe();
      if newSize < used { newSize := used; }
      if newSize < 8 { newSize := 8; }
      DoubledSize(log2);
      newSize := NextPow2(newSize);
    }

    /** The new pool of resize, with nothing in it. */
    method NewPool(newSize: nat, ghost n: nat)
      requires newSize == Pow2(n) && 3 <= n <= MAX_LOG2
      modifies this
      ensures Valid() && fresh(pool) && log2 == n && contents == map[] && Tombstones() == 0
    {
      var p := new Slot[newSize](_ => Slot(Unused, 0, 0));
      pool := p;
      size := newSize;
      used := 0;
      log2, contents := n, map[];
      EmptyTable(pool[..], hash, log2);
      NoneOf(pool[..], Deleted);
    }

    /** The loop of resize, over the old pool, whose slots items stored m. */
    method Refill(oldPool: array<Slot>, oldSize: nat, ghost items: seq<Slot>, ghost m: map<Word, Word>)
      requires Valid() && contents == map[] && Tombstones() == 0 && log2 <= MAX_LOG2
      requires oldPool != pool && oldPool.Length == oldSize && oldPool[..] == items
      requires Stores(items, m) && 2 * |m| <= size
      modifies this, pool
      ensures Valid() && Tombstones() == 0 && pool == old(pool) && log2 == old(log2)
      ensures Part(items, |items|, m, contents)
      decreases 2
    {
      var i := 0;
      while i < oldSize
        invariant i <= oldSize && pool == old(pool) && oldPool[..] == items
        invariant Valid() && Tombstones() == 0 && log2 == old(log2)
        invariant Part(items, i, m, contents)
      {
        if oldPool[i].state == Used {
          Reinsert(oldPool[i].key, oldPool[i].value, items, i, m);
        } else {
          PartSkip(items, i, m, contents);
        }
        i := i + 1;
      }
    }

    /** One turn of that loop, at a used slot. */
    method Reinsert(key: Word, value: Word, ghost items: seq<Slot>, ghost i: nat, ghost m: map<Word, Word>)
      requires Valid() && Tombstones() == 0
      requires Stores(items, m) && i < |items| && items[i] == Slot(Used, key, value) && Part(items, i, m, contents)
      requires 2 * |m| <= size && log2 <= MAX_LOG2
      modifies this, pool
      ensures Valid() && Tombstones() == 0 && pool == old(pool) && log2 == old(log2)
      ensures Part(items, i + 1, m, contents)
      decreases 1
    {
      PartSize(items, i, m, contents);
      UsedIsSize();
      Roomy();
      PartMore(items, i, m, contents);
      Insert(key, value);
    }

    /** Without deleted slots and with few used ones, there is an unused slot, and no need to resize. */
    lemma Roomy()
      requires Valid() && 2 * used <= size && Tombstones() == 0
      ensures SomeUnused() && !ShouldResize()
    {
      RoomToProbe();
    }

    // ----- removal -----

    /** hashmap_remove */
    method Remove(key: Word) returns (ok: bool)
      requires Valid() && CanProbe(key)
      modifies this, pool
      ensures Valid() && pool == old(pool) && log2 == old(log2)
      ensures ok <==> key in old(contents)
      ensures contents == old(contents) - {key}
      ensures Tombstones() == old(Tombstones()) + (if ok then 1 else 0) && used <= old(used)
      ensures !ok ==> pool[..] == old(pool[..])
      ensures ok ==> exists i :: 0 <= i < pool.Length && Holds(old(pool[i]), key) &&
                       pool[..] == old(pool[..])[i := Slot(Deleted, WORD - 1, 0)]
    {
      var i;
      ghost var j;
      i, j := Search(key);
      if pool[i].state == Unused {
        assert contents - {key} == contents;
        return false;
      }
      ghost var items := pool[..];
      var erased := Slot(Deleted, WORD - 1, 0);
      Erase(items, hash, log2, contents, key, i, erased);
      TallyUpdate(items, i, erased, Used);
      TallyUpdate(items, i, erased, Deleted);
      Write(i, erased, used - 1, contents - {key});
      return true;
    }
  }

  lemma SizeInRange(n: nat)
    requires 8 <= n <= 0x4000_0000
    ensures 3 <= CeilLog2(n) <= MAX_CREATED_LOG2
  {
    CeilLog2Least(n, 30);
    CeilLog2Least(n, 2);
    assert Pow2(2) == 4;
    Pow2Of28();
    assert Pow2(30) == 2 * Pow2(29) == 4 * Pow2(28);
  }

  lemma DoubledSize(n: nat)
    requires 3 <= n < MAX_LOG2
    ensures 8 <= 2 * Pow2(n) <= 0x1000_0000
    ensures CeilLog2(2 * Pow2(n)) == n + 1
  {
    assert Pow2(3) == 8;
    if n > 3 { Pow2Monotone(3, n); }
    Pow2Of28();
    if n + 1 < 28 { Pow2Monotone(n + 1, 28); }
    CeilLog2Least(2 * Pow2(n), n + 1);
    CeilLog2Least(2 * Pow2(n), n);
  }

  lemma Pow2Of28()
    ensures Pow2(28) == 0x1000_0000
  {
    Pow2Add(12, 16);
    Pow2Of64();
    assert Pow2(12) == 0x1000;
  }

  // ----- what insertion does to the slots -----

  /** items' is items with the value of the entry of key replaced. */
  ghost predicate StoredOver(items: seq<Slot>, items': seq<Slot>, key: Word, value: Word) {
    exists i :: 0 <= i < |items| && Holds(items[i], key) && items' == items[i := items[i].(value := value)]
  }

  /** items' is items with a new entry in the first slot on the probe sequence that was not used. */
  ghost predicate StoredFirst(items: seq<Slot>, items': seq<Slot>, h: Word, n: nat, key: Word, value: Word)
    requires |items| == Pow2(n)
  {
    exists d: nat :: FirstFree(items, h, n, d) && items' == items[Probe(h, n, d) := Slot(Used, key, value)]
  }

  lemma PutOver(items: seq<Slot>, hash: Hash, n: nat, m: map<Word, Word>, key: Word, value: Word, i: nat)
    requires TableOk(items, hash, n, m) && value != 0 && i < |items| && Holds(items[i], key)
    ensures var items' := items[i := items[i].(value := value)];
            && TableOk(items', hash, n, m[key := value]) && StoredOver(items, items', key, value)
            && Tally(items', Used) == Tally(items, Used) && Tally(items', Deleted) == Tally(items, Deleted)
  {
    StoreOver(items, hash, n, m, key, value, i);
    TallyUpdate(items, i, items[i].(value := value), Used);
    TallyUpdate(items, i, items[i].(value := value), Deleted);
  }

  lemma PutFirst(items: seq<Slot>, hash: Hash, n: nat, m: map<Word, Word>, key: Word, value: Word, d: nat)
    requires TableOk(items, hash, n, m) && value != 0 && key !in m && FirstFree(items, hash(key), n, d)
    ensures var items' := items[Probe(hash(key), n, d) := Slot(Used, key, value)];
            && TableOk(items', hash, n, m[key := value]) && StoredFirst(items, items', hash(key), n, key, value)
            && Tally(items', Used) == Tally(items, Used) + 1 && Tally(items', Deleted) <= Tally(items, Deleted)
  {
    StoreNew(items, hash, n, m, key, value, d);
    TallyUpdate(items, Probe(hash(key), n, d), Slot(Used, key, value), Used);
    TallyUpdate(items, Probe(hash(key), n, d), Slot(Used, key, value), Deleted);
  }

  // ----- re-insertion -----

  /** c holds the entries of the used slots before i, and no others. */
  ghost predicate Part(items: seq<Slot>, i: nat, m: map<Word, Word>, c: map<Word, Word>)
    requires i <= |items|
  {
    && (forall k :: k in c ==> k in m && c[k] == m[k])
    && (forall t :: 0 <= t < i && items[t].state == Used ==> items[t].key in c)
    && (forall t :: i <= t < |items| && items[t].state == Used ==> items[t].key !in c)
  }

  lemma PartMore(items: seq<Slot>, i: nat, m: map<Word, Word>, c: map<Word, Word>)
    requires Stores(items, m) && i < |items| && items[i].state == Used && Part(items, i, m, c)
    ensures Part(items, i + 1, m, c[items[i].key := items[i].value])
  {
  }

  lemma PartSkip(items: seq<Slot>, i: nat, m: map<Word, Word>, c: map<Word, Word>)
    requires i < |items| && items[i].state != Used && Part(items, i, m, c)
    ensures Part(items, i + 1, m, c)
  {
  }

  lemma PartSize(items: seq<Slot>, i: nat, m: map<Word, Word>, c: map<Word, Word>)
    requires i <= |items| && Part(items, i, m, c)
    ensures |c| <= |m|
  {
    assert c.Keys <= m.Keys;
    Cardinality(c.Keys, m.Keys);
    assert |c| == |c.Keys| && |m| == |m.Keys|;
  }

  lemma {:induction false} Cardinality(a: set<Word>, b: set<Word>)
    requires a <= b
    ensures |a| <= |b|
  {
    if a == {} {
    } else {
      var x :| x in a;
      Cardinality(a - {x}, b - {x});
    }
  }

  lemma WholePart(items: seq<Slot>, m: map<Word, Word>, c: map<Word, Word>)
    requires Stores(items, m) && Part(items, |items|, m, c)
    ensures c == m
  {
    forall k | k in m ensures k in c {
      var t :| 0 <= t < |items| && Holds(items[t], k);
    }
  }
}
