/** The hash map and the reference map run side by side, and what deleted slots can do to the hash map. */
module HashLockstep {
  import opened Bits
  import opened Words
  import opened Probing
  import opened HashSlots
  import opened HashFunction
  import HashMap
  import Ref = HashMapRef

  datatype Op = Insert(key: Word, value: Word) | Remove(key: Word) | Select(key: Word)

  /** What an operation answers: the removed flag as 0 or 1, the selected value, 0 for an insertion. */
  function Answer(m: map<Word, Word>, op: Op): Word {
    match op
    case Insert(_, _) => 0
    case Remove(k) => if k in m then 1 else 0
    case Select(k) => if k in m then m[k] else 0
  }

  function Apply(m: map<Word, Word>, op: Op): map<Word, Word> {
    match op
    case Insert(k, v) => m[k := v]
    case Remove(k) => m - {k}
    case Select(_) => m
  }

  /** The answers of a whole run on a mathematical map. */
  function Answers(m: map<Word, Word>, ops: seq<Op>): seq<Word>
    decreases |ops|
  {
    if ops == [] then [] else [Answer(m, ops[0])] + Answers(Apply(m, ops[0]), ops[1..])
  }

  function ApplyAll(m: map<Word, Word>, ops: seq<Op>): map<Word, Word>
    decreases |ops|
  {
    if ops == [] then m else ApplyAll(Apply(m, ops[0]), ops[1..])
  }

  lemma {:induction false} OneMore(m: map<Word, Word>, ops: seq<Op>, op: Op)
    ensures ApplyAll(m, ops + [op]) == Apply(ApplyAll(m, ops), op)
    ensures Answers(m, ops + [op]) == Answers(m, ops) + [Answer(ApplyAll(m, ops), op)]
    decreases |ops|
  {
    if ops == [] {
      assert [op][1..] == [];
    } else {
      OneMore(Apply(m, ops[0]), ops[1..], op);
      assert (ops + [op])[1..] == ops[1..] + [op];
    }
  }

  /** The operation ends: its probes meet an unused slot or its key, or it is an insertion that gets a new pool first;
      and that pool does not outgrow the int arithmetic of the code. */
  ghost predicate CanDo(t: HashMap.Table, op: Op)
    reads t, t.pool
  {
    if op.Insert? && t.ShouldResize() then t.log2 < HashMap.MAX_LOG2 else t.CanProbe(op.key)
  }

  /** One operation on the hash map. */
  method DoHash(t: HashMap.Table, op: Op) returns (answer: Word)
    requires t.Valid() && (op.Insert? ==> op.value != 0)
    requires CanDo(t, op)
    modifies t, t.pool
    ensures t.Valid() && (t.pool == old(t.pool) || fresh(t.pool))
    ensures t.contents == Apply(old(t.contents), op) && answer == Answer(old(t.contents), op)
    ensures Ages(old(t.Thin()), old(t.Tombstones()), t, op)
  {
    answer := 0;
    match op
    case Insert(k, v) => t.Insert(k, v);
    case Remove(k) => var ok := t.Remove(k); answer := if ok then 1 else 0;
    case Select(k) => answer := t.Select(k);
  }

  /** Only a removal leaves a deleted slot more. */
  ghost predicate Ages(thin: bool, tombstones: nat, t: HashMap.Table, op: Op)
    reads t, t.pool
  {
    && (thin ==> t.Thin())
    && t.Tombstones() <= tombstones + (if op.Remove? then 1 else 0)
  }

  /** The same operation on the reference map. */
  method DoRef(t: Ref.Table, op: Op) returns (answer: Word)
    requires t.Valid()
    modifies t, t.entries
    ensures t.Valid() && (t.entries == old(t.entries) || fresh(t.entries))
    ensures t.contents == Apply(old(t.contents), op) && answer == Answer(old(t.contents), op)
  {
    answer := 0;
    match op
    case Insert(k, v) => t.Insert(k, v);
    case Remove(k) => var ok := t.Remove(k); answer := if ok then 1 else 0;
    case Select(k) => answer := t.Select(k);
  }

  /** One operation on both maps, unless it would not end on the hash map. */
  method DoBoth(a: HashMap.Table, b: Ref.Table, op: Op) returns (done: bool, x: Word, y: Word)
    requires a.Valid() && b.Valid() && a.contents == b.contents && (op.Insert? ==> op.value != 0)
    requires {a, a.pool} !! {b, b.entries}
    modifies a, a.pool, b, b.entries
    ensures a.Valid() && (a.pool == old(a.pool) || fresh(a.pool))
    ensures b.Valid() && (b.entries == old(b.entries) || fresh(b.entries))
    ensures done <==> old(CanDo(a, op))
    ensures done ==> a.contents == b.contents == Apply(old(a.contents), op) && x == y == Answer(old(a.contents), op)
    ensures done ==> Ages(old(a.Thin()), old(a.Tombstones()), a, op)
    ensures !done ==> unchanged(a) && unchanged(a.pool) && unchanged(b) && b.entries == old(b.entries)
  {
    var at := b.Search(op.key);
    BelowLimit(a.log2);
    x, y := 0, 0;
    done := if op.Insert? && a.ShouldResize() then a.size < LIMIT
            else a.size <= LIMIT && (a.SomeUnused() || at < b.count);
    if done {
      x := DoHash(a, op);
      y := DoRef(b, op);
    }
  }

  /** The largest pool for which all int arithmetic stays in range. */
  const LIMIT: nat := 0x1000_0000

  /** The number of removals that a run asks for. */
  function Removals(ops: seq<Op>): nat {
    if ops == [] then 0 else Removals(ops[..|ops| - 1]) + (if ops[|ops| - 1].Remove? then 1 else 0)
  }

  /** Why a run on a pool of so many slots may stop: many removals, or the pool is, or would grow, beyond the limit. */
  predicate MayStop(size: nat, removals: nat, entries: nat, op: Op) {
    || removals * 10 + 10 >= size * 3
    || size > LIMIT
    || (size == LIMIT && op.Insert? && entries * 10 >= size * 7)
  }

  /** Both maps hold what the first n operations leave, and the removals among them bound the deleted slots. */
  ghost predicate InStep(a: HashMap.Table, b: Ref.Table, ops: seq<Op>, n: nat)
    reads a, a.pool, b, b.entries
    requires n <= |ops|
  {
    && a.Valid() && b.Valid()
    && a.contents == b.contents == ApplyAll(map[], ops[..n])
    && a.Thin() && a.Tombstones() <= Removals(ops[..n])
  }

  /** Operation n on both maps, unless it would not end on the hash map. */
  method Turn(a: HashMap.Table, b: Ref.Table, ops: seq<Op>, n: nat) returns (done: bool, x: Word, y: Word)
    requires n < |ops| && InStep(a, b, ops, n) && (ops[n].Insert? ==> ops[n].value != 0)
    requires {a, a.pool} !! {b, b.entries}
    modifies a, a.pool, b, b.entries
    ensures (a.pool == old(a.pool) || fresh(a.pool)) && (b.entries == old(b.entries) || fresh(b.entries))
    ensures done ==> InStep(a, b, ops, n + 1) && x == y == Answer(ApplyAll(map[], ops[..n]), ops[n])
    ensures !done ==> InStep(a, b, ops, n) && !CanDo(a, ops[n])
  {
    NextOp(ops, n);
    done, x, y := DoBoth(a, b, ops[n]);
  }

  /** The loop over the operations. */
  method Play(a: HashMap.Table, b: Ref.Table, ops: seq<Op>) returns (n: nat, mine: seq<Word>, theirs: seq<Word>)
    requires InStep(a, b, ops, 0)
    requires forall i :: 0 <= i < |ops| && ops[i].Insert? ==> ops[i].value != 0
    requires {a, a.pool} !! {b, b.entries}
    modifies a, a.pool, b, b.entries
    ensures n <= |ops| && InStep(a, b, ops, n) && mine == theirs == Answers(map[], ops[..n])
    ensures n < |ops| ==> !CanDo(a, ops[n])
  {
    mine, theirs, n := [], [], 0;
    var going := true;
    while going && n < |ops|
      invariant n <= |ops| && InStep(a, b, ops, n)
      invariant (a.pool == old(a.pool) || fresh(a.pool)) && (b.entries == old(b.entries) || fresh(b.entries))
      invariant mine == theirs == Answers(map[], ops[..n])
      invariant going || (n < |ops| && !CanDo(a, ops[n]))
      decreases |ops| - n, going
    {
      var x, y;
      NextOp(ops, n);
      going, x, y := Turn(a, b, ops, n);
      if going {
        mine, theirs, n := mine + [x], theirs + [y], n + 1;
      }
    }
  }

  /** Runs both maps from creation on, as the test program does, for as long as the operations end. Both give the
      answers of the mathematical map, and end with its entries and its count. A run without removals, or with fewer
      than three tenths of the pool, stops for its size only. */
  method Lockstep(hash: Hash, initSize: int, ops: seq<Op>)
    returns (n: nat, mine: seq<Word>, theirs: seq<Word>, a: HashMap.Table, b: Ref.Table)
    requires initSize <= 0x4000_0000
    requires forall i :: 0 <= i < |ops| && ops[i].Insert? ==> ops[i].value != 0
    ensures n <= |ops| && mine == theirs == Answers(map[], ops[..n])
    ensures a.Valid() && b.Valid() && a.contents == b.contents == ApplyAll(map[], ops[..n])
    ensures a.used == b.count == |ApplyAll(map[], ops[..n])|
    ensures n < |ops| ==> !CanDo(a, ops[n])
    ensures n < |ops| ==> MayStop(a.size, Removals(ops[..n]), |ApplyAll(map[], ops[..n])|, ops[n])
  {
    a := new HashMap.Table(hash, initSize);
    b := new Ref.Table();
    NoneOf(a.pool[..], Deleted);
    n, mine, theirs := Play(a, b, ops);
    a.UsedIsSize();
    var c := b.Count();
    if n < |ops| { StopsForAReason(a, ops[n], Removals(ops[..n])); }
  }

  lemma StopsForAReason(a: HashMap.Table, op: Op, removals: nat)
    requires a.Valid() && a.Thin() && a.Tombstones() <= removals && !CanDo(a, op)
    ensures MayStop(a.size, removals, a.used, op)
  {
    a.RoomToProbe();
    BelowLimit(a.log2);
  }

  lemma NextOp(ops: seq<Op>, n: nat)
    requires n < |ops|
    ensures ApplyAll(map[], ops[..n + 1]) == Apply(ApplyAll(map[], ops[..n]), ops[n])
    ensures Answers(map[], ops[..n + 1]) == Answers(map[], ops[..n]) + [Answer(ApplyAll(map[], ops[..n]), ops[n])]
    ensures Removals(ops[..n + 1]) == Removals(ops[..n]) + (if ops[n].Remove? then 1 else 0)
  {
    assert ops[..n + 1] == ops[..n] + [ops[n]];
    OneMore(map[], ops[..n], ops[n]);
  }

  lemma BelowLimit(n: nat)
    ensures Pow2(n) < LIMIT <==> n < HashMap.MAX_LOG2
    ensures Pow2(n) <= LIMIT <==> n <= HashMap.MAX_LOG2
  {
    HashMap.Pow2Of28();
    if n < 28 { Pow2Monotone(n, 28); }
    if n > 28 { Pow2Monotone(28, n); }
  }

  // ----- deleted slots -----

  /** Eight insertions, each followed by the removal of the same key, leave a map without entries whose slots are all
      marked deleted, if the keys start at different slots: should_resize, which counts used slots only, never asks for
      a new pool. */
  method DeletedEverywhere(hash: Hash, keys: seq<Word>) returns (t: HashMap.Table)
    requires OnePerSlot(hash, keys)
    ensures t.Valid() && t.hash == hash && t.contents == map[] && t.used == 0
    ensures !t.SomeUnused() && !t.ShouldResize()
  {
    t := new HashMap.Table(hash, 8);
    EightSlots();
    var k := 0;
    while k < 8
      invariant k <= 8 && fresh(t) && fresh(t.pool) && t.hash == hash && Swept(t, k)
    {
      PutAndRemove(t, keys, k);
      k := k + 1;
    }
  }

  /** It happens with the hash function of the code, for the keys 6, 1, 4, 12, 9, 3, 2 and 0. */
  method DeletedByTheCode() returns (t: HashMap.Table)
    ensures t.Valid() && t.hash == HashFunc && t.contents == map[] && t.used == 0
    ensures !t.SomeUnused() && !t.ShouldResize()
  {
    HashFuncIs();
    ghost var keys := OnePerSlotExists(HashFunc);
    t := DeletedEverywhere(HashFunc, [6, 1, 4, 12, 9, 3, 2, 0]);
  }

  /** A map of eight slots without entries; the first k slots are deleted. */
  ghost predicate Swept(t: HashMap.Table, k: nat)
    reads t, t.pool
  {
    && t.Valid() && t.pool.Length == 8
    && t.log2 == 3 && t.contents == map[] && t.used == 0
    && forall i :: 0 <= i < 8 ==> t.pool[i].state == if i < k then Deleted else Unused
  }

  method PutAndRemove(t: HashMap.Table, keys: seq<Word>, k: nat)
    requires k < 8 && Swept(t, k) && OnePerSlot(t.hash, keys)
    modifies t, t.pool
    ensures Swept(t, k + 1) && t.pool == old(t.pool)
  {
    Put(t, keys[k], k);
    var ok := t.Remove(keys[k]);
    t.UsedIsSize();
  }

  method Put(t: HashMap.Table, key: Word, k: nat)
    requires k < 8 && Swept(t, k) && Low(t.hash(key), 3) == k
    modifies t, t.pool
    ensures t.Valid() && t.pool == old(t.pool) && t.log2 == 3 && t.pool.Length == 8
    ensures t.contents == map[key := 1] && t.SomeUnused() == (k < 7)
    ensures forall i :: 0 <= i < 8 ==> t.pool[i] == if i == k then Slot(Used, key, 1) else old(t.pool[i])
  {
    ghost var before := t.pool[..];
    assert before[k].state == Unused;
    t.Insert(key, 1);
    FirstTurn(before, t.hash, key, k, t.pool[..]);
    assert t.pool[..] == before[k := Slot(Used, key, 1)];
    if k < 7 { assert t.pool[..][7].state == Unused; }
  }

  lemma EightSlots()
    ensures CeilLog2(8) == 3 && Pow2(3) == 8
  {
    CeilLog2Least(8, 3);
    CeilLog2Least(8, 2);
    assert Pow2(2) == 4;
  }

  lemma FirstTurn(items: seq<Slot>, hash: Hash, key: Word, k: nat, items': seq<Slot>)
    requires k < 8 && |items| == Pow2(3) == 8 && Low(hash(key), 3) == k && items[k].state == Unused
    requires HashMap.StoredFirst(items, items', hash(key), 3, key, 1)
    ensures items' == items[k := Slot(Used, key, 1)]
  {
    var d: nat :| FirstFree(items, hash(key), 3, d) && items' == items[Probe(hash(key), 3, d) := Slot(Used, key, 1)];
    assert ProbeAt(items, hash(key), 3, 0).state == Unused;
    assert d == 0;
  }

  /** In such a map the search for a key that is not stored looks at slot after slot for ever. */
  lemma SearchNeverEnds(t: HashMap.Table, key: Word)
    requires t.Valid() && !t.SomeUnused() && key !in t.contents
    ensures forall j: nat :: !Ends(ProbeAt(t.pool[..], t.hash(key), t.log2, j), key)
  {
    LoopEnds(t.pool[..], t.hash, t.log2, t.contents, key);
  }
}
