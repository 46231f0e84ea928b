/** The pool of the hash map as a sequence of slots: which mathematical map it stands for, and what probing finds. */
module HashSlots {
  import opened Bits
  import opened Probing

  datatype SlotState = Unused | Used | Deleted

  /** item_t */
  datatype Slot = Slot(state: SlotState, key: Word, value: Word)

  type Hash = Word -> Word

  predicate Holds(item: Slot, key: Word) {
    item.state == Used && item.key == key
  }

  /** The slots at which a loop that looks for key ends. */
  predicate Ends(item: Slot, key: Word) {
    item.state == Unused || Holds(item, key)
  }

  predicate HasUnused(items: seq<Slot>) {
    exists i :: 0 <= i < |items| && items[i].state == Unused
  }

  /** The slot of turn j. */
  function ProbeAt(items: seq<Slot>, h: Word, n: nat, j: nat): Slot
    requires |items| == Pow2(n)
  {
    items[Probe(h, n, j)]
  }

  /** The number of slots in a state. */
  function Tally(items: seq<Slot>, st: SlotState): nat {
    if items == [] then 0
    else Tally(items[..|items| - 1], st) + (if items[|items| - 1].state == st then 1 else 0)
  }

  /** The used slots hold exactly the entries of the map, each once; no value is 0. */
  ghost predicate Stores(items: seq<Slot>, m: map<Word, Word>) {
    && (forall i :: 0 <= i < |items| && items[i].state == Used ==>
          items[i].key in m && m[items[i].key] == items[i].value && items[i].value != 0)
    && (forall i, j :: 0 <= i < j < |items| && items[i].state == Used && items[j].state == Used ==>
          items[i].key != items[j].key)
    && (forall k :: k in m ==> exists i :: 0 <= i < |items| && Holds(items[i], k))
  }

  /** The key is stored at turn p of its probe sequence, and no slot before is unused. */
  predicate FoundAt(items: seq<Slot>, h: Word, n: nat, key: Word, p: nat)
    requires |items| == Pow2(n)
  {
    Holds(ProbeAt(items, h, n, p), key) && forall q :: 0 <= q < p ==> ProbeAt(items, h, n, q).state != Unused
  }

  ghost predicate Findable(items: seq<Slot>, h: Word, n: nat, key: Word)
    requires |items| == Pow2(n)
  {
    exists p: nat :: FoundAt(items, h, n, key, p)
  }

  ghost predicate Reachable(items: seq<Slot>, hash: Hash, n: nat, m: map<Word, Word>)
    requires |items| == Pow2(n)
  {
    forall k :: k in m ==> Findable(items, hash(k), n, k)
  }

  ghost predicate TableOk(items: seq<Slot>, hash: Hash, n: nat, m: map<Word, Word>) {
    |items| == Pow2(n) && Stores(items, m) && Reachable(items, hash, n, m)
  }

  // ----- what probing finds -----

  /** The loops end, and within the first 12 + size turns, exactly when some slot is unused or the key is stored. */
  lemma LoopEnds(items: seq<Slot>, hash: Hash, n: nat, m: map<Word, Word>, key: Word)
    requires TableOk(items, hash, n, m)
    ensures (exists j: nat :: Ends(ProbeAt(items, hash(key), n, j), key)) <==> HasUnused(items) || key in m
    ensures HasUnused(items) || key in m ==>
              exists j: nat :: j < WARM_UP + |items| && Ends(ProbeAt(items, hash(key), n, j), key)
  {
    if HasUnused(items) {
      var i :| 0 <= i < |items| && items[i].state == Unused;
      var j := EverySlot(hash(key), n, i);
      assert Ends(ProbeAt(items, hash(key), n, j), key);
    }
    if key in m {
      var i :| 0 <= i < |items| && Holds(items[i], key);
      var j := EverySlot(hash(key), n, i);
      assert Ends(ProbeAt(items, hash(key), n, j), key);
    }
  }

  /** The slot at which the loop ends tells whether the key is stored. */
  lemma EndTells(items: seq<Slot>, hash: Hash, n: nat, m: map<Word, Word>, key: Word, j: nat)
    requires TableOk(items, hash, n, m)
    requires forall q :: 0 <= q < j ==> !Ends(ProbeAt(items, hash(key), n, q), key)
    requires Ends(ProbeAt(items, hash(key), n, j), key)
    ensures key in m <==> Holds(ProbeAt(items, hash(key), n, j), key)
    ensures key in m ==> m[key] == ProbeAt(items, hash(key), n, j).value
  {
    if key in m {
      var p: nat :| FoundAt(items, hash(key), n, key, p);
      assert p >= j;
    }
  }

  // ----- changing one slot -----

  /** The first slot on the probe sequence that is not used. */
  predicate FirstFree(items: seq<Slot>, h: Word, n: nat, d: nat)
    requires |items| == Pow2(n)
  {
    ProbeAt(items, h, n, d).state != Used && forall q :: 0 <= q < d ==> ProbeAt(items, h, n, q).state == Used
  }

  /** A key stays where it was found when a slot that does not hold it is filled or erased. */
  lemma FoundKept(items: seq<Slot>, h: Word, n: nat, key: Word, p: nat, s: nat, x: Slot)
    requires |items| == Pow2(n) && s < |items|
    requires FoundAt(items, h, n, key, p)
    requires x.state != Unused && (Holds(items[s], key) ==> Holds(x, key))
    ensures FoundAt(items[s := x], h, n, key, p)
  {
    var items' := items[s := x];
    forall q | 0 <= q < p ensures ProbeAt(items', h, n, q).state != Unused {
      assert ProbeAt(items, h, n, q).state != Unused;
    }
    assert Holds(ProbeAt(items, h, n, p), key);
  }

  lemma ReachableKept(items: seq<Slot>, hash: Hash, n: nat, m: map<Word, Word>, m': map<Word, Word>, s: nat, x: Slot)
    requires |items| == Pow2(n) && s < |items| && Reachable(items, hash, n, m)
    requires x.state != Unused
    requires forall k :: k in m' ==>
               || (k in m && (Holds(items[s], k) ==> Holds(x, k)))
               || Findable(items[s := x], hash(k), n, k)
    ensures Reachable(items[s := x], hash, n, m')
  {
    forall k | k in m' ensures Findable(items[s := x], hash(k), n, k) {
      if k in m && (Holds(items[s], k) ==> Holds(x, k)) {
        var p: nat :| FoundAt(items, hash(k), n, k, p);
        FoundKept(items, hash(k), n, k, p, s, x);
      }
    }
  }

  /** Writing an entry into a slot that is not used, or holds the same key. */
  lemma StoresPut(items: seq<Slot>, m: map<Word, Word>, s: nat, x: Slot)
    requires Stores(items, m) && s < |items| && x.state == Used && x.value != 0
    requires (items[s].state != Used && x.key !in m) || Holds(items[s], x.key)
    ensures Stores(items[s := x], m[x.key := x.value])
  {
    var items', m' := items[s := x], m[x.key := x.value];
    assert Holds(items'[s], x.key);
    forall k | k in m' && k != x.key ensures exists i :: 0 <= i < |items'| && Holds(items'[i], k) {
      var i :| 0 <= i < |items| && Holds(items[i], k);
      assert Holds(items'[i], k);
    }
  }

  lemma StoresErase(items: seq<Slot>, m: map<Word, Word>, key: Word, s: nat, x: Slot)
    requires Stores(items, m) && s < |items| && Holds(items[s], key) && x.state == Deleted
    ensures Stores(items[s := x], m - {key})
  {
    var items', m' := items[s := x], m - {key};
    forall k | k in m' ensures exists i :: 0 <= i < |items'| && Holds(items'[i], k) {
      var i :| 0 <= i < |items| && Holds(items[i], k);
      assert Holds(items'[i], k);
    }
  }

  lemma StoreNew(items: seq<Slot>, hash: Hash, n: nat, m: map<Word, Word>, key: Word, value: Word, d: nat)
    requires TableOk(items, hash, n, m) && key !in m && value != 0
    requires FirstFree(items, hash(key), n, d)
    ensures TableOk(items[Probe(hash(key), n, d) := Slot(Used, key, value)], hash, n, m[key := value])
  {
    var s, x := Probe(hash(key), n, d), Slot(Used, key, value);
    var items' := items[s := x];
    StoresPut(items, m, s, x);
    forall q | 0 <= q < d ensures ProbeAt(items', hash(key), n, q).state != Unused {
      assert ProbeAt(items, hash(key), n, q).state == Used;
    }
    assert FoundAt(items', hash(key), n, key, d);
    ReachableKept(items, hash, n, m, m[key := value], s, x);
  }

  lemma StoreOver(items: seq<Slot>, hash: Hash, n: nat, m: map<Word, Word>, key: Word, value: Word, s: nat)
    requires TableOk(items, hash, n, m) && value != 0
    requires s < |items| && Holds(items[s], key)
    ensures key in m
    ensures TableOk(items[s := items[s].(value := value)], hash, n, m[key := value])
  {
    var x := items[s].(value := value);
    StoresPut(items, m, s, x);
    ReachableKept(items, hash, n, m, m[key := value], s, x);
  }

  lemma Erase(items: seq<Slot>, hash: Hash, n: nat, m: map<Word, Word>, key: Word, s: nat, erased: Slot)
    requires TableOk(items, hash, n, m) && erased.state == Deleted
    requires s < |items| && Holds(items[s], key)
    ensures TableOk(items[s := erased], hash, n, m - {key})
  {
    StoresErase(items, m, key, s, erased);
    ReachableKept(items, hash, n, m, m - {key}, s, erased);
  }

  lemma EmptyTable(items: seq<Slot>, hash: Hash, n: nat)
    requires |items| == Pow2(n) && forall i :: 0 <= i < |items| ==> items[i].state == Unused
    ensures TableOk(items, hash, n, map[]) && Tally(items, Used) == 0 && HasUnused(items)
  {
    NoneOf(items, Used);
    assert items[0].state == Unused;
  }

  // ----- counting -----

  lemma {:induction false} NoneOf(items: seq<Slot>, st: SlotState)
    requires forall i :: 0 <= i < |items| ==> items[i].state != st
    ensures Tally(items, st) == 0
  {
    if items == [] {
    } else {
      NoneOf(items[..|items| - 1], st);
    }
  }

  lemma {:induction false} TallyUpdate(items: seq<Slot>, s: nat, x: Slot, st: SlotState)
    requires s < |items|
    ensures Tally(items[s := x], st) ==
            Tally(items, st) - (if items[s].state == st then 1 else 0) + (if x.state == st then 1 else 0)
  {
    var l := |items| - 1;
    if s == l {
      assert items[s := x][..l] == items[..l];
    } else {
      assert items[s := x][..l] == items[..l][s := x];
      TallyUpdate(items[..l], s, x, st);
    }
  }

  /** A slot is unused exactly when the used and the deleted ones are fewer than all. */
  lemma {:induction false} UnusedLeft(items: seq<Slot>)
    ensures Tally(items, Used) + Tally(items, Deleted) <= |items|
    ensures HasUnused(items) <==> Tally(items, Used) + Tally(items, Deleted) < |items|
  {
    if items == [] {
    } else {
      var l := |items| - 1;
      UnusedLeft(items[..l]);
      if i :| 0 <= i < l && items[..l][i].state == Unused { assert items[i].state == Unused; }
      if i :| 0 <= i < |items| && items[i].state == Unused {
        assert i == l || items[..l][i].state == Unused;
      }
    }
  }

  /** The number of entries of the map is the number of used slots. */
  lemma {:induction false} CountIsSize(items: seq<Slot>, m: map<Word, Word>)
    requires Stores(items, m)
    ensures |m| == Tally(items, Used)
  {
    if items == [] {
      assert forall k :: k !in m;
      assert m == map[];
    } else {
      var l := |items| - 1;
      if items[l].state == Used {
        StoresFront(items, m, m - {items[l].key});
        CountIsSize(items[..l], m - {items[l].key});
        OneLess(m, items[l].key);
      } else {
        StoresFront(items, m, m);
        CountIsSize(items[..l], m);
      }
    }
  }

  lemma StoresFront(items: seq<Slot>, m: map<Word, Word>, m': map<Word, Word>)
    requires Stores(items, m) && items != []
    requires m' == if items[|items| - 1].state == Used then m - {items[|items| - 1].key} else m
    ensures Stores(items[..|items| - 1], m')
  {
    var front := items[..|items| - 1];
    forall k | k in m' ensures exists i :: 0 <= i < |front| && Holds(front[i], k) {
      var i :| 0 <= i < |items| && Holds(items[i], k);
      assert Holds(front[i], k);
    }
  }
}
