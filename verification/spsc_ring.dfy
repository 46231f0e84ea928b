/** Where a ring of 2^k cells keeps the items of the indices between head and tail. */
module SpscRing {
  import opened Bits
  import opened Wrappers

  /** index & mask */
  function Slot(index: nat, k: nat): (r: nat)
    ensures r < Pow2(k)
  {
    AndMask(index, k);
    And(index, Pow2(k) - 1)
  }

  /** The slot of an index is its remainder. */
  lemma SlotIsRemainder(index: nat, k: nat)
    ensures Slot(index, k) == index % Pow2(k)
  {
    AndMask(index, k);
    LowIsMod(index, k);
  }

  /** n indices further the slot is n further, or has wrapped. */
  lemma SlotAhead(index: nat, n: nat, k: nat)
    requires n <= Pow2(k)
    ensures Slot(index + n, k) == if Slot(index, k) + n < Pow2(k) then Slot(index, k) + n
                                  else Slot(index, k) + n - Pow2(k)
  {
    AndMask(index, k);
    AndMask(index + n, k);
    LowAhead(index, n, k, Low(index, k));
  }

  lemma LowAhead(index: nat, n: nat, k: nat, r: nat)
    requires n <= Pow2(k) && r == Low(index, k)
    ensures Low(index + n, k) == if r + n < Pow2(k) then r + n else r + n - Pow2(k)
  {
    Recompose(index, k);
    var q := Shr(index, k);
    if r + n < Pow2(k) {
      LowUnique(index + n, k, q, r + n);
    } else {
      ShlAdd(q, 1, k);
      ShlOne(k);
      LowUnique(index + n, k, q + 1, r + n - Pow2(k));
    }
  }

  /** Indices less than 2^k apart have different slots. */
  lemma SlotsDiffer(i: nat, j: nat, k: nat)
    requires i < j < i + Pow2(k)
    ensures Slot(i, k) != Slot(j, k)
  {
    SlotAhead(i, j - i, k);
  }

  /** The items of the n indices from head on. */
  function Ring<T>(cells: seq<T>, k: nat, head: nat, n: nat): (r: seq<T>)
    requires |cells| == Pow2(k)
    ensures |r| == n
  {
    seq(n, j requires 0 <= j < n => cells[Slot(head + j, k)])
  }

  lemma RingSplit<T>(cells: seq<T>, k: nat, head: nat, n: nat, m: nat)
    requires |cells| == Pow2(k)
    ensures Ring(cells, k, head, n + m) == Ring(cells, k, head, n) + Ring(cells, k, head + n, m)
  {
  }

  /** Storing an item behind the others appends it and changes none of them, while there is room. */
  lemma RingStore<T>(cells: seq<T>, k: nat, head: nat, n: nat, x: T)
    requires |cells| == Pow2(k) && n < Pow2(k)
    ensures Ring(cells[Slot(head + n, k) := x], k, head, n + 1) == Ring(cells, k, head, n) + [x]
  {
    var cells' := cells[Slot(head + n, k) := x];
    forall j | 0 <= j < n ensures Ring(cells', k, head, n + 1)[j] == Ring(cells, k, head, n)[j] {
      SlotsDiffer(head + j, head + n, k);
    }
  }

  // ----- the two contiguous regions -----

  /** What a peek gives: where a region of the array starts, None for the null pointer, and its length. */
  datatype Region = Region(src: Option<nat>, num: nat)

  /** spsc_queue_peek_0 on the values it loads */
  function Peek0(k: nat, head: nat, tail: nat): Region {
    var maskedHead, maskedTail := Slot(head, k), Slot(tail, k);
    if head == tail then Region(None, 0)
    else if maskedHead < maskedTail then Region(Some(maskedHead), maskedTail - maskedHead)
    else Region(Some(maskedHead), Pow2(k) - maskedHead)
  }

  /** spsc_queue_peek_1 on the values it loads */
  function Peek1(k: nat, head: nat, tail: nat): Region {
    var maskedHead, maskedTail := Slot(head, k), Slot(tail, k);
    if head == tail || maskedHead < maskedTail then Region(None, 0)
    else Region(Some(0), maskedTail)
  }

  predicate InArray(r: Region, size: nat) {
    if r.src.Some? then r.src.value + r.num <= size else r.num == 0
  }

  /** The items of a region. */
  function Content<T>(cells: seq<T>, r: Region): seq<T>
    requires InArray(r, |cells|)
  {
    if r.src.Some? then cells[r.src.value..r.src.value + r.num] else []
  }

  /** The index of the first slot again, behind head: the wrap. */
  function Wrap(k: nat, head: nat): (w: nat)
    ensures head < w <= head + Pow2(k)
  {
    head + Pow2(k) - Slot(head, k)
  }

  /** What the masks of the two counters tell about the counters themselves: the first region ends at the wrap or at
      the tail, and the second has the rest. */
  lemma PeekNums(k: nat, head: nat, tail: nat)
    requires head <= tail <= head + Pow2(k)
    ensures Peek0(k, head, tail).num == (if tail < Wrap(k, head) then tail else Wrap(k, head)) - head
    ensures Peek1(k, head, tail).num == if tail < Wrap(k, head) then 0 else tail - Wrap(k, head)
    ensures InArray(Peek0(k, head, tail), Pow2(k)) && InArray(Peek1(k, head, tail), Pow2(k))
  {
    SlotAhead(head, tail - head, k);
  }

  /** The indices before the wrap lie in the array from the slot of head on, ... */
  lemma BeforeWrap<T>(cells: seq<T>, k: nat, head: nat, n: nat)
    requires |cells| == Pow2(k) && head + n <= Wrap(k, head)
    ensures Ring(cells, k, head, n) == cells[Slot(head, k)..Slot(head, k) + n]
  {
    forall j | 0 <= j < n ensures Ring(cells, k, head, n)[j] == cells[Slot(head, k)..Slot(head, k) + n][j] {
      SlotAhead(head, j, k);
    }
  }

  /** ... those behind it from the start on. */
  lemma BehindWrap<T>(cells: seq<T>, k: nat, head: nat, n: nat)
    requires |cells| == Pow2(k) && Wrap(k, head) + n <= head + Pow2(k)
    ensures Ring(cells, k, Wrap(k, head), n) == cells[..n]
  {
    var w := Wrap(k, head);
    forall j | 0 <= j < n ensures Ring(cells, k, w, n)[j] == cells[..n][j] {
      SlotAhead(head, w + j - head, k);
    }
  }

  /** The first region, at any moment, holds the first items. */
  lemma FirstRegion<T>(cells: seq<T>, k: nat, head: nat, tail: nat)
    requires |cells| == Pow2(k) && head <= tail <= head + Pow2(k)
    ensures InArray(Peek0(k, head, tail), |cells|)
    ensures head + Peek0(k, head, tail).num <= tail
    ensures Content(cells, Peek0(k, head, tail)) == Ring(cells, k, head, Peek0(k, head, tail).num)
  {
    PeekNums(k, head, tail);
    BeforeWrap(cells, k, head, Peek0(k, head, tail).num);
  }

  /** The second region holds the last items. */
  lemma SecondRegion<T>(cells: seq<T>, k: nat, head: nat, tail: nat)
    requires |cells| == Pow2(k) && head <= tail <= head + Pow2(k)
    ensures InArray(Peek1(k, head, tail), |cells|)
    ensures head + Peek1(k, head, tail).num <= tail
    ensures var n := Peek1(k, head, tail).num; Content(cells, Peek1(k, head, tail)) == Ring(cells, k, tail - n, n)
  {
    PeekNums(k, head, tail);
    BehindWrap(cells, k, head, Peek1(k, head, tail).num);
  }

  /** At one moment the two regions, one behind the other, are the contents, in full and wrapped rings too. */
  lemma Snapshot<T>(cells: seq<T>, k: nat, head: nat, tail: nat)
    requires |cells| == Pow2(k) && head <= tail <= head + Pow2(k)
    ensures InArray(Peek0(k, head, tail), |cells|) && InArray(Peek1(k, head, tail), |cells|)
    ensures Content(cells, Peek0(k, head, tail)) + Content(cells, Peek1(k, head, tail))
            == Ring(cells, k, head, tail - head)
  {
    FirstRegion(cells, k, head, tail);
    SecondRegion(cells, k, head, tail);
    PeekNums(k, head, tail);
    RingSplit(cells, k, head, Peek0(k, head, tail).num, Peek1(k, head, tail).num);
  }

  // ----- two peeks with pushes in between -----

  /** The tail goes past the wrap from before it, between the two peeks. */
  predicate Torn(k: nat, head: nat, tail0: nat, tail1: nat) {
    tail0 < Wrap(k, head) < tail1
  }

  /** Two peeks never see more items than there are at the second. */
  lemma PeeksFit(k: nat, head: nat, tail0: nat, tail1: nat)
    requires head <= tail0 <= tail1 <= head + Pow2(k)
    ensures Peek0(k, head, tail0).num + Peek1(k, head, tail1).num <= tail1 - head
  {
    PeekNums(k, head, tail0);
    PeekNums(k, head, tail1);
  }

  /** The regions of the two peeks are the first items, in order, if the tail did not go past the wrap in between ... */
  lemma PeeksInOrder<T>(cells: seq<T>, k: nat, head: nat, tail0: nat, tail1: nat)
    requires |cells| == Pow2(k) && head <= tail0 <= tail1 <= head + Pow2(k) && !Torn(k, head, tail0, tail1)
    ensures InArray(Peek0(k, head, tail0), |cells|) && InArray(Peek1(k, head, tail1), |cells|)
    ensures var n0, n1 := Peek0(k, head, tail0).num, Peek1(k, head, tail1).num;
            && Content(cells, Peek0(k, head, tail0)) == Ring(cells, k, head, n0)
            && Content(cells, Peek1(k, head, tail1)) == Ring(cells, k, head + n0, n1)
  {
    FirstRegion(cells, k, head, tail0);
    SecondRegion(cells, k, head, tail1);
    PeekNums(k, head, tail0);
    PeekNums(k, head, tail1);
  }

  /** Cell j holds the same as that of index tail + j. */
  ghost predicate IsDue<T>(cells: seq<T>, k: nat, tail: nat, j: nat)
    requires |cells| == Pow2(k)
  {
    j < |cells| && cells[j] == cells[Slot(tail + j, k)]
  }

  /** The first n cells hold the same as the n ones from index tail on. */
  ghost predicate Coincide<T>(cells: seq<T>, k: nat, tail: nat, n: nat)
    requires |cells| == Pow2(k)
  {
    forall j: nat :: j < n ==> IsDue(cells, k, tail, j)
  }

  /** ... Otherwise the second region has the first cells of the array where the items from tail0 on were due: it is
      right only if each of these cells happens to hold the same as the one due. */
  lemma PeeksOutOfOrder<T>(cells: seq<T>, k: nat, head: nat, tail0: nat, tail1: nat)
    requires |cells| == Pow2(k) && head <= tail0 <= tail1 <= head + Pow2(k) && Torn(k, head, tail0, tail1)
    ensures InArray(Peek1(k, head, tail1), |cells|) && Peek1(k, head, tail1).num > 0
    ensures var n0, n1 := Peek0(k, head, tail0).num, Peek1(k, head, tail1).num;
            Content(cells, Peek1(k, head, tail1)) == Ring(cells, k, head + n0, n1) <==> Coincide(cells, k, tail0, n1)
  {
    PeekNums(k, head, tail0);
    PeekNums(k, head, tail1);
    var n1 := Peek1(k, head, tail1).num;
    if Coincide(cells, k, tail0, n1) { SameIfCoincide(cells, k, tail0, n1); }
    CoincideIfSame(cells, k, tail0, n1);
  }

  lemma SameIfCoincide<T>(cells: seq<T>, k: nat, tail: nat, n: nat)
    requires |cells| == Pow2(k) && n <= |cells| && Coincide(cells, k, tail, n)
    ensures cells[..n] == Ring(cells, k, tail, n)
  {
    forall j | 0 <= j < n ensures cells[..n][j] == Ring(cells, k, tail, n)[j] {
      assert IsDue(cells, k, tail, j);
    }
  }

  lemma CoincideIfSame<T>(cells: seq<T>, k: nat, tail: nat, n: nat)
    requires |cells| == Pow2(k) && n <= |cells|
    ensures cells[..n] == Ring(cells, k, tail, n) ==> Coincide(cells, k, tail, n)
  {
    if cells[..n] == Ring(cells, k, tail, n) {
      forall j: nat | j < n ensures IsDue(cells, k, tail, j) {
        assert cells[..n][j] == Ring(cells, k, tail, n)[j];
      }
    }
  }

  /** In a ring of one cell there is nothing to go past. */
  lemma NeverTornInOne(head: nat, tail0: nat, tail1: nat)
    requires head <= tail0 <= tail1 <= head + 1
    ensures !Torn(0, head, tail0, tail1)
  {
    assert Pow2(0) == 1;
  }
}
