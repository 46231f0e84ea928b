/** The lock-free queue for many producers and many consumers, as a machine whose steps are the atomic loads,
    compare-and-swaps and increments of the code and the copies of single bytes. Every sequence of choices of a
    scheduler is a run; compare_exchange_weak may fail without a reason. Counters do not overflow. */
module MpmcQueue {
  import opened Bits
  import opened Wrappers

  type Item = seq<Byte>

  /** Where a thread stands in its operation, with its local variables. */
  datatype Pc =
    | Idle
    // mpmc_queue_try_push
    | LoadTempTail(v: Item)
    | LoadTempHead(v: Item, oldTempTail: nat)
    | CasTempTail(v: Item, oldTempTail: nat)
    | CopyIn(v: Item, index: nat, copied: nat)
    | WaitTail(v: Item, index: nat)
    | BumpTail(v: Item, index: nat)
    // mpmc_queue_try_pop
    | LoadHead
    | LoadTail(oldHead: nat)
    | CasHead(oldHead: nat)
    | CopyOut(index: nat, dst: Item)
    | WaitTempHead(index: nat, dst: Item)
    | BumpTempHead(index: nat, dst: Item)

  /** What a step does that the users of the queue can tell: a push reserves its cell, its item gets into the queue, an
      item is taken out of it by a pop, that pop returns its item and gives back the cell, and the two failures. */
  datatype Event =
    | Entered(thread: nat, v: Item)
    | Pushed(thread: nat, v: Item)
    | Popped(thread: nat, v: Item)
    | Returned(thread: nat, v: Item)
    | FoundEmpty(thread: nat)
    | FoundFull(thread: nat)

  /** The fields of the queue, the threads, and four history variables that no thread reads: the published items by
      index, the values returned by index, and which thread reserved which index for a push and for a pop. */
  datatype State = State(
    head: nat, tail: nat, tempHead: nat, tempTail: nat,
    cells: seq<Item>,
    threads: seq<Pc>,
    published: seq<Item>,
    returned: seq<Item>,
    pushers: map<nat, nat>,
    poppers: map<nat, nat>)
  {
    function Size(): nat { |cells| }

    /** What the users of the queue see: the items between head and tail. */
    function Queue(): seq<Item>
      requires head <= |published|
    {
      published[head..]
    }
  }

  /** The scheduler picks a thread; start is what an idle thread begins, Some(v) a push of v and None a pop; spurious
      says whether a compare-and-swap fails although it could succeed. */
  datatype Choice = Choice(thread: nat, start: Option<Item>, spurious: bool)

  /** The cell of an index, as item_addr computes it. */
  function CellOf(index: nat, size: nat): nat
    requires size > 0
  {
    index % size
  }

  /** The first indices have the cells in order. */
  lemma CellOfFirst(index: nat, size: nat)
    requires index < size
    ensures CellOf(index, size) == index && CellOf(index + size, size) == index
  {
    DivUnique(index + size, size, 1, index);
  }

  function SetPc(s: State, t: nat, pc: Pc): State
    requires t < |s.threads|
  {
    s.(threads := s.threads[t := pc])
  }

  // ----- the steps -----

  /** The compare-and-swap that reserves the index temp_tail. */
  function AfterReserve(s: State, t: nat, v: Item): State
    requires t < |s.threads|
  {
    SetPc(s, t, CopyIn(v, s.tempTail, 0)).(tempTail := s.tempTail + 1, pushers := s.pushers[s.tempTail := t])
  }

  /** One byte of the copy into the cell of index i. */
  function AfterByte(s: State, t: nat, v: Item, i: nat, k: nat): State
    requires t < |s.threads| && s.Size() > 0 && k < |v| && k < |s.cells[CellOf(i, s.Size())]|
  {
    var p := CellOf(i, s.Size());
    SetPc(s, t, CopyIn(v, i, k + 1)).(cells := s.cells[p := s.cells[p][k := v[k]]])
  }

  /** tail++: the push takes effect. */
  function AfterPublish(s: State, t: nat, v: Item, i: nat): State
    requires t < |s.threads|
  {
    SetPc(s, t, Idle).(tail := s.tail + 1, published := s.published + [v], pushers := s.pushers - {i})
  }

  /** The compare-and-swap on head: the pop takes effect. */
  function AfterTake(s: State, t: nat): State
    requires t < |s.threads|
  {
    SetPc(s, t, CopyOut(s.head, [])).(head := s.head + 1, poppers := s.poppers[s.head := t])
  }

  /** temp_head++: the pop returns its item and gives back the cell. */
  function AfterGiveBack(s: State, t: nat, i: nat, dst: Item): State
    requires t < |s.threads|
  {
    SetPc(s, t, Idle).(tempHead := s.tempHead + 1, returned := s.returned + [dst], poppers := s.poppers - {i})
  }

  /** One step of thread c.thread. */
  function Step(s: State, c: Choice): (s': State)
    requires c.thread < |s.threads| && s.Size() > 0
    ensures s'.Size() == s.Size() && |s'.threads| == |s.threads|
  {
    var t := c.thread;
    match s.threads[t]
    case Idle => SetPc(s, t, if c.start.Some? then LoadTempTail(c.start.value) else LoadHead)

    case LoadTempTail(v) => SetPc(s, t, LoadTempHead(v, s.tempTail))
    case LoadTempHead(v, tt) => SetPc(s, t, if s.tempHead + s.Size() == tt then Idle else CasTempTail(v, tt))
    case CasTempTail(v, tt) =>
      if s.tempTail == tt && !c.spurious
      then AfterReserve(s, t, v)
      else SetPc(s, t, LoadTempTail(v))
    case CopyIn(v, i, k) =>
      if k < |v| && k < |s.cells[CellOf(i, s.Size())]| then AfterByte(s, t, v, i, k) else SetPc(s, t, WaitTail(v, i))
    case WaitTail(v, i) => if s.tail != i then s else SetPc(s, t, BumpTail(v, i))
    case BumpTail(v, i) => AfterPublish(s, t, v, i)

    case LoadHead => SetPc(s, t, LoadTail(s.head))
    case LoadTail(h) => SetPc(s, t, if h == s.tail then Idle else CasHead(h))
    case CasHead(h) => if s.head == h && !c.spurious then AfterTake(s, t) else SetPc(s, t, LoadHead)
    case CopyOut(i, dst) =>
      var cell := s.cells[CellOf(i, s.Size())];
      if |dst| < |cell| then SetPc(s, t, CopyOut(i, dst + [cell[|dst|]])) else SetPc(s, t, WaitTempHead(i, dst))
    case WaitTempHead(i, dst) => if s.tempHead != i then s else SetPc(s, t, BumpTempHead(i, dst))
    case BumpTempHead(i, dst) => AfterGiveBack(s, t, i, dst)
  }

  /** mpmc_queue_init, with any contents of the array and n idle threads. */
  function Init(cells: seq<Item>, n: nat): State {
    State(0, 0, 0, 0, cells, seq(n, _ => Idle), [], [], map[], map[])
  }

  /** The scheduler picks existing threads and items of the size of a cell. */
  predicate Allowed(n: nat, cell: nat, c: Choice) {
    c.thread < n && (c.start.Some? ==> |c.start.value| == cell)
  }

  /** The state after a run. */
  function Run(s: State, cs: seq<Choice>): State
    requires s.Size() > 0 && forall i :: 0 <= i < |cs| ==> cs[i].thread < |s.threads|
    ensures Run(s, cs).Size() == s.Size() && |Run(s, cs).threads| == |s.threads|
    decreases |cs|
  {
    if cs == [] then s else Step(Run(s, cs[..|cs| - 1]), cs[|cs| - 1])
  }

  // ----- the invariant -----

  datatype Side = Pushing | Popping

  /** The index that a thread has reserved for a push, or for a pop. */
  function Reserved(pc: Pc, side: Side): Option<nat> {
    match pc
    case CopyIn(_, i, _) => if side == Pushing then Some(i) else None
    case WaitTail(_, i) => if side == Pushing then Some(i) else None
    case BumpTail(_, i) => if side == Pushing then Some(i) else None
    case CopyOut(i, _) => if side == Popping then Some(i) else None
    case WaitTempHead(i, _) => if side == Popping then Some(i) else None
    case BumpTempHead(i, _) => if side == Popping then Some(i) else None
    case _ => None
  }

  predicate Counters(s: State) {
    && s.tempHead <= s.head <= s.tail <= s.tempTail <= s.tempHead + s.Size()
    && s.Size() > 0
    && |s.published| == s.tail
  }

  predicate AllSized(items: seq<Item>, cell: nat) {
    forall i :: 0 <= i < |items| ==> |items[i]| == cell
  }

  predicate Sized(s: State, cell: nat) {
    Counters(s) && AllSized(s.cells, cell) && AllSized(s.published, cell)
  }

  /** The cells of the indices that are published and not yet given back hold the published items. */
  predicate CellsHold(s: State)
    requires Counters(s)
  {
    forall i :: s.tempHead <= i < s.tail ==> s.cells[CellOf(i, s.Size())] == s.published[i]
  }

  /** What a thread knows at each of its program points. */
  predicate ThreadOk(s: State, cell: nat, pc: Pc)
    requires Sized(s, cell)
  {
    match pc
    case Idle => true
    case LoadTempTail(v) => |v| == cell
    case LoadTempHead(v, tt) => |v| == cell && tt <= s.tempTail
    case CasTempTail(v, tt) => |v| == cell && tt <= s.tempTail && tt < s.tempHead + s.Size()
    case CopyIn(v, i, k) =>
      |v| == cell && s.tail <= i < s.tempTail && k <= cell && s.cells[CellOf(i, s.Size())][..k] == v[..k]
    case WaitTail(v, i) => |v| == cell && s.tail <= i < s.tempTail && s.cells[CellOf(i, s.Size())] == v
    case BumpTail(v, i) => |v| == cell && s.tail == i < s.tempTail && s.cells[CellOf(i, s.Size())] == v
    case LoadHead => true
    case LoadTail(h) => h <= s.head
    case CasHead(h) => h <= s.head && h < s.tail
    case CopyOut(i, dst) => s.tempHead <= i < s.head && |dst| <= cell && dst == s.published[i][..|dst|]
    case WaitTempHead(i, dst) => s.tempHead <= i < s.head && dst == s.published[i]
    case BumpTempHead(i, dst) => s.tempHead == i < s.head && dst == s.published[i]
  }

  ghost predicate ThreadsOk(s: State, cell: nat)
    requires Sized(s, cell)
  {
    forall t :: 0 <= t < |s.threads| ==> ThreadOk(s, cell, s.threads[t])
  }

  /** Every index from lo to hi is reserved by exactly one thread, the one that owner names, and no other index is. */
  ghost predicate Owned(threads: seq<Pc>, side: Side, owner: map<nat, nat>, lo: nat, hi: nat) {
    && (forall i :: i in owner <==> lo <= i < hi)
    && (forall i :: i in owner ==> owner[i] < |threads| && Reserved(threads[owner[i]], side) == Some(i))
    && (forall t :: 0 <= t < |threads| && Reserved(threads[t], side).Some? ==>
          Reserved(threads[t], side).value in owner && owner[Reserved(threads[t], side).value] == t)
  }

  ghost predicate Owners(s: State) {
    && Owned(s.threads, Pushing, s.pushers, s.tail, s.tempTail)
    && Owned(s.threads, Popping, s.poppers, s.tempHead, s.head)
  }

  ghost predicate Inv(s: State, cell: nat) {
    && Sized(s, cell)
    && CellsHold(s)
    && ThreadsOk(s, cell)
    && Owners(s)
    && s.returned == s.published[..s.tempHead]
  }

  // ----- what a step keeps -----

  /** Indices less than size apart have different cells. */
  lemma CellsDiffer(i: nat, j: nat, size: nat)
    requires i < j < i + size
    ensures CellOf(i, size) != CellOf(j, size)
  {
    var q, r, d := i / size, i % size, j - i;
    assert i == q * size + r;
    if r + d < size {
      DivUnique(j, size, q, r + d);
    } else {
      MulDistributes(q, 1, size);
      DivUnique(j, size, q + 1, r + d - size);
    }
  }

  lemma InitInv(cells: seq<Item>, n: nat, cell: nat)
    requires |cells| > 0 && AllSized(cells, cell)
    ensures Inv(Init(cells, n), cell)
  {
  }

  // ----- ownership -----

  lemma OwnedSame(threads: seq<Pc>, side: Side, owner: map<nat, nat>, lo: nat, hi: nat, t: nat, pc: Pc)
    requires Owned(threads, side, owner, lo, hi) && t < |threads|
    requires Reserved(pc, side) == Reserved(threads[t], side)
    ensures Owned(threads[t := pc], side, owner, lo, hi)
  {
  }

  lemma OwnedMore(threads: seq<Pc>, side: Side, owner: map<nat, nat>, lo: nat, hi: nat, t: nat, pc: Pc)
    requires Owned(threads, side, owner, lo, hi) && t < |threads| && lo <= hi
    requires Reserved(threads[t], side) == None && Reserved(pc, side) == Some(hi)
    ensures Owned(threads[t := pc], side, owner[hi := t], lo, hi + 1)
  {
  }

  lemma OwnedLess(threads: seq<Pc>, side: Side, owner: map<nat, nat>, lo: nat, hi: nat, t: nat, pc: Pc)
    requires Owned(threads, side, owner, lo, hi) && t < |threads| && lo < hi
    requires Reserved(threads[t], side) == Some(lo) && Reserved(pc, side) == None
    ensures Owned(threads[t := pc], side, owner - {lo}, lo + 1, hi)
  {
  }

  // ----- what the other threads know -----

  /** Counters and history only grow; the array keeps its size. */
  ghost predicate Grows(s: State, s': State) {
    && s.head <= s'.head && s.tail <= s'.tail && s.tempHead <= s'.tempHead && s.tempTail <= s'.tempTail
    && s.Size() == s'.Size()
    && s.published <= s'.published
  }

  /** What a thread knows stays true while its own index and its own cell are left alone. */
  lemma ThreadKept(s: State, s': State, cell: nat, pc: Pc)
    requires Sized(s, cell) && Sized(s', cell) && Grows(s, s') && ThreadOk(s, cell, pc)
    requires var i := Reserved(pc, Pushing);
             i.Some? ==> s'.tail <= i.value && s'.cells[CellOf(i.value, s.Size())] == s.cells[CellOf(i.value, s.Size())]
    requires var i := Reserved(pc, Popping);
             i.Some? ==> s'.tempHead <= i.value
    ensures ThreadOk(s', cell, pc)
  {
  }

  /** The step of thread t to program point pc keeps what all threads know. */
  lemma ThreadsKept(s: State, s': State, cell: nat, t: nat, pc: Pc)
    requires Sized(s, cell) && Sized(s', cell) && Grows(s, s') && ThreadsOk(s, cell)
    requires t < |s.threads| && s'.threads == s.threads[t := pc] && ThreadOk(s', cell, pc)
    requires forall u :: 0 <= u < |s.threads| && u != t && Reserved(s.threads[u], Pushing).Some? ==>
               var i := Reserved(s.threads[u], Pushing).value;
               s'.tail <= i && s'.cells[CellOf(i, s.Size())] == s.cells[CellOf(i, s.Size())]
    requires forall u :: 0 <= u < |s.threads| && u != t && Reserved(s.threads[u], Popping).Some? ==>
               s'.tempHead <= Reserved(s.threads[u], Popping).value
    ensures ThreadsOk(s', cell)
  {
    forall u | 0 <= u < |s'.threads| ensures ThreadOk(s', cell, s'.threads[u]) {
      if u != t {
        assert s'.threads[u] == s.threads[u];
        ThreadKept(s, s', cell, s.threads[u]);
      }
    }
  }

  /** The indices that the others have reserved are inside the bounds, and not the one of thread t. */
  lemma OthersReserved(s: State, side: Side, owner: map<nat, nat>, lo: nat, hi: nat, t: nat)
    requires t < |s.threads| && Owned(s.threads, side, owner, lo, hi)
    ensures forall u :: 0 <= u < |s.threads| && u != t && Reserved(s.threads[u], side).Some? ==>
              && lo <= Reserved(s.threads[u], side).value < hi
              && Reserved(s.threads[u], side) != Reserved(s.threads[t], side)
  {
  }

  // ----- the steps, one by one -----

  /** A step that only moves the program counter and reserves or releases nothing. */
  lemma PcStep(s: State, cell: nat, t: nat, pc: Pc)
    requires Inv(s, cell) && t < |s.threads|
    requires forall side :: Reserved(pc, side) == Reserved(s.threads[t], side)
    requires ThreadOk(s, cell, pc)
    ensures Inv(SetPc(s, t, pc), cell)
  {
    var s' := SetPc(s, t, pc);
    OwnedSame(s.threads, Pushing, s.pushers, s.tail, s.tempTail, t, pc);
    OwnedSame(s.threads, Popping, s.poppers, s.tempHead, s.head, t, pc);
    OthersReserved(s, Pushing, s.pushers, s.tail, s.tempTail, t);
    OthersReserved(s, Popping, s.poppers, s.tempHead, s.head, t);
    ThreadsKept(s, s', cell, t, pc);
  }

  lemma Reserve(s: State, cell: nat, t: nat, v: Item)
    requires Inv(s, cell) && t < |s.threads| && s.threads[t] == CasTempTail(v, s.tempTail)
    ensures Inv(AfterReserve(s, t, v), cell)
  {
    var s', pc := AfterReserve(s, t, v), CopyIn(v, s.tempTail, 0);
    assert ThreadOk(s, cell, s.threads[t]);
    OwnedMore(s.threads, Pushing, s.pushers, s.tail, s.tempTail, t, pc);
    OwnedSame(s.threads, Popping, s.poppers, s.tempHead, s.head, t, pc);
    OthersReserved(s, Pushing, s.pushers, s.tail, s.tempTail, t);
    OthersReserved(s, Popping, s.poppers, s.tempHead, s.head, t);
    ThreadsKept(s, s', cell, t, pc);
  }

  /** Copying a byte into the reserved cell touches no cell that holds an item or belongs to another thread. */
  lemma CopyByteIn(s: State, cell: nat, t: nat, v: Item, i: nat, k: nat)
    requires Inv(s, cell) && t < |s.threads| && s.threads[t] == CopyIn(v, i, k) && k < cell == |v|
    ensures Inv(AfterByte(s, t, v, i, k), cell)
  {
    var s', pc, p := AfterByte(s, t, v, i, k), CopyIn(v, i, k + 1), CellOf(i, s.Size());
    assert ThreadOk(s, cell, s.threads[t]);
    forall j: nat | s.tempHead <= j < s.tempHead + s.Size() && j != i ensures CellOf(j, s.Size()) != p {
      if j < i { CellsDiffer(j, i, s.Size()); } else { CellsDiffer(i, j, s.Size()); }
    }
    NextByte(s.cells[p], v, k);
    OwnedSame(s.threads, Pushing, s.pushers, s.tail, s.tempTail, t, pc);
    OwnedSame(s.threads, Popping, s.poppers, s.tempHead, s.head, t, pc);
    OthersReserved(s, Pushing, s.pushers, s.tail, s.tempTail, t);
    OthersReserved(s, Popping, s.poppers, s.tempHead, s.head, t);
    ThreadsKept(s, s', cell, t, pc);
  }

  lemma NextByte(dst: Item, src: Item, k: nat)
    requires k < |dst| && k < |src| && dst[..k] == src[..k]
    ensures dst[k := src[k]][..k + 1] == src[..k + 1]
  {
    assert dst[k := src[k]][..k + 1] == dst[..k] + [src[k]];
    assert src[..k + 1] == src[..k] + [src[k]];
  }

  lemma Publish(s: State, cell: nat, t: nat, v: Item, i: nat)
    requires Inv(s, cell) && t < |s.threads| && s.threads[t] == BumpTail(v, i)
    ensures Inv(AfterPublish(s, t, v, i), cell)
    ensures AfterPublish(s, t, v, i).Queue() == s.Queue() + [v]
  {
    var s' := AfterPublish(s, t, v, i);
    assert ThreadOk(s, cell, s.threads[t]);
    OwnedLess(s.threads, Pushing, s.pushers, s.tail, s.tempTail, t, Idle);
    OwnedSame(s.threads, Popping, s.poppers, s.tempHead, s.head, t, Idle);
    OthersReserved(s, Pushing, s.pushers, s.tail, s.tempTail, t);
    OthersReserved(s, Popping, s.poppers, s.tempHead, s.head, t);
    ThreadsKept(s, s', cell, t, Idle);
  }

  lemma Take(s: State, cell: nat, t: nat)
    requires Inv(s, cell) && t < |s.threads| && s.threads[t] == CasHead(s.head)
    ensures s.head < s.tail
    ensures Inv(AfterTake(s, t), cell)
    ensures s.Queue() == [s.published[s.head]] + AfterTake(s, t).Queue()
  {
    assert ThreadOk(s, cell, s.threads[t]);
    var s', pc := AfterTake(s, t), CopyOut(s.head, []);
    OwnedSame(s.threads, Pushing, s.pushers, s.tail, s.tempTail, t, pc);
    OwnedMore(s.threads, Popping, s.poppers, s.tempHead, s.head, t, pc);
    OthersReserved(s, Pushing, s.pushers, s.tail, s.tempTail, t);
    OthersReserved(s, Popping, s.poppers, s.tempHead, s.head, t);
    ThreadsKept(s, s', cell, t, pc);
    assert s.Queue()[1..] == s'.Queue();
  }

  lemma GiveBackThreads(s: State, cell: nat, t: nat, i: nat, dst: Item)
    requires Inv(s, cell) && t < |s.threads| && s.threads[t] == BumpTempHead(i, dst)
    ensures var s' := AfterGiveBack(s, t, i, dst); Sized(s', cell) && ThreadsOk(s', cell) && Owners(s')
    ensures i == s.tempHead < |s.published| && dst == s.published[i]
  {
    var s' := AfterGiveBack(s, t, i, dst);
    assert ThreadOk(s, cell, s.threads[t]);
    OwnedSame(s.threads, Pushing, s.pushers, s.tail, s.tempTail, t, Idle);
    OwnedLess(s.threads, Popping, s.poppers, s.tempHead, s.head, t, Idle);
    OthersReserved(s, Pushing, s.pushers, s.tail, s.tempTail, t);
    OthersReserved(s, Popping, s.poppers, s.tempHead, s.head, t);
    ThreadsKept(s, s', cell, t, Idle);
  }

  lemma GiveBack(s: State, cell: nat, t: nat, i: nat, dst: Item)
    requires Inv(s, cell) && t < |s.threads| && s.threads[t] == BumpTempHead(i, dst)
    ensures Inv(AfterGiveBack(s, t, i, dst), cell)
  {
    GiveBackThreads(s, cell, t, i, dst);
    assert s.published[..i + 1] == s.published[..i] + [dst];
  }

  lemma Moves(s: State, cell: nat, c: Choice, pc: Pc)
    requires Inv(s, cell) && Allowed(|s.threads|, cell, c)
    requires Step(s, c) == SetPc(s, c.thread, pc)
    requires forall side :: Reserved(pc, side) == Reserved(s.threads[c.thread], side)
    requires ThreadOk(s, cell, pc)
    ensures Inv(Step(s, c), cell)
  {
    PcStep(s, cell, c.thread, pc);
  }

  lemma Becomes(s: State, cell: nat, c: Choice, s': State)
    requires c.thread < |s.threads| && s.Size() > 0 && Step(s, c) == s' && Inv(s', cell)
    ensures Inv(Step(s, c), cell)
  {
  }

  lemma CopyOutStep(s: State, cell: nat, c: Choice, i: nat, dst: Item)
    requires Inv(s, cell) && Allowed(|s.threads|, cell, c) && s.threads[c.thread] == CopyOut(i, dst)
    ensures Inv(Step(s, c), cell)
  {
    assert ThreadOk(s, cell, s.threads[c.thread]);
    var src := s.cells[CellOf(i, s.Size())];
    if |dst| < cell {
      assert src[..|dst| + 1] == src[..|dst|] + [src[|dst|]];
      Moves(s, cell, c, CopyOut(i, dst + [src[|dst|]]));
    } else {
      Moves(s, cell, c, WaitTempHead(i, dst));
    }
  }

  lemma PushStartInv(s: State, cell: nat, c: Choice)
    requires Inv(s, cell) && Allowed(|s.threads|, cell, c)
    requires var pc := s.threads[c.thread]; pc.LoadTempTail? || pc.LoadTempHead? || pc.CasTempTail?
    ensures Inv(Step(s, c), cell)
  {
    var t := c.thread;
    assert ThreadOk(s, cell, s.threads[t]);
    match s.threads[t]
    case LoadTempTail(v) => Moves(s, cell, c, LoadTempHead(v, s.tempTail));
    case LoadTempHead(v, tt) => Moves(s, cell, c, if s.tempHead + s.Size() == tt then Idle else CasTempTail(v, tt));
    case CasTempTail(v, tt) =>
      if s.tempTail == tt && !c.spurious {
        Reserve(s, cell, t, v);
        Becomes(s, cell, c, AfterReserve(s, t, v));
      } else {
        Moves(s, cell, c, LoadTempTail(v));
      }
  }

  lemma PushEndInv(s: State, cell: nat, c: Choice)
    requires Inv(s, cell) && Allowed(|s.threads|, cell, c) && Reserved(s.threads[c.thread], Pushing).Some?
    ensures Inv(Step(s, c), cell)
  {
    var t := c.thread;
    assert ThreadOk(s, cell, s.threads[t]);
    match s.threads[t]
    case CopyIn(v, i, k) =>
      if k < cell {
        CopyByteIn(s, cell, t, v, i, k);
        Becomes(s, cell, c, AfterByte(s, t, v, i, k));
      } else {
        Moves(s, cell, c, WaitTail(v, i));
      }
    case WaitTail(v, i) =>
      if s.tail == i { Moves(s, cell, c, BumpTail(v, i)); }
    case BumpTail(v, i) =>
      Publish(s, cell, t, v, i);
      Becomes(s, cell, c, AfterPublish(s, t, v, i));
  }

  lemma PopStartInv(s: State, cell: nat, c: Choice)
    requires Inv(s, cell) && Allowed(|s.threads|, cell, c)
    requires var pc := s.threads[c.thread]; pc.LoadHead? || pc.LoadTail? || pc.CasHead?
    ensures Inv(Step(s, c), cell)
  {
    var t := c.thread;
    assert ThreadOk(s, cell, s.threads[t]);
    match s.threads[t]
    case LoadHead => Moves(s, cell, c, LoadTail(s.head));
    case LoadTail(h) => Moves(s, cell, c, if h == s.tail then Idle else CasHead(h));
    case CasHead(h) =>
      if s.head == h && !c.spurious {
        Take(s, cell, t);
        Becomes(s, cell, c, AfterTake(s, t));
      } else {
        Moves(s, cell, c, LoadHead);
      }
  }

  lemma PopEndInv(s: State, cell: nat, c: Choice)
    requires Inv(s, cell) && Allowed(|s.threads|, cell, c) && Reserved(s.threads[c.thread], Popping).Some?
    ensures Inv(Step(s, c), cell)
  {
    var t := c.thread;
    assert ThreadOk(s, cell, s.threads[t]);
    match s.threads[t]
    case CopyOut(i, dst) =>
      CopyOutStep(s, cell, c, i, dst);
    case WaitTempHead(i, dst) =>
      if s.tempHead == i { Moves(s, cell, c, BumpTempHead(i, dst)); }
    case BumpTempHead(i, dst) =>
      GiveBack(s, cell, t, i, dst);
      Becomes(s, cell, c, AfterGiveBack(s, t, i, dst));
  }

  /** Every step of every thread keeps the invariant. */
  lemma StepInv(s: State, cell: nat, c: Choice)
    requires Inv(s, cell) && Allowed(|s.threads|, cell, c)
    ensures Inv(Step(s, c), cell)
  {
    var pc := s.threads[c.thread];
    if pc.Idle? {
      Moves(s, cell, c, if c.start.Some? then LoadTempTail(c.start.value) else LoadHead);
    } else if pc.LoadTempTail? || pc.LoadTempHead? || pc.CasTempTail? {
      PushStartInv(s, cell, c);
    } else if pc.LoadHead? || pc.LoadTail? || pc.CasHead? {
      PopStartInv(s, cell, c);
    } else if Reserved(pc, Pushing).Some? {
      PushEndInv(s, cell, c);
    } else {
      PopEndInv(s, cell, c);
    }
  }

  // ----- results about all runs -----

  predicate AllAllowed(n: nat, cell: nat, cs: seq<Choice>) {
    forall i :: 0 <= i < |cs| ==> Allowed(n, cell, cs[i])
  }

  /** The state after a run of n threads on a queue whose array held cells. */
  function Reached(cells: seq<Item>, n: nat, cell: nat, cs: seq<Choice>): State
    requires |cells| > 0 && AllAllowed(n, cell, cs)
  {
    Run(Init(cells, n), cs)
  }

  lemma {:induction false} RunKeeps(s: State, cell: nat, cs: seq<Choice>)
    requires Inv(s, cell) && AllAllowed(|s.threads|, cell, cs)
    ensures Inv(Run(s, cs), cell)
    decreases |cs|
  {
    if cs == [] {
    } else {
      RunKeeps(s, cell, cs[..|cs| - 1]);
      StepInv(Run(s, cs[..|cs| - 1]), cell, cs[|cs| - 1]);
    }
  }

  // ----- the abstract queue -----

  /** What a thread has on its way into the queue, or out of it. */
  datatype Flight = Free | Adding(v: Item) | Taking(v: Item)

  function Busy(flights: seq<Flight>): nat {
    if flights == [] then 0 else (if flights[0].Free? then 0 else 1) + Busy(flights[1..])
  }

  lemma {:induction false} BusyUpdate(flights: seq<Flight>, t: nat, f: Flight)
    requires t < |flights|
    ensures Busy(flights[t := f]) ==
            Busy(flights) - (if flights[t].Free? then 0 else 1) + (if f.Free? then 0 else 1)
  {
    if t == 0 {
    } else {
      assert flights[t := f][1..] == flights[1..][t - 1 := f];
      BusyUpdate(flights[1..], t - 1, f);
    }
  }

  /** A bounded queue: its items, and what is on the way, by thread; both take up cells. */
  datatype Spec = Spec(items: seq<Item>, flights: seq<Flight>) {
    function Used(): nat { |items| + Busy(flights) }
  }

  /** What an event does to a queue of so many cells; None if it cannot happen. */
  function Perform(q: Spec, e: Event, size: nat): Option<Spec> {
    var t := e.thread;
    if t >= |q.flights| then None
    else
      match e
      case Entered(_, v) =>
        if q.flights[t] == Free && q.Used() < size then Some(q.(flights := q.flights[t := Adding(v)])) else None
      case Pushed(_, v) =>
        if q.flights[t] == Adding(v) then Some(Spec(q.items + [v], q.flights[t := Free])) else None
      case Popped(_, v) =>
        if q.flights[t] == Free && q.items != [] && q.items[0] == v
        then Some(Spec(q.items[1..], q.flights[t := Taking(v)])) else None
      case Returned(_, v) =>
        if q.flights[t] == Taking(v) then Some(q.(flights := q.flights[t := Free])) else None
      case FoundEmpty(_) => if q.flights[t] == Free && q.items == [] then Some(q) else None
      case FoundFull(_) => if q.flights[t] == Free && q.Used() == size then Some(q) else None
  }

  /** The queue of n threads after a history, None if that is no history of such a queue. */
  function Replay(events: seq<Event>, n: nat, size: nat): Option<Spec>
    decreases |events|
  {
    if events == [] then Some(Spec([], seq(n, _ => Free)))
    else
      match Replay(events[..|events| - 1], n, size)
      case None => None
      case Some(q) => Perform(q, events[|events| - 1], size)
  }

  /** The items that the events push, and those that they pop, in order. */
  function Pushes(events: seq<Event>): seq<Item>
    decreases |events|
  {
    if events == [] then []
    else
      var e := events[|events| - 1];
      Pushes(events[..|events| - 1]) + (if e.Pushed? then [e.v] else [])
  }

  function Pops(events: seq<Event>): seq<Item>
    decreases |events|
  {
    if events == [] then []
    else
      var e := events[|events| - 1];
      Pops(events[..|events| - 1]) + (if e.Popped? then [e.v] else [])
  }

  /** In a history of the abstract queue the popped items are the first of the pushed ones, in the same order. */
  lemma {:induction false} FirstInFirstOut(events: seq<Event>, n: nat, size: nat)
    requires Replay(events, n, size).Some?
    ensures Pushes(events) == Pops(events) + Replay(events, n, size).value.items
    decreases |events|
  {
    if events == [] {
    } else {
      var before, e := events[..|events| - 1], events[|events| - 1];
      FirstInFirstOut(before, n, size);
      OneEvent(Pushes(before), Pops(before), Replay(before, n, size).value, e, size);
    }
  }

  lemma OneEvent(pushes: seq<Item>, pops: seq<Item>, q: Spec, e: Event, size: nat)
    requires pushes == pops + q.items && Perform(q, e, size).Some?
    ensures pushes + (if e.Pushed? then [e.v] else []) ==
            pops + (if e.Popped? then [e.v] else []) + Perform(q, e, size).value.items
  {
    if e.Popped? { assert q.items == [e.v] + q.items[1..]; }
  }

  /** Event i is the pop of v by thread t, and t has done nothing about pops since. */
  predicate LastPop(events: seq<Event>, i: nat, t: nat, v: Item) {
    && i < |events| && events[i] == Popped(t, v)
    && forall k :: i < k < |events| && events[k].thread == t ==> !events[k].Popped? && !events[k].Returned?
  }

  /** What a thread is taking is the item of its own pop. */
  lemma {:induction false} TakesItsOwn(events: seq<Event>, n: nat, size: nat, t: nat) returns (i: nat)
    requires Replay(events, n, size).Some?
    requires var q := Replay(events, n, size).value; t < |q.flights| && q.flights[t].Taking?
    ensures LastPop(events, i, t, Replay(events, n, size).value.flights[t].v)
    decreases |events|
  {
    var m := |events| - 1;
    if events == [] {
      assert false;
    } else if events[m].Popped? && events[m].thread == t {
      i := m;
    } else {
      var before, e := events[..m], events[m];
      StillTakes(Replay(before, n, size).value, e, size, t);
      i := TakesItsOwn(before, n, size, t);
      LastPopStays(events, m, i, t, Replay(before, n, size).value.flights[t].v);
    }
  }

  lemma StillTakes(q: Spec, e: Event, size: nat, t: nat)
    requires Perform(q, e, size).Some? && !(e.Popped? && e.thread == t)
    requires var q' := Perform(q, e, size).value; t < |q'.flights| && q'.flights[t].Taking?
    ensures t < |q.flights| && q.flights[t] == Perform(q, e, size).value.flights[t]
    ensures e.thread == t ==> !e.Returned?
  {
  }

  lemma LastPopStays(events: seq<Event>, m: nat, i: nat, t: nat, v: Item)
    requires |events| == m + 1 && LastPop(events[..m], i, t, v)
    requires events[m].thread == t ==> !events[m].Popped? && !events[m].Returned?
    ensures LastPop(events, i, t, v)
  {
  }

  /** In a history of the abstract queue every pop returns the item that the same thread took before. */
  lemma ReturnsItsOwn(events: seq<Event>, n: nat, size: nat, j: nat) returns (i: nat)
    requires j < |events| && Replay(events[..j + 1], n, size).Some? && events[j].Returned?
    ensures i < j && LastPop(events[..j], i, events[j].thread, events[j].v)
  {
    assert events[..j + 1][..j] == events[..j];
    i := TakesItsOwn(events[..j], n, size, events[j].thread);
  }

  // ----- the machine refines it -----

  /** What a step does that the users can tell. */
  function EventOf(s: State, c: Choice): Option<Event>
    requires c.thread < |s.threads| && s.Size() > 0
  {
    var t := c.thread;
    match s.threads[t]
    case LoadTempHead(v, tt) => if s.tempHead + s.Size() == tt then Some(FoundFull(t)) else None
    case CasTempTail(v, tt) => if s.tempTail == tt && !c.spurious then Some(Entered(t, v)) else None
    case BumpTail(v, _) => Some(Pushed(t, v))
    case LoadTail(h) => if h == s.tail then Some(FoundEmpty(t)) else None
    case CasHead(h) => if s.head == h && !c.spurious then Some(Popped(t, ItemAt(s.published, h))) else None
    case BumpTempHead(_, dst) => Some(Returned(t, dst))
    case _ => None
  }

  /** The events of a run, in the order of the steps. */
  function History(s: State, cs: seq<Choice>): seq<Event>
    requires s.Size() > 0 && forall i :: 0 <= i < |cs| ==> cs[i].thread < |s.threads|
    decreases |cs|
  {
    if cs == [] then []
    else
      var before := Run(s, cs[..|cs| - 1]);
      var e := EventOf(before, cs[|cs| - 1]);
      History(s, cs[..|cs| - 1]) + (if e.Some? then [e.value] else [])
  }

  function ItemAt(published: seq<Item>, i: nat): Item {
    if i < |published| then published[i] else []
  }

  /** What a thread has on its way. */
  function FlightOf(pc: Pc, published: seq<Item>): Flight {
    if Reserved(pc, Pushing).Some? then Adding(pc.v)
    else if Reserved(pc, Popping).Some? then Taking(ItemAt(published, pc.index))
    else Free
  }

  function Flights(threads: seq<Pc>, published: seq<Item>): seq<Flight> {
    seq(|threads|, t requires 0 <= t < |threads| => FlightOf(threads[t], published))
  }

  function Abstraction(s: State): Spec
    requires s.head <= |s.published|
  {
    Spec(s.Queue(), Flights(s.threads, s.published))
  }

  /** The counters count the operations in flight. */
  predicate Counted(s: State) {
    Busy(Flights(s.threads, s.published)) == (s.tempTail - s.tail) + (s.head - s.tempHead)
  }

  lemma FlightsSet(threads: seq<Pc>, published: seq<Item>, t: nat, pc: Pc)
    requires t < |threads|
    ensures Flights(threads[t := pc], published) == Flights(threads, published)[t := FlightOf(pc, published)]
    ensures Busy(Flights(threads[t := pc], published)) ==
            Busy(Flights(threads, published)) - (if FlightOf(threads[t], published).Free? then 0 else 1)
            + (if FlightOf(pc, published).Free? then 0 else 1)
  {
    assert Flights(threads[t := pc], published) == Flights(threads, published)[t := FlightOf(pc, published)];
    BusyUpdate(Flights(threads, published), t, FlightOf(pc, published));
  }

  /** An item more at the end is none that a pop has taken. */
  lemma FlightsGrow(threads: seq<Pc>, published: seq<Item>, v: Item)
    requires TakesPublished(threads, |published|)
    ensures Flights(threads, published + [v]) == Flights(threads, published)
  {
  }

  /** The pops in flight have taken published items. */
  predicate TakesPublished(threads: seq<Pc>, n: nat) {
    forall t :: 0 <= t < |threads| && Reserved(threads[t], Popping).Some? ==> threads[t].index < n
  }

  /** The abstract queue after a step is what its event makes of it; most steps have none. */
  ghost predicate Refines(s: State, e: Option<Event>, s': State)
    requires Counters(s) && Counters(s')
  {
    && Counted(s')
    && (if e.Some? then Perform(Abstraction(s), e.value, s.Size()) == Some(Abstraction(s'))
        else Abstraction(s') == Abstraction(s))
  }

  lemma EntersQueue(s: State, t: nat, v: Item)
    requires Counters(s) && Counted(s) && t < |s.threads| && s.threads[t] == CasTempTail(v, s.tempTail)
    requires s.tempTail < s.tempHead + s.Size()
    ensures Counters(AfterReserve(s, t, v)) && Refines(s, Some(Entered(t, v)), AfterReserve(s, t, v))
  {
    FlightsSet(s.threads, s.published, t, CopyIn(v, s.tempTail, 0));
  }

  lemma PushesItem(s: State, t: nat, v: Item, i: nat)
    requires Counters(s) && Counted(s) && t < |s.threads| && s.threads[t] == BumpTail(v, i)
    requires s.tail < s.tempTail && TakesPublished(s.threads, |s.published|)
    ensures Counters(AfterPublish(s, t, v, i)) && Refines(s, Some(Pushed(t, v)), AfterPublish(s, t, v, i))
  {
    FlightsSet(s.threads, s.published, t, Idle);
    FlightsGrow(s.threads[t := Idle], s.published, v);
    assert AfterPublish(s, t, v, i).Queue() == s.Queue() + [v];
  }

  lemma PopsItem(s: State, t: nat)
    requires Counters(s) && Counted(s) && t < |s.threads| && s.threads[t] == CasHead(s.head) && s.head < s.tail
    ensures Counters(AfterTake(s, t))
    ensures Refines(s, Some(Popped(t, ItemAt(s.published, s.head))), AfterTake(s, t))
  {
    FlightsSet(s.threads, s.published, t, CopyOut(s.head, []));
    assert s.Queue()[1..] == AfterTake(s, t).Queue();
  }

  lemma ReturnsItem(s: State, t: nat, i: nat, dst: Item)
    requires Counters(s) && Counted(s) && t < |s.threads| && s.threads[t] == BumpTempHead(i, dst)
    requires s.tempHead < s.head && i < |s.published| && dst == s.published[i]
    ensures Counters(AfterGiveBack(s, t, i, dst))
    ensures Refines(s, Some(Returned(t, dst)), AfterGiveBack(s, t, i, dst))
  {
    FlightsSet(s.threads, s.published, t, Idle);
  }

  /** The counters and the history stay as they are. */
  predicate SameCounters(s: State, s': State) {
    && s'.head == s.head && s'.tail == s.tail && s'.tempHead == s.tempHead && s'.tempTail == s.tempTail
    && s'.published == s.published && s'.Size() == s.Size()
  }

  /** A load or a copy: it may have found the queue full or empty, and then it is. */
  lemma MovesThread(s: State, s': State, t: nat, pc: Pc, e: Option<Event>)
    requires Counters(s) && Counted(s) && t < |s.threads|
    requires s'.threads == s.threads[t := pc] && SameCounters(s, s')
    requires FlightOf(pc, s.published) == FlightOf(s.threads[t], s.published)
    requires e == None || (FlightOf(pc, s.published) == Free &&
             (if e == Some(FoundEmpty(t)) then s.head == s.tail
              else e == Some(FoundFull(t)) && s.tempTail == s.tempHead + s.Size()))
    ensures Counters(s') && Refines(s, e, s')
  {
    FlightsSet(s.threads, s.published, t, pc);
    assert Flights(s.threads, s.published)[t] == FlightOf(pc, s.published);
    assert Abstraction(s') == Abstraction(s);
  }

  lemma EntersOrNot(s: State, cell: nat, c: Choice)
    requires Inv(s, cell) && Counted(s) && Allowed(|s.threads|, cell, c) && s.threads[c.thread].CasTempTail?
    ensures Counters(Step(s, c)) && Refines(s, EventOf(s, c), Step(s, c))
  {
    var t, v, tt := c.thread, s.threads[c.thread].v, s.threads[c.thread].oldTempTail;
    assert ThreadOk(s, cell, s.threads[t]);
    if s.tempTail == tt && !c.spurious {
      EntersQueue(s, t, v);
    } else {
      MovesThread(s, Step(s, c), t, LoadTempTail(v), None);
    }
  }

  lemma PopsOrNot(s: State, cell: nat, c: Choice)
    requires Inv(s, cell) && Counted(s) && Allowed(|s.threads|, cell, c) && s.threads[c.thread].CasHead?
    ensures Counters(Step(s, c)) && Refines(s, EventOf(s, c), Step(s, c))
  {
    var t := c.thread;
    assert ThreadOk(s, cell, s.threads[t]);
    if s.head == s.threads[t].oldHead && !c.spurious {
      PopsItem(s, t);
    } else {
      MovesThread(s, Step(s, c), t, LoadHead, None);
    }
  }

  lemma Releases(s: State, cell: nat, c: Choice)
    requires Inv(s, cell) && Counted(s) && Allowed(|s.threads|, cell, c)
    requires s.threads[c.thread].BumpTail? || s.threads[c.thread].BumpTempHead?
    ensures Counters(Step(s, c)) && Refines(s, EventOf(s, c), Step(s, c))
  {
    var t := c.thread;
    assert ThreadOk(s, cell, s.threads[t]);
    match s.threads[t]
    case BumpTail(v, i) =>
      OthersReserved(s, Popping, s.poppers, s.tempHead, s.head, t);
      PushesItem(s, t, v, i);
    case BumpTempHead(i, dst) => ReturnsItem(s, t, i, dst);
  }

  lemma OtherSteps(s: State, cell: nat, c: Choice)
    requires Inv(s, cell) && Counted(s) && Allowed(|s.threads|, cell, c)
    requires var pc := s.threads[c.thread]; !pc.CasTempTail? && !pc.BumpTail? && !pc.CasHead? && !pc.BumpTempHead?
    ensures Counters(Step(s, c)) && Refines(s, EventOf(s, c), Step(s, c))
  {
    var pc := s.threads[c.thread];
    if pc.CopyIn? || pc.WaitTail? || pc.CopyOut? || pc.WaitTempHead? {
      CopiesOnlyMove(s, c);
    } else {
      LoadsOnlyMove(s, c);
      LoadsAreConsistent(s, cell, c.thread);
    }
    MovesThread(s, Step(s, c), c.thread, Step(s, c).threads[c.thread], EventOf(s, c));
  }

  /** Every step of the machine is a step of the bounded queue, or none. */
  lemma StepPerforms(s: State, cell: nat, c: Choice)
    requires Inv(s, cell) && Counted(s) && Allowed(|s.threads|, cell, c)
    ensures Counters(Step(s, c)) && Refines(s, EventOf(s, c), Step(s, c))
  {
    var pc := s.threads[c.thread];
    if pc.CasTempTail? {
      EntersOrNot(s, cell, c);
    } else if pc.CasHead? {
      PopsOrNot(s, cell, c);
    } else if pc.BumpTail? || pc.BumpTempHead? {
      Releases(s, cell, c);
    } else {
      OtherSteps(s, cell, c);
    }
  }

  /** The step only moves a thread, with what it has on its way. */
  ghost predicate OnlyMoves(s: State, c: Choice)
    requires c.thread < |s.threads| && s.Size() > 0
  {
    var s', pc, pc' := Step(s, c), s.threads[c.thread], Step(s, c).threads[c.thread];
    && s'.threads == s.threads[c.thread := pc'] && SameCounters(s, s')
    && FlightOf(pc', s.published) == FlightOf(pc, s.published)
  }

  lemma LoadsOnlyMove(s: State, c: Choice)
    requires c.thread < |s.threads| && s.Size() > 0
    requires var pc := s.threads[c.thread];
             pc.Idle? || pc.LoadTempTail? || pc.LoadTempHead? || pc.LoadHead? || pc.LoadTail?
    ensures OnlyMoves(s, c)
  {
  }

  lemma CopiesOnlyMove(s: State, c: Choice)
    requires c.thread < |s.threads| && s.Size() > 0
    requires var pc := s.threads[c.thread]; pc.CopyIn? || pc.WaitTail? || pc.CopyOut? || pc.WaitTempHead?
    ensures OnlyMoves(s, c) && EventOf(s, c) == None
  {
  }

  lemma InitCounted(cells: seq<Item>, n: nat)
    ensures Counted(Init(cells, n)) && Abstraction(Init(cells, n)) == Spec([], seq(n, _ => Free))
  {
    assert Flights(Init(cells, n).threads, []) == seq(n, _ => Free);
    NothingBusy(n);
  }

  lemma {:induction false} NothingBusy(n: nat)
    ensures Busy(seq(n, _ => Free)) == 0
  {
    if n == 0 {
    } else {
      assert seq(n, _ => Free)[1..] == seq(n - 1, _ => Free);
      NothingBusy(n - 1);
    }
  }

  lemma {:induction false} RunPerforms(cells: seq<Item>, n: nat, cell: nat, cs: seq<Choice>)
    requires |cells| > 0 && AllSized(cells, cell) && AllAllowed(n, cell, cs)
    ensures var s := Reached(cells, n, cell, cs);
            && Inv(s, cell) && Counted(s)
            && Replay(History(Init(cells, n), cs), n, |cells|) == Some(Abstraction(s))
    decreases |cs|
  {
    if cs == [] {
      InitInv(cells, n, cell);
      InitCounted(cells, n);
    } else {
      var before, c := cs[..|cs| - 1], cs[|cs| - 1];
      RunPerforms(cells, n, cell, before);
      var s := Reached(cells, n, cell, before);
      StepInv(s, cell, c);
      StepPerforms(s, cell, c);
      ReplayMore(History(Init(cells, n), before), EventOf(s, c), n, |cells|);
    }
  }

  lemma ReplayMore(events: seq<Event>, e: Option<Event>, n: nat, size: nat)
    requires Replay(events, n, size).Some?
    ensures var all := events + if e.Some? then [e.value] else [];
            Replay(all, n, size) ==
            if e.Some? then Perform(Replay(events, n, size).value, e.value, size) else Replay(events, n, size)
  {
    if e.Some? {
      assert (events + [e.value])[..|events|] == events;
    } else {
      assert events + [] == events;
    }
  }

  /** Whatever the number of threads and however they interleave, the counters keep their order, every reserved index
      has exactly one owner, the returned items are a prefix of the published ones, and the events are a history of a
      bounded first-in first-out queue, in which every thread returns the item that it has taken itself, and which is
      empty, or full with the items on their way in and out, whenever an operation finds it so. */
  lemma EveryRun(cells: seq<Item>, n: nat, cell: nat, cs: seq<Choice>)
    requires |cells| > 0 && AllSized(cells, cell) && AllAllowed(n, cell, cs)
    ensures var s, events := Reached(cells, n, cell, cs), History(Init(cells, n), cs);
            && s.tempHead <= s.head <= s.tail <= s.tempTail <= s.tempHead + s.Size()
            && s.Size() == |cells|
            && Owners(s)
            && |s.returned| == s.tempHead && s.returned <= s.published
            && |s.published| == s.tail
            && Replay(events, n, |cells|) == Some(Abstraction(s))
            && Pushes(events) == s.published
            && Pops(events) == s.published[..s.head]
            && Inv(s, cell)
  {
    RunPerforms(cells, n, cell, cs);
    PushesPublished(cells, n, cell, cs);
    var s := Reached(cells, n, cell, cs);
    FirstInFirstOut(History(Init(cells, n), cs), n, |cells|);
    SameTail(Pops(History(Init(cells, n), cs)), s.published, s.head);
  }

  lemma {:induction false} PushesPublished(cells: seq<Item>, n: nat, cell: nat, cs: seq<Choice>)
    requires |cells| > 0 && AllAllowed(n, cell, cs)
    ensures Pushes(History(Init(cells, n), cs)) == Reached(cells, n, cell, cs).published
    decreases |cs|
  {
    if cs == [] {
    } else {
      var before, c := cs[..|cs| - 1], cs[|cs| - 1];
      PushesPublished(cells, n, cell, before);
      PushesMore(History(Init(cells, n), before), EventOf(Reached(cells, n, cell, before), c));
      StepPublishes(Reached(cells, n, cell, before), c);
    }
  }

  lemma PushesMore(events: seq<Event>, e: Option<Event>)
    ensures Pushes(events + if e.Some? then [e.value] else [])
            == Pushes(events) + if e.Some? && e.value.Pushed? then [e.value.v] else []
  {
    if e.Some? {
      assert (events + [e.value])[..|events|] == events;
    } else {
      assert events + [] == events;
    }
  }

  lemma StepPublishes(s: State, c: Choice)
    requires c.thread < |s.threads| && s.Size() > 0
    ensures var e := EventOf(s, c);
            Step(s, c).published == s.published + if e.Some? && e.value.Pushed? then [e.value.v] else []
  {
  }

  lemma SameTail(a: seq<Item>, b: seq<Item>, k: nat)
    requires k <= |b| && b == a + b[k..]
    ensures a == b[..k]
  {
    assert |b| == |a| + (|b| - k);
    assert b[..k] == (a + b[k..])[..k];
  }

  /** In every run, what a pop is about to return, byte by byte out of the cell of its index, is what was pushed at that
      index, and what the same thread took out of the queue. */
  lemma PopReturnsPushed(cells: seq<Item>, n: nat, cell: nat, cs: seq<Choice>, t: nat) returns (i: nat)
    requires |cells| > 0 && AllSized(cells, cell) && AllAllowed(n, cell, cs)
    requires t < n && Reached(cells, n, cell, cs).threads[t].BumpTempHead?
    ensures var s, events := Reached(cells, n, cell, cs), History(Init(cells, n), cs);
            && s.threads[t].index < |Pushes(events)| && s.threads[t].dst == Pushes(events)[s.threads[t].index]
            && LastPop(events, i, t, s.threads[t].dst)
  {
    var s, events := Reached(cells, n, cell, cs), History(Init(cells, n), cs);
    EveryRun(cells, n, cell, cs);
    assert ThreadOk(s, cell, s.threads[t]);
    i := TakesItsOwn(events, n, |cells|, t);
  }

  /** How one step changes what the users of the queue see. */
  lemma StepRefines(s: State, cell: nat, c: Choice)
    requires Inv(s, cell) && Allowed(|s.threads|, cell, c)
    ensures var pc, s' := s.threads[c.thread], Step(s, c);
            && Inv(s', cell)
            && (pc.BumpTail? ==> s'.Queue() == s.Queue() + [pc.v])
            && (pc.CasHead? && s'.head != s.head ==>
                  && s.Queue() == [s.published[pc.oldHead]] + s'.Queue()
                  && s'.threads[c.thread] == CopyOut(pc.oldHead, []))
            && (!pc.BumpTail? && !(pc.CasHead? && s'.head != s.head) ==> s'.Queue() == s.Queue())
  {
    StepInv(s, cell, c);
    QueueSame(s, c);
    var t := c.thread;
    if s.threads[t].BumpTail? {
      Publish(s, cell, t, s.threads[t].v, s.threads[t].index);
    } else if s.threads[t].CasHead? && Step(s, c).head != s.head {
      Take(s, cell, t);
    }
  }

  /** Only tail++ adds to the published items, and only a successful compare-and-swap moves head. */
  lemma QueueSame(s: State, c: Choice)
    requires c.thread < |s.threads| && s.Size() > 0
    ensures var pc, s' := s.threads[c.thread], Step(s, c);
            && (!pc.BumpTail? ==> s'.published == s.published)
            && (s'.head == s.head || (pc == CasHead(s.head) && s' == AfterTake(s, c.thread)))
  {
  }

  /** The asserts between the two loads hold although the loads are not one atomic step, and giving up is justified:
      a failed push saw a moment at which every cell was reserved, a failed pop one at which the queue was empty. */
  lemma LoadsAreConsistent(s: State, cell: nat, t: nat)
    requires Inv(s, cell) && t < |s.threads|
    ensures s.threads[t].LoadTempHead? ==>
              var tt := s.threads[t].oldTempTail;
              && s.tempHead + s.Size() >= tt
              && (s.tempHead + s.Size() == tt ==> s.tempTail == s.tempHead + s.Size())
    ensures s.threads[t].LoadTail? ==>
              var h := s.threads[t].oldHead;
              && s.tail >= h
              && (s.tail == h ==> s.head == s.tail && s.Queue() == [])
  {
    assert ThreadOk(s, cell, s.threads[t]);
  }

  predicate Copying(pc: Pc) {
    pc.CopyIn? || pc.CopyOut?
  }

  /** No two threads ever copy into or out of the same cell at the same time. */
  lemma NoSharedCell(s: State, cell: nat, t: nat, u: nat)
    requires Inv(s, cell) && t < |s.threads| && u < |s.threads| && t != u
    requires Copying(s.threads[t]) && Copying(s.threads[u])
    ensures CellOf(s.threads[t].index, s.Size()) != CellOf(s.threads[u].index, s.Size())
  {
    assert ThreadOk(s, cell, s.threads[t]) && ThreadOk(s, cell, s.threads[u]);
    var i, j := s.threads[t].index, s.threads[u].index;
    assert i != j by {
      OthersReserved(s, Pushing, s.pushers, s.tail, s.tempTail, t);
      OthersReserved(s, Popping, s.poppers, s.tempHead, s.head, t);
    }
    if i < j { CellsDiffer(i, j, s.Size()); } else { CellsDiffer(j, i, s.Size()); }
  }

  // ----- the wait loops -----

  /** The number of steps other than waiting that a thread needs to finish the operation that it has reserved. */
  function Remaining(pc: Pc, cell: nat): nat {
    match pc
    case CopyIn(_, _, k) => if k < cell then cell - k + 3 else 3
    case WaitTail(_, _) => 2
    case BumpTail(_, _) => 1
    case CopyOut(_, dst) => if |dst| < cell then cell - |dst| + 3 else 3
    case WaitTempHead(_, _) => 2
    case BumpTempHead(_, _) => 1
    case _ => 0
  }

  function Work(threads: seq<Pc>, cell: nat): nat {
    if threads == [] then 0 else Remaining(threads[0], cell) + Work(threads[1..], cell)
  }

  lemma {:induction false} WorkUpdate(threads: seq<Pc>, cell: nat, t: nat, pc: Pc)
    requires t < |threads|
    ensures Work(threads[t := pc], cell) == Work(threads, cell) - Remaining(threads[t], cell) + Remaining(pc, cell)
  {
    if t == 0 {
    } else {
      assert threads[t := pc][1..] == threads[1..][t - 1 := pc];
      WorkUpdate(threads[1..], cell, t - 1, pc);
    }
  }

  predicate Pending(s: State) {
    s.tail < s.tempTail || s.tempHead < s.head
  }

  /** Thread t gets one step closer to the end of its operation, and reserves nothing. */
  ghost predicate Closer(s: State, cell: nat, c: Choice)
    requires s.Size() > 0 && c.thread < |s.threads|
  {
    var t, s' := c.thread, Step(s, c);
    && Remaining(s'.threads[t], cell) == Remaining(s.threads[t], cell) - 1
    && s'.threads == s.threads[t := s'.threads[t]]
    && s'.tempTail == s.tempTail && s'.head == s.head
  }

  /** A thread with a reserved index whose turn it is gets closer, if it pushes ... */
  lemma PushMovesOn(s: State, cell: nat, c: Choice)
    requires s.Size() > 0 && AllSized(s.cells, cell) && c.thread < |s.threads|
    requires var pc := s.threads[c.thread]; Reserved(pc, Pushing) == Some(s.tail) && |pc.v| == cell
    ensures Closer(s, cell, c)
  {
  }

  /** ... and if it pops. */
  lemma PopMovesOn(s: State, cell: nat, c: Choice)
    requires s.Size() > 0 && AllSized(s.cells, cell) && c.thread < |s.threads|
    requires Reserved(s.threads[c.thread], Popping) == Some(s.tempHead)
    ensures Closer(s, cell, c)
  {
  }

  /** While an operation has an index reserved, the thread that owns the oldest one can take a step that is not a turn
      of a wait loop. */
  lemma SomeoneMoves(s: State, cell: nat) returns (c: Choice)
    requires Inv(s, cell) && Pending(s)
    ensures Allowed(|s.threads|, cell, c)
    ensures Work(Step(s, c).threads, cell) == Work(s.threads, cell) - 1
    ensures Step(s, c).tempTail == s.tempTail && Step(s, c).head == s.head
  {
    var t;
    if s.tail < s.tempTail {
      assert s.tail in s.pushers;
      t := s.pushers[s.tail];
    } else {
      assert s.tempHead in s.poppers;
      t := s.poppers[s.tempHead];
    }
    c := Choice(t, None, false);
    assert ThreadOk(s, cell, s.threads[t]);
    if s.tail < s.tempTail { PushMovesOn(s, cell, c); } else { PopMovesOn(s, cell, c); }
    WorkUpdate(s.threads, cell, t, Step(s, c).threads[t]);
  }

  lemma RunOneMore(s: State, c: Choice, cs: seq<Choice>)
    requires s.Size() > 0 && c.thread < |s.threads|
    requires forall i :: 0 <= i < |cs| ==> cs[i].thread < |s.threads|
    ensures Run(s, [c] + cs) == Run(Step(s, c), cs)
    decreases |cs|
  {
    var all := [c] + cs;
    if cs == [] {
      assert all[..0] == [];
      assert Run(s, all) == Step(Run(s, all[..0]), c);
    } else {
      assert all[..|all| - 1] == [c] + cs[..|cs| - 1];
      RunOneMore(s, c, cs[..|cs| - 1]);
    }
  }

  /** The wait loops cannot deadlock: from every reachable state the threads that have reserved an index can all finish,
      in as many steps as are left to them, without the help of any other thread. */
  lemma {:induction false} Drain(s: State, cell: nat) returns (cs: seq<Choice>)
    requires Inv(s, cell)
    ensures AllAllowed(|s.threads|, cell, cs) && |cs| <= Work(s.threads, cell)
    ensures Inv(Run(s, cs), cell) && !Pending(Run(s, cs))
    ensures Run(s, cs).tempTail == s.tempTail && Run(s, cs).head == s.head
    decreases Work(s.threads, cell)
  {
    if !Pending(s) {
      cs := [];
    } else {
      var c := SomeoneMoves(s, cell);
      StepInv(s, cell, c);
      var rest := Drain(Step(s, c), cell);
      RunOneMore(s, c, rest);
      cs := [c] + rest;
    }
  }
}
