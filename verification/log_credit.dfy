/** The logger: a thread that writes log records and the thread that flushes them share a ring of bytes and a counting
    semaphore that hands out the room in the ring. The steps of the ring are those of SpscSteps; a wait and a signal are
    atomic, as the mutex of the semaphore makes them. */
module LogCredit {
  import opened Bits
  import opened SpscRing
  import Spsc = SpscSteps
  import opened Wrappers

  /** log_write2 */
  datatype Writer =
    | Outside
    | Waiting(data: string)
    | Pushing(data: string)

  /** flush_thread_local_buffers for one buffer, with the counters that it has loaded. */
  datatype Flusher =
    | Idle
    | PeekTail0(head: nat)
    | PeekHead1(head: nat, tail0: nat)
    | PeekTail1(head: nat, tail0: nat, head1: nat)
    | Write0(head: nat, tail0: nat, head1: nat, tail1: nat)
    | Write1(head: nat, tail0: nat, head1: nat, tail1: nat)
    | Popping(num: nat)
    | Signalling(num: nat)

  /** The buffer of the thread, the two threads, what is in the file, and what no thread looks at: the data of the calls
      that have returned, whether every multi_push and multi_pop returned true, whether the tail once went past the wrap
      between the two peeks of a flush, and whether a flush once wrote other bytes than those that were due. */
  datatype State = State(
    q: Spsc.State<char>, count: nat,
    writer: Writer, flusher: Flusher,
    file: string,
    logged: string, pushed: bool, popped: bool, torn: bool, misplaced: bool)
  {
    function Cap(): nat { Pow2(q.k) }
    function Queued(): int { q.tail - q.head }
  }

  /** The scheduler lets the writer make a step, which writes data if it is at rest, or the flusher. */
  datatype Choice = Write(data: string) | Flush

  /** Records are not empty, and not larger than the ring: log_write2 aborts on those. */
  predicate Good(k: nat, c: Choice) {
    c.Write? ==> 0 < |c.data| <= Pow2(k)
  }

  function PushJob(data: string): Spsc.Push<char> { Spsc.Push(false, |data|, Some(data)) }
  function PopJob(num: nat): Spsc.Pop { Spsc.Pop(false, num, false) }

  // ----- the steps -----

  function WriterStep(s: State, data: string): (s': State)
    requires |s.q.cells| == s.Cap()
    ensures s'.q.k == s.q.k && |s'.q.cells| == |s.q.cells|
  {
    match s.writer
    case Outside => s.(writer := Waiting(data))
    case Waiting(d) => if s.count < |d| then s else s.(count := s.count - |d|, writer := Pushing(d))
    case Pushing(d) =>
      var q' := Spsc.ProducerStep(s.q, PushJob(d));
      if q'.producer.Ready?
      then s.(q := q', writer := Outside, logged := s.logged + d, pushed := s.pushed && q'.producer.ok)
      else s.(q := q')
  }

  /** os_write of a region of the ring */
  function Written(s: State, r: Region): string
    requires |s.q.cells| == s.Cap()
  {
    if InArray(r, |s.q.cells|) then Content(s.q.cells, r) else ""
  }

  /** What the second write leaves: t tells whether the pass was torn. */
  function AfterWrite1(s: State, n0: nat, more: string, due: string, t: bool): State {
    s.(flusher := Popping(n0 + |more|), file := s.file + more,
       torn := s.torn || t, misplaced := s.misplaced || more != due)
  }

  function FlusherStep(s: State): (s': State)
    requires |s.q.cells| == s.Cap()
    ensures s'.q.k == s.q.k && |s'.q.cells| == |s.q.cells|
  {
    var k := s.q.k;
    match s.flusher
    case Idle => s.(flusher := PeekTail0(s.q.head))
    case PeekTail0(h) => s.(flusher := PeekHead1(h, s.q.tail))
    case PeekHead1(h, t0) => s.(flusher := PeekTail1(h, t0, s.q.head))
    case PeekTail1(h, t0, h1) =>
      if Peek0(k, h, t0).num + Peek1(k, h1, s.q.tail).num > 0
      then s.(flusher := Write0(h, t0, h1, s.q.tail))
      else s.(flusher := Idle)
    case Write0(h, t0, h1, t1) =>
      s.(flusher := Write1(h, t0, h1, t1), file := s.file + Written(s, Peek0(k, h, t0)))
    case Write1(h, t0, h1, t1) =>
      var n0, second := Peek0(k, h, t0).num, Peek1(k, h1, t1);
      AfterWrite1(s, n0, Written(s, second), Ring(s.q.cells, k, h + n0, second.num), Torn(k, h, t0, t1))
    case Popping(n) =>
      var q' := Spsc.ConsumerStep(s.q, PopJob(n));
      if q'.consumer.Rest?
      then s.(q := q', flusher := Signalling(n), popped := s.popped && q'.consumer.ok)
      else s.(q := q')
    case Signalling(n) => s.(count := s.count + n, flusher := Idle)
  }

  function Step(s: State, c: Choice): (s': State)
    requires |s.q.cells| == s.Cap()
    ensures s'.q.k == s.q.k && |s'.q.cells| == |s.q.cells|
  {
    match c
    case Write(data) => WriterStep(s, data)
    case Flush => FlusherStep(s)
  }

  /** The buffer as log_write2 makes it: the semaphore holds the capacity of the ring. */
  function Init(k: nat, cells: string): State {
    State(Spsc.Init(k, cells), Pow2(k), Outside, Idle, "", "", true, true, false, false)
  }

  function Run(s: State, cs: seq<Choice>): (s': State)
    requires |s.q.cells| == s.Cap()
    ensures s'.q.k == s.q.k && |s'.q.cells| == |s.q.cells|
    decreases |cs|
  {
    if cs == [] then s else Step(Run(s, cs[..|cs| - 1]), cs[|cs| - 1])
  }

  // ----- the invariant -----

  /** Credits that the writer has taken and not used yet. */
  function Held(w: Writer): nat {
    if w.Pushing? then |w.data| else 0
  }

  /** Bytes that the flusher has popped and not signalled yet. */
  function Unsignalled(f: Flusher): nat {
    if f.Signalling? then f.num else 0
  }

  /** The credit equation. */
  predicate Balance(s: State) {
    s.count + Held(s.writer) + s.Queued() + Unsignalled(s.flusher) == s.Cap()
  }

  ghost predicate WriterOk(s: State) {
    match s.writer
    case Outside => s.q.producer.Ready?
    case Waiting(d) => s.q.producer.Ready? && 0 < |d| <= s.Cap()
    case Pushing(d) =>
      0 < |d| <= s.Cap() &&
      match s.q.producer
      case Ready(_) => true
      case LoadHead(job) => job == PushJob(d)
      case LoadTail(job, head) => job == PushJob(d) && s.q.tail - head + |d| <= s.Cap()
      case CopyIn(job, _, _) => job == PushJob(d)
  }

  predicate FlusherOk(s: State) {
    var k := s.q.k;
    (s.flusher.Popping? || s.q.consumer.Rest?) &&
    match s.flusher
    case Idle => true
    case PeekTail0(h) => h == s.q.head
    case PeekHead1(h, t0) => h == s.q.head <= t0 <= s.q.tail
    case PeekTail1(h, t0, h1) => h == h1 == s.q.head <= t0 <= s.q.tail
    case Write0(h, t0, h1, t1) => PeeksOk(s, h, t0, h1, t1)
    case Write1(h, t0, h1, t1) => PeeksOk(s, h, t0, h1, t1)
    case Popping(n) =>
      0 < n <= s.Queued() &&
      (match s.q.consumer
       case Rest(_) => true
       case FetchHead(job) => job == PopJob(n)
       case FetchTail(job, head) => job == PopJob(n) && head == s.q.head
       case CopyOut(job, head, dst) => job == PopJob(n) && head == s.q.head && dst == [])
    case Signalling(n) => 0 < n
  }

  predicate PeeksOk(s: State, h: nat, t0: nat, h1: nat, t1: nat) {
    && h == h1 == s.q.head <= t0 <= t1 <= s.q.tail
    && Peek0(s.q.k, h, t0).num + Peek1(s.q.k, h, t1).num > 0
  }

  /** Bytes in the file that are still in the ring. */
  function Pending(s: State): nat {
    match s.flusher
    case Write1(h, t0, _, _) => Peek0(s.q.k, h, t0).num
    case Popping(n) => n
    case _ => 0
  }

  /** The file has another byte somewhere than was logged there. */
  ghost predicate Differs(file: string, logged: string) {
    exists i :: 0 <= i < |file| && i < |logged| && file[i] != logged[i]
  }

  /** The file is as long as it should be, and what was logged is in it, in order, unless bytes were misplaced. */
  ghost predicate FileOk(s: State) {
    && |s.file| == s.q.head + Pending(s) <= |s.logged|
    && (if s.misplaced then s.torn && Differs(s.file, s.logged) else s.file == s.logged[..|s.file|])
    && (s.q.k == 0 ==> !s.torn)
  }

  /** What the logger adds to the invariant of the ring. */
  ghost predicate LogOk(s: State) {
    && Balance(s)
    && s.pushed && s.popped
    && s.logged == s.q.pushed
    && WriterOk(s) && FlusherOk(s)
    && FileOk(s)
  }

  ghost predicate Inv(s: State) {
    Spsc.Inv(s.q) && LogOk(s)
  }

  lemma InitInv(k: nat, cells: string)
    requires |cells| == Pow2(k)
    ensures Inv(Init(k, cells))
  {
  }

  /** What the peeks gave stays true while the writer goes on. */
  lemma WriterKeeps(s: State, data: string)
    requires Inv(s) && 0 < |data| <= s.Cap()
    ensures Inv(WriterStep(s, data))
  {
    if s.writer.Pushing? {
      Spsc.ProducerKeeps(s.q, PushJob(s.writer.data));
      PushingGoesOn(s, s.writer.data);
    } else {
      WaitingGoesOn(s, data);
    }
  }

  lemma WaitingGoesOn(s: State, data: string)
    requires LogOk(s) && |s.q.cells| == s.Cap() && !s.writer.Pushing? && 0 < |data| <= s.Cap()
    ensures LogOk(WriterStep(s, data))
  {
    FlusherKept(s, WriterStep(s, data));
    FileKept(s, WriterStep(s, data));
  }

  /** multi_push finds room for the record, as its credits say. */
  lemma PushingGoesOn(s: State, d: string)
    requires Inv(s) && s.writer == Pushing(d)
    ensures LogOk(WriterStep(s, d))
  {
    Spsc.ProducerDoes(s.q, PushJob(d));
    FlusherKept(s, WriterStep(s, d));
    FileKept(s, WriterStep(s, d));
    WriterGoesOn(s, d, Spsc.ProducerStep(s.q, PushJob(d)));
  }

  lemma WriterGoesOn(s: State, d: string, q': Spsc.State<char>)
    requires LogOk(s) && s.writer == Pushing(d) && Spsc.Counters(s.q) && q' == Spsc.ProducerStep(s.q, PushJob(d))
    requires q'.head == s.q.head
    requires if s.q.producer.CopyIn? && q'.producer.Ready?
             then q'.producer.ok && q'.tail == s.q.tail + |d| && q'.pushed == s.q.pushed + d
             else q'.tail == s.q.tail && q'.pushed == s.q.pushed
    ensures var s' := WriterStep(s, d); WriterOk(s') && Balance(s') && s'.pushed && s'.logged == s'.q.pushed
  {
  }

  lemma FlusherKept(s: State, s': State)
    requires FlusherOk(s) && s'.flusher == s.flusher
    requires s'.q.k == s.q.k && s'.q.head == s.q.head && s'.q.tail >= s.q.tail && s'.q.consumer == s.q.consumer
    ensures FlusherOk(s')
  {
  }

  lemma FileKept(s: State, s': State)
    requires FileOk(s) && Pending(s') == Pending(s) && s'.file == s.file
    requires s'.torn == s.torn && s'.misplaced == s.misplaced
    requires s'.q.k == s.q.k && s'.q.head == s.q.head && s.logged <= s'.logged
    ensures FileOk(s')
  {
  }

  lemma FlusherKeeps(s: State)
    requires Inv(s)
    ensures Inv(FlusherStep(s))
  {
    match s.flusher
    case Write0(_, _, _, _) => Write0GoesOn(s);
    case Write1(_, _, _, _) => Write1GoesOn(s);
    case Popping(n) =>
      Spsc.ConsumerKeeps(s.q, PopJob(n));
      PoppingGoesOn(s, n);
    case _ => PeekingGoesOn(s);
  }

  lemma WriterKept(s: State, s': State)
    requires WriterOk(s) && s'.writer == s.writer
    requires s'.q.k == s.q.k && s'.q.tail == s.q.tail && s'.q.producer == s.q.producer
    ensures WriterOk(s')
  {
  }

  lemma PeekingGoesOn(s: State)
    requires LogOk(s) && Spsc.Counters(s.q) && !s.flusher.Write0? && !s.flusher.Write1? && !s.flusher.Popping?
    ensures LogOk(FlusherStep(s))
  {
    FileKept(s, FlusherStep(s));
    WriterKept(s, FlusherStep(s));
  }

  /** The ring from the i-th item on, as the history tells it. */
  lemma RingIsPushed(q: Spsc.State<char>, i: nat, n: nat)
    requires Spsc.Inv(q) && q.head + i + n <= q.tail
    ensures Ring(q.cells, q.k, q.head + i, n) == q.pushed[q.head + i..q.head + i + n]
  {
    RingSplit(q.cells, q.k, q.head, i, q.tail - q.head - i);
    RingSplit(q.cells, q.k, q.head + i, n, q.tail - q.head - i - n);
    var all := Ring(q.cells, q.k, q.head, q.tail - q.head);
    assert Ring(q.cells, q.k, q.head + i, n) == all[i..i + n];
  }

  /** The file after a write of as many bytes as were due. */
  lemma Appended(logged: string, file: string, n: nat, more: string, due: string, misplaced: bool)
    requires |file| + n <= |logged| && |more| == n && due == logged[|file|..|file| + n]
    requires if misplaced then Differs(file, logged) else file == logged[..|file|]
    ensures if misplaced || more != due then Differs(file + more, logged) else file + more == logged[..|file| + n]
  {
    if misplaced {
      var i :| 0 <= i < |file| && i < |logged| && file[i] != logged[i];
      assert (file + more)[i] != logged[i];
    } else if more != due {
      var j :| 0 <= j < n && more[j] != due[j];
      assert (file + more)[|file| + j] != logged[|file| + j];
    }
  }

  /** The first write is of the bytes that come next, ... */
  lemma FirstWrite(q: Spsc.State<char>, t0: nat)
    requires Spsc.Inv(q) && q.head <= t0 <= q.tail
    ensures var r := Peek0(q.k, q.head, t0);
            && q.head + r.num <= q.tail && InArray(r, |q.cells|)
            && Content(q.cells, r) == q.pushed[q.head..q.head + r.num]
  {
    FirstRegion(q.cells, q.k, q.head, t0);
    RingIsPushed(q, 0, Peek0(q.k, q.head, t0).num);
  }

  /** ... and so are those that the second write should be of; it is if the tail did not go past the wrap between the
      peeks, ... */
  lemma SecondWrite(q: Spsc.State<char>, t0: nat, t1: nat, n0: nat, r: Region)
    requires Spsc.Inv(q) && q.head <= t0 <= t1 <= q.tail
    requires n0 == Peek0(q.k, q.head, t0).num && r == Peek1(q.k, q.head, t1)
    ensures InArray(r, |q.cells|) && q.head + n0 + r.num <= q.tail
    ensures Ring(q.cells, q.k, q.head + n0, r.num) == q.pushed[q.head + n0..q.head + n0 + r.num]
    ensures !Torn(q.k, q.head, t0, t1) ==> Content(q.cells, r) == Ring(q.cells, q.k, q.head + n0, r.num)
  {
    PeeksFit(q.k, q.head, t0, t1);
    RingIsPushed(q, n0, r.num);
    SecondRegion(q.cells, q.k, q.head, t1);
    if !Torn(q.k, q.head, t0, t1) { PeeksInOrder(q.cells, q.k, q.head, t0, t1); }
  }

  /** ... and else only by chance. */
  lemma SecondIsDue(cells: string, k: nat, head: nat, t0: nat, t1: nat)
    requires |cells| == Pow2(k) && head <= t0 <= t1 <= head + Pow2(k)
    ensures var n0, r := Peek0(k, head, t0).num, Peek1(k, head, t1);
            && InArray(r, |cells|)
            && (Content(cells, r) == Ring(cells, k, head + n0, r.num) <==>
                !Torn(k, head, t0, t1) || Coincide(cells, k, t0, r.num))
  {
    if Torn(k, head, t0, t1) {
      PeeksOutOfOrder(cells, k, head, t0, t1);
    } else {
      PeeksInOrder(cells, k, head, t0, t1);
    }
  }

  lemma Write0GoesOn(s: State)
    requires Inv(s) && s.flusher.Write0?
    ensures LogOk(FlusherStep(s))
  {
    var r := Peek0(s.q.k, s.q.head, s.flusher.tail0);
    FirstWrite(s.q, s.flusher.tail0);
    Appended(s.logged, s.file, r.num, Content(s.q.cells, r), Content(s.q.cells, r), s.misplaced);
    WriterKept(s, FlusherStep(s));
  }

  lemma Write1GoesOn(s: State)
    requires Inv(s) && s.flusher.Write1?
    ensures LogOk(FlusherStep(s))
  {
    PeeksFit(s.q.k, s.q.head, s.flusher.tail0, s.flusher.tail1);
    Write1File(s);
    WriterKept(s, FlusherStep(s));
  }

  lemma AfterWrite1File(s: State, n0: nat, more: string, due: string, t: bool)
    requires FileOk(s) && Pending(s) == n0 && |more| == |due| && |s.file| + |more| <= |s.logged|
    requires due == s.logged[|s.file|..|s.file| + |more|]
    requires (more != due ==> t) && (s.q.k == 0 ==> !t)
    ensures FileOk(AfterWrite1(s, n0, more, due, t))
  {
    Appended(s.logged, s.file, |more|, more, due, s.misplaced);
  }

  lemma Write1File(s: State)
    requires Spsc.Inv(s.q) && FileOk(s) && s.logged == s.q.pushed && s.flusher.Write1?
    requires PeeksOk(s, s.flusher.head, s.flusher.tail0, s.flusher.head1, s.flusher.tail1)
    ensures FileOk(FlusherStep(s))
  {
    var t0, t1 := s.flusher.tail0, s.flusher.tail1;
    var n0, r := Peek0(s.q.k, s.q.head, t0).num, Peek1(s.q.k, s.q.head, t1);
    SecondWritten(s, t0, t1, n0, r);
    Write1Step(s, t0, t1, n0, r);
  }

  lemma Write1Step(s: State, t0: nat, t1: nat, n0: nat, r: Region)
    requires |s.q.cells| == s.Cap() && s.flusher == Write1(s.q.head, t0, s.q.head, t1)
    requires n0 == Peek0(s.q.k, s.q.head, t0).num && r == Peek1(s.q.k, s.q.head, t1)
    requires FileOk(AfterWrite1(s, n0, Written(s, r), Ring(s.q.cells, s.q.k, s.q.head + n0, r.num),
                                Torn(s.q.k, s.q.head, t0, t1)))
    ensures FileOk(FlusherStep(s))
  {
  }

  lemma SecondWritten(s: State, t0: nat, t1: nat, n0: nat, r: Region)
    requires Spsc.Inv(s.q) && FileOk(s) && s.logged == s.q.pushed && Pending(s) == n0
    requires s.q.head <= t0 <= t1 <= s.q.tail
    requires n0 == Peek0(s.q.k, s.q.head, t0).num && r == Peek1(s.q.k, s.q.head, t1)
    ensures FileOk(AfterWrite1(s, n0, Written(s, r), Ring(s.q.cells, s.q.k, s.q.head + n0, r.num),
                               Torn(s.q.k, s.q.head, t0, t1)))
  {
    var q := s.q;
    SecondWrite(q, t0, t1, n0, r);
    if q.k == 0 { NeverTornInOne(q.head, t0, t1); }
    SecondFile(s, n0, Written(s, r), Ring(q.cells, q.k, q.head + n0, r.num), Torn(q.k, q.head, t0, t1));
  }

  lemma SecondFile(s: State, n0: nat, more: string, due: string, t: bool)
    requires FileOk(s) && Pending(s) == n0 && |more| == |due| && s.q.head + n0 + |more| <= |s.logged|
    requires due == s.logged[s.q.head + n0..s.q.head + n0 + |due|]
    requires (more != due ==> t) && (s.q.k == 0 ==> !t)
    ensures FileOk(AfterWrite1(s, n0, more, due, t))
  {
    AfterWrite1File(s, n0, more, due, t);
  }

  /** multi_pop finds the bytes that the peeks have seen. */
  lemma PoppingGoesOn(s: State, n: nat)
    requires LogOk(s) && Spsc.Counters(s.q) && s.flusher == Popping(n)
    ensures LogOk(FlusherStep(s))
  {
    WriterKept(s, FlusherStep(s));
  }

  lemma StepKeeps(s: State, c: Choice)
    requires Inv(s) && Good(s.q.k, c)
    ensures Inv(Step(s, c))
  {
    match c
    case Write(data) => WriterKeeps(s, data);
    case Flush => FlusherKeeps(s);
  }

  lemma {:induction false} RunKeeps(s: State, cs: seq<Choice>)
    requires Inv(s) && forall i :: 0 <= i < |cs| ==> Good(s.q.k, cs[i])
    ensures Inv(Run(s, cs))
    decreases |cs|
  {
    if cs == [] {
    } else {
      RunKeeps(s, cs[..|cs| - 1]);
      StepKeeps(Run(s, cs[..|cs| - 1]), cs[|cs| - 1]);
    }
  }

  // ----- what the logger promises -----

  /** In every run of a logging thread and the flusher the credits balance, multi_push and multi_pop, whose results are
      not looked at, have always returned true, and the file holds what was logged, in order and from the start, exactly
      if no flush has misplaced bytes. That takes a tail that goes past the wrap between the two peeks of the flush,
      and a ring of more than one byte. */
  lemma EveryRun(k: nat, cells: string, cs: seq<Choice>)
    requires |cells| == Pow2(k) && forall i :: 0 <= i < |cs| ==> Good(k, cs[i])
    ensures var s := Run(Init(k, cells), cs);
            && Inv(s)
            && s.count + Held(s.writer) + s.Queued() + Unsignalled(s.flusher) == Pow2(k)
            && s.pushed && s.popped
            && (s.file <= s.logged <==> !s.misplaced)
            && (s.misplaced ==> s.torn && k > 0)
            && (s.flusher.Idle? ==> |s.file| == s.q.head) && |s.logged| == s.q.tail
            && s.logged + InProgress(s.writer) == Given(Init(k, cells), cs)
  {
    InitInv(k, cells);
    RunKeeps(Init(k, cells), cs);
    RunLogs(Init(k, cells), cs);
  }

  /** The data of all calls of log_write2 that have begun in a run. */
  function Given(s: State, cs: seq<Choice>): string
    requires |s.q.cells| == s.Cap()
    decreases |cs|
  {
    if cs == [] then ""
    else
      var before, c := cs[..|cs| - 1], cs[|cs| - 1];
      Given(s, before) + if c.Write? && Run(s, before).writer.Outside? then c.data else ""
  }

  function InProgress(w: Writer): string {
    if w.Outside? then "" else w.data
  }

  /** What was logged, and what is being logged, is the data that the calls were given, in order. */
  lemma {:induction false} RunLogs(s: State, cs: seq<Choice>)
    requires |s.q.cells| == s.Cap() && s.writer.Outside? && s.logged == ""
    ensures Run(s, cs).logged + InProgress(Run(s, cs).writer) == Given(s, cs)
    decreases |cs|
  {
    if cs == [] {
    } else {
      RunLogs(s, cs[..|cs| - 1]);
      StepLogs(Run(s, cs[..|cs| - 1]), cs[|cs| - 1]);
    }
  }

  lemma StepLogs(s: State, c: Choice)
    requires |s.q.cells| == s.Cap()
    ensures Step(s, c).logged + InProgress(Step(s, c).writer) ==
            s.logged + InProgress(s.writer) + if c.Write? && s.writer.Outside? then c.data else ""
  {
    if c.Write? {
      assert s.logged + "" == s.logged;
    } else {
      FlusherLogsNothing(s);
    }
  }

  lemma FlusherLogsNothing(s: State)
    requires |s.q.cells| == s.Cap()
    ensures FlusherStep(s).logged == s.logged && FlusherStep(s).writer == s.writer
  {
  }

  /** When a flush misplaces bytes: exactly if the tail has gone past the wrap between its peeks, and the cells at the
      start of the array do not happen to hold the bytes that were due. */
  lemma MisplacesExactly(s: State)
    requires Inv(s) && s.flusher.Write1? && !s.misplaced
    ensures var s', k, t0, t1 := FlusherStep(s), s.q.k, s.flusher.tail0, s.flusher.tail1;
            s'.file <= s'.logged <==>
            !Torn(k, s.q.head, t0, t1) || Coincide(s.q.cells, k, t0, Peek1(k, s.q.head, t1).num)
  {
    Write1File(s);
    NotAPrefix(FlusherStep(s));
    MisplacedNow(s);
  }

  lemma MisplacedNow(s: State)
    requires Spsc.Counters(s.q) && s.flusher.Write1? && !s.misplaced
    requires PeeksOk(s, s.flusher.head, s.flusher.tail0, s.flusher.head1, s.flusher.tail1)
    ensures var k, t0, t1 := s.q.k, s.flusher.tail0, s.flusher.tail1;
            FlusherStep(s).misplaced <==>
            Torn(k, s.q.head, t0, t1) && !Coincide(s.q.cells, k, t0, Peek1(k, s.q.head, t1).num)
  {
    SecondIsDue(s.q.cells, s.q.k, s.q.head, s.flusher.tail0, s.flusher.tail1);
  }

  lemma NotAPrefix(s: State)
    requires FileOk(s)
    ensures s.file <= s.logged <==> !s.misplaced
  {
  }

  /** The two peeks of a flush never see more bytes than the ring holds, even with pushes in between. */
  lemma SeesNoMoreThanThereIs(s: State)
    requires Inv(s) && (s.flusher.Write0? || s.flusher.Write1?)
    ensures Peek0(s.q.k, s.flusher.head, s.flusher.tail0).num + Peek1(s.q.k, s.flusher.head1, s.flusher.tail1).num
            <= s.Queued()
  {
    PeeksFit(s.q.k, s.flusher.head, s.flusher.tail0, s.flusher.tail1);
  }

  /** An upper bound of the steps to the end of the pass. */
  function StepsLeft(s: State): nat {
    match s.flusher
    case Idle => 11
    case PeekTail0(_) => 10
    case PeekHead1(_, _) => 9
    case PeekTail1(_, _, _) => 8
    case Write0(_, _, _, _) => 7
    case Write1(_, _, _, _) => 6
    case Popping(_) =>
      (match s.q.consumer
       case Rest(_) => 5
       case FetchHead(_) => 4
       case FetchTail(_, _) => 3
       case CopyOut(_, _, _) => 2)
    case Signalling(_) => 1
  }

  ghost predicate StepAt(trace: seq<State>, i: int) {
    0 <= i < |trace| - 1 ==> |trace[i].q.cells| == trace[i].Cap() && trace[i + 1] == FlusherStep(trace[i])
  }

  /** The states from s to t when the flusher alone runs. */
  ghost predicate Trace(s: State, trace: seq<State>, t: State) {
    && |trace| > 0 && trace[0] == s && trace[|trace| - 1] == t
    && forall i :: StepAt(trace, i)
  }

  lemma OneStep(s: State, t: State)
    requires |s.q.cells| == s.Cap() && t == FlusherStep(s)
    ensures Trace(s, [s, t], t)
  {
  }

  lemma StepThen(s: State, s': State, trace: seq<State>, t: State)
    requires |s.q.cells| == s.Cap() && s' == FlusherStep(s) && Trace(s', trace, t)
    ensures Trace(s, [s] + trace, t)
  {
    forall i ensures StepAt([s] + trace, i) {
      assert i > 0 ==> StepAt(trace, i - 1);
    }
  }

  lemma TraceThen(s: State, trace: seq<State>, s': State, rest: seq<State>, t: State)
    requires Trace(s, trace, s') && Trace(s', rest, t)
    ensures Trace(s, trace + rest[1..], t)
  {
    var n := |trace| - 1;
    var all := trace + rest[1..];
    assert all[n..] == rest;
    forall i ensures StepAt(all, i) {
      assert i < n ==> StepAt(trace, i);
      assert i >= n ==> StepAt(rest, i - n);
    }
  }

  lemma OneStepLess(s: State)
    requires LogOk(s) && Spsc.Counters(s.q)
    ensures var s' := FlusherStep(s);
            && s'.writer == s.writer
            && (s.flusher.Idle? || !s'.flusher.Idle? ==> StepsLeft(s') < StepsLeft(s))
  {
  }

  /** One step closer to the end of the pass. */
  lemma PassStep(s: State) returns (s': State)
    requires Inv(s)
    ensures s' == FlusherStep(s) && Inv(s') && s'.writer == s.writer
    ensures s.flusher.Idle? || !s'.flusher.Idle? ==> StepsLeft(s') < StepsLeft(s)
  {
    s' := FlusherStep(s);
    FlusherKeeps(s);
    OneStepLess(s);
  }

  /** The pass that is under way ends. */
  lemma {:induction false} PassEnds(s: State) returns (trace: seq<State>, t: State)
    requires Inv(s) && !s.flusher.Idle?
    ensures Trace(s, trace, t) && |trace| <= StepsLeft(s) + 1
    ensures Inv(t) && t.flusher.Idle? && t.writer == s.writer
    decreases StepsLeft(s)
  {
    var s' := PassStep(s);
    if s'.flusher.Idle? {
      trace, t := [s, s'], s';
      OneStep(s, t);
    } else {
      trace, t := PassEnds(s');
      StepThen(s, s', trace, t);
      trace := [s] + trace;
    }
  }

  /** The pass takes all that is in the ring. */
  predicate Whole(s: State) {
    !s.writer.Pushing? &&
    match s.flusher
    case Idle => s.Queued() > 0
    case PeekTail0(_) => s.Queued() > 0
    case PeekHead1(_, t0) => t0 == s.q.tail > s.q.head
    case PeekTail1(_, t0, _) => t0 == s.q.tail > s.q.head
    case Write0(_, t0, _, t1) => t0 == t1 == s.q.tail
    case Write1(_, t0, _, t1) => t0 == t1 == s.q.tail
    case Popping(n) => n == s.Queued()
    case Signalling(_) => s.Queued() == 0
  }

  /** s' is s after a pass that nothing interrupted. */
  predicate AllFlushed(s: State, s': State) {
    s'.flusher.Idle? && s'.count == s'.Cap() && SamePass(s, s')
  }

  predicate SamePass(s: State, s': State) {
    s'.torn == s.torn && s'.q.k == s.q.k && s'.q.tail == s.q.tail && s'.writer == s.writer && s'.logged == s.logged
  }

  lemma FlushedThen(s: State, s': State, s'': State)
    requires SamePass(s, s') && AllFlushed(s', s'')
    ensures AllFlushed(s, s'')
  {
  }

  lemma WholePeek(s: State)
    requires LogOk(s) && Spsc.Counters(s.q) && Whole(s)
    requires s.flusher.Idle? || s.flusher.PeekTail0? || s.flusher.PeekHead1? || s.flusher.PeekTail1?
    ensures var s' := FlusherStep(s); SamePass(s, s') && Whole(s') && !s'.flusher.Idle?
  {
    PeekNums(s.q.k, s.q.head, s.q.tail);
  }

  lemma WholeTake(s: State)
    requires LogOk(s) && Spsc.Counters(s.q) && Whole(s)
    requires s.flusher.Write0? || s.flusher.Write1? || s.flusher.Popping?
    ensures var s' := FlusherStep(s); SamePass(s, s') && Whole(s') && !s'.flusher.Idle?
  {
    PeekNums(s.q.k, s.q.head, s.q.tail);
  }

  lemma WholeSignal(s: State)
    requires LogOk(s) && Spsc.Counters(s.q) && Whole(s) && s.flusher.Signalling?
    ensures AllFlushed(s, FlusherStep(s))
  {
  }

  lemma WholeStep(s: State) returns (s': State)
    requires Inv(s) && Whole(s)
    ensures s' == FlusherStep(s) && Inv(s') && StepsLeft(s) > 0
    ensures AllFlushed(s, s') || (SamePass(s, s') && Whole(s') && StepsLeft(s') < StepsLeft(s))
  {
    s' := PassStep(s);
    match s.flusher
    case Signalling(_) => WholeSignal(s);
    case Write0(_, _, _, _) => WholeTake(s);
    case Write1(_, _, _, _) => WholeTake(s);
    case Popping(_) => WholeTake(s);
    case _ => WholePeek(s);
  }

  lemma {:induction false} WholePass(s: State) returns (trace: seq<State>, t: State)
    requires Inv(s) && Whole(s)
    ensures Trace(s, trace, t) && |trace| <= StepsLeft(s) + 1
    ensures Inv(t) && AllFlushed(s, t)
    decreases StepsLeft(s)
  {
    var s' := WholeStep(s);
    if AllFlushed(s, s') {
      trace, t := [s, s'], s';
      OneStep(s, t);
    } else {
      trace, t := WholePass(s');
      StepThen(s, s', trace, t);
      FlushedThen(s, s', t);
      trace := [s] + trace;
    }
  }

  /** A waiting writer gets its credits: wherever the flusher is, at most 21 of its steps later there are enough. */
  lemma WriterIsReleased(s: State) returns (trace: seq<State>, t: State)
    requires Inv(s) && s.writer.Waiting?
    ensures Trace(s, trace, t) && |trace| <= 22
    ensures t.writer == s.writer && t.count >= |s.writer.data|
    ensures |t.q.cells| == t.Cap() && WriterStep(t, "").writer == Pushing(s.writer.data)
  {
    trace, t := [s], s;
    if !s.flusher.Idle? { trace, t := PassEnds(s); }
    if t.count < |s.writer.data| {
      var idle, rest := t, [];
      rest, t := WholePass(idle);
      TraceThen(s, trace, idle, rest, t);
      trace := trace + rest[1..];
    }
  }

  // ----- a push between the two peeks -----

  /** The logger can get into this state. */
  ghost predicate Reachable(k: nat, cells: string, s: State)
    requires |cells| == Pow2(k)
  {
    exists cs: seq<Choice> :: (forall i :: 0 <= i < |cs| ==> Good(k, cs[i])) && Run(Init(k, cells), cs) == s
  }

  lemma ReachStep(k: nat, cells: string, s: State, c: Choice)
    requires |cells| == Pow2(k) && Reachable(k, cells, s) && Good(k, c)
    ensures |s.q.cells| == s.Cap() && s.q.k == k
    ensures Reachable(k, cells, Step(s, c))
  {
    var cs: seq<Choice> :| (forall i :: 0 <= i < |cs| ==> Good(k, cs[i])) && Run(Init(k, cells), cs) == s;
    RunOn(Init(k, cells), cs, c);
    assert forall i :: 0 <= i < |cs + [c]| ==> Good(k, (cs + [c])[i]);
  }

  lemma RunOn(s: State, cs: seq<Choice>, c: Choice)
    requires |s.q.cells| == s.Cap()
    ensures Run(s, cs + [c]) == Step(Run(s, cs), c)
  {
    assert (cs + [c])[..|cs|] == cs;
  }

  lemma TraceTail(s: State, trace: seq<State>, t: State)
    requires Trace(s, trace, t) && |trace| > 1
    ensures |s.q.cells| == s.Cap() && trace[1] == FlusherStep(s)
    ensures Trace(trace[1], trace[1..], t)
  {
    assert StepAt(trace, 0);
    forall i ensures StepAt(trace[1..], i) {
      assert i >= 0 ==> StepAt(trace, i + 1);
    }
  }

  lemma FirstReaches(k: nat, cells: string, s: State, trace: seq<State>, t: State)
    requires |cells| == Pow2(k) && Reachable(k, cells, s) && Trace(s, trace, t) && |trace| > 1
    ensures Reachable(k, cells, trace[1])
  {
    TraceTail(s, trace, t);
    ReachStep(k, cells, s, Flush);
  }

  /** What the flusher alone does is part of a run. */
  lemma {:induction false} TraceReaches(k: nat, cells: string, s: State, trace: seq<State>, t: State)
    requires |cells| == Pow2(k) && Reachable(k, cells, s) && Trace(s, trace, t)
    ensures Reachable(k, cells, t)
    decreases |trace|
  {
    if |trace| == 1 {
    } else {
      FirstReaches(k, cells, s, trace, t);
      TraceTail(s, trace, t);
      TraceReaches(k, cells, trace[1], trace[1..], t);
    }
  }

  /** s' is s after a call of log_write2 that nothing interrupted. */
  predicate WroteAlone(s: State, d: string, s': State) {
    && s'.writer == Outside
    && s'.q.k == s.q.k && s'.q.head == s.q.head && s'.q.tail == s.q.tail + |d|
    && s'.flusher == s.flusher && s'.file == s.file && s'.torn == s.torn
    && s'.logged == s.logged + d
  }

  function PushStepsLeft(s: State, d: string): nat {
    match s.q.producer
    case Ready(_) => |d| + 4
    case LoadHead(_) => |d| + 3
    case LoadTail(_, _) => |d| + 2
    case CopyIn(_, _, i) => if i <= |d| then |d| - i + 1 else 0
  }

  lemma PushStep(s: State, d: string)
    requires Inv(s) && s.writer == Pushing(d)
    ensures var s' := WriterStep(s, d);
            if s'.writer == Outside then WroteAlone(s, d, s')
            else s'.writer == s.writer && PushStepsLeft(s', d) < PushStepsLeft(s, d) && OnlyPushes(s, s')
  {
    Spsc.ProducerDoes(s.q, PushJob(d));
  }

  /** Nothing has become visible yet. */
  predicate OnlyPushes(s: State, s': State) {
    && s'.q.k == s.q.k && s'.q.head == s.q.head && s'.q.tail == s.q.tail
    && s'.flusher == s.flusher && s'.file == s.file && s'.torn == s.torn && s'.logged == s.logged
  }

  lemma PushedThen(s: State, s': State, d: string, s'': State)
    requires OnlyPushes(s, s') && WroteAlone(s', d, s'')
    ensures WroteAlone(s, d, s'')
  {
  }

  lemma {:induction false} PushReaches(k: nat, cells: string, s: State, d: string) returns (t: State)
    requires |cells| == Pow2(k) && Reachable(k, cells, s) && Good(k, Write(d))
    requires Inv(s) && s.writer == Pushing(d)
    ensures Reachable(k, cells, t) && Inv(t) && WroteAlone(s, d, t)
    decreases PushStepsLeft(s, d)
  {
    t := WriterStep(s, d);
    ReachStep(k, cells, s, Write(d));
    WriterKeeps(s, d);
    PushStep(s, d);
    if t.writer == Outside {
    } else {
      var s' := t;
      t := PushReaches(k, cells, s', d);
      PushedThen(s, s', d, t);
    }
  }

  lemma WriteReaches(k: nat, cells: string, s: State, d: string) returns (t: State)
    requires |cells| == Pow2(k) && Reachable(k, cells, s) && Inv(s) && s.q.k == k
    requires s.writer == Outside && 0 < |d| <= s.count
    ensures Reachable(k, cells, t) && Inv(t) && WroteAlone(s, d, t)
  {
    var s1 := WriterStep(s, d);
    ReachStep(k, cells, s, Write(d));
    WriterKeeps(s, d);
    var s2 := WriterStep(s1, d);
    ReachStep(k, cells, s1, Write(d));
    WriterKeeps(s1, d);
    t := PushReaches(k, cells, s2, d);
  }

  /** The state with one byte flushed, and a record as large as the ring pushed behind an empty first peek. */
  predicate PushedBetween(s: State, k: nat, a: char, d: string) {
    && s.q.k == k && s.q.head == 1 && s.q.tail == 1 + |d| && |d| == Pow2(k)
    && s.flusher == PeekHead1(1, 1)
    && s.file == [a] && s.logged == [a] + d
  }

  lemma FlushReaches(k: nat, cells: string, s: State) returns (t: State)
    requires |cells| == Pow2(k) && Reachable(k, cells, s) && Inv(s) && s.q.k == k && Whole(s)
    ensures Reachable(k, cells, t) && Inv(t) && AllFlushed(s, t)
  {
    var trace;
    trace, t := WholePass(s);
    TraceReaches(k, cells, s, trace, t);
  }

  /** When all credits are back, everything is in the file. */
  lemma FlushedFile(s: State)
    requires Inv(s) && s.flusher.Idle? && s.count == s.Cap() && !s.torn
    ensures s.q.head == s.q.tail && s.file == s.logged
  {
  }

  lemma FlushOneByte(k: nat, cells: string, a: char) returns (s: State)
    requires |cells| == Pow2(k)
    ensures Inv(s) && Reachable(k, cells, s) && s.q.k == k
    ensures s.q.head == s.q.tail == 1 && s.flusher == Idle && s.writer == Outside && s.count == Pow2(k)
    ensures s.file == s.logged == [a]
  {
    s := Init(k, cells);
    assert Run(s, []) == s;
    InitInv(k, cells);
    s := WriteReaches(k, cells, s, [a]);
    s := FlushReaches(k, cells, s);
    FlushedFile(s);
  }

  lemma PushBetween(k: nat, cells: string, a: char, d: string) returns (s: State)
    requires |cells| == |d| == Pow2(k)
    ensures Inv(s) && Reachable(k, cells, s) && PushedBetween(s, k, a, d)
  {
    s := FlushOneByte(k, cells, a);
    s := TwoLoads(k, cells, s);
    s := WriteReaches(k, cells, s, d);
  }

  lemma TwoLoads(k: nat, cells: string, s: State) returns (t: State)
    requires |cells| == Pow2(k) && Reachable(k, cells, s) && Inv(s) && s.flusher.Idle?
    ensures Reachable(k, cells, t) && Inv(t) && t == s.(flusher := PeekHead1(s.q.head, s.q.tail))
  {
    t := FlusherStep(s);
    ReachStep(k, cells, s, Flush);
    FlusherKeeps(s);
    ReachStep(k, cells, t, Flush);
    FlusherKeeps(t);
    t := FlusherStep(t);
  }

  /** The condition cannot be dropped: in a ring of any size but one there is a run after which the file does not hold
      what was logged. The last byte of d is written where the first was due. */
  lemma TornFlush(k: nat, cells: string, a: char, d: string) returns (s: State)
    requires k > 0 && |cells| == |d| == Pow2(k) && d[0] != d[|d| - 1]
    ensures Reachable(k, cells, s)
    ensures s.torn && s.file == [a, d[|d| - 1]] && s.logged == [a] + d && !(s.file <= s.logged)
  {
    s := PushBetween(k, cells, a, d);
    s := SecondPeek(k, cells, s, a, d);
    s := TwoWrites(k, cells, s, a, d);
  }

  /** So the file is in order in all runs exactly if the ring has one byte only. */
  lemma SomeRunMisplaces(k: nat)
    ensures k > 0 <==>
            exists cells: string, s: State :: |cells| == Pow2(k) && Reachable(k, cells, s) && !(s.file <= s.logged)
  {
    if k > 0 {
      var d := seq(Pow2(k), i => if i == 0 then 'x' else 'y');
      assert Pow2(k) == 2 * Pow2(k - 1);
      var s := TornFlush(k, d, 'a', d);
    }
    if cells: string, s: State :| |cells| == Pow2(k) && Reachable(k, cells, s) && !(s.file <= s.logged) {
      var cs: seq<Choice> :| (forall i :: 0 <= i < |cs| ==> Good(k, cs[i])) && Run(Init(k, cells), cs) == s;
      EveryRun(k, cells, cs);
    }
  }

  lemma SecondPeek(k: nat, cells: string, s: State, a: char, d: string) returns (t: State)
    requires |cells| == Pow2(k) && Reachable(k, cells, s) && Inv(s) && PushedBetween(s, k, a, d) && k > 0
    ensures Reachable(k, cells, t) && Inv(t) && t == s.(flusher := Write0(1, 1, 1, s.q.tail))
  {
    SeesLast(s, k, a, d);
    t := FlusherStep(s);
    ReachStep(k, cells, s, Flush);
    FlusherKeeps(s);
    ReachStep(k, cells, t, Flush);
    FlusherKeeps(t);
    t := FlusherStep(t);
  }

  lemma TwoWrites(k: nat, cells: string, s: State, a: char, d: string) returns (t: State)
    requires |cells| == Pow2(k) && Reachable(k, cells, s) && Inv(s) && k > 0
    requires PushedBetween(s.(flusher := PeekHead1(1, 1)), k, a, d) && s.flusher == Write0(1, 1, 1, s.q.tail)
    ensures Reachable(k, cells, t)
    ensures t.torn && t.file == [a, d[|d| - 1]] && t.logged == s.logged
  {
    SeesLast(s, k, a, d);
    WritesFirstCell(s, s.q.tail);
    t := FlusherStep(s);
    ReachStep(k, cells, s, Flush);
    ReachStep(k, cells, t, Flush);
    t := FlusherStep(t);
  }

  lemma WritesFirstCell(s: State, tail: nat)
    requires |s.q.cells| == s.Cap() && s.flusher == Write0(1, 1, 1, tail)
    requires Peek0(s.q.k, 1, 1) == Region(None, 0) && Peek1(s.q.k, 1, tail) == Region(Some(0), 1)
    ensures var t := FlusherStep(FlusherStep(s));
            && t.file == s.file + [s.q.cells[0]] && t.logged == s.logged
            && (Torn(s.q.k, 1, 1, tail) ==> t.torn)
  {
    var s' := FlusherStep(s);
    assert s' == s.(flusher := Write1(1, 1, 1, tail), file := s.file + "");
    assert Written(s', Region(Some(0), 1)) == [s.q.cells[0]];
  }

  lemma SeesLast(s: State, k: nat, a: char, d: string)
    requires Inv(s) && k > 0 && s.q.k == k && s.q.head == 1 && s.q.tail == 1 + |d|
    requires |d| == Pow2(k) && s.logged == [a] + d
    ensures Torn(k, 1, 1, s.q.tail)
    ensures Peek0(k, 1, 1) == Region(None, 0) && Peek1(k, 1, s.q.tail) == Region(Some(0), 1)
    ensures s.q.cells[0] == d[|d| - 1]
  {
    var t := s.q.tail;
    SlotAhead(0, 1, k);
    PeekNums(k, 1, t);
    SecondRegion(s.q.cells, k, 1, t);
    RingIsPushed(s.q, |d| - 1, 1);
    assert s.q.cells[0] == Content(s.q.cells, Peek1(k, 1, t))[0];
  }
}
