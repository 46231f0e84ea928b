/** The same queue with its two threads running at the same time: the steps are the atomic loads and stores of head and
    tail and the copies of single items. */
module SpscSteps {
  import opened Bits
  import opened Wrappers
  import opened SpscRing

  /** What a call of the producer asks for; items is None for the null pointer; single tells push from multi_push. */
  datatype Push<T> = Push(single: bool, num: nat, items: Option<seq<T>>)

  datatype Producer<T> =
    | Ready(ok: bool)
    | LoadHead(job: Push<T>)
    | LoadTail(job: Push<T>, head: nat)
    | CopyIn(job: Push<T>, tail: nat, copied: nat)

  /** What a call of the consumer asks for; copies is false for the null pointer. */
  datatype Pop = Pop(single: bool, num: nat, copies: bool)

  datatype Consumer<T> =
    | Rest(ok: bool)
    | FetchHead(job: Pop)
    | FetchTail(job: Pop, head: nat)
    | CopyOut(job: Pop, head: nat, dst: seq<T>)

  /** The queue, the two threads, and two histories that no thread reads: the items pushed by index, and by index what
      the consumer got, None if it dropped the item. */
  datatype State<T> = State(
    k: nat, cells: seq<T>, head: nat, tail: nat,
    producer: Producer<T>, consumer: Consumer<T>,
    pushed: seq<T>, taken: seq<Option<T>>)

  /** The scheduler lets one side make a step; a side at rest begins the call that is given. */
  datatype Choice<T> =
    | Produce(push: Push<T>)
    | Consume(pop: Pop)

  predicate GoodPush<T>(job: Push<T>) {
    (job.single ==> job.num == 1) && (job.items.Some? ==> |job.items.value| == job.num)
  }

  predicate GoodPop(job: Pop) {
    job.single ==> job.num == 1
  }

  predicate Good<T>(c: Choice<T>) {
    match c
    case Produce(job) => GoodPush(job)
    case Consume(job) => GoodPop(job)
  }

  // ----- the steps -----

  /** The store of tail at the end of a push. */
  function AfterPush<T>(s: State<T>, job: Push<T>, tail: nat): State<T>
    requires |s.cells| == Pow2(s.k)
  {
    s.(tail := if job.single then s.tail + 1 else tail + job.num,
       producer := Ready(true),
       pushed := s.pushed + if job.items.Some? then job.items.value else Ring(s.cells, s.k, tail, job.num))
  }

  function ProducerStep<T>(s: State<T>, start: Push<T>): (s': State<T>)
    requires |s.cells| == Pow2(s.k)
    ensures s'.k == s.k && |s'.cells| == |s.cells|
  {
    match s.producer
    case Ready(_) => s.(producer := LoadHead(start))
    case LoadHead(job) => s.(producer := LoadTail(job, s.head))
    case LoadTail(job, head) =>
      var used := s.tail - head;
      if (if job.single then used == Pow2(s.k) else used + job.num > Pow2(s.k))
      then s.(producer := Ready(false))
      else s.(producer := CopyIn(job, s.tail, 0))
    case CopyIn(job, tail, i) =>
      if job.items.Some? && i < |job.items.value|
      then s.(cells := s.cells[Slot(tail + i, s.k) := job.items.value[i]], producer := CopyIn(job, tail, i + 1))
      else AfterPush(s, job, tail)
  }

  /** The store of head at the end of a pop. */
  function AfterPop<T>(s: State<T>, job: Pop, head: nat, dst: seq<T>): State<T> {
    s.(head := head + job.num, consumer := Rest(true),
       taken := s.taken + seq(job.num, i => if 0 <= i < |dst| then Some(dst[i]) else None))
  }

  function ConsumerStep<T>(s: State<T>, start: Pop): (s': State<T>)
    requires |s.cells| == Pow2(s.k)
    ensures s'.k == s.k && |s'.cells| == |s.cells|
  {
    match s.consumer
    case Rest(_) => s.(consumer := FetchHead(start))
    case FetchHead(job) => s.(consumer := FetchTail(job, s.head))
    case FetchTail(job, head) =>
      var used := s.tail - head;
      if (if job.single then used == 0 else used < job.num)
      then s.(consumer := Rest(false))
      else s.(consumer := CopyOut(job, head, []))
    case CopyOut(job, head, dst) =>
      if job.copies && |dst| < job.num
      then s.(consumer := CopyOut(job, head, dst + [s.cells[Slot(head + |dst|, s.k)]]))
      else AfterPop(s, job, head, dst)
  }

  function Step<T>(s: State<T>, c: Choice<T>): (s': State<T>)
    requires |s.cells| == Pow2(s.k)
    ensures s'.k == s.k && |s'.cells| == |s.cells|
  {
    match c
    case Produce(job) => ProducerStep(s, job)
    case Consume(job) => ConsumerStep(s, job)
  }

  /** spsc_queue_init, with any contents of the array */
  function Init<T>(k: nat, cells: seq<T>): State<T> {
    State(k, cells, 0, 0, Ready(true), Rest(true), [], [])
  }

  function Run<T>(s: State<T>, cs: seq<Choice<T>>): (s': State<T>)
    requires |s.cells| == Pow2(s.k)
    ensures s'.k == s.k && |s'.cells| == |s.cells|
    decreases |cs|
  {
    if cs == [] then s else Step(Run(s, cs[..|cs| - 1]), cs[|cs| - 1])
  }

  // ----- the invariant -----

  /** The counters stay within the capacity of each other, and count the histories. */
  predicate Counters<T>(s: State<T>) {
    && |s.cells| == Pow2(s.k)
    && s.head <= s.tail <= s.head + Pow2(s.k)
    && |s.pushed| == s.tail && |s.taken| == s.head
  }

  /** What the consumer got is what was pushed, index by index. */
  ghost predicate TakesWhatWasPushed<T>(s: State<T>) {
    && |s.taken| <= |s.pushed|
    && forall i :: 0 <= i < |s.taken| && s.taken[i].Some? ==> s.taken[i].value == s.pushed[i]
  }

  ghost predicate ProducerOk<T>(s: State<T>)
    requires Counters(s)
  {
    match s.producer
    case Ready(_) => true
    case LoadHead(job) => GoodPush(job)
    case LoadTail(job, head) => GoodPush(job) && head <= s.head && s.tail <= head + Pow2(s.k)
    case CopyIn(job, tail, i) =>
      && GoodPush(job) && tail == s.tail && tail + job.num <= s.head + Pow2(s.k)
      && i <= job.num && (job.items.Some? ==> Ring(s.cells, s.k, tail, i) == job.items.value[..i])
  }

  ghost predicate ConsumerOk<T>(s: State<T>)
    requires Counters(s)
  {
    match s.consumer
    case Rest(_) => true
    case FetchHead(job) => GoodPop(job)
    case FetchTail(job, head) => GoodPop(job) && head == s.head
    case CopyOut(job, head, dst) =>
      && GoodPop(job) && head == s.head && head + job.num <= s.tail
      && |dst| <= job.num && dst == s.pushed[head..head + |dst|] && (!job.copies ==> dst == [])
  }

  ghost predicate Inv<T>(s: State<T>) {
    && Counters(s)
    && Ring(s.cells, s.k, s.head, s.tail - s.head) == s.pushed[s.head..]
    && TakesWhatWasPushed(s)
    && ProducerOk(s) && ConsumerOk(s)
  }

  /** One item is copied in: no item between head and tail is touched. */
  lemma CopyInKeeps<T>(s: State<T>, job: Push<T>, i: nat)
    requires Inv(s) && s.producer == CopyIn(job, s.tail, i) && job.items.Some? && i < job.num
    ensures Inv(ProducerStep(s, job))
  {
    var x, used := job.items.value[i], s.tail - s.head;
    var cells' := s.cells[Slot(s.tail + i, s.k) := x];
    RingStore(s.cells, s.k, s.head, used + i, x);
    StoredBehind(s.cells, cells', s.k, s.head, used, i, x);
    assert job.items.value[..i] + [x] == job.items.value[..i + 1];
  }

  lemma StoredBehind<T>(cells: seq<T>, cells': seq<T>, k: nat, head: nat, used: nat, i: nat, x: T)
    requires |cells| == |cells'| == Pow2(k)
    requires Ring(cells', k, head, used + i + 1) == Ring(cells, k, head, used + i) + [x]
    ensures Ring(cells', k, head, used) == Ring(cells, k, head, used)
    ensures Ring(cells', k, head + used, i + 1) == Ring(cells, k, head + used, i) + [x]
  {
    var new', old' := Ring(cells', k, head, used + i + 1), Ring(cells, k, head, used + i);
    RingSplit(cells, k, head, used, i);
    RingSplit(cells', k, head, used, i + 1);
    assert Ring(cells', k, head, used) == new'[..used];
    assert Ring(cells', k, head + used, i + 1) == new'[used..];
  }

  /** The store of tail makes the copied items visible. */
  lemma PushKeeps<T>(s: State<T>, job: Push<T>, i: nat)
    requires Inv(s) && s.producer == CopyIn(job, s.tail, i) && (job.items.Some? ==> i == job.num)
    ensures Inv(AfterPush(s, job, s.tail))
    ensures AfterPush(s, job, s.tail).tail == s.tail + job.num
  {
    var s' := AfterPush(s, job, s.tail);
    var new' := Ring(s.cells, s.k, s.tail, job.num);
    RingSplit(s.cells, s.k, s.head, s.tail - s.head, job.num);
    if job.items.Some? { assert job.items.value[..i] == job.items.value; }
    assert s'.pushed == s.pushed + new';
    assert s'.pushed[s.head..] == s.pushed[s.head..] + new';
  }

  lemma ProducerKeeps<T>(s: State<T>, start: Push<T>)
    requires Inv(s) && GoodPush(start)
    ensures Inv(ProducerStep(s, start))
  {
    match s.producer
    case CopyIn(job, tail, i) =>
      if job.items.Some? && i < job.num {
        CopyInKeeps(s, job, i);
        assert ProducerStep(s, start) == ProducerStep(s, job);
      } else {
        PushKeeps(s, job, i);
      }
    case _ =>
  }

  /** What a step of the producer does to the queue: only the store of tail, at the end, changes more than cells. */
  lemma ProducerDoes<T>(s: State<T>, start: Push<T>)
    requires Inv(s) && GoodPush(start)
    ensures var s' := ProducerStep(s, start);
            && s'.head == s.head && s'.consumer == s.consumer && s'.taken == s.taken
            && (if s.producer.CopyIn? && s'.producer.Ready?
                then s'.producer.ok && s'.tail == s.tail + s.producer.job.num
                     && (s.producer.job.items.Some? ==> s'.pushed == s.pushed + s.producer.job.items.value)
                else s'.tail == s.tail && s'.pushed == s.pushed)
  {
    if s.producer.CopyIn? && ProducerStep(s, start).producer.Ready? { PushKeeps(s, s.producer.job, s.producer.copied); }
  }

  /** One item is copied out: it is the one that was pushed at that index. */
  lemma CopyOutKeeps<T>(s: State<T>, job: Pop, dst: seq<T>)
    requires Inv(s) && s.consumer == CopyOut(job, s.head, dst) && |dst| < job.num && job.copies
    ensures Inv(s.(consumer := CopyOut(job, s.head, dst + [s.cells[Slot(s.head + |dst|, s.k)]])))
  {
    assert Ring(s.cells, s.k, s.head, s.tail - s.head)[|dst|] == s.pushed[s.head..][|dst|];
  }

  /** The store of head gives the cells back. */
  lemma PopKeeps<T>(s: State<T>, job: Pop, dst: seq<T>)
    requires Inv(s) && s.consumer == CopyOut(job, s.head, dst)
    ensures Inv(AfterPop(s, job, s.head, dst))
  {
    var s', left := AfterPop(s, job, s.head, dst), s.tail - s.head - job.num;
    RingSplit(s.cells, s.k, s.head, job.num, left);
    assert Ring(s.cells, s.k, s'.head, left) == s.pushed[s.head..][job.num..] == s.pushed[s'.head..];
  }

  lemma ConsumerKeeps<T>(s: State<T>, start: Pop)
    requires Inv(s) && GoodPop(start)
    ensures Inv(ConsumerStep(s, start))
  {
    match s.consumer
    case CopyOut(job, head, dst) =>
      if job.copies && |dst| < job.num { CopyOutKeeps(s, job, dst); } else { PopKeeps(s, job, dst); }
    case _ =>
  }

  lemma StepKeeps<T>(s: State<T>, c: Choice<T>)
    requires Inv(s) && Good(c)
    ensures Inv(Step(s, c))
  {
    match c
    case Produce(job) => ProducerKeeps(s, job);
    case Consume(job) => ConsumerKeeps(s, job);
  }

  /** The invariant holds in every run. */
  lemma {:induction false} RunKeeps<T>(s: State<T>, cs: seq<Choice<T>>)
    requires Inv(s) && forall i :: 0 <= i < |cs| ==> Good(cs[i])
    ensures Inv(Run(s, cs))
    decreases |cs|
  {
    if cs == [] {
    } else {
      RunKeeps(s, cs[..|cs| - 1]);
      StepKeeps(Run(s, cs[..|cs| - 1]), cs[|cs| - 1]);
    }
  }

  // ----- what the queue promises -----

  /** The items that the consumer has copied out. */
  function Output<T>(taken: seq<Option<T>>): seq<T> {
    if taken == [] then []
    else Output(taken[..|taken| - 1]) + if taken[|taken| - 1].Some? then [taken[|taken| - 1].value] else []
  }

  lemma {:induction false} OutputIsPrefix<T>(taken: seq<Option<T>>, pushed: seq<T>)
    requires |taken| <= |pushed|
    requires forall i :: 0 <= i < |taken| ==> taken[i] == Some(pushed[i])
    ensures Output(taken) == pushed[..|taken|]
  {
    if taken == [] {
    } else {
      OutputIsPrefix(taken[..|taken| - 1], pushed);
      assert pushed[..|taken|] == pushed[..|taken| - 1] + [pushed[|taken| - 1]];
    }
  }

  // ----- how the calls end -----

  /** A call of the producer does what its choice asks for. */
  lemma ProducerStarts<T>(s: State<T>, start: Push<T>)
    requires |s.cells| == Pow2(s.k)
    ensures var p, p' := s.producer, ProducerStep(s, start).producer;
            if p.Ready? then p' == LoadHead(start) else p'.Ready? || p'.job == p.job
  {
  }

  /** It succeeds only by adding all the items that it was given, in order, or the cells as they are when it was
      given none; when it fails nothing has changed. */
  lemma PushEnds<T>(s: State<T>, start: Push<T>)
    requires Inv(s) && GoodPush(start) && !s.producer.Ready? && ProducerStep(s, start).producer.Ready?
    ensures var s', job := ProducerStep(s, start), s.producer.job;
            if s'.producer.ok
            then && s'.tail == s.tail + job.num && |s'.pushed| == |s.pushed| + job.num
                 && s'.pushed == s.pushed + if job.items.Some? then job.items.value
                                            else Ring(s.cells, s.k, s.tail, job.num)
            else s'.tail == s.tail && s'.pushed == s.pushed
  {
    if s.producer.CopyIn? { PushKeeps(s, s.producer.job, s.producer.copied); }
  }

  /** Steps that are left to the producer. */
  function PushLeft<T>(p: Producer<T>): nat {
    match p
    case Ready(_) => 0
    case LoadHead(job) => (if job.items.Some? then |job.items.value| else 0) + 3
    case LoadTail(job, _) => (if job.items.Some? then |job.items.value| else 0) + 2
    case CopyIn(job, _, i) => (if job.items.Some? && i <= |job.items.value| then |job.items.value| - i else 0) + 1
  }

  lemma PushGetsDone<T>(s: State<T>, start: Push<T>)
    requires |s.cells| == Pow2(s.k) && !s.producer.Ready?
    ensures PushLeft(ProducerStep(s, start).producer) < PushLeft(s.producer)
  {
  }

  /** A call of the consumer does what its choice asks for. */
  lemma ConsumerStarts<T>(s: State<T>, start: Pop)
    requires |s.cells| == Pow2(s.k)
    ensures var c, c' := s.consumer, ConsumerStep(s, start).consumer;
            if c.Rest? then c' == FetchHead(start) else c'.Rest? || c'.job == c.job
  {
  }

  /** What the consumer gets of the n items from index head on. */
  function Gets<T>(pushed: seq<T>, head: nat, n: nat, copies: bool): seq<Option<T>>
    requires head + n <= |pushed|
  {
    seq(n, i requires 0 <= i < n => if copies then Some(pushed[head + i]) else None)
  }

  /** It succeeds only by removing as many items as it was asked to, every one of which it has copied if it was to copy;
      when it fails nothing has changed. */
  lemma PopEnds<T>(s: State<T>, start: Pop)
    requires Inv(s) && GoodPop(start) && !s.consumer.Rest? && ConsumerStep(s, start).consumer.Rest?
    ensures var s', job := ConsumerStep(s, start), s.consumer.job;
            if s'.consumer.ok
            then && s.head + job.num <= |s.pushed| && s'.head == s.head + job.num
                 && s'.taken == s.taken + Gets(s.pushed, s.head, job.num, job.copies)
            else s'.head == s.head && s'.taken == s.taken
  {
    if s.consumer.CopyOut? && s.consumer.job.copies {
      assert |s.consumer.dst| == s.consumer.job.num;
    }
  }

  /** Steps that are left to the consumer. */
  function PopLeft<T>(c: Consumer<T>): nat {
    match c
    case Rest(_) => 0
    case FetchHead(job) => job.num + 3
    case FetchTail(job, _) => job.num + 2
    case CopyOut(job, _, dst) => (if |dst| <= job.num then job.num - |dst| else 0) + 1
  }

  lemma PopGetsDone<T>(s: State<T>, start: Pop)
    requires |s.cells| == Pow2(s.k) && !s.consumer.Rest?
    ensures PopLeft(ConsumerStep(s, start).consumer) < PopLeft(s.consumer)
  {
  }

  // ----- whole runs -----

  /** All pops are asked to copy. */
  predicate AllCopy<T>(cs: seq<Choice<T>>) {
    forall i :: 0 <= i < |cs| && cs[i].Consume? ==> cs[i].pop.copies
  }

  /** The call in progress copies, and all before it did. */
  predicate HasCopied<T>(s: State<T>) {
    && (!s.consumer.Rest? ==> s.consumer.job.copies)
    && forall i :: 0 <= i < |s.taken| ==> s.taken[i].Some?
  }

  lemma StepCopies<T>(s: State<T>, c: Choice<T>)
    requires Inv(s) && Good(c) && HasCopied(s) && (c.Consume? ==> c.pop.copies)
    ensures HasCopied(Step(s, c))
  {
    if c.Consume? {
      ConsumerStarts(s, c.pop);
      if !s.consumer.Rest? && ConsumerStep(s, c.pop).consumer.Rest? {
        PopEnds(s, c.pop);
      }
    } else {
      ProducerDoes(s, c.push);
    }
  }

  lemma {:induction false} RunCopies<T>(s: State<T>, cs: seq<Choice<T>>)
    requires Inv(s) && HasCopied(s) && AllCopy(cs) && forall i :: 0 <= i < |cs| ==> Good(cs[i])
    ensures HasCopied(Run(s, cs))
    decreases |cs|
  {
    if cs == [] {
    } else {
      RunKeeps(s, cs[..|cs| - 1]);
      RunCopies(s, cs[..|cs| - 1]);
      StepCopies(Run(s, cs[..|cs| - 1]), cs[|cs| - 1]);
    }
  }

  /** In every run head and tail stay within the capacity of each other, and if all pops are asked to copy, then the
      output of the consumer is what the producer has pushed up to head. */
  lemma EveryRun<T>(k: nat, cells: seq<T>, cs: seq<Choice<T>>)
    requires |cells| == Pow2(k) && forall i :: 0 <= i < |cs| ==> Good(cs[i])
    ensures var s := Run(Init(k, cells), cs);
            && Inv(s)
            && s.head <= s.tail <= s.head + Pow2(s.k)
            && |s.pushed| == s.tail
            && (AllCopy(cs) ==> Output(s.taken) == s.pushed[..s.head])
  {
    RunKeeps(Init(k, cells), cs);
    var s := Run(Init(k, cells), cs);
    if AllCopy(cs) {
      RunCopies(Init(k, cells), cs);
      OutputIsPrefix(s.taken, s.pushed);
    }
  }

  /** The two sides never copy into and out of the same cell at once. */
  lemma NoSharedCell<T>(s: State<T>)
    requires Inv(s) && s.producer.CopyIn? && s.consumer.CopyOut?
    requires s.producer.copied < s.producer.job.num && |s.consumer.dst| < s.consumer.job.num
    ensures Slot(s.producer.tail + s.producer.copied, s.k) != Slot(s.consumer.head + |s.consumer.dst|, s.k)
  {
    SlotsDiffer(s.consumer.head + |s.consumer.dst|, s.producer.tail + s.producer.copied, s.k);
  }

  /** A pop fails exactly when there are too few items at the moment it loads tail. */
  lemma PopFailsExactly<T>(s: State<T>, pop: Pop)
    requires Inv(s) && s.consumer.FetchTail?
    ensures ConsumerStep(s, pop).consumer == Rest(false) <==> s.tail - s.head < s.consumer.job.num
  {
  }

  /** Steps of the consumer alone leave the producer where it is. */
  lemma {:induction false} ConsumerAlone<T>(s: State<T>, cs: seq<Choice<T>>)
    requires |s.cells| == Pow2(s.k) && forall i :: 0 <= i < |cs| ==> cs[i].Consume?
    ensures var s' := Run(s, cs); s'.producer == s.producer && s'.tail == s.tail
    decreases |cs|
  {
    if cs == [] {
    } else {
      ConsumerAlone(s, cs[..|cs| - 1]);
    }
  }

  /** A push fails exactly when there was too little room in state s, in which it loads head, whatever the consumer does
      before it loads tail. */
  lemma PushFailsExactly<T>(s: State<T>, job: Push<T>, cs: seq<Choice<T>>)
    requires Inv(s) && s.producer == LoadHead(job)
    requires forall i :: 0 <= i < |cs| ==> cs[i].Consume? && Good(cs[i])
    ensures var s' := Run(ProducerStep(s, job), cs);
            && s'.producer == LoadTail(job, s.head)
            && (ProducerStep(s', job).producer == Ready(false) <==> s.tail - s.head + job.num > Pow2(s.k))
            && (ProducerStep(s', job).producer == CopyIn(job, s.tail, 0) <==> s.tail - s.head + job.num <= Pow2(s.k))
  {
    ConsumerAlone(ProducerStep(s, job), cs);
    RoomAtLoad(Run(ProducerStep(s, job), cs), job, s.head);
  }

  lemma RoomAtLoad<T>(s: State<T>, job: Push<T>, head: nat)
    requires |s.cells| == Pow2(s.k) && s.producer == LoadTail(job, head)
    requires GoodPush(job) && head <= s.tail <= head + Pow2(s.k)
    ensures ProducerStep(s, job).producer == Ready(false) <==> s.tail - head + job.num > Pow2(s.k)
    ensures ProducerStep(s, job).producer == CopyIn(job, s.tail, 0) <==> s.tail - head + job.num <= Pow2(s.k)
  {
  }
}
