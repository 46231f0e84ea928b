/** What the calls of the queue for many producers and consumers answer: no call ends without an event, every event is
    about what the call was asked to do, and a call that nothing disturbs succeeds exactly when it can. */
module MpmcCalls {
  import opened Wrappers
  import opened MpmcQueue

  // ----- the ends of calls -----

  /** A call ends only with its item in the queue, with an item out of it, or with one of the two failures. */
  lemma EndsWithEvent(s: State, c: Choice)
    requires c.thread < |s.threads| && s.Size() > 0
    requires s.threads[c.thread] != Idle && Step(s, c).threads[c.thread] == Idle
    ensures var e := EventOf(s, c);
            e.Some? && e.value.thread == c.thread
            && (e.value.Pushed? || e.value.Returned? || e.value.FoundFull? || e.value.FoundEmpty?)
  {
  }

  // ----- what the calls were asked -----

  /** What the call that thread t is in, or was in last, was asked: Some(v) to push v, None to pop. */
  function Asked(s: State, cs: seq<Choice>, t: nat): Option<Option<Item>>
    requires s.Size() > 0 && t < |s.threads| && forall i :: 0 <= i < |cs| ==> cs[i].thread < |s.threads|
    decreases |cs|
  {
    if cs == [] then None
    else
      var before, c := cs[..|cs| - 1], cs[|cs| - 1];
      if c.thread == t && Run(s, before).threads[t] == Idle then Some(c.start) else Asked(s, before, t)
  }

  /** The program point belongs to a call that was asked this. */
  predicate Serves(pc: Pc, asked: Option<Option<Item>>) {
    match pc
    case Idle => true
    case LoadTempTail(v) => asked == Some(Some(v))
    case LoadTempHead(v, _) => asked == Some(Some(v))
    case CasTempTail(v, _) => asked == Some(Some(v))
    case CopyIn(v, _, _) => asked == Some(Some(v))
    case WaitTail(v, _) => asked == Some(Some(v))
    case BumpTail(v, _) => asked == Some(Some(v))
    case _ => asked == Some(None)
  }

  lemma StepServes(s: State, c: Choice, asked: Option<Option<Item>>)
    requires c.thread < |s.threads| && s.Size() > 0 && Serves(s.threads[c.thread], asked)
    ensures Serves(Step(s, c).threads[c.thread], if s.threads[c.thread] == Idle then Some(c.start) else asked)
  {
  }

  lemma {:induction false} RunServes(s: State, cs: seq<Choice>, t: nat)
    requires s.Size() > 0 && t < |s.threads| && forall i :: 0 <= i < |cs| ==> cs[i].thread < |s.threads|
    requires s.threads[t] == Idle
    ensures Serves(Run(s, cs).threads[t], Asked(s, cs, t))
    decreases |cs|
  {
    if cs == [] {
    } else {
      var before, c := cs[..|cs| - 1], cs[|cs| - 1];
      RunServes(s, before, t);
      if c.thread == t {
        StepServes(Run(s, before), c, Asked(s, before, t));
      } else {
        OthersStay(Run(s, before), c, t);
      }
    }
  }

  lemma OthersStay(s: State, c: Choice, t: nat)
    requires c.thread < |s.threads| && s.Size() > 0 && t < |s.threads| && t != c.thread
    ensures Step(s, c).threads[t] == s.threads[t]
  {
    var pc := s.threads[c.thread];
    if pc.CopyIn? || pc.WaitTail? || pc.CopyOut? || pc.WaitTempHead? {
      CopiesOnlyMove(s, c);
    } else if pc.CasTempTail? || pc.BumpTail? || pc.CasHead? || pc.BumpTempHead? {
      OthersStayToo(s, c, t);
    } else {
      LoadsOnlyMove(s, c);
    }
  }

  lemma OthersStayToo(s: State, c: Choice, t: nat)
    requires c.thread < |s.threads| && s.Size() > 0 && t < |s.threads| && t != c.thread
    requires var pc := s.threads[c.thread]; pc.CasTempTail? || pc.BumpTail? || pc.CasHead? || pc.BumpTempHead?
    ensures Step(s, c).threads[t] == s.threads[t]
  {
  }

  /** In every run, what enters the queue and what is pushed is the item that the thread was asked to push, and only
      threads that were asked to pop take and return items. */
  lemma EventsAreAsked(cells: seq<Item>, n: nat, cell: nat, cs: seq<Choice>, c: Choice)
    requires |cells| > 0 && AllAllowed(n, cell, cs) && Allowed(n, cell, c)
    ensures var e, asked := EventOf(Reached(cells, n, cell, cs), c), Asked(Init(cells, n), cs, c.thread);
            e.Some? ==>
              match e.value
              case Entered(_, v) => asked == Some(Some(v))
              case Pushed(_, v) => asked == Some(Some(v))
              case FoundFull(_) => asked.Some? && asked.value.Some?
              case Popped(_, _) => asked == Some(None)
              case Returned(_, _) => asked == Some(None)
              case FoundEmpty(_) => asked == Some(None)
  {
    RunServes(Init(cells, n), cs, c.thread);
  }

  // ----- calls that nothing disturbs -----

  /** No operation has a cell reserved. */
  predicate Quiet(s: State) {
    s.tail == s.tempTail && s.tempHead == s.head
  }

  /** The thread of c makes all the steps, is idle at the end, and has these events; then the queue is q. */
  ghost predicate Ends(s: State, c: Choice, cs: seq<Choice>, events: seq<Event>, q: seq<Item>) {
    && s.Size() > 0 && c.thread < |s.threads|
    && (forall i :: 0 <= i < |cs| ==> cs[i] == c)
    && History(s, cs) == events
    && Run(s, cs).threads == s.threads[c.thread := Idle]
    && Run(s, cs).head <= |Run(s, cs).published| && Run(s, cs).Queue() == q
  }

  function Listed(e: Option<Event>): seq<Event> {
    if e.Some? then [e.value] else []
  }

  lemma {:induction false} HistoryOneMore(s: State, c: Choice, cs: seq<Choice>)
    requires s.Size() > 0 && c.thread < |s.threads|
    requires forall i :: 0 <= i < |cs| ==> cs[i].thread < |s.threads|
    ensures History(s, [c] + cs) == Listed(EventOf(s, c)) + History(Step(s, c), cs)
    decreases |cs|
  {
    var all := [c] + cs;
    if cs == [] {
      assert all[..0] == [];
      assert Run(s, all[..0]) == s;
    } else {
      var front := cs[..|cs| - 1];
      assert all[..|all| - 1] == [c] + front;
      HistoryOneMore(s, c, front);
      RunOneMore(s, c, front);
    }
  }

  /** One step before such a call. */
  lemma StepEnds(s: State, c: Choice, s': State, cs: seq<Choice>, events: seq<Event>, q: seq<Item>)
    requires s.Size() > 0 && c.thread < |s.threads| && s' == Step(s, c) && Ends(s', c, cs, events, q)
    requires s'.threads == s.threads[c.thread := s'.threads[c.thread]]
    ensures Ends(s, c, [c] + cs, Listed(EventOf(s, c)) + events, q)
  {
    RunOneMore(s, c, cs);
    HistoryOneMore(s, c, cs);
    assert s'.threads[c.thread := Idle] == s.threads[c.thread := Idle];
  }

  lemma EndsHere(s: State, c: Choice)
    requires s.Size() > 0 && c.thread < |s.threads| && s.threads[c.thread] == Idle && s.head <= |s.published|
    ensures Ends(s, c, [], [], s.Queue())
  {
    assert s.threads[c.thread := Idle] == s.threads;
  }

  // ----- a push -----

  /** The thread of c has copied part of v, or all of it, into the next cell, and its turn has come. */
  predicate Filling(s: State, c: Choice, v: Item) {
    && c.thread < |s.threads| && Reserved(s.threads[c.thread], Pushing) == Some(s.tail)
    && s.threads[c.thread].v == v
  }

  lemma FillStep(s: State, cell: nat, c: Choice, v: Item)
    requires Inv(s, cell) && Allowed(|s.threads|, cell, c) && Filling(s, c, v) && !s.threads[c.thread].BumpTail?
    ensures var s' := Step(s, c);
            && EventOf(s, c) == None && Filling(s', c, v)
            && s'.head == s.head && s'.published == s.published
            && s'.threads == s.threads[c.thread := s'.threads[c.thread]]
            && Remaining(s'.threads[c.thread], cell) < Remaining(s.threads[c.thread], cell)
  {
    assert ThreadOk(s, cell, s.threads[c.thread]);
  }

  lemma {:induction false} FillEnds(s: State, cell: nat, c: Choice, v: Item) returns (cs: seq<Choice>)
    requires Inv(s, cell) && Allowed(|s.threads|, cell, c) && Filling(s, c, v)
    ensures Ends(s, c, cs, [Pushed(c.thread, v)], s.Queue() + [v])
    decreases Remaining(s.threads[c.thread], cell)
  {
    var s' := Step(s, c);
    StepInv(s, cell, c);
    if s.threads[c.thread].BumpTail? {
      PublishEnds(s, c, v);
      cs := [c];
    } else {
      FillStep(s, cell, c, v);
      cs := FillEnds(s', cell, c, v);
      StepEnds(s, c, s', cs, [Pushed(c.thread, v)], s.Queue() + [v]);
      cs := [c] + cs;
    }
  }

  lemma PublishEnds(s: State, c: Choice, v: Item)
    requires Counters(s) && c.thread < |s.threads| && Filling(s, c, v) && s.threads[c.thread].BumpTail?
    ensures Ends(s, c, [c], [Pushed(c.thread, v)], s.Queue() + [v])
  {
    var s' := Step(s, c);
    EndsHere(s', c);
    assert s'.Queue() == s.Queue() + [v];
    StepEnds(s, c, s', [], [], s'.Queue());
    assert [c] + [] == [c];
  }

  /** How a push of v by thread t ends when nothing disturbs it. */
  function PushEvents(s: State, t: nat, v: Item): seq<Event>
    requires s.head <= |s.published|
  {
    if |s.Queue()| < s.Size() then [Entered(t, v), Pushed(t, v)] else [FoundFull(t)]
  }

  function PushResult(s: State, v: Item): seq<Item>
    requires s.head <= |s.published|
  {
    if |s.Queue()| < s.Size() then s.Queue() + [v] else s.Queue()
  }

  lemma CasTempTailEnds(s: State, cell: nat, c: Choice, v: Item) returns (cs: seq<Choice>)
    requires Inv(s, cell) && Allowed(|s.threads|, cell, c) && !c.spurious
    requires Quiet(s) && s.threads[c.thread] == CasTempTail(v, s.tempTail) && |s.Queue()| < s.Size()
    ensures Ends(s, c, cs, PushEvents(s, c.thread, v), PushResult(s, v))
  {
    var s' := AfterReserve(s, c.thread, v);
    StepInv(s, cell, c);
    cs := FillEnds(s', cell, c, v);
    StepEnds(s, c, s', cs, [Pushed(c.thread, v)], s.Queue() + [v]);
    cs := [c] + cs;
  }

  lemma LoadTempHeadEnds(s: State, cell: nat, c: Choice, v: Item) returns (cs: seq<Choice>)
    requires Inv(s, cell) && Allowed(|s.threads|, cell, c) && !c.spurious
    requires Quiet(s) && s.threads[c.thread] == LoadTempHead(v, s.tempTail)
    ensures Ends(s, c, cs, PushEvents(s, c.thread, v), PushResult(s, v))
  {
    StepInv(s, cell, c);
    if |s.Queue()| < s.Size() {
      var s' := SetPc(s, c.thread, CasTempTail(v, s.tempTail));
      cs := CasTempTailEnds(s', cell, c, v);
      StepEnds(s, c, s', cs, PushEvents(s, c.thread, v), PushResult(s, v));
    } else {
      var s' := SetPc(s, c.thread, Idle);
      cs := [];
      EndsHere(s', c);
      StepEnds(s, c, s', cs, [], s.Queue());
    }
    cs := [c] + cs;
  }

  lemma LoadTempTailEnds(s: State, cell: nat, c: Choice, v: Item) returns (cs: seq<Choice>)
    requires Inv(s, cell) && Allowed(|s.threads|, cell, c) && !c.spurious
    requires Quiet(s) && s.threads[c.thread] == LoadTempTail(v)
    ensures Ends(s, c, cs, PushEvents(s, c.thread, v), PushResult(s, v))
  {
    var s' := SetPc(s, c.thread, LoadTempHead(v, s.tempTail));
    StepInv(s, cell, c);
    cs := LoadTempHeadEnds(s', cell, c, v);
    StepEnds(s, c, s', cs, PushEvents(s, c.thread, v), PushResult(s, v));
    cs := [c] + cs;
  }

  /** A push of v that nothing disturbs adds v if the queue has room, and only then; else it has found it full. */
  lemma PushAlone(s: State, cell: nat, c: Choice) returns (cs: seq<Choice>)
    requires Inv(s, cell) && Allowed(|s.threads|, cell, c) && c.start.Some? && !c.spurious
    requires Quiet(s) && s.threads[c.thread] == Idle
    ensures var t, v := c.thread, c.start.value;
            if |s.Queue()| < s.Size() then Ends(s, c, cs, [Entered(t, v), Pushed(t, v)], s.Queue() + [v])
            else Ends(s, c, cs, [FoundFull(t)], s.Queue())
  {
    var v := c.start.value;
    var s' := SetPc(s, c.thread, LoadTempTail(v));
    StepInv(s, cell, c);
    cs := LoadTempTailEnds(s', cell, c, v);
    StepEnds(s, c, s', cs, PushEvents(s, c.thread, v), PushResult(s, v));
    cs := [c] + cs;
  }

  // ----- a pop -----

  /** The thread of c has copied part of v, or all of it, out of the cell that is given back next. */
  predicate Emptying(s: State, c: Choice, v: Item) {
    && c.thread < |s.threads| && Reserved(s.threads[c.thread], Popping) == Some(s.tempHead)
    && s.tempHead < |s.published| && s.published[s.tempHead] == v
  }

  lemma EmptyStep(s: State, cell: nat, c: Choice, v: Item)
    requires Inv(s, cell) && Allowed(|s.threads|, cell, c) && Emptying(s, c, v) && !s.threads[c.thread].BumpTempHead?
    ensures var s' := Step(s, c);
            && EventOf(s, c) == None && Emptying(s', c, v)
            && s'.head == s.head && s'.published == s.published
            && s'.threads == s.threads[c.thread := s'.threads[c.thread]]
            && Remaining(s'.threads[c.thread], cell) < Remaining(s.threads[c.thread], cell)
  {
    assert ThreadOk(s, cell, s.threads[c.thread]);
  }

  lemma {:induction false} EmptyEnds(s: State, cell: nat, c: Choice, v: Item) returns (cs: seq<Choice>)
    requires Inv(s, cell) && Allowed(|s.threads|, cell, c) && Emptying(s, c, v)
    ensures Ends(s, c, cs, [Returned(c.thread, v)], s.Queue())
    decreases Remaining(s.threads[c.thread], cell)
  {
    var s' := Step(s, c);
    StepInv(s, cell, c);
    if s.threads[c.thread].BumpTempHead? {
      assert ThreadOk(s, cell, s.threads[c.thread]);
      GiveBackEnds(s, c, v);
      cs := [c];
    } else {
      EmptyStep(s, cell, c, v);
      cs := EmptyEnds(s', cell, c, v);
      StepEnds(s, c, s', cs, [Returned(c.thread, v)], s.Queue());
      cs := [c] + cs;
    }
  }

  lemma GiveBackEnds(s: State, c: Choice, v: Item)
    requires Counters(s) && c.thread < |s.threads| && s.threads[c.thread].BumpTempHead?
    requires s.threads[c.thread].dst == v
    ensures Ends(s, c, [c], [Returned(c.thread, v)], s.Queue())
  {
    var s' := Step(s, c);
    EndsHere(s', c);
    StepEnds(s, c, s', [], [], s'.Queue());
    assert [c] + [] == [c];
  }

  /** How a pop by thread t ends when nothing disturbs it. */
  function PopEvents(s: State, t: nat): seq<Event>
    requires s.head <= |s.published|
  {
    if s.Queue() != [] then [Popped(t, s.Queue()[0]), Returned(t, s.Queue()[0])] else [FoundEmpty(t)]
  }

  function PopResult(s: State): seq<Item>
    requires s.head <= |s.published|
  {
    if s.Queue() != [] then s.Queue()[1..] else s.Queue()
  }

  lemma CasHeadEnds(s: State, cell: nat, c: Choice) returns (cs: seq<Choice>)
    requires Inv(s, cell) && Allowed(|s.threads|, cell, c) && !c.spurious
    requires Quiet(s) && s.threads[c.thread] == CasHead(s.head) && s.Queue() != []
    ensures Ends(s, c, cs, PopEvents(s, c.thread), PopResult(s))
  {
    var s' := AfterTake(s, c.thread);
    StepInv(s, cell, c);
    assert s'.Queue() == s.Queue()[1..];
    cs := EmptyEnds(s', cell, c, s.Queue()[0]);
    StepEnds(s, c, s', cs, [Returned(c.thread, s.Queue()[0])], s.Queue()[1..]);
    cs := [c] + cs;
  }

  lemma LoadTailEnds(s: State, cell: nat, c: Choice) returns (cs: seq<Choice>)
    requires Inv(s, cell) && Allowed(|s.threads|, cell, c) && !c.spurious
    requires Quiet(s) && s.threads[c.thread] == LoadTail(s.head)
    ensures Ends(s, c, cs, PopEvents(s, c.thread), PopResult(s))
  {
    StepInv(s, cell, c);
    if s.Queue() != [] {
      var s' := SetPc(s, c.thread, CasHead(s.head));
      cs := CasHeadEnds(s', cell, c);
      StepEnds(s, c, s', cs, PopEvents(s, c.thread), PopResult(s));
    } else {
      var s' := SetPc(s, c.thread, Idle);
      cs := [];
      EndsHere(s', c);
      StepEnds(s, c, s', cs, [], s.Queue());
    }
    cs := [c] + cs;
  }

  lemma LoadHeadEnds(s: State, cell: nat, c: Choice) returns (cs: seq<Choice>)
    requires Inv(s, cell) && Allowed(|s.threads|, cell, c) && !c.spurious
    requires Quiet(s) && s.threads[c.thread] == LoadHead
    ensures Ends(s, c, cs, PopEvents(s, c.thread), PopResult(s))
  {
    var s' := SetPc(s, c.thread, LoadTail(s.head));
    StepInv(s, cell, c);
    cs := LoadTailEnds(s', cell, c);
    StepEnds(s, c, s', cs, PopEvents(s, c.thread), PopResult(s));
    cs := [c] + cs;
  }

  /** A pop that nothing disturbs returns the first item if there is one, and only then; else it has found none. */
  lemma PopAlone(s: State, cell: nat, c: Choice) returns (cs: seq<Choice>)
    requires Inv(s, cell) && Allowed(|s.threads|, cell, c) && c.start == None && !c.spurious
    requires Quiet(s) && s.threads[c.thread] == Idle
    ensures var t := c.thread;
            if s.Queue() != []
            then Ends(s, c, cs, [Popped(t, s.Queue()[0]), Returned(t, s.Queue()[0])], s.Queue()[1..])
            else Ends(s, c, cs, [FoundEmpty(t)], s.Queue())
  {
    var s' := SetPc(s, c.thread, LoadHead);
    StepInv(s, cell, c);
    cs := LoadHeadEnds(s', cell, c);
    StepEnds(s, c, s', cs, PopEvents(s, c.thread), PopResult(s));
    cs := [c] + cs;
  }
}
