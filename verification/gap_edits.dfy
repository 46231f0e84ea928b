/** Whole editing sessions: the gap buffer next to an editor that has lists of symbols and a capacity in bytes. */
module GapEdits {
  import opened Wrappers
  import opened Words
  import opened Utf8
  import opened GapBuffers

  datatype Edit =
    | InsertString(str: seq<Byte>)
    | MoveRelative(off: int)
    | MoveAbsolute(num: nat)
    | RemoveForwards(num: nat)
    | RemoveBackwards(num: nat)
    | CloneUsingMemory(mem: nat, len: nat, h: Header)

  /** The symbols before and behind the cursor, and the bytes that there is room for. */
  datatype Editor = Editor(before: Text, after: Text, capacity: nat) {
    function Length(): nat { |Bytes(before)| + |Bytes(after)| }

    function Symbols(): nat { |before| + |after| }
  }

  /** Memory regions end inside the address space. */
  predicate Possible(op: Edit) {
    op.CloneUsingMemory? ==> op.mem + op.len <= WORD
  }

  predicate Succeeds(e: Editor, op: Edit)
    requires Possible(op)
  {
    match op
    case InsertString(str) => IsValid(str) && e.Length() + |str| <= e.capacity
    case CloneUsingMemory(mem, len, h) =>
      CapacityOf(mem, len, h).Room? && e.Length() <= CapacityOf(mem, len, h).bytes
    case _ => true
  }

  function AtCursor(e: Editor, k: nat): Editor {
    var t := e.before + e.after;
    if k <= |t| then Editor(t[..k], t[k..], e.capacity) else e
  }

  /** What a session does to the editor: a failed operation changes nothing, and a clone replaces the buffer. */
  function Apply(e: Editor, op: Edit): Editor
    requires Possible(op)
  {
    if !Succeeds(e, op) then e
    else
      match op
      case InsertString(str) => e.(before := e.before + Symbols(str))
      case MoveRelative(off) => AtCursor(e, Clamp(|e.before| + off, e.Symbols()))
      case MoveAbsolute(num) => AtCursor(e, Min(num, e.Symbols()))
      case RemoveForwards(num) => e.(after := e.after[Min(num, |e.after|)..])
      case RemoveBackwards(num) => e.(before := e.before[..|e.before| - Min(num, |e.before|)])
      case CloneUsingMemory(mem, len, h) => e.(capacity := CapacityOf(mem, len, h).bytes)
  }

  /** The editor after the first n operations, and what they answer. */
  function After(e: Editor, ops: seq<Edit>, n: nat): Editor
    requires n <= |ops| && forall i :: 0 <= i < |ops| ==> Possible(ops[i])
  {
    if n == 0 then e else Apply(After(e, ops, n - 1), ops[n - 1])
  }

  function Answers(e: Editor, ops: seq<Edit>, n: nat): seq<bool>
    requires n <= |ops| && forall i :: 0 <= i < |ops| ==> Possible(ops[i])
  {
    if n == 0 then [] else Answers(e, ops, n - 1) + [Succeeds(After(e, ops, n - 1), ops[n - 1])]
  }

  /** The buffer is in the state of the editor. */
  ghost predicate Shows(buff: GapBuffer, e: Editor)
    reads buff, buff.data
  {
    && buff.Valid()
    && buff.before == e.before && buff.after == e.after && buff.data.Length == e.capacity
    && buff.gapLength == e.capacity - e.Length()
  }

  lemma ValidShows(buff: GapBuffer)
    requires buff.Valid()
    ensures Shows(buff, Editor(buff.before, buff.after, buff.data.Length))
  {
    buff.Sides();
  }

  /** One operation. The asserts of the code, the two marked FIXME among them, are proved where it is called. */
  method Perform(buff: GapBuffer, op: Edit, ghost e: Editor) returns (now: GapBuffer, ok: bool)
    requires Shows(buff, e) && Possible(op)
    modifies buff, buff.data
    ensures now == buff || (fresh(now) && fresh(now.data))
    ensures Shows(now, Apply(e, op)) && ok == Succeeds(e, op)
  {
    now, ok := buff, true;
    if op.InsertString? {
      ok := Insert(buff, op.str, e);
    } else if op.MoveRelative? || op.MoveAbsolute? {
      Move(buff, op, e);
    } else if op.RemoveForwards? || op.RemoveBackwards? {
      Drop(buff, op, e);
    } else {
      now, ok := Replace(buff, op.mem, op.len, op.h, e);
    }
  }

  method Insert(buff: GapBuffer, str: seq<Byte>, ghost e: Editor) returns (ok: bool)
    requires Shows(buff, e)
    modifies buff, buff.data
    ensures Shows(buff, Apply(e, InsertString(str))) && ok == Succeeds(e, InsertString(str))
  {
    ok := buff.InsertString(str);
    ValidShows(buff);
  }

  method Move(buff: GapBuffer, op: Edit, ghost e: Editor)
    requires Shows(buff, e) && (op.MoveRelative? || op.MoveAbsolute?)
    modifies buff, buff.data
    ensures Shows(buff, Apply(e, op))
  {
    if op.MoveRelative? {
      buff.MoveRelative(op.off);
      AtShows(buff, e, Clamp(|e.before| + op.off, e.Symbols()));
    } else {
      buff.MoveAbsolute(op.num);
      AtShows(buff, e, Min(op.num, e.Symbols()));
    }
  }

  lemma {:induction false} AtShows(buff: GapBuffer, e: Editor, k: nat)
    requires buff.Valid() && buff.data.Length == e.capacity
    requires At(buff.before, buff.after, e.before + e.after, k)
    ensures Shows(buff, AtCursor(e, k))
  {
    ValidShows(buff);
  }

  method Drop(buff: GapBuffer, op: Edit, ghost e: Editor)
    requires Shows(buff, e) && (op.RemoveForwards? || op.RemoveBackwards?)
    modifies buff
    ensures Shows(buff, Apply(e, op))
  {
    if op.RemoveForwards? { buff.RemoveForwards(op.num); } else { buff.RemoveBackwards(op.num); }
    ValidShows(buff);
  }

  method Replace(buff: GapBuffer, mem: nat, len: nat, h: Header, ghost e: Editor) returns (now: GapBuffer, ok: bool)
    requires Shows(buff, e) && mem + len <= WORD
    ensures now == buff || (fresh(now) && fresh(now.data))
    ensures Shows(now, Apply(e, CloneUsingMemory(mem, len, h))) && ok == Succeeds(e, CloneUsingMemory(mem, len, h))
  {
    var clone := GapBuffer.CloneUsingMemory(mem, len, h, buff);
    if clone == null { return buff, false; }
    ValidShows(clone);
    return clone, true;
  }

  /** In every session, started on any valid buffer, the buffer does what the editor does. */
  method Session(start: GapBuffer, ops: seq<Edit>) returns (buff: GapBuffer, answers: seq<bool>)
    requires start.Valid() && forall i :: 0 <= i < |ops| ==> Possible(ops[i])
    modifies start, start.data
    ensures var e := old(Editor(start.before, start.after, start.data.Length));
            Shows(buff, After(e, ops, |ops|)) && answers == Answers(e, ops, |ops|)
  {
    ghost var e := Editor(start.before, start.after, start.data.Length);
    ValidShows(start);
    buff, answers := start, [];
    for n := 0 to |ops|
      invariant buff == start || (fresh(buff) && fresh(buff.data))
      invariant Shows(buff, After(e, ops, n)) && answers == Answers(e, ops, n)
    {
      var ok;
      buff, ok := Perform(buff, ops[n], After(e, ops, n));
      answers := answers + [ok];
    }
  }
}
