/** The line iterator of the gap buffer: it yields the text split at its newlines, wherever the gap is. */
module GapIter {
  import opened Wrappers
  import opened Utf8
  import opened GapBuffers

  const NEWLINE: Byte := 10

  /** The size of the iterator's own buffer, which holds the line that the gap interrupts. */
  const MAYBE: nat := 512

  // ----- lines -----

  /** The first newline from i on, or the end. */
  function LineEnd(s: seq<Byte>, i: nat): (n: nat)
    requires i <= |s|
    ensures i <= n <= |s|
    decreases |s| - i
  {
    if i == |s| || s[i] == NEWLINE then i else LineEnd(s, i + 1)
  }

  /** The number of bytes before the first newline. */
  function LineLength(s: seq<Byte>): (n: nat)
    ensures n <= |s|
  {
    LineEnd(s, 0)
  }

  lemma {:induction false} LineEndShape(s: seq<Byte>, i: nat)
    requires i <= |s|
    ensures forall k :: i <= k < LineEnd(s, i) ==> s[k] != NEWLINE
    ensures LineEnd(s, i) < |s| ==> s[LineEnd(s, i)] == NEWLINE
    decreases |s| - i
  {
    if i == |s| || s[i] == NEWLINE {
    } else {
      LineEndShape(s, i + 1);
    }
  }

  lemma {:induction false} LineEndUnique(s: seq<Byte>, i: nat, n: nat)
    requires i <= n <= |s| && (forall k :: i <= k < n ==> s[k] != NEWLINE) && (n < |s| ==> s[n] == NEWLINE)
    ensures LineEnd(s, i) == n
    decreases |s| - i
  {
    if i == n {
    } else {
      LineEndUnique(s, i + 1, n);
    }
  }

  /** What is left behind the first line and its newline. */
  function BehindLine(s: seq<Byte>): seq<Byte> {
    if LineLength(s) < |s| then s[LineLength(s) + 1..] else []
  }

  /** The lines of a text: there is none behind a newline that ends it. */
  function Lines(s: seq<Byte>): seq<seq<Byte>>
    decreases |s|
  {
    if s == [] then [] else [s[..LineLength(s)]] + Lines(BehindLine(s))
  }

  /** The lines, each with a newline behind it. */
  function Joined(lines: seq<seq<Byte>>): seq<Byte> {
    if lines == [] then [] else lines[0] + [NEWLINE] + Joined(lines[1..])
  }

  /** Splitting loses nothing: the lines have no newlines, and joined they give the text, with its last newline added
      if it has none. */
  lemma {:induction false} LinesJoin(s: seq<Byte>)
    ensures Joined(Lines(s)) == if s == [] || s[|s| - 1] == NEWLINE then s else s + [NEWLINE]
    ensures forall i :: 0 <= i < |Lines(s)| ==> 10 !in Lines(s)[i]
    decreases |s|
  {
    if s == [] {
    } else {
      var line, rest := s[..LineLength(s)], BehindLine(s);
      LinesJoin(rest);
      JoinedCons(line, Lines(rest));
      FirstLine(s, line, rest, Joined(Lines(rest)));
    }
  }

  lemma {:induction false} FirstLine(s: seq<Byte>, line: seq<Byte>, rest: seq<Byte>, joined: seq<Byte>)
    requires s != [] && line == s[..LineLength(s)] && rest == BehindLine(s)
    requires joined == if rest == [] || rest[|rest| - 1] == NEWLINE then rest else rest + [NEWLINE]
    ensures NEWLINE !in line
    ensures line + [NEWLINE] + joined == if s[|s| - 1] == NEWLINE then s else s + [NEWLINE]
  {
    LineEndShape(s, 0);
    if LineLength(s) < |s| {
      JoinedRest(s, line, rest, joined);
    } else {
      assert line == s && line + [NEWLINE] + [] == s + [NEWLINE];
    }
  }

  lemma {:induction false} JoinedCons(line: seq<Byte>, lines: seq<seq<Byte>>)
    ensures Joined([line] + lines) == line + [NEWLINE] + Joined(lines)
  {
    assert ([line] + lines)[1..] == lines;
  }

  lemma {:induction false} JoinedRest(s: seq<Byte>, line: seq<Byte>, rest: seq<Byte>, joined: seq<Byte>)
    requires |line| < |s| && line == s[..|line|] && s[|line|] == NEWLINE && rest == s[|line| + 1..]
    requires joined == if rest == [] || rest[|rest| - 1] == NEWLINE then rest else rest + [NEWLINE]
    ensures line + [NEWLINE] + joined == if s[|s| - 1] == NEWLINE then s else s + [NEWLINE]
  {
    assert s == line + [NEWLINE] + rest;
    if rest != [] { assert s[|s| - 1] == rest[|rest| - 1]; }
  }

  /** Behind the last newline before i, or the start. */
  function LineStart(s: seq<Byte>, i: nat): (n: nat)
    requires i <= |s|
    ensures n <= i
  {
    if i == 0 || s[i - 1] == NEWLINE then i else LineStart(s, i - 1)
  }

  lemma {:induction false} LineStartUnique(s: seq<Byte>, i: nat, n: nat)
    requires n <= i <= |s| && (n > 0 ==> s[n - 1] == NEWLINE) && forall k :: n <= k < i ==> s[k] != NEWLINE
    ensures LineStart(s, i) == n
  {
    if n == i {
    } else {
      LineStartUnique(s, i - 1, n);
    }
  }

  /** The length of the line that the gap interrupts: what is before the gap behind its last newline, and the first line
      behind the gap. */
  function GapLineLength(front: seq<Byte>, back: seq<Byte>): nat {
    |front| - LineStart(front, |front|) + LineLength(back)
  }

  /** That line in the text: it starts behind a newline or at the start, ends before one or at the end, and has none. */
  lemma GapLineIs(front: seq<Byte>, back: seq<Byte>) returns (i: nat, j: nat)
    ensures i <= |front| <= j <= |front + back| && j - i == GapLineLength(front, back)
    ensures var t := front + back;
            && (i > 0 ==> t[i - 1] == 10) && (j < |t| ==> t[j] == 10)
            && forall k :: i <= k < j ==> t[k] != 10
  {
    i, j := LineStart(front, |front|), |front| + LineLength(back);
    LineStartShape(front, |front|);
    LineEndShape(back, 0);
  }

  lemma {:induction false} LineStartShape(s: seq<Byte>, i: nat)
    requires i <= |s|
    ensures LineStart(s, i) > 0 ==> s[LineStart(s, i) - 1] == NEWLINE
    ensures forall k :: LineStart(s, i) <= k < i ==> s[k] != NEWLINE
  {
    if i == 0 || s[i - 1] == NEWLINE {
    } else {
      LineStartShape(s, i - 1);
    }
  }

  /** line is the first line of rem, and rem' is what is left behind it. */
  predicate Yields(rem: seq<Byte>, line: seq<Byte>, rem': seq<Byte>) {
    rem != [] && line == rem[..LineLength(rem)] && rem' == BehindLine(rem)
  }

  lemma LinesStep(rem: seq<Byte>, line: seq<Byte>, rem': seq<Byte>)
    requires Yields(rem, line, rem')
    ensures Lines(rem) == [line] + Lines(rem') && |rem'| < |rem|
  {
  }

  // ----- the iterator -----

  class Iter {
    const buff: GapBuffer
    var crossedGap: bool
    var cur: nat
    const maybe: array<Byte>

    /** The text before and behind the gap, which must not change while the iterator is in use. */
    ghost const front: seq<Byte>
    ghost const back: seq<Byte>

    ghost predicate Valid()
      reads this, buff, buff.data
    {
      && maybe.Length == MAYBE && maybe != buff.data
      && buff.gapOffset == |front| && buff.gapOffset + buff.gapLength + |back| == buff.data.Length
      && Holds(front, 0) && Holds(back, buff.gapOffset + buff.gapLength)
      && (if crossedGap then buff.gapOffset + buff.gapLength <= cur <= buff.data.Length
          else cur <= |front| && (cur > 0 ==> front[cur - 1] == NEWLINE))
    }

    /** The data holds s from d on. */
    ghost predicate Holds(s: seq<Byte>, d: nat)
      reads buff.data
    {
      d + |s| <= buff.data.Length && forall k :: d <= k < d + |s| ==> buff.data[k] == s[k - d]
    }

    /** What has not been yielded yet. */
    ghost function Remaining(): seq<Byte>
      reads this, buff, buff.data
      requires Valid()
    {
      if crossedGap then back[cur - (buff.gapOffset + buff.gapLength)..] else front[cur..] + back
    }

    /** The line that the gap interrupts fits into the buffer of the iterator. */
    ghost predicate Fits() {
      GapLineLength(front, back) <= MAYBE
    }

    /** GapBufferIter_init */
    constructor (buff: GapBuffer)
      requires buff.gapOffset + buff.gapLength <= buff.data.Length
      ensures Valid() && this.buff == buff && fresh(maybe)
      ensures front == buff.data[..buff.gapOffset] && back == buff.data[buff.gapOffset + buff.gapLength..]
      ensures !crossedGap && cur == 0
    {
      this.buff := buff;
      crossedGap, cur := false, 0;
      maybe := new Byte[MAYBE];
      front, back := buff.data[..buff.gapOffset], buff.data[buff.gapOffset + buff.gapLength..];
    }

    /** The scanning loops: to the next newline from i0 on, or to the end of s, which the data holds from d on. */
    method FindNewline(i0: nat, end: nat, ghost s: seq<Byte>, ghost d: nat) returns (i: nat)
      requires Holds(s, d) && d <= i0 <= end == d + |s|
      ensures i0 <= i <= end && i - d == LineEnd(s, i0 - d)
    {
      i := i0;
      while i < end && buff.data[i] != NEWLINE
        invariant i0 <= i <= end
        invariant forall k :: i0 - d <= k < i - d ==> s[k] != NEWLINE
      {
        i := i + 1;
      }
      LineEndUnique(s, i0 - d, i - d);
    }

    /** The line that points into the data. */
    method Slice(from: nat, to: nat, ghost s: seq<Byte>, ghost d: nat) returns (line: seq<Byte>)
      requires Holds(s, d) && d <= from <= to <= d + |s|
      ensures line == s[from - d..to - d]
    {
      line := buff.data[from..to];
    }

    /** GapBufferIter_next: the next line, or false when there is none left. */
    method Next() returns (ok: bool, line: seq<Byte>)
      requires Valid() && Fits()
      modifies this, maybe
      ensures Valid()
      ensures ok <==> old(Remaining()) != []
      ensures ok ==> Yields(old(Remaining()), line, Remaining())
      ensures !ok ==> unchanged(this) && line == []
    {
      if crossedGap {
        ok, line := NextBehind();
      } else {
        var i := FindNewline(cur, buff.gapOffset, front, 0);
        if i == buff.gapOffset {
          ok, line := NextAcross();
        } else {
          line := NextInFront(i);
          ok := true;
        }
      }
    }

    method NextInFront(i: nat) returns (line: seq<Byte>)
      requires Valid() && !crossedGap && i == LineEnd(front, cur) < |front|
      modifies this
      ensures Valid()
      ensures Yields(old(Remaining()), line, Remaining())
    {
      line := Slice(cur, i, front, 0);
      YieldsInFront(front, back, cur);
      cur := i + 1;
    }

    method NextBehind() returns (ok: bool, line: seq<Byte>)
      requires Valid() && crossedGap
      modifies this
      ensures Valid()
      ensures ok <==> old(Remaining()) != []
      ensures ok ==> Yields(old(Remaining()), line, Remaining())
      ensures !ok ==> unchanged(this) && line == []
    {
      var i := FindNewline(cur, buff.data.Length, back, buff.gapOffset + buff.gapLength);
      if i == buff.data.Length && i == cur {
        return false, [];
      }
      line := TakeBehind(i);
      ok := true;
    }

    method TakeBehind(i: nat) returns (line: seq<Byte>)
      requires Valid() && crossedGap && cur < buff.data.Length
      requires var second := buff.gapOffset + buff.gapLength; i >= second && i - second == LineEnd(back, cur - second)
      modifies this
      ensures Valid()
      ensures Yields(old(Remaining()), line, Remaining())
    {
      ghost var second := buff.gapOffset + buff.gapLength;
      var to := if i < buff.data.Length then i + 1 else i;
      ghost var rem, rest := Remaining(), back[to - second..];
      line := Slice(cur, i, back, second);
      YieldsBehind(back, cur - second, i - second, rem, line, rest);
      JumpBehind(to);
    }

    /** The iterator goes to a place behind the gap. */
    method JumpBehind(to: nat)
      requires Valid() && buff.gapOffset + buff.gapLength <= to <= buff.data.Length
      modifies this
      ensures Valid() && crossedGap && Remaining() == back[to - (buff.gapOffset + buff.gapLength)..]
    {
      crossedGap, cur := true, to;
    }

    method NextAcross() returns (ok: bool, line: seq<Byte>)
      requires Valid() && Fits() && !crossedGap && LineEnd(front, cur) == |front|
      modifies this, maybe
      ensures Valid()
      ensures ok <==> old(Remaining()) != []
      ensures ok ==> Yields(old(Remaining()), line, Remaining())
      ensures !ok ==> unchanged(this) && line == []
    {
      ghost var rem, from := Remaining(), cur;
      var length := buff.gapOffset - cur;
      var second := buff.gapOffset + buff.gapLength;
      var i := FindNewline(second, buff.data.Length, back, second);
      var length2 := i - second;
      if i < buff.data.Length {
        i := i + 1;
      } else if length + length2 == 0 {
        return false, [];
      }
      InterruptedLine(front, back, cur);
      line := CopyParts(cur, length, second, length2);
      JumpBehind(i);
      YieldsAcross(front, back, from, length2, rem, line, Remaining());
      ok := true;
    }

    /** The two copies into the buffer of the iterator. */
    method CopyParts(from: nat, n: nat, from2: nat, n2: nat) returns (line: seq<Byte>)
      requires Valid() && from + n == |front| && from2 == buff.gapOffset + buff.gapLength && n2 <= |back|
      requires n + n2 <= maybe.Length
      modifies maybe
      ensures line == front[from..] + back[..n2]
    {
      forall k | 0 <= k < n { maybe[k] := buff.data[from + k]; }
      forall k | 0 <= k < n2 { maybe[n + k] := buff.data[from2 + k]; }
      line := maybe[..n + n2];
    }
  }

  lemma InterruptedLine(front: seq<Byte>, back: seq<Byte>, cur: nat)
    requires cur <= |front| && (cur > 0 ==> front[cur - 1] == NEWLINE) && LineEnd(front, cur) == |front|
    ensures |front| - cur + LineLength(back) == GapLineLength(front, back)
  {
    LineEndShape(front, cur);
    LineStartUnique(front, |front|, cur);
  }

  /** The first line of front + back from cur on when it ends before the gap, ... */
  lemma {:induction false} YieldsInFront(front: seq<Byte>, back: seq<Byte>, cur: nat)
    requires cur <= |front| && LineEnd(front, cur) < |front|
    ensures var e := LineEnd(front, cur);
            Yields(front[cur..] + back, front[cur..e], front[e + 1..] + back) && front[e] == NEWLINE
  {
    var e, rem := LineEnd(front, cur), front[cur..] + back;
    LineEndShape(front, cur);
    LineEndUnique(rem, 0, e - cur);
  }

  /** ... when it crosses the gap, ... */
  lemma {:induction false} YieldsAcross(front: seq<Byte>, back: seq<Byte>, cur: nat, e: nat,
                     rem: seq<Byte>, line: seq<Byte>, rem': seq<Byte>)
    requires cur <= |front| && LineEnd(front, cur) == |front| && e == LineEnd(back, 0)
    requires rem == front[cur..] + back && line == front[cur..] + back[..e]
    requires rem' == if e < |back| then back[e + 1..] else []
    ensures rem != [] ==> Yields(rem, line, rem')
  {
    LineEndShape(front, cur);
    LineEndShape(back, 0);
    LineEndUnique(rem, 0, |front| - cur + e);
  }

  /** ... and when it lies behind the gap. */
  lemma {:induction false} YieldsBehind(back: seq<Byte>, o: nat, e: nat,
                                        rem: seq<Byte>, line: seq<Byte>, rest: seq<Byte>)
    requires o < |back| && e == LineEnd(back, o) && rem == back[o..] && line == back[o..e]
    requires rest == back[if e < |back| then e + 1 else e..]
    ensures Yields(rem, line, rest)
  {
    LineEndShape(back, o);
    LineEndUnique(rem, 0, e - o);
  }

  /** The loop that calls next until it gives false. */
  method Collect(iter: Iter) returns (lines: seq<seq<Byte>>)
    requires iter.Valid() && iter.Fits()
    modifies iter, iter.maybe
    ensures lines == Lines(old(iter.Remaining()))
  {
    ghost var rem := iter.Remaining();
    ghost var all := Lines(rem);
    lines := [];
    var ok, line := iter.Next();
    while ok
      invariant iter.Valid()
      invariant all == lines + Lines(rem)
      invariant if ok then Yields(rem, line, iter.Remaining()) else rem == []
      decreases |rem|
    {
      LinesStep(rem, line, iter.Remaining());
      OneLineMore(all, lines, line, Lines(iter.Remaining()));
      lines := lines + [line];
      rem := iter.Remaining();
      ok, line := iter.Next();
    }
  }

  lemma OneLineMore(all: seq<seq<Byte>>, lines: seq<seq<Byte>>, line: seq<Byte>, rest: seq<seq<Byte>>)
    requires all == lines + ([line] + rest)
    ensures all == (lines + [line]) + rest
  {
  }

  /** Iterating from the start yields the lines of the text. */
  method AllLines(buff: GapBuffer) returns (lines: seq<seq<Byte>>)
    requires buff.Valid()
    requires GapLineLength(Bytes(buff.before), Bytes(buff.after)) <= 512
    ensures lines == Lines(Bytes(buff.before) + Bytes(buff.after))
  {
    buff.Sides();
    var iter := new Iter(buff);
    assert iter.front[0..] == iter.front;
    lines := Collect(iter);
  }
}
