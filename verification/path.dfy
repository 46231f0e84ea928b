/** Splitting a path into components, which resolves "." and "..", and printing the components again. */
module Path {
  import opened Wrappers

  const PATH_SEP: char := '/'

  /** The number of components that sanitize_path has room for. */
  const MAX_COMPS: nat := 64

  predicate IsPrint(c: char) {
    32 <= c as int < 127
  }

  predicate IsPcomp(c: char) {
    c != '/' && c != ':' && IsPrint(c)
  }

  /** The characters of a component; allow_ddots lets colons in. */
  predicate InComponent(c: char, allowDdots: bool) {
    IsPcomp(c) || (allowDdots && c == ':')
  }

  // ----- what a path means -----

  /** The next separator from i on, or the end. */
  function SegmentEnd(s: string, i: nat): (e: nat)
    requires i <= |s|
    ensures i <= e <= |s|
    decreases |s| - i
  {
    if i == |s| || s[i] == PATH_SEP then i else SegmentEnd(s, i + 1)
  }

  lemma {:induction false} SegmentEndUnique(s: string, i: nat, e: nat)
    requires i <= e <= |s| && (forall k :: i <= k < e ==> s[k] != PATH_SEP) && (e < |s| ==> s[e] == PATH_SEP)
    ensures SegmentEnd(s, i) == e
    decreases |s| - i
  {
    if i == e {
    } else {
      SegmentEndUnique(s, i + 1, e);
    }
  }

  lemma {:induction false} SegmentEndBehind(s: string, i: nat, e: nat)
    requires i <= e <= |s| && forall k :: i <= k < e ==> s[k] != PATH_SEP
    ensures SegmentEnd(s, i) == SegmentEnd(s, e)
    decreases |s| - i
  {
    if i == e {
    } else {
      SegmentEndBehind(s, i + 1, e);
    }
  }

  /** The text from i on, cut at its separators; nothing comes behind one that ends it. */
  function Segments(s: string, i: nat): seq<string>
    decreases |s| - i
  {
    if i >= |s| then [] else [s[i..SegmentEnd(s, i)]] + Segments(s, SegmentEnd(s, i) + 1)
  }

  /** The components of a path: a separator at its start is skipped. */
  function Components(s: string): seq<string> {
    Segments(s, if s != "" && s[0] == PATH_SEP then 1 else 0)
  }

  /** The components with a separator between them. */
  function Joined(comps: seq<string>): string {
    if comps == [] then ""
    else if |comps| == 1 then comps[0]
    else comps[0] + [PATH_SEP] + Joined(comps[1..])
  }

  /** A path without the separator at its start, and then without the one at its end. */
  function Behind(s: string): string {
    if s != "" && s[0] == '/' then s[1..] else s
  }

  function Before(s: string): string {
    if s != "" && s[|s| - 1] == '/' then s[..|s| - 1] else s
  }

  lemma {:induction false} SegmentsCons(s: string, i: nat)
    requires i < |s|
    ensures Segments(s, i) == [s[i..SegmentEnd(s, i)]] + Segments(s, SegmentEnd(s, i) + 1)
  {
  }

  /** Where the text ends, without a separator at its end and behind i. */
  function TextEnd(s: string, i: nat): nat
    requires i <= |s|
  {
    if i < |s| && s[|s| - 1] == '/' then |s| - 1 else |s|
  }

  lemma {:induction false} SegmentsJoin(s: string, i: nat)
    requires i <= |s|
    ensures Joined(Segments(s, i)) == s[i..TextEnd(s, i)]
    ensures Segments(s, i) == [] <==> i == |s|
    decreases |s| - i
  {
    if i == |s| {
    } else {
      var e := SegmentEnd(s, i);
      SegmentEndShape(s, i);
      SegmentsCons(s, i);
      if e + 1 < |s| {
        SegmentsJoin(s, e + 1);
        JoinMore(s, i, e, TextEnd(s, i), Segments(s, e + 1));
      } else {
        JoinLast(s, i, e, Segments(s, e + 1));
      }
    }
  }

  lemma {:induction false} JoinLast(s: string, i: nat, e: nat, rest: seq<string>)
    requires i <= e <= |s| && rest == []
    ensures Joined([s[i..e]] + rest) == s[i..e]
  {
    assert [s[i..e]] + rest == [s[i..e]];
  }

  lemma {:induction false} JoinMore(s: string, i: nat, e: nat, end: nat, rest: seq<string>)
    requires i <= e < end <= |s| && s[e] == '/' && rest != [] && Joined(rest) == s[e + 1..end]
    ensures Joined([s[i..e]] + rest) == s[i..end]
  {
    assert ([s[i..e]] + rest)[1..] == rest;
    assert s[i..end] == s[i..e] + ['/'] + s[e + 1..end];
  }

  lemma {:induction false} SegmentsHaveNone(s: string, i: nat)
    ensures forall k :: 0 <= k < |Segments(s, i)| ==> '/' !in Segments(s, i)[k]
    decreases |s| - i
  {
    if i >= |s| {
    } else {
      SegmentEndShape(s, i);
      SegmentsHaveNone(s, SegmentEnd(s, i) + 1);
    }
  }

  lemma {:induction false} SegmentEndShape(s: string, i: nat)
    requires i <= |s|
    ensures SegmentEnd(s, i) < |s| ==> s[SegmentEnd(s, i)] == '/'
    ensures forall k :: i <= k < SegmentEnd(s, i) ==> s[k] != '/'
    decreases |s| - i
  {
    if i == |s| || s[i] == PATH_SEP {
    } else {
      SegmentEndShape(s, i + 1);
    }
  }

  /** The components have no separators, and joined they are the path without its first separator, if it starts with
      one, and without its last, if it ends with one behind that. */
  lemma ComponentsJoin(s: string)
    ensures Joined(Components(s)) == Before(Behind(s))
    ensures Components(s) == [] <==> Behind(s) == ""
    ensures forall k :: 0 <= k < |Components(s)| ==> '/' !in Components(s)[k]
  {
    var i := if s != "" && s[0] == PATH_SEP then 1 else 0;
    SegmentsJoin(s, i);
    SegmentsHaveNone(s, i);
    assert s[i..] == Behind(s);
    assert s[i..TextEnd(s, i)] == Before(s[i..]);
  }

  /** t has the characters of s from d on, to its end. */
  predicate Shifted(t: string, s: string, d: nat) {
    |t| == d + |s| && forall k :: 0 <= k < |s| ==> t[d + k] == s[k]
  }

  /** Segments do not depend on what is before them. */
  lemma {:induction false} EndShifted(t: string, s: string, d: nat, i: nat)
    requires Shifted(t, s, d) && i <= |s|
    ensures SegmentEnd(t, d + i) == d + SegmentEnd(s, i)
    ensures t[d + i..d + SegmentEnd(s, i)] == s[i..SegmentEnd(s, i)]
  {
    SegmentEndShape(s, i);
    var e := SegmentEnd(s, i);
    forall k | d + i <= k < d + e ensures t[k] != PATH_SEP {
      assert t[d + (k - d)] == s[k - d];
    }
    if e < |s| { assert t[d + e] == s[e]; }
    SegmentEndUnique(t, d + i, d + e);
  }

  lemma {:induction false} SegmentsShifted(t: string, s: string, d: nat, i: nat)
    requires Shifted(t, s, d)
    ensures Segments(t, d + i) == Segments(s, i)
    decreases |s| - i
  {
    if i >= |s| {
    } else {
      EndShifted(t, s, d, i);
      SegmentsShifted(t, s, d, SegmentEnd(s, i) + 1);
      SegmentsCons(s, i);
      SegmentsCons(t, d + i);
    }
  }

  /** A path without a separator at its start means what it means with one. */
  lemma RelativeIsAbsolute(s: string, max: nat)
    requires s == "" || s[0] != '/'
    ensures Components("/" + s) == Components(s)
    ensures Sanitized("/" + s, max) == Sanitized(s, max)
  {
    SegmentsShifted("/" + s, s, 1, 0);
  }

  /** The characters of components: what is printable, except the separator and, unless they are let in, colons. */
  lemma ComponentCharacters(c: char, allowDdots: bool)
    ensures InComponent(c, allowDdots) <==> ' ' <= c <= '~' && c != '/' && (c == ':' ==> allowDdots)
  {
  }

  predicate WellFormed(comp: string, allowDdots: bool) {
    comp != "" && forall k :: 0 <= k < |comp| ==> InComponent(comp[k], allowDdots)
  }

  /** A component that names something. */
  predicate IsName(comp: string, allowDdots: bool) {
    WellFormed(comp, allowDdots) && comp != "." && comp != ".."
  }

  /** One component further, from the directory whose names are stack; there must still be room for a name. */
  function Enter(stack: seq<string>, comp: string, limit: nat, allowDdots: bool): Option<seq<string>> {
    if |stack| == limit || !WellFormed(comp, allowDdots) then None
    else if comp == ".." then if stack == [] then None else Some(stack[..|stack| - 1])
    else if comp == "." then Some(stack)
    else Some(stack + [comp])
  }

  /** Where the first n components lead from the root. */
  function Walk(comps: seq<string>, n: nat, limit: nat, allowDdots: bool): Option<seq<string>>
    requires n <= |comps|
  {
    if n == 0 then Some([])
    else
      match Walk(comps, n - 1, limit, allowDdots)
      case None => None
      case Some(stack) => Enter(stack, comps[n - 1], limit, allowDdots)
  }

  /** The names that a path leads to, or None if it is not accepted. */
  function Resolved(s: string, limit: nat, allowDdots: bool): Option<seq<string>> {
    Walk(Components(s), |Components(s)|, limit, allowDdots)
  }

  /** The first n names, each with a separator before it. */
  function PrintedTo(names: seq<string>, n: nat): string
    requires n <= |names|
  {
    if n == 0 then "" else PrintedTo(names, n - 1) + [PATH_SEP] + names[n - 1]
  }

  function Printed(names: seq<string>): string {
    PrintedTo(names, |names|)
  }

  // ----- splitting -----

  /** struct slice: a part of the path. */
  datatype Slice = Slice(start: nat, size: nat)

  function Text(src: string, comp: Slice): string
    requires comp.start + comp.size <= |src|
  {
    src[comp.start..comp.start + comp.size]
  }

  /** The slices have these texts. */
  ghost predicate Names(src: string, stack: seq<Slice>, names: seq<string>) {
    && |stack| == |names|
    && forall i :: 0 <= i < |stack| ==> stack[i].start + stack[i].size <= |src| && Text(src, stack[i]) == names[i]
  }

  /** Once a component is refused, the path is. */
  lemma {:induction false} RefusedStays(comps: seq<string>, n: nat, m: nat, limit: nat, allowDdots: bool)
    requires n <= m <= |comps| && Walk(comps, n, limit, allowDdots) == None
    ensures Walk(comps, m, limit, allowDdots) == None
  {
    if n == m {
    } else {
      RefusedStays(comps, n, m - 1, limit, allowDdots);
    }
  }

  lemma WalkOn(comps: seq<string>, n: nat, limit: nat, allowDdots: bool)
    requires n < |comps| && Walk(comps, n, limit, allowDdots).Some?
    ensures var next := Enter(Walk(comps, n, limit, allowDdots).value, comps[n], limit, allowDdots);
            && Walk(comps, n + 1, limit, allowDdots) == next
            && (next == None ==> Walk(comps, |comps|, limit, allowDdots) == None)
  {
    if Walk(comps, n + 1, limit, allowDdots) == None { RefusedStays(comps, n + 1, |comps|, limit, allowDdots); }
  }

  /** The inner loop of split_path_components: to the first character that no component has. */
  method ScanComponent(src: string, start: nat, allowDdots: bool) returns (cur: nat)
    requires start < |src|
    ensures start <= cur <= |src|
    ensures SegmentEnd(src, start) == SegmentEnd(src, cur)
    ensures WellFormed(src[start..SegmentEnd(src, start)], allowDdots) <==>
              cur > start && (cur == |src| || src[cur] == PATH_SEP)
    ensures (cur == |src| || src[cur] == PATH_SEP) ==> cur == SegmentEnd(src, start)
    ensures cur > start ==> WellFormed(src[start..cur], allowDdots)
  {
    cur := start;
    while cur < |src| && InComponent(src[cur], allowDdots)
      invariant start <= cur <= |src|
      invariant forall k :: start <= k < cur ==> InComponent(src[k], allowDdots)
    {
      cur := cur + 1;
    }
    SegmentEndBehind(src, start, cur);
    ghost var comp := src[start..SegmentEnd(src, start)];
    if cur < |src| && src[cur] != PATH_SEP {
      assert SegmentEnd(src, cur) > cur;
      assert comp[cur - start] == src[cur];
    }
  }

  /** What a component does to the stack: the new depth, or -1. */
  method EnterComponent(src: string, stack: array<Slice>, depth: nat, comp: Slice, limit: nat, allowDdots: bool,
                        ghost names: seq<string>) returns (depth': int)
    requires depth < limit <= stack.Length && comp.start + comp.size <= |src|
    requires Names(src, stack[..depth], names) && WellFormed(Text(src, comp), allowDdots)
    modifies stack
    ensures match Enter(names, Text(src, comp), limit, allowDdots)
            case None => depth' == -1
            case Some(names') => 0 <= depth' <= limit && Names(src, stack[..depth'], names')
  {
    var text := src[comp.start..comp.start + comp.size];
    if comp.size == 2 && text == ".." {
      if depth == 0 {
        return -1;
      }
      depth' := depth - 1;
    } else if comp.size != 1 || text != "." {
      stack[depth] := comp;
      depth' := depth + 1;
    } else {
      depth' := depth;
    }
  }

  /** One turn of the loop: the component that starts at cur. */
  method TakeComponent(src: string, stack: array<Slice>, depth: nat, start: nat, limit: nat, allowDdots: bool,
                       ghost names: seq<string>) returns (depth': int, cur: nat)
    requires depth <= limit <= stack.Length && start < |src| && Names(src, stack[..depth], names)
    modifies stack
    ensures match Enter(names, src[start..SegmentEnd(src, start)], limit, allowDdots)
            case None => depth' == -1
            case Some(names') =>
              0 <= depth' <= limit && Names(src, stack[..depth'], names') && cur == SegmentEnd(src, start)
  {
    if depth == limit {
      return -1, start;
    }
    cur := ScanComponent(src, start, allowDdots);
    if cur == start {
      return -1, cur;
    }
    depth' := EnterComponent(src, stack, depth, Slice(start, cur - start), limit, allowDdots, names);
    if cur < |src| && src[cur] != PATH_SEP {
      return -1, cur;
    }
  }

  /** The first n components are taken, and led to names, which the slices have; the rest starts at cur. */
  ghost predicate Taken(src: string, slices: seq<Slice>, cur: nat, comps: seq<string>, n: nat, names: seq<string>,
                        limit: nat, allowDdots: bool)
  {
    && n <= |comps| && comps[n..] == Segments(src, cur)
    && Walk(comps, n, limit, allowDdots) == Some(names)
    && Names(src, slices, names)
  }

  lemma AllTaken(src: string, slices: seq<Slice>, cur: nat, comps: seq<string>, n: nat, names: seq<string>,
                 limit: nat, allowDdots: bool)
    requires Taken(src, slices, cur, comps, n, names, limit, allowDdots) && cur >= |src|
    ensures Walk(comps, |comps|, limit, allowDdots) == Some(names)
  {
  }

  /** One turn of the loop, with what it does to the path. */
  method Turn(src: string, stack: array<Slice>, depth: nat, start: nat, limit: nat, allowDdots: bool,
              ghost comps: seq<string>, ghost n: nat, ghost names: seq<string>)
    returns (depth': int, cur: nat, ghost names': seq<string>)
    requires depth <= limit <= stack.Length && start < |src|
    requires Taken(src, stack[..depth], start, comps, n, names, limit, allowDdots)
    modifies stack
    ensures depth' < 0 ==> depth' == -1 && Walk(comps, |comps|, limit, allowDdots) == None
    ensures depth' >= 0 ==>
              && depth' <= limit && start <= cur <= |src|
              && Taken(src, stack[..depth'], cur + 1, comps, n + 1, names', limit, allowDdots)
  {
    OneTurn(src, start, comps, n, limit, allowDdots);
    depth', cur := TakeComponent(src, stack, depth, start, limit, allowDdots, names);
    names' := if depth' < 0 then names else Walk(comps, n + 1, limit, allowDdots).value;
  }

  /** split_path_components; the depth is -1 on failure. */
  method SplitPathComponents(src: string, stack: array<Slice>, limit: nat, allowDdots: bool) returns (depth: int)
    requires limit <= stack.Length
    modifies stack
    ensures match Resolved(src, limit, allowDdots)
            case None => depth == -1
            case Some(names) => 0 <= depth <= limit && Names(src, stack[..depth], names)
  {
    var cur := 0;
    if cur < |src| && src[cur] == PATH_SEP {
      cur := cur + 1;
    }
    ghost var comps, n, at := Components(src), 0, cur;
    ghost var names: seq<string> := [];
    depth := 0;
    while cur < |src|
      invariant 0 <= depth <= limit && at == cur
      invariant Taken(src, stack[..depth], at, comps, n, names, limit, allowDdots)
      decreases |src| - cur
    {
      depth, cur, names := Turn(src, stack, depth, cur, limit, allowDdots, comps, n, names);
      if depth < 0 {
        return;
      }
      n, at := n + 1, cur + 1;
      if cur == |src| {
        break;
      }
      cur := cur + 1;
    }
    AllTaken(src, stack[..depth], at, comps, n, names, limit, allowDdots);
  }

  lemma OneTurn(src: string, cur: nat, comps: seq<string>, n: nat, limit: nat, allowDdots: bool)
    requires cur < |src| && n <= |comps| && comps[n..] == Segments(src, cur)
    requires Walk(comps, n, limit, allowDdots).Some?
    ensures var e := SegmentEnd(src, cur);
            var next := Enter(Walk(comps, n, limit, allowDdots).value, src[cur..e], limit, allowDdots);
            && n < |comps| && comps[n + 1..] == Segments(src, e + 1)
            && (e == |src| ==> n + 1 == |comps|)
            && Walk(comps, n + 1, limit, allowDdots) == next
            && (next == None ==> Walk(comps, |comps|, limit, allowDdots) == None)
  {
    assert comps[n..][0] == comps[n] && comps[n..][1..] == comps[n + 1..];
    WalkOn(comps, n, limit, allowDdots);
  }

  // ----- printing -----

  /** The text of the first n names starts the text of all, and a separator follows it. */
  lemma {:induction false} PrintedAt(names: seq<string>, n: nat)
    requires n <= |names|
    ensures PrintedTo(names, n) <= Printed(names)
    ensures n < |names| ==> PrintedTo(names, n) + [PATH_SEP] <= Printed(names)
    decreases |names| - n
  {
    if n == |names| {
    } else {
      PrintedAt(names, n + 1);
    }
  }

  /** The first loop of sanitize_path: the number of bytes of the printed names. */
  method Required(src: string, stack: seq<Slice>, ghost names: seq<string>) returns (req: nat)
    requires Names(src, stack, names)
    ensures req == |Printed(names)|
  {
    req := |stack|;
    for i := 0 to |stack|
      invariant req + i == |stack| + |PrintedTo(names, i)|
    {
      req := req + stack[i].size;
    }
  }

  /** The second loop: it writes the names and the terminating null. */
  method Print(src: string, stack: seq<Slice>, mem: array<char>, ghost names: seq<string>) returns (n: nat)
    requires Names(src, stack, names) && |Printed(names)| < mem.Length
    modifies mem
    ensures n == |Printed(names)| && mem[..n + 1] == Printed(names) + ['\0'] && mem[n + 1..] == old(mem[n + 1..])
  {
    n := 0;
    ghost var end := |Printed(names)| + 1;
    for i := 0 to |stack|
      invariant n == |PrintedTo(names, i)| < mem.Length && mem[..n] == PrintedTo(names, i)
      invariant mem[end..] == old(mem[end..])
    {
      PrintedAt(names, i + 1);
      PrintOne(src, stack[i], mem, n, names[i]);
      n := n + 1 + stack[i].size;
    }
    mem[n] := '\0';
  }

  method PrintOne(src: string, comp: Slice, mem: array<char>, n: nat, ghost name: string)
    requires comp.start + comp.size <= |src| && Text(src, comp) == name && n + 1 + |name| < mem.Length
    modifies mem
    ensures mem[..n + 1 + |name|] == old(mem[..n]) + [PATH_SEP] + name
    ensures mem[n + 1 + |name|..] == old(mem[n + 1 + |name|..])
  {
    mem[n] := PATH_SEP;
    forall k | 0 <= k < comp.size { mem[n + 1 + k] := src[comp.start + k]; }
    assert mem[..n] == old(mem[..n]);
    assert mem[n + 1..n + 1 + |name|] == name;
  }

  /** The text that sanitize_path leaves in a buffer of max bytes. */
  function Sanitized(src: string, max: nat): Option<string> {
    match Resolved(src, MAX_COMPS, false)
    case None => None
    case Some(names) => if |Printed(names)| < max then Some(Printed(names)) else None
  }

  /** sanitize_path: the length of the text in mem, or None for -1. */
  method SanitizePath(src: string, mem: array<char>, max: nat) returns (r: Option<nat>)
    requires max <= mem.Length
    modifies mem
    ensures match Sanitized(src, max)
            case None => r == None && unchanged(mem)
            case Some(text) => r == Some(|text|) && mem[..|text| + 1] == text + ['\0']
                               && mem[|text| + 1..] == old(mem[|text| + 1..])
  {
    var stack := new Slice[MAX_COMPS];
    var depth := SplitPathComponents(src, stack, MAX_COMPS, false);
    if depth < 0 {
      return None;
    }
    ghost var names := Resolved(src, MAX_COMPS, false).value;
    var req := Required(src, stack[..depth], names);
    if req >= max {
      return None;
    }
    var n := Print(src, stack[..depth], mem, names);
    r := Some(n);
  }

  // ----- what sanitizing promises -----

  predicate AllNames(names: seq<string>, allowDdots: bool) {
    forall i :: 0 <= i < |names| ==> IsName(names[i], allowDdots)
  }

  /** A walk never ends deeper than the limit, and only names are on its stack. */
  lemma {:induction false} WalkIsClean(comps: seq<string>, n: nat, limit: nat, allowDdots: bool)
    requires n <= |comps|
    ensures var stack := Walk(comps, n, limit, allowDdots);
            stack.Some? ==> |stack.value| <= limit && AllNames(stack.value, allowDdots)
  {
    if n == 0 {
    } else {
      WalkIsClean(comps, n - 1, limit, allowDdots);
    }
  }

  /** Names lead to themselves. */
  lemma {:induction false} WalkOfNames(names: seq<string>, n: nat, limit: nat, allowDdots: bool)
    requires n <= |names| <= limit && AllNames(names, allowDdots)
    ensures Walk(names, n, limit, allowDdots) == Some(names[..n])
  {
    if n == 0 {
    } else {
      WalkOfNames(names, n - 1, limit, allowDdots);
      assert names[..n - 1] + [names[n - 1]] == names[..n];
    }
  }

  /** A printed text has its names as segments. */
  lemma {:induction false} SegmentsOfPrinted(names: seq<string>, n: nat, allowDdots: bool)
    requires AllNames(names, allowDdots) && n <= |names|
    ensures Segments(Printed(names), |PrintedTo(names, n)| + 1) == names[n..]
    decreases |names| - n
  {
    if n == |names| {
    } else {
      SegmentsOfPrinted(names, n + 1, allowDdots);
      SegmentOfName(names, n, allowDdots);
      assert names[n..] == [names[n]] + names[n + 1..];
    }
  }

  /** s is next, or goes on with a separator behind it. */
  predicate Starts(s: string, next: string) {
    next <= s && (|next| < |s| ==> s[|next|] == PATH_SEP)
  }

  lemma PrintedNext(names: seq<string>, n: nat)
    requires n < |names|
    ensures var next := PrintedTo(names, n + 1);
            && next == PrintedTo(names, n) + [PATH_SEP] + names[n]
            && Starts(Printed(names), next)
  {
    PrintedAt(names, n + 1);
  }

  lemma {:induction false} SegmentOfName(names: seq<string>, n: nat, allowDdots: bool)
    requires n < |names| && AllNames(names, allowDdots)
    ensures Segments(Printed(names), |PrintedTo(names, n)| + 1)
            == [names[n]] + Segments(Printed(names), |PrintedTo(names, n + 1)| + 1)
  {
    PrintedNext(names, n);
    OneSegment(Printed(names), PrintedTo(names, n), names[n], PrintedTo(names, n + 1), allowDdots);
  }

  lemma NameBehind(s: string, front: string, name: string, next: string)
    requires next == front + [PATH_SEP] + name && next <= s
    ensures |next| == |front| + 1 + |name| && s[|front| + 1..|next|] == name
  {
  }

  lemma {:induction false} OneSegment(s: string, front: string, name: string, next: string, allowDdots: bool)
    requires next == front + [PATH_SEP] + name && IsName(name, allowDdots)
    requires Starts(s, next)
    ensures Segments(s, |front| + 1) == [name] + Segments(s, |next| + 1)
  {
    NameBehind(s, front, name, next);
    SegmentIs(s, |front| + 1, |next|, name, allowDdots);
  }

  lemma {:induction false} SegmentIs(s: string, i: nat, e: nat, name: string, allowDdots: bool)
    requires i < e <= |s| && s[i..e] == name && IsName(name, allowDdots)
    requires e < |s| ==> s[e] == PATH_SEP
    ensures Segments(s, i) == [name] + Segments(s, e + 1)
  {
    forall k | i <= k < e ensures s[k] != PATH_SEP {
      assert s[k] == name[k - i];
    }
    SegmentEndUnique(s, i, e);
  }

  lemma ComponentsOfPrinted(names: seq<string>, allowDdots: bool)
    requires AllNames(names, allowDdots)
    ensures Components(Printed(names)) == names
  {
    if names != [] {
      PrintedAt(names, 0);
      SegmentsOfPrinted(names, 0, allowDdots);
    }
  }

  /** Splitting what was printed gives the same names back. */
  lemma SplitOfPrinted(names: seq<string>, limit: nat, allowDdots: bool)
    requires AllNames(names, allowDdots) && |names| <= limit
    ensures Resolved(Printed(names), limit, allowDdots) == Some(names)
  {
    ComponentsOfPrinted(names, allowDdots);
    WalkOfNames(names, |names|, limit, allowDdots);
    assert names[..|names|] == names;
  }

  /** A sanitized path is the text of at most 64 names, none empty, "." or "..", and these are its components. */
  lemma SanitizedIsClean(src: string, max: nat)
    requires Sanitized(src, max).Some?
    ensures var text := Sanitized(src, max).value;
            && |text| < max
            && AllNames(Components(text), false) && |Components(text)| <= MAX_COMPS && text == Printed(Components(text))
  {
    WalkIsClean(Components(src), |Components(src)|, MAX_COMPS, false);
    ComponentsOfPrinted(Resolved(src, MAX_COMPS, false).value, false);
  }

  /** The promised form, with a separator at the start and none at the end, ... */
  predicate Promised(text: string) {
    text != "" && text[0] == PATH_SEP && text[|text| - 1] != PATH_SEP
  }

  lemma PrintedForm(names: seq<string>, allowDdots: bool)
    requires AllNames(names, allowDdots)
    ensures if names == [] then Printed(names) == "" else Promised(Printed(names))
  {
    if names != [] {
      var text, last := Printed(names), names[|names| - 1];
      PrintedAt(names, 0);
      assert text[0] == PATH_SEP;
      assert text[|text| - 1] == last[|last| - 1];
    }
  }

  /** The lengths of the names, with a separator for each. */
  function TotalLength(names: seq<string>, n: nat): nat
    requires n <= |names|
  {
    if n == 0 then 0 else TotalLength(names, n - 1) + 1 + |names[n - 1]|
  }

  lemma {:induction false} PrintedLength(names: seq<string>, n: nat)
    requires n <= |names|
    ensures |PrintedTo(names, n)| == TotalLength(names, n)
  {
    if n == 0 {
    } else {
      PrintedLength(names, n - 1);
    }
  }

  /** Which paths are sanitized: those whose components are all accepted, with room for 64 names, if the names with
      their separators and a null byte fit into the buffer. */
  lemma SanitizesExactly(src: string, max: nat)
    ensures var comps := Components(src);
            Sanitized(src, max).Some? <==>
            && (forall i :: 0 <= i < |comps| ==> Accepts(comps, i, 64, false)) && Resolved(src, 64, false).Some?
            && TotalLength(Resolved(src, 64, false).value, |Resolved(src, 64, false).value|) + 1 <= max
  {
    AcceptedPaths(src, 64, false);
    if Resolved(src, 64, false).Some? {
      PrintedLength(Resolved(src, 64, false).value, |Resolved(src, 64, false).value|);
    }
  }

  /** Sanitizing a second time changes nothing. */
  lemma SanitizeTwice(src: string, max: nat)
    requires Sanitized(src, max).Some?
    ensures Sanitized(Sanitized(src, max).value, max) == Sanitized(src, max)
  {
    WalkIsClean(Components(src), |Components(src)|, MAX_COMPS, false);
    SplitOfPrinted(Resolved(src, MAX_COMPS, false).value, MAX_COMPS, false);
  }

  // ----- exactly which paths are accepted, and where they lead -----

  /** How deep below the root the first n components lead. */
  function Depth(comps: seq<string>, n: nat): int
    requires n <= |comps|
  {
    if n == 0 then 0
    else Depth(comps, n - 1) + if comps[n - 1] == ".." then -1 else if comps[n - 1] == "." then 0 else 1
  }

  /** The i-th component is well formed, is not met at the limit, and does not climb above the root. */
  predicate Accepts(comps: seq<string>, i: nat, limit: nat, allowDdots: bool)
    requires i < |comps|
  {
    WellFormed(comps[i], allowDdots) && Depth(comps, i) != limit && Depth(comps, i + 1) >= 0
  }

  /** Of the first n components the i-th names the directory at depth d for good: nothing behind it climbs out again. */
  predicate NamesLevel(comps: seq<string>, n: nat, i: nat, d: nat)
    requires i < n <= |comps|
  {
    && Depth(comps, i) == d && comps[i] != "." && comps[i] != ".."
    && forall j :: i < j <= n ==> Depth(comps, j) > d
  }

  /** One of the components names the directory at depth d, and it is name. */
  ghost predicate LeadsTo(comps: seq<string>, d: nat, name: string) {
    exists i: nat :: i < |comps| && NamesLevel(comps, |comps|, i, d) && comps[i] == name
  }

  /** Components are accepted exactly when each of them is. */
  lemma {:induction false} WalkSucceeds(comps: seq<string>, n: nat, limit: nat, allowDdots: bool)
    requires n <= |comps|
    ensures Walk(comps, n, limit, allowDdots).Some? <==> forall i :: 0 <= i < n ==> Accepts(comps, i, limit, allowDdots)
    ensures Walk(comps, n, limit, allowDdots).Some? ==> |Walk(comps, n, limit, allowDdots).value| == Depth(comps, n)
  {
    if n == 0 {
    } else {
      WalkSucceeds(comps, n - 1, limit, allowDdots);
      assert Accepts(comps, n - 1, limit, allowDdots) <==>
             WellFormed(comps[n - 1], allowDdots) && Depth(comps, n - 1) != limit && Depth(comps, n) >= 0;
    }
  }

  /** The names that are left are those that nothing climbs out of again. */
  lemma {:induction false} WalkLeads(comps: seq<string>, n: nat, limit: nat, allowDdots: bool, d: nat) returns (i: nat)
    requires n <= |comps| && Walk(comps, n, limit, allowDdots).Some?
    requires d < |Walk(comps, n, limit, allowDdots).value|
    ensures i < n && NamesLevel(comps, n, i, d) && comps[i] == Walk(comps, n, limit, allowDdots).value[d]
  {
    WalkSucceeds(comps, n - 1, limit, allowDdots);
    WalkSucceeds(comps, n, limit, allowDdots);
    if d < |Walk(comps, n - 1, limit, allowDdots).value| {
      i := WalkLeads(comps, n - 1, limit, allowDdots, d);
    } else {
      i := n - 1;
    }
  }

  /** ... is met by every sanitized path except those that lead to the root, whose text is empty. */
  lemma SanitizedForm(src: string, max: nat)
    requires Sanitized(src, max).Some?
    ensures var text, depth := Sanitized(src, max).value, Depth(Components(src), |Components(src)|);
            && depth >= 0
            && (Promised(text) <==> depth > 0)
            && (text == "" <==> depth == 0)
  {
    var comps := Components(src);
    WalkSucceeds(comps, |comps|, MAX_COMPS, false);
    WalkIsClean(comps, |comps|, MAX_COMPS, false);
    PrintedForm(Resolved(src, MAX_COMPS, false).value, false);
  }

  /** The shortest such path is the root itself. */
  lemma SanitizedRoot(max: nat)
    ensures Sanitized("/", max) == if max > 0 then Some("") else None
    ensures !Promised("")
  {
    assert Components("/") == [];
  }

  /** A path is accepted exactly when each of its components is, and leads to the names that nothing climbs out of. */
  lemma AcceptedPaths(src: string, limit: nat, allowDdots: bool)
    ensures var comps := Components(src);
            && (Resolved(src, limit, allowDdots).Some? <==>
                forall i :: 0 <= i < |comps| ==> Accepts(comps, i, limit, allowDdots))
            && (Resolved(src, limit, allowDdots).Some? ==>
                var names := Resolved(src, limit, allowDdots).value;
                && |names| == Depth(comps, |comps|)
                && forall d :: 0 <= d < |names| ==> LeadsTo(comps, d, names[d]))
  {
    var comps := Components(src);
    WalkSucceeds(comps, |comps|, limit, allowDdots);
    if Resolved(src, limit, allowDdots).Some? {
      var names := Resolved(src, limit, allowDdots).value;
      forall d | 0 <= d < |names| ensures LeadsTo(comps, d, names[d]) {
        var i := WalkLeads(comps, |comps|, limit, allowDdots, d);
      }
    }
  }
}
