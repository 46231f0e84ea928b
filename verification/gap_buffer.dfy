/** The gap buffer: an array of bytes with a gap at the cursor, as an editor over symbols before and behind it. */
module GapBuffers {
  import opened Wrappers
  import opened Utf8
  import opened Words
  import opened Alignment

  function Min(a: nat, b: nat): nat { if a < b then a else b }

  /** The bytes of the struct that precede the data. */
  datatype Header = Header(alignLog2: nat, len: nat)

  /** The capacity that a region of len bytes at mem has room for; None when it cannot even hold the struct. */
  datatype Capacity = TooSmall | Room(bytes: nat)

  function CapacityOf(mem: nat, len: nat, h: Header): Capacity
    requires mem <= WORD
  {
    if mem == 0 || len < Pad(mem, h.alignLog2) + h.len then TooSmall
    else Room(len - Pad(mem, h.alignLog2) - h.len)
  }

  /** Padding, header and data fill the region. */
  lemma CapacityFills(mem: nat, len: nat, h: Header)
    requires mem + len <= WORD
    ensures CapacityOf(mem, len, h) == TooSmall <==> mem == 0 || AlignUp(mem, h.alignLog2) + h.len > mem + len
    ensures CapacityOf(mem, len, h).Room? ==>
              AlignUp(mem, h.alignLog2) + h.len + CapacityOf(mem, len, h).bytes == mem + len
  {
  }

  /** All bytes of a text are behind k of its symbols only if these are all its symbols. */
  lemma {:induction false} EndReached(t: Text, k: nat)
    requires IsText(t) && k <= |t|
    ensures |Bytes(t[..k])| <= |Bytes(t)|
    ensures |Bytes(t[..k])| == |Bytes(t)| <==> k == |t|
  {
    BytesSplit(t, k);
    if k == |t| {
      assert t[k..] == [];
    } else {
      BytesFirst(t, k);
    }
  }

  lemma {:induction false} StartReached(t: Text, k: nat)
    requires IsText(t) && k <= |t|
    ensures |Bytes(t[..k])| == 0 <==> k == 0
  {
    if k > 0 { BytesFirst(t[..k], 0); }
  }

  /** memcpy of str to dst in s. */
  function Overwritten(s: seq<Byte>, dst: nat, str: seq<Byte>): seq<Byte>
    requires dst + |str| <= |s|
  {
    s[..dst] + str + s[dst + |str|..]
  }

  /** memmove of n bytes from src to dst inside s. */
  function Moved(s: seq<Byte>, dst: nat, src: nat, n: nat): seq<Byte>
    requires dst + n <= |s| && src + n <= |s|
  {
    Overwritten(s, dst, s[src..src + n])
  }

  /** Byte by byte. */
  lemma OverwrittenIs(s: seq<Byte>, now: seq<Byte>, dst: nat, str: seq<Byte>)
    requires |now| == |s| && dst + |str| <= |s|
    requires forall k :: 0 <= k < |s| ==> now[k] == if dst <= k < dst + |str| then str[k - dst] else s[k]
    ensures now == Overwritten(s, dst, str)
  {
  }

  /** Data whose parts outside the gap, which has l bytes from o on, are the bytes of b and of a. */
  predicate Splits(s: seq<Byte>, o: nat, l: nat, b: Text, a: Text) {
    o + l <= |s| && IsText(b) && IsText(a) && s[..o] == Bytes(b) && s[o + l..] == Bytes(a)
  }

  lemma MovedRight(s: seq<Byte>, now: seq<Byte>, o: nat, l: nat, num: nat)
    requires o + l <= |s| && num <= o && now == Moved(s, o + l - num, o - num, num)
    ensures now[..o - num] == s[..o - num]
    ensures now[o - num + l..] == s[o - num..o] + s[o + l..]
  {
  }

  lemma MovedLeft(s: seq<Byte>, now: seq<Byte>, o: nat, l: nat, num: nat)
    requires o + l + num <= |s| && now == Moved(s, o, o + l, num)
    ensures now[..o + num] == s[..o] + s[o + l..o + l + num]
    ensures now[o + num + l..] == s[o + l + num..]
  {
  }

  /** Moving the bytes of the symbols of b from k on behind the gap, ... */
  lemma {:induction false} SlidRight(s: seq<Byte>, now: seq<Byte>, o: nat, l: nat, b: Text, a: Text, k: nat, num: nat)
    requires Splits(s, o, l, b, a) && k <= |b| && num + |Bytes(b[..k])| == o
    requires now == Moved(s, o + l - num, o - num, num)
    ensures Splits(now, o - num, l, b[..k], b[k..] + a)
  {
    BytesSplit(b, k);
    BytesAppend(b[k..], a);
    TextParts(b, k);
    TextJoin(b[k..], a);
    MovedRight(s, now, o, l, num);
    assert s[..o - num] == s[..o][..o - num] && s[o - num..o] == s[..o][o - num..];
  }

  /** ... or those of the first k symbols of a before it. */
  lemma {:induction false} SlidLeft(s: seq<Byte>, now: seq<Byte>, o: nat, l: nat, b: Text, a: Text, k: nat, num: nat)
    requires Splits(s, o, l, b, a) && k <= |a| && num == |Bytes(a[..k])|
    requires o + l + num <= |s| && now == Moved(s, o, o + l, num)
    ensures Splits(now, o + num, l, b + a[..k], a[k..])
  {
    BytesSplit(a, k);
    BytesAppend(b, a[..k]);
    TextParts(a, k);
    TextJoin(b, a[..k]);
    MovedLeft(s, now, o, l, num);
    assert s[o + l..o + l + num] == s[o + l..][..num] && s[o + l + num..] == s[o + l..][num..];
  }

  /** Copying the bytes of t to the front of the gap, ... */
  lemma {:induction false} FilledFront(s: seq<Byte>, now: seq<Byte>, o: nat, l: nat, b: Text, a: Text, t: Text)
    requires Splits(s, o, l, b, a) && IsText(t) && |Bytes(t)| <= l
    requires now == Overwritten(s, o, Bytes(t))
    ensures var n := |Bytes(t)|; Splits(now, o + n, l - n, b + t, a)
  {
    BytesAppend(b, t);
    TextJoin(b, t);
    var n := |Bytes(t)|;
    assert now[..o + n] == s[..o] + Bytes(t);
    assert now[o + l..] == s[o + l..];
  }

  /** ... or to its end. */
  lemma {:induction false} FilledBack(s: seq<Byte>, now: seq<Byte>, o: nat, l: nat, b: Text, a: Text, t: Text)
    requires Splits(s, o, l, b, a) && IsText(t) && |Bytes(t)| <= l
    requires now == Overwritten(s, o + l - |Bytes(t)|, Bytes(t))
    ensures var n := |Bytes(t)|; Splits(now, o, l - n, b, t + a)
  {
    BytesAppend(t, a);
    TextJoin(t, a);
    var n := |Bytes(t)|;
    assert now[..o] == s[..o];
    assert now[o + l - n..] == Bytes(t) + s[o + l..];
  }

  class GapBuffer {
    const data: array<Byte>
    var gapOffset: nat
    var gapLength: nat
    ghost var before: Text
    ghost var after: Text

    ghost predicate Valid()
      reads this, data
    {
      Splits(data[..], gapOffset, gapLength, before, after)
    }

    /** The bytes before and behind the gap. */
    lemma Sides()
      requires Valid()
      ensures gapOffset + gapLength <= data.Length
      ensures data[..gapOffset] == Bytes(before) && data[gapOffset + gapLength..] == Bytes(after)
    {
      assert data[..gapOffset] == data[..][..gapOffset];
      assert data[gapOffset + gapLength..] == data[..][gapOffset + gapLength..];
    }

    /** Both sides pass the validator of the code, and read as the symbols of the editor. */
    lemma SidesValid()
      requires Valid()
      ensures gapOffset + gapLength <= data.Length
      ensures IsValid(data[..gapOffset]) && Symbols(data[..gapOffset]) == before
      ensures IsValid(data[gapOffset + gapLength..]) && Symbols(data[gapOffset + gapLength..]) == after
    {
      Sides();
      ValidOfSymbols(before);
      ValidOfSymbols(after);
    }

    constructor (capacity: nat)
      ensures Valid() && fresh(data) && data.Length == capacity
      ensures before == [] && after == [] && gapOffset == 0 && gapLength == capacity
    {
      data := new Byte[capacity];
      gapOffset, gapLength := 0, capacity;
      before, after := [], [];
    }

    /** GapBuffer_createUsingMemory */
    static method CreateUsingMemory(mem: nat, len: nat, h: Header) returns (buff: GapBuffer?)
      requires mem + len <= WORD
      ensures buff == null <==> CapacityOf(mem, len, h) == TooSmall
      ensures buff != null ==>
                && fresh(buff) && fresh(buff.data) && buff.Valid()
                && buff.data.Length == buff.gapLength == CapacityOf(mem, len, h).bytes
                && buff.before == [] && buff.after == []
      ensures buff == null <==> mem == 0 || AlignUp(mem, h.alignLog2) + h.len > mem + len
      ensures buff != null ==> AlignUp(mem, h.alignLog2) + h.len + buff.data.Length == mem + len
    {
      if mem == 0 { return null; }
      var pad := Pad(mem, h.alignLog2);
      if len < pad { return null; }
      var rest := len - pad;
      if rest < h.len { return null; }
      buff := new GapBuffer(rest - h.len);
    }

    // ----- insertion -----

    /** insertBytesBeforeCursor, with the bytes of some symbols */
    method InsertBytesBeforeCursor(str: seq<Byte>, ghost t: Text) returns (ok: bool)
      requires Valid() && IsText(t) && str == Bytes(t)
      modifies this, data
      ensures Valid()
      ensures ok <==> |str| <= old(gapLength)
      ensures ok ==> before == old(before) + t && after == old(after)
      ensures ok ==> gapLength == old(gapLength) - |str|
      ensures !ok ==> unchanged(this) && unchanged(data)
    {
      if gapLength < |str| { return false; }
      ghost var was := data[..];
      Memcpy(gapOffset, str);
      ghost var now := data[..];
      FilledFront(was, now, gapOffset, gapLength, before, after, t);
      gapOffset, gapLength := gapOffset + |str|, gapLength - |str|;
      before := before + t;
      assert data[..] == now;
      return true;
    }

    /** memcpy into the data */
    method Memcpy(dst: nat, src: seq<Byte>)
      requires dst + |src| <= data.Length
      modifies data
      ensures data[..] == Overwritten(old(data[..]), dst, src)
    {
      ghost var was := data[..];
      forall k | 0 <= k < |src| { data[dst + k] := src[k]; }
      OverwrittenIs(was, data[..], dst, src);
    }

    /** insertBytesAfterCursor, with the bytes of some symbols */
    method InsertBytesAfterCursor(str: seq<Byte>, ghost t: Text) returns (ok: bool)
      requires Valid() && IsText(t) && str == Bytes(t)
      modifies this, data
      ensures Valid()
      ensures ok <==> |str| <= old(gapLength)
      ensures ok ==> before == old(before) && after == t + old(after)
      ensures !ok ==> unchanged(this) && unchanged(data)
    {
      if gapLength < |str| { return false; }
      ghost var was := data[..];
      Memcpy(gapOffset + gapLength - |str|, str);
      ghost var now := data[..];
      FilledBack(was, now, gapOffset, gapLength, before, after, t);
      gapLength := gapLength - |str|;
      after := t + after;
      assert data[..] == now;
      return true;
    }

    /** GapBuffer_insertString */
    method InsertString(str: seq<Byte>) returns (ok: bool)
      requires Valid()
      modifies this, data
      ensures Valid()
      ensures ok <==> IsValid(str) && |str| <= old(gapLength)
      ensures ok ==> before == old(before) + Symbols(str) && after == old(after)
      ensures !ok ==> unchanged(this) && unchanged(data)
    {
      var valid := CheckUtf8(str);
      if !valid { return false; }
      SymbolsOfValid(str);
      ok := InsertBytesBeforeCursor(str, Symbols(str));
    }

    /** GapBuffer_cloneUsingMemory */
    static method CloneUsingMemory(mem: nat, len: nat, h: Header, src: GapBuffer) returns (clone: GapBuffer?)
      requires mem + len <= WORD && src.Valid()
      ensures clone != null <==>
                CapacityOf(mem, len, h).Room? && CapacityOf(mem, len, h).bytes >= src.data.Length - src.gapLength
      ensures clone != null ==>
                && fresh(clone) && fresh(clone.data) && clone.Valid()
                && clone.before == src.before && clone.after == src.after
                && clone.data.Length == CapacityOf(mem, len, h).bytes
      ensures clone != null <==>
                mem != 0 && AlignUp(mem, h.alignLog2) + h.len + |Bytes(src.before)| + |Bytes(src.after)| <= mem + len
      ensures clone != null ==> AlignUp(mem, h.alignLog2) + h.len + clone.data.Length == mem + len
    {
      src.Sides();
      clone := CreateUsingMemory(mem, len, h);
      if clone == null { return; }
      var ok := clone.InsertBytesBeforeCursor(src.data[..src.gapOffset], src.before);
      if !ok { return null; }
      ok := clone.InsertBytesAfterCursor(src.data[src.gapOffset + src.gapLength..], src.after);
      if !ok { return null; }
    }

    // ----- scanning -----

    /** The offset of the k-th symbol before the cursor, counted from the front. */
    ghost function OffsetBefore(k: nat): nat
      reads this
      requires k <= |before|
    {
      |Bytes(before[..k])|
    }

    /** getPrecedingSymbol. The assert of the inner loop never fires. */
    method GetPrecedingSymbol(num0: nat) returns (i: nat)
      requires Valid()
      ensures i == OffsetBefore(|before| - Min(num0, |before|)) <= gapOffset
    {
      var num := num0;
      i := gapOffset;
      ghost var k: nat := |before|;
      assert before[..k] == before;
      while num > 0 && i > 0
        invariant k <= |before| && i == OffsetBefore(k) <= gapOffset
        invariant |before| - k + num == num0
        decreases num
      {
        FirstNotEmpty(k);
        i := StepBack(i, k);
        k := k - 1;
        num := num - 1;
      }
      FirstNotEmpty(k);
    }

    /** Only the empty text has no bytes. */
    lemma {:induction false} FirstNotEmpty(k: nat)
      requires Valid() && k <= |before|
      ensures OffsetBefore(k) == 0 <==> k == 0
    {
      if k > 0 { BytesLast(before, k - 1); }
    }

    /** Where the bytes of the k-th symbol are. */
    lemma {:induction false} SymbolBefore(k: nat)
      requires Valid() && 0 < k <= |before|
      ensures var x, p := before[k - 1], OffsetBefore(k - 1);
              && p + |x| == OffsetBefore(k) <= gapOffset <= data.Length && IsSymbol(x)
              && forall j :: 0 <= j < |x| ==> data[p + j] == x[j]
    {
      BytesLast(before, k - 1);
      BytesSplit(before, k);
      var x, p := before[k - 1], OffsetBefore(k - 1);
      forall j | 0 <= j < |x| ensures data[p + j] == x[j] {
        assert data[..gapOffset][p + j] == Bytes(before)[p + j] == Bytes(before[..k])[p + j];
      }
    }

    /** The inner loop: over the auxiliary bytes of the k-th symbol to its lead byte. */
    method StepBack(i0: nat, ghost k: nat) returns (i: nat)
      requires Valid() && 0 < k <= |before| && i0 == OffsetBefore(k) <= gapOffset
      ensures i == OffsetBefore(k - 1) < i0
    {
      ghost var x, p := before[k - 1], OffsetBefore(k - 1);
      SymbolBefore(k);
      SymbolShape(x);
      i := i0;
      assert i > 0;
      i := i - 1;
      while IsAux(data[i])
        invariant p <= i < i0
        decreases i
      {
        assert data[i] == x[i - p];
        assert i > 0;
        i := i - 1;
      }
      assert data[i] == x[i - p];
    }

    /** The offset behind the first k symbols behind the cursor. */
    ghost function OffsetAfter(k: nat): nat
      reads this
      requires k <= |after|
    {
      gapOffset + gapLength + |Bytes(after[..k])|
    }

    /** getFollowingSymbol: never past the end of the data. */
    method GetFollowingSymbol(num0: nat) returns (i: nat)
      requires Valid()
      ensures i == OffsetAfter(Min(num0, |after|)) <= data.Length
      ensures num0 >= |after| ==> i == data.Length
      ensures num0 > |after| ==> (i == 0 <==> data.Length == 0)
    {
      var num := num0;
      i := gapOffset + gapLength;
      ghost var k: nat := 0;
      assert after[..0] == [];
      assert data[i..i + |Bytes(after)|] == Bytes(after);
      while num > 0 && i < data.Length
        invariant k <= |after| && i == OffsetAfter(k) <= data.Length
        invariant k + num == num0
        decreases num
      {
        LeadTellsLength(i, after, k, gapOffset + gapLength);
        i := i + LengthFromFirst(data[i]);
        k := k + 1;
        num := num - 1;
      }
      EndReached(after, k);
    }

    /** From the lead byte of symbol k of t, which starts at base, its length leads to the next symbol. */
    lemma {:induction false} LeadTellsLength(i: nat, t: Text, k: nat, base: nat)
      requires IsText(t) && k <= |t| && i < data.Length
      requires base + |Bytes(t)| <= data.Length && i == base + |Bytes(t[..k])|
      requires data[base..base + |Bytes(t)|] == Bytes(t)
      requires i < base + |Bytes(t)|
      ensures k < |t|
      ensures i + LengthFromFirst(data[i]) == base + |Bytes(t[..k + 1])| <= base + |Bytes(t)|
    {
      assert k < |t| by { assert t[..|t|] == t; }
      BytesLast(t, k);
      BytesSplit(t, k);
      BytesFirst(t, k);
      BytesSplit(t, k + 1);
      SymbolShape(t[k]);
      assert data[i] == data[base..base + |Bytes(t)|][i - base] == Bytes(t)[i - base] == t[k][0];
    }

    // ----- removal -----

    /** GapBuffer_removeForwards */
    method RemoveForwards(num: nat)
      requires Valid()
      modifies `gapLength, `after
      ensures Valid()
      ensures after == old(after)[Min(num, |old(after)|)..]
    {
      var i := GetFollowingSymbol(num);
      ghost var k := Min(num, |after|);
      BytesSplit(after, k);
      assert data[i..] == data[gapOffset + gapLength..][|Bytes(after[..k])|..];
      gapLength := i - gapOffset;
      after := after[k..];
    }

    /** GapBuffer_removeBackwards */
    method RemoveBackwards(num: nat)
      requires Valid()
      modifies `gapLength, `gapOffset, `before
      ensures Valid()
      ensures before == old(before)[..|old(before)| - Min(num, |old(before)|)]
    {
      var i := GetPrecedingSymbol(num);
      ghost var k := |before| - Min(num, |before|);
      BytesSplit(before, k);
      assert data[..i] == data[..gapOffset][..i];
      gapLength := gapLength + (gapOffset - i);
      gapOffset := i;
      before := before[..k];
    }

    // ----- moving the cursor -----

    /** memmove inside the data: the n bytes from src on are read before any is written. */
    method Memmove(dst: nat, src: nat, n: nat)
      requires dst + n <= data.Length && src + n <= data.Length
      modifies data
      ensures data[..] == Moved(old(data[..]), dst, src, n)
    {
      ghost var was := data[..];
      forall k | 0 <= k < n { data[dst + k] := data[src + k]; }
      OverwrittenIs(was, data[..], dst, was[src..src + n]);
    }

    /** moveBytesAfterGap, for the bytes of whole symbols: its asserts hold, and the symbols from k on end up behind
        the gap. */
    method MoveBytesAfterGap(num: nat, ghost k: nat)
      requires Valid() && k <= |before| && num == gapOffset - OffsetBefore(k)
      modifies this, data
      ensures Valid() && before == old(before)[..k] && after == old(before)[k..] + old(after)
    {
      assert gapOffset >= num && gapOffset + gapLength <= data.Length;
      ghost var was := data[..];
      Memmove(gapOffset + gapLength - num, gapOffset - num, num);
      ghost var now := data[..];
      SlidRight(was, now, gapOffset, gapLength, before, after, k, num);
      ShiftGap(gapOffset - num, before[..k], before[k..] + after);
    }

    /** The gap starts at offset now, between the symbols of b and of a. */
    method ShiftGap(offset: nat, ghost b: Text, ghost a: Text)
      requires Splits(data[..], offset, gapLength, b, a)
      modifies `gapOffset, `before, `after
      ensures Valid() && gapOffset == offset && before == b && after == a
    {
      gapOffset := offset;
      before, after := b, a;
    }

    lemma {:induction false} BytesFit(k: nat)
      requires Valid() && k <= |after|
      ensures data.Length - gapOffset - gapLength >= |Bytes(after[..k])|
    {
      EndReached(after, k);
    }

    /** moveBytesBeforeGap, for the bytes of whole symbols: its asserts hold, and the first k symbols behind the gap
        end up before it. */
    method MoveBytesBeforeGap(num: nat, ghost k: nat)
      requires Valid() && k <= |after| && num == |Bytes(after[..k])|
      modifies this, data
      ensures Valid() && before == old(before) + old(after)[..k] && after == old(after)[k..]
    {
      ghost var was := data[..];
      BytesFit(k);
      assert data.Length - gapOffset - gapLength >= num;
      Memmove(gapOffset, gapOffset + gapLength, num);
      ghost var now := data[..];
      SlidLeft(was, now, gapOffset, gapLength, before, after, k, num);
      ShiftGap(gapOffset + num, before + after[..k], after[k..]);
    }

    /** GapBuffer_moveRelative */
    method MoveRelative(off: int)
      requires Valid()
      modifies this, data
      ensures Valid()
      ensures At(before, after, old(before + after), Clamp(|old(before)| + off, |old(before + after)|))
    {
      if off < 0 {
        MoveBack(-off);
      } else {
        MoveOn(off);
      }
    }

    method MoveBack(num: nat)
      requires Valid()
      modifies this, data
      ensures Valid()
      ensures At(before, after, old(before + after), |old(before)| - Min(num, |old(before)|))
    {
      CursorLeft(before, after, |before| - Min(num, |before|));
      var i := GetPrecedingSymbol(num);
      MoveBytesAfterGap(gapOffset - i, |before| - Min(num, |before|));
    }

    method MoveOn(num: nat)
      requires Valid()
      modifies this, data
      ensures Valid()
      ensures At(before, after, old(before + after), |old(before)| + Min(num, |old(after)|))
    {
      CursorRight(before, after, Min(num, |after|));
      var i := GetFollowingSymbol(num);
      MoveBytesBeforeGap(i - gapOffset - gapLength, Min(num, |after|));
    }

    /** The offset behind the first k symbols of the text, with the gap jumped over when the cursor is reached. */
    ghost function OffsetOf(k: nat): nat
      reads this
      requires k <= |before + after|
    {
      if k < |before| then OffsetBefore(k) else OffsetAfter(k - |before|)
    }

    /** The scan of GapBuffer_moveAbsolute. */
    method ScanFromStart(num0: nat) returns (i: nat)
      requires Valid()
      ensures i == OffsetOf(Min(num0, |before + after|))
    {
      var num := num0;
      i := if gapOffset > 0 then 0 else gapLength;
      ghost var k: nat := 0;
      FirstNotEmpty(|before|);
      assert before[..|before|] == before && before[..0] == [] && after[..0] == [];
      while num > 0 && i < data.Length
        invariant k <= |before + after| && i == OffsetOf(k) && k + num == num0
        decreases num
      {
        ScanStep(i, k);
        i := i + LengthFromFirst(data[i]);
        if i == gapOffset { i := i + gapLength; }
        k := k + 1;
        num := num - 1;
      }
      OffsetInside(k);
    }

    /** One turn of the scan, on either side of the gap. */
    lemma {:induction false} ScanStep(i: nat, k: nat)
      requires Valid() && k <= |before + after| && i == OffsetOf(k) && i < data.Length
      ensures k < |before + after|
      ensures var j := i + LengthFromFirst(data[i]);
              OffsetOf(k + 1) == if j == gapOffset then j + gapLength else j
    {
      OffsetInside(k);
      if k < |before| {
        LeadTellsLength(i, before, k, 0);
        EndReached(before, k + 1);
        assert after[..0] == [];
      } else {
        assert data[gapOffset + gapLength..gapOffset + gapLength + |Bytes(after)|] == Bytes(after);
        LeadTellsLength(i, after, k - |before|, gapOffset + gapLength);
        SymbolShape(after[k - |before|]);
      }
    }

    lemma {:induction false} OffsetInside(k: nat)
      requires Valid() && k <= |before + after|
      ensures OffsetOf(k) <= data.Length
      ensures k < |before| ==> OffsetOf(k) < gapOffset
      ensures k >= |before| ==> (OffsetOf(k) == data.Length <==> k == |before + after|)
    {
      if k < |before| {
        EndReached(before, k);
      } else {
        EndReached(after, k - |before|);
      }
    }

    /** GapBuffer_moveAbsolute */
    method MoveAbsolute(num: nat)
      requires Valid()
      modifies this, data
      ensures Valid()
      ensures At(before, after, old(before + after), Min(num, |old(before + after)|))
    {
      var i := ScanFromStart(num);
      ghost var k := Min(num, |before + after|);
      OffsetInside(k);
      if i <= gapOffset {
        if k >= |before| { StartReached(after, k - |before|); }
        assert before[..|before|] == before && after[..0] == [];
        CursorLeft(before, after, Min(k, |before|));
        MoveBytesAfterGap(gapOffset - i, Min(k, |before|));
      } else {
        CursorRight(before, after, k - |before|);
        MoveBytesBeforeGap(i - gapOffset - gapLength, k - |before|);
      }
    }
  }

  /** b and a are the symbols of t before and behind a cursor that stands behind k symbols. */
  predicate At(b: Text, a: Text, t: Text, k: nat) {
    k <= |t| && b == t[..k] && a == t[k..]
  }

  lemma {:induction false} CursorLeft(b: Text, a: Text, k: nat)
    requires k <= |b|
    ensures At(b[..k], b[k..] + a, b + a, k)
  {
  }

  lemma {:induction false} CursorRight(b: Text, a: Text, k: nat)
    requires k <= |a|
    ensures At(b + a[..k], a[k..], b + a, |b| + k)
  {
  }

  function Clamp(k: int, n: nat): nat { if k < 0 then 0 else if k > n then n else k }
}
