/** UTF-8 as the gap buffer reads it: its decoder, its validator, and the symbols that a valid text consists of. */
module Utf8 {
  import opened Wrappers

  /** isSymbolAuxiliaryByte: 10xxxxxx */
  predicate IsAux(b: Byte) {
    b & 0xC0 == 0x80
  }

  // ----- the bits of a rune -----

  function Rune2(a: Byte, b: Byte): bv32 {
    (((a as bv32) & 0x1f) << 6) | ((b as bv32) & 0x3f)
  }

  function Rune3(a: Byte, b: Byte, c: Byte): bv32 {
    (((a as bv32) & 0x0f) << 12) | (((b as bv32) & 0x3f) << 6) | ((c as bv32) & 0x3f)
  }

  function Rune4(a: Byte, b: Byte, c: Byte, d: Byte): bv32 {
    (((a as bv32) & 0x07) << 18) | (((b as bv32) & 0x3f) << 12) | (((c as bv32) & 0x3f) << 6) | ((d as bv32) & 0x3f)
  }

  function Lead2(r: bv32): Byte { (((r >> 6) & 0x1f) | 0xC0) as Byte }

  function Lead3(r: bv32): Byte { (((r >> 12) & 0x0f) | 0xe0) as Byte }

  function Lead4(r: bv32): Byte { (((r >> 18) & 0x07) | 0xf0) as Byte }

  function Aux(r: bv32): Byte { ((r & 0x3f) | 0x80) as Byte }

  lemma ByteClasses(b: Byte)
    ensures IsAux(b) <==> 0x80 <= b < 0xC0
    ensures b & 0x80 != 0 <==> 0x80 <= b
  {
  }

  lemma LeadClasses(r: bv32)
    ensures 0xC0 <= Lead2(r) < 0xE0 <= Lead3(r) < 0xF0 <= Lead4(r) < 0xF8
    ensures IsAux(Aux(r))
  {
  }

  lemma Recompose2(r: bv32)
    requires r <= 0x7ff
    ensures Rune2(Lead2(r), Aux(r)) == r
  {
  }

  lemma Recompose3(r: bv32)
    requires r <= 0xffff
    ensures Rune3(Lead3(r), Aux(r >> 6), Aux(r)) == r
  {
  }

  lemma Recompose4(r: bv32)
    requires r <= 0x10ffff
    ensures Rune4(Lead4(r), Aux(r >> 12), Aux(r >> 6), Aux(r)) == r
  {
  }

  lemma Decompose2(a: Byte, b: Byte)
    requires 0xC0 <= a < 0xE0 && IsAux(b)
    ensures Lead2(Rune2(a, b)) == a && Aux(Rune2(a, b)) == b
  {
  }

  lemma Decompose3(a: Byte, b: Byte, c: Byte)
    requires 0xE0 <= a < 0xF0 && IsAux(b) && IsAux(c)
    ensures var r := Rune3(a, b, c); Lead3(r) == a && Aux(r >> 6) == b && Aux(r) == c
  {
  }

  lemma Decompose4(a: Byte, b: Byte, c: Byte, d: Byte)
    requires 0xF0 <= a && IsAux(b) && IsAux(c) && IsAux(d)
    ensures var r := Rune4(a, b, c, d);
            Lead4(r) == a & 0xF7 && Aux(r >> 12) == b && Aux(r >> 6) == c && Aux(r) == d
    ensures a < 0xF8 ==> a & 0xF7 == a
  {
  }

  // ----- decoding -----

  /** What getSymbolRune gives: the number of bytes of the first symbol and its rune; -1 for an invalid symbol. */
  datatype Decoded = Decoded(n: int, rune: bv32)

  const INVALID := Decoded(-1, 0)

  function SymbolRune4(s: seq<Byte>): Decoded
    requires |s| > 0
  {
    if |s| < 4 || !IsAux(s[1]) || !IsAux(s[2]) || !IsAux(s[3]) then INVALID
    else
      var r := Rune4(s[0], s[1], s[2], s[3]);
      if r < 0x010000 || r > 0x10ffff then INVALID else Decoded(4, r)
  }

  function SymbolRune3(s: seq<Byte>): Decoded
    requires |s| > 0
  {
    if |s| < 3 || !IsAux(s[1]) || !IsAux(s[2]) then INVALID
    else
      var r := Rune3(s[0], s[1], s[2]);
      if r < 0x0800 || r > 0xffff then INVALID else Decoded(3, r)
  }

  function SymbolRune2(s: seq<Byte>): Decoded
    requires |s| > 0
  {
    if |s| < 2 || !IsAux(s[1]) then INVALID
    else
      var r := Rune2(s[0], s[1]);
      if r < 0x80 || r > 0x07ff then INVALID else Decoded(2, r)
  }

  /** getSymbolRune */
  function SymbolRune(s: seq<Byte>): Decoded {
    if |s| == 0 then Decoded(0, 0)
    else if s[0] & 0x80 != 0 then
      if s[0] >= 0xF0 then SymbolRune4(s)
      else if s[0] >= 0xE0 then SymbolRune3(s)
      else if s[0] >= 0xC0 then SymbolRune2(s)
      else INVALID
    else Decoded(1, s[0] as bv32)
  }

  /** getSymbolLengthFromFirstByte */
  function LengthFromFirst(first: Byte): nat {
    if first >= 0xf0 then 4 else if first >= 0xe0 then 3 else if first >= 0xc0 then 2 else 1
  }

  /** The bytes of exactly one valid symbol. */
  predicate IsSymbol(x: seq<Byte>) {
    |x| > 0 && SymbolRune(x).n == |x|
  }

  /** One lead byte, which tells the length, and auxiliary bytes behind it. */
  lemma SymbolShape(s: seq<Byte>)
    ensures var n := SymbolRune(s).n;
            && -1 <= n <= 4 && n <= |s|
            && (n == 0 <==> s == [])
            && (n > 0 ==> !IsAux(s[0]) && LengthFromFirst(s[0]) == n)
            && (forall k :: 0 < k < n ==> IsAux(s[k]))
  {
    if s != [] { ByteClasses(s[0]); }
  }

  /** What follows a symbol does not matter. */
  lemma SymbolAhead(s: seq<Byte>, t: seq<Byte>)
    requires SymbolRune(s).n > 0 && SymbolRune(s).n <= |t|
    requires forall k :: 0 <= k < SymbolRune(s).n ==> t[k] == s[k]
    ensures SymbolRune(t) == SymbolRune(s)
  {
    var n := SymbolRune(s).n;
    SymbolShape(s);
    assert t[0] == s[0];
    if n > 1 { assert t[1] == s[1]; }
    if n > 2 { assert t[2] == s[2]; }
    if n > 3 { assert t[3] == s[3]; }
  }

  // ----- encoding -----

  /** The encoder of the tests, for the runes up to 10FFFF. */
  function Encode(r: bv32): seq<Byte>
    requires r <= 0x10ffff
  {
    if r <= 0x7f then [r as Byte]
    else if r <= 0x7ff then [Lead2(r), Aux(r)]
    else if r <= 0xffff then [Lead3(r), Aux(r >> 6), Aux(r)]
    else [Lead4(r), Aux(r >> 12), Aux(r >> 6), Aux(r)]
  }

  lemma SmallRune(r: bv32)
    requires r <= 0x7f
    ensures (r as Byte) & 0x80 == 0 && ((r as Byte) as bv32) == r
  {
  }

  lemma SmallByte(b: Byte)
    requires b & 0x80 == 0
    ensures (b as bv32) <= 0x7f && ((b as bv32) as Byte) == b
  {
  }

  /** Every encoded rune decodes to itself, whatever follows it. */
  lemma DecodeEncode(r: bv32, rest: seq<Byte>)
    requires r <= 0x10ffff
    ensures SymbolRune(Encode(r) + rest) == Decoded(|Encode(r)|, r)
  {
    var s := Encode(r) + rest;
    ByteClasses(s[0]);
    LeadClasses(r);
    LeadClasses(r >> 6);
    LeadClasses(r >> 12);
    if r <= 0x7f {
      SmallRune(r);
    } else if r <= 0x7ff {
      Recompose2(r);
    } else if r <= 0xffff {
      Recompose3(r);
    } else {
      Recompose4(r);
    }
  }

  lemma EncodeOf2(a: Byte, b: Byte)
    requires 0xC0 <= a < 0xE0 && IsAux(b) && 0x80 <= Rune2(a, b) <= 0x07ff
    ensures Encode(Rune2(a, b)) == [a, b]
  {
    Decompose2(a, b);
  }

  lemma EncodeOf3(a: Byte, b: Byte, c: Byte)
    requires 0xE0 <= a < 0xF0 && IsAux(b) && IsAux(c) && 0x0800 <= Rune3(a, b, c) <= 0xffff
    ensures Encode(Rune3(a, b, c)) == [a, b, c]
  {
    Decompose3(a, b, c);
  }

  lemma EncodeOf4(a: Byte, b: Byte, c: Byte, d: Byte)
    requires 0xF0 <= a && IsAux(b) && IsAux(c) && IsAux(d) && 0x010000 <= Rune4(a, b, c, d) <= 0x10ffff
    ensures Encode(Rune4(a, b, c, d)) == [WithoutBit3(a), b, c, d]
  {
    Decompose4(a, b, c, d);
  }

  function WithoutBit3(b: Byte): Byte { b & 0xF7 }

  lemma OrdinaryLead(b: Byte)
    requires b < 0xF8
    ensures b >= 0xC0 ==> WithoutBit3(b) == b || b < 0xF0
  {
  }

  /** x is the encoding of rune r, up to the bit of the lead bytes F8 to FF that the decoder ignores. */
  predicate Encodes(x: seq<Byte>, r: bv32)
    requires |x| > 0
  {
    r <= 0x10ffff && Encode(r) == if x[0] < 0xF8 then x else x[0 := WithoutBit3(x[0])]
  }

  lemma Encodes1(x: seq<Byte>)
    requires |x| == 1 && x[0] & 0x80 == 0
    ensures Encodes(x, x[0] as bv32)
  {
    SmallByte(x[0]);
    ByteClasses(x[0]);
  }

  lemma Encodes2(x: seq<Byte>)
    requires |x| == 2 && 0xC0 <= x[0] < 0xE0 && SymbolRune2(x).n == 2
    ensures Encodes(x, SymbolRune2(x).rune)
  {
    EncodeOf2(x[0], x[1]);
  }

  lemma Encodes3(x: seq<Byte>)
    requires |x| == 3 && 0xE0 <= x[0] < 0xF0 && SymbolRune3(x).n == 3
    ensures Encodes(x, SymbolRune3(x).rune)
  {
    EncodeOf3(x[0], x[1], x[2]);
  }

  lemma Encodes4(x: seq<Byte>)
    requires |x| == 4 && 0xF0 <= x[0] && SymbolRune4(x).n == 4
    ensures Encodes(x, SymbolRune4(x).rune)
  {
    EncodeOf4(x[0], x[1], x[2], x[3]);
    if x[0] < 0xF8 { OrdinaryLead(x[0]); }
  }

  /** A symbol is the encoding of its rune. */
  lemma EncodeDecode(x: seq<Byte>)
    requires IsSymbol(x)
    ensures Encodes(x, SymbolRune(x).rune)
  {
    SymbolShape(x);
    ByteClasses(x[0]);
    if x[0] & 0x80 == 0 {
      Encodes1(x);
    } else if x[0] >= 0xF0 {
      Encodes4(x);
    } else if x[0] >= 0xE0 {
      Encodes3(x);
    } else {
      Encodes2(x);
    }
  }

  // ----- texts -----

  /** A text as the list of its symbols. */
  type Text = seq<seq<Byte>>

  predicate IsText(t: Text) {
    forall i :: 0 <= i < |t| ==> IsSymbol(t[i])
  }

  function Bytes(t: Text): seq<Byte> {
    if t == [] then [] else t[0] + Bytes(t[1..])
  }

  /** The runes that the user sees. */
  function Runes(t: Text): seq<bv32> {
    seq(|t|, i requires 0 <= i < |t| => SymbolRune(t[i]).rune)
  }

  /** The text with these runes, as the encoder writes it. */
  function Encoded(runes: seq<bv32>): Text
    requires forall i :: 0 <= i < |runes| ==> runes[i] <= 0x10ffff
  {
    seq(|runes|, i requires 0 <= i < |runes| => Encode(runes[i]))
  }

  /** An encoded text is valid, and the code reads the same runes in it. */
  lemma RunesOfEncoded(runes: seq<bv32>)
    requires forall i :: 0 <= i < |runes| ==> runes[i] <= 0x10ffff
    ensures IsText(Encoded(runes)) && Runes(Encoded(runes)) == runes
    ensures IsValid(Bytes(Encoded(runes))) && Symbols(Bytes(Encoded(runes))) == Encoded(runes)
  {
    var t := Encoded(runes);
    forall i | 0 <= i < |runes| ensures IsSymbol(t[i]) && SymbolRune(t[i]).rune == runes[i] {
      DecodeEncode(runes[i], []);
      assert Encode(runes[i]) + [] == t[i];
    }
    ValidOfSymbols(t);
  }

  lemma {:induction false} BytesAppend(a: Text, b: Text)
    ensures Bytes(a + b) == Bytes(a) + Bytes(b)
  {
    if a == [] {
      assert a + b == b;
    } else {
      assert (a + b)[1..] == a[1..] + b;
      BytesAppend(a[1..], b);
    }
  }

  lemma TextParts(t: Text, k: nat)
    requires IsText(t) && k <= |t|
    ensures IsText(t[..k]) && IsText(t[k..])
  {
  }

  lemma TextJoin(a: Text, b: Text)
    requires IsText(a) && IsText(b)
    ensures IsText(a + b)
  {
  }

  lemma BytesOfOne(x: seq<Byte>)
    ensures Bytes([x]) == x
  {
    assert [x][1..] == [];
  }

  lemma BytesSplit(t: Text, k: nat)
    requires k <= |t|
    ensures Bytes(t) == Bytes(t[..k]) + Bytes(t[k..])
  {
    assert t == t[..k] + t[k..];
    BytesAppend(t[..k], t[k..]);
  }

  lemma BytesLast(t: Text, k: nat)
    requires k < |t|
    ensures Bytes(t[..k + 1]) == Bytes(t[..k]) + t[k]
  {
    assert t[..k + 1] == t[..k] + [t[k]];
    BytesAppend(t[..k], [t[k]]);
    BytesOfOne(t[k]);
  }

  lemma BytesFirst(t: Text, k: nat)
    requires k < |t|
    ensures Bytes(t[k..]) == t[k] + Bytes(t[k + 1..])
  {
    assert t[k..][1..] == t[k + 1..];
  }

  /** The validity that the code checks: symbol after symbol, until nothing is left. */
  predicate IsValid(s: seq<Byte>)
    decreases |s|
  {
    SymbolShape(s);
    s == [] || (SymbolRune(s).n > 0 && IsValid(s[SymbolRune(s).n..]))
  }

  /** The symbols of a valid text. */
  function Symbols(s: seq<Byte>): Text
    requires IsValid(s)
    decreases |s|
  {
    SymbolShape(s);
    if s == [] then [] else [s[..SymbolRune(s).n]] + Symbols(s[SymbolRune(s).n..])
  }

  lemma FirstSymbol(s: seq<Byte>)
    requires SymbolRune(s).n > 0
    ensures SymbolRune(s).n <= |s| && IsSymbol(s[..SymbolRune(s).n])
  {
    SymbolShape(s);
    SymbolAhead(s, s[..SymbolRune(s).n]);
  }

  lemma BytesCons(x: seq<Byte>, t: Text)
    ensures Bytes([x] + t) == x + Bytes(t)
  {
    assert ([x] + t)[1..] == t;
  }

  lemma {:induction false} SymbolsOfValid(s: seq<Byte>)
    requires IsValid(s)
    ensures IsText(Symbols(s)) && Bytes(Symbols(s)) == s
    decreases |s|
  {
    if s == [] {
    } else {
      FirstSymbol(s);
      var n := SymbolRune(s).n;
      SymbolsOfValid(s[n..]);
      BytesCons(s[..n], Symbols(s[n..]));
      assert s == s[..n] + s[n..];
    }
  }

  /** A text is read back as the very symbols it was put together from. */
  lemma {:induction false} ValidOfSymbols(t: Text)
    requires IsText(t)
    ensures IsValid(Bytes(t)) && Symbols(Bytes(t)) == t
  {
    if t == [] {
    } else {
      ValidOfSymbols(t[1..]);
      ValidCons(t[0], Bytes(t[1..]));
    }
  }

  lemma ValidCons(x: seq<Byte>, s: seq<Byte>)
    requires IsSymbol(x) && IsValid(s)
    ensures IsValid(x + s) && Symbols(x + s) == [x] + Symbols(s)
  {
    SymbolShape(x);
    SymbolAhead(x, x + s);
    assert (x + s)[|x|..] == s && (x + s)[..|x|] == x;
  }

  /** isValidUTF8 */
  method CheckUtf8(s: seq<Byte>) returns (ok: bool)
    ensures ok <==> IsValid(s)
  {
    var i := 0;
    while i < |s|
      invariant i <= |s|
      invariant IsValid(s) <==> IsValid(s[i..])
      decreases |s| - i
    {
      SymbolShape(s[i..]);
      var n := SymbolRune(s[i..]).n;
      if n < 0 { return false; }
      assert s[i..][n..] == s[i + n..];
      i := i + n;
    }
    return true;
  }
}
