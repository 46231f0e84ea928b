/** What the validator of the gap buffer accepts, next to section 4 of RFC 3629. */
module Utf8Rfc {
  import opened Wrappers
  import opened Utf8

  /** The byte table of the RFC: UTF8-1 to UTF8-4. */
  predicate RfcSymbol(x: seq<Byte>) {
    || (|x| == 1 && x[0] <= 0x7F)
    || (|x| == 2 && Rfc2(x[0], x[1]))
    || (|x| == 3 && Rfc3(x[0], x[1]) && IsTail(x[2]))
    || (|x| == 4 && Rfc4(x[0], x[1]) && IsTail(x[2]) && IsTail(x[3]))
  }

  predicate IsTail(b: Byte) { 0x80 <= b <= 0xBF }

  predicate Rfc2(a: Byte, b: Byte) {
    0xC2 <= a <= 0xDF && IsTail(b)
  }

  predicate Rfc3(a: Byte, b: Byte) {
    || (a == 0xE0 && 0xA0 <= b <= 0xBF)
    || (0xE1 <= a <= 0xEC && IsTail(b))
    || (a == 0xED && 0x80 <= b <= 0x9F)
    || (0xEE <= a <= 0xEF && IsTail(b))
  }

  predicate Rfc4(a: Byte, b: Byte) {
    || (a == 0xF0 && 0x90 <= b <= 0xBF)
    || (0xF1 <= a <= 0xF3 && IsTail(b))
    || (a == 0xF4 && 0x80 <= b <= 0x8F)
  }

  predicate IsSurrogate(r: bv32) { 0xD800 <= r <= 0xDFFF }

  // ----- symbols -----

  lemma TwoBytes(a: Byte, b: Byte)
    requires 0xC0 <= a < 0xE0 && IsAux(b)
    ensures Rfc2(a, b) <==> 0x80 <= Rune2(a, b) <= 0x07ff
    ensures !IsSurrogate(Rune2(a, b))
  {
  }

  lemma ThreeBytes(a: Byte, b: Byte, c: Byte)
    requires 0xE0 <= a < 0xF0 && IsAux(b) && IsAux(c)
    ensures Rfc3(a, b) <==> 0x0800 <= Rune3(a, b, c) <= 0xffff && !IsSurrogate(Rune3(a, b, c))
  {
  }

  lemma FourBytes(a: Byte, b: Byte, c: Byte, d: Byte)
    requires 0xF0 <= a < 0xF8 && IsAux(b) && IsAux(c) && IsAux(d)
    ensures Rfc4(a, b) <==> 0x010000 <= Rune4(a, b, c, d) <= 0x10ffff
    ensures 0x010000 <= Rune4(a, b, c, d) ==> !IsSurrogate(Rune4(a, b, c, d))
  {
  }

  /** The runes in numbers: what the bits of the lead byte and of the auxiliary bytes count for. */
  lemma RuneValue2(a: Byte, b: Byte)
    requires 0xC0 <= a < 0xE0 && IsAux(b)
    ensures Rune2(a, b) == (((a - 0xC0) as bv32) << 6) + ((b - 0x80) as bv32)
  {
  }

  lemma RuneValue3(a: Byte, b: Byte, c: Byte)
    requires 0xE0 <= a < 0xF0 && IsAux(b) && IsAux(c)
    ensures Rune3(a, b, c) ==
            (((a - 0xE0) as bv32) << 12) + (((b - 0x80) as bv32) << 6) + ((c - 0x80) as bv32)
  {
  }

  lemma RuneValue4(a: Byte, b: Byte, c: Byte, d: Byte)
    requires 0xF0 <= a < 0xF8 && IsAux(b) && IsAux(c) && IsAux(d)
    ensures Rune4(a, b, c, d) ==
            (((a - 0xF0) as bv32) << 18) + (((b - 0x80) as bv32) << 12) + (((c - 0x80) as bv32) << 6)
            + ((d - 0x80) as bv32)
  {
  }

  lemma TailIsAux(b: Byte)
    ensures IsTail(b) <==> IsAux(b)
  {
    ByteClasses(b);
  }

  /** The symbol is one that RFC 3629 allows too. */
  predicate IsStrict(x: seq<Byte>) {
    IsSymbol(x) && x[0] < 0xF8 && !IsSurrogate(SymbolRune(x).rune)
  }

  /** The code accepts all symbols of the RFC, and beyond them exactly the surrogates and the lead bytes F8 to FF. */
  lemma StrictIsRfc(x: seq<Byte>)
    ensures IsStrict(x) <==> RfcSymbol(x)
  {
    if x != [] { ByteClasses(x[0]); }
    if |x| > 1 { TailIsAux(x[1]); }
    if |x| > 2 { TailIsAux(x[2]); }
    if |x| > 3 { TailIsAux(x[3]); }
    if |x| == 2 && 0xC0 <= x[0] < 0xE0 && IsAux(x[1]) {
      TwoBytes(x[0], x[1]);
    }
    if |x| == 3 && 0xE0 <= x[0] < 0xF0 && IsAux(x[1]) && IsAux(x[2]) {
      ThreeBytes(x[0], x[1], x[2]);
    }
    if |x| == 4 && 0xF0 <= x[0] < 0xF8 && IsAux(x[1]) && IsAux(x[2]) && IsAux(x[3]) {
      FourBytes(x[0], x[1], x[2], x[3]);
    }
  }

  /** The rune of a symbol, by its bytes. */
  lemma SymbolValue(x: seq<Byte>)
    requires IsSymbol(x) && x[0] < 0xF8
    ensures 1 <= |x| <= 4
    ensures SymbolRune(x).rune ==
            if |x| == 1 then x[0] as bv32
            else if |x| == 2 then (((x[0] - 0xC0) as bv32) << 6) + ((x[1] - 0x80) as bv32)
            else if |x| == 3 then
              (((x[0] - 0xE0) as bv32) << 12) + (((x[1] - 0x80) as bv32) << 6) + ((x[2] - 0x80) as bv32)
            else
              (((x[0] - 0xF0) as bv32) << 18) + (((x[1] - 0x80) as bv32) << 12) + (((x[2] - 0x80) as bv32) << 6)
              + ((x[3] - 0x80) as bv32)
  {
    SymbolShape(x);
    ByteClasses(x[0]);
    if |x| == 2 { RuneValue2(x[0], x[1]); }
    if |x| == 3 { RuneValue3(x[0], x[1], x[2]); }
    if |x| == 4 { RuneValue4(x[0], x[1], x[2], x[3]); }
  }

  /** It does accept both: the first surrogate, and a lead byte that is none. */
  lemma NotStrict()
    ensures IsSymbol([0xED, 0xA0, 0x80]) && !RfcSymbol([0xED, 0xA0, 0x80])
    ensures IsSymbol([0xF8, 0x90, 0x80, 0x80]) && !RfcSymbol([0xF8, 0x90, 0x80, 0x80])
  {
    TailIsAux(0xA0);
    TailIsAux(0x90);
    TailIsAux(0x80);
  }

  /** Every lead byte from F8 on is read as the one that lacks its bit 3. */
  lemma HighLead(x: seq<Byte>)
    requires |x| == 4 && x[0] >= 0xF8
    ensures SymbolRune(x) == SymbolRune(x[0 := WithoutBit3(x[0])])
  {
    ByteClasses(x[0]);
    HighLeadBits(x[0], x[1], x[2], x[3]);
  }

  lemma HighLeadBits(a: Byte, b: Byte, c: Byte, d: Byte)
    requires a >= 0xF8
    ensures Rune4(WithoutBit3(a), b, c, d) == Rune4(a, b, c, d)
    ensures 0xF0 <= WithoutBit3(a) < 0xF8 && WithoutBit3(a) & 0x80 != 0
  {
  }

  /** The accepted symbols are exactly the encodings, up to that bit. */
  lemma AcceptedSymbols(x: seq<Byte>, r: bv32)
    ensures IsSymbol(x) && SymbolRune(x).rune == r <==> x != [] && Encodes(x, r)
  {
    if IsSymbol(x) { EncodeDecode(x); }
    if x != [] && Encodes(x, r) {
      DecodeEncode(r, []);
      assert Encode(r) + [] == Encode(r);
      if x[0] >= 0xF8 {
        HighLeadBits(x[0], x[0], x[0], x[0]);
        ByteClasses(WithoutBit3(x[0]));
        HighLead(x);
      }
    }
  }

  // ----- texts -----

  predicate AllRfc(t: Text) {
    forall i :: 0 <= i < |t| ==> RfcSymbol(t[i])
  }

  predicate AllStrict(t: Text) {
    forall i :: 0 <= i < |t| ==> IsStrict(t[i])
  }

  lemma AllStrictIsRfc(t: Text)
    ensures AllStrict(t) <==> AllRfc(t)
  {
    forall i | 0 <= i < |t| ensures IsStrict(t[i]) <==> RfcSymbol(t[i]) { StrictIsRfc(t[i]); }
  }

  /** A text that RFC 3629 allows. */
  ghost predicate RfcText(s: seq<Byte>) {
    exists t: Text :: AllRfc(t) && Bytes(t) == s
  }

  /** A text is allowed by the RFC exactly when the code accepts it and none of its symbols is a surrogate or has a lead
      byte from F8 on. */
  lemma ValidAndStrict(s: seq<Byte>)
    ensures RfcText(s) <==> IsValid(s) && AllStrict(Symbols(s))
  {
    if RfcText(s) {
      var t: Text :| AllRfc(t) && Bytes(t) == s;
      AllStrictIsRfc(t);
      ValidOfSymbols(t);
    }
    if IsValid(s) {
      SymbolsOfValid(s);
      AllStrictIsRfc(Symbols(s));
    }
  }

  /** So the validator takes texts that the RFC does not allow. */
  lemma ValidNotStrict(s: seq<Byte>)
    requires s == [0xED, 0xA0, 0x80] || s == [0xF8, 0x90, 0x80, 0x80]
    ensures IsValid(s) && !RfcText(s)
  {
    NotStrict();
    StrictIsRfc(s);
    BytesOfOne(s);
    ValidOfSymbols([s]);
    ValidAndStrict(s);
    assert Symbols(s)[0] == s;
  }
}
