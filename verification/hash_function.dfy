/** hashfunc of the hash map, which is SplitMix64. */
module HashFunction {
  import opened Bits
  import opened Probing

  /** hashfunc, on the 64 bits of a word */
  function SplitMix64(x: bv64): bv64 {
    var h0 := x + 0x9e3779b97f4a7c15;
    var h1 := (h0 ^ (h0 >> 30)) * 0xbf58476d1ce4e5b9;
    var h2 := (h1 ^ (h1 >> 27)) * 0x94d049bb133111eb;
    h2 ^ (h2 >> 31)
  }

  function AsWord(x: bv64): Word { x as nat }

  function AsBits(x: Word): bv64 { x as bv64 }

  function HashFunc(x: Word): Word {
    AsWord(SplitMix64(AsBits(x)))
  }

  /** hash is hashfunc, word by word. */
  ghost predicate IsHashFunc(hash: Word -> Word) {
    forall b: bv64 :: hash(AsWord(b)) == AsWord(SplitMix64(b))
  }

  lemma HashFuncIs()
    ensures IsHashFunc(HashFunc)
  {
    forall b: bv64 ensures HashFunc(AsWord(b)) == AsWord(SplitMix64(b)) {
      assert AsBits(AsWord(b)) == b;
    }
  }

  /** Eight keys, each of which starts at a slot of its own in a pool of eight. */
  predicate OnePerSlot(hash: Word -> Word, keys: seq<Word>) {
    |keys| == 8 && forall i :: 0 <= i < 8 ==> Low(hash(keys[i]), 3) == i
  }

  lemma KeyOf(hash: Word -> Word, b: bv64, h: bv64, n: nat) returns (k: Word)
    requires IsHashFunc(hash) && SplitMix64(b) == h && AsWord(h) == n
    ensures k == AsWord(b) && Low(hash(k), 3) == n % 8
  {
    k := AsWord(b);
    LowIsMod(n, 3);
    assert Pow2(3) == 8;
  }

  /** There are such keys for the hash function of the code. */
  lemma OnePerSlotExists(hash: Word -> Word) returns (keys: seq<Word>)
    requires IsHashFunc(hash)
    ensures keys == [6, 1, 4, 12, 9, 3, 2, 0] && OnePerSlot(hash, keys)
  {
    var k0 := KeyOf(hash, 6, 0xbd64a5d9adefe000, 0xbd64a5d9adefe000);
    var k1 := KeyOf(hash, 1, 0x910a2dec89025cc1, 0x910a2dec89025cc1);
    var k2 := KeyOf(hash, 4, 0x6e73e372e2338aca, 0x6e73e372e2338aca);
    var k3 := KeyOf(hash, 12, 0x943ff9fc99de8f03, 0x943ff9fc99de8f03);
    var k4 := KeyOf(hash, 9, 0xaeaf52febe706064, 0xaeaf52febe706064);
    var k5 := KeyOf(hash, 3, 0x1d0b14e4db018fed, 0x1d0b14e4db018fed);
    var k6 := KeyOf(hash, 2, 0x975835de1c9756ce, 0x975835de1c9756ce);
    var k7 := KeyOf(hash, 0, 0xe220a8397b1dcdaf, 0xe220a8397b1dcdaf);
    keys := [k0, k1, k2, k3, k4, k5, k6, k7];
  }
}
