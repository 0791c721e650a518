/** UIA2 as sections 4.2 to 4.5 of TS 35.215 define it, on bit strings over the key stream of
    `SnowStandard`, and the proof that `f9` computes it. */
module Uia2Standard {
  import opened Words
  import opened BitWords
  import opened Gf2Ring
  import opened Uea2
  import opened SnowStandard
  import Snow3g

  // ----- the standard

  /** A string with bit `i` inverted if `change` is set. */
  function Changed(w: seq<bool>, i: nat, change: bool): (r: seq<bool>)
    requires i < |w|
    ensures |r| == |w|
  {
    w[i := w[i] != change]
  }

  /** The key, 128 bits, its first word last. */
  function KeyParts(key: seq<bool>): (k: seq<seq<bool>>)
    requires |key| == 128
    ensures |k| == 4 && forall i :: 0 <= i < 4 ==> |k[i]| == 32
  {
    [key[96..], key[64..96], key[32..64], key[..32]]
  }

  /** The initial value from COUNT, FRESH and DIRECTION. */
  function IvParts(count: seq<bool>, freshness: seq<bool>, dir: bool): (iv: seq<seq<bool>>)
    requires |count| == |freshness| == 32
    ensures |iv| == 4 && forall i :: 0 <= i < 4 ==> |iv[i]| == 32
  {
    [Changed(freshness, 16, dir), Changed(count, 0, dir), freshness, count]
  }

  /** The product modulo x^64 + x^4 + x^3 + x + 1. */
  function Product(v: nat, p: nat): nat {
    Mul(64, v, p, Pow2(4) + Pow2(3) + Pow2(1) + Pow2(0))
  }

  lemma ProductIsQuotient(v: nat, p: nat, r: nat)
    requires v < Pow2(64) && p < Pow2(64)
    ensures Remainder(PolyMul(v, p), Pow2(64) + Pow2(4) + Pow2(3) + Pow2(1) + Pow2(0), 64, r) <==> r == Product(v, p)
  {
    hide Pow2, Mul, PolyMul, Remainder;
    LowTerms();
    MulIsQuotientRing(64, v, p, 0x1b, r);
  }

  lemma LowTerms()
    ensures Pow2(4) + Pow2(3) + Pow2(1) + Pow2(0) == 0x1b < Pow2(64)
  {
    Pow2Monotone(5, 64);
  }

  /** The message in blocks of 64 bits, the last one filled with zeros. */
  function Filled(message: seq<bool>): (m: seq<bool>)
    ensures |m| % 64 == 0 && |message| <= |m| < |message| + 64
  {
    message + Zeros((64 - |message| % 64) % 64)
  }

  function Evaluated(m: seq<bool>, p: nat, d: nat): nat
    requires 64 * d <= |m|
  {
    if d == 0 then 0 else Product(Xor(Evaluated(m, p, d - 1), FromBits(m[64 * d - 64..64 * d])), p)
  }

  /** Section 4.5: the 32-bit code under the five words of the key stream. */
  function Code(z: seq<seq<bool>>, message: seq<bool>): (c: seq<bool>)
    requires |z| == 5 && |z[4]| == 32
    ensures |c| == 32
  {
    var m := Filled(message);
    var e := Evaluated(m, FromBits(z[0] + z[1]), |m| / 64);
    var f := Product(Xor(e, |message|), FromBits(z[2] + z[3]));
    Sum(ToBits(f, 64)[..32], z[4])
  }

  /** Five words of the key stream. */
  function FiveOf(k: seq<seq<bool>>, iv: seq<seq<bool>>): (z: seq<seq<bool>>)
    requires |k| == |iv| == 4 && forall i :: 0 <= i < 4 ==> |k[i]| == |iv[i]| == 32
    ensures |z| == 5 && |z[4]| == 32
  {
    hide StandardInitialized, StandardWord;
    var m := StandardInitialized(k, iv);
    [StandardWord(m, 0), StandardWord(m, 1), StandardWord(m, 2), StandardWord(m, 3), StandardWord(m, 4)]
  }

  /** Section 4.2: those of the generator. */
  function StreamOf(key: seq<bool>, count: seq<bool>, freshness: seq<bool>, dir: bool): (z: seq<seq<bool>>)
    requires |key| == 128 && |count| == |freshness| == 32
    ensures |z| == 5 && |z[4]| == 32
  {
    FiveOf(KeyParts(key), IvParts(count, freshness, dir))
  }

  // ----- the code

  /** Shifting a bit to the place of bit `i` inverts that bit or nothing. */
  lemma ShiftChanges(w: u32, dir: u32, i: nat)
    requires dir <= 1 && i < 32
    ensures ToBits(Xor32(w, Shl32(dir, 31 - i)), 32) == Changed(ToBits(w, 32), i, dir == 1)
  {
    hide ToBits, Xor, Shl, Low, Pow2;
    OneBit(dir, i);
    XorIsXorBits(w, Shl32(dir, 31 - i));
    SumChanges(ToBits(w, 32), i, dir == 1);
  }

  lemma SumChanges(w: seq<bool>, i: nat, change: bool)
    requires |w| == 32 && i < 32
    ensures XorBits(w, Zeros(32)[i := change]) == Changed(w, i, change)
  {
    forall k | 0 <= k < 32 ensures XorBits(w, Zeros(32)[i := change])[k] == Changed(w, i, change)[k] {
      assert Zeros(32)[i := change][k] == (k == i && change);
    }
  }

  lemma OneBit(dir: u32, i: nat)
    requires dir <= 1 && i < 32
    ensures ToBits(Shl32(dir, 31 - i), 32) == Zeros(32)[i := dir == 1]
  {
    hide ToBits, Shl, Low, Pow2;
    var k := 31 - i;
    WidthFacts();
    Pow2Monotone(k, 31);
    Pow2Add(31, 1);
    ShlIsProduct(dir, k);
    assert Pow2(1) == 2 by {
      LowTerms1();
    }
    assert Shl(dir, k) < Pow2(32);
    LowSmall(Shl(dir, k), 32);
    ToBitsFields(dir, 0, i + 1, k);
    ToBitsFields(0, dir, i, 1);
    ShlIsProduct(0, 1);
    ToBitsOfZero(i);
    ToBitsOfZero(k);
    ToOneBit(dir);
    assert Zeros(i) + [dir == 1] + Zeros(k) == Zeros(32)[i := dir == 1];
  }

  lemma LowTerms1()
    ensures Pow2(1) == 2
  {}

  lemma KeyIsStandard(key: seq<u8>)
    requires |key| == 16
    ensures FourBits(KeyWords(key)) == KeyParts(Bits(key))
  {
    hide ToBits, KeyWord, Bits;
    KeyWordBits(key, 0);
    KeyWordBits(key, 1);
    KeyWordBits(key, 2);
    KeyWordBits(key, 3);
    var s := Bits(key);
    assert s[0..32] == s[..32] && s[96..128] == s[96..];
  }

  lemma KeyWordBits(key: seq<u8>, i: nat)
    requires |key| == 16 && i < 4
    ensures ToBits(KeyWord(key, i), 32) == Bits(key)[32 * i..32 * i + 32]
  {
    hide ToBits, Xor, Shl, Low, Pow2;
    var a, b, c, d := key[4 * i], key[4 * i + 1], key[4 * i + 2], key[4 * i + 3];
    XorOfParts(a, b, c, d);
    Bytes4Bits(a, b, c, d);
    ByteOfBits(key, 4 * i);
    ByteOfBits(key, 4 * i + 1);
    ByteOfBits(key, 4 * i + 2);
    ByteOfBits(key, 4 * i + 3);
    var s := Bits(key);
    var o := 32 * i;
    assert s[o..o + 32] == s[o..o + 8] + s[o + 8..o + 16] + s[o + 16..o + 24] + s[o + 24..o + 32];
  }

  lemma XorByteBelow(h: nat, b: u8, k: nat)
    ensures Xor(Shl(h, 8 + k), Shl(b, k)) == Shl(h * 0x100 + b, k)
  {
    assert Pow2(8) == 0x100;
    hide Xor, Shl;
    ShlAdd(h, 8, k);
    XorShl(Shl(h, 8), b, k);
    Disjoint(h, b, 8);
    ShlIsProduct(h, 8);
  }

  lemma XorOfParts(a: u8, b: u8, c: u8, d: u8)
    ensures Xor32(Xor32(Xor32(Shl32(a, 24), Shl32(b, 16)), Shl32(c, 8)), d) == Bytes4(a, b, c, d)
  {
    hide Xor, Shl, Low, Pow2;
    SmallShift(a, 24);
    SmallShift(b, 16);
    SmallShift(c, 8);
    XorByteBelow(a, b, 16);
    XorByteBelow(a * 0x100 + b, c, 8);
    XorByteBelow((a * 0x100 + b) * 0x100 + c, d, 0);
    NoShift(d);
    NoShift(Bytes4(a, b, c, d));
  }

  lemma NoShift(v: nat)
    ensures Shl(v, 0) == v
  {}

  lemma IvIsStandard(count: u32, freshness: u32, dir: u32)
    requires dir <= 1
    ensures FourBits(IvWords(count, freshness, dir)) == IvParts(ToBits(count, 32), ToBits(freshness, 32), dir == 1)
  {
    hide ToBits, Xor32, Shl32;
    ShiftChanges(count, dir, 0);
    ShiftChanges(freshness, dir, 16);
  }

  lemma BlocksAre(message: seq<bool>, i: nat)
    requires i < BlockCount(|message|)
    ensures 64 * i + 64 <= |Filled(message)| && Filled(message)[64 * i..64 * i + 64] == BlockBits(message, i)
    ensures |Filled(message)| == 64 * BlockCount(|message|)
  {
    var m := Filled(message);
    assert |m| == 64 * BlockCount(|message|);
    forall k | 0 <= k < 64 ensures m[64 * i..64 * i + 64][k] == BlockBits(message, i)[k] {
    }
  }

  lemma {:induction false} EvalIsStandard(message: seq<bool>, p: nat, d: nat)
    requires d <= BlockCount(|message|)
    ensures 64 * d <= |Filled(message)| && Eval(message, p, d) == Evaluated(Filled(message), p, d)
  {
    hide Mul, Xor, Pow2, FromBits, BlockBits, Filled;
    if d != 0 {
      EvalIsStandard(message, p, d - 1);
      BlocksAre(message, d - 1);
      LowTerms();
    }
  }

  lemma TopWord(e: nat, z4: u32)
    requires e < TWO_64
    ensures Xor(Shr(e, 32), z4) < TWO_32
    ensures ToBits(Xor(Shr(e, 32), z4), 32) == Sum(ToBits(e, 64)[..32], ToBits(z4, 32))
  {
    hide ToBits, Xor, Shr, Low, Pow2;
    WidthFacts();
    TopSmall(e, 32, 32);
    XorBound(Shr(e, 32), z4, 32);
    ToBitsXor(Shr(e, 32), z4, 32);
    ToBitsPrefix(e, 32, 32);
  }

  lemma PairValue(h: u32, l: u32)
    ensures FromBits(ToBits(h, 32) + ToBits(l, 32)) == h * TWO_32 + l
  {
    hide ToBits, FromBits, Shl;
    WidthFacts();
    FromBitsConcat(ToBits(h, 32), ToBits(l, 32));
    WordRoundTrip(h);
    WordRoundTrip(l);
    ShlIsProduct(h, 32);
  }

  function FiveBits(z: seq<u32>): (b: seq<seq<bool>>)
    requires |z| == 5
    ensures |b| == 5 && |b[4]| == 32
  {
    [ToBits(z[0], 32), ToBits(z[1], 32), ToBits(z[2], 32), ToBits(z[3], 32), ToBits(z[4], 32)]
  }

  /** The code of a message under five words. */
  lemma CodeIsStandard(z: seq<u32>, message: seq<bool>)
    requires |z| == 5 && |message| < TWO_64
    ensures F9Spec(z, message) < TWO_32
    ensures ToBits(F9Spec(z, message), 32) == Code(FiveBits(z), message)
  {
    hide ToBits, FromBits, Mul, Xor, Shr, Pow2, Eval, Evaluated, Filled, Sum;
    PairValue(z[0], z[1]);
    PairValue(z[2], z[3]);
    var p, q := z[0] * TWO_32 + z[1], z[2] * TWO_32 + z[3];
    var d := BlockCount(|message|);
    EvalIsStandard(message, p, d);
    FilledLength(message);
    LowTerms();
    var e := Mul64(Xor(Eval(message, p, d), |message|), q);
    EvalBound(message, p, d);
    ProductFits(Eval(message, p, d), |message|, q);
    TopWord(e, z[4]);
  }

  lemma FilledLength(message: seq<bool>)
    ensures |Filled(message)| / 64 == BlockCount(|message|)
  {}

  lemma {:induction false} EvalBound(message: seq<bool>, p: nat, d: nat)
    requires d <= BlockCount(|message|)
    ensures Eval(message, p, d) < TWO_64
  {
    hide Mul, Xor, Pow2, Block;
    WidthFacts();
    if d != 0 {
      EvalBound(message, p, d - 1);
      BlockBound(message, d - 1);
      ProductFits(Eval(message, p, d - 1), Block(message, d - 1), p);
    }
  }

  lemma ProductFits(v: u64, w: u64, p: nat)
    ensures Mul64(Xor(v, w), p) < TWO_64
  {
    hide Mul, Xor, Pow2;
    WidthFacts();
    XorBound(v, w, 64);
    MulBound(64, Xor(v, w), p, C);
  }

  lemma FiveWords(k: seq<u32>, iv: seq<u32>)
    requires |k| == |iv| == 4
    ensures FiveBits(Snow3g.KeyStream(Snow3g.Initialized(k, iv), 5)) == FiveOf(FourBits(k), FourBits(iv))
  {
    hide ToBits, StandardInitialized, StandardWord, FourBits, Snow3g.KeyStream, Snow3g.Initialized;
    KeyStreamIsStandard(k, iv, 5, 0);
    KeyStreamIsStandard(k, iv, 5, 1);
    KeyStreamIsStandard(k, iv, 5, 2);
    KeyStreamIsStandard(k, iv, 5, 3);
    KeyStreamIsStandard(k, iv, 5, 4);
  }

  lemma StreamIsStandard(key: seq<u8>, count: u32, freshness: u32, dir: u32)
    requires |key| == 16 && dir <= 1
    ensures FiveBits(Snow3g.KeyStream(Snow3g.Initialized(KeyWords(key), IvWords(count, freshness, dir)), 5))
         == StreamOf(Bits(key), ToBits(count, 32), ToBits(freshness, 32), dir == 1)
  {
    hide ToBits, Bits, KeyWords, IvWords, KeyParts, IvParts, FiveOf, FiveBits, FourBits;
    hide Snow3g.KeyStream, Snow3g.Initialized;
    KeyIsStandard(key);
    IvIsStandard(count, freshness, dir);
    FiveWords(KeyWords(key), IvWords(count, freshness, dir));
  }

  /** What `f9` returns for a direction of 0 or 1 is the code of the standard. */
  lemma F9IsStandard(key: seq<u8>, count: u32, freshness: u32, dir: u32, message: seq<bool>)
    requires |key| == 16 && dir <= 1 && |message| < TWO_64
    ensures var z := Snow3g.KeyStream(Snow3g.Initialized(KeyWords(key), IvWords(count, freshness, dir)), 5);
      && F9Spec(z, message) < TWO_32
      && ToBits(F9Spec(z, message), 32)
        == Code(StreamOf(Bits(key), ToBits(count, 32), ToBits(freshness, 32), dir == 1), message)
  {
    hide ToBits, Bits, F9Spec, Code, StreamOf, FiveBits, KeyWords, IvWords;
    var z := Snow3g.KeyStream(Snow3g.Initialized(KeyWords(key), IvWords(count, freshness, dir)), 5);
    StreamIsStandard(key, count, freshness, dir);
    CodeIsStandard(z, message);
  }

  // ----- what the generator is told apart by

  lemma KeyWordsDetermine(k: seq<u8>, l: seq<u8>)
    requires |k| == |l| == 16
    ensures KeyWords(k) == KeyWords(l) <==> k == l
  {
    assert |Bits(k)| == |Bits(l)| == 128;
    hide ToBits, Bits, KeyWord;
    if KeyWords(k) == KeyWords(l) {
      KeyIsStandard(k);
      KeyIsStandard(l);
      var s, t := Bits(k), Bits(l);
      assert s == KeyParts(s)[3] + KeyParts(s)[2] + KeyParts(s)[1] + KeyParts(s)[0];
      assert t == KeyParts(t)[3] + KeyParts(t)[2] + KeyParts(t)[1] + KeyParts(t)[0];
      OctetsFromBits(k, l);
    }
  }

  lemma IvWordsDetermine(c: u32, f: u32, dir: u32, d: u32, g: u32, e: u32)
    requires dir <= 1 && e <= 1
    ensures IvWords(c, f, dir) == IvWords(d, g, e) <==> c == d && f == g && dir == e
  {
    hide ToBits, IvWords;
    if IvWords(c, f, dir) == IvWords(d, g, e) {
      IvIsStandard(c, f, dir);
      IvIsStandard(d, g, e);
      var v, w := IvParts(ToBits(c, 32), ToBits(f, 32), dir == 1), IvParts(ToBits(d, 32), ToBits(g, 32), e == 1);
      assert v[3] == w[3] && v[2] == w[2] && v[1][0] == w[1][0];
      SameWord(c, d);
      SameWord(f, g);
    }
  }

  /** Different keys, counters or directions always lead to different generators. */
  lemma StatesAreDistinct(k: seq<u8>, c: u32, f: u32, dir: u32, l: seq<u8>, d: u32, g: u32, e: u32, n: nat)
    requires |k| == |l| == 16 && dir <= 1 && e <= 1
    ensures Snow3g.Rounds(Snow3g.Initialized(KeyWords(k), IvWords(c, f, dir)), n, false)
         == Snow3g.Rounds(Snow3g.Initialized(KeyWords(l), IvWords(d, g, e)), n, false)
       <==> k == l && c == d && f == g && dir == e
  {
    hide KeyWord, Xor32, Shl32;
    KeyWordsDetermine(k, l);
    IvWordsDetermine(c, f, dir, d, g, e);
    Snow3g.InitializeIsInjective(KeyWords(k), IvWords(c, f, dir), KeyWords(l), IvWords(d, g, e), n);
  }
}
