/** 128-EIA3 as section 4 of TS 35.221 defines it, on bit strings over the key stream of
    `ZucStandard`, and the proof that the code computes it. */
module Eia3Standard {
  import opened Words
  import opened BitWords
  import opened Eia3
  import opened ZucStandard
  import Zuc

  // ----- the standard

  /** Section 4.2: the first half of the initial value, from COUNT and BEARER. */
  function FirstHalf(count: seq<bool>, bearer: seq<bool>): (h: seq<bool>)
    requires |count| == 32 && |bearer| == 5
    ensures |h| == 64
  {
    count + bearer + Zeros(27)
  }

  /** The second half is the first with DIRECTION added to its first bit and to bit 48. */
  function InitialValue(count: seq<bool>, bearer: seq<bool>, direction: bool): (iv: seq<bool>)
    requires |count| == 32 && |bearer| == 5
    ensures |iv| == 128
  {
    var h := FirstHalf(count, bearer);
    h + h[0 := h[0] != direction][48 := h[48] != direction]
  }

  /** Section 4.3: L = ceil(LENGTH / 32) + 2 words of key stream. */
  predicate IsWordCount(l: nat, length: nat) {
    l >= 2 && 32 * (l - 2) >= length && (l == 2 || 32 * (l - 3) < length)
  }

  /** Whether an odd number of the first `n` bits of the message meets a set bit of the key
      stream `j` places further on. */
  predicate Odd(z: seq<bool>, message: seq<bool>, n: nat, j: nat)
    requires n <= |message| && n + j <= |z|
  {
    if n == 0 then false else Odd(z, message, n - 1, j) != (message[n - 1] && z[n - 1 + j])
  }

  /** Section 4.4: bit `j` of the code. */
  predicate CodeBit(z: seq<bool>, message: seq<bool>, l: nat, j: nat)
    requires |z| == 32 * l && IsWordCount(l, |message|) && j < 32
  {
    (Odd(z, message, |message|, j) != z[|message| + j]) != z[32 * (l - 1) + j]
  }

  // ----- the code

  lemma CountIsStandard(length: nat)
    ensures IsWordCount(WordCount(length), length)
    ensures forall l: nat :: IsWordCount(l, length) ==> l == WordCount(length)
  {}

  lemma WindowBits(z: seq<bool>, i: nat)
    requires i + 32 <= |z|
    ensures Window(z, i) < TWO_32 && ToBits(Window(z, i), 32) == z[i..i + 32]
    ensures forall j :: 0 <= j < 32 ==> ToBits(Window(z, i), 32)[j] == z[i + j]
  {
    FromBitsBound(z[i..i + 32]);
    WidthFacts();
    ToFromBits(z[i..i + 32]);
  }

  lemma {:induction false} SumBit(z: seq<bool>, message: seq<bool>, n: nat, j: nat)
    requires n <= |message| && n + 31 <= |z| && j < 32
    ensures SumOfWindows(z, message, n) < TWO_32
    ensures ToBits(SumOfWindows(z, message, n), 32)[j] == Odd(z, message, n, j)
  {
    hide ToBits, Xor, Window;
    ToBitsOfZero(32);
    if n != 0 {
      SumBit(z, message, n - 1, j);
      WindowBits(z, n - 1);
      var w := if message[n - 1] then Window(z, n - 1) else 0;
      XorIsXorBits(SumOfWindows(z, message, n - 1), w);
    }
  }

  /** The code under a key stream of bits. */
  lemma MacIsStandard(z: seq<bool>, message: seq<bool>, j: nat)
    requires |z| == 32 * WordCount(|message|) && j < 32
    ensures Mac(z, message) < TWO_32
    ensures IsWordCount(WordCount(|message|), |message|)
    ensures ToBits(Mac(z, message), 32)[j] == CodeBit(z, message, WordCount(|message|), j)
  {
    hide ToBits, Xor, Window, SumOfWindows, Odd;
    var n, l := |message|, WordCount(|message|);
    CountIsStandard(n);
    SumBit(z, message, n, j);
    WindowBits(z, n);
    var o := 32 * (l - 1);
    WindowBits(z, o);
    var s := SumOfWindows(z, message, n);
    var v, w := Window(z, n), Window(z, o);
    XorIsXorBits(s, v);
    XorIsXorBits(Xor32(s, v), w);
    assert Mac(z, message) == Xor32(Xor32(s, v), w);
  }

  // ----- the initial value

  lemma CountOctet(count: u32, i: nat)
    requires i < 4
    ensures ToBits(LowOctet(Shr(count, 24 - 8 * i)), 8) == ToBits(count, 32)[8 * i..8 * i + 8]
  {
    hide ToBits, FromBits, And, Shr;
    ByteOfWord(count, i);
    ToFromBits(ToBits(count, 32)[8 * i..8 * i + 8]);
  }

  lemma BearerOctet(bearer: u32)
    ensures ToBits(LowOctet(And(Shl(bearer, 3), 0xf8)), 8) == ToBits(bearer, 5) + Zeros(3)
  {
    hide ToBits, And, Shl, Shr, Low, Pow2;
    var l := Low(bearer, 5);
    SmallPowers();
    ShlIsProduct(0x1f, 3);
    AndShl(Shl(bearer, 3), 0x1f, 3);
    ShlIsProduct(bearer, 3);
    ShrLowIsDivMod(Shl(bearer, 3), 3);
    AndLowMask(bearer, 5);
    Split(bearer, 5);
    ShlIsProduct(l, 3);
    AndLowMask(Shl(l, 3), 8);
    LowSmall(Shl(l, 3), 8);
    ToBitsFields(l, 0, 5, 3);
    ToBitsOfZero(3);
    ToBitsOfLow(bearer, 5);
  }

  lemma SmallPowers()
    ensures Pow2(1) == 2 && Pow2(3) == 8 && Pow2(5) == 32 && Pow2(7) == 128 && Pow2(8) == 256
  {}

  lemma DirectionOctet(direction: u32)
    ensures ToBits(LowOctet(Shl(And(direction, 1), 7)), 8) == Zeros(8)[0 := direction % 2 == 1]
  {
    hide ToBits, And, Shl, Pow2;
    var l := direction % 2;
    SmallPowers();
    AndLowMask(direction, 1);
    assert Low(direction, 1) == l by {
      LastBit(direction);
    }
    hide Low;
    ShlIsProduct(l, 7);
    AndLowMask(Shl(l, 7), 8);
    LowSmall(Shl(l, 7), 8);
    ToBitsFields(l, 0, 1, 7);
    ToBitsOfZero(7);
    ToOneBit(l);
    assert [l == 1] + Zeros(7) == Zeros(8)[0 := l == 1];
  }

  lemma LastBit(v: nat)
    ensures Low(v, 1) == v % 2
  {
    assert Low(v / 2, 0) == 0;
  }

  lemma OctetChanged(b: u8, d: u8, change: bool)
    requires ToBits(d, 8) == Zeros(8)[0 := change]
    ensures ToBits(XorOctets(b, d), 8) == ToBits(b, 8)[0 := ToBits(b, 8)[0] != change]
  {
    hide ToBits, XorOctets;
    XorOfOctets(b, d);
  }

  /** A string of octets, octet by octet. */
  lemma ByOctets(data: seq<u8>, s: seq<bool>)
    requires |s| == 8 * |data| && forall i :: 0 <= i < |data| ==> s[8 * i..8 * i + 8] == ToBits(data[i], 8)
    ensures Bits(data) == s
  {
    hide ToBits;
    forall k | 0 <= k < |s| ensures Bits(data)[k] == s[k] {
      var i := k / 8;
      assert s[k] == s[8 * i..8 * i + 8][k % 8];
    }
  }

  lemma SliceOfSum(h: seq<bool>, g: seq<bool>, i: nat)
    requires |h| == |g| == 64 && i < 16
    ensures (h + g)[8 * i..8 * i + 8] == if i < 8 then h[8 * i..8 * i + 8] else g[8 * (i - 8)..8 * (i - 8) + 8]
  {}

  /** Octet `i` of the first half. */
  lemma HalfOctet(count: seq<bool>, bearer: seq<bool>, i: nat)
    requires |count| == 32 && |bearer| == 5 && i < 8
    ensures FirstHalf(count, bearer)[8 * i..8 * i + 8]
         == if i < 4 then count[8 * i..8 * i + 8] else if i == 4 then bearer + Zeros(3) else Zeros(8)
  {}

  lemma OctetsOfChanged(h: seq<bool>, change: bool, i: nat)
    requires |h| == 64 && i < 8
    ensures var g := h[0 := h[0] != change][48 := h[48] != change];
      var o := h[8 * i..8 * i + 8];
      g[8 * i..8 * i + 8] == if i == 0 || i == 6 then o[0 := o[0] != change] else o
  {}

  /** The octets the code computes. */
  lemma OctetsAre(count: u32, direction: u32, bearer: u32, i: nat)
    requires i < 8
    ensures var iv := IvBytes(count, direction, bearer);
      var o := FirstHalf(ToBits(count, 32), ToBits(bearer, 5))[8 * i..8 * i + 8];
      && ToBits(iv[i], 8) == o
      && ToBits(iv[i + 8], 8) == if i == 0 || i == 6 then o[0 := o[0] != (direction % 2 == 1)] else o
  {
    hide ToBits, LowOctet, And, Shl, Shr, XorOctets, FirstHalf;
    HalfOctet(ToBits(count, 32), ToBits(bearer, 5), i);
    if i < 4 {
      CountOctet(count, i);
    }
    ShrZero(count);
    BearerOctet(bearer);
    DirectionOctet(direction);
    ToBitsOfZero(8);
    OctetChanged(LowOctet(Shr(count, 24)), LowOctet(Shl(And(direction, 1), 7)), direction % 2 == 1);
    OctetChanged(0, LowOctet(Shl(And(direction, 1), 7)), direction % 2 == 1);
  }

  /** The sixteen octets of the initial value. */
  lemma IvIsStandard(count: u32, direction: u32, bearer: u32)
    ensures Bits(IvBytes(count, direction, bearer))
         == InitialValue(ToBits(count, 32), ToBits(bearer, 5), direction % 2 == 1)
  {
    hide ToBits, IvBytes, Bits, FirstHalf;
    var iv, h := IvBytes(count, direction, bearer), FirstHalf(ToBits(count, 32), ToBits(bearer, 5));
    var s := InitialValue(ToBits(count, 32), ToBits(bearer, 5), direction % 2 == 1);
    forall i | 0 <= i < 16 ensures s[8 * i..8 * i + 8] == ToBits(iv[i], 8) {
      var j := if i < 8 then i else i - 8;
      SliceOfSum(h, h[0 := h[0] != (direction % 2 == 1)][48 := h[48] != (direction % 2 == 1)], i);
      OctetsAre(count, direction, bearer, j);
      OctetsOfChanged(h, direction % 2 == 1, j);
    }
    ByOctets(iv, s);
  }

  /** What the code returns is the code of the standard: under the key stream of the standard,
      from the initial value of the standard, bit by bit. */
  lemma Eia3IsStandard(key: seq<u8>, count: u32, direction: u32, bearer: u32, iv: seq<u8>, message: seq<bool>, j: nat)
    requires |key| == |iv| == 16 && j < 32
    requires Bits(iv) == InitialValue(ToBits(count, 32), ToBits(bearer, 5), direction % 2 == 1)
    ensures var l := WordCount(|message|);
      var z := WordBits(StandardStream(StandardInitialized(key, iv), l));
      var mac := Mac(WordBits(Zuc.KeyStream(Zuc.Initialized(key, IvBytes(count, direction, bearer)), l)), message);
      && mac < TWO_32 && IsWordCount(l, |message|)
      && ToBits(mac, 32)[j] == CodeBit(z, message, l, j)
  {
    hide ToBits, Bits, IvBytes, Mac, WordBits, StandardInitialized, StandardStream, Zuc.KeyStream, Zuc.Initialized;
    IvIsStandard(count, direction, bearer);
    OctetsFromBits(iv, IvBytes(count, direction, bearer));
    var l := WordCount(|message|);
    KeyStreamIsStandard(key, iv, l);
    CountIsStandard(|message|);
    MacIsStandard(WordBits(StandardStream(StandardInitialized(key, iv), l)), message, j);
  }
}
