/** ZUC as section 3 of TS 35.222 defines it, word parts and rotations on bit strings and the
    register over the integers, and the proof that the code computes it. */
module ZucStandard {
  import opened Words
  import opened BitWords
  import opened Iteration
  import opened Zuc
  import opened ZucBoxes

  // ----- the standard

  /** The leftmost 16 bits of a 31-bit cell. */
  function High(cell: nat): seq<bool> {
    ToBits(cell, 31)[..16]
  }

  /** The rightmost 16 bits of a 31-bit cell. */
  function Bottom(cell: nat): seq<bool> {
    ToBits(cell, 31)[15..]
  }

  /** Section 3.3: the four words of bit reorganisation. */
  function Words4(s: seq<u32>): (x: seq<seq<bool>>)
    requires |s| == 16
    ensures |x| == 4 && |x[0]| == |x[1]| == |x[2]| == |x[3]| == 32
  {
    [High(s[15]) + Bottom(s[14]), Bottom(s[11]) + High(s[9]), Bottom(s[7]) + High(s[5]), Bottom(s[2]) + High(s[0])]
  }

  function Rotated(w: seq<bool>, k: nat): (r: seq<bool>)
    requires k <= |w|
    ensures |r| == |w|
  {
    w[k..] + w[..k]
  }

  /** Section 3.4.2: the linear transforms. */
  function Linear1(w: seq<bool>): (r: seq<bool>)
    requires |w| == 32
    ensures |r| == 32
  {
    XorBits(XorBits(XorBits(XorBits(w, Rotated(w, 2)), Rotated(w, 10)), Rotated(w, 18)), Rotated(w, 24))
  }

  function Linear2(w: seq<bool>): (r: seq<bool>)
    requires |w| == 32
    ensures |r| == 32
  {
    XorBits(XorBits(XorBits(XorBits(w, Rotated(w, 8)), Rotated(w, 14)), Rotated(w, 22)), Rotated(w, 30))
  }

  /** Section 3.4.1: the two S-boxes, three rounds on halves and an affine map of the inverse. */
  function Box0(b: seq<bool>): seq<bool>
    requires |b| == 8
  {
    ToBits(ThreeRounds(ByteValue(b) as bv8) as int, 8)
  }

  function Box1(b: seq<bool>): seq<bool>
    requires |b| == 8
  {
    ToBits(AffineInverse(ByteValue(b) as bv8) as int, 8)
  }

  /** The four of them side by side. */
  function Sbox(w: seq<bool>): (r: seq<bool>)
    requires |w| == 32
    ensures |r| == 32
  {
    Box0(w[..8]) + Box1(w[8..16]) + Box0(w[16..24]) + Box1(w[24..])
  }

  /** The output word of the nonlinear function. */
  function Output(x: seq<seq<bool>>, r1: seq<bool>, r2: seq<bool>): (w: seq<bool>)
    requires |x| == 4 && |x[0]| == 32 && |r1| == 32 && |r2| == 32
    ensures |w| == 32
  {
    Plus(XorBits(x[0], r1), r2)
  }

  /** Its memory cells. */
  function Memory(x: seq<seq<bool>>, r1: seq<bool>, r2: seq<bool>): (m: (seq<bool>, seq<bool>))
    requires |x| == 4 && |x[1]| == |x[2]| == 32 && |r1| == 32 && |r2| == 32
    ensures |m.0| == |m.1| == 32
  {
    var w1, w2 := Plus(r1, x[1]), XorBits(r2, x[2]);
    (Sbox(Linear1(w1[16..] + w2[..16])), Sbox(Linear2(w2[16..] + w1[..16])))
  }

  /** Section 3.2: the register step, which replaces a zero cell by 2^31 - 1. */
  function StandardClock(s: seq<u32>, init: bool, u: u32): (t: seq<u32>)
    requires |s| == 16
    ensures |t| == 16
  {
    var v := (Pow2(15) * s[15] + Pow2(17) * s[13] + Pow2(21) * s[10] + Pow2(20) * s[4] + (1 + Pow2(8)) * s[0]) % P;
    var w := if init then (v + u) % P else v;
    s[1..] + [if w == 0 then P else w]
  }

  /** On cells in range the correction of the standard is never needed: the code appends
      the same cell, and it is in range again. */
  lemma ClockIsStandard(s: seq<u32>, init: bool, u: u32)
    requires InRange(s) && u <= P
    ensures Clock(s, init, u) == StandardClock(s, init, u)
    ensures InRange(Clock(s, init, u))
  {
    hide AddM, Feedback, Pow2;
    PowersUsed();
    FeedbackReduces(s);
    var n := FeedbackSum(s);
    if init {
      AddMReduces(Rep(n), u);
      RepAddsUp(n, u);
    }
  }

  function StandardRound(st: State, init: bool): State {
    if |st.s| != 16 then st
    else
      var x := Words4(st.s);
      var r1, r2 := ToBits(st.r1, 32), ToBits(st.r2, 32);
      var m := Memory(x, r1, r2);
      var w := Output(x, r1, r2);
      State(StandardClock(st.s, init, HalfOf(w)), WordOf(m.0), WordOf(m.1))
  }

  /** A word without its last bit. */
  function HalfOf(w: seq<bool>): u32
    requires |w| == 32
  {
    FromBitsBound(w[..31]);
    Pow31();
    FromBits(w[..31])
  }

  function StandardStep(init: bool): State -> State {
    (st: State) => StandardRound(st, init)
  }

  /** The bits of a linear recurrence of degree 4, fifteen in all. */
  function Extended(s: seq<bool>, tap: nat): (r: seq<bool>)
    requires 4 <= |s| <= 15 && tap < 4
    ensures |r| == 15
    decreases 15 - |s|
  {
    if |s| == 15 then s else Extended(s + [s[|s| - 4] != s[|s| - 4 + tap]], tap)
  }

  /** The constants of section 3.5: the number i + 1, last bit first, and what x^4 + x + 1 makes
      of it; the last one by x^4 + x^3 + 1. */
  function Constant(i: nat): (b: seq<bool>)
    requires i < 16
    ensures |b| == 15
  {
    var n := i + 1;
    if i < 15 then Extended([n % 2 == 1, n / 2 % 2 == 1, n / 4 % 2 == 1, n / 8 == 1], 1)
    else Extended([true, false, false, false], 3)
  }

  /** Section 3.5: key byte, constant and byte of the initial value side by side. */
  function StandardLoaded(key: seq<u8>, iv: seq<u8>, n: nat): seq<u32>
    requires |key| == |iv| == 16 && n <= 16
  {
    if n == 0 then []
    else
      var cell := ToBits(key[n - 1], 8) + Constant(n - 1) + ToBits(iv[n - 1], 8);
      StandardLoaded(key, iv, n - 1) + [CellOf(cell)]
  }

  function CellOf(b: seq<bool>): u32
    requires |b| == 31
  {
    FromBitsBound(b);
    Pow31();
    FromBits(b)
  }

  /** Section 3.6.1: the initialisation stage, and the first step of the working stage. */
  function StandardInitialized(key: seq<u8>, iv: seq<u8>): State
    requires |key| == |iv| == 16
  {
    StandardStep(false)(Iterate(StandardStep(true), State(StandardLoaded(key, iv, 16), 0, 0), 32))
  }

  function StandardWord(st: State): u32 {
    if |st.s| != 16 then 0
    else
      var x := Words4(st.s);
      WordOf(XorBits(Output(x, ToBits(st.r1, 32), ToBits(st.r2, 32)), x[3]))
  }

  /** Section 3.6.2: the words of the working stage. */
  function StandardStream(st: State, n: nat): (z: seq<u32>)
    ensures |z| == n
  {
    if n == 0 then []
    else StandardStream(st, n - 1) + [StandardWord(Iterate(StandardStep(false), st, n - 1))]
  }

  // ----- parts of words

  lemma HalvesJoin(h: nat, l: nat)
    requires h < 0x1_0000 && l < 0x1_0000
    ensures ToBits(Or32(Shl32(h, 16), l), 32) == ToBits(h, 16) + ToBits(l, 16)
  {
    hide ToBits, Or, Shl, Low;
    WidthFacts();
    ShlIsProduct(h, 16);
    LowSmall(Shl(h, 16), 32);
    Disjoint(h, l, 16);
    ToBitsFields(h, l, 16, 16);
  }

  lemma HighIsShift(c: nat)
    requires c <= P
    ensures Shr(c, 15) < 0x1_0000 && High(c) == ToBits(Shr(c, 15), 16)
  {
    hide ToBits, Shr;
    Pow31();
    WidthFacts();
    TopSmall(c, 16, 15);
    ToBitsPrefix(c, 16, 15);
  }

  lemma BottomIsMask(c: u32)
    ensures Low16(c) < 0x1_0000 && Bottom(c) == ToBits(Low16(c), 16)
  {
    hide ToBits, Low, And;
    WidthFacts();
    AndLowMask(c, 16);
    Split(c, 16);
    ToBitsOfLow(c, 16);
    ToBitsSuffix(c, 15, 16);
  }

  /** The masked and shifted cell `s15` is its upper half, moved up. */
  lemma TopHalf(c: nat)
    requires c <= P
    ensures Shl32(And(c, 0x7fff_8000), 1) == Shl32(Shr(c, 15), 16)
  {
    hide And, Shr, Low;
    Pow31();
    assert Pow2(15) == 0x8000;
    KeepTop(c, 15, 31);
    ShlAdd(Shr(c, 15), 15, 1);
  }

  function BitsOfFour(x: seq<u32>): (y: seq<seq<bool>>)
    requires |x| == 4
    ensures |y| == 4 && |y[0]| == |y[1]| == |y[2]| == |y[3]| == 32
  {
    [ToBits(x[0], 32), ToBits(x[1], 32), ToBits(x[2], 32), ToBits(x[3], 32)]
  }

  /** The masks and shifts of bit reorganisation pick the halves the standard names. */
  lemma ReorganizedIsStandard(s: seq<u32>)
    requires InRange(s)
    ensures Words4(s) == BitsOfFour(Reorganized(s))
  {
    hide ToBits, High, Bottom, And, Shr, Shl32, Or32, Low16;
    TopHalf(s[15]);
    HighIsShift(s[15]);
    HighIsShift(s[9]);
    HighIsShift(s[5]);
    HighIsShift(s[0]);
    BottomIsMask(s[14]);
    BottomIsMask(s[11]);
    BottomIsMask(s[7]);
    BottomIsMask(s[2]);
    HalvesJoin(Shr(s[15], 15), Low16(s[14]));
    HalvesJoin(Low16(s[11]), Shr(s[9], 15));
    HalvesJoin(Low16(s[7]), Shr(s[5], 15));
    HalvesJoin(Low16(s[2]), Shr(s[0], 15));
  }

  lemma StraddleBits(a: u32, b: u32, k: nat)
    requires 0 < k < 32
    ensures ToBits(Or32(Shl32(a, k), Shr32(b, 32 - k)), 32) == ToBits(a, 32)[k..] + ToBits(b, 32)[..k]
  {
    hide ToBits, FromBits, Or32, Shl32, Shr32;
    Straddle(a, b, k);
    ToFromBits(ToBits(a, 32)[k..] + ToBits(b, 32)[..k]);
  }

  lemma RotIsRotated(a: u32, k: nat)
    requires 0 < k < 32
    ensures ToBits(Rot(a, k), 32) == Rotated(ToBits(a, 32), k)
  {
    hide ToBits, Or32, Shl32, Shr32;
    StraddleBits(a, a, k);
  }

  lemma CrossedIsHalves(a: u32, b: u32)
    ensures ToBits(Crossed(a, b), 32) == ToBits(a, 32)[16..] + ToBits(b, 32)[..16]
  {
    hide ToBits, Or32, Shl32, Shr32;
    StraddleBits(a, b, 16);
  }

  lemma XorOfFive(x: u32, a: u32, b: u32, c: u32, d: u32)
    ensures ToBits(Xor32(Xor32(Xor32(Xor32(x, a), b), c), d), 32)
         == XorBits(XorBits(XorBits(XorBits(ToBits(x, 32), ToBits(a, 32)), ToBits(b, 32)), ToBits(c, 32)),
                    ToBits(d, 32))
  {
    hide ToBits, Xor32;
    XorIsXorBits(x, a);
    XorIsXorBits(Xor32(x, a), b);
    XorIsXorBits(Xor32(Xor32(x, a), b), c);
    XorIsXorBits(Xor32(Xor32(Xor32(x, a), b), c), d);
  }

  lemma LinearIsStandard(x: u32)
    ensures ToBits(L1(x), 32) == Linear1(ToBits(x, 32))
    ensures ToBits(L2(x), 32) == Linear2(ToBits(x, 32))
  {
    hide ToBits, Xor32, Rot, Rotated;
    RotIsRotated(x, 2);
    RotIsRotated(x, 10);
    RotIsRotated(x, 18);
    RotIsRotated(x, 24);
    XorOfFive(x, Rot(x, 2), Rot(x, 10), Rot(x, 18), Rot(x, 24));
    RotIsRotated(x, 8);
    RotIsRotated(x, 14);
    RotIsRotated(x, 22);
    RotIsRotated(x, 30);
    XorOfFive(x, Rot(x, 8), Rot(x, 14), Rot(x, 22), Rot(x, 30));
  }

  lemma BytesOfWord(u: u32)
    ensures var b := ToBits(u, 32);
      && TopByte(u) == ByteValue(b[..8]) && LowOctet(Shr32(u, 16)) == ByteValue(b[8..16])
      && LowOctet(Shr32(u, 8)) == ByteValue(b[16..24]) && LowOctet(u) == ByteValue(b[24..])
  {
    hide ToBits, FromBits, And, Shr, Low;
    ByteOfWord(u, 0);
    ByteOfWord(u, 1);
    ByteOfWord(u, 2);
    ByteOfWord(u, 3);
    WidthFacts();
    TopSmall(u, 8, 24);
    AndLowMask(Shr(u, 24), 8);
    LowSmall(Shr(u, 24), 8);
    ShrZero(u);
    assert ToBits(u, 32)[0..8] == ToBits(u, 32)[..8] && ToBits(u, 32)[24..32] == ToBits(u, 32)[24..];
  }

  lemma BytesJoin(a: u8, b: u8, c: u8, d: u8)
    ensures ToBits(MakeU32(a, b, c, d), 32) == ToBits(a, 8) + ToBits(b, 8) + ToBits(c, 8) + ToBits(d, 8)
  {
    hide ToBits, Or, Shl, Low, Pow2;
    SmallShift(a, 24);
    SmallShift(b, 16);
    SmallShift(c, 8);
    OrBytes4(a, b, c, d);
    Bytes4Bits(a, b, c, d);
  }

  lemma SubstitutedIsStandard(u: u32)
    ensures ToBits(Substituted(u), 32) == Sbox(ToBits(u, 32))
  {
    hide ToBits, ByteValue, TopByte, LowOctet, Shr32, MakeU32, S0Entry, S1Entry, ThreeRounds, AffineInverse;
    BytesOfWord(u);
    S0Law(TopByte(u));
    S1Law(LowOctet(Shr32(u, 16)));
    S0Law(LowOctet(Shr32(u, 8)));
    S1Law(LowOctet(u));
    BytesJoin(S0(TopByte(u)), S1(LowOctet(Shr32(u, 16))), S0(LowOctet(Shr32(u, 8))), S1(LowOctet(u)));
  }

  /** The output word of the code is that of the standard. */
  lemma OutputIsStandard(x: seq<u32>, y: seq<seq<bool>>, r1: u32, r2: u32)
    requires |x| == 4 && y == BitsOfFour(x)
    ensures ToBits(OutputOfF(x, r1, r2), 32) == Output(y, ToBits(r1, 32), ToBits(r2, 32))
  {
    hide ToBits, Xor32, Add32, Plus;
    XorIsXorBits(x[0], r1);
    PlusIsAdd(Xor32(x[0], r1), r2);
  }

  /** And so are the memory cells. */
  lemma MemoryIsStandard(x: seq<u32>, y: seq<seq<bool>>, r1: u32, r2: u32)
    requires |x| == 4 && y == BitsOfFour(x)
    ensures var m, n := NextMemory(x, r1, r2), Memory(y, ToBits(r1, 32), ToBits(r2, 32));
      m.0 == WordOf(n.0) && m.1 == WordOf(n.1)
  {
    hide ToBits, Xor32, Add32, Plus, Crossed, L1, L2, Linear1, Linear2, Substituted, Sbox, FromBits;
    var w1, w2 := Add32(r1, x[1]), Xor32(r2, x[2]);
    PlusIsAdd(r1, x[1]);
    XorIsXorBits(r2, x[2]);
    CrossedIsHalves(w1, w2);
    CrossedIsHalves(w2, w1);
    LinearIsStandard(Crossed(w1, w2));
    LinearIsStandard(Crossed(w2, w1));
    SubstitutedIsStandard(L1(Crossed(w1, w2)));
    SubstitutedIsStandard(L2(Crossed(w2, w1)));
    WordRoundTrip(Substituted(L1(Crossed(w1, w2))));
    WordRoundTrip(Substituted(L2(Crossed(w2, w1))));
  }

  // ----- every reachable state

  /** Each bit from the fifth on is a sum of two before it. */
  predicate Recurs(b: seq<bool>, tap: nat)
    requires |b| == 15 && tap < 4
  {
    forall j :: 4 <= j < 15 ==> b[j] == (b[j - 4] != b[j - 4 + tap])
  }

  lemma {:induction false} RecursOnly(b: seq<bool>, tap: nat, k: nat)
    requires |b| == 15 && tap < 4 && Recurs(b, tap) && 4 <= k <= 15
    ensures Extended(b[..k], tap) == b
    decreases 15 - k
  {
    if k == 15 {
      assert b[..15] == b;
    } else {
      RecursOnly(b, tap, k + 1);
      assert b[..k + 1] == b[..k] + [b[k]];
    }
  }

  /** The same of the number that the bits make, place by place. */
  predicate RecursByOne(v: nat) {
    && ((v / 1024 % 2 == 1) == ((v / 16384 % 2 == 1) != (v / 8192 % 2 == 1)))
    && ((v / 512 % 2 == 1) == ((v / 8192 % 2 == 1) != (v / 4096 % 2 == 1)))
    && ((v / 256 % 2 == 1) == ((v / 4096 % 2 == 1) != (v / 2048 % 2 == 1)))
    && ((v / 128 % 2 == 1) == ((v / 2048 % 2 == 1) != (v / 1024 % 2 == 1)))
    && ((v / 64 % 2 == 1) == ((v / 1024 % 2 == 1) != (v / 512 % 2 == 1)))
    && ((v / 32 % 2 == 1) == ((v / 512 % 2 == 1) != (v / 256 % 2 == 1)))
    && ((v / 16 % 2 == 1) == ((v / 256 % 2 == 1) != (v / 128 % 2 == 1)))
    && ((v / 8 % 2 == 1) == ((v / 128 % 2 == 1) != (v / 64 % 2 == 1)))
    && ((v / 4 % 2 == 1) == ((v / 64 % 2 == 1) != (v / 32 % 2 == 1)))
    && ((v / 2 % 2 == 1) == ((v / 32 % 2 == 1) != (v / 16 % 2 == 1)))
    && ((v % 2 == 1) == ((v / 16 % 2 == 1) != (v / 8 % 2 == 1)))
  }

  predicate RecursByThree(v: nat) {
    && ((v / 1024 % 2 == 1) == ((v / 16384 % 2 == 1) != (v / 2048 % 2 == 1)))
    && ((v / 512 % 2 == 1) == ((v / 8192 % 2 == 1) != (v / 1024 % 2 == 1)))
    && ((v / 256 % 2 == 1) == ((v / 4096 % 2 == 1) != (v / 512 % 2 == 1)))
    && ((v / 128 % 2 == 1) == ((v / 2048 % 2 == 1) != (v / 256 % 2 == 1)))
    && ((v / 64 % 2 == 1) == ((v / 1024 % 2 == 1) != (v / 128 % 2 == 1)))
    && ((v / 32 % 2 == 1) == ((v / 512 % 2 == 1) != (v / 64 % 2 == 1)))
    && ((v / 16 % 2 == 1) == ((v / 256 % 2 == 1) != (v / 32 % 2 == 1)))
    && ((v / 8 % 2 == 1) == ((v / 128 % 2 == 1) != (v / 16 % 2 == 1)))
    && ((v / 4 % 2 == 1) == ((v / 64 % 2 == 1) != (v / 8 % 2 == 1)))
    && ((v / 2 % 2 == 1) == ((v / 32 % 2 == 1) != (v / 4 % 2 == 1)))
    && ((v % 2 == 1) == ((v / 16 % 2 == 1) != (v / 2 % 2 == 1)))
  }

  lemma BitPlace(v: nat, j: nat, p: nat)
    requires j < 15 && p == Pow2(14 - j)
    ensures ToBits(v, 15)[j] == (v / p % 2 == 1)
  {
    ToBitsAt(v, 15, j);
    ShrLowIsDivMod(v, 14 - j);
  }

  lemma PlaceValues()
    ensures Pow2(0) == 1 && Pow2(1) == 2 && Pow2(2) == 4 && Pow2(3) == 8 && Pow2(4) == 16
    ensures Pow2(5) == 32 && Pow2(6) == 64 && Pow2(7) == 128 && Pow2(8) == 256 && Pow2(9) == 512
    ensures Pow2(10) == 1024 && Pow2(11) == 2048 && Pow2(12) == 4096 && Pow2(13) == 8192 && Pow2(14) == 16384
  {}

  lemma Places(v: nat)
    ensures var b := ToBits(v, 15);
      && b[0] == (v / 16384 % 2 == 1) && b[1] == (v / 8192 % 2 == 1) && b[2] == (v / 4096 % 2 == 1)
      && b[3] == (v / 2048 % 2 == 1) && b[4] == (v / 1024 % 2 == 1) && b[5] == (v / 512 % 2 == 1)
      && b[6] == (v / 256 % 2 == 1) && b[7] == (v / 128 % 2 == 1) && b[8] == (v / 64 % 2 == 1)
      && b[9] == (v / 32 % 2 == 1) && b[10] == (v / 16 % 2 == 1) && b[11] == (v / 8 % 2 == 1)
      && b[12] == (v / 4 % 2 == 1) && b[13] == (v / 2 % 2 == 1) && b[14] == (v % 2 == 1)
  {
    hide ToBits, Pow2;
    PlaceValues();
    BitPlace(v, 0, 16384);
    BitPlace(v, 1, 8192);
    BitPlace(v, 2, 4096);
    BitPlace(v, 3, 2048);
    BitPlace(v, 4, 1024);
    BitPlace(v, 5, 512);
    BitPlace(v, 6, 256);
    BitPlace(v, 7, 128);
    BitPlace(v, 8, 64);
    BitPlace(v, 9, 32);
    BitPlace(v, 10, 16);
    BitPlace(v, 11, 8);
    BitPlace(v, 12, 4);
    BitPlace(v, 13, 2);
    BitPlace(v, 14, 1);
  }

  lemma NumberRecurs(v: nat)
    ensures RecursByOne(v) ==> Recurs(ToBits(v, 15), 1)
    ensures RecursByThree(v) ==> Recurs(ToBits(v, 15), 3)
  {
    hide ToBits;
    Places(v);
  }

  lemma ConstantsRecur0(v: nat)
    requires v == 0x44D7 || v == 0x26BC || v == 0x626B || v == 0x135E
    ensures RecursByOne(v)
  {}

  lemma ConstantsRecur1(v: nat)
    requires v == 0x5789 || v == 0x35E2 || v == 0x7135 || v == 0x09AF
    ensures RecursByOne(v)
  {}

  lemma ConstantsRecur2(v: nat)
    requires v == 0x4D78 || v == 0x2F13 || v == 0x6BC4 || v == 0x1AF1
    ensures RecursByOne(v)
  {}

  lemma ConstantsRecur3(v: nat)
    requires v == 0x5E26 || v == 0x3C4D || v == 0x789A || v == 0x47AC
    ensures if v == 0x47AC then RecursByThree(v) else RecursByOne(v)
  {}

  lemma ConstantStarts(i: nat)
    requires i < 16
    ensures var n, v := i + 1, EK_D[i];
      && 1 <= v < 0x8000
      && (i < 15 ==>
            && (v / 16384 % 2 == 1) == (n % 2 == 1) && (v / 8192 % 2 == 1) == (n / 2 % 2 == 1)
            && (v / 4096 % 2 == 1) == (n / 4 % 2 == 1) && (v / 2048 % 2 == 1) == (n / 8 == 1))
      && (i == 15 ==> v / 2048 == 8)
  {}

  /** The constants of the code are those of the standard. */
  lemma ConstantIsStandard(i: nat)
    requires i < 16
    ensures ToBits(EK_D[i], 15) == Constant(i) && 1 <= EK_D[i] < 0x8000
  {
    hide ToBits, Recurs, Extended, RecursByOne, RecursByThree;
    var v := EK_D[i];
    var b := ToBits(v, 15);
    if i < 4 {
      ConstantsRecur0(v);
    } else if i < 8 {
      ConstantsRecur1(v);
    } else if i < 12 {
      ConstantsRecur2(v);
    } else {
      ConstantsRecur3(v);
    }
    NumberRecurs(v);
    Places(v);
    ConstantStarts(i);
    assert b[..4] == [b[0], b[1], b[2], b[3]];
    RecursOnly(b, if i < 15 then 1 else 3, 4);
  }

  lemma LoadedCell(a: u8, b: u32, c: u8)
    requires 1 <= b < 0x8000
    ensures 1 <= MakeU31(a, b, c) <= P
    ensures MakeU31(a, b, c) == CellOf(ToBits(a, 8) + ToBits(b, 15) + ToBits(c, 8))
  {
    hide Or, Shl, Low, ToBits, FromBits;
    assert Pow2(8) == 0x100 && Pow2(23) == 0x80_0000 && Pow2(15) == 0x8000;
    WidthFacts();
    OrFields(a, b, 15, 8);
    ShlIsProduct(a, 23);
    ShlIsProduct(b, 8);
    LowSmall(Shl(a, 23), 32);
    LowSmall(Shl(b, 8), 32);
    Disjoint(a * 0x8000 + b, c, 8);
    ShlIsProduct(a * 0x8000 + b, 8);
    ShlIsProduct(a, 15);
    ToBitsFields(a, b, 8, 15);
    ToBitsFields(a * 0x8000 + b, c, 23, 8);
    FromToBits(MakeU31(a, b, c), 31);
    Pow31();
    LowSmall(MakeU31(a, b, c), 31);
  }

  lemma {:induction false} LoadedIsStandard(key: seq<u8>, iv: seq<u8>, n: nat)
    requires |key| == |iv| == 16 && n <= 16
    ensures forall i :: 0 <= i < n ==> 1 <= Loaded(key, iv, n)[i] <= P
    ensures Loaded(key, iv, n) == StandardLoaded(key, iv, n)
  {
    hide MakeU31, CellOf, ToBits, Constant;
    if n != 0 {
      LoadedIsStandard(key, iv, n - 1);
      ConstantIsStandard(n - 1);
      LoadedCell(key[n - 1], EK_D[n - 1], iv[n - 1]);
    }
  }

  ghost function Good(): State -> bool {
    (st: State) => InRange(st.s)
  }

  lemma HalfWord(w: u32)
    ensures Shr32(w, 1) == HalfOf(ToBits(w, 32)) <= P
  {
    hide ToBits, FromBits, Shr;
    WidthFacts();
    Pow31();
    TopSmall(w, 31, 1);
    ToBitsPrefix(w, 31, 1);
    FromToBits(Shr(w, 1), 31);
    LowSmall(Shr(w, 1), 31);
  }

  lemma RoundIsStandard(st: State, init: bool)
    requires InRange(st.s)
    ensures Round(st, init) == StandardRound(st, init)
    ensures InRange(Round(st, init).s)
  {
    hide Reorganized, Words4, OutputOfF, Output, NextMemory, Memory, Clock, StandardClock;
    hide ToBits, WordOf, HalfOf, Shr32;
    ReorganizedIsStandard(st.s);
    var x, y := Reorganized(st.s), Words4(st.s);
    OutputIsStandard(x, y, st.r1, st.r2);
    MemoryIsStandard(x, y, st.r1, st.r2);
    var w := OutputOfF(x, st.r1, st.r2);
    HalfWord(w);
    ClockIsStandard(st.s, init, Shr32(w, 1));
  }

  lemma WordIsStandard(st: State)
    requires InRange(st.s)
    ensures KeyStreamWord(st) == StandardWord(st)
  {
    hide Reorganized, Words4, OutputOfF, Output, ToBits, Xor32, FromBits;
    ReorganizedIsStandard(st.s);
    var x, y := Reorganized(st.s), Words4(st.s);
    OutputIsStandard(x, y, st.r1, st.r2);
    XorIsXorBits(OutputOfF(x, st.r1, st.r2), x[3]);
    WordRoundTrip(Xor32(OutputOfF(x, st.r1, st.r2), x[3]));
  }

  lemma StepIsStandard(init: bool)
    ensures forall st: State :: Good()(st) ==>
      Good()(Step(init)(st)) && Step(init)(st) == StandardStep(init)(st)
  {
    hide Round, StandardRound, InRange;
    forall st: State | Good()(st)
      ensures Good()(Step(init)(st)) && Step(init)(st) == StandardStep(init)(st)
    {
      RoundIsStandard(st, init);
    }
  }

  /** A run of either kind from cells in range stays in range and is the standard's run. */
  lemma RunIsStandard(st: State, init: bool, n: nat)
    requires InRange(st.s)
    ensures Iterate(Step(init), st, n) == Iterate(StandardStep(init), st, n)
    ensures InRange(Iterate(Step(init), st, n).s)
  {
    hide Step, StandardStep;
    StepIsStandard(init);
    IterateAgree(Step(init), StandardStep(init), Good(), st, n);
  }

  /** In every state a run can reach, all cells lie between 1 and 2^31 - 1, and the state is
      the one the standard prescribes: `k` initialising rounds, then `n` working ones. */
  lemma ReachableIsStandard(key: seq<u8>, iv: seq<u8>, k: nat, n: nat)
    requires |key| == |iv| == 16
    ensures var st := State(Loaded(key, iv, 16), 0, 0);
      var code := Iterate(Step(false), Iterate(Step(true), st, k), n);
      && InRange(code.s)
      && code == Iterate(StandardStep(false),
           Iterate(StandardStep(true), State(StandardLoaded(key, iv, 16), 0, 0), k), n)
  {
    hide Step, StandardStep, Loaded, StandardLoaded, Iterate;
    LoadedIsStandard(key, iv, 16);
    var st := State(Loaded(key, iv, 16), 0, 0);
    RunIsStandard(st, true, k);
    RunIsStandard(Iterate(Step(true), st, k), false, n);
  }

  lemma {:induction false} StreamIsStandard(st: State, n: nat)
    requires InRange(st.s)
    ensures KeyStream(st, n) == StandardStream(st, n)
  {
    hide Step, StandardStep, KeyStreamWord, StandardWord, Iterate, InRange;
    if n != 0 {
      StreamIsStandard(st, n - 1);
      RunIsStandard(st, false, n - 1);
      WordIsStandard(Iterate(Step(false), st, n - 1));
    }
  }

  /** Hence the key stream of the code is that of the standard. */
  lemma KeyStreamIsStandard(key: seq<u8>, iv: seq<u8>, n: nat)
    requires |key| == |iv| == 16
    ensures KeyStream(Initialized(key, iv), n) == StandardStream(StandardInitialized(key, iv), n)
  {
    hide Step, StandardStep, Loaded, StandardLoaded;
    LoadedIsStandard(key, iv, 16);
    ReachableIsStandard(key, iv, 32, 0);
    ReachableIsStandard(key, iv, 32, 1);
    var st := State(Loaded(key, iv, 16), 0, 0);
    IterateOnce(Step(false), Iterate(Step(true), st, 32));
    IterateOnce(StandardStep(false), Iterate(StandardStep(true), st, 32));
    StreamIsStandard(Initialized(key, iv), n);
  }
}
