/** SNOW 3G as sections 3 and 4 of TS 35.216 define it, on bit strings, and the proof that the
    code computes it. */
module SnowStandard {
  import opened Words
  import opened BitWords
  import opened Iteration
  import opened Gf2Ring
  import opened ByteField
  import opened SnowAlpha
  import opened SnowBoxes
  import opened Snow3g

  // ----- the standard

  /** MULx: a byte moved up by one bit, and `c` added if a bit is lost. */
  function TimesX(v: seq<bool>, c: seq<bool>): (r: seq<bool>)
    requires |v| == |c| == 8
    ensures |r| == 8
  {
    if v[0] then XorBits(v[1..] + [false], c) else v[1..] + [false]
  }

  /** MULxPOW. */
  function TimesXToThe(v: seq<bool>, i: nat, c: seq<bool>): (r: seq<bool>)
    requires |v| == |c| == 8
    ensures |r| == 8
  {
    if i == 0 then v else TimesX(TimesXToThe(v, i - 1, c), c)
  }

  // The constants 0xA9, 0x1B and 0x69.
  const A9: seq<bool> := [true, false, true, false, true, false, false, true]
  const HEX1B: seq<bool> := [false, false, false, true, true, false, true, true]
  const HEX69: seq<bool> := [false, true, true, false, true, false, false, true]

  /** Section 3.4.2. */
  function MulAlphaBits(v: seq<bool>): (r: seq<bool>)
    requires |v| == 8
    ensures |r| == 32
  {
    TimesXToThe(v, 23, A9) + TimesXToThe(v, 245, A9) + TimesXToThe(v, 48, A9) + TimesXToThe(v, 239, A9)
  }

  /** Section 3.4.3. */
  function DivAlphaBits(v: seq<bool>): (r: seq<bool>)
    requires |v| == 8
    ensures |r| == 32
  {
    TimesXToThe(v, 16, A9) + TimesXToThe(v, 39, A9) + TimesXToThe(v, 6, A9) + TimesXToThe(v, 64, A9)
  }

  /** The Rijndael S-box on eight bits. */
  function BoxR(b: seq<bool>): (r: seq<bool>)
    requires |b| == 8
    ensures |r| == 8
  {
    ToBits(Rijndael(ByteValue(b) as bv8) as int, 8)
  }

  function BoxQ(b: seq<bool>): (r: seq<bool>)
    requires |b| == 8
    ensures |r| == 8
  {
    ToBits(Polynomial(ByteValue(b) as bv8) as int, 8)
  }

  function Sum(a: seq<bool>, b: seq<bool>): (r: seq<bool>)
    requires |a| == |b|
    ensures |r| == |a|
  {
    XorBits(a, b)
  }

  /** Twice the first byte, three times the last, and the two between. */
  function MixedByte(twice: seq<bool>, thrice: seq<bool>, a: seq<bool>, b: seq<bool>, c: seq<bool>): (r: seq<bool>)
    requires |twice| == |thrice| == |a| == |b| == |c| == 8
    ensures |r| == 8
  {
    Sum(Sum(Sum(TimesX(twice, c), a), b), Sum(TimesX(thrice, c), thrice))
  }

  /** Sections 3.3.1 and 3.3.2: every byte of the result mixes all four, one place further. */
  function MixedWord(a: seq<bool>, b: seq<bool>, d: seq<bool>, e: seq<bool>, c: seq<bool>): (r: seq<bool>)
    requires |a| == |b| == |d| == |e| == |c| == 8
    ensures |r| == 32
  {
    MixedByte(a, e, b, d, c) + MixedByte(b, a, d, e, c) + MixedByte(d, b, e, a, c) + MixedByte(e, d, a, b, c)
  }

  function BoxOne(w: seq<bool>): (r: seq<bool>)
    requires |w| == 32
    ensures |r| == 32
  {
    hide MixedWord, BoxR;
    MixedWord(BoxR(w[..8]), BoxR(w[8..16]), BoxR(w[16..24]), BoxR(w[24..]), HEX1B)
  }

  function BoxTwo(w: seq<bool>): (r: seq<bool>)
    requires |w| == 32
    ensures |r| == 32
  {
    hide MixedWord, BoxQ;
    MixedWord(BoxQ(w[..8]), BoxQ(w[8..16]), BoxQ(w[16..24]), BoxQ(w[24..]), HEX69)
  }

  /** The sixteen cells of the register and the three of the state machine. */
  datatype Standard = Standard(s: seq<seq<bool>>, r1: seq<bool>, r2: seq<bool>, r3: seq<bool>)

  predicate Whole(m: Standard) {
    |m.s| == 16 && (forall i :: 0 <= i < 16 ==> |m.s[i]| == 32) && |m.r1| == |m.r2| == |m.r3| == 32
  }

  /** Section 3.4.6: the output of the state machine. */
  function Output(m: Standard): (f: seq<bool>)
    requires Whole(m)
    ensures |f| == 32
  {
    Sum(Plus(m.s[15], m.r1), m.r2)
  }

  /** Sections 3.4.4 and 3.4.5: the new cell of the register. */
  function NewCell(s: seq<seq<bool>>): (v: seq<bool>)
    requires |s| == 16 && |s[0]| == |s[2]| == |s[11]| == 32
    ensures |v| == 32
  {
    Sum(Sum(s[0][8..] + Zeros(8), MulAlphaBits(s[0][..8])),
        Sum(s[2], Sum(Zeros(8) + s[11][..24], DivAlphaBits(s[11][24..]))))
  }

  /** One clock of both; while initialising, the output is added to the new cell. */
  function StandardRound(m: Standard, init: bool): (n: Standard)
    requires Whole(m)
    ensures Whole(n)
  {
    hide NewCell, Output, BoxOne, BoxTwo, Plus, Sum;
    var v := NewCell(m.s);
    Standard(m.s[1..] + [if init then Sum(v, Output(m)) else v],
             Plus(m.r2, Sum(m.r3, m.s[5])), BoxOne(m.r1), BoxTwo(m.r2))
  }

  function StandardRun(m: Standard, k: nat, init: bool): (n: Standard)
    requires Whole(m)
    ensures Whole(n)
  {
    if k == 0 then m else StandardRound(StandardRun(m, k - 1, init), init)
  }

  /** A word with every bit inverted. */
  function Inverted(w: seq<bool>): (r: seq<bool>)
    ensures |r| == |w|
  {
    seq(|w|, i requires 0 <= i < |w| => !w[i])
  }

  /** Section 4.1: key and initial value, then 32 clocks. */
  function StandardLoaded(k: seq<seq<bool>>, iv: seq<seq<bool>>): (m: Standard)
    requires |k| == |iv| == 4 && forall i :: 0 <= i < 4 ==> |k[i]| == |iv[i]| == 32
    ensures Whole(m)
  {
    var j := seq(4, i requires 0 <= i < 4 => Inverted(k[i]));
    Standard(
      [j[0], j[1], j[2], j[3]] + k + [j[0], Sum(j[1], iv[3]), Sum(j[2], iv[2]), j[3]]
        + [Sum(k[0], iv[1]), k[1], k[2], Sum(k[3], iv[0])],
      Zeros(32), Zeros(32), Zeros(32))
  }

  function StandardInitialized(k: seq<seq<bool>>, iv: seq<seq<bool>>): (m: Standard)
    requires |k| == |iv| == 4 && forall i :: 0 <= i < 4 ==> |k[i]| == |iv[i]| == 32
    ensures Whole(m)
  {
    StandardRun(StandardLoaded(k, iv), 32, true)
  }

  /** Section 4.2: the first output is discarded; each word is an output and the oldest cell. */
  function StandardWord(m: Standard, t: nat): (z: seq<bool>)
    requires Whole(m)
    ensures |z| == 32
  {
    var n := StandardRun(m, t + 1, false);
    Sum(Output(n), n.s[0])
  }

  // ----- the code's bytes

  lemma ConstantsAre()
    ensures ToBits(0xa9, 8) == A9 && ToBits(0x1b, 8) == HEX1B && ToBits(0x69, 8) == HEX69
  {
    hide ToBits;
    NibbleBits(0xa);
    NibbleBits(0x9);
    NibbleBits(0x1);
    NibbleBits(0xb);
    NibbleBits(0x6);
    TwoDigits(0xa, 0x9);
    TwoDigits(0x1, 0xb);
    TwoDigits(0x6, 0x9);
  }

  /** `MULx` on a byte. */
  lemma TwiceIsStandard(v: u8, c: u8)
    ensures ToBits(Twice(v, c), 8) == TimesX(ToBits(v, 8), ToBits(c, 8))
  {
    hide ToBits, Xor, Low, Shl, Bit, MulX;
    var d := Low(Shl(v, 1), 8);
    MulXAsXor(8, v, c);
    ToBitsAt(v, 8, 0);
    DoubledBits(v);
    ToBitsXor(d, if Bit(v, 7) then c else 0, 8);
    ToBitsOfZero(8);
    AddsNothing(ToBits(d, 8));
  }

  lemma AddsNothing(b: seq<bool>)
    ensures XorBits(b, Zeros(|b|)) == b && XorBits(Zeros(|b|), b) == b
  {}

  /** `MULxPOW` with the constant of alpha. */
  lemma {:induction false} PowerIsStandard(v: u8, i: nat)
    ensures ByteTimesXPow(v, i) < 0x100
    ensures ToBits(ByteTimesXPow(v, i), 8) == TimesXToThe(ToBits(v, 8), i, A9)
  {
    hide ToBits, MulX, TimesX;
    ByteTimesXPowBound(v, i);
    if i != 0 {
      PowerIsStandard(v, i - 1);
      ConstantsAre();
      TwiceIsStandard(ByteTimesXPow(v, i - 1), 0xa9);
    }
  }

  /** Alpha times a word. */
  lemma AlphaIsStandard(w: u32)
    ensures AlphaTimes(w) < TWO_32
    ensures var b := ToBits(w, 32);
      ToBits(AlphaTimes(w), 32) == Sum(b[8..] + Zeros(8), MulAlphaBits(b[..8]))
  {
    hide ToBits, Xor, AlphaTimes, ByteTimesXPow, TimesXToThe, Bytes4;
    AlphaTimesIsWord(w);
    var b3, b2, b1, b0 := BytesOf(w);
    AlphaTimesBytes(b3, b2, b1, b0);
    Bytes4Bits(b3, b2, b1, b0);
    PowerIsStandard(b3, 23);
    PowerIsStandard(b3, 245);
    PowerIsStandard(b3, 48);
    PowerIsStandard(b3, 239);
    var p, q, r, t: u8 := ByteTimesXPow(b3, 23), ByteTimesXPow(b3, 245), ByteTimesXPow(b3, 48), ByteTimesXPow(b3, 239);
    Bytes4Bits(XorOctets(b2, p), XorOctets(b1, q), XorOctets(b0, r), t);
    XorOfOctets(b2, p);
    XorOfOctets(b1, q);
    XorOfOctets(b0, r);
    AddsNothing(ToBits(t, 8));
    FourSums(ToBits(b2, 8), ToBits(b1, 8), ToBits(b0, 8), Zeros(8),
             ToBits(p, 8), ToBits(q, 8), ToBits(r, 8), ToBits(t, 8));
    var b := ToBits(w, 32);
    assert b[..8] == ToBits(b3, 8) && b[8..] == ToBits(b2, 8) + ToBits(b1, 8) + ToBits(b0, 8);
  }

  /** A sum of strings of four bytes is that of the bytes. */
  lemma FourSums(a: seq<bool>, b: seq<bool>, c: seq<bool>, d: seq<bool>,
                 p: seq<bool>, q: seq<bool>, r: seq<bool>, t: seq<bool>)
    requires |a| == |b| == |c| == |d| == |p| == |q| == |r| == |t| == 8
    ensures XorBits(a + b + c + d, p + q + r + t) == XorBits(a, p) + XorBits(b, q) + XorBits(c, r) + XorBits(d, t)
  {}

  /** A word divided by alpha. */
  lemma AlphaInverseIsStandard(w: u32)
    ensures AlphaInverseTimes(w) < TWO_32
    ensures var b := ToBits(w, 32);
      ToBits(AlphaInverseTimes(w), 32) == Sum(Zeros(8) + b[..24], DivAlphaBits(b[24..]))
  {
    hide ToBits, Xor, AlphaInverseTimes, ByteTimesXPow, TimesXToThe, Bytes4;
    AlphaTimesIsWord(w);
    var b3, b2, b1, b0 := BytesOf(w);
    AlphaInverseTimesBytes(b3, b2, b1, b0);
    Bytes4Bits(b3, b2, b1, b0);
    PowerIsStandard(b0, 16);
    PowerIsStandard(b0, 39);
    PowerIsStandard(b0, 6);
    PowerIsStandard(b0, 64);
    var p, q, r, t: u8 := ByteTimesXPow(b0, 16), ByteTimesXPow(b0, 39), ByteTimesXPow(b0, 6), ByteTimesXPow(b0, 64);
    Bytes4Bits(p, XorOctets(b3, q), XorOctets(b2, r), XorOctets(b1, t));
    XorOfOctets(b3, q);
    XorOfOctets(b2, r);
    XorOfOctets(b1, t);
    AddsNothing(ToBits(p, 8));
    FourSums(Zeros(8), ToBits(b3, 8), ToBits(b2, 8), ToBits(b1, 8),
             ToBits(p, 8), ToBits(q, 8), ToBits(r, 8), ToBits(t, 8));
    var b := ToBits(w, 32);
    assert b[24..] == ToBits(b0, 8) && b[..24] == ToBits(b3, 8) + ToBits(b2, 8) + ToBits(b1, 8);
  }

  // ----- the code's S-boxes

  lemma OctetsAre(w: u32)
    ensures var a, b := OctetsOf(w), ToBits(w, 32);
      && ToBits(a.r0, 8) == b[..8] && ToBits(a.r1, 8) == b[8..16]
      && ToBits(a.r2, 8) == b[16..24] && ToBits(a.r3, 8) == b[24..]
  {
    hide ToBits, OctetsOf, Or, Shl;
    var a := OctetsOf(w);
    OctetsJoin(w);
    OrBytes4(a.r0, a.r1, a.r2, a.r3);
    Bytes4Bits(a.r0, a.r1, a.r2, a.r3);
  }

  lemma ByteIsStandard(twice: u8, thrice: u8, a: u8, b: u8, c: u8)
    ensures ToBits(XorOctets(XorOctets(XorOctets(Twice(twice, c), a), b), XorOctets(Twice(thrice, c), thrice)), 8)
         == MixedByte(ToBits(twice, 8), ToBits(thrice, 8), ToBits(a, 8), ToBits(b, 8), ToBits(c, 8))
  {
    hide ToBits, XorOctets, Twice, TimesX;
    TwiceIsStandard(twice, c);
    TwiceIsStandard(thrice, c);
    var t, u := Twice(twice, c), Twice(thrice, c);
    XorOfOctets(t, a);
    XorOfOctets(XorOctets(t, a), b);
    XorOfOctets(u, thrice);
    XorOfOctets(XorOctets(XorOctets(t, a), b), XorOctets(u, thrice));
  }

  /** The expressions of the code, whose terms stand in other orders. */
  lemma MixedIsStandard(a: Column, c: u8)
    ensures ToBits(Joined(Mixed(a, c)), 32)
         == MixedWord(ToBits(a.r0, 8), ToBits(a.r1, 8), ToBits(a.r2, 8), ToBits(a.r3, 8), ToBits(c, 8))
  {
    hide ToBits, Xor, Twice, MixedByte, Or, Shl;
    var m := Mixed(a, c);
    ByteIsStandard(a.r0, a.r3, a.r1, a.r2, c);
    ByteIsStandard(a.r1, a.r0, a.r2, a.r3, c);
    ByteIsStandard(a.r2, a.r1, a.r3, a.r0, c);
    ByteIsStandard(a.r3, a.r2, a.r0, a.r1, c);
    SameSums(a, c);
    OrBytes4(m.r0, m.r1, m.r2, m.r3);
    Bytes4Bits(m.r0, m.r1, m.r2, m.r3);
  }

  lemma SameSums(a: Column, c: u8)
    ensures var m := Mixed(a, c);
      var t0, t1, t2, t3 := Twice(a.r0, c), Twice(a.r1, c), Twice(a.r2, c), Twice(a.r3, c);
      && m.r0 == XorOctets(XorOctets(XorOctets(t0, a.r1), a.r2), XorOctets(t3, a.r3))
      && m.r1 == XorOctets(XorOctets(XorOctets(t1, a.r2), a.r3), XorOctets(t0, a.r0))
      && m.r2 == XorOctets(XorOctets(XorOctets(t2, a.r3), a.r0), XorOctets(t1, a.r1))
      && m.r3 == XorOctets(XorOctets(XorOctets(t3, a.r0), a.r1), XorOctets(t2, a.r2))
  {
    hide Xor, Twice, Bit;
    var t0, t1, t2, t3 := Twice(a.r0, c), Twice(a.r1, c), Twice(a.r2, c), Twice(a.r3, c);
    var m := Mixed(a, c);
    var s1 := XorOctets(XorOctets(XorOctets(t1, a.r2), a.r3), XorOctets(t0, a.r0));
    var s2 := XorOctets(XorOctets(XorOctets(t2, a.r3), a.r0), XorOctets(t1, a.r1));
    var s3 := XorOctets(XorOctets(XorOctets(t3, a.r0), a.r1), XorOctets(t2, a.r2));
    forall k: nat ensures Bit(m.r1, k) == Bit(s1, k) && Bit(m.r2, k) == Bit(s2, k) && Bit(m.r3, k) == Bit(s3, k) {
      BitsOfXor(k);
    }
    SameBits(m.r1, s1);
    SameBits(m.r2, s2);
    SameBits(m.r3, s3);
  }

  /** The S-boxes. */
  lemma BoxesAreStandard(w: u32)
    ensures ToBits(S1(w), 32) == BoxOne(ToBits(w, 32)) && ToBits(S2(w), 32) == BoxTwo(ToBits(w, 32))
  {
    hide ToBits, OctetsOf, SR, SQ, Rijndael, Polynomial, Mixed, Joined, MixedWord;
    var a, b := OctetsOf(w), ToBits(w, 32);
    OctetsAre(w);
    ConstantsAre();
    EntriesAreStandard(a.r0);
    EntriesAreStandard(a.r1);
    EntriesAreStandard(a.r2);
    EntriesAreStandard(a.r3);
    MixedIsStandard(SRColumn(a), 0x1b);
    MixedIsStandard(SQColumn(a), 0x69);
  }

  /** A look-up in the tables. */
  lemma EntriesAreStandard(i: u8)
    ensures 0 <= SR(i) < 0x100 && ToBits(SR(i), 8) == BoxR(ToBits(i, 8))
    ensures 0 <= SQ(i) < 0x100 && ToBits(SQ(i), 8) == BoxQ(ToBits(i, 8))
  {
    hide ToBits, SR, SQ, Rijndael, Polynomial, ByteValue;
    SRHoldsOctets(i);
    SQHoldsOctets(i);
    SRLaw(i);
    SQLaw(i);
    OctetRoundTrip(i);
  }

  // ----- a round

  function BitsOf(r: Register): (s: seq<seq<bool>>)
    ensures |s| == 16 && forall i :: 0 <= i < 16 ==> |s[i]| == 32
  {
    [ToBits(r.s0, 32), ToBits(r.s1, 32), ToBits(r.s2, 32), ToBits(r.s3, 32),
     ToBits(r.s4, 32), ToBits(r.s5, 32), ToBits(r.s6, 32), ToBits(r.s7, 32),
     ToBits(r.s8, 32), ToBits(r.s9, 32), ToBits(r.s10, 32), ToBits(r.s11, 32),
     ToBits(r.s12, 32), ToBits(r.s13, 32), ToBits(r.s14, 32), ToBits(r.s15, 32)]
  }

  /** The state of the code, as bits. */
  function InBits(m: Machine): (n: Standard)
    ensures Whole(n)
  {
    Standard(BitsOf(m.lfsr), ToBits(m.r1, 32), ToBits(m.r2, 32), ToBits(m.r3, 32))
  }

  lemma ShiftIsStandard(r: Register, v: u32)
    ensures BitsOf(Shifted(r, v)) == BitsOf(r)[1..] + [ToBits(v, 32)]
  {
    hide ToBits;
  }

  lemma CellsAre(r: Register)
    ensures var s := BitsOf(r);
      && s[0] == ToBits(r.s0, 32) && s[2] == ToBits(r.s2, 32) && s[5] == ToBits(r.s5, 32)
      && s[11] == ToBits(r.s11, 32) && s[15] == ToBits(r.s15, 32)
  {
    hide ToBits;
  }

  lemma CellIsStandard(r: Register)
    ensures ToBits(Feedback(r.s0, r.s2, r.s11), 32) == NewCell(BitsOf(r))
  {
    hide ToBits, BitsOf, AlphaTimes, AlphaInverseTimes, Xor32, MulAlphaBits, DivAlphaBits, Sum;
    CellsAre(r);
    AlphaIsStandard(r.s0);
    AlphaInverseIsStandard(r.s11);
    var a, b: u32 := AlphaTimes(r.s0), AlphaInverseTimes(r.s11);
    SumIsXor(a, r.s2);
    SumIsXor(Xor32(a, r.s2), b);
    SumsRegroup(ToBits(a, 32), ToBits(r.s2, 32), ToBits(b, 32));
  }

  lemma SumIsXor(a: u32, b: u32)
    ensures ToBits(Xor32(a, b), 32) == Sum(ToBits(a, 32), ToBits(b, 32))
  {
    hide ToBits;
    XorIsXorBits(a, b);
  }

  lemma SumsRegroup(a: seq<bool>, b: seq<bool>, c: seq<bool>)
    requires |a| == |b| == |c|
    ensures Sum(Sum(a, b), c) == Sum(a, Sum(b, c))
  {}

  /** The output of the state machine. */
  lemma OutputIsStandard(m: Machine)
    ensures ToBits(FsmOutput(m), 32) == Output(InBits(m))
  {
    hide ToBits, BitsOf, Xor32, Add32, Plus, Sum;
    CellsAre(m.lfsr);
    PlusIsAdd(m.lfsr.s15, m.r1);
    SumIsXor(Add32(m.lfsr.s15, m.r1), m.r2);
  }

  /** A round of the code, of either kind, is that of the standard. */
  lemma RoundIsStandard(m: Machine, init: bool)
    ensures InBits(Round(m, init)) == StandardRound(InBits(m), init)
  {
    hide ToBits, BitsOf, Xor32, Add32, Plus, Sum, Feedback, FsmOutput, Output, NewCell, S1, S2, BoxOne, BoxTwo;
    var r, f := m.lfsr, FsmOutput(m);
    CellsAre(r);
    OutputIsStandard(m);
    CellIsStandard(r);
    var v := Feedback(r.s0, r.s2, r.s11);
    SumIsXor(v, f);
    NothingFed(v);
    ShiftIsStandard(r, Xor32(v, if init then f else 0));
    SumIsXor(m.r3, r.s5);
    PlusIsAdd(m.r2, Xor32(m.r3, r.s5));
    BoxesAreStandard(m.r1);
    BoxesAreStandard(m.r2);
  }

  lemma NothingFed(v: u32)
    ensures Xor32(v, 0) == v
  {
    XorZero(v);
  }

  // ----- runs

  /** Any run of the code is that of the standard. */
  lemma {:induction false} RunIsStandard(m: Machine, k: nat, init: bool)
    ensures InBits(Rounds(m, k, init)) == StandardRun(InBits(m), k, init)
  {
    hide Round, StandardRound, InBits;
    if k != 0 {
      RunIsStandard(m, k - 1, init);
      RoundIsStandard(Rounds(m, k - 1, init), init);
    }
  }

  lemma InvertedIsComplement(w: u32)
    ensures ToBits(Complement(w), 32) == Inverted(ToBits(w, 32))
  {
    hide ToBits, Xor;
    ToBitsXor(w, 0xffff_ffff, 32);
    AllOnes(32);
    WidthFacts();
  }

  lemma {:induction false} AllOnes(n: nat)
    ensures ToBits(Pow2(n) - 1, n) == seq(n, i => true)
  {
    if n != 0 {
      AllOnes(n - 1);
      assert (Pow2(n) - 1) / 2 == Pow2(n - 1) - 1;
    }
  }

  function FourBits(k: seq<u32>): (b: seq<seq<bool>>)
    requires |k| == 4
    ensures |b| == 4 && forall i :: 0 <= i < 4 ==> |b[i]| == 32
  {
    [ToBits(k[0], 32), ToBits(k[1], 32), ToBits(k[2], 32), ToBits(k[3], 32)]
  }

  /** The key load. */
  lemma LoadIsStandard(k: seq<u32>, iv: seq<u32>)
    requires |k| == |iv| == 4
    ensures InBits(Load(k, iv)) == StandardLoaded(FourBits(k), FourBits(iv))
  {
    hide ToBits, Xor32, Complement, Inverted, Sum;
    InvertedIsComplement(k[0]);
    InvertedIsComplement(k[1]);
    InvertedIsComplement(k[2]);
    InvertedIsComplement(k[3]);
    SumIsXor(Complement(k[1]), iv[3]);
    SumIsXor(Complement(k[2]), iv[2]);
    SumIsXor(k[0], iv[1]);
    SumIsXor(k[3], iv[0]);
    ToBitsOfZero(32);
    assert BitsOf(Load(k, iv).lfsr) == StandardLoaded(FourBits(k), FourBits(iv)).s;
  }

  /** A word of the key stream, from any state. */
  lemma {:induction false} WordIsStandard(m: Machine, n: nat, t: nat)
    requires t < n
    ensures ToBits(KeyStream(m, n)[t], 32) == StandardWord(InBits(m), t)
  {
    hide ToBits, StandardRun, Rounds, Sum, Output, FsmOutput, BitsOf;
    if t < n - 1 {
      WordIsStandard(m, n - 1, t);
    } else {
      var q := Rounds(m, n, false);
      RunIsStandard(m, n, false);
      OutputIsStandard(q);
      CellsAre(q.lfsr);
      SumIsXor(FsmOutput(q), q.lfsr.s0);
    }
  }

  /** The key stream of every key and initial value is the one the standard prescribes. */
  lemma KeyStreamIsStandard(k: seq<u32>, iv: seq<u32>, n: nat, t: nat)
    requires |k| == |iv| == 4 && t < n
    ensures ToBits(KeyStream(Initialized(k, iv), n)[t], 32)
         == StandardWord(StandardInitialized(FourBits(k), FourBits(iv)), t)
  {
    hide ToBits, StandardRun, StandardLoaded, StandardWord, Rounds, KeyStream, InBits;
    LoadIsStandard(k, iv);
    RunIsStandard(Load(k, iv), 32, true);
    WordIsStandard(Initialized(k, iv), n, t);
  }
}
