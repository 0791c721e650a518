/** Multiplication and division by alpha on the 32-bit words of SNOW 3G, table-free as in
    section 3.4 of TS 35.216: alpha is a root of x^4 + b^23 x^3 + b^245 x^2 + b^48 x + b^239
    over the bytes, where b is x in GF(2)[x]/(x^8 + x^7 + x^5 + x^3 + 1). */
module SnowAlpha {
  import opened Words
  import opened Gf2Ring

  // ----- multiplication and division by alpha

  function ByteTimesXPow(c: nat, i: nat): nat {
    MulXPow(8, c, i, 0xa9)
  }

  function MulAlpha(c: nat): nat {
    Or(Or(Or(Shl(ByteTimesXPow(c, 23), 24), Shl(ByteTimesXPow(c, 245), 16)),
          Shl(ByteTimesXPow(c, 48), 8)), ByteTimesXPow(c, 239))
  }

  function DivAlpha(c: nat): nat {
    Or(Or(Or(Shl(ByteTimesXPow(c, 16), 24), Shl(ByteTimesXPow(c, 39), 16)),
          Shl(ByteTimesXPow(c, 6), 8)), ByteTimesXPow(c, 64))
  }

  /** The contribution of `LFSR_S0` to the feedback: alpha times the word. */
  function AlphaTimes(w: nat): nat {
    Xor(And(Low(Shl(w, 8), 32), 0xffff_ff00), MulAlpha(And(Shr(w, 24), 0xff)))
  }

  /** The contribution of `LFSR_S11`: the word divided by alpha. */
  function AlphaInverseTimes(w: nat): nat {
    Xor(And(Shr(w, 8), 0x00ff_ffff), DivAlpha(And(w, 0xff)))
  }

  lemma ByteTimesXPowBound(c: u8, i: nat)
    ensures ByteTimesXPow(c, i) < 0x100
  {
    WidthFacts();
    MulXPowBound(8, c, i, 0xa9);
  }

  lemma XorByte(a: nat, b: u8, c: nat, d: u8)
    ensures Xor(a * 0x100 + b, c * 0x100 + d) == Xor(a, c) * 0x100 + Xor(b, d)
  {
    hide Xor;
    assert Pow2(8) == 0x100;
    XorFields(a, b, c, d, 8);
  }

  lemma XorBytes4(a3: u8, a2: u8, a1: u8, a0: u8, b3: u8, b2: u8, b1: u8, b0: u8)
    ensures Xor(Bytes4(a3, a2, a1, a0), Bytes4(b3, b2, b1, b0))
         == Bytes4(Xor(a3, b3), Xor(a2, b2), Xor(a1, b1), Xor(a0, b0))
  {
    hide Xor;
    var p, q := a3 * 0x100 + a2, b3 * 0x100 + b2;
    XorByte(p * 0x100 + a1, a0, q * 0x100 + b1, b0);
    XorByte(p, a1, q, b1);
    XorByte(a3, a2, b3, b2);
  }

  lemma BytesOf(w: u32) returns (b3: u8, b2: u8, b1: u8, b0: u8)
    ensures w == Bytes4(b3, b2, b1, b0)
  {
    var high, middle := w / 0x100, w / 0x100 / 0x100;
    b3, b2, b1, b0 := middle / 0x100, middle % 0x100, high % 0x100, w % 0x100;
  }

  lemma TopByte(b3: u8, low: nat)
    requires low < 0x100_0000
    ensures And(Shr(b3 * 0x100_0000 + low, 24), 0xff) == b3
  {
    hide And, Shr, Low, Pow2;
    WidthFacts();
    SplitUnique(b3, low, 24);
    AndLowMask(b3, 8);
    LowSmall(b3, 8);
  }

  lemma ShiftUp(b3: u8, low: nat)
    requires low < 0x100_0000
    ensures And(Low(Shl(b3 * 0x100_0000 + low, 8), 32), 0xffff_ff00) == low * 0x100
  {
    hide And, Low, Shl, Pow2;
    assert Pow2(8) == 0x100 && Pow2(24) == 0x100_0000 by {
      WidthFacts();
    }
    ShlDrops(b3, low, 24, 8);
    ShlIsProduct(low, 8);
    MaskHigh(low);
  }

  lemma AlphaTimesBytes(b3: u8, b2: u8, b1: u8, b0: u8)
    ensures Bytes4(b3, b2, b1, b0) < TWO_32
    ensures AlphaTimes(Bytes4(b3, b2, b1, b0))
         == Bytes4(Xor(b2, ByteTimesXPow(b3, 23)), Xor(b1, ByteTimesXPow(b3, 245)),
                   Xor(b0, ByteTimesXPow(b3, 48)), ByteTimesXPow(b3, 239))
  {
    hide Xor, Or, Shl, AlphaTimes, ByteTimesXPow;
    var low := (b2 * 0x100 + b1) * 0x100 + b0;
    assert Bytes4(b3, b2, b1, b0) == b3 * 0x100_0000 + low;
    AlphaTimesSplit(b3, low);
    ByteTimesXPowBound(b3, 23);
    ByteTimesXPowBound(b3, 245);
    ByteTimesXPowBound(b3, 48);
    ByteTimesXPowBound(b3, 239);
    XorIntoTop(b2, b1, b0, ByteTimesXPow(b3, 23), ByteTimesXPow(b3, 245),
               ByteTimesXPow(b3, 48), ByteTimesXPow(b3, 239));
  }

  lemma AlphaTimesSplit(b3: u8, low: nat)
    requires low < 0x100_0000
    ensures AlphaTimes(b3 * 0x100_0000 + low) == Xor(low * 0x100, MulAlpha(b3))
  {
    TopByte(b3, low);
    ShiftUp(b3, low);
  }

  lemma XorIntoTop(b2: u8, b1: u8, b0: u8, m3: u8, m2: u8, m1: u8, m0: u8)
    ensures Xor(((b2 * 0x100 + b1) * 0x100 + b0) * 0x100, Or(Or(Or(Shl(m3, 24), Shl(m2, 16)), Shl(m1, 8)), m0))
         == Bytes4(Xor(b2, m3), Xor(b1, m2), Xor(b0, m1), m0)
  {
    hide Or, Xor, Shl;
    OrBytes4(m3, m2, m1, m0);
    XorBytes4(b2, b1, b0, 0, m3, m2, m1, m0);
    XorZero(m0);
  }

  lemma MaskHigh(low: nat)
    requires low < 0x100_0000
    ensures And(low * 0x100, 0xffff_ff00) == low * 0x100
  {
    hide And, Shl, Shr, Low, Pow2;
    WidthFacts();
    AndLowMask(low, 24);
    LowSmall(low, 24);
    ShlIsProduct(low, 8);
    ShlIsProduct(0xff_ffff, 8);
    AndShl(low * 0x100, 0xff_ffff, 8);
    SplitUnique(low, 0, 8);
  }

  lemma ShiftDownBytes(b3: u8, b2: u8, b1: u8, b0: u8)
    ensures And(Shr(Bytes4(b3, b2, b1, b0), 8), 0x00ff_ffff) == Bytes4(0, b3, b2, b1)
    ensures And(Bytes4(b3, b2, b1, b0), 0xff) == b0
  {
    hide And, Shr, Low, Pow2;
    WidthFacts();
    var w := Bytes4(b3, b2, b1, b0);
    var high := (b3 * 0x100 + b2) * 0x100 + b1;
    SplitUnique(high, b0, 8);
    AndLowMask(high, 24);
    LowSmall(high, 24);
    AndLowMask(w, 8);
  }

  lemma AlphaInverseTimesBytes(b3: u8, b2: u8, b1: u8, b0: u8)
    ensures Bytes4(b3, b2, b1, b0) < TWO_32
    ensures AlphaInverseTimes(Bytes4(b3, b2, b1, b0))
         == Bytes4(ByteTimesXPow(b0, 16), Xor(b3, ByteTimesXPow(b0, 39)),
                   Xor(b2, ByteTimesXPow(b0, 6)), Xor(b1, ByteTimesXPow(b0, 64)))
  {
    hide Xor, Or, Shl, And, Shr, ByteTimesXPow;
    ShiftDownBytes(b3, b2, b1, b0);
    ByteTimesXPowBound(b0, 16);
    ByteTimesXPowBound(b0, 39);
    ByteTimesXPowBound(b0, 6);
    ByteTimesXPowBound(b0, 64);
    XorIntoLow(b3, b2, b1, ByteTimesXPow(b0, 16), ByteTimesXPow(b0, 39), ByteTimesXPow(b0, 6), ByteTimesXPow(b0, 64));
  }

  lemma XorIntoLow(b3: u8, b2: u8, b1: u8, m3: u8, m2: u8, m1: u8, m0: u8)
    ensures Xor(Bytes4(0, b3, b2, b1), Or(Or(Or(Shl(m3, 24), Shl(m2, 16)), Shl(m1, 8)), m0))
         == Bytes4(m3, Xor(b3, m2), Xor(b2, m1), Xor(b1, m0))
  {
    hide Or, Xor, Shl;
    OrBytes4(m3, m2, m1, m0);
    XorBytes4(0, b3, b2, b1, m3, m2, m1, m0);
    XorZero(m3);
  }

  // ----- x has order 255 in GF(2)[x]/(x^8 + x^7 + x^5 + x^3 + 1)

  /** A byte as its eight coefficients. */
  datatype Octet = Octet(b7: bool, b6: bool, b5: bool, b4: bool, b3: bool, b2: bool, b1: bool, b0: bool)

  function OctetOf(v: nat): Octet {
    var s := ToBits(v, 8);
    Octet(s[0], s[1], s[2], s[3], s[4], s[5], s[6], s[7])
  }

  function TimesX(o: Octet): Octet {
    Octet(o.b6 != o.b7, o.b5, o.b4 != o.b7, o.b3, o.b2 != o.b7, o.b1, o.b0, o.b7)
  }

  lemma TimesXIsMulX(v: u8)
    ensures OctetOf(MulX(8, v, 0xa9)) == TimesX(OctetOf(v))
  {
    hide MulX, Xor, Low, Shl, Bit, ToBits;
    var d := Low(Shl(v, 1), 8);
    var c := if Bit(v, 7) then 0xa9 else 0;
    MulXAsXor(8, v, 0xa9);
    ToBitsXor(d, c, 8);
    ToBitsAt(v, 8, 0);
    DoubledBits(v);
    ConstantBits();
  }

  lemma ConstantBits()
    ensures ToBits(0xa9, 8) == [true, false, true, false, true, false, false, true]
    ensures ToBits(0, 8) == Zeros(8)
  {
    hide ToBits;
    NibbleBits(0xa);
    NibbleBits(0x9);
    TwoDigits(0xa, 0x9);
    ToBitsOfZero(8);
  }

  lemma NibbleBits(v: nat)
    ensures ToBits(v, 4) == [v / 8 % 2 == 1, v / 4 % 2 == 1, v / 2 % 2 == 1, v % 2 == 1]
  {
    ThreeBits(v / 2);
  }

  lemma ThreeBits(v: nat)
    ensures ToBits(v, 3) == [v / 4 % 2 == 1, v / 2 % 2 == 1, v % 2 == 1]
  {
    assert ToBits(v / 2 / 2, 1) == [v / 2 / 2 % 2 == 1];
  }

  lemma Sixteen()
    ensures Pow2(4) == 16
  {}

  /** A byte by its two digits. */
  lemma TwoDigits(h: nat, l: nat)
    requires l < 16
    ensures ToBits(16 * h + l, 8) == ToBits(h, 4) + ToBits(l, 4)
  {
    hide ToBits, Shl, Pow2;
    Sixteen();
    ShlIsProduct(h, 4);
    ToBitsFields(h, l, 4, 4);
  }

  lemma DoubledBits(v: u8)
    ensures ToBits(Low(Shl(v, 1), 8), 8) == ToBits(v, 8)[1..] + [false]
  {
    hide Low, Shl;
    LowDouble(v, 8);
    var l := Low(v, 7);
    assert ToBits(2 * l, 8) == ToBits(l, 7) + [false];
    hide ToBits;
    ToBitsOfLow(v, 7);
    DropTop(v, 7);
  }

  lemma {:induction false} DropTop(v: nat, n: nat)
    ensures ToBits(v, n + 1)[1..] == ToBits(v, n)
  {
    if n != 0 {
      DropTop(v / 2, n - 1);
    }
  }

  function TimesXPow(o: Octet, k: nat): Octet {
    if k == 0 then o else TimesX(TimesXPow(o, k - 1))
  }

  lemma {:induction false} TimesXPowIsMulXPow(v: u8, k: nat)
    ensures TimesXPow(OctetOf(v), k) == OctetOf(ByteTimesXPow(v, k))
  {
    if k != 0 {
      TimesXPowIsMulXPow(v, k - 1);
      ByteTimesXPowBound(v, k - 1);
      TimesXIsMulX(ByteTimesXPow(v, k - 1));
    }
  }

  lemma EightEqual(s: seq<bool>, t: seq<bool>)
    requires |s| == |t| == 8
    requires s[0] == t[0] && s[1] == t[1] && s[2] == t[2] && s[3] == t[3]
    requires s[4] == t[4] && s[5] == t[5] && s[6] == t[6] && s[7] == t[7]
    ensures s == t
  {
    assert forall i :: 0 <= i < 8 ==> s[i] == t[i];
  }

  lemma OctetIsByte(v: u8, w: u8)
    requires OctetOf(v) == OctetOf(w)
    ensures v == w
  {
    EightEqual(ToBits(v, 8), ToBits(w, 8));
    WidthFacts();
    BitsDetermine(v, w, 8);
  }

  // Multiplication by x^5, x^15, x^30, ..., x^240, solved for the coefficients.

  function TimesX5(o: Octet): Octet {
    Octet((((o.b7 != o.b6) != o.b4) != o.b3) != o.b2,
          ((o.b7 != o.b5) != o.b4) != o.b1,
          ((o.b6 != o.b4) != o.b3) != o.b0,
          ((o.b7 != o.b6) != o.b5) != o.b4,
          ((o.b6 != o.b5) != o.b4) != o.b3,
          (o.b7 != o.b6) != o.b5,
          (o.b6 != o.b5) != o.b4,
          ((o.b7 != o.b5) != o.b4) != o.b3)
  }

  function TimesX15(o: Octet): Octet {
    Octet(o.b7 != o.b4,
          (o.b6 != o.b4) != o.b3,
          ((o.b7 != o.b5) != o.b3) != o.b2,
          (o.b6 != o.b2) != o.b1,
          (o.b5 != o.b1) != o.b0,
          o.b7 != o.b0,
          o.b6,
          o.b5)
  }

  function TimesX30(o: Octet): Octet {
    Octet((((o.b7 != o.b6) != o.b4) != o.b2) != o.b1,
          (((o.b5 != o.b4) != o.b3) != o.b2) != o.b0,
          (((o.b7 != o.b4) != o.b3) != o.b2) != o.b1,
          ((o.b7 != o.b4) != o.b3) != o.b0,
          ((o.b7 != o.b6) != o.b3) != o.b2,
          (o.b7 != o.b5) != o.b4,
          (o.b6 != o.b4) != o.b3,
          ((o.b7 != o.b5) != o.b3) != o.b2)
  }

  function TimesX60(o: Octet): Octet {
    Octet(((o.b7 != o.b4) != o.b3) != o.b1,
          ((((o.b7 != o.b6) != o.b4) != o.b2) != o.b1) != o.b0,
          (((o.b6 != o.b5) != o.b3) != o.b1) != o.b0,
          (((o.b5 != o.b3) != o.b2) != o.b1) != o.b0,
          (((o.b7 != o.b4) != o.b2) != o.b1) != o.b0,
          ((o.b7 != o.b6) != o.b4) != o.b0,
          (o.b6 != o.b5) != o.b3,
          (o.b5 != o.b4) != o.b2)
  }

  function TimesX120(o: Octet): Octet {
    Octet((o.b6 != o.b3) != o.b1,
          (((((o.b7 != o.b6) != o.b5) != o.b3) != o.b2) != o.b1) != o.b0,
          ((((o.b6 != o.b5) != o.b4) != o.b2) != o.b1) != o.b0,
          ((o.b6 != o.b5) != o.b4) != o.b0,
          (o.b5 != o.b4) != o.b3,
          ((o.b6 != o.b4) != o.b2) != o.b1,
          ((o.b5 != o.b3) != o.b1) != o.b0,
          ((o.b7 != o.b4) != o.b2) != o.b0)
  }

  function TimesX240(o: Octet): Octet {
    Octet(((((o.b7 != o.b6) != o.b5) != o.b4) != o.b3) != o.b2,
          o.b1,
          o.b0,
          (((o.b6 != o.b5) != o.b4) != o.b3) != o.b2,
          (((o.b5 != o.b4) != o.b3) != o.b2) != o.b1,
          (((o.b7 != o.b6) != o.b5) != o.b1) != o.b0,
          (((o.b7 != o.b6) != o.b5) != o.b4) != o.b0,
          (((o.b7 != o.b6) != o.b5) != o.b4) != o.b3)
  }

  lemma TimesX5Form(o: Octet)
    ensures TimesX5(o) == TimesX(TimesX(TimesX(TimesX(TimesX(o)))))
  {
    var p := TimesX(TimesX(o));
    assert TimesX(p) == Octet(p.b6 != p.b7, p.b5, p.b4 != p.b7, p.b3, p.b2 != p.b7, p.b1, p.b0, p.b7);
  }

  lemma TimesX5IsPower(o: Octet, k: nat)
    ensures TimesX5(TimesXPow(o, k)) == TimesXPow(o, k + 5)
  {
    assert TimesXPow(o, k + 1) == TimesX(TimesXPow(o, k));
    assert TimesXPow(o, k + 2) == TimesX(TimesXPow(o, k + 1));
    assert TimesXPow(o, k + 3) == TimesX(TimesXPow(o, k + 2));
    assert TimesXPow(o, k + 4) == TimesX(TimesXPow(o, k + 3));
    TimesX5Form(TimesXPow(o, k));
  }

  lemma TimesX15Form(o: Octet)
    ensures TimesX15(o) == TimesX5(TimesX5(TimesX5(o)))
  {}

  lemma TimesX15IsPower(o: Octet, k: nat)
    ensures TimesX15(TimesXPow(o, k)) == TimesXPow(o, k + 15)
  {
    TimesX5IsPower(o, k);
    TimesX5IsPower(o, k + 5);
    TimesX5IsPower(o, k + 10);
    TimesX15Form(TimesXPow(o, k));
  }

  lemma TimesX30Form(o: Octet)
    ensures TimesX30(o) == TimesX15(TimesX15(o))
  {}

  lemma TimesX30IsPower(o: Octet, k: nat)
    ensures TimesX30(TimesXPow(o, k)) == TimesXPow(o, k + 30)
  {
    TimesX15IsPower(o, k);
    TimesX15IsPower(o, k + 15);
    TimesX30Form(TimesXPow(o, k));
  }

  lemma TimesX60Form(o: Octet)
    ensures TimesX60(o) == TimesX30(TimesX30(o))
  {}

  lemma TimesX60IsPower(o: Octet, k: nat)
    ensures TimesX60(TimesXPow(o, k)) == TimesXPow(o, k + 60)
  {
    TimesX30IsPower(o, k);
    TimesX30IsPower(o, k + 30);
    TimesX60Form(TimesXPow(o, k));
  }

  lemma TimesX120Form(o: Octet)
    ensures TimesX120(o) == TimesX60(TimesX60(o))
  {}

  lemma TimesX120IsPower(o: Octet, k: nat)
    ensures TimesX120(TimesXPow(o, k)) == TimesXPow(o, k + 120)
  {
    TimesX60IsPower(o, k);
    TimesX60IsPower(o, k + 60);
    TimesX120Form(TimesXPow(o, k));
  }

  lemma TimesX240Form(o: Octet)
    ensures TimesX240(o) == TimesX120(TimesX120(o))
  {}

  lemma TimesX240IsPower(o: Octet, k: nat)
    ensures TimesX240(TimesXPow(o, k)) == TimesXPow(o, k + 240)
  {
    TimesX120IsPower(o, k);
    TimesX120IsPower(o, k + 120);
    TimesX240Form(TimesXPow(o, k));
  }

  lemma TimesX255Form(o: Octet)
    ensures TimesX15(TimesX240(o)) == o
  {}

  /** Multiplying a byte by x^255 changes nothing.  (With `n` for the literal, the power is
      not unfolded.) */
  lemma OrderOfX(c: u8, n: nat)
    requires n == 255
    ensures ByteTimesXPow(c, n) == c
  {
    var o := OctetOf(c);
    assert TimesXPow(o, 0) == o;
    TimesX240IsPower(o, 0);
    TimesX15IsPower(o, n - 15);
    TimesX255Form(o);
    TimesXPowIsMulXPow(c, n);
    ByteTimesXPowBound(c, n);
    OctetIsByte(ByteTimesXPow(c, n), c);
  }

  lemma PowerCycle(c: u8, n: nat, k: nat)
    requires n == 255
    ensures ByteTimesXPow(c, n + k) == ByteTimesXPow(c, k)
  {
    OrderOfX(c, n);
    MulXPowAdd(8, c, n, k, 0xa9);
  }

  // ----- the two word operations are inverse

  lemma PowerOfPower(c: u8, i: nat, j: nat, k: nat)
    requires i + j == k || (i + j == 255 + k)
    ensures ByteTimesXPow(ByteTimesXPow(c, i), j) == ByteTimesXPow(c, k)
  {
    MulXPowAdd(8, c, i, j, 0xa9);
    if i + j != k {
      PowerCycle(c, 255, k);
    }
  }

  lemma AlphaTimesIsWord(w: u32)
    ensures AlphaTimes(w) < TWO_32 && AlphaInverseTimes(w) < TWO_32
  {
    var b3, b2, b1, b0 := BytesOf(w);
    WidthFacts();
    AlphaTimesBytes(b3, b2, b1, b0);
    AlphaInverseTimesBytes(b3, b2, b1, b0);
    ProductBytes(b3, b2, b1, b0);
    QuotientBytes(b3, b2, b1, b0);
  }

  lemma ProductBytes(b3: u8, b2: u8, b1: u8, b0: u8)
    ensures Xor(b2, ByteTimesXPow(b3, 23)) < 0x100 && Xor(b1, ByteTimesXPow(b3, 245)) < 0x100
    ensures Xor(b0, ByteTimesXPow(b3, 48)) < 0x100 && ByteTimesXPow(b3, 239) < 0x100
  {
    XorPowerIsByte(b2, b3, 23);
    XorPowerIsByte(b1, b3, 245);
    XorPowerIsByte(b0, b3, 48);
    ByteTimesXPowBound(b3, 239);
  }

  lemma QuotientBytes(b3: u8, b2: u8, b1: u8, b0: u8)
    ensures ByteTimesXPow(b0, 16) < 0x100 && Xor(b3, ByteTimesXPow(b0, 39)) < 0x100
    ensures Xor(b2, ByteTimesXPow(b0, 6)) < 0x100 && Xor(b1, ByteTimesXPow(b0, 64)) < 0x100
  {
    ByteTimesXPowBound(b0, 16);
    XorPowerIsByte(b3, b0, 39);
    XorPowerIsByte(b2, b0, 6);
    XorPowerIsByte(b1, b0, 64);
  }

  lemma XorPowerIsByte(a: u8, c: u8, i: nat)
    ensures Xor(a, ByteTimesXPow(c, i)) < 0x100
  {
    assert Pow2(8) == 0x100;
    ByteTimesXPowBound(c, i);
    XorBound(a, ByteTimesXPow(c, i), 8);
  }

  /** Dividing by alpha undoes multiplying by alpha, on every word. */
  lemma DivideUndoesMultiply(w: u32)
    ensures AlphaTimes(w) < TWO_32
    ensures AlphaInverseTimes(AlphaTimes(w)) == w
  {
    AlphaTimesIsWord(w);
    var b3, b2, b1, b0 := BytesOf(w);
    AlphaTimesBytes(b3, b2, b1, b0);
    ProductBytes(b3, b2, b1, b0);
    var m: u8 := ByteTimesXPow(b3, 239);
    AlphaInverseTimesBytes(Xor(b2, ByteTimesXPow(b3, 23)), Xor(b1, ByteTimesXPow(b3, 245)),
                           Xor(b0, ByteTimesXPow(b3, 48)), m);
    PowerOfPower(b3, 239, 16, 0);
    PowerOfPower(b3, 239, 39, 23);
    PowerOfPower(b3, 239, 6, 245);
    PowerOfPower(b3, 239, 64, 48);
    XorCancel(b2, ByteTimesXPow(b3, 23));
    XorCancel(b1, ByteTimesXPow(b3, 245));
    XorCancel(b0, ByteTimesXPow(b3, 48));
  }

  /** Multiplying by alpha undoes dividing by alpha, on every word. */
  lemma MultiplyUndoesDivide(w: u32)
    ensures AlphaInverseTimes(w) < TWO_32
    ensures AlphaTimes(AlphaInverseTimes(w)) == w
  {
    AlphaTimesIsWord(w);
    var b3, b2, b1, b0 := BytesOf(w);
    AlphaInverseTimesBytes(b3, b2, b1, b0);
    QuotientBytes(b3, b2, b1, b0);
    var m: u8 := ByteTimesXPow(b0, 16);
    AlphaTimesBytes(m, Xor(b3, ByteTimesXPow(b0, 39)), Xor(b2, ByteTimesXPow(b0, 6)),
                    Xor(b1, ByteTimesXPow(b0, 64)));
    PowerOfPower(b0, 16, 23, 39);
    PowerOfPower(b0, 16, 245, 6);
    PowerOfPower(b0, 16, 48, 64);
    PowerOfPower(b0, 16, 239, 0);
    XorCancel(b3, ByteTimesXPow(b0, 39));
    XorCancel(b2, ByteTimesXPow(b0, 6));
    XorCancel(b1, ByteTimesXPow(b0, 64));
  }
}
