/** UIA2: the message authentication code `f9` of UEA2 & UIA2 (sections 4.3 and 4.5 of
    TS 35.215), a polynomial evaluated over GF(2)[x]/(x^64 + x^4 + x^3 + x + 1). */
module Uea2 {
  import opened Words
  import opened Gf2Ring
  import opened SnowAlpha
  import Snow3g

  const C: nat := 0x1b

  /** The largest length, in bits, whose byte offsets fit the 32-bit counter of the code. */
  const MAX_LENGTH: nat := 0x8_0000_0000

  // ----- specification

  function Mul64(v: nat, p: nat): nat {
    Mul(64, v, p, C)
  }

  function BlockCount(length: nat): nat {
    (length + 63) / 64
  }

  /** Block `i` of a message: its bits from 64 i on, zero-padded on the right to 64. */
  function BlockBits(message: seq<bool>, i: nat): (s: seq<bool>)
    requires 64 * i < |message|
    ensures |s| == 64
    ensures forall k :: 0 <= k < 64 ==> s[k] == (64 * i + k < |message| && message[64 * i + k])
  {
    if 64 * i + 64 <= |message| then message[64 * i..64 * i + 64]
    else message[64 * i..] + Zeros(64 - (|message| - 64 * i))
  }

  function Block(message: seq<bool>, i: nat): nat
    requires 64 * i < |message|
  {
    FromBits(BlockBits(message, i))
  }

  /** `EVAL` after `d` blocks. */
  function Eval(message: seq<bool>, p: nat, d: nat): nat
    requires d <= BlockCount(|message|)
  {
    if d == 0 then 0 else Mul64(Xor(Eval(message, p, d - 1), Block(message, d - 1)), p)
  }

  /** The 32-bit code of a message under evaluation points `p`, `q` and mask `z4`. */
  function Mac(message: seq<bool>, p: nat, q: nat, z4: nat): nat {
    var e := Mul64(Xor(Eval(message, p, BlockCount(|message|)), |message|), q);
    Xor(Shr(e, 32), z4)
  }

  // ----- the code

  method MUL64(v: u64, p: u64, c: u64) returns (result: nat)
    ensures result == Mul(64, v, p, c) < TWO_64
  {
    result := 0;
    var i := 0;
    while i < 64
      invariant 0 <= i <= 64
      invariant result == MulUpTo(64, v, p, i, c)
    {
      if Shr(p, i) % 2 == 1 {
        result := Xor(result, MulXPow(64, v, i, c));
      } else {
        XorZero(result);
      }
      i := i + 1;
    }
    WidthFacts();
    MulBound(64, v, p, c);
  }

  function Mask8Bit(n: nat): nat
    requires n <= 8
  {
    Xor(0xff, Pow2(8 - n) - 1)
  }

  /** The byte offset of block `i`, computed on 32 bits. */
  function Offset(i: nat): nat {
    8 * i % TWO_32
  }

  function WordOf(b: seq<u8>): nat
    requires |b| == 8
  {
    Or(Or(Or(Or(Or(Or(Or(Shl(b[0], 56), Shl(b[1], 48)), Shl(b[2], 40)), Shl(b[3], 32)),
       Shl(b[4], 24)), Shl(b[5], 16)), Shl(b[6], 8)), b[7])
  }

  function KeyWord(key: seq<u8>, i: nat): u32
    requires |key| == 16 && i < 4
  {
    Xor32(Xor32(Xor32(Shl32(key[4 * i], 24), Shl32(key[4 * i + 1], 16)), Shl32(key[4 * i + 2], 8)), key[4 * i + 3])
  }

  function KeyWords(key: seq<u8>): (k: seq<u32>)
    requires |key| == 16
    ensures |k| == 4
  {
    [KeyWord(key, 3), KeyWord(key, 2), KeyWord(key, 1), KeyWord(key, 0)]
  }

  function IvWords(count: u32, freshness: u32, dir: u32): (iv: seq<u32>)
    ensures |iv| == 4
  {
    [Xor32(freshness, Shl32(dir, 15)), Xor32(count, Shl32(dir, 31)), freshness, count]
  }

  /** What `f9` computes: the code of the first `length` bits under the key stream. */
  function F9Spec(z: seq<u32>, message: seq<bool>): nat
    requires |z| == 5
  {
    Mac(message, z[0] * TWO_32 + z[1], z[2] * TWO_32 + z[3], z[4])
  }

  method F9(gen: Snow3g.Generator, key: seq<u8>, count: u32, freshness: u32, dir: u32, data: seq<u8>, length: nat)
    returns (mac: nat)
    requires |key| == 16
    requires 1 <= length <= MAX_LENGTH && length <= 8 * |data|
    modifies gen
    ensures var m := Snow3g.Initialized(KeyWords(key), IvWords(count, freshness, dir));
      mac == F9Spec(Snow3g.KeyStream(m, 5), Bits(data)[..length])
  {
    gen.Initialize(KeyWords(key), IvWords(count, freshness, dir));
    var z := gen.GenerateKeyStream(5);
    mac := Authenticate(z, data, length);
  }

  /** The body of `f9` once the key stream is there. */
  method Authenticate(z: seq<u32>, data: seq<u8>, length: nat) returns (mac: nat)
    requires |z| == 5
    requires 1 <= length <= MAX_LENGTH && length <= 8 * |data|
    ensures mac == F9Spec(z, Bits(data)[..length])
  {
    hide Xor, Or, And, Mul, Mul64, WordOf, Bits, Shr, Shl, Block;
    DoubleWord(z[0], z[1]);
    DoubleWord(z[2], z[3]);
    var p := Or(Shl(z[0], 32), z[1]);
    var q := Or(Shl(z[2], 32), z[3]);
    var d := if length % 64 == 0 then length / 64 + 1 else length / 64 + 2;
    ghost var message := Bits(data)[..length];
    var eval: u64 := 0;
    for i := 0 to d - 2
      invariant eval == Eval(message, p, i)
    {
      var o := Offset(i);
      FullBlock(data, length, i);
      eval := Absorb(eval, WordOf(data[o..o + 8]), p);
    }
    var last := LastBlock(data, length, d);
    eval := Absorb(eval, last, p);
    assert BlockCount(length) == d - 1;
    assert eval == Eval(message, p, d - 1);
    eval := Absorb(eval, length, q);
    mac := Fold(eval, z[4]);
  }

  method Absorb(eval: u64, m: u64, p: u64) returns (r: u64)
    ensures r == Mul64(Xor(eval, m), p)
  {
    WidthFacts();
    XorBound(eval, m, 64);
    r := MUL64(Xor(eval, m), p, C);
  }

  /** Whole bytes first, then the leading bits of one more byte. */
  method LastBlock(data: seq<u8>, length: nat, d: nat) returns (m: u64)
    requires 1 <= length <= MAX_LENGTH && length <= 8 * |data|
    requires d == BlockCount(length) + 1
    ensures m == Block(Bits(data)[..length], d - 2)
  {
    hide *;
    LastOffset(length, d);
    var o := Offset(d - 2);
    var remBits := length % 64;
    if remBits == 0 {
      remBits := 64;
    }
    var w := 0;
    var i := 0;
    NoBytesYet(data, o);
    while remBits > 7
      invariant 0 <= i <= 8 && remBits == length - 8 * o - 8 * i >= 0
      invariant w == Shl(BytesValue(data, o, i), 64 - 8 * i)
    {
      NextByte(data, o, i);
      w := Or(w, Shl(data[o + i], 8 * (7 - i)));
      remBits := remBits - 8;
      i := i + 1;
    }
    if remBits > 0 {
      OrPart(BytesValue(data, o, i), data[o + i], remBits, 56 - 8 * i);
      w := Or(w, Shl(And(data[o + i], Mask8Bit(remBits)), 8 * (7 - i)));
    }
    LastBlockValue(data, length, o, i, remBits);
    m := w;
  }

  lemma LastOffset(length: nat, d: nat)
    requires 1 <= length <= MAX_LENGTH && d == BlockCount(length) + 1
    ensures d >= 2 && Offset(d - 2) == 8 * (d - 2)
    ensures length - 64 * (d - 2) == if length % 64 == 0 then 64 else length % 64
  {}

  lemma NoBytesYet(data: seq<u8>, o: nat)
    requires o <= |data|
    ensures Shl(BytesValue(data, o, 0), 64) == 0
  {
    ShlIsProduct(0, 64);
  }

  lemma NextByte(data: seq<u8>, o: nat, i: nat)
    requires i < 8 && o + i < |data|
    ensures Or(Shl(BytesValue(data, o, i), 64 - 8 * i), Shl(data[o + i], 8 * (7 - i)))
         == Shl(BytesValue(data, o, i + 1), 64 - 8 * (i + 1))
  {
    OrByte(BytesValue(data, o, i), data[o + i], 56 - 8 * i);
  }

  /** The value of the collected bits, moved up to the top of the word, is the padded block. */
  lemma LastBlockValue(data: seq<u8>, length: nat, o: nat, i: nat, n: nat)
    requires o % 8 == 0 && i <= 8 && n <= 7 && 8 * o + 8 * i + n == length <= 8 * |data| && 0 < 8 * i + n <= 64
    ensures Block(Bits(data)[..length], o / 8)
         == Shl(if n == 0 then BytesValue(data, o, i)
                else Followed(BytesValue(data, o, i), Shr(data[o + i], 8 - n), n), 64 - 8 * i - n)
    ensures Block(Bits(data)[..length], o / 8) < 0x1_0000_0000_0000_0000
  {
    hide ToBits, FromBits, Shr, Shl, Bits;
    var s := Bits(data);
    var head := s[8 * o..8 * (o + i)];
    var tail := s[8 * (o + i)..length];
    BytesValueIsBits(data, o, i);
    if n > 0 {
      PartValue(head, data[o + i], n);
      ByteOfBits(data, o + i);
      assert s[8 * (o + i)..8 * (o + i) + 8][..n] == tail;
    } else {
      assert head + tail == head;
    }
    FromBitsPadded(head + tail, 64 - 8 * i - n);
    assert BlockBits(s[..length], o / 8) == head + tail + Zeros(64 - 8 * i - n);
    FromBitsBound(BlockBits(s[..length], o / 8));
    WidthFacts();
  }

  lemma PartValue(head: seq<bool>, b: u8, n: nat)
    requires 1 <= n <= 7
    ensures FromBits(head + ToBits(b, 8)[..n]) == Followed(FromBits(head), Shr(b, 8 - n), n)
  {
    hide ToBits, FromBits;
    ToBitsPrefix(b, n, 8 - n);
    FromToBits(Shr(b, 8 - n), n);
    assert Pow2(8) == 0x100;
    TopSmall(b, n, 8 - n);
    LowSmall(Shr(b, 8 - n), n);
    FromBitsConcat(head, ToBits(b, 8)[..n]);
    ShlIsProduct(FromBits(head), n);
  }

  method Fold(eval: u64, z4: u32) returns (mac: nat)
    ensures mac == Xor(Shr(eval, 32), z4)
  {
    hide Or, And, Xor;
    var macI := [0, 0, 0, 0];
    ghost var w := Xor(Shr(eval, 32), z4);
    for i := 0 to 4
      invariant |macI| == 4
      invariant forall j :: 0 <= j < i ==> macI[j] == And(Shr(w, 24 - 8 * j), 0xff)
    {
      macI := macI[i := And(Xor(Shr(eval, 56 - 8 * i), Shr(z4, 24 - 8 * i)), 0xff)];
      ShrAdd(eval, 32, 24 - 8 * i);
      XorShr(Shr(eval, 32), z4, 24 - 8 * i);
    }
    mac := 0;
    mac := Or(mac, Shl(macI[0], 24));
    mac := Or(mac, Shl(macI[1], 16));
    mac := Or(mac, Shl(macI[2], 8));
    mac := Or(mac, macI[3]);
    assert w < TWO_32 by {
      WidthFacts();
      Split(eval, 32);
      XorBound(Shr(eval, 32), z4, 32);
    }
    OrZero(Shl(macI[0], 24));
    Reassemble(w);
    assert Shr(w, 0) == w;
  }

  lemma Reassemble(w: u32)
    ensures Or(Or(Or(Shl(And(Shr(w, 24), 0xff), 24), Shl(And(Shr(w, 16), 0xff), 16)),
               Shl(And(Shr(w, 8), 0xff), 8)), And(Shr(w, 0), 0xff)) == w
  {
    var b3, b2, b1, b0 := BytesOf(w);
    ReassembleBytes(b3, b2, b1, b0);
  }

  lemma ReassembleBytes(b3: u8, b2: u8, b1: u8, b0: u8)
    ensures var w := Bytes4(b3, b2, b1, b0);
      Or(Or(Or(Shl(And(Shr(w, 24), 0xff), 24), Shl(And(Shr(w, 16), 0xff), 16)),
            Shl(And(Shr(w, 8), 0xff), 8)), And(Shr(w, 0), 0xff)) == w
  {
    hide Or, And, Shl, Shr, Low, Pow2;
    WidthFacts();
    SplitUnique(b3, (b2 * 0x100 + b1) * 0x100 + b0, 24);
    SplitUnique(b3 * 0x100 + b2, b1 * 0x100 + b0, 16);
    SplitUnique((b3 * 0x100 + b2) * 0x100 + b1, b0, 8);
    LowByte(0, b3);
    LowByte(b3, b2);
    LowByte(b3 * 0x100 + b2, b1);
    LowByte((b3 * 0x100 + b2) * 0x100 + b1, b0);
    ShrZero(Bytes4(b3, b2, b1, b0));
    OrBytes4(b3, b2, b1, b0);
  }

  lemma LowByte(h: nat, b: u8)
    ensures And(h * 0x100 + b, 0xff) == b
    ensures And(h * 0x100 + b, 0xff) < 0x100
  {
    assert Pow2(8) == 0x100;
    AndLowMask(h * 0x100 + b, 8);
    SplitUnique(h, b, 8);
  }

  lemma DoubleWord(h: u32, l: u32)
    ensures Or(Shl(h, 32), l) == h * TWO_32 + l < TWO_64
  {
    WidthFacts();
    Disjoint(h, l, 32);
    ShlIsProduct(h, 32);
  }

  lemma FullBlock(data: seq<u8>, length: nat, i: nat)
    requires 64 * i + 64 <= length <= 8 * |data| && length <= MAX_LENGTH
    ensures Offset(i) == 8 * i && 8 * i + 8 <= |data|
    ensures WordOf(data[8 * i..8 * i + 8]) == Block(Bits(data)[..length], i) < TWO_64
  {
    hide Or, FromBits, ToBits, WordOf;
    var b := data[8 * i..8 * i + 8];
    WordOfIsValue(b);
    BytesValueSlice(data, 8 * i, 8 * i + 8, 8);
    BytesValueIsBits(data, 8 * i, 8);
    PrefixSlice(Bits(data), 64 * i, 64 * i + 64, length);
    FromBitsBound(BlockBits(Bits(data)[..length], i));
    WidthFacts();
  }

  lemma {:induction false} BytesValueSlice(data: seq<u8>, i: nat, j: nat, n: nat)
    requires i + n <= j <= |data|
    ensures BytesValue(data[i..j], 0, n) == BytesValue(data, i, n)
  {
    if n != 0 {
      BytesValueSlice(data, i, j, n - 1);
    }
  }

  lemma PrefixSlice<T>(s: seq<T>, i: nat, j: nat, n: nat)
    requires i <= j <= n <= |s|
    ensures s[..n][i..j] == s[i..j]
  {}

  /** One more byte below the bytes already collected. */
  lemma OrByte(v: nat, b: u8, k: nat)
    ensures Or(Shl(v, 8 + k), Shl(b, k)) == Shl(v * 0x100 + b, k)
  {
    assert Pow2(8) == 0x100;
    OrFields(v, b, 8, k);
  }

  lemma WordOfIsValue(b: seq<u8>)
    requires |b| == 8
    ensures WordOf(b) == BytesValue(b, 0, 8)
  {
    hide Or;
    OrByte(b[0], b[1], 48);
    OrByte(BytesValue(b, 0, 2), b[2], 40);
    OrByte(BytesValue(b, 0, 3), b[3], 32);
    OrByte(BytesValue(b, 0, 4), b[4], 24);
    OrByte(BytesValue(b, 0, 5), b[5], 16);
    OrByte(BytesValue(b, 0, 6), b[6], 8);
    OrByte(BytesValue(b, 0, 7), b[7], 0);
    assert BytesValue(b, 0, 1) == b[0];
  }

  lemma MaskKeepsTop(b: u8, n: nat)
    requires 1 <= n <= 7
    ensures And(b, Mask8Bit(n)) == Shl(Shr(b, 8 - n), 8 - n)
  {
    hide And, Xor, Shl, Shr, Low, Pow2;
    var k := 8 - n;
    WidthFacts();
    OnesAbove(n, k);
    AndShl(b, Pow2(n) - 1, k);
    AndLowMask(Shr(b, k), n);
    TopSmall(b, n, k);
    LowSmall(Shr(b, k), n);
  }

  lemma {:induction false} OnesAbove(n: nat, k: nat)
    ensures Xor(Pow2(n + k) - 1, Pow2(k) - 1) == Shl(Pow2(n) - 1, k)
  {
    hide Xor;
    if k == 0 {
      XorZero(Pow2(n) - 1);
    } else {
      OnesAbove(n, k - 1);
      assert n + k - 1 == n + (k - 1);
      XorCons(Pow2(n + k - 1) - 1, Pow2(k - 1) - 1, 1, 1);
    }
  }

  /** A word with an `n`-bit field below it. */
  function Followed(v: nat, t: nat, n: nat): nat {
    v * Pow2(n) + t
  }

  /** The leading `n` bits of one more byte below the bytes already collected. */
  lemma OrPart(v: nat, b: u8, n: nat, k: nat)
    requires 1 <= n <= 7
    ensures Or(Shl(v, 8 + k), Shl(And(b, Mask8Bit(n)), k)) == Shl(Followed(v, Shr(b, 8 - n), n), 8 - n + k)
  {
    hide Or, And, Mask8Bit;
    var t := Shr(b, 8 - n);
    MaskKeepsTop(b, n);
    ShlAdd(t, 8 - n, k);
    assert Pow2(8) == 0x100;
    TopSmall(b, n, 8 - n);
    OrFields(v, t, n, 8 - n + k);
  }

  // ----- what the code is worth

  /** P to the power `k`. */
  function Power(p: nat, k: nat): nat {
    if k == 0 then 1 else Mul64(Power(p, k - 1), p)
  }

  /** The exclusive or, over the first `d` blocks M_i, of M_i P^(top - i). */
  function PolynomialSum(message: seq<bool>, p: nat, d: nat, top: nat): nat
    requires d <= BlockCount(|message|) && d <= top
  {
    if d == 0 then 0
    else Xor(PolynomialSum(message, p, d - 1, top), Mul64(Block(message, d - 1), Power(p, top - (d - 1))))
  }

  lemma {:induction false} PowerBound(p: u64, k: nat)
    ensures Power(p, k) < Pow2(64)
  {
    hide Mul;
    WidthFacts();
    if k != 0 {
      PowerBound(p, k - 1);
      MulBound(64, Power(p, k - 1), p, C);
    }
  }

  lemma BlockBound(message: seq<bool>, i: nat)
    requires 64 * i < |message|
    ensures Block(message, i) < Pow2(64)
  {
    FromBitsBound(BlockBits(message, i));
  }

  /** Raising `top` by one multiplies the sum by P. */
  lemma {:induction false} SumTimesP(message: seq<bool>, p: u64, d: nat, top: nat)
    requires d <= BlockCount(|message|) && d <= top
    ensures Mul64(PolynomialSum(message, p, d, top), p) == PolynomialSum(message, p, d, top + 1)
  {
    hide Xor, Mul, Block;
    WidthFacts();
    if d == 0 {
      MulUnit(64, p, C);
    } else {
      var m, q := Block(message, d - 1), Power(p, top - (d - 1));
      BlockBound(message, d - 1);
      PowerBound(p, top - (d - 1));
      SumTimesP(message, p, d - 1, top);
      MulLinear(64, PolynomialSum(message, p, d - 1, top), Mul64(m, q), p, p, C);
      MulAssoc(64, m, q, p, C);
    }
  }

  /** The loop evaluates the polynomial whose coefficients are the message blocks: after
      `d` blocks, `EVAL` is the sum of M_i P^(d - i). */
  lemma {:induction false} EvalIsPolynomial(message: seq<bool>, p: u64, d: nat)
    requires d <= BlockCount(|message|)
    ensures Eval(message, p, d) == PolynomialSum(message, p, d, d)
  {
    hide Xor, Mul, Block;
    WidthFacts();
    if d != 0 {
      EvalIsPolynomial(message, p, d - 1);
      var m := Block(message, d - 1);
      MulLinear(64, Eval(message, p, d - 1), m, p, p, C);
      SumTimesP(message, p, d - 1, d - 1);
      MulUnit(64, p, C);
      assert Power(p, 1) == Mul64(Power(p, 0), p);
    }
  }

  lemma BlockXor(a: seq<bool>, b: seq<bool>, i: nat)
    requires |a| == |b| && 64 * i < |a|
    ensures Block(XorBits(a, b), i) == Xor(Block(a, i), Block(b, i))
  {
    hide FromBits, Xor;
    FromBitsXor(BlockBits(a, i), BlockBits(b, i));
    assert BlockBits(XorBits(a, b), i) == XorBits(BlockBits(a, i), BlockBits(b, i));
  }

  lemma {:induction false} EvalXor(a: seq<bool>, b: seq<bool>, p: nat, d: nat)
    requires |a| == |b| && d <= BlockCount(|a|)
    ensures Eval(XorBits(a, b), p, d) == Xor(Eval(a, p, d), Eval(b, p, d))
  {
    hide Xor, Mul, Block;
    if d == 0 {
      XorZero(0);
    } else {
      var x, y, m, n := Eval(a, p, d - 1), Eval(b, p, d - 1), Block(a, d - 1), Block(b, d - 1);
      EvalXor(a, b, p, d - 1);
      BlockXor(a, b, d - 1);
      XorSwap(x, y, m, n);
      MulLinear(64, Xor(x, m), Xor(y, n), p, p, C);
    }
  }

  lemma {:induction false} EvalOfZeros(n: nat, p: nat, d: nat)
    requires d <= BlockCount(n)
    ensures Eval(Zeros(n), p, d) == 0
  {
    hide Xor, Mul, FromBits;
    if d != 0 {
      EvalOfZeros(n, p, d - 1);
      assert BlockBits(Zeros(n), d - 1) == Zeros(64);
      FromBitsZeros(64);
      XorZero(0);
      UpToZero(64, p, 64, C);
      assert Mul(64, 0, p, C) == MulUpTo(64, 0, p, 64, C) by {
        MulIsUpTo(0, p);
      }
    }
  }

  lemma MulIsUpTo(v: nat, p: nat)
    ensures Mul(64, v, p, C) == MulUpTo(64, v, p, 64, C)
  {}

  /** For fixed key, counters and length the code is affine in the message: the codes of
      two messages and of their exclusive or add up to the code of the all-zero message. */
  lemma MacIsAffine(a: seq<bool>, b: seq<bool>, p: nat, q: nat, z4: nat)
    requires |a| == |b|
    ensures Xor(Xor(Mac(a, p, q, z4), Mac(b, p, q, z4)), Mac(XorBits(a, b), p, q, z4))
         == Mac(Zeros(|a|), p, q, z4)
  {
    hide Xor, Mul, Eval, Shr;
    var n := |a|;
    var d := BlockCount(n);
    var x, y := Eval(a, p, d), Eval(b, p, d);
    EvalXor(a, b, p, d);
    EvalOfZeros(n, p, d);
    XorZero(n);
    ThreeMessages(Mul64(x, q), Mul64(y, q), Mul64(n, q), z4);
    MulLinear(64, x, n, q, q, C);
    MulLinear(64, y, n, q, q, C);
    MulLinear(64, x, y, q, q, C);
    MulLinear(64, Xor(x, y), n, q, q, C);
  }

  lemma ThreeMessages(x: nat, y: nat, n: nat, z: nat)
    ensures Xor(Xor(Xor(Shr(Xor(x, n), 32), z), Xor(Shr(Xor(y, n), 32), z)), Xor(Shr(Xor(Xor(x, y), n), 32), z))
         == Xor(Shr(n, 32), z)
  {
    hide Xor, Shr;
    var a, b, c := Shr(Xor(x, n), 32), Shr(Xor(y, n), 32), Shr(Xor(Xor(x, y), n), 32);
    XorShared(a, b, z);
    XorAssoc(Xor(a, b), c, z);
    assert Xor(Xor(a, b), c) == Shr(n, 32) by {
      XorShr(Xor(x, n), Xor(y, n), 32);
      XorShr(Xor(Xor(x, n), Xor(y, n)), Xor(Xor(x, y), n), 32);
      XorShared(x, y, n);
      XorCancel(n, Xor(x, y));
    }
  }

  /** The 32-bit byte offsets of the code are exact up to 2^35 bits and no further. */
  lemma OffsetsAreExact(length: nat)
    requires length >= 1
    ensures (forall i :: 0 <= i < BlockCount(length) ==> Offset(i) == 8 * i) <==> length <= MAX_LENGTH
  {
    if length > MAX_LENGTH {
      assert Offset(0x2000_0000) == 0;
      assert BlockCount(length) > 0x2000_0000;
    }
  }
}
