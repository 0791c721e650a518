/** The reduced polynomial arithmetic over GF(2) that both SNOW 3G (bytes) and UEA2
    (64-bit words) are built on.  A word of `n` bits stands for the polynomial whose
    coefficients are its bits; `c` holds the low coefficients of the modulus x^n + c. */
module Gf2Ring {
  import opened Words

  // ----- the code's functions

  /** Multiplication by x: `MULx` at width 8, `MUL64x` at width 64. */
  function MulX(n: nat, v: nat, c: nat): nat
    requires n >= 1
  {
    if Bit(v, n - 1) then Xor(Low(Shl(v, 1), n), c) else Low(Shl(v, 1), n)
  }

  /** Multiplication by x^i: `MULxPOW` at width 8, `MUL64xPOW` at width 64. */
  function MulXPow(n: nat, v: nat, i: nat, c: nat): nat
    requires n >= 1
  {
    if i == 0 then v else MulX(n, MulXPow(n, v, i - 1, c), c)
  }

  /** The accumulator of the `MUL64` loop after `k` rounds. */
  function MulUpTo(n: nat, v: nat, p: nat, k: nat, c: nat): nat
    requires n >= 1
  {
    if k == 0 then 0
    else Xor(MulUpTo(n, v, p, k - 1, c), Term(n, v, p, k - 1, c))
  }

  function Term(n: nat, v: nat, p: nat, i: nat, c: nat): nat
    requires n >= 1
  {
    if Bit(p, i) then MulXPow(n, v, i, c) else 0
  }

  function Mul(n: nat, v: nat, p: nat, c: nat): nat
    requires n >= 1
  {
    MulUpTo(n, v, p, n, c)
  }

  // ----- multiplication by x

  lemma LowDouble(v: nat, n: nat)
    requires n >= 1
    ensures Low(Shl(v, 1), n) == 2 * Low(v, n - 1)
  {
    assert Shl(v, 1) == 2 * Shl(v, 0) == 2 * v;
    assert (2 * v) / 2 == v;
  }

  /** On words of `n` bits no bit is lost: the top coefficient is traded for `c`. */
  lemma MulXForm(n: nat, v: nat, c: nat)
    requires n >= 1 && v < Pow2(n)
    ensures Bit(v, n - 1) <==> v >= Pow2(n - 1)
    ensures MulX(n, v, c) == if v >= Pow2(n - 1) then Xor(2 * (v - Pow2(n - 1)), c) else 2 * v
  {
    LowDouble(v, n);
    if v >= Pow2(n - 1) {
      SplitUnique(1, v - Pow2(n - 1), n - 1);
    } else {
      LowSmall(v, n - 1);
    }
  }

  lemma MulXBound(n: nat, v: nat, c: nat)
    requires n >= 1 && c < Pow2(n)
    ensures MulX(n, v, c) < Pow2(n)
  {
    Split(Shl(v, 1), n);
    XorBound(Low(Shl(v, 1), n), c, n);
  }

  lemma MulXLinear(n: nat, v: nat, w: nat, c: nat)
    requires n >= 1
    ensures MulX(n, Xor(v, w), c) == Xor(MulX(n, v, c), MulX(n, w, c))
  {
    var a, b := Low(Shl(v, 1), n), Low(Shl(w, 1), n);
    var cv, cw := if Bit(v, n - 1) then c else 0, if Bit(w, n - 1) then c else 0;
    assert Low(Shl(Xor(v, w), 1), n) == Xor(a, b) by {
      XorShl(v, w, 1);
      XorLow(Shl(v, 1), Shl(w, 1), n);
    }
    XorBit(v, w, n - 1);
    MulXAsXor(n, v, c);
    MulXAsXor(n, w, c);
    MulXAsXor(n, Xor(v, w), c);
    XorSwap(a, cv, b, cw);
    XorSelf(c);
    XorZero(c);
    XorZero(0);
  }

  lemma MulXAsXor(n: nat, v: nat, c: nat)
    requires n >= 1
    ensures MulX(n, v, c) == Xor(Low(Shl(v, 1), n), if Bit(v, n - 1) then c else 0)
  {
    XorZero(Low(Shl(v, 1), n));
  }

  // ----- multiplication by powers of x

  lemma {:induction false} MulXPowLinear(n: nat, v: nat, w: nat, i: nat, c: nat)
    requires n >= 1
    ensures MulXPow(n, Xor(v, w), i, c) == Xor(MulXPow(n, v, i, c), MulXPow(n, w, i, c))
  {
    if i != 0 {
      MulXPowLinear(n, v, w, i - 1, c);
      MulXLinear(n, MulXPow(n, v, i - 1, c), MulXPow(n, w, i - 1, c), c);
    }
  }

  lemma {:induction false} MulXPowAdd(n: nat, v: nat, i: nat, j: nat, c: nat)
    requires n >= 1
    ensures MulXPow(n, MulXPow(n, v, i, c), j, c) == MulXPow(n, v, i + j, c)
  {
    if j != 0 {
      MulXPowAdd(n, v, i, j - 1, c);
      assert i + j - 1 == i + (j - 1);
    }
  }

  lemma MulXPowStep(n: nat, v: nat, i: nat, c: nat)
    requires n >= 1
    ensures MulX(n, MulXPow(n, v, i, c), c) == MulXPow(n, MulX(n, v, c), i, c) == MulXPow(n, v, i + 1, c)
  {
    MulXPowAdd(n, v, 1, i, c);
    assert MulXPow(n, v, 1, c) == MulX(n, MulXPow(n, v, 0, c), c);
  }

  lemma {:induction false} MulXPowBound(n: nat, v: nat, i: nat, c: nat)
    requires n >= 1 && v < Pow2(n) && c < Pow2(n)
    ensures MulXPow(n, v, i, c) < Pow2(n)
  {
    if i != 0 {
      MulXBound(n, MulXPow(n, v, i - 1, c), c);
    }
  }

  lemma {:induction false} MulXPowZero(n: nat, i: nat, c: nat)
    requires n >= 1
    ensures MulXPow(n, 0, i, c) == 0
  {
    if i != 0 {
      MulXPowZero(n, i - 1, c);
      MulXForm(n, 0, c);
    }
  }

  /** Below degree n no reduction happens: x^i is the word with bit `i` set. */
  lemma {:induction false} MulXPowOfOne(n: nat, i: nat, c: nat)
    requires i < n
    ensures MulXPow(n, 1, i, c) == Pow2(i)
  {
    if i != 0 {
      MulXPowOfOne(n, i - 1, c);
      Pow2Monotone(i, n - 1);
      MulXForm(n, Pow2(i - 1), c);
    }
  }

  // ----- the product, as the loop accumulates it

  lemma {:induction false} UpToLinearLeft(n: nat, v: nat, w: nat, p: nat, k: nat, c: nat)
    requires n >= 1
    ensures MulUpTo(n, Xor(v, w), p, k, c) == Xor(MulUpTo(n, v, p, k, c), MulUpTo(n, w, p, k, c))
  {
    if k == 0 {
      XorZero(0);
    } else {
      UpToLinearLeft(n, v, w, p, k - 1, c);
      MulXPowLinear(n, v, w, k - 1, c);
      XorZero(0);
      XorSwap(MulUpTo(n, v, p, k - 1, c), MulUpTo(n, w, p, k - 1, c),
              Term(n, v, p, k - 1, c), Term(n, w, p, k - 1, c));
    }
  }

  lemma {:induction false} UpToLinearRight(n: nat, v: nat, p: nat, q: nat, k: nat, c: nat)
    requires n >= 1
    ensures MulUpTo(n, v, Xor(p, q), k, c) == Xor(MulUpTo(n, v, p, k, c), MulUpTo(n, v, q, k, c))
  {
    if k == 0 {
      XorZero(0);
    } else {
      UpToLinearRight(n, v, p, q, k - 1, c);
      var t := MulXPow(n, v, k - 1, c);
      XorBit(p, q, k - 1);
      XorSelf(t);
      XorZero(t);
      XorZero(0);
      XorSwap(MulUpTo(n, v, p, k - 1, c), MulUpTo(n, v, q, k - 1, c),
              Term(n, v, p, k - 1, c), Term(n, v, q, k - 1, c));
    }
  }

  /** x times the sum is the sum for x times v. */
  lemma {:induction false} UpToMulX(n: nat, v: nat, p: nat, k: nat, c: nat)
    requires n >= 1
    ensures MulX(n, MulUpTo(n, v, p, k, c), c) == MulUpTo(n, MulX(n, v, c), p, k, c)
  {
    MulXForm(n, 0, c);
    if k != 0 {
      UpToMulX(n, v, p, k - 1, c);
      MulXLinear(n, MulUpTo(n, v, p, k - 1, c), Term(n, v, p, k - 1, c), c);
      MulXPowStep(n, v, k - 1, c);
    }
  }

  /** Doubling the multiplier shifts every term one power up. */
  lemma {:induction false} UpToDouble(n: nat, v: nat, p: nat, k: nat, c: nat)
    requires n >= 1
    ensures MulUpTo(n, v, 2 * p, k + 1, c) == MulX(n, MulUpTo(n, v, p, k, c), c)
  {
    MulXForm(n, 0, c);
    if k == 0 {
      assert MulUpTo(n, v, 2 * p, 1, c) == Xor(MulUpTo(n, v, 2 * p, 0, c), Term(n, v, 2 * p, 0, c));
      XorZero(0);
    } else {
      UpToDouble(n, v, p, k - 1, c);
      assert Bit(2 * p, k) == Bit(p, k - 1);
      MulXLinear(n, MulUpTo(n, v, p, k - 1, c), Term(n, v, p, k - 1, c), c);
    }
  }

  lemma {:induction false} UpToBound(n: nat, v: nat, p: nat, k: nat, c: nat)
    requires n >= 1 && v < Pow2(n) && c < Pow2(n)
    ensures MulUpTo(n, v, p, k, c) < Pow2(n)
  {
    if k != 0 {
      UpToBound(n, v, p, k - 1, c);
      MulXPowBound(n, v, k - 1, c);
      XorBound(MulUpTo(n, v, p, k - 1, c), Term(n, v, p, k - 1, c), n);
    }
  }

  lemma {:induction false} UpToOfOne(n: nat, p: nat, k: nat, c: nat)
    requires 1 <= n && k <= n
    ensures MulUpTo(n, 1, p, k, c) == Low(p, k)
  {
    if k != 0 {
      UpToOfOne(n, p, k - 1, c);
      MulXPowOfOne(n, k - 1, c);
      LowPeel(p, k - 1);
    }
  }

  /** The low `k + 1` bits are the low `k` bits and bit `k`. */
  lemma {:induction false} LowPeel(p: nat, k: nat)
    ensures Low(p, k + 1) == Xor(Low(p, k), if Bit(p, k) then Pow2(k) else 0)
  {
    hide Xor;
    if k == 0 {
      assert Low(p / 2, 0) == 0;
      XorZero(p % 2);
    } else {
      LowPeel(p / 2, k - 1);
      XorCons(Low(p / 2, k - 1), if Bit(p, k) then Pow2(k - 1) else 0, p % 2, 0);
    }
  }

  // ----- laws of the ring

  lemma MulBound(n: nat, v: nat, p: nat, c: nat)
    requires n >= 1 && v < Pow2(n) && c < Pow2(n)
    ensures Mul(n, v, p, c) < Pow2(n)
  {
    UpToBound(n, v, p, n, c);
  }

  /** Distributivity in both arguments. */
  lemma MulLinear(n: nat, v: nat, w: nat, p: nat, q: nat, c: nat)
    requires n >= 1
    ensures Mul(n, Xor(v, w), p, c) == Xor(Mul(n, v, p, c), Mul(n, w, p, c))
    ensures Mul(n, v, Xor(p, q), c) == Xor(Mul(n, v, p, c), Mul(n, v, q, c))
  {
    UpToLinearLeft(n, v, w, p, n, c);
    UpToLinearRight(n, v, p, q, n, c);
  }

  lemma {:induction false} UpToZero(n: nat, v: nat, k: nat, c: nat)
    requires n >= 1
    ensures MulUpTo(n, v, 0, k, c) == 0
    ensures MulUpTo(n, 0, v, k, c) == 0
  {
    if k != 0 {
      UpToZero(n, v, k - 1, c);
      MulXPowZero(n, k - 1, c);
      LowSmall(0, k - 1);
      XorZero(0);
    }
  }

  /** 1 is a unit on both sides, 0 absorbs. */
  lemma MulUnit(n: nat, v: nat, c: nat)
    requires n >= 1 && v < Pow2(n)
    ensures Mul(n, v, 1, c) == v == Mul(n, 1, v, c)
    ensures Mul(n, v, 0, c) == 0 == Mul(n, 0, v, c)
  {
    UpToZero(n, v, n, c);
    UpToOfOne(n, v, n, c);
    LowSmall(v, n);
    UpToRightOne(n, v, n, c);
  }

  lemma {:induction false} UpToRightOne(n: nat, v: nat, k: nat, c: nat)
    requires n >= 1 && k >= 1
    ensures MulUpTo(n, v, 1, k, c) == v
  {
    XorZero(v);
    if k == 1 {
      assert MulUpTo(n, v, 1, 1, c) == Xor(MulUpTo(n, v, 1, 0, c), Term(n, v, 1, 0, c));
    } else {
      UpToRightOne(n, v, k - 1, c);
      assert Shr(1, k - 1) == Shr(0, k - 2);
      LowSmall(0, k - 2);
    }
  }

  lemma HalfAndBit(p: nat)
    ensures p == Xor(2 * (p / 2), p % 2)
  {
    XorCons(p / 2, 0, 0, p % 2);
    XorZero(p / 2);
  }

  /** A multiplier without top bit needs one round less. */
  lemma UpToShort(n: nat, v: nat, p: nat, c: nat)
    requires n >= 1 && p < Pow2(n - 1)
    ensures Mul(n, v, p, c) == MulUpTo(n, v, p, n - 1, c)
  {
    LowSmall(p, n - 1);
    XorZero(MulUpTo(n, v, p, n - 1, c));
  }

  /** Horner's rule on the bits of the second factor. */
  lemma MulHorner(n: nat, v: nat, p: nat, c: nat)
    requires n >= 1 && v < Pow2(n) && p < Pow2(n)
    ensures Mul(n, v, p, c) == Xor(MulX(n, Mul(n, v, p / 2, c), c), if p % 2 == 1 then v else 0)
  {
    var h, b := p / 2, p % 2;
    HalfAndBit(p);
    UpToLinearRight(n, v, 2 * h, b, n, c);
    UpToDouble(n, v, h, n - 1, c);
    UpToShort(n, v, h, c);
    MulUnit(n, v, c);
  }

  lemma {:induction false} MulComm(n: nat, v: nat, p: nat, c: nat)
    requires n >= 1 && v < Pow2(n) && p < Pow2(n)
    ensures Mul(n, v, p, c) == Mul(n, p, v, c)
    decreases p
  {
    if p == 0 {
      MulUnit(n, v, c);
    } else {
      var h, b := p / 2, p % 2;
      MulHorner(n, v, p, c);
      MulComm(n, v, h, c);
      HalfAndBit(p);
      MulLinear(n, 2 * h, b, v, v, c);
      assert h < Pow2(n - 1);
      MulXForm(n, h, c);
      UpToMulX(n, h, v, n, c);
      MulUnit(n, v, c);
    }
  }

  /** x may be moved between the factors and the product. */
  lemma MulXMoves(n: nat, v: nat, p: nat, c: nat)
    requires n >= 1 && v < Pow2(n) && p < Pow2(n) && c < Pow2(n)
    ensures Mul(n, MulX(n, v, c), p, c) == MulX(n, Mul(n, v, p, c), c)
    ensures Mul(n, v, MulX(n, p, c), c) == MulX(n, Mul(n, v, p, c), c)
  {
    UpToMulX(n, v, p, n, c);
    UpToMulX(n, p, v, n, c);
    MulXBound(n, p, c);
    MulComm(n, v, MulX(n, p, c), c);
    MulComm(n, p, v, c);
  }

  lemma {:induction false} MulAssoc(n: nat, a: nat, b: nat, d: nat, c: nat)
    requires n >= 1 && a < Pow2(n) && b < Pow2(n) && d < Pow2(n) && c < Pow2(n)
    ensures Mul(n, Mul(n, a, b, c), d, c) == Mul(n, a, Mul(n, b, d, c), c)
    decreases d
  {
    var ab := Mul(n, a, b, c);
    MulBound(n, a, b, c);
    if d == 0 {
      MulUnit(n, ab, c);
      MulUnit(n, b, c);
      MulUnit(n, a, c);
    } else {
      var h := d / 2;
      var bh := Mul(n, b, h, c);
      MulBound(n, b, h, c);
      MulAssoc(n, a, b, h, c);
      MulHorner(n, ab, d, c);
      MulHorner(n, b, d, c);
      MulLinear(n, a, a, MulX(n, bh, c), if d % 2 == 1 then b else 0, c);
      MulXMoves(n, a, bh, c);
      MulUnit(n, a, c);
    }
  }

  /** `MulXPow(v, i)` is the product of v and x^i. */
  lemma {:induction false} MulXPowIsProduct(n: nat, v: nat, i: nat, c: nat)
    requires n >= 1 && v < Pow2(n) && c < Pow2(n)
    ensures MulXPow(n, v, i, c) == Mul(n, v, MulXPow(n, 1, i, c), c)
  {
    Pow2Monotone(1, n);
    if i == 0 {
      MulUnit(n, v, c);
    } else {
      MulXPowIsProduct(n, v, i - 1, c);
      MulXPowBound(n, 1, i - 1, c);
      MulXMoves(n, v, MulXPow(n, 1, i - 1, c), c);
    }
  }

  // ----- the quotient ring

  /** Carry-less product of polynomials of any degree. */
  function PolyMul(a: nat, b: nat): nat
    decreases b
  {
    if b == 0 then 0 else Xor(2 * PolyMul(a, b / 2), if b % 2 == 1 then a else 0)
  }

  /** `r` is the remainder of `f` on division by the polynomial `m`. */
  ghost predicate Remainder(f: nat, m: nat, n: nat, r: nat) {
    r < Pow2(n) && exists k: nat :: f == Xor(PolyMul(m, k), r)
  }

  lemma PolyMulStep(m: nat, k: nat, b: nat)
    requires b < 2
    ensures PolyMul(m, 2 * k + b) == Xor(2 * PolyMul(m, k), if b == 1 then m else 0)
  {
    assert (2 * k + b) / 2 == k && (2 * k + b) % 2 == b;
    XorZero(0);
  }

  /** x v, before reduction, differs from `MulX` by the modulus or by nothing. */
  lemma MulXReduces(n: nat, v: nat, c: nat)
    requires n >= 1 && v < Pow2(n) && c < Pow2(n)
    ensures 2 * v == Xor(if v >= Pow2(n - 1) then Pow2(n) + c else 0, MulX(n, v, c))
  {
    MulXForm(n, v, c);
    XorZero(2 * v);
    if v >= Pow2(n - 1) {
      MulXCancels(n, v - Pow2(n - 1), c);
    }
  }

  lemma MulXCancels(n: nat, w: nat, c: nat)
    requires n >= 1 && w < Pow2(n - 1) && c < Pow2(n)
    ensures Xor(Pow2(n) + c, Xor(2 * w, c)) == Pow2(n) + 2 * w
  {
    XorTopBit(c, n);
    XorTopBit(2 * w, n);
    XorShared(Pow2(n), 2 * w, c);
  }

  lemma {:induction false} PolyQuotient(n: nat, v: nat, p: nat, c: nat) returns (k: nat)
    requires n >= 1 && v < Pow2(n) && p < Pow2(n) && c < Pow2(n)
    ensures PolyMul(v, p) == Xor(PolyMul(Pow2(n) + c, k), Mul(n, v, p, c))
    decreases p
  {
    hide Xor, Mul, Pow2;
    if p == 0 {
      MulUnit(n, v, c);
      XorZero(0);
      k := 0;
    } else {
      PowerAbove(n, p);
      var h := PolyQuotient(n, v, p / 2, c);
      k := QuotientStep(n, v, p, c, h);
    }
  }

  lemma PowerAbove(n: nat, p: nat)
    requires p < Pow2(n)
    ensures p / 2 < Pow2(n)
  {}

  /** One bit of the multiplier further. */
  lemma QuotientStep(n: nat, v: nat, p: nat, c: nat, h: nat) returns (k: nat)
    requires n >= 1 && v < Pow2(n) && 0 < p < Pow2(n) && c < Pow2(n)
    requires PolyMul(v, p / 2) == Xor(PolyMul(Pow2(n) + c, h), Mul(n, v, p / 2, c))
    ensures PolyMul(v, p) == Xor(PolyMul(Pow2(n) + c, k), Mul(n, v, p, c))
  {
    hide Xor, Mul, MulX, Pow2;
    var m := Pow2(n) + c;
    PowerAbove(n, p);
    var r := Mul(n, v, p / 2, c);
    MulBound(n, v, p / 2, c);
    var b := if r >= Pow2(n - 1) then 1 else 0;
    var t := if b == 1 then m else 0;
    var a := if p % 2 == 1 then v else 0;
    k := 2 * h + b;
    var g, x := 2 * PolyMul(m, h), MulX(n, r, c);
    assert 2 * PolyMul(v, p / 2) == Xor(g, Xor(t, x)) by {
      XorDouble(PolyMul(m, h), r);
      MulXReduces(n, r, c);
    }
    PolyMulStep(m, h, b);
    MulHorner(n, v, p, c);
    XorRegroup(g, t, x, a);
  }

  /** A nonzero multiple of the modulus has degree at least n. */
  lemma {:induction false} PolyMulDegree(n: nat, m: nat, k: nat)
    requires Pow2(n) <= m < Pow2(n + 1) && k > 0
    ensures PolyMul(m, k) >= Pow2(n)
  {
    var h := k / 2;
    XorZero(m);
    XorZero(0);
    if h == 0 {
      assert PolyMul(m, 0) == 0;
    } else {
      PolyMulDegree(n, m, h);
      XorAbove(2 * PolyMul(m, h), if k % 2 == 1 then m else 0, n + 1);
    }
  }

  lemma {:induction false} PolyMulLinear(m: nat, j: nat, k: nat)
    ensures PolyMul(m, Xor(j, k)) == Xor(PolyMul(m, j), PolyMul(m, k))
    decreases j + k
  {
    XorZero(0);
    if j != 0 || k != 0 {
      PolyMulLinear(m, j / 2, k / 2);
      XorHalf(j, k);
      XorSelf(m);
      XorZero(m);
      PolyMulStep(m, j / 2, j % 2);
      PolyMulStep(m, k / 2, k % 2);
      PolyMulStep(m, Xor(j, k) / 2, Xor(j, k) % 2);
      XorDouble(PolyMul(m, j / 2), PolyMul(m, k / 2));
      XorSwap(2 * PolyMul(m, j / 2), if j % 2 == 1 then m else 0,
              2 * PolyMul(m, k / 2), if k % 2 == 1 then m else 0);
    }
  }

  /** `Mul` computes in GF(2)[x]/(x^n + c): it returns the one remainder of the carry-less
      product of its arguments on division by x^n + c, whatever `c` is. */
  lemma MulIsQuotientRing(n: nat, v: nat, p: nat, c: nat, r: nat)
    requires n >= 1 && v < Pow2(n) && p < Pow2(n) && c < Pow2(n)
    ensures Remainder(PolyMul(v, p), Pow2(n) + c, n, r) <==> r == Mul(n, v, p, c)
  {
    var m, u := Pow2(n) + c, Mul(n, v, p, c);
    MulBound(n, v, p, c);
    var k := PolyQuotient(n, v, p, c);
    if Remainder(PolyMul(v, p), m, n, r) {
      var j: nat :| PolyMul(v, p) == Xor(PolyMul(m, j), r);
      SameRemainder(n, m, j, k, r, u);
    }
  }

  lemma SameRemainder(n: nat, m: nat, j: nat, k: nat, r: nat, u: nat)
    requires Pow2(n) <= m < Pow2(n + 1) && r < Pow2(n) && u < Pow2(n)
    requires Xor(PolyMul(m, j), r) == Xor(PolyMul(m, k), u)
    ensures r == u
  {
    var a, b := PolyMul(m, j), PolyMul(m, k);
    assert Xor(Xor(a, b), Xor(r, u)) == 0 by {
      XorSwap(a, r, b, u);
      XorSelf(Xor(b, u));
    }
    XorCancel(Xor(a, b), Xor(r, u));
    XorZero(Xor(r, u));
    assert Xor(a, b) == Xor(r, u);
    XorBound(r, u, n);
    PolyMulLinear(m, j, k);
    if Xor(j, k) > 0 {
      PolyMulDegree(n, m, Xor(j, k));
      assert false;
    }
    assert Xor(r, u) == 0;
    XorCancel(r, u);
    XorZero(u);
  }
}
