/** Machine words as natural numbers, with the bitwise operators of C written out
    bit by bit, and their big-endian bit strings.  A word of `n` bits is a natural
    number below `Pow2(n)`; truncation to `n` bits is `Low(_, n)`. */
module Words {

  function Pow2(k: nat): (p: nat)
    ensures p >= 1
  {
    if k == 0 then 1 else 2 * Pow2(k - 1)
  }

  /** `v << k`, without truncation. */
  function Shl(v: nat, k: nat): nat {
    if k == 0 then v else 2 * Shl(v, k - 1)
  }

  /** `v >> k`. */
  function Shr(v: nat, k: nat): nat {
    if k == 0 then v else Shr(v / 2, k - 1)
  }

  /** The low `k` bits of `v`. */
  function Low(v: nat, k: nat): nat {
    if k == 0 then 0 else 2 * Low(v / 2, k - 1) + v % 2
  }

  /** Bit `k` of `v`, counted from the least significant one. */
  predicate Bit(v: nat, k: nat) {
    Shr(v, k) % 2 == 1
  }

  function Xor(a: nat, b: nat): nat
    decreases a + b
  {
    if a == 0 && b == 0 then 0
    else 2 * Xor(a / 2, b / 2) + (if a % 2 != b % 2 then 1 else 0)
  }

  function Or(a: nat, b: nat): nat
    decreases a + b
  {
    if a == 0 && b == 0 then 0
    else 2 * Or(a / 2, b / 2) + (if a % 2 == 1 || b % 2 == 1 then 1 else 0)
  }

  function And(a: nat, b: nat): nat
    decreases a
  {
    if a == 0 || b == 0 then 0
    else 2 * And(a / 2, b / 2) + (if a % 2 == 1 && b % 2 == 1 then 1 else 0)
  }

  type u8 = v: nat | v < 0x100
  type u16 = v: nat | v < 0x1_0000
  type u32 = v: nat | v < 0x1_0000_0000
  type u64 = v: nat | v < 0x1_0000_0000_0000_0000

  type i64 = v: int | -0x8000_0000_0000_0000 <= v < 0x8000_0000_0000_0000

  const INT64_MAX: int := 0x7fff_ffff_ffff_ffff
  const INT64_MIN: int := -0x8000_0000_0000_0000
  const TWO_32: nat := 0x1_0000_0000
  const TWO_64: nat := 0x1_0000_0000_0000_0000

  predicate FitsI64(v: int) {
    INT64_MIN <= v <= INT64_MAX
  }

  /** Unsigned addition on 32 bits. */
  function Add32(a: u32, b: u32): u32 {
    (a + b) % TWO_32
  }

  // ----- powers and shifts

  lemma WidthFacts()
    ensures Pow2(8) == 0x100 && Pow2(16) == 0x1_0000 && Pow2(24) == 0x100_0000
    ensures Pow2(32) == TWO_32 && Pow2(64) == TWO_64
  {
    assert Pow2(8) == 0x100;
    Pow2Add(8, 8);
    Pow2Add(8, 16);
    Pow2Add(16, 16);
    Pow2Add(32, 32);
  }

  lemma OctetPowers()
    ensures Pow2(0) == 1 && Pow2(1) == 2 && Pow2(2) == 4 && Pow2(3) == 8
    ensures Pow2(4) == 16 && Pow2(5) == 32 && Pow2(6) == 64 && Pow2(7) == 128
  {}

  lemma {:induction false} Pow2Add(i: nat, j: nat)
    ensures Pow2(i + j) == Pow2(i) * Pow2(j)
  {
    if j != 0 {
      Pow2Add(i, j - 1);
      assert i + j - 1 == i + (j - 1);
    }
  }

  lemma {:induction false} Pow2Monotone(i: nat, j: nat)
    requires i <= j
    ensures Pow2(i) <= Pow2(j)
  {
    if i < j {
      Pow2Monotone(i, j - 1);
    }
  }

  lemma {:induction false} ShlIsProduct(v: nat, k: nat)
    ensures Shl(v, k) == v * Pow2(k)
  {
    if k != 0 {
      ShlIsProduct(v, k - 1);
    }
  }

  /** `Shr` and `Low` are quotient and remainder by a power of two. */
  lemma {:induction false} Split(v: nat, k: nat)
    ensures v == Shr(v, k) * Pow2(k) + Low(v, k)
    ensures Low(v, k) < Pow2(k)
  {
    if k != 0 {
      Split(v / 2, k - 1);
      DoubledProduct(Shr(v / 2, k - 1), Pow2(k - 1));
    }
  }

  lemma DoubledProduct(a: nat, p: nat)
    ensures a * (2 * p) == 2 * (a * p)
  {}

  lemma {:induction false} SplitUnique(q: nat, r: nat, k: nat)
    requires r < Pow2(k)
    ensures Shr(q * Pow2(k) + r, k) == q
    ensures Low(q * Pow2(k) + r, k) == r
  {
    var v := q * Pow2(k) + r;
    if k != 0 {
      assert v == 2 * (q * Pow2(k - 1)) + r;
      assert v / 2 == q * Pow2(k - 1) + r / 2;
      SplitUnique(q, r / 2, k - 1);
    }
  }

  lemma ProductAtLeast(d: int, p: int)
    requires d >= 1 && p >= 0
    ensures d * p >= p
  {}

  lemma NoMultipleBetween(d: int, p: int)
    requires -p < d * p < p
    ensures d == 0
  {
    if d >= 1 {
      ProductAtLeast(d, p);
    } else if d <= -1 {
      ProductAtLeast(-d, p);
    }
  }

  lemma DivModUnique(v: int, p: nat, q: int, r: nat)
    requires v == q * p + r && r < p
    ensures v / p == q && v % p == r
  {
    var t, m := v / p, v % p;
    assert v == t * p + m && 0 <= m < p;
    assert (t - q) * p == r - m;
    NoMultipleBetween(t - q, p);
  }

  lemma ShrLowIsDivMod(v: nat, k: nat)
    ensures Shr(v, k) == v / Pow2(k) && Low(v, k) == v % Pow2(k)
  {
    Split(v, k);
    DivModUnique(v, Pow2(k), Shr(v, k), Low(v, k));
  }

  lemma LowSmall(v: nat, k: nat)
    requires v < Pow2(k)
    ensures Low(v, k) == v && Shr(v, k) == 0
  {
    SplitUnique(0, v, k);
  }

  /** Shifting an (m + k)-bit word up by `k` drops what lies above its low `m` bits. */
  lemma {:induction false} ShlDrops(h: nat, l: nat, m: nat, k: nat)
    requires l < Pow2(m)
    ensures Low(Shl(h * Pow2(m) + l, k), m + k) == Shl(l, k)
  {
    if k == 0 {
      SplitUnique(h, l, m);
    } else {
      ShlDrops(h, l, m, k - 1);
      assert m + k - 1 == m + (k - 1);
      assert (2 * Shl(h * Pow2(m) + l, k - 1)) / 2 == Shl(h * Pow2(m) + l, k - 1);
    }
  }

  lemma TopSmall(v: nat, n: nat, k: nat)
    requires v < Pow2(n + k)
    ensures Shr(v, k) < Pow2(n)
  {
    Split(v, k);
    Pow2Add(n, k);
    if Shr(v, k) >= Pow2(n) {
      ScaledAtLeast(Shr(v, k), Pow2(n), Pow2(k));
    }
  }

  lemma ScaledAtLeast(a: nat, b: nat, p: nat)
    requires a >= b
    ensures a * p >= b * p
  {}

  lemma {:induction false} LowOfLow(v: nat, i: nat, j: nat)
    requires j <= i
    ensures Low(Low(v, i), j) == Low(v, j)
  {
    if j != 0 {
      LowOfLow(v / 2, i - 1, j - 1);
    }
  }

  lemma {:induction false} LowSplit(v: nat, j: nat, k: nat)
    ensures Low(v, j + k) == Shl(Low(Shr(v, j), k), j) + Low(v, j)
  {
    if j != 0 {
      LowSplit(v / 2, j - 1, k);
      assert j + k - 1 == (j - 1) + k;
    }
  }

  lemma LowOfShl(v: nat, m: nat, k: nat)
    ensures Low(Shl(v, k), m + k) == Shl(Low(v, m), k)
  {
    Split(v, m);
    ShlDrops(Shr(v, m), Low(v, m), m, k);
  }

  lemma {:induction false} ShrAdd(v: nat, i: nat, j: nat)
    ensures Shr(Shr(v, i), j) == Shr(v, i + j)
  {
    if i != 0 {
      ShrAdd(v / 2, i - 1, j);
      assert i + j - 1 == (i - 1) + j;
    }
  }

  // ----- exclusive or

  lemma XorZero(a: nat)
    ensures Xor(a, 0) == a && Xor(0, a) == a
  {}

  lemma {:induction false} XorSelf(a: nat)
    ensures Xor(a, a) == 0
  {
    if a != 0 {
      XorSelf(a / 2);
    }
  }

  lemma {:induction false} XorComm(a: nat, b: nat)
    ensures Xor(a, b) == Xor(b, a)
    decreases a + b
  {
    if a != 0 || b != 0 {
      XorComm(a / 2, b / 2);
    }
  }

  lemma {:induction false} XorAssoc(a: nat, b: nat, c: nat)
    ensures Xor(Xor(a, b), c) == Xor(a, Xor(b, c))
    decreases a + b + c
  {
    if a != 0 || b != 0 || c != 0 {
      XorAssoc(a / 2, b / 2, c / 2);
      XorHalf(a, b);
      XorHalf(b, c);
      XorHalf(Xor(a, b), c);
      XorHalf(a, Xor(b, c));
    }
  }

  lemma XorHalf(a: nat, b: nat)
    ensures Xor(a, b) / 2 == Xor(a / 2, b / 2)
    ensures Xor(a, b) % 2 == (if a % 2 != b % 2 then 1 else 0)
  {}

  lemma XorCons(a: nat, b: nat, p: nat, q: nat)
    requires p < 2 && q < 2
    ensures Xor(2 * a + p, 2 * b + q) == 2 * Xor(a, b) + (if p != q then 1 else 0)
  {
    XorHalf(2 * a + p, 2 * b + q);
  }

  lemma XorCancel(a: nat, b: nat)
    ensures Xor(Xor(a, b), b) == a && Xor(b, Xor(b, a)) == a
  {
    XorAssoc(a, b, b);
    XorAssoc(b, b, a);
    XorSelf(b);
    XorZero(a);
  }

  lemma XorSwap(a: nat, b: nat, c: nat, d: nat)
    ensures Xor(Xor(a, b), Xor(c, d)) == Xor(Xor(a, c), Xor(b, d))
  {
    calc {
      Xor(Xor(a, b), Xor(c, d));
      { XorAssoc(a, b, Xor(c, d)); XorAssoc(b, c, d); }
      Xor(a, Xor(Xor(b, c), d));
      { XorComm(b, c); XorAssoc(c, b, d); }
      Xor(a, Xor(c, Xor(b, d)));
      { XorAssoc(a, c, Xor(b, d)); }
      Xor(Xor(a, c), Xor(b, d));
    }
  }

  lemma XorShared(a: nat, b: nat, c: nat)
    ensures Xor(Xor(a, c), Xor(b, c)) == Xor(a, b)
  {
    XorSwap(a, c, b, c);
    XorSelf(c);
    XorZero(Xor(a, b));
  }

  lemma XorRegroup(a: nat, b: nat, c: nat, d: nat)
    ensures Xor(Xor(a, Xor(b, c)), d) == Xor(Xor(a, b), Xor(c, d))
  {
    XorAssoc(a, b, c);
    XorAssoc(Xor(a, b), c, d);
  }

  lemma {:induction false} XorShr(a: nat, b: nat, k: nat)
    ensures Shr(Xor(a, b), k) == Xor(Shr(a, k), Shr(b, k))
  {
    if k != 0 {
      XorShr(a / 2, b / 2, k - 1);
      XorHalf(a, b);
    }
  }

  lemma {:induction false} XorLow(a: nat, b: nat, k: nat)
    ensures Low(Xor(a, b), k) == Xor(Low(a, k), Low(b, k))
  {
    if k != 0 {
      XorLow(a / 2, b / 2, k - 1);
      XorHalf(a, b);
      XorCons(Low(a / 2, k - 1), Low(b / 2, k - 1), a % 2, b % 2);
    }
  }

  lemma XorBit(a: nat, b: nat, k: nat)
    ensures Bit(Xor(a, b), k) == (Bit(a, k) != Bit(b, k))
  {
    XorShr(a, b, k);
    XorHalf(Shr(a, k), Shr(b, k));
  }

  lemma XorBound(a: nat, b: nat, k: nat)
    requires a < Pow2(k) && b < Pow2(k)
    ensures Xor(a, b) < Pow2(k)
  {
    LowSmall(a, k);
    LowSmall(b, k);
    XorLow(a, b, k);
    Split(Xor(a, b), k);
  }

  lemma XorDouble(a: nat, b: nat)
    ensures Xor(2 * a, 2 * b) == 2 * Xor(a, b)
  {}

  /** Bits below `k` cannot bring a larger word under 2^k. */
  lemma XorAbove(a: nat, b: nat, k: nat)
    requires a >= Pow2(k) && b < Pow2(k)
    ensures Xor(a, b) >= Pow2(k)
  {
    if Xor(a, b) < Pow2(k) {
      XorBound(Xor(a, b), b, k);
      XorCancel(a, b);
    }
  }

  lemma {:induction false} XorShl(a: nat, b: nat, k: nat)
    ensures Shl(Xor(a, b), k) == Xor(Shl(a, k), Shl(b, k))
  {
    if k != 0 {
      XorShl(a, b, k - 1);
      XorDouble(Shl(a, k - 1), Shl(b, k - 1));
    }
  }

  /** Words whose set bits do not overlap: or, exclusive or and sum agree. */
  lemma {:induction false} Disjoint(a: nat, b: nat, k: nat)
    requires b < Pow2(k)
    ensures Or(Shl(a, k), b) == Shl(a, k) + b
    ensures Xor(Shl(a, k), b) == Shl(a, k) + b
  {
    if k == 0 {
      OrZero(a);
      XorZero(a);
    } else {
      Disjoint(a, b / 2, k - 1);
      assert Shl(a, k) / 2 == Shl(a, k - 1);
    }
  }

  /** The same for two adjacent fields shifted up together. */
  lemma {:induction false} OrFields(a: nat, b: nat, j: nat, k: nat)
    requires b < Pow2(j)
    ensures Or(Shl(a, j + k), Shl(b, k)) == Shl(a * Pow2(j) + b, k)
  {
    if k == 0 {
      Disjoint(a, b, j);
      ShlIsProduct(a, j);
    } else {
      OrFields(a, b, j, k - 1);
      assert j + k - 1 == j + (k - 1);
      OrDouble(Shl(a, j + k - 1), Shl(b, k - 1));
    }
  }

  lemma OrDouble(a: nat, b: nat)
    ensures Or(2 * a, 2 * b) == 2 * Or(a, b)
  {}

  /** Exclusive or works field by field. */
  lemma XorFields(a: nat, b: nat, c: nat, d: nat, k: nat)
    requires b < Pow2(k) && d < Pow2(k)
    ensures Xor(a * Pow2(k) + b, c * Pow2(k) + d) == Xor(a, c) * Pow2(k) + Xor(b, d)
  {
    var x, y := a * Pow2(k) + b, c * Pow2(k) + d;
    SplitUnique(a, b, k);
    SplitUnique(c, d, k);
    XorShr(x, y, k);
    XorLow(x, y, k);
    Split(Xor(x, y), k);
  }

  lemma XorTopBit(b: nat, k: nat)
    requires b < Pow2(k)
    ensures Xor(Pow2(k), b) == Pow2(k) + b
  {
    ShlIsProduct(1, k);
    Disjoint(1, b, k);
  }

  lemma {:induction false} OrZero(a: nat)
    ensures Or(a, 0) == a && Or(0, a) == a
  {
    if a != 0 {
      OrZero(a / 2);
    }
  }

  lemma {:induction false} OrLow(a: nat, b: nat, k: nat)
    ensures Low(Or(a, b), k) == Or(Low(a, k), Low(b, k))
  {
    if k != 0 {
      OrLow(a / 2, b / 2, k - 1);
    }
  }

  /** Masking with the low `k` ones. */
  lemma {:induction false} AndLowMask(a: nat, k: nat)
    ensures And(a, Pow2(k) - 1) == Low(a, k)
  {
    if k == 0 {
    } else if a == 0 {
      LowSmall(0, k);
    } else {
      AndLowMask(a / 2, k - 1);
      assert (Pow2(k) - 1) / 2 == Pow2(k - 1) - 1;
    }
  }

  // ----- operators on 32-bit words

  lemma OrBound(a: nat, b: nat, k: nat)
    requires a < Pow2(k) && b < Pow2(k)
    ensures Or(a, b) < Pow2(k)
  {
    LowSmall(a, k);
    LowSmall(b, k);
    OrLow(a, b, k);
    Split(Or(a, b), k);
  }

  function Xor32(a: u32, b: u32): u32 {
    WidthFacts();
    XorBound(a, b, 32);
    Xor(a, b)
  }

  function XorOctets(a: u8, b: u8): u8 {
    WidthFacts();
    XorBound(a, b, 8);
    Xor(a, b)
  }

  function Or32(a: u32, b: u32): u32 {
    WidthFacts();
    OrBound(a, b, 32);
    Or(a, b)
  }

  /** `w << k`, the excess dropped. */
  function Shl32(w: nat, k: nat): u32 {
    WidthFacts();
    Split(Shl(w, k), 32);
    Low(Shl(w, k), 32)
  }

  /** `w & 0xff`. */
  function LowOctet(w: nat): u8 {
    WidthFacts();
    AndLowMask(w, 8);
    Split(w, 8);
    And(w, 0xff)
  }

  function Shr32(w: u32, k: nat): u32 {
    ShrBound(w, k);
    Shr(w, k)
  }

  lemma ShrZero(v: nat)
    ensures Shr(v, 0) == v
  {}

  lemma {:induction false} ShrBound(v: nat, k: nat)
    ensures Shr(v, k) <= v
  {
    if k != 0 {
      ShrBound(v / 2, k - 1);
    }
  }

  // ----- big-endian bit strings

  function ToBits(v: nat, n: nat): (s: seq<bool>)
    ensures |s| == n
  {
    if n == 0 then [] else ToBits(v / 2, n - 1) + [v % 2 == 1]
  }

  function FromBits(s: seq<bool>): nat {
    if s == [] then 0 else 2 * FromBits(s[..|s| - 1]) + (if s[|s| - 1] then 1 else 0)
  }

  lemma {:induction false} FromToBits(v: nat, n: nat)
    ensures FromBits(ToBits(v, n)) == Low(v, n)
  {
    if n != 0 {
      FromToBits(v / 2, n - 1);
      assert ToBits(v, n)[..n - 1] == ToBits(v / 2, n - 1);
    }
  }

  lemma {:induction false} ToFromBits(s: seq<bool>)
    ensures ToBits(FromBits(s), |s|) == s
  {
    if s != [] {
      ToFromBits(s[..|s| - 1]);
      assert s == s[..|s| - 1] + [s[|s| - 1]];
    }
  }

  lemma BitsDetermine(v: nat, w: nat, n: nat)
    requires v < Pow2(n) && w < Pow2(n) && ToBits(v, n) == ToBits(w, n)
    ensures v == w
  {
    FromToBits(v, n);
    FromToBits(w, n);
    LowSmall(v, n);
    LowSmall(w, n);
  }

  lemma {:induction false} FromBitsBound(s: seq<bool>)
    ensures FromBits(s) < Pow2(|s|)
  {
    if s != [] {
      FromBitsBound(s[..|s| - 1]);
    }
  }

  lemma {:induction false} FromBitsConcat(a: seq<bool>, b: seq<bool>)
    ensures FromBits(a + b) == Shl(FromBits(a), |b|) + FromBits(b)
  {
    if b == [] {
      assert a + b == a;
    } else {
      FromBitsConcat(a, b[..|b| - 1]);
      assert (a + b)[..|a + b| - 1] == a + b[..|b| - 1];
    }
  }

  /** Bit `k` of the string, counted from the front, is bit `n - 1 - k` of the word. */
  lemma {:induction false} ToBitsAt(v: nat, n: nat, k: nat)
    requires k < n
    ensures ToBits(v, n)[k] == Bit(v, n - 1 - k)
  {
    if k < n - 1 {
      ToBitsAt(v / 2, n - 1, k);
      assert Shr(v, n - 1 - k) == Shr(v / 2, n - 1 - 1 - k);
    }
  }

  function XorBits(a: seq<bool>, b: seq<bool>): (s: seq<bool>)
    requires |a| == |b|
    ensures |s| == |a| && forall i :: 0 <= i < |s| ==> s[i] == (a[i] != b[i])
  {
    seq(|a|, i requires 0 <= i < |a| => a[i] != b[i])
  }

  lemma {:induction false} FromBitsXor(a: seq<bool>, b: seq<bool>)
    requires |a| == |b|
    ensures FromBits(XorBits(a, b)) == Xor(FromBits(a), FromBits(b))
  {
    hide Xor, XorBits;
    if a == [] {
      XorZero(0);
    } else {
      var m := |a| - 1;
      FromBitsXor(a[..m], b[..m]);
      XorCons(FromBits(a[..m]), FromBits(b[..m]), if a[m] then 1 else 0, if b[m] then 1 else 0);
      assert XorBits(a, b)[..m] == XorBits(a[..m], b[..m]);
    }
  }

  lemma {:induction false} ToBitsXor(v: nat, w: nat, n: nat)
    ensures ToBits(Xor(v, w), n) == XorBits(ToBits(v, n), ToBits(w, n))
  {
    if n != 0 {
      hide Xor, XorBits;
      ToBitsXor(v / 2, w / 2, n - 1);
      XorHalf(v, w);
      XorAppended(ToBits(v / 2, n - 1), ToBits(w / 2, n - 1), v % 2 == 1, w % 2 == 1);
    }
  }

  lemma XorAppended(a: seq<bool>, b: seq<bool>, p: bool, q: bool)
    requires |a| == |b|
    ensures XorBits(a + [p], b + [q]) == XorBits(a, b) + [p != q]
  {}

  function Zeros(n: nat): (s: seq<bool>)
    ensures |s| == n && forall i :: 0 <= i < n ==> !s[i]
  {
    seq(n, i => false)
  }

  lemma {:induction false} ToBitsOfZero(n: nat)
    ensures ToBits(0, n) == Zeros(n)
  {
    if n != 0 {
      ToBitsOfZero(n - 1);
    }
  }

  lemma {:induction false} FromBitsZeros(n: nat)
    ensures FromBits(Zeros(n)) == 0
  {
    if n != 0 {
      FromBitsZeros(n - 1);
      assert Zeros(n)[..n - 1] == Zeros(n - 1);
    }
  }

  lemma {:induction false} ShlAdd(v: nat, i: nat, j: nat)
    ensures Shl(Shl(v, i), j) == Shl(v, i + j)
  {
    if j != 0 {
      ShlAdd(v, i, j - 1);
      assert i + j - 1 == i + (j - 1);
    }
  }

  lemma FromOneBit(s: seq<bool>)
    requires |s| == 1
    ensures FromBits(s) == if s[0] then 1 else 0
  {
    assert FromBits(s[..0]) == 0;
  }

  lemma ToOneBit(b: nat)
    requires b < 2
    ensures ToBits(b, 1) == [b == 1]
  {
    assert ToBits(b, 1) == ToBits(b / 2, 0) + [b % 2 == 1];
  }

  lemma ConcatAssoc<T>(a: seq<T>, b: seq<T>, c: seq<T>, d: seq<T>)
    ensures a + b + c == a + (b + c)
    ensures a + b + c + d == a + (b + c + d)
  {}

  lemma FromBitsPadded(s: seq<bool>, n: nat)
    ensures FromBits(s + Zeros(n)) == Shl(FromBits(s), n)
  {
    FromBitsConcat(s, Zeros(n));
    FromBitsZeros(n);
  }

  /** The first `n` of `n + k` bits are the word shifted down. */
  lemma {:induction false} ToBitsPrefix(v: nat, n: nat, k: nat)
    ensures ToBits(v, n + k)[..n] == ToBits(Shr(v, k), n)
  {
    if k != 0 {
      ToBitsPrefix(v / 2, n, k - 1);
      assert n + k - 1 == n + (k - 1);
      assert ToBits(v, n + k)[..n] == ToBits(v / 2, n + k - 1)[..n];
    } else {
      assert ToBits(v, n)[..n] == ToBits(v, n);
    }
  }

  /** The last `k` of `n + k` bits are the bits of the low part. */
  lemma {:induction false} ToBitsSuffix(v: nat, n: nat, k: nat)
    ensures ToBits(v, n + k)[n..] == ToBits(v, k)
  {
    if k != 0 {
      ToBitsSuffix(v / 2, n, k - 1);
      assert n + k - 1 == n + (k - 1);
      assert ToBits(v, n + k)[n..] == ToBits(v / 2, n + k - 1)[n..] + [v % 2 == 1];
    }
  }

  /** Two fields side by side. */
  lemma {:induction false} ToBitsFields(h: nat, l: nat, n: nat, k: nat)
    requires l < Pow2(k)
    ensures ToBits(Shl(h, k) + l, n + k) == ToBits(h, n) + ToBits(l, k)
  {
    if k == 0 {
      assert ToBits(h, n) + [] == ToBits(h, n);
    } else {
      ToBitsFields(h, l / 2, n, k - 1);
      assert n + k - 1 == n + (k - 1);
      assert (Shl(h, k) + l) / 2 == Shl(h, k - 1) + l / 2;
      assert ToBits(h, n) + ToBits(l, k) == (ToBits(h, n) + ToBits(l / 2, k - 1)) + [l % 2 == 1];
    }
  }

  lemma ToBitsSplit(v: nat, n: nat, k: nat)
    ensures ToBits(v, n + k) == ToBits(Shr(v, k), n) + ToBits(v, k)
  {
    ToBitsPrefix(v, n, k);
    ToBitsSuffix(v, n, k);
    assert ToBits(v, n + k) == ToBits(v, n + k)[..n] + ToBits(v, n + k)[n..];
  }

  lemma {:induction false} ToBitsOfLow(v: nat, k: nat)
    ensures ToBits(Low(v, k), k) == ToBits(v, k)
  {
    if k != 0 {
      ToBitsOfLow(v / 2, k - 1);
    }
  }

  lemma {:induction false} AndPow2(v: nat, k: nat)
    ensures And(v, Pow2(k)) == if Bit(v, k) then Pow2(k) else 0
  {
    if k == 0 {
      assert v != 0 ==> And(v / 2, 0) == 0;
    } else {
      AndPow2(v / 2, k - 1);
      AndDouble(v, Pow2(k - 1));
    }
  }

  lemma {:induction false} AndShl(a: nat, b: nat, k: nat)
    ensures And(a, Shl(b, k)) == Shl(And(Shr(a, k), b), k)
  {
    if k != 0 {
      AndShl(a / 2, b, k - 1);
      AndDouble(a, Shl(b, k - 1));
    }
  }

  lemma AndDouble(a: nat, b: nat)
    ensures And(a, 2 * b) == 2 * And(a / 2, b)
  {
    if a != 0 && b != 0 {
      assert (2 * b) / 2 == b && (2 * b) % 2 == 0;
    }
  }

  /** `b & ~((1 << r) - 1)` on `n` bits. */
  lemma KeepTop(b: nat, r: nat, n: nat)
    requires r <= n && b < Pow2(n)
    ensures Pow2(n) >= Pow2(r) && And(b, Pow2(n) - Pow2(r)) == Shl(Shr(b, r), r)
  {
    hide And, Shl, Shr, Low, Pow2;
    TopMask(r, n);
    AndShl(b, Pow2(n - r) - 1, r);
    AndLowMask(Shr(b, r), n - r);
    TopSmall(b, n - r, r);
    LowSmall(Shr(b, r), n - r);
  }

  lemma TopMask(r: nat, n: nat)
    requires r <= n
    ensures Pow2(n) >= Pow2(r) && Pow2(n) - Pow2(r) == Shl(Pow2(n - r) - 1, r)
  {
    hide Shl, Pow2;
    Pow2Monotone(r, n);
    Pow2Add(n - r, r);
    ShlIsProduct(Pow2(n - r) - 1, r);
    Distribute(Pow2(n - r), Pow2(r));
  }

  lemma Distribute(a: nat, b: nat)
    requires a >= 1
    ensures (a - 1) * b == a * b - b
  {}

  // ----- tables

  /** Entry `j` of a table row. */
  function Pick(j: int, x0: int, x1: int, x2: int, x3: int, x4: int, x5: int, x6: int, x7: int, x8: int,
                x9: int, x10: int, x11: int, x12: int, x13: int, x14: int, x15: int): int {
    if j == 0 then x0
    else if j == 1 then x1
    else if j == 2 then x2
    else if j == 3 then x3
    else if j == 4 then x4
    else if j == 5 then x5
    else if j == 6 then x6
    else if j == 7 then x7
    else if j == 8 then x8
    else if j == 9 then x9
    else if j == 10 then x10
    else if j == 11 then x11
    else if j == 12 then x12
    else if j == 13 then x13
    else if j == 14 then x14
    else x15
  }

  // ----- words made of parts

  function Bytes4(b3: nat, b2: nat, b1: nat, b0: nat): nat {
    ((b3 * 0x100 + b2) * 0x100 + b1) * 0x100 + b0
  }

  lemma OrBytes4(a3: u8, a2: u8, a1: u8, a0: u8)
    ensures Or(Or(Or(Shl(a3, 24), Shl(a2, 16)), Shl(a1, 8)), a0) == Bytes4(a3, a2, a1, a0)
  {
    assert Pow2(8) == 0x100;
    hide Or, Shl, Pow2;
    var h := a3 * 0x100 + a2;
    OrFields(a3, a2, 8, 16);
    OrFields(h, a1, 8, 8);
    OrFields(h * 0x100 + a1, a0, 8, 0);
  }

  lemma FromBitsShifted(a: seq<bool>, b: seq<bool>)
    ensures Shr(FromBits(a + b), |b|) == FromBits(a) && Low(FromBits(a + b), |b|) == FromBits(b)
  {
    hide Shr, Low, Pow2, FromBits;
    FromBitsConcat(a, b);
    ShlIsProduct(FromBits(a), |b|);
    FromBitsBound(b);
    SplitUnique(FromBits(a), FromBits(b), |b|);
  }

  /** The end of one word and the beginning of the next, as shifts and an or give them. */
  lemma Straddle(a: u32, b: u32, t: nat)
    requires 0 < t < 32
    ensures Or32(Shl32(a, t), Shr32(b, 32 - t)) == FromBits(ToBits(a, 32)[t..] + ToBits(b, 32)[..t])
  {
    hide ToBits, FromBits, Or, Shl, Shr, Low;
    var m := 32 - t;
    var l, h := Low(a, m), Shr(b, m);
    WidthFacts();
    LowOfShl(a, m, t);
    assert m + t == 32;
    TopSmall(b, t, m);
    Disjoint(l, h, t);
    ToBitsSuffix(a, t, m);
    ToBitsPrefix(b, t, m);
    ToBitsOfLow(a, m);
    FromBitsConcat(ToBits(l, m), ToBits(h, t));
    Split(a, m);
    FromToBits(l, m);
    LowSmall(l, m);
    FromToBits(h, t);
    LowSmall(h, t);
  }

  // ----- byte strings

  /** The bits of a byte string, most significant bit of the first byte first. */
  function Bits(data: seq<u8>): (s: seq<bool>)
    ensures |s| == 8 * |data|
  {
    seq(8 * |data|, k requires 0 <= k < 8 * |data| => ToBits(data[k / 8], 8)[k % 8])
  }

  /** The big-endian value of `n` bytes from offset `o`. */
  function BytesValue(data: seq<u8>, o: nat, n: nat): nat
    requires o + n <= |data|
  {
    if n == 0 then 0 else BytesValue(data, o, n - 1) * 0x100 + data[o + n - 1]
  }

  lemma ByteOfBits(data: seq<u8>, i: nat)
    requires i < |data|
    ensures Bits(data)[8 * i..8 * i + 8] == ToBits(data[i], 8)
  {
    var s := Bits(data);
    forall k | 0 <= k < 8
      ensures s[8 * i + k] == ToBits(data[i], 8)[k]
    {
      assert (8 * i + k) / 8 == i && (8 * i + k) % 8 == k;
    }
  }

  lemma WholeOctets(off: nat, k: nat)
    ensures (8 * off + k) / 8 == off + k / 8 && (8 * off + k) % 8 == k % 8
  {}

  lemma BitsPrefix(bytes: seq<u8>, n: nat)
    requires n <= |bytes|
    ensures Bits(bytes[..n]) == Bits(bytes)[..8 * n]
  {
    hide ToBits;
  }

  lemma BitsSuffix(bytes: seq<u8>, off: nat)
    requires off <= |bytes|
    ensures Bits(bytes[off..]) == Bits(bytes)[8 * off..]
  {
    hide ToBits;
    forall k | 0 <= k < 8 * (|bytes| - off)
      ensures Bits(bytes[off..])[k] == Bits(bytes)[8 * off + k]
    {
      WholeOctets(off, k);
    }
  }

  lemma BitsConcat(a: seq<u8>, b: seq<u8>)
    ensures Bits(a + b) == Bits(a) + Bits(b)
  {
    hide ToBits;
    forall k | 8 * |a| <= k < 8 * |a + b|
      ensures Bits(a + b)[k] == Bits(b)[k - 8 * |a|]
    {
      WholeOctets(|a|, k - 8 * |a|);
    }
  }

  lemma {:induction false} BytesValueIsBits(data: seq<u8>, o: nat, n: nat)
    requires o + n <= |data|
    ensures BytesValue(data, o, n) == FromBits(Bits(data)[8 * o..8 * (o + n)])
  {
    hide Bits, ToBits;
    var s := Bits(data);
    if n == 0 {
      assert s[8 * o..8 * o] == [];
    } else {
      var j := o + n - 1;
      BytesValueIsBits(data, o, n - 1);
      ByteOfBits(data, j);
      assert s[8 * o..8 * (o + n)] == s[8 * o..8 * j] + s[8 * j..8 * j + 8];
      AppendByteValue(s[8 * o..8 * j], data[j]);
    }
  }

  lemma AppendByteValue(s: seq<bool>, b: u8)
    ensures FromBits(s + ToBits(b, 8)) == FromBits(s) * 0x100 + b
  {
    hide FromBits, ToBits;
    FromBitsConcat(s, ToBits(b, 8));
    FromToBits(b, 8);
    assert Pow2(8) == 0x100;
    LowSmall(b, 8);
    ShlIsProduct(FromBits(s), 8);
  }

  /** The bits of a string of 32-bit words. */
  function WordBits(data: seq<u32>): (s: seq<bool>)
    ensures |s| == 32 * |data|
    ensures forall k :: 0 <= k < |s| ==> s[k] == ToBits(data[k / 32], 32)[k % 32]
  {
    seq(32 * |data|, k requires 0 <= k < 32 * |data| => ToBits(data[k / 32], 32)[k % 32])
  }

  lemma WordOfBits(data: seq<u32>, i: nat)
    requires i < |data|
    ensures WordBits(data)[32 * i..32 * i + 32] == ToBits(data[i], 32)
  {
    hide ToBits;
    var s := WordBits(data);
    forall k | 0 <= k < 32
      ensures s[32 * i + k] == ToBits(data[i], 32)[k]
    {
      assert (32 * i + k) / 32 == i && (32 * i + k) % 32 == k;
    }
  }
}
