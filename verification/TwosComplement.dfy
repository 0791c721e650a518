/** Two's-complement octet strings of any length: their value, the minimal one of each value
    (section 8.3.2 of X.690), and the order `INTEGER_compare` puts on them. */
module TwosComplement {
  import opened Words

  function Unsigned(s: seq<u8>): nat {
    BytesValue(s, 0, |s|)
  }

  predicate Negative(s: seq<u8>) {
    s != [] && s[0] >= 0x80
  }

  function Signed(s: seq<u8>): int {
    if Negative(s) then Unsigned(s) - Pow2(8 * |s|) else Unsigned(s)
  }

  /** The first octet only repeats the sign bit of the second. */
  predicate Redundant(s: seq<u8>) {
    |s| > 1 && ((s[0] == 0x00 && s[1] < 0x80) || (s[0] == 0xff && s[1] >= 0x80))
  }

  ghost predicate Minimal(s: seq<u8>) {
    s != [] && !Redundant(s)
  }

  /** The string without its superfluous leading octets. */
  function Stripped(s: seq<u8>): (t: seq<u8>)
    ensures |t| <= |s| && (s != [] ==> t != []) && !Redundant(t)
    ensures t == s[|s| - |t|..]
    decreases |s|
  {
    if Redundant(s) then Stripped(s[1..]) else s
  }

  function BeBytes(v: nat, n: nat): (s: seq<u8>)
    ensures |s| == n
  {
    if n == 0 then [] else BeBytes(v / 0x100, n - 1) + [v % 0x100]
  }

  // ----- values

  lemma UnsignedIsNatural(s: seq<u8>)
    ensures Unsigned(s) >= 0
  {}

  lemma Pow2Byte(n: nat)
    ensures Pow2(8 * (n + 1)) == 0x100 * Pow2(8 * n)
    ensures Pow2(8 * (n + 1)) == 2 * Pow2(8 * n + 7)
  {
    Pow2Add(8 * n, 8);
    assert Pow2(8) == 0x100;
    assert Pow2(8 * n + 8) == 2 * Pow2(8 * n + 7);
  }

  lemma {:induction false} BytesValueBound(s: seq<u8>, o: nat, n: nat)
    requires o + n <= |s|
    ensures BytesValue(s, o, n) < Pow2(8 * n)
  {
    if n != 0 {
      BytesValueBound(s, o, n - 1);
      Pow2Byte(n - 1);
    }
  }

  /** The first octet carries the highest weight. */
  lemma {:induction false} BytesValueFront(s: seq<u8>, o: nat, n: nat)
    requires o + n <= |s| && n >= 1
    ensures BytesValue(s, o, n) == s[o] as nat * Pow2(8 * (n - 1)) + BytesValue(s, o + 1, n - 1)
  {
    hide Pow2;
    if n == 1 {
      assert BytesValue(s, o, 0) == 0;
      assert Pow2(0) == 1 by {
        PowZero();
      }
    } else {
      BytesValueFront(s, o, n - 1);
      Pow2Byte(n - 2);
      Scale256(s[o], Pow2(8 * (n - 2)));
    }
  }

  lemma PowZero()
    ensures Pow2(0) == 1
  {}

  lemma Scale256(b: nat, p: nat)
    ensures (b * p) * 0x100 == b * (0x100 * p)
  {}

  lemma {:induction false} BytesValueOfSlice(s: seq<u8>, k: nat, n: nat)
    requires k + n <= |s|
    ensures BytesValue(s[k..], 0, n) == BytesValue(s, k, n)
  {
    if n != 0 {
      BytesValueOfSlice(s, k, n - 1);
    }
  }

  lemma UnsignedIs(s: seq<u8>)
    ensures Unsigned(s) == BytesValue(s, 0, |s|)
  {}

  lemma UnsignedFront(s: seq<u8>)
    requires s != []
    ensures Unsigned(s) == s[0] as nat * Pow2(8 * (|s| - 1)) + Unsigned(s[1..])
    ensures Unsigned(s[1..]) < Pow2(8 * (|s| - 1))
  {
    hide *;
    UnsignedIs(s);
    UnsignedIs(s[1..]);
    BytesValueFront(s, 0, |s|);
    BytesValueOfSlice(s, 1, |s| - 1);
    BytesValueBound(s[1..], 0, |s| - 1);
  }

  /** An n-octet string denotes a number of 8 n - 1 bits and sign. */
  lemma SignedRange(s: seq<u8>)
    requires s != []
    ensures -(Pow2(8 * |s| - 1) as int) <= Signed(s) < Pow2(8 * |s| - 1)
    ensures Negative(s) <==> Signed(s) < 0
    ensures Negative(s) <==> Unsigned(s) >= Pow2(8 * |s| - 1)
  {
    var n := |s| - 1;
    var p, b: nat := Pow2(8 * n), s[0];
    UnsignedFront(s);
    Pow2Byte(n);
    Pow2Add(8 * n, 7);
    assert Pow2(7) == 0x80;
    if b >= 0x80 {
      ScaledAtLeast(b, 0x80, p);
      ScaledAtLeast(0xff, b, p);
    } else {
      ScaledAtLeast(0x7f, b, p);
    }
  }

  lemma DropRedundant(s: seq<u8>)
    requires Redundant(s)
    ensures Signed(s[1..]) == Signed(s)
  {
    UnsignedFront(s);
    Pow2Byte(|s| - 1);
  }

  /** Stripping superfluous octets keeps the value and leaves nothing to strip. */
  lemma {:induction false} StrippedKeepsValue(s: seq<u8>)
    ensures Signed(Stripped(s)) == Signed(s)
    ensures Stripped(Stripped(s)) == Stripped(s)
    ensures s != [] ==> Minimal(Stripped(s))
    decreases |s|
  {
    if Redundant(s) {
      DropRedundant(s);
      StrippedKeepsValue(s[1..]);
    }
  }

  /** A minimal string of n + 1 octets denotes a number that n octets cannot. */
  lemma MinimalIsLarge(s: seq<u8>)
    requires Minimal(s) && |s| > 1
    ensures Signed(s) >= Pow2(8 * (|s| - 1) - 1) || Signed(s) < -(Pow2(8 * (|s| - 1) - 1) as int)
  {
    hide Pow2, BytesValue, Unsigned;
    var t := s[1..];
    var n := |s| - 1;
    UnsignedFront(s);
    SignedRange(t);
    Pow2Byte(n);
    HalfPower(n);
    LeadingOctet(s[0], Unsigned(t), Pow2(8 * n - 1), Negative(t));
  }

  lemma HalfPower(n: nat)
    requires n >= 1
    ensures Pow2(8 * n) == 2 * Pow2(8 * n - 1)
  {}

  /** `b` before a string of value `u`, below 2 h, whose sign is `neg`. */
  lemma LeadingOctet(b: u8, u: nat, h: nat, neg: bool)
    requires h >= 1 && u < 2 * h && (neg <==> u >= h)
    requires (b == 0 ==> neg) && (b == 0xff ==> !neg)
    ensures b < 0x80 ==> b as nat * (2 * h) + u >= h
    ensures b >= 0x80 ==> b as nat * (2 * h) + u - 0x100 * (2 * h) < -(h as int)
  {
    if 1 <= b < 0x80 {
      ScaledAtLeast(b, 1, 2 * h);
    } else if 0x80 <= b < 0xff {
      ScaledAtLeast(0xfe, b, 2 * h);
    }
  }

  lemma {:induction false} SameValueSameBytes(s: seq<u8>, t: seq<u8>, n: nat)
    requires n <= |s| && n <= |t| && BytesValue(s, 0, n) == BytesValue(t, 0, n)
    ensures s[..n] == t[..n]
  {
    if n != 0 {
      SameValueSameBytes(s, t, n - 1);
      assert s[..n] == s[..n - 1] + [s[n - 1]] && t[..n] == t[..n - 1] + [t[n - 1]];
    }
  }

  lemma SameLengthUnique(s: seq<u8>, t: seq<u8>)
    requires |s| == |t| && Signed(s) == Signed(t)
    ensures s == t
  {
    if s != [] {
      SignedRange(s);
      SignedRange(t);
      SameValueSameBytes(s, t, |s|);
      assert s == s[..|s|] && t == t[..|t|];
    }
  }

  /** The minimal string of a value is its unique shortest one. */
  lemma MinimalIsShortest(s: seq<u8>, t: seq<u8>)
    requires Minimal(s) && t != [] && Signed(t) == Signed(s)
    ensures |s| < |t| || s == t
    ensures Minimal(t) ==> s == t
  {
    if |s| > |t| {
      MinimalIsLarge(s);
      SignedRange(t);
      Pow2Monotone(8 * |t| - 1, 8 * (|s| - 1) - 1);
    } else if |s| == |t| {
      SameLengthUnique(s, t);
    } else if Minimal(t) {
      MinimalIsLarge(t);
      SignedRange(s);
      Pow2Monotone(8 * |s| - 1, 8 * (|t| - 1) - 1);
    }
  }

  /** A value of 8 n - 1 bits and sign has a minimal string of at most n octets. */
  lemma MinimalFits(s: seq<u8>, n: nat)
    requires Minimal(s) && n >= 1
    ensures |s| <= n <==> -(Pow2(8 * n - 1) as int) <= Signed(s) < Pow2(8 * n - 1)
  {
    if |s| <= n {
      SignedRange(s);
      Pow2Monotone(8 * |s| - 1, 8 * n - 1);
    } else {
      MinimalIsLarge(s);
      Pow2Monotone(8 * n - 1, 8 * (|s| - 1) - 1);
    }
  }

  lemma {:induction false} UnsignedOfBeBytes(v: nat, n: nat)
    ensures Unsigned(BeBytes(v, n)) == Low(v, 8 * n)
  {
    if n != 0 {
      UnsignedOfBeBytes(v / 0x100, n - 1);
      var s := BeBytes(v, n);
      SamePrefixValue(s, BeBytes(v / 0x100, n - 1), n - 1);
      LowSplit(v, 8, 8 * (n - 1));
      ShrLowIsDivMod(v, 8);
      assert Pow2(8) == 0x100;
      ShlIsProduct(Low(v / 0x100, 8 * (n - 1)), 8);
    }
  }

  lemma {:induction false} SamePrefixValue(s: seq<u8>, t: seq<u8>, n: nat)
    requires n <= |s| && n <= |t| && s[..n] == t[..n]
    ensures BytesValue(s, 0, n) == BytesValue(t, 0, n)
  {
    if n != 0 {
      assert s[n - 1] == s[..n][n - 1] == t[n - 1];
      assert s[..n - 1] == s[..n][..n - 1] && t[..n - 1] == t[..n][..n - 1];
      SamePrefixValue(s, t, n - 1);
    }
  }

  // ----- order

  /** The sign of `memcmp`, all that C promises of it. */
  function Memcmp(a: seq<u8>, b: seq<u8>, n: nat): int
    requires n <= |a| && n <= |b|
    decreases n
  {
    if n == 0 then 0
    else if a[0] != b[0] then (if a[0] < b[0] then -1 else 1)
    else Memcmp(a[1..], b[1..], n - 1)
  }

  /** `INTEGER_compare` on two present, non-empty strings. */
  function Compare(a: seq<u8>, b: seq<u8>): int
    requires a != [] && b != []
  {
    var signA := if a[0] >= 0x80 then -1 else 1;
    var signB := if b[0] >= 0x80 then -1 else 1;
    if signA < signB then -1
    else if signA > signB then 1
    else if |a| < |b| then -1 * signA
    else if |a| > |b| then 1 * signB
    else signA * Memcmp(a, b, |a|)
  }

  function Cmp(x: int, y: int): int {
    if x < y then -1 else if x == y then 0 else 1
  }

  lemma {:induction false} MemcmpIsUnsigned(a: seq<u8>, b: seq<u8>)
    requires |a| == |b|
    ensures Memcmp(a, b, |a|) == Cmp(Unsigned(a), Unsigned(b))
    decreases |a|
  {
    hide Unsigned, Pow2;
    if a == [] {
      assert Unsigned(a) == Unsigned(b);
    } else {
      UnsignedFront(a);
      UnsignedFront(b);
      MemcmpIsUnsigned(a[1..], b[1..]);
      FrontDecides(a[0], Unsigned(a[1..]), b[0], Unsigned(b[1..]), Pow2(8 * (|a| - 1)));
    }
  }

  lemma FrontDecides(x: nat, u: nat, y: nat, v: nat, p: nat)
    requires u < p && v < p
    ensures Cmp(x * p + u, y * p + v) == if x != y then Cmp(x, y) else Cmp(u, v)
  {
    if x < y {
      ScaledAtLeast(y, x + 1, p);
    } else if y < x {
      ScaledAtLeast(x, y + 1, p);
    }
  }

  /** The sign and magnitude reading of the octets. */
  function Key(s: seq<u8>): int {
    if Negative(s) then -(Unsigned(s) as int) else Unsigned(s)
  }

  /** On minimal strings the comparison orders by `Key`: it is a total order. */
  lemma CompareIsKeyOrder(a: seq<u8>, b: seq<u8>)
    requires Minimal(a) && Minimal(b)
    ensures Compare(a, b) == Cmp(Key(a), Key(b))
  {
    SignedRange(a);
    SignedRange(b);
    if |a| == |b| {
      MemcmpIsUnsigned(a, b);
    } else if Negative(a) == Negative(b) {
      if |a| < |b| {
        LongerIsLarger(a, b);
      } else {
        LongerIsLarger(b, a);
      }
    }
  }

  lemma LongerIsLarger(a: seq<u8>, b: seq<u8>)
    requires Minimal(a) && Minimal(b) && |a| < |b| && (Negative(a) <==> Negative(b))
    ensures Unsigned(a) < Unsigned(b)
  {
    hide Pow2, BytesValue;
    SignedRange(a);
    SignedRange(b);
    MinimalIsLarge(b);
    BytesValueBound(a, 0, |a|);
    Pow2Monotone(8 * |a|, 8 * |b| - 1);
    Pow2Monotone(8 * |a| - 1, 8 * (|b| - 1) - 1);
  }

  /** It is 0 on equal values only, antisymmetric and transitive. */
  lemma CompareIsTotalOrder(a: seq<u8>, b: seq<u8>, c: seq<u8>)
    requires Minimal(a) && Minimal(b) && Minimal(c)
    ensures Compare(a, b) == 0 <==> Signed(a) == Signed(b)
    ensures Compare(a, b) == -Compare(b, a)
    ensures Compare(a, b) < 0 && Compare(b, c) < 0 ==> Compare(a, c) < 0
  {
    hide Compare, Signed, Unsigned;
    CompareIsKeyOrder(a, b);
    CompareIsKeyOrder(b, a);
    CompareIsKeyOrder(b, c);
    CompareIsKeyOrder(a, c);
    if Signed(a) == Signed(b) {
      MinimalIsShortest(a, b);
    }
    if Key(a) == Key(b) {
      SameKey(a, b);
    }
  }

  lemma SameKey(a: seq<u8>, b: seq<u8>)
    requires Minimal(a) && Minimal(b) && Key(a) == Key(b)
    ensures a == b
  {
    SignedRange(a);
    SignedRange(b);
    if |a| < |b| && Negative(a) == Negative(b) {
      LongerIsLarger(a, b);
    } else if |b| < |a| && Negative(a) == Negative(b) {
      LongerIsLarger(b, a);
    } else {
      SameValueSameBytes(a, b, |a|);
      assert a == a[..|a|] && b == b[..|b|];
    }
  }

  /** Numeric order, except between two different negatives of one length, where the sign
      factor on the byte comparison turns it around. */
  lemma CompareIsNumericUnless(a: seq<u8>, b: seq<u8>)
    requires Minimal(a) && Minimal(b)
    ensures Compare(a, b) == Cmp(Signed(a), Signed(b))
       <==> !(Signed(a) < 0 && Signed(b) < 0 && |a| == |b| && a != b)
    ensures Signed(a) < 0 && Signed(b) < 0 && |a| == |b| ==> Compare(a, b) == -Cmp(Signed(a), Signed(b))
  {
    hide Compare, Unsigned, Pow2;
    CompareIsKeyOrder(a, b);
    SignedRange(a);
    SignedRange(b);
    if |a| != |b| && Negative(a) && Negative(b) {
      NegativesByLength(a, b);
    }
    if |a| == |b| && Signed(a) == Signed(b) {
      SameLengthUnique(a, b);
    }
    if a != b && Key(a) == Key(b) {
      SameKey(a, b);
    }
  }

  lemma NegativesByLength(a: seq<u8>, b: seq<u8>)
    requires Minimal(a) && Minimal(b) && Negative(a) && Negative(b) && |a| != |b|
    ensures Cmp(Key(a), Key(b)) == Cmp(Signed(a), Signed(b))
  {
    hide Unsigned, Pow2;
    SignedRange(a);
    SignedRange(b);
    if |a| < |b| {
      LongerIsLarger(a, b);
      MinimalIsLarge(b);
      Pow2Monotone(8 * |a| - 1, 8 * (|b| - 1) - 1);
    } else {
      LongerIsLarger(b, a);
      MinimalIsLarge(a);
      Pow2Monotone(8 * |b| - 1, 8 * (|a| - 1) - 1);
    }
  }

  /** -2 compares above -1. */
  lemma NegativesAreReversed()
    ensures Signed([0xfe]) == -2 && Signed([0xff]) == -1 && Compare([0xfe], [0xff]) == 1
  {
    assert Pow2(8) == 0x100;
    assert BytesValue([0xfe], 0, 1) == BytesValue([0xfe], 0, 0) * 0x100 + 0xfe;
    assert BytesValue([0xff], 0, 1) == BytesValue([0xff], 0, 0) * 0x100 + 0xff;
  }

  /** On the bits: the first one counts negative, the others as in binary. */
  lemma SignedIsTwosComplement(s: seq<u8>)
    requires s != []
    ensures var b := Bits(s);
      && Unsigned(s) == FromBits(b)
      && Signed(s) == FromBits(b[1..]) - (if b[0] then Pow2(8 * |s| - 1) else 0)
  {
    hide Bits, FromBits, Pow2, BytesValue, Shl;
    var b := Bits(s);
    var k := 8 * |s| - 1;
    UnsignedIsBits(s);
    SignedRange(s);
    FromBitsConcat([b[0]], b[1..]);
    assert [b[0]] + b[1..] == b;
    ShlIsProduct(FromBits([b[0]]), k);
    FromOneBit([b[0]]);
    FromBitsBound(b[1..]);
    Pow2Byte(|s| - 1);
  }

  lemma UnsignedIsBits(s: seq<u8>)
    ensures |Bits(s)| == 8 * |s| && Unsigned(s) == FromBits(Bits(s))
  {
    hide FromBits, BytesValue;
    BytesValueIsBits(s, 0, |s|);
    assert Bits(s)[8 * 0..8 * (0 + |s|)] == Bits(s);
  }
}
