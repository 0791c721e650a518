/** Aligned PER of INTEGERs: constrained ones and the general form (section 13.2 of X.691). */
module Aper {
  import opened Words
  import opened BitWords
  import opened Wrappers
  import opened TwosComplement
  import opened Integer
  import opened BitStream
  import opened Packing
  import opened PerLength

  /** The value constraint of a type. */
  datatype Constraint = Constraint(
    constrained: bool, semiConstrained: bool, extensible: bool, rangeBits: int, lowerBound: i64, upperBound: i64)

  // ----- the encoding

  /** Octets needed for the range, rounded up. */
  function MaxRangeBytes(rangeBits: nat): nat {
    rangeBits / 8 + (if rangeBits % 8 > 0 then 1 else 0)
  }

  /** The width of the length field: the least i >= 1 with 2^i octets enough. */
  function LengthBits(rangeBits: nat): nat {
    LengthBitsFrom(MaxRangeBytes(rangeBits), 1)
  }

  lemma LengthBitsIsLeast(rangeBits: nat)
    ensures var i := LengthBits(rangeBits);
      && i >= 1 && Pow2(i) >= MaxRangeBytes(rangeBits)
      && forall k :: 1 <= k < i ==> Pow2(k) < MaxRangeBytes(rangeBits)
  {}

  function LengthBitsFrom(n: nat, i: nat): (r: nat)
    ensures r >= i && Pow2(r) >= n
    ensures forall k :: i <= k < r ==> Pow2(k) < n
    decreases n - Pow2(i)
  {
    if Pow2(i) >= n then i else LengthBitsFrom(n, i + 1)
  }

  /** The number of the highest octet of `v`, at most `j`, that is not zero, or 0. */
  function TopOctet(v: nat, j: nat): (t: nat)
    ensures t <= j
  {
    if j == 0 || Shr(v, 8 * j) != 0 then j else TopOctet(v, j - 1)
  }

  /** The bits that encode the offset `v` at bit position `at`. */
  function OffsetBits(rangeBits: nat, v: nat, at: nat): seq<bool> {
    if rangeBits < 8 then ToBits(v, rangeBits)
    else if rangeBits == 8 then Padding(at) + ToBits(v, 8)
    else if rangeBits <= 16 then Padding(at) + ToBits(v, 16)
    else
      var j, i := TopOctet(v, 7), LengthBits(rangeBits);
      ToBits(j, i) + Padding(at + i) + ToBits(v, 8 * (j + 1))
  }

  // ----- the decoding

  /** The value of the bits from `i` up to `j`. */
  function ValueBetween(data: seq<bool>, i: nat, j: nat): nat
    requires i <= j <= |data|
  {
    FromBits(data[i..j])
  }

  /** The offset read at position `pos` and the position after it. */
  function ReadOffset(rangeBits: nat, data: seq<bool>, pos: nat): Option<(nat, nat)> {
    if rangeBits <= 16 then
      var p := if rangeBits < 8 then pos else pos + |Padding(pos)|;
      var n := if rangeBits <= 8 then rangeBits else 16;
      ReadBits(n, data, p)
    else
      var i := LengthBits(rangeBits);
      if i > 31 then None else ReadCounted(i, data, pos)
  }

  /** The value of `n` bits. */
  function ReadBits(n: nat, data: seq<bool>, pos: nat): Option<(nat, nat)> {
    if pos + n <= |data| then Some((ValueBetween(data, pos, pos + n), pos + n)) else None
  }

  /** An octet count less one in `i` bits, and that many octets. */
  function ReadCounted(i: nat, data: seq<bool>, pos: nat): Option<(nat, nat)> {
    if pos + i > |data| then None else ReadAligned(ValueBetween(data, pos, pos + i) + 1, data, pos + i)
  }

  /** The value of `length` octets behind zeros up to the next octet boundary. */
  function ReadAligned(length: nat, data: seq<bool>, pos: nat): Option<(nat, nat)> {
    var p := pos + |Padding(pos)|;
    if p + 8 * length > |data| || ValueBetween(data, pos, p) != 0 then None
    else Some((ValueBetween(data, p, p + 8 * length), p + 8 * length))
  }

  // ----- the two agree

  lemma {:induction false} TopOctetFits(v: nat, j: nat)
    requires v < Pow2(8 * (j + 1))
    ensures v < Pow2(8 * (TopOctet(v, j) + 1))
    ensures TopOctet(v, j) > 0 ==> v >= Pow2(8 * TopOctet(v, j))
  {
    if j != 0 {
      Split(v, 8 * j);
      if Shr(v, 8 * j) == 0 {
        TopOctetFits(v, j - 1);
      } else {
        ScaledAtLeast(Shr(v, 8 * j), 1, Pow2(8 * j));
      }
    }
  }

  /** The octet count less one always fits the length field. */
  lemma LengthFits(rangeBits: nat, v: nat)
    requires 16 < rangeBits <= 64 && v < Pow2(rangeBits)
    ensures TopOctet(v, 7) + 1 <= MaxRangeBytes(rangeBits) <= Pow2(LengthBits(rangeBits))
    ensures LengthBits(rangeBits) <= 3
    ensures v < Pow2(8 * (TopOctet(v, 7) + 1))
  {
    hide Pow2;
    LengthBitsIsLeast(rangeBits);
    var j, m := TopOctet(v, 7), MaxRangeBytes(rangeBits);
    Pow2Monotone(rangeBits, 64);
    TopOctetFits(v, 7);
    if j + 1 > m {
      Pow2Monotone(rangeBits, 8 * j);
    }
    assert Pow2(3) == 8 by {
      EightOctets();
    }
  }

  lemma EightOctets()
    ensures Pow2(3) == 8
  {}

  /** How many bits of an offset the form for a range holds. */
  function Capacity(rangeBits: nat): nat {
    if rangeBits <= 8 then rangeBits else if rangeBits <= 16 then 16 else 8 * Pow2(LengthBits(rangeBits))
  }

  /** Reading back, from the same alignment, what was written gives the offset and stops
      exactly after it. */
  lemma OffsetRoundTrip(rangeBits: nat, v: u64, before: seq<bool>, after: seq<bool>)
    requires rangeBits <= 64 && v < Pow2(Capacity(rangeBits))
    ensures var code := OffsetBits(rangeBits, v, |before|);
      ReadOffset(rangeBits, before + code + after, |before|) == Some((v, |before| + |code|))
  {
    hide Pow2, ToBits, FromBits, LengthBits, TopOctet;
    var pos := |before|;
    var code := OffsetBits(rangeBits, v, pos);
    var data := before + code + after;
    if rangeBits <= 16 {
      var n := if rangeBits <= 8 then rangeBits else 16;
      var p := if rangeBits < 8 then pos else pos + |Padding(pos)|;
      assert data[p..p + n] == ToBits(v, n);
      FromToBits(v, n);
      LowSmall(v, n);
    } else {
      LongFits(rangeBits, v);
      LongRoundTrip(rangeBits, v, before, after);
    }
  }

  lemma LongFits(rangeBits: nat, v: u64)
    requires 16 < rangeBits <= 64 && v < Pow2(Capacity(rangeBits))
    ensures TopOctet(v, 7) < Pow2(LengthBits(rangeBits)) && LengthBits(rangeBits) <= 3
    ensures v < Pow2(8 * (TopOctet(v, 7) + 1))
  {
    hide Pow2, LengthBits, TopOctet;
    WidthFacts();
    LengthFits(rangeBits, 0);
    var j, c: nat := TopOctet(v, 7), Capacity(rangeBits);
    TopOctetFits(v, 7);
    if j >= Pow2(LengthBits(rangeBits)) {
      Pow2Monotone(c, 8 * j);
    }
  }

  /** No offset beyond that is ever read. */
  lemma CapacityIsExact(rangeBits: nat, data: seq<bool>, pos: nat)
    ensures var r := ReadOffset(rangeBits, data, pos); r.Some? ==> r.value.0 < Pow2(Capacity(rangeBits))
  {
    hide Pow2, FromBits, LengthBits;
    var r := ReadOffset(rangeBits, data, pos);
    if r.Some? && rangeBits <= 16 {
      var n := if rangeBits <= 8 then rangeBits else 16;
      FromBitsBound(data[r.value.1 - n..r.value.1]);
    } else if r.Some? {
      var i := LengthBits(rangeBits);
      FromBitsBound(data[pos..pos + i]);
      var length := ValueBetween(data, pos, pos + i) + 1;
      FromBitsBound(data[r.value.1 - 8 * length..r.value.1]);
      Pow2Monotone(8 * length, 8 * Pow2(i));
    }
  }

  lemma LongRoundTrip(rangeBits: nat, v: nat, before: seq<bool>, after: seq<bool>)
    requires 16 < rangeBits <= 64
    requires TopOctet(v, 7) < Pow2(LengthBits(rangeBits)) && LengthBits(rangeBits) <= 3
    requires v < Pow2(8 * (TopOctet(v, 7) + 1))
    ensures var code := OffsetBits(rangeBits, v, |before|);
      ReadOffset(rangeBits, before + code + after, |before|) == Some((v, |before| + |code|))
  {
    hide Pow2, ToBits, FromBits, LengthBits, TopOctet, Padding, ReadCounted;
    var j, i := TopOctet(v, 7), LengthBits(rangeBits);
    CountedRoundTrip(j, i, v, before, after);
    ConcatAssoc(ToBits(j, i), Padding(|before| + i), ToBits(v, 8 * (j + 1)), []);
  }

  lemma CountedRoundTrip(j: nat, i: nat, v: nat, before: seq<bool>, after: seq<bool>)
    requires j < Pow2(i) && v < Pow2(8 * (j + 1))
    ensures var code := ToBits(j, i) + (Padding(|before| + i) + ToBits(v, 8 * (j + 1)));
      ReadCounted(i, before + code + after, |before|) == Some((v, |before| + |code|))
  {
    hide Pow2, ToBits, FromBits, Padding, ReadAligned;
    var a, b := ToBits(j, i), Padding(|before| + i) + ToBits(v, 8 * (j + 1));
    var data := before + (a + b) + after;
    assert data[|before|..|before| + i] == a;
    FromToBits(j, i);
    LowSmall(j, i);
    assert data == (before + a) + b + after;
    AlignedRoundTrip(v, j + 1, before + a, after);
  }

  lemma AlignedRoundTrip(v: nat, length: nat, before: seq<bool>, after: seq<bool>)
    requires v < Pow2(8 * length)
    ensures var code := Padding(|before|) + ToBits(v, 8 * length);
      ReadAligned(length, before + code + after, |before|) == Some((v, |before| + |code|))
  {
    hide Pow2, ToBits, FromBits;
    var b, c := Padding(|before|), ToBits(v, 8 * length);
    var data := before + (b + c) + after;
    var p := |before| + |b|;
    assert data[|before|..p] == b;
    assert data[p..p + 8 * length] == c;
    FromBitsZeros(|b|);
    FromToBits(v, 8 * length);
    LowSmall(v, 8 * length);
  }

  // ----- the form of section 11.5.7 of X.691

  /** The least number of octets, at least one, for the number `v`. */
  function OctetCount(v: nat): (n: nat)
    ensures n >= 1
  {
    if v < 0x100 then 1 else OctetCount(v / 0x100) + 1
  }

  /** The offset `v` in a range, at bit position `at`: a bit field, one octet, two octets, or
      as few octets as it needs behind their number, itself in a range. */
  function StandardBits(range: nat, v: nat, at: nat): seq<bool> {
    if range <= 255 then ToBits(v, Width(range))
    else if range == 256 then Padding(at) + ToBits(v, 8)
    else if range <= 0x1_0000 then Padding(at) + ToBits(v, 16)
    else
      var n, i := OctetCount(v), Width(OctetCount(range - 1));
      ToBits(n - 1, i) + Padding(at + i) + ToBits(v, 8 * n)
  }

  lemma {:induction false} OctetCountBounds(v: nat)
    ensures v < Pow2(8 * OctetCount(v)) && (OctetCount(v) > 1 ==> v >= Pow2(8 * (OctetCount(v) - 1)))
  {
    OctetPowers();
    if v >= 0x100 {
      var n := OctetCount(v / 0x100);
      OctetCountBounds(v / 0x100);
      Pow2Add(8 * n, 8);
      Pow2Add(8 * (n - 1), 8);
    }
  }

  /** Counts of octets with the same bounds agree. */
  lemma SameCount(v: nat, n: nat, k: nat)
    requires n >= 1 && k >= 1 && v < Pow2(8 * n) && v < Pow2(8 * k)
    requires (n > 1 ==> v >= Pow2(8 * (n - 1))) && (k > 1 ==> v >= Pow2(8 * (k - 1)))
    ensures n == k
  {
    hide Pow2;
    var a: nat, b: nat, c: nat, d: nat := 8 * n, 8 * k, 8 * (n - 1), 8 * (k - 1);
    if n < k {
      Pow2Monotone(a, d);
    } else if k < n {
      Pow2Monotone(b, c);
    }
  }

  lemma WidthClasses(range: nat)
    requires 1 <= range <= TWO_64
    ensures Width(range) < 8 <==> range <= 128
    ensures Width(range) <= 8 <==> range <= 256
    ensures Width(range) <= 16 <==> range <= 0x1_0000
    ensures Width(range) <= 64
  {
    hide Pow2;
    WidthFacts();
    var k := Width(range);
    assert Pow2(7) == 128 && Pow2(16) == 0x1_0000 by {
      SmallPowers();
    }
    forall j: nat | j == 7 || j == 8 || j == 16 || j == 64 ensures k <= j <==> range <= Pow2(j) {
      if k <= j {
        Pow2Monotone(k, j);
      }
    }
  }

  lemma SmallPowers()
    ensures Pow2(7) == 128 && Pow2(16) == 0x1_0000
  {}

  /** The length field and the number of octets are those of the standard. */
  lemma LongFormIsStandard(range: nat, v: nat)
    requires 0x1_0000 < range <= TWO_64 && v < range
    ensures LengthBits(Width(range)) == Width(OctetCount(range - 1))
    ensures TopOctet(v, 7) + 1 == OctetCount(v)
  {
    hide Pow2, TopOctet, LengthBits, OctetCount, Width;
    var k, m := Width(range), range - 1;
    WidthClasses(range);
    WidthFacts();
    TopOctetFits(v, 7);
    OctetCountBounds(v);
    SameCount(v, TopOctet(v, 7) + 1, OctetCount(v));
    CountOfWidth(range);
    var n := OctetCount(m);
    LengthBitsIsLeast(k);
    assert n >= 3 && Pow2(0) == 1 && Pow2(1) == 2 by {
      TinyPowers();
    }
    var i, j := LengthBits(k), Width(n);
    assert !(i < j) && !(j < i);
  }

  lemma TinyPowers()
    ensures Pow2(0) == 1 && Pow2(1) == 2
  {}

  /** The octets of a range, counted in octets or in bits. */
  lemma CountOfWidth(range: nat)
    requires 0x1_0000 < range <= TWO_64
    ensures OctetCount(range - 1) == MaxRangeBytes(Width(range)) >= 3
  {
    hide Pow2, OctetCount, Width;
    var k, m := Width(range), range - 1;
    WidthClasses(range);
    OctetCountBounds(m);
    var n := MaxRangeBytes(k);
    Pow2Monotone(k, 8 * n);
    assert Pow2(8 * (n - 1)) < range;
    SameCount(m, OctetCount(m), n);
  }

  /** The code writes the form of the standard, for every range and every offset in it, except
      that it aligns the bit field of 129 to 255 values. */
  lemma FormIsStandardUnless(range: nat, v: nat, at: nat)
    requires 1 <= range <= TWO_64 && v < range
    ensures OffsetBits(Width(range), v, at) == StandardBits(range, v, at)
       <==> !(128 < range <= 255) || at % 8 == 0
  {
    hide Pow2, ToBits, TopOctet, LengthBits, OctetCount, Width;
    WidthClasses(range);
    if range > 0x1_0000 {
      LongFormIsStandard(range, v);
    } else if 128 < range <= 255 {
      assert |OffsetBits(Width(range), v, at)| == |Padding(at)| + 8;
      if at % 8 == 0 {
        assert Padding(at) == [];
        assert [] + ToBits(v, 8) == ToBits(v, 8);
      }
    }
  }

  /** 181 values, as in two shipped types, behind one bit: eight bits by the standard, fifteen
      by the code. */
  lemma AlignedBitField(v: nat)
    requires v < 181
    ensures |StandardBits(181, v, 1)| == 8 && |OffsetBits(Width(181), v, 1)| == 15
  {
    hide ToBits, Width;
    WidthClasses(181);
  }

  // ----- whole values

  /** A bound as the comparisons of the code see it. */
  function Bound(isUnsigned: bool, b: i64): int {
    if isUnsigned then ToU64(b) else b
  }

  predicate InRange(isUnsigned: bool, c: Constraint, v: int) {
    if c.semiConstrained then Bound(isUnsigned, c.lowerBound) <= v
    else c.rangeBits >= 0 ==> Bound(isUnsigned, c.lowerBound) <= v <= Bound(isUnsigned, c.upperBound)
  }

  /** The offset from the lower bound, on 64 bits. */
  function Offset(c: Constraint, v: int): u64 {
    (v - c.lowerBound) % TWO_64
  }

  predicate Flagged(c: Constraint) {
    c.constrained || c.semiConstrained || c.extensible
  }

  /** The extension bit, if the type has one. */
  function Extension(isUnsigned: bool, c: Constraint, v: int): seq<bool> {
    if c.extensible then [!InRange(isUnsigned, c, v)] else []
  }

  /** The encoder takes the constrained form. */
  predicate Constrained(isUnsigned: bool, ct: Option<Constraint>, s: seq<u8>) {
    ct.Some? && ct.value.rangeBits >= 0 && InRange(isUnsigned, ct.value, Number(isUnsigned, s))
  }

  /** A buffer the encoder accepts. */
  predicate Encodable(isUnsigned: bool, ct: Option<Constraint>, s: seq<u8>) {
    s != [] &&
    match ct
    case None => true
    case Some(c) =>
      var v := Number(isUnsigned, s);
      && Fits(isUnsigned, v)
      && (if InRange(isUnsigned, c, v) then c.rangeBits >= 0 || c.lowerBound == 0 else c.extensible)
  }

  /** The general form of an octet string at bit position `at`: every piece is aligned, and
      nothing marks the end of a string of whole fragments. */
  function GeneralOctets(s: seq<u8>, at: nat): seq<bool>
    decreases |s|
  {
    if s == [] then []
    else
      var head, k := Padding(at) + LengthPrefix(|s|), Fragment(|s|);
      head + Bits(s[..k]) + GeneralOctets(s[k..], at + |head| + 8 * k)
  }

  /** The bits that encode a buffer at position `at`. */
  function EncodedBits(isUnsigned: bool, ct: Option<Constraint>, s: seq<u8>, at: nat): seq<bool> {
    var ext := if ct.None? then [] else Extension(isUnsigned, ct.value, Number(isUnsigned, s));
    ext + (if Constrained(isUnsigned, ct, s)
           then OffsetBits(ct.value.rangeBits, Offset(ct.value, Number(isUnsigned, s)), at + |ext|)
           else GeneralOctets(s, at + |ext|))
  }

  /** `INTEGER_encode_aper`. */
  method EncodeAper(isUnsigned: bool, ct: Option<Constraint>, st: INTEGER, po: BitOut) returns (ok: bool)
    requires st.Valid() && po.Valid() && st.buf != po.tmpspace && (ct.Some? ==> ct.value.rangeBits <= 64)
    modifies po, po.tmpspace
    ensures po.Valid()
    ensures ok <==> Encodable(isUnsigned, ct, st.Contents())
    ensures ok ==> po.bits == old(po.bits) + EncodedBits(isUnsigned, ct, st.Contents(), |old(po.bits)|)
  {
    hide po.Valid, OffsetBits, GeneralOctets, Signed, Unsigned, ToBits, Bits;
    if st.buf == null || st.size == 0 {
      return false;
    }
    ghost var s, start := st.Contents(), po.bits;
    var constrained, value := false, 0;
    ghost var ext: seq<bool> := [];
    if ct.Some? {
      ghost var v := Number(isUnsigned, s);
      ok, constrained, value := PutExtension(isUnsigned, ct.value, st, po);
      if !ok {
        return;
      }
      ext := Extension(isUnsigned, ct.value, v);
    }
    if constrained {
      var c := ct.value;
      PutOffset(c.rangeBits, Offset(c, value), po);
      ConcatAssoc(start, ext, OffsetBits(c.rangeBits, Offset(c, value), |start + ext|), []);
      return true;
    }
    PutGeneral(st, po);
    ConcatAssoc(start, ext, GeneralOctets(s, |start + ext|), []);
    ok := true;
  }

  /** The value, its range check and the extension bit. */
  method PutExtension(isUnsigned: bool, c: Constraint, st: INTEGER, po: BitOut)
    returns (ok: bool, constrained: bool, value: int)
    requires st.Valid() && po.Valid() && st.buf != null && st.size > 0 && st.buf != po.tmpspace
    modifies po, po.tmpspace
    ensures po.Valid()
    ensures ok <==> Encodable(isUnsigned, Some(c), st.Contents())
    ensures ok ==> constrained == Constrained(isUnsigned, Some(c), st.Contents())
    ensures ok ==> value == Number(isUnsigned, st.Contents())
    ensures ok ==> po.bits == old(po.bits) + Extension(isUnsigned, c, value)
  {
    hide po.Valid, Signed, Unsigned, ToBits, Bits;
    constrained, value := false, 0;
    var conversion: Conversion;
    if isUnsigned {
      conversion := st.ToUmax();
    } else {
      conversion := st.ToImax();
    }
    UnsignedIsNatural(st.Contents());
    if !conversion.Value? {
      return false, false, 0;
    }
    value := conversion.value;
    var inext := false;
    if c.semiConstrained {
      if value < Bound(isUnsigned, c.lowerBound) {
        inext := true;
      }
    } else if c.rangeBits >= 0 {
      if value < Bound(isUnsigned, c.lowerBound) || value > Bound(isUnsigned, c.upperBound) {
        inext := true;
      }
    }
    if c.extensible {
      ToOneBit(if inext then 1 else 0);
      var _ := po.PutFewBits(if inext then 1 else 0, 1);
      if inext {
        return true, false, value;
      }
    } else if inext {
      return false, false, value;
    }
    if c.rangeBits < 0 {
      // the lower bound would have to be subtracted
      return c.lowerBound == 0, false, value;
    }
    return true, true, value;
  }

  /** The loop that writes the octets as they are. */
  method PutGeneral(st: INTEGER, po: BitOut)
    requires st.Valid() && po.Valid() && st.buf != null && st.buf != po.tmpspace
    modifies po, po.tmpspace
    ensures po.Valid()
    ensures po.bits == old(po.bits) + GeneralOctets(st.Contents(), |old(po.bits)|)
  {
    hide po.Valid, GeneralOctets, LengthPrefix, Bits, Fragment, Padding;
    ghost var s, start := st.Contents(), po.bits;
    ghost var whole := start + GeneralOctets(s, |start|);
    var buf, end := 0, st.size;
    assert s[0..] == s;
    while buf < end
      invariant po.Valid() && 0 <= buf <= end && st.buf[..end] == s
      invariant whole == po.bits + GeneralOctets(s[buf..], |po.bits|)
    {
      ghost var was, rest := po.bits, s[buf..];
      var mayEncode := AperPutLength(po, end - buf);
      assert st.buf[..end] == s;
      var octets := st.buf[buf..buf + mayEncode];
      assert octets == s[buf..buf + mayEncode] == rest[..mayEncode];
      po.PutManyBits(octets, 8 * mayEncode);
      GeneralUnfolds(rest, |was|);
      ConcatAssoc(was, Padding(|was|), LengthPrefix(|rest|), Bits(octets));
      ghost var piece := Padding(|was|) + LengthPrefix(|rest|) + Bits(octets);
      assert po.bits == was + piece;
      ConcatAssoc(was, piece, GeneralOctets(rest[mayEncode..], |was + piece|), []);
      assert rest[mayEncode..] == s[buf + mayEncode..];
      buf := buf + mayEncode;
    }
    assert s[buf..] == [];
    NothingGeneral(|po.bits|);
  }

  lemma GeneralUnfolds(s: seq<u8>, at: nat)
    requires s != []
    ensures var k := Fragment(|s|);
      var piece := Padding(at) + LengthPrefix(|s|) + Bits(s[..k]);
      k > 0 && GeneralOctets(s, at) == piece + GeneralOctets(s[k..], at + |piece|)
  {
    hide LengthPrefix, Bits, Padding;
  }

  lemma NothingGeneral(at: nat)
    ensures GeneralOctets([], at) == []
  {}

  method PutOffset(rangeBits: nat, v: u64, po: BitOut)
    requires po.Valid() && rangeBits <= 64
    modifies po, po.tmpspace
    ensures po.Valid()
    ensures po.bits == old(po.bits) + OffsetBits(rangeBits, v, |old(po.bits)|)
  {
    hide po.Valid, ToBits, LengthBits, LengthBitsFrom, TopOctet;
    ghost var start := po.bits;
    if rangeBits < 8 {
      var _ := po.PutFewBits(v, rangeBits);
    } else if rangeBits == 8 {
      po.PutAlign();
      var _ := po.PutFewBits(v, rangeBits);
      ConcatAssoc(start, Padding(|start|), ToBits(v, 8), []);
    } else if rangeBits <= 16 {
      po.PutAlign();
      var _ := po.PutFewBits(v, 16);
      ConcatAssoc(start, Padding(|start|), ToBits(v, 16), []);
    } else {
      var i := FieldWidth(rangeBits);
      var j := HighestOctet(v);
      WidthIsSmall(rangeBits);
      var _ := po.PutFewBits(j, i);
      po.PutAlign();
      ghost var head := po.bits;
      PutOctets(v, j, po);
      ConcatAssoc(start, ToBits(j, i), Padding(|start| + i), ToBits(v, 8 * (j + 1)));
    }
  }

  lemma WidthIsSmall(rangeBits: nat)
    requires rangeBits <= 64
    ensures LengthBits(rangeBits) <= 3
  {
    EightOctets();
  }

  method FieldWidth(rangeBits: nat) returns (i: nat)
    ensures i == LengthBits(rangeBits)
  {
    var maxRangeBytes := rangeBits / 8 + (if rangeBits % 8 > 0 then 1 else 0);
    i := 1;
    while true
      invariant LengthBitsFrom(maxRangeBytes, i) == LengthBits(rangeBits)
      decreases maxRangeBytes - Pow2(i)
    {
      var upper := Pow2(i);
      if upper >= maxRangeBytes {
        break;
      }
      i := i + 1;
    }
  }

  /** Arithmetic right shift of a signed word. */
  function ShiftRight(v: i64, k: nat): int {
    v / Pow2(k)
  }

  method HighestOctet(v: u64) returns (j: nat)
    ensures j == TopOctet(v, 7)
  {
    hide Pow2, Shr;
    var v64 := ToI64(v);
    j := 7;
    while j != 0
      invariant j <= 7 && TopOctet(v, j) == TopOctet(v, 7)
    {
      SignedShift(v, j);
      var val := ShiftRight(v64, j * 8);
      if val != 0 {
        break;
      }
      j := j - 1;
    }
  }

  /** The signed shift differs from the unsigned one by a multiple of 2^(64 - 8 j). */
  lemma SignedShift(v: u64, j: nat)
    requires j <= 7
    ensures ShiftRight(ToI64(v), 8 * j) == 0 <==> Shr(v, 8 * j) == 0
    ensures ShiftRight(ToI64(v), 8 * j) % 0x100 == Shr(v, 8 * j) % 0x100
  {
    hide Shr, Pow2, Low;
    ShrLowIsDivMod(v, 8 * j);
    if v > INT64_MAX {
      OctetPower(j);
      NegativeShift(v, Pow2(8 * j), Pow2(56 - 8 * j));
    }
  }

  lemma OctetPower(j: nat)
    requires j <= 7
    ensures Pow2(8 * j) * (0x100 * Pow2(56 - 8 * j)) == TWO_64
  {
    var p, r := Pow2(8 * j), Pow2(56 - 8 * j);
    WidthFacts();
    assert Pow2(64) == p * r * Pow2(8) by {
      hide Pow2;
      Pow2Add(8 * j, 56 - 8 * j);
      Pow2Add(56, 8);
    }
    Reassociate(p, r);
  }

  lemma Reassociate(p: nat, r: nat)
    ensures p * r * 0x100 == p * (0x100 * r)
  {}

  lemma NegativeShift(v: u64, p: nat, r: nat)
    requires v > INT64_MAX && p >= 1 && p * (0x100 * r) == TWO_64
    ensures (v - TWO_64) / p != 0 && v / p != 0
    ensures (v - TWO_64) / p % 0x100 == v / p % 0x100
  {
    var q, a, b := 0x100 * r, v / p, v % p;
    assert v == a * p + b && b < p;
    assert v - TWO_64 == (a - q) * p + b by {
      assert (a - q) * p == a * p - q * p;
    }
    DivModUnique(v - TWO_64, p, a - q, b);
    LargeQuotient(v, a, b, p, r);
    SameOctet(a, r);
  }

  lemma SameOctet(a: int, r: int)
    ensures (a - 0x100 * r) % 0x100 == a % 0x100
  {}

  /** With the sign bit set, no quotient by p vanishes or reaches 2^64 / p. */
  lemma LargeQuotient(v: u64, a: nat, b: nat, p: nat, r: nat)
    requires v > INT64_MAX && v == a * p + b && b < p && p * (0x100 * r) == TWO_64
    ensures 0 < a < 0x100 * r
  {
    ProductsKeepOrder(a, 0x100 * r, p);
    HalfRange(p, r);
    ProductsKeepOrder(0, 0x80 * r, p);
    ProductsKeepOrder(a, 0, p);
    ProductsKeepOrder(1, 0x80 * r, p);
  }

  lemma HalfRange(p: nat, r: nat)
    requires p * (0x100 * r) == TWO_64
    ensures 0x80 * r * p == 0x8000_0000_0000_0000 && 0x100 * r * p == TWO_64 && r > 0
  {
    assert p * (0x100 * r) == 0x100 * (p * r);
  }

  lemma ProductsKeepOrder(a: nat, b: nat, p: nat)
    ensures a <= b ==> a * p <= b * p
    ensures a >= b ==> a * p >= b * p
  {}

  method PutOctets(v: u64, j: nat, po: BitOut)
    requires po.Valid() && j <= 7
    modifies po, po.tmpspace
    ensures po.Valid()
    ensures po.bits == old(po.bits) + ToBits(v, 8 * (j + 1))
  {
    hide po.Valid, ToBits, Shr, ShiftRight;
    ghost var start := po.bits;
    var v64 := ToI64(v);
    NoBitsAtAll(Shr(v, 8 * (j + 1)));
    assert start + [] == start;
    for i := 0 to j + 1
      invariant po.Valid() && po.bits == start + ToBits(Shr(v, 8 * (j + 1 - i)), 8 * i)
    {
      ghost var w := Shr(v, 8 * (j - i));
      SignedShift(v, j - i);
      ShrAdd(v, 8 * (j - i), 8);
      ToBitsSplit(w, 8 * i, 8);
      OctetBits(w, ShiftRight(v64, 8 * (j - i)) % 0x100);
      var _ := po.PutFewBits(ShiftRight(v64, 8 * (j - i)) % 0x100, 8);
      assert start + ToBits(Shr(w, 8), 8 * i) + ToBits(w, 8) == start + (ToBits(Shr(w, 8), 8 * i) + ToBits(w, 8));
    }
    ShrZero(v);
  }

  lemma OctetBits(w: nat, b: nat)
    requires b == w % 0x100
    ensures ToBits(b, 8) == ToBits(w, 8)
  {
    hide ToBits, Low;
    ToBitsOfLow(w, 8);
    ShrLowIsDivMod(w, 8);
    assert Pow2(8) == 0x100;
  }

  // ----- decoding whole values

  /** What the decoder makes of an offset. */
  function DecodedValue(isUnsigned: bool, c: Constraint, v: nat): int {
    var w := Raised(v, c.lowerBound);
    if isUnsigned && c.rangeBits > 16 then w else ToI64(w)
  }

  /** The offset and the lower bound, added on 64 bits. */
  function Raised(v: int, lowerBound: i64): u64 {
    (v + lowerBound) % TWO_64
  }

  datatype Decoded = Num(number: int) | Octets(octets: seq<u8>)

  /** The octets of the general form at position `pos`, and the position after them. */
  function ReadOctets(data: seq<bool>, pos: nat): (r: Option<(seq<u8>, nat)>)
    ensures r.Some? ==> pos < r.value.1 <= |data|
    decreases |data| - pos
  {
    var p := pos + |Padding(pos)|;
    if p > |data| then None
    else
      match ReadDeterminant(data, p)
      case None => None
      case Some(l) =>
        var end := l.end + 8 * l.count;
        if end > |data| then None
        else if !l.repeat then Some((BytesBetween(data, l.end, end), end))
        else
          match ReadOctets(data, end)
          case None => None
          case Some(rest) => Some((BytesBetween(data, l.end, end) + rest.0, rest.1))
  }

  /** What the decoder makes of the bits at position `pos`, and the position after them. */
  function DecodeSpec(isUnsigned: bool, ct: Option<Constraint>, data: seq<bool>, pos: nat): Option<(Decoded, nat)>
    requires pos <= |data|
  {
    match ct
    case None => General(0, data, pos)
    case Some(c) =>
      if !c.extensible then DecodeConstrained(isUnsigned, c, data, pos)
      else if pos == |data| then None
      else if data[pos] then General(0, data, pos + 1)
      else DecodeConstrained(isUnsigned, c, data, pos + 1)
  }

  function DecodeConstrained(isUnsigned: bool, c: Constraint, data: seq<bool>, pos: nat): Option<(Decoded, nat)> {
    if !Flagged(c) then General(c.lowerBound, data, pos)
    else if c.rangeBits < 0 then None
    else
      match ReadOffset(c.rangeBits, data, pos)
      case None => None
      case Some(r) => Some((Num(DecodedValue(isUnsigned, c, r.0)), r.1))
  }

  /** The general form, to which a lower bound is added unless it is 0. */
  function General(lowerBound: i64, data: seq<bool>, pos: nat): Option<(Decoded, nat)> {
    match ReadOctets(data, pos)
    case None => None
    case Some(r) =>
      if lowerBound == 0 then Some((Octets(r.0), r.1))
      else if !FitsI64(Signed(r.0)) then None
      else Some((Num(ToI64(Raised(Signed(r.0), lowerBound))), r.1))
  }

  predicate Holds(contents: seq<u8>, d: Decoded) {
    match d
    case Num(v) => Signed(contents) == v && contents != [] && !Redundant(contents)
    case Octets(o) => contents == o
  }

  /** `INTEGER_decode_aper`. */
  method DecodeAper(isUnsigned: bool, ct: Option<Constraint>, st: INTEGER, pd: BitIn) returns (ok: bool)
    requires st.Valid() && pd.Valid() && (ct.Some? ==> ct.value.rangeBits <= 64)
    modifies st, pd
    ensures st.Valid() && pd.Valid()
    ensures ok <==> DecodeSpec(isUnsigned, ct, pd.data, old(pd.pos)).Some?
    ensures ok ==>
      var d := DecodeSpec(isUnsigned, ct, pd.data, old(pd.pos)).value;
      Holds(st.Contents(), d.0) && pd.pos == d.1
  {
    assert pd.pos <= |pd.data|;
    hide pd.Valid, DecodeConstrained, ReadOctets, General, Holds;
    var inext := false;
    if ct.Some? && ct.value.extensible {
      ok, inext := GetFlag(pd);
      if !ok {
        return;
      }
    }
    st.buf := null;
    st.size := 0;
    if ct.None? || inext {
      ok := GetGeneral(0, st, pd);
    } else {
      ok := GetByConstraint(isUnsigned, ct.value, st, pd);
    }
  }

  // What follows where the constraint applies.
  method GetByConstraint(isUnsigned: bool, c: Constraint, st: INTEGER, pd: BitIn) returns (ok: bool)
    requires st.Valid() && st.Contents() == [] && pd.Valid() && c.rangeBits <= 64
    modifies st, pd
    ensures st.Valid() && pd.Valid()
    ensures ok <==> DecodeConstrained(isUnsigned, c, pd.data, old(pd.pos)).Some?
    ensures ok ==>
      var d := DecodeConstrained(isUnsigned, c, pd.data, old(pd.pos)).value;
      Holds(st.Contents(), d.0) && pd.pos == d.1
  {
    hide pd.Valid, ReadOffset, ReadOctets, General, DecodedValue, Holds;
    if !Flagged(c) {
      ok := GetGeneral(c.lowerBound, st, pd);
    } else if c.rangeBits < 0 {
      ok := false;
    } else {
      ok := StoreOffset(isUnsigned, c, st, pd);
    }
  }

  // The extension bit.
  method GetFlag(pd: BitIn) returns (ok: bool, inext: bool)
    requires pd.Valid()
    modifies pd
    ensures pd.Valid() && pd.pos <= |pd.data|
    ensures ok <==> old(pd.pos) < |pd.data|
    ensures ok ==> pd.pos == old(pd.pos) + 1 && inext == pd.data[old(pd.pos)]
  {
    hide pd.Valid, FromBits;
    var flag := pd.GetFewBits(1);
    ok, inext := flag >= 0, flag > 0;
    if ok {
      FromOneBit(pd.data[old(pd.pos)..pd.pos]);
    }
  }

  /** The general form: the `do` loop, and the lower bound. */
  method GetGeneral(lowerBound: i64, st: INTEGER, pd: BitIn) returns (ok: bool)
    requires st.Valid() && pd.Valid() && st.Contents() == []
    modifies st, pd
    ensures st.Valid() && pd.Valid() && pd.pos <= |pd.data|
    ensures ok <==> General(lowerBound, pd.data, old(pd.pos)).Some?
    ensures ok ==>
      var d := General(lowerBound, pd.data, old(pd.pos)).value;
      Holds(st.Contents(), d.0) && pd.pos == d.1
  {
    hide pd.Valid, ReadOctets, Signed, Unsigned, Raised;
    ok := GetOctetPieces(st, pd);
    if !ok || lowerBound == 0 {
      return;
    }
    var conversion := st.ToImax();
    if !conversion.Value? {
      return false;
    }
    st.FromImax(ToI64(Raised(conversion.value, lowerBound)));
  }

  method GetOctetPieces(st: INTEGER, pd: BitIn) returns (ok: bool)
    requires st.Valid() && pd.Valid() && st.Contents() == []
    modifies st, pd
    ensures st.Valid() && pd.Valid() && pd.pos <= |pd.data|
    ensures ok <==> ReadOctets(pd.data, old(pd.pos)).Some?
    ensures ok ==>
      st.buf != null && ReadOctets(pd.data, old(pd.pos)) == Some((st.Contents(), pd.pos))
  {
    assert pd.pos <= |pd.data|;
    hide pd.Valid, ReadOctets, Prepended;
    ghost var whole := ReadOctets(pd.data, pd.pos);
    NothingPrepended(whole);
    var repeat := true;
    while repeat
      invariant st.Valid() && pd.Valid() && pd.pos <= |pd.data|
      invariant repeat ==> whole == Prepended(st.Contents(), ReadOctets(pd.data, pd.pos))
      invariant !repeat ==> whole == Some((st.Contents(), pd.pos)) && st.buf != null
      decreases repeat, |pd.data| - pd.pos
    {
      ghost var was, p := st.Contents(), pd.pos;
      WholeUnfolds(was, pd.data, p);
      ok, repeat := GetOctetPiece(st, pd);
      if !ok {
        return;
      }
    }
    ok := true;
  }

  /** The piece at position `pos`, whether more follow, and where it ends. */
  ghost function PieceAt(data: seq<bool>, pos: nat): Option<(seq<u8>, bool, nat)> {
    var p := pos + |Padding(pos)|;
    if p > |data| then None
    else
      match ReadDeterminant(data, p)
      case None => None
      case Some(l) =>
        var end := l.end + 8 * l.count;
        if end > |data| then None else Some((BytesBetween(data, l.end, end), l.repeat, end))
  }

  lemma WholeUnfolds(s: seq<u8>, data: seq<bool>, pos: nat)
    ensures Prepended(s, ReadOctets(data, pos)) ==
      match PieceAt(data, pos)
      case None => None
      case Some(l) => if l.1 then Prepended(s + l.0, ReadOctets(data, l.2)) else Some((s + l.0, l.2))
  {
    hide ReadOctets, ReadDeterminant, Padding, BytesBetween;
    OctetsUnfold(data, pos);
    if PieceAt(data, pos).Some? {
      var l := PieceAt(data, pos).value;
      PrependedTwice(s, l.0, ReadOctets(data, l.2));
    }
  }

  // One turn of that loop.
  method GetOctetPiece(st: INTEGER, pd: BitIn) returns (ok: bool, repeat: bool)
    requires st.Valid() && pd.Valid()
    modifies st, pd
    ensures st.Valid() && pd.Valid() && pd.pos <= |pd.data|
    ensures ok <==> PieceAt(pd.data, old(pd.pos)).Some?
    ensures ok ==>
      var l := PieceAt(pd.data, old(pd.pos)).value;
      && st.buf != null && st.Contents() == old(st.Contents()) + l.0 && repeat == l.1 && pd.pos == l.2 > old(pd.pos)
  {
    hide pd.Valid, PieceAt;
    var dst: seq<u8>;
    ok, repeat, dst := ReadPiece(pd);
    if ok {
      AppendOctets(st, dst);
    }
  }

  method ReadPiece(pd: BitIn) returns (ok: bool, repeat: bool, dst: seq<u8>)
    requires pd.Valid()
    modifies pd
    ensures pd.Valid() && pd.pos <= |pd.data|
    ensures var l := PieceAt(pd.data, old(pd.pos));
      if ok then l == Some((dst, repeat, pd.pos)) && pd.pos > old(pd.pos) else l == None
  {
    assert pd.pos <= |pd.data|;
    hide pd.Valid, ReadDeterminant, Padding, BytesBetween;
    var len: int;
    len, repeat := AperGetLength(pd);
    if len < 0 {
      return false, false, [];
    }
    ok, dst := pd.GetManyBits(false, 8 * len);
  }

  method AppendOctets(st: INTEGER, dst: seq<u8>)
    requires st.Valid()
    modifies st
    ensures st.Valid() && st.buf != null && fresh(st.buf) && st.Contents() == old(st.Contents()) + dst
  {
    var was := if st.buf == null then [] else st.buf[..st.size];
    var p := Grown(was, dst);
    st.buf, st.size := p, |was| + |dst|;
  }

  lemma OctetsUnfold(data: seq<bool>, pos: nat)
    ensures var p := pos + |Padding(pos)|;
      ReadOctets(data, pos) ==
        if p > |data| then None
        else
          match ReadDeterminant(data, p)
          case None => None
          case Some(l) =>
            var end := l.end + 8 * l.count;
            if end > |data| then None
            else
              var piece := BytesBetween(data, l.end, end);
              if l.repeat then Prepended(piece, ReadOctets(data, end)) else Some((piece, end))
  {
    hide ReadDeterminant, Padding;
  }

  /** The offset, added to the lower bound and stored as an INTEGER. */
  method StoreOffset(isUnsigned: bool, c: Constraint, st: INTEGER, pd: BitIn) returns (ok: bool)
    requires st.Valid() && pd.Valid() && 0 <= c.rangeBits <= 64
    modifies st, pd
    ensures st.Valid() && pd.Valid()
    ensures ok <==> ReadOffset(c.rangeBits, pd.data, old(pd.pos)).Some?
    ensures ok ==>
      var d := ReadOffset(c.rangeBits, pd.data, old(pd.pos)).value;
      Holds(st.Contents(), Num(DecodedValue(isUnsigned, c, d.0))) && pd.pos == d.1
  {
    hide pd.Valid, ReadOffset, Raised, Signed, Unsigned;
    var v: u64;
    ok, v := GetOffset(c.rangeBits, pd);
    if !ok {
      return;
    }
    var value := Raised(v, c.lowerBound);
    if isUnsigned && c.rangeBits > 16 {
      st.FromUmax(value);
    } else {
      st.FromImax(ToI64(value));
    }
  }

  method GetOffset(rangeBits: nat, pd: BitIn) returns (ok: bool, v: u64)
    requires pd.Valid() && rangeBits <= 64
    modifies pd
    ensures pd.Valid() && pd.pos <= |pd.data|
    ensures var d := ReadOffset(rangeBits, pd.data, old(pd.pos));
      if ok then d == Some((v, pd.pos)) else d == None
  {
    if rangeBits <= 16 {
      ok, v := GetShort(rangeBits, pd);
    } else {
      ok, v := GetLong(rangeBits, pd);
    }
  }

  // The offset of a range of up to 16 bits.
  method GetShort(rangeBits: nat, pd: BitIn) returns (ok: bool, v: u64)
    requires pd.Valid() && rangeBits <= 16
    modifies pd
    ensures pd.Valid() && pd.pos <= |pd.data|
    ensures var d := ReadOffset(rangeBits, pd.data, old(pd.pos));
      if ok then d == Some((v, pd.pos)) else d == None
  {
    assert pd.pos <= |pd.data|;
    hide pd.Valid, Padding, ReadBits, FromBits;
    if rangeBits >= 8 {
      var skipped := pd.GetAlign();
      if skipped < 0 {
        return false, 0;
      }
    }
    var n := if rangeBits <= 8 then rangeBits else 16;
    ok, v := GetBits(n, pd);
  }

  method GetBits(n: nat, pd: BitIn) returns (ok: bool, v: u64)
    requires pd.Valid() && n <= 16
    modifies pd
    ensures pd.Valid() && pd.pos <= |pd.data|
    ensures var d := ReadBits(n, pd.data, old(pd.pos));
      if ok then d == Some((v, pd.pos)) else d == None
  {
    assert pd.pos <= |pd.data|;
    hide pd.Valid, FromBits;
    var value := pd.GetFewBits(n);
    if value < 0 {
      return false, 0;
    }
    ShortIsWord(pd.data[old(pd.pos)..pd.pos]);
    return true, value;
  }

  // The offset of a wider range.
  method GetLong(rangeBits: nat, pd: BitIn) returns (ok: bool, v: u64)
    requires pd.Valid() && 16 < rangeBits <= 64
    modifies pd
    ensures pd.Valid() && pd.pos <= |pd.data|
    ensures var d := ReadOffset(rangeBits, pd.data, old(pd.pos));
      if ok then d == Some((v, pd.pos)) else d == None
  {
    assert pd.pos <= |pd.data|;
    hide *;
    LongForm(rangeBits, pd.data, pd.pos);
    var i := FieldWidth(rangeBits);
    ok, v := GetCounted(i, pd);
  }

  // An octet count in `i` bits, and the octets.
  method GetCounted(i: nat, pd: BitIn) returns (ok: bool, v: u64)
    requires pd.Valid() && pd.pos <= |pd.data| && i <= 3
    modifies pd
    ensures pd.Valid() && pd.pos <= |pd.data|
    ensures var d := ReadCounted(i, pd.data, old(pd.pos));
      if ok then d == Some((v, pd.pos)) else d == None
  {
    hide pd.Valid, ValueBetween, ReadAligned;
    var length: nat;
    ok, length := GetCount(i, pd);
    if !ok {
      return false, 0;
    }
    ok, v := GetAligned(length, pd);
  }

  lemma LongForm(rangeBits: nat, data: seq<bool>, pos: nat)
    requires 16 < rangeBits <= 64
    ensures var i := LengthBits(rangeBits);
      i <= 3 && ReadOffset(rangeBits, data, pos) == ReadCounted(i, data, pos)
  {
    hide LengthBits, ReadCounted;
    WidthIsSmall(rangeBits);
  }

  method GetAligned(length: nat, pd: BitIn) returns (ok: bool, v: u64)
    requires pd.Valid() && pd.pos <= |pd.data| && 1 <= length <= 8
    modifies pd
    ensures pd.Valid() && pd.pos <= |pd.data|
    ensures var d := ReadAligned(length, pd.data, old(pd.pos));
      if ok then d == Some((v, pd.pos)) else d == None
  {
    hide pd.Valid, ValueBetween, Padding;
    v := 0;
    ok := SkipZeros(pd);
    if ok {
      ok, v := GetOctets(length, pd);
    }
  }

  // The number of octets: the length field plus one.
  method GetCount(i: nat, pd: BitIn) returns (ok: bool, length: nat)
    requires pd.Valid() && i <= 3
    modifies pd
    ensures pd.Valid() && pd.pos <= |pd.data|
    ensures ok <==> old(pd.pos) + i <= |pd.data|
    ensures ok ==> pd.pos == old(pd.pos) + i && length == ValueBetween(pd.data, old(pd.pos), pd.pos) + 1 <= 8
  {
    hide pd.Valid, FromBits;
    length := 0;
    var value := pd.GetFewBits(i);
    ok := value >= 0;
    if ok {
      OctetsAreFew(pd.data[old(pd.pos)..pd.pos]);
      length := value + 1;
    }
  }

  // The padding, which has to be zero.
  method SkipZeros(pd: BitIn) returns (ok: bool)
    requires pd.Valid() && pd.pos <= |pd.data|
    modifies pd
    ensures pd.Valid() && pd.pos <= |pd.data|
    ensures var p := old(pd.pos) + |Padding(old(pd.pos))|;
      && (ok <==> p <= |pd.data| && ValueBetween(pd.data, old(pd.pos), p) == 0)
      && (ok ==> pd.pos == p)
  {
    hide pd.Valid, FromBits, Padding;
    var skipped := pd.GetAlign();
    ok := skipped == 0;
  }

  lemma ShortIsWord(s: seq<bool>)
    requires |s| <= 16
    ensures FromBits(s) < TWO_64
  {
    hide Pow2, FromBits;
    FromBitsBound(s);
    WidthFacts();
    Pow2Monotone(|s|, 64);
  }

  lemma OctetsAreFew(s: seq<bool>)
    requires |s| <= 3
    ensures FromBits(s) < 8
  {
    FromBitsBound(s);
    EightOctets();
    Pow2Monotone(|s|, 3);
  }

  /** The loop that shifts `count` octets into place. */
  method GetOctets(count: nat, pd: BitIn) returns (ok: bool, v: u64)
    requires pd.Valid() && 1 <= count <= 8
    modifies pd
    ensures pd.Valid() && pd.pos <= |pd.data|
    ensures ok <==> old(pd.pos) + 8 * count <= |pd.data|
    ensures ok ==> pd.pos == old(pd.pos) + 8 * count && v == ValueBetween(pd.data, old(pd.pos), pd.pos)
  {
    assert pd.pos <= |pd.data|;
    hide pd.Valid, ValueBetween, Pow2;
    ghost var p := pd.pos;
    v := 0;
    var length := count;
    NothingRead(pd.data, p);
    while length != 0
      invariant pd.Valid() && p <= pd.pos <= |pd.data| && 0 <= length <= count
      invariant pd.pos == p + 8 * (count - length)
      invariant v == ValueBetween(pd.data, p, pd.pos) * Pow2(8 * length)
    {
      length := length - 1;
      ok, v := GetOctet(p, length, v, pd);
      if !ok {
        return;
      }
    }
    LastOctet(v, ValueBetween(pd.data, p, pd.pos));
    ok := true;
  }

  // One turn of that loop.
  method GetOctet(ghost p: nat, length: nat, was: u64, pd: BitIn) returns (ok: bool, v: u64)
    requires pd.Valid() && p <= pd.pos <= |pd.data| && pd.pos - p + 8 * (length + 1) <= 64
    requires was == ValueBetween(pd.data, p, pd.pos) * Pow2(8 * (length + 1))
    modifies pd
    ensures pd.Valid() && p <= pd.pos <= |pd.data|
    ensures ok <==> old(pd.pos) + 8 <= |pd.data|
    ensures ok ==> pd.pos == old(pd.pos) + 8 && v == ValueBetween(pd.data, p, pd.pos) * Pow2(8 * length)
  {
    hide pd.Valid, FromBits, Pow2;
    ghost var q := pd.pos;
    var octet := pd.GetFewBits(8);
    if octet < 0 {
      return false, 0;
    }
    NextOctet(pd.data[p..q], pd.data[q..q + 8], length);
    assert pd.data[p..pd.pos] == pd.data[p..q] + pd.data[q..q + 8];
    v := (was + octet * Pow2(8 * length)) % TWO_64;
    ok := true;
  }

  lemma NothingRead(data: seq<bool>, p: nat)
    requires p <= |data|
    ensures ValueBetween(data, p, p) == 0
  {
    assert data[p..p] == [];
  }

  lemma LastOctet(v: nat, w: nat)
    requires v == w * Pow2(0)
    ensures v == w
  {}

  lemma NextOctet(s: seq<bool>, t: seq<bool>, length: nat)
    requires |t| == 8 && |s| + 8 * (length + 1) <= 64
    ensures FromBits(s) * Pow2(8 * (length + 1)) + FromBits(t) * Pow2(8 * length)
         == FromBits(s + t) * Pow2(8 * length) < TWO_64
  {
    hide FromBits, Pow2;
    var a, b, p := FromBits(s), FromBits(t), Pow2(8 * length);
    FromBitsConcat(s, t);
    ShlIsProduct(a, 8);
    Pow2Add(8, 8 * length);
    WidthFacts();
    Collect(a, b, p);
    FromBitsBound(s + t);
    Pow2Add(|s| + 8, 8 * length);
    ScaledBelow(FromBits(s + t), Pow2(|s| + 8), p);
    Pow2Monotone(|s| + 8 + 8 * length, 64);
  }

  lemma Collect(a: nat, b: nat, p: nat)
    ensures a * (0x100 * p) + b * p == (a * 0x100 + b) * p
  {}

  lemma ScaledBelow(a: nat, b: nat, p: nat)
    requires a < b && p >= 1
    ensures a * p < b * p
  {}

  // ----- the round trip

  /** Constrained numbers whose offset the form for the range holds. */
  predicate OffsetFits(isUnsigned: bool, c: Constraint, s: seq<u8>)
    requires c.rangeBits >= 0
  {
    Number(isUnsigned, s) - Bound(isUnsigned, c.lowerBound) < Pow2(Capacity(c.rangeBits))
  }

  /** It does for every number of a range of up to 2^rangeBits values. */
  lemma RangeFits(isUnsigned: bool, c: Constraint, s: seq<u8>)
    requires Encodable(isUnsigned, Some(c), s) && Constrained(isUnsigned, Some(c), s) && !c.semiConstrained
    requires Bound(isUnsigned, c.upperBound) - Bound(isUnsigned, c.lowerBound) < Pow2(c.rangeBits)
    ensures OffsetFits(isUnsigned, c, s)
  {
    hide Pow2, LengthBits, Unsigned, Signed;
    LengthBitsIsLeast(c.rangeBits);
    Pow2Monotone(c.rangeBits, Capacity(c.rangeBits));
  }

  /** Decoding, from the same alignment, the constrained form of a number consumes exactly its
      bits; it returns the number except when an unsigned one of a range of 16 bits or less has
      its top bit set.  */
  lemma ConstrainedRoundTrip(isUnsigned: bool, c: Constraint, s: seq<u8>, before: seq<bool>, after: seq<bool>)
    requires Encodable(isUnsigned, Some(c), s) && Constrained(isUnsigned, Some(c), s)
    requires c.constrained || c.semiConstrained || c.extensible
    requires c.rangeBits <= 64 && OffsetFits(isUnsigned, c, s)
    ensures var v := Number(isUnsigned, s);
      var code := EncodedBits(isUnsigned, Some(c), s, |before|);
      var d := DecodeSpec(isUnsigned, Some(c), before + code + after, |before|);
      && d.Some? && d.value.1 == |before| + |code|
      && (d.value.0 == Num(v) <==> !(isUnsigned && c.rangeBits <= 16 && v > INT64_MAX))
      && d.value.0.Num?
  {
    hide OffsetBits, ReadOffset, Unsigned, Signed, Pow2, Capacity, DecodedValue, Offset;
    var v := Number(isUnsigned, s);
    OffsetIsSmall(isUnsigned, c, v);
    OffsetReturns(isUnsigned, c, v);
    var ext := if c.extensible then [false] else [];
    var code := OffsetBits(c.rangeBits, Offset(c, v), |before + ext|);
    var data := before + (ext + code) + after;
    assert data == (before + ext) + code + after;
    assert c.extensible ==> data[|before|] == false;
    OffsetRoundTrip(c.rangeBits, Offset(c, v), before + ext, after);
  }

  lemma OffsetIsSmall(isUnsigned: bool, c: Constraint, v: int)
    requires c.rangeBits >= 0 && Fits(isUnsigned, v) && InRange(isUnsigned, c, v)
    ensures Offset(c, v) == v - Bound(isUnsigned, c.lowerBound)
  {}

  lemma OffsetReturns(isUnsigned: bool, c: Constraint, v: int)
    requires Fits(isUnsigned, v)
    ensures DecodedValue(isUnsigned, c, Offset(c, v)) == v
      <==> !(isUnsigned && c.rangeBits <= 16 && v > INT64_MAX)
  {
    AddedBack(v, c.lowerBound);
  }

  /** An offset the form does not hold never comes back. */
  lemma WideOffsetIsLost(isUnsigned: bool, c: Constraint, s: seq<u8>, data: seq<bool>, pos: nat)
    requires Encodable(isUnsigned, Some(c), s) && Constrained(isUnsigned, Some(c), s) && Flagged(c)
    requires !OffsetFits(isUnsigned, c, s)
    ensures var d := DecodeConstrained(isUnsigned, c, data, pos);
      d.Some? ==> d.value.0 != Num(Number(isUnsigned, s))
  {
    hide ReadOffset, Unsigned, Signed, Pow2, Capacity;
    var v := Number(isUnsigned, s);
    OffsetIsSmall(isUnsigned, c, v);
    CapacityIsExact(c.rangeBits, data, pos);
    AddedBack(v, c.lowerBound);
    var r := ReadOffset(c.rangeBits, data, pos);
    if r.Some? && DecodedValue(isUnsigned, c, r.value.0) == v {
      SameOffset(r.value.0, Offset(c, v), c.lowerBound);
    }
  }

  lemma SameOffset(w: u64, v: u64, b: int)
    requires (w + b) % TWO_64 == (v + b) % TWO_64
    ensures w == v
  {}

  lemma AddedBack(v: int, b: int)
    ensures ((v - b) % TWO_64 + b) % TWO_64 == v % TWO_64
  {
    var d := v - b;
    assert (d % TWO_64 + b) % TWO_64 == (d + b) % TWO_64;
  }

  /** 2^63 + 1 in a range of 8 bits comes back as a negative number. */
  lemma LargeComesBackNegative(s: seq<u8>)
    requires s == [0x80, 0, 0, 0, 0, 0, 0, 1]
    ensures var c := Constraint(true, false, false, 8, INT64_MIN, INT64_MIN + 255);
      var d := DecodeSpec(true, Some(c), EncodedBits(true, Some(c), s, 0), 0);
      && Encodable(true, Some(c), s) && Unsigned(s) == 0x8000_0000_0000_0001
      && d == Some((Num(INT64_MIN + 1), 8))
  {
    hide OffsetBits, ReadOffset, Pow2, ToBits;
    var c := Constraint(true, false, false, 8, INT64_MIN, INT64_MIN + 255);
    UnsignedOfEight(s);
    WidthFacts();
    assert Offset(c, 0x8000_0000_0000_0001) == 1;
    var code := OffsetBits(8, 1, 0);
    OffsetRoundTrip(8, 1, [], []);
    assert [] + code + [] == code;
    assert EncodedBits(true, Some(c), s, 0) == [] + code == code;
    EightBits(1);
  }

  lemma EightBits(v: nat)
    ensures |OffsetBits(8, v, 0)| == 8
  {}

  /** In the general form a string comes back, and exactly its bits are consumed, if and only
      if it is not made of whole fragments: after these the decoder expects one more piece. */
  lemma {:induction false} GeneralRoundTrip(s: seq<u8>, before: seq<bool>, after: seq<bool>)
    requires s != []
    ensures var code := GeneralOctets(s, |before|);
      ReadOctets(before + code + after, |before|) == Some((s, |before| + |code|)) <==> |s| % FRAGMENT != 0
    decreases |s|
  {
    hide LengthPrefix, ReadDeterminant, Padding, Bits, GeneralOctets, ReadOctets, BytesBetween;
    var at, k := |before|, Fragment(|s|);
    var pad, prefix := Padding(at), LengthPrefix(|s|);
    var piece := pad + prefix + Bits(s[..k]);
    var rest := GeneralOctets(s[k..], at + |piece|);
    var data := before + (piece + rest) + after;
    var end := at + |piece|;
    GeneralUnfolds(s, at);
    OctetsUnfold(data, at);
    assert data == (before + pad) + prefix + (Bits(s[..k]) + rest + after);
    PrefixRoundTrip(|s|, before + pad, Bits(s[..k]) + rest + after);
    assert data[end - 8 * k..end] == Bits(s[..k]);
    OctetsBack(data, end - 8 * k, end, s[..k]);
    assert s == s[..k] + s[k..];
    FragmentsLeft(|s|);
    if |s| >= FRAGMENT {
      if s[k..] != [] {
        assert data == (before + piece) + rest + after;
        GeneralRoundTrip(s[k..], before + piece, after);
        Reassembled(s, k, ReadOctets(data, end), end + |rest|);
      } else {
        NothingGeneral(end);
      }
    } else {
      assert s[..k] == s;
      NothingGeneral(end);
    }
  }

  /** The decoder looks for another length after the one fragment the encoder wrote. */
  lemma WholeFragmentIsLost(s: seq<u8>)
    requires |s| == FRAGMENT
    ensures ReadOctets(GeneralOctets(s, 0), 0) == None
  {
    hide LengthPrefix, ReadDeterminant, Bits, GeneralOctets, ReadOctets, BytesBetween;
    var data := GeneralOctets(s, 0);
    GeneralUnfolds(s, 0);
    assert s[..FRAGMENT] == s && s[FRAGMENT..] == [];
    NothingGeneral(|LengthPrefix(|s|) + Bits(s)|);
    assert data == [] + LengthPrefix(|s|) + Bits(s);
    PrefixRoundTrip(|s|, [], Bits(s));
    OctetsUnfold(data, 0);
    OctetsUnfold(data, |data|);
    NothingLeft(data);
  }

  lemma NothingLeft(data: seq<bool>)
    ensures ReadDeterminant(data, |data| + |Padding(|data|)|) == None
  {}

  lemma FragmentsLeft(n: nat)
    requires n > 0
    ensures var k := Fragment(n);
      if n < FRAGMENT then k == n else k > 0 && n % FRAGMENT == (n - k) % FRAGMENT
  {}

  lemma OctetsBack(data: seq<bool>, i: nat, j: nat, s: seq<u8>)
    requires i <= j <= |data| && data[i..j] == Bits(s)
    ensures BytesBetween(data, i, j) == s
  {
    hide Bits, BytesOf, Padded;
    BitsOfBytes(Bits(s));
    PaddedConcat(Bits(s), []);
    assert |BytesOf(Bits(s))| == |s|;
    OctetsFromBits(BytesOf(Bits(s)), s);
  }

  lemma Reassembled(s: seq<u8>, k: nat, r: Option<(seq<u8>, nat)>, end: nat)
    requires k <= |s|
    ensures Prepended(s[..k], r) == Some((s, end)) <==> r == Some((s[k..], end))
  {
    assert s == s[..k] + s[k..];
    if r.Some? && s[..k] + r.value.0 == s {
      assert r.value.0 == (s[..k] + r.value.0)[k..];
    }
  }

  /** The decoder goes on to the general form: the extension bit says so, or nothing constrains
      the value. */
  predicate TakesGeneralForm(c: Constraint, data: seq<bool>, pos: nat)
    requires pos <= |data|
  {
    if c.extensible then pos < |data| && data[pos] else !Flagged(c)
  }

  /** Where the encoder writes the general form, the decoder reads it only behind a set
      extension bit or without any constraint; else it fails. */
  lemma GeneralFormIsRead(isUnsigned: bool, c: Constraint, s: seq<u8>, before: seq<bool>, after: seq<bool>)
    requires Encodable(isUnsigned, Some(c), s) && !Constrained(isUnsigned, Some(c), s)
    ensures var data := before + EncodedBits(isUnsigned, Some(c), s, |before|) + after;
      && (TakesGeneralForm(c, data, |before|)
          <==> if c.extensible then !InRange(isUnsigned, c, Number(isUnsigned, s)) else !Flagged(c))
      && (!TakesGeneralForm(c, data, |before|) ==> DecodeSpec(isUnsigned, Some(c), data, |before|) == None)
  {
    hide GeneralOctets, ReadOctets, Signed, Unsigned;
    var v := Number(isUnsigned, s);
    var ext := Extension(isUnsigned, c, v);
    var rest := GeneralOctets(s, |before| + |ext|);
    var data := before + (ext + rest) + after;
    assert c.extensible ==> data[|before|] == ext[0];
  }

  /** A semi-constrained 5 is written and not read. */
  lemma SemiConstrainedIsNotRead()
    ensures var c := Constraint(false, true, false, -1, 0, 0);
      && Encodable(false, Some(c), [5])
      && DecodeSpec(false, Some(c), EncodedBits(false, Some(c), [5], 0), 0) == None
  {
    hide GeneralOctets;
    assert BytesValue([5], 0, 1) == BytesValue([5], 0, 0) * 0x100 + 5;
  }

  /** When an encoded buffer comes back. */
  predicate Returns(isUnsigned: bool, ct: Option<Constraint>, s: seq<u8>) {
    if Constrained(isUnsigned, ct, s)
    then
      && Flagged(ct.value) && OffsetFits(isUnsigned, ct.value, s)
      && !(isUnsigned && ct.value.rangeBits <= 16 && Unsigned(s) > INT64_MAX)
    else
      && |s| % FRAGMENT != 0
      && (ct.Some? ==>
            if ct.value.extensible then !InRange(isUnsigned, ct.value, Number(isUnsigned, s)) else !Flagged(ct.value))
  }

  /** What comes back of a buffer: its number from the constrained form, its octets from the
      general one. */
  function Back(isUnsigned: bool, ct: Option<Constraint>, s: seq<u8>): Decoded {
    if Constrained(isUnsigned, ct, s) then Num(Number(isUnsigned, s)) else Octets(s)
  }

  /** For every buffer the encoder accepts: from the same alignment the decoder returns it and
      consumes exactly the bits written, if and only if `Returns` holds.  Only types with range bits and
      a lower bound but no flag, which the code generator never makes, are left aside. */
  lemma AperRoundTrip(isUnsigned: bool, ct: Option<Constraint>, s: seq<u8>, before: seq<bool>, after: seq<bool>)
    requires Encodable(isUnsigned, ct, s)
    requires Constrained(isUnsigned, ct, s) ==>
      ct.value.rangeBits <= 64 && (Flagged(ct.value) || ct.value.lowerBound == 0)
    ensures var code := EncodedBits(isUnsigned, ct, s, |before|);
      DecodeSpec(isUnsigned, ct, before + code + after, |before|)
        == Some((Back(isUnsigned, ct, s), |before| + |code|))
      <==> Returns(isUnsigned, ct, s)
  {
    hide OffsetBits, ReadOffset, GeneralOctets, ReadOctets, OffsetFits, Unsigned, Signed;
    if Constrained(isUnsigned, ct, s) && Flagged(ct.value) && OffsetFits(isUnsigned, ct.value, s) {
      ConstrainedRoundTrip(isUnsigned, ct.value, s, before, after);
    } else if Constrained(isUnsigned, ct, s) && Flagged(ct.value) {
      var ext := if ct.value.extensible then 1 else 0;
      var data := before + EncodedBits(isUnsigned, ct, s, |before|) + after;
      WideOffsetIsLost(isUnsigned, ct.value, s, data, |before| + ext);
    } else if !Constrained(isUnsigned, ct, s) {
      var ext := if ct.None? then [] else Extension(isUnsigned, ct.value, Number(isUnsigned, s));
      var code := GeneralOctets(s, |before| + |ext|);
      assert before + (ext + code) + after == (before + ext) + code + after;
      GeneralRoundTrip(s, before + ext, after);
      if ct.Some? {
        GeneralFormIsRead(isUnsigned, ct.value, s, before, after);
        assert ct.value.extensible ==> (before + (ext + code) + after)[|before|] == ext[0];
      }
    }
  }

  /** 5 of 0..255 without a flag is written in an octet that reads as a length. */
  lemma UnflaggedIsNotRead()
    ensures var c := Constraint(false, false, false, 8, 0, 255);
      && Encodable(false, Some(c), [5]) && Constrained(false, Some(c), [5])
      && DecodeSpec(false, Some(c), EncodedBits(false, Some(c), [5], 0), 0) == None
  {
    hide ToBits, FromBits, LengthPrefix, ReadDeterminant;
    var c := Constraint(false, false, false, 8, 0, 255);
    assert Signed([5]) == 5 by {
      assert BytesValue([5], 0, 1) == BytesValue([5], 0, 0) * 0x100 + 5;
    }
    FiveIsLength();
    var data := LengthPrefix(5);
    assert EncodedBits(false, Some(c), [5], 0) == [] + ([] + ToBits(5, 8)) == [] + data + [];
    PrefixRoundTrip(5, [], []);
    OctetsUnfold(data, 0);
  }

  lemma FiveIsLength()
    ensures LengthPrefix(5) == ToBits(5, 8)
  {
    hide ToBits;
    ShortPrefix(5);
  }

  // ----- ranges of 64 bits

  /** A bound as the table of a type stores it. */
  function Stored(b: int): i64
    requires INT64_MIN <= b < TWO_64
  {
    if b > INT64_MAX then b - TWO_64 else b
  }

  /** The constraint of the numbers from `l` to `u`. */
  function RangeOf(l: int, u: int, rangeBits: nat): Constraint
    requires INT64_MIN <= l <= u < TWO_64
  {
    Constraint(true, false, false, rangeBits, Stored(l), Stored(u))
  }

  /** Every number of a range is encodable if and only if the type is read without sign or the
      range ends below 2^63. */
  lemma RangeIsEncodable(isUnsigned: bool, l: int, u: int, rangeBits: nat)
    requires INT64_MIN <= l <= u < TWO_64 && (isUnsigned ==> l >= 0)
    ensures (forall s: seq<u8> :: s != [] && l <= Signed(s) <= u ==>
              Encodable(isUnsigned, Some(RangeOf(l, u, rangeBits)), s))
       <==> isUnsigned || u <= INT64_MAX
  {
    hide Signed, Unsigned, Minimal;
    var ct := Some(RangeOf(l, u, rangeBits));
    if isUnsigned || u <= INT64_MAX {
      forall s: seq<u8> | s != [] && l <= Signed(s) <= u
        ensures Encodable(isUnsigned, ct, s)
      {
        if isUnsigned {
          UnsignedOfNonNegative(s);
        }
      }
    } else {
      LargeOctets(u);
      var s := [0] + BeBytes(u, 8);
      assert !Encodable(isUnsigned, ct, s);
    }
  }

  /** The range of 64 bits without sign, stored with upper bound -1 and read with a sign. */
  lemma WideRangeIsRefused(s: seq<u8>)
    ensures RangeOf(0, TWO_64 - 1, 64) == Constraint(true, false, false, 64, 0, -1)
    ensures !Encodable(false, Some(RangeOf(0, TWO_64 - 1, 64)), s)
  {
    hide Signed, Unsigned;
  }

  // ----- signed overflow

  /** No sum, difference or shift of the signed words leaves 64 bits: the offset taken by the
      encoder, its octets shifted into place by the decoder, and the lower bound added. */
  predicate StaysSigned(isUnsigned: bool, c: Constraint, v: int)
    requires Fits(isUnsigned, v)
  {
    var value: int := if isUnsigned then ToI64(v) else v;
    && FitsI64(value - c.lowerBound)
    && Offset(c, v) <= INT64_MAX && FitsI64(Offset(c, v) + c.lowerBound)
  }

  /** On numbers in range that is so exactly for offsets below 2^63, unless an unsigned range
      begins below 2^63 and the number does not. */
  lemma StaysSignedIff(isUnsigned: bool, c: Constraint, v: int)
    requires Fits(isUnsigned, v) && c.rangeBits >= 0 && InRange(isUnsigned, c, v)
    ensures StaysSigned(isUnsigned, c, v) <==>
      && v - Bound(isUnsigned, c.lowerBound) <= INT64_MAX
      && (isUnsigned && v > INT64_MAX ==> c.lowerBound < 0)
  {
    OffsetIsSmall(isUnsigned, c, v);
  }

  /** 2^63 of the unsigned numbers of 64 bits. */
  lemma TopBitOverflows()
    ensures var c := RangeOf(0, TWO_64 - 1, 64);
      InRange(true, c, INT64_MAX + 1) && !StaysSigned(true, c, INT64_MAX + 1)
  {}

  // ----- what the decoder takes, written by this encoder or not

  /** The bits of an offset at bit position `at`: padding is not looked at in the short forms
      and must be zero in the long one, and the count of octets need not be the least. */
  ghost predicate IsOffset(rangeBits: nat, b: seq<bool>, at: nat, v: nat) {
    if rangeBits < 8 then |b| == rangeBits && v == FromBits(b)
    else if rangeBits <= 16 then
      var p := |Padding(at)|;
      |b| == p + (if rangeBits == 8 then 8 else 16) && v == FromBits(b[p..])
    else exists k: nat :: IsCounted(LengthBits(rangeBits), k, b, at, v)
  }

  ghost predicate IsCounted(i: nat, k: nat, b: seq<bool>, at: nat, v: nat) {
    var p := |Padding(at + i)|;
    && |b| == i + p + 8 * (k + 1)
    && FromBits(b[..i]) == k && b[i..i + p] == Zeros(p) && v == FromBits(b[i + p..])
  }

  /** The decoder takes exactly these. */
  lemma OffsetIsRead(rangeBits: nat, data: seq<bool>, pos: nat, v: nat, end: nat)
    requires rangeBits <= 64 && pos <= |data|
    ensures ReadOffset(rangeBits, data, pos) == Some((v, end))
       <==> pos <= end <= |data| && IsOffset(rangeBits, data[pos..end], pos, v)
  {
    hide FromBits, LengthBits, Padding, IsCounted, ReadCounted;
    if rangeBits <= 16 {
      ShortIsRead(rangeBits, data, pos, v, end);
    } else {
      WidthIsSmall(rangeBits);
      var i := LengthBits(rangeBits);
      if ReadCounted(i, data, pos) == Some((v, end)) {
        var k := ReadIsCounted(i, data, pos);
      }
      forall k: nat | pos <= end <= |data| && IsCounted(i, k, data[pos..end], pos, v)
        ensures ReadCounted(i, data, pos) == Some((v, end))
      {
        CountedIsRead(i, k, data, pos, v, end);
      }
    }
  }

  lemma ShortIsRead(rangeBits: nat, data: seq<bool>, pos: nat, v: nat, end: nat)
    requires rangeBits <= 16 && pos <= |data|
    ensures ReadOffset(rangeBits, data, pos) == Some((v, end))
       <==> pos <= end <= |data| && IsOffset(rangeBits, data[pos..end], pos, v)
  {
    hide FromBits, Padding;
    var p := if rangeBits < 8 then 0 else |Padding(pos)|;
    if pos + p <= end <= |data| {
      assert data[pos..end][p..] == data[pos + p..end];
      assert data[pos..end][0..] == data[pos..end];
    }
  }

  lemma ReadIsCounted(i: nat, data: seq<bool>, pos: nat) returns (k: nat)
    requires pos <= |data| && ReadCounted(i, data, pos).Some?
    ensures var r := ReadCounted(i, data, pos).value; pos <= r.1 <= |data| && IsCounted(i, k, data[pos..r.1], pos, r.0)
  {
    hide FromBits, Padding;
    k := ValueBetween(data, pos, pos + i);
    var end := ReadCounted(i, data, pos).value.1;
    var b, p := data[pos..end], |Padding(pos + i)|;
    ThreeSlices(data, pos, i, p, end);
    ZeroValue(b[i..i + p]);
  }

  lemma CountedIsRead(i: nat, k: nat, data: seq<bool>, pos: nat, v: nat, end: nat)
    requires pos <= end <= |data| && IsCounted(i, k, data[pos..end], pos, v)
    ensures ReadCounted(i, data, pos) == Some((v, end))
  {
    hide FromBits, Padding;
    var b, p := data[pos..end], |Padding(pos + i)|;
    ThreeSlices(data, pos, i, p, end);
    ZeroValue(b[i..i + p]);
  }

  lemma ThreeSlices(data: seq<bool>, pos: nat, i: nat, p: nat, end: nat)
    requires pos + i + p <= end <= |data|
    ensures var b := data[pos..end];
      b[..i] == data[pos..pos + i] && b[i..i + p] == data[pos + i..pos + i + p] && b[i + p..] == data[pos + i + p..end]
  {
    var b := data[pos..end];
    SliceOfSlice(data, pos, end, 0, i);
    SliceOfSlice(data, pos, end, i, i + p);
    SliceOfSlice(data, pos, end, i + p, |b|);
    assert b[0..i] == b[..i] && b[i + p..|b|] == b[i + p..];
  }

  lemma SliceOfSlice(data: seq<bool>, o: nat, e: nat, i: nat, j: nat)
    requires o <= e <= |data| && i <= j <= e - o
    ensures data[o..e][i..j] == data[o + i..o + j]
  {
    forall k | 0 <= k < j - i ensures data[o..e][i..j][k] == data[o + i..o + j][k] {
      assert data[o..e][i..j][k] == data[o..e][i + k];
    }
  }

  lemma ZeroValue(b: seq<bool>)
    ensures FromBits(b) == 0 <==> b == Zeros(|b|)
  {
    hide FromBits, ToBits;
    FromBitsZeros(|b|);
    ToFromBits(b);
    ToBitsOfZero(|b|);
  }

  /** An offset and its lower bound add up, on 64 bits with or without sign. */
  lemma DecodedIsSum(isUnsigned: bool, c: Constraint, v: nat, n: int)
    ensures DecodedValue(isUnsigned, c, v) == n
       <==> (v + c.lowerBound - n) % TWO_64 == 0
            && (if isUnsigned && c.rangeBits > 16 then 0 <= n < TWO_64 else FitsI64(n))
  {
    SameRemainder(v + c.lowerBound, n);
  }

  lemma SameRemainder(a: int, n: int)
    ensures (a - n) % TWO_64 == 0 <==> a % TWO_64 == n % TWO_64
  {
    if a % TWO_64 == n % TWO_64 {
      assert a - n == TWO_64 * (a / TWO_64 - n / TWO_64);
    }
    if (a - n) % TWO_64 == 0 {
      assert a == n + TWO_64 * ((a - n) / TWO_64);
    }
  }

  /** The extension bit is set exactly for numbers outside the bounds, as the type reads them. */
  lemma ExtensionBit(isUnsigned: bool, c: Constraint, s: seq<u8>, at: nat)
    requires c.extensible && !c.semiConstrained && c.rangeBits >= 0
    ensures var l, u := if isUnsigned then ToU64(c.lowerBound) else c.lowerBound,
                        if isUnsigned then ToU64(c.upperBound) else c.upperBound;
      var v := if isUnsigned then Unsigned(s) else Signed(s);
      |EncodedBits(isUnsigned, Some(c), s, at)| > 0 &&
      (EncodedBits(isUnsigned, Some(c), s, at)[0] <==> v < l || v > u)
  {
    hide Signed, Unsigned, OffsetBits, GeneralOctets;
  }

  /** What the encoder accepts of a type with two bounds, with one, and with none. */
  lemma EncodableIff(isUnsigned: bool, c: Constraint, s: seq<u8>)
    ensures var l, u := if isUnsigned then ToU64(c.lowerBound) else c.lowerBound,
                        if isUnsigned then ToU64(c.upperBound) else c.upperBound;
      var v := if isUnsigned then Unsigned(s) else Signed(s);
      var word := s != [] && (if isUnsigned then v <= 0xffff_ffff_ffff_ffff else INT64_MIN <= v <= INT64_MAX);
      && (!c.semiConstrained && c.rangeBits >= 0 ==>
            (Encodable(isUnsigned, Some(c), s) <==> word && (l <= v <= u || c.extensible)))
      && (c.semiConstrained ==>
            (Encodable(isUnsigned, Some(c), s)
             <==> word && (if v < l then c.extensible else c.rangeBits >= 0 || c.lowerBound == 0)))
      && (!c.semiConstrained && c.rangeBits < 0 ==>
            (Encodable(isUnsigned, Some(c), s) <==> word && c.lowerBound == 0))
    ensures Encodable(isUnsigned, None, s) <==> s != []
  {
    hide Signed, Unsigned;
  }

  /** Fewer than 16384 octets are one piece. */
  lemma ShortGeneralForm(s: seq<u8>, at: nat)
    requires 0 < |s| < 16384
    ensures GeneralOctets(s, at) == Padding(at) + LengthPrefix(|s|) + Bits(s)
  {
    hide GeneralOctets, LengthPrefix, Padding, Bits;
    GeneralUnfolds(s, at);
    assert s[..|s|] == s && s[|s|..] == [];
    NothingGeneral(at + |Padding(at) + LengthPrefix(|s|) + Bits(s)|);
  }

  /** The general form of a type without flags: its octets, or their value and the lower bound. */
  lemma GeneralAddsBound(lowerBound: i64, data: seq<bool>, pos: nat)
    requires ReadOctets(data, pos).Some?
    ensures var o, end := ReadOctets(data, pos).value.0, ReadOctets(data, pos).value.1;
      var g := General(lowerBound, data, pos);
      && (lowerBound == 0 ==> g == Some((Octets(o), end)))
      && (lowerBound != 0 ==> (g.Some? <==> INT64_MIN <= Signed(o) <= INT64_MAX))
      && (lowerBound != 0 && g.Some? ==>
            g.value.1 == end && g.value.0.Num? && INT64_MIN <= g.value.0.number <= INT64_MAX
            && (Signed(o) + lowerBound - g.value.0.number) % TWO_64 == 0)
  {
    hide ReadOctets, Signed;
    var o := ReadOctets(data, pos).value.0;
    if lowerBound != 0 && FitsI64(Signed(o)) {
      SameRemainder(Signed(o) + lowerBound, ToI64(Raised(Signed(o), lowerBound)));
    }
  }
}
