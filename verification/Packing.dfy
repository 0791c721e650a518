/** How the bit streams pack a few bits into octets: `asn_put_few_bits` merges them into the
    octets at hand, `asn_get_few_bits` shifts and masks them out. */
module Packing {
  import opened Words
  import opened TwosComplement

  lemma OctetFits(b: u8, n: nat)
    requires n >= 8
    ensures b < Pow2(n)
  {
    Pow2Monotone(8, n);
    assert Pow2(8) == 0x100;
  }

  /** The first octet of a merge: the top `nboff` bits of `b` are kept, the word `w` follows,
      its low `q` bits excepted. */
  function Merged(b: u8, nboff: nat, w: nat, q: nat): nat
    requires nboff <= 8
  {
    KeepTop(b, 8 - nboff, 64);
    WidthFacts();
    Or(And(b, TWO_64 - Pow2(8 - nboff)), Shr(w, q))
  }

  lemma MergedBits(b: u8, nboff: nat, w: nat, q: nat)
    requires nboff <= 8 && w < Pow2(8 - nboff + q)
    ensures Merged(b, nboff, w, q) < 0x100
    ensures ToBits(Merged(b, nboff, w, q), 8) == ToBits(b, 8)[..nboff] + ToBits(Shr(w, q), 8 - nboff)
  {
    hide Or, And, Shl, Shr, Low, ToBits, Pow2;
    var r := 8 - nboff;
    var h, t := Shr(b, r), Shr(w, q);
    WidthFacts();
    KeepTop(b, r, 64);
    TopSmall(w, r, q);
    TopSmall(b, nboff, r);
    Disjoint(h, t, r);
    ToBitsFields(h, t, nboff, r);
    ToBitsPrefix(b, nboff, r);
    ShlIsProduct(h, r);
    FieldsBelow(h, t, Pow2(nboff), Pow2(r));
    Pow2Add(nboff, r);
  }

  lemma FieldsBelow(h: nat, t: nat, p: nat, q: nat)
    requires h < p && t < q
    ensures h * q + t < p * q
  {
    ScaledAtLeast(p, h + 1, q);
  }

  lemma {:induction false} OctetsOfWord(w: nat, k: nat)
    ensures Bits(BeBytes(w, k)) == ToBits(w, 8 * k)
  {
    hide ToBits, Bits;
    if k == 0 {
      NoBitsAtAll(w);
    } else {
      OctetsOfWord(w / 0x100, k - 1);
      BitsConcat(BeBytes(w / 0x100, k - 1), [w % 0x100]);
      ShrLowIsDivMod(w, 8);
      WidthFacts();
      ToBitsSplit(w, 8 * (k - 1), 8);
      ToBitsOfLow(w, 8);
      BitsOfOne(w % 0x100);
    }
  }

  lemma NoBitsAtAll(w: nat)
    ensures Bits([]) == [] == ToBits(w, 0)
  {}

  lemma BitsOfOne(b: u8)
    ensures Bits([b]) == ToBits(b, 8)
  {
    ByteOfBits([b], 0);
  }

  lemma ShiftedWord(v: nat, nboff: nat, obits: nat, m: nat)
    requires 1 <= m && v < Pow2(obits) && nboff <= 8 && nboff + obits <= 8 * m
    ensures Shl(v, 8 * m - (nboff + obits)) < Pow2(8 - nboff + 8 * (m - 1))
  {
    hide Shl, Pow2;
    var k := 8 * m - (nboff + obits);
    ShlIsProduct(v, k);
    Pow2Add(obits, k);
    FieldsBelow(v, 0, Pow2(obits), Pow2(k));
    assert obits + k == 8 - nboff + 8 * (m - 1);
  }

  /** Merging the `obits` bits of `v` behind the first `nboff` bits of an octet, over `m` octets. */
  function Octets(b: u8, nboff: nat, v: nat, obits: nat, m: nat): (s: seq<u8>)
    requires 1 <= m && v < Pow2(obits) && nboff <= 8 && nboff + obits <= 8 * m
    ensures |s| == m
  {
    var w := Shl(v, 8 * m - (nboff + obits));
    ShiftedWord(v, nboff, obits, m);
    MergedBits(b, nboff, w, 8 * (m - 1));
    [Merged(b, nboff, w, 8 * (m - 1))] + BeBytes(w, m - 1)
  }

  lemma MergedOctets(b: u8, nboff: nat, v: nat, obits: nat, m: nat)
    requires 1 <= m && v < Pow2(obits) && nboff <= 8 && nboff + obits <= 8 * m
    ensures Bits(Octets(b, nboff, v, obits, m))[..nboff + obits] == ToBits(b, 8)[..nboff] + ToBits(v, obits)
  {
    hide Shl, Shr, Pow2, ToBits, Bits, Merged;
    var k := 8 * m - (nboff + obits);
    var w, q := Shl(v, k), 8 * (m - 1);
    ShiftedWord(v, nboff, obits, m);
    MergedBits(b, nboff, w, q);
    var head: u8 := Merged(b, nboff, w, q);
    BitsConcat([head], BeBytes(w, m - 1));
    BitsOfOne(head);
    OctetsOfWord(w, m - 1);
    ShiftedFields(v, w, nboff, obits, m);
    var top := ToBits(b, 8)[..nboff];
    ConcatAssoc(top, ToBits(Shr(w, q), 8 - nboff), ToBits(w, q), []);
    assert Bits(Octets(b, nboff, v, obits, m)) == top + (ToBits(v, obits) + ToBits(0, k));
  }

  lemma ShiftedFields(v: nat, w: nat, nboff: nat, obits: nat, m: nat)
    requires 1 <= m && nboff <= 8 && nboff + obits <= 8 * m && w == Shl(v, 8 * m - (nboff + obits))
    ensures ToBits(Shr(w, 8 * (m - 1)), 8 - nboff) + ToBits(w, 8 * (m - 1))
         == ToBits(v, obits) + ToBits(0, 8 * m - (nboff + obits))
  {
    hide Shl, Shr, Pow2, ToBits;
    var k := 8 * m - (nboff + obits);
    ToBitsSplit(w, 8 - nboff, 8 * (m - 1));
    ToBitsFields(v, 0, obits, k);
    assert 8 - nboff + 8 * (m - 1) == obits + k;
  }

  lemma {:induction false} OctetOfWord(w: nat, q: nat, i: nat)
    requires i < q
    ensures BeBytes(w, q)[i] == Shr(w, 8 * (q - 1 - i)) % 0x100
  {
    hide Shr;
    if i == q - 1 {
      ShrZero(w);
    } else {
      OctetOfWord(w / 0x100, q - 1, i);
      ShrLowIsDivMod(w, 8);
      assert Pow2(8) == 0x100;
      ShrAdd(w, 8, 8 * (q - 2 - i));
    }
  }

  /** The octets of a merge, as the code computes them on 32 bits. */
  lemma MergesAreOctets(b: u8, nboff: nat, v: nat, obits: nat, m: nat)
    requires 1 <= m <= 4 && v < Pow2(obits) && nboff <= 8 && nboff + obits <= 8 * m
    ensures var w := Shl32(v, 8 * m - (nboff + obits));
      var s := Octets(b, nboff, v, obits, m);
      && Merged(b, nboff, w, 8 * (m - 1)) == s[0]
      && forall k :: 1 <= k < m ==> Shr(w, 8 * (m - 1 - k)) % 0x100 == s[k]
  {
    hide Shl, Shr, Pow2, Low, Merged;
    var k := 8 * m - (nboff + obits);
    ShiftedWord(v, nboff, obits, m);
    Pow2Monotone(8 - nboff + 8 * (m - 1), 32);
    LowSmall(Shl(v, k), 32);
    forall i | 1 <= i < m
      ensures Shr(Shl(v, k), 8 * (m - 1 - i)) % 0x100 == Octets(b, nboff, v, obits, m)[i]
    {
      OctetOfWord(Shl(v, k), m - 1, i - 1);
    }
  }

  /** The same inside a longer byte string, from byte `j` on. */
  lemma MergedInPlace(all: seq<u8>, next: seq<u8>, j: nat, nboff: nat, v: nat, obits: nat, m: nat)
    requires 1 <= m && v < Pow2(obits) && nboff <= 8 && nboff + obits <= 8 * m && j + m <= |all|
    requires next == all[..j] + Octets(all[j], nboff, v, obits, m) + all[j + m..]
    ensures Bits(next)[..8 * j + nboff + obits] == Bits(all)[..8 * j + nboff] + ToBits(v, obits)
  {
    hide Shl, Pow2, ToBits, Bits, Octets;
    MergedOctets(all[j], nboff, v, obits, m);
    var s := Octets(all[j], nboff, v, obits, m);
    BitsConcat(all[..j] + s, all[j + m..]);
    BitsConcat(all[..j], s);
    BitsPrefix(all, j);
    ByteOfBits(all, j);
    assert Bits(next)[..8 * j + nboff + obits] == Bits(all)[..8 * j] + Bits(s)[..nboff + obits];
    assert Bits(all)[..8 * j + nboff] == Bits(all)[..8 * j] + Bits(all)[8 * j..8 * j + 8][..nboff];
  }

  /** Shifting and masking `m` octets leaves the bits from `nboff` on. */
  lemma ShiftedOut(bytes: seq<u8>, j: nat, nboff: nat, n: nat, m: nat)
    requires j + m <= |bytes| && nboff + n <= 8 * m
    ensures And(Shr(BytesValue(bytes, j, m), 8 * m - (nboff + n)), Pow2(n) - 1)
         == FromBits(Bits(bytes)[8 * j + nboff..8 * j + nboff + n])
  {
    hide And, Shr, Low, Pow2, FromBits, Bits, BytesValue;
    var off := nboff + n;
    var s := Bits(bytes)[8 * j..8 * (j + m)];
    BytesValueIsBits(bytes, j, m);
    assert s == s[..off] + s[off..];
    FromBitsShifted(s[..off], s[off..]);
    var t := Bits(bytes)[8 * j + nboff..8 * j + nboff + n];
    assert s[..off] == s[..nboff] + t;
    FromBitsShifted(s[..nboff], t);
    AndLowMask(FromBits(s[..off]), n);
  }

  /** Only the octets that hold the first `n` bits matter. */
  lemma SameOctets(a: seq<u8>, b: seq<u8>, n: nat)
    requires n <= 8 * |a| && n <= 8 * |b|
    requires forall i :: 0 <= i < (n + 7) / 8 ==> a[i] == b[i]
    ensures Bits(a)[..n] == Bits(b)[..n]
  {
    hide ToBits;
  }
}
