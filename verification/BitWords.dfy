/** Words of 32 bits and bytes as bit strings, first bit first, and what the operators of C do
    to them. */
module BitWords {
  import opened Words

  function ByteValue(b: seq<bool>): u8
    requires |b| == 8
  {
    FromBitsBound(b);
    WidthFacts();
    FromBits(b)
  }

  function WordOf(b: seq<bool>): u32
    requires |b| == 32
  {
    FromBitsBound(b);
    WidthFacts();
    FromBits(b)
  }

  /** Addition modulo 2^32. */
  function Plus(a: seq<bool>, b: seq<bool>): (r: seq<bool>)
    ensures |r| == 32
  {
    ToBits((FromBits(a) + FromBits(b)) % TWO_32, 32)
  }

  lemma WordRoundTrip(w: u32)
    ensures FromBits(ToBits(w, 32)) == w
  {
    hide ToBits, FromBits, Low;
    FromToBits(w, 32);
    WidthFacts();
    LowSmall(w, 32);
  }

  lemma XorIsXorBits(a: u32, b: u32)
    ensures ToBits(Xor32(a, b), 32) == XorBits(ToBits(a, 32), ToBits(b, 32))
  {
    hide ToBits, Xor;
    ToBitsXor(a, b, 32);
  }

  lemma PlusIsAdd(a: u32, b: u32)
    ensures ToBits(Add32(a, b), 32) == Plus(ToBits(a, 32), ToBits(b, 32))
  {
    hide ToBits, FromBits;
    WordRoundTrip(a);
    WordRoundTrip(b);
  }

  /** Byte `i` of a word, shifted and masked out. */
  lemma ByteOfWord(u: u32, i: nat)
    requires i < 4
    ensures And(Shr(u, 24 - 8 * i), 0xff) == FromBits(ToBits(u, 32)[8 * i..8 * i + 8])
  {
    hide ToBits, FromBits, And, Shr, Low;
    var w, k := Shr(u, 24 - 8 * i), 24 - 8 * i;
    WidthFacts();
    AndLowMask(w, 8);
    ToBitsPrefix(u, 8 * i + 8, k);
    ToBitsSuffix(w, 8 * i, 8);
    FromToBits(w, 8);
    assert ToBits(u, 32)[8 * i..8 * i + 8] == ToBits(u, 32)[..8 * i + 8][8 * i..];
  }

  lemma SameWord(x: u32, y: u32)
    requires ToBits(x, 32) == ToBits(y, 32)
    ensures x == y
  {
    WidthFacts();
    BitsDetermine(x, y, 32);
  }

  lemma OctetsDetermine(a: u8, b: u8)
    ensures ToBits(a, 8) == ToBits(b, 8) <==> a == b
  {
    hide ToBits;
    WidthFacts();
    if ToBits(a, 8) == ToBits(b, 8) {
      BitsDetermine(a, b, 8);
    }
  }

  lemma SameByte(s: seq<bool>, t: seq<bool>)
    requires |s| == |t| == 8 && ByteValue(s) == ByteValue(t)
    ensures s == t
  {
    ToFromBits(s);
    ToFromBits(t);
  }

  lemma XorOfOctets(a: u8, b: u8)
    ensures ToBits(XorOctets(a, b), 8) == XorBits(ToBits(a, 8), ToBits(b, 8))
  {
    hide ToBits, Xor;
    ToBitsXor(a, b, 8);
  }

  lemma OctetRoundTrip(b: u8)
    ensures ByteValue(ToBits(b, 8)) == b
  {
    hide ToBits, FromBits, Low;
    FromToBits(b, 8);
    WidthFacts();
    LowSmall(b, 8);
  }

  lemma OctetAppended(h: nat, l: u8, n: nat)
    ensures ToBits(h * 0x100 + l, n + 8) == ToBits(h, n) + ToBits(l, 8)
  {
    hide ToBits, Shl;
    assert Pow2(8) == 0x100;
    ShlIsProduct(h, 8);
    ToBitsFields(h, l, n, 8);
  }

  /** Four bytes side by side. */
  lemma Bytes4Bits(a: u8, b: u8, c: u8, d: u8)
    ensures ToBits(Bytes4(a, b, c, d), 32) == ToBits(a, 8) + ToBits(b, 8) + ToBits(c, 8) + ToBits(d, 8)
  {
    hide ToBits;
    OctetAppended(a, b, 8);
    OctetAppended(a * 0x100 + b, c, 16);
    OctetAppended((a * 0x100 + b) * 0x100 + c, d, 24);
  }

  lemma SmallShift(a: u8, k: nat)
    requires k <= 24
    ensures Shl32(a, k) == Shl(a, k)
  {
    hide Shl, Low, Pow2;
    WidthFacts();
    Pow2Monotone(k, 24);
    ShlIsProduct(a, k);
    ScaledAtLeast(0xff, a, Pow2(k));
    LowSmall(Shl(a, k), 32);
  }

  lemma OctetsFromBits(a: seq<u8>, b: seq<u8>)
    requires |a| == |b| && Bits(a) == Bits(b)
    ensures a == b
  {
    hide Bits, ToBits;
    forall i | 0 <= i < |a|
      ensures a[i] == b[i]
    {
      ByteOfBits(a, i);
      ByteOfBits(b, i);
      WidthFacts();
      BitsDetermine(a[i], b[i], 8);
    }
  }
}
