/** The bit streams of the packed encoding rules: an output that packs bits into a buffer of
    32 octets and hands them over when it is full, and an input over a byte string. */
module BitStream {
  import opened Packing
  import opened Words

  /** Zero bits up to the next octet boundary from bit position `at`. */
  function Padding(at: nat): (s: seq<bool>)
    ensures (at + |s|) % 8 == 0 && |s| < 8
  {
    Zeros((8 - at % 8) % 8)
  }

  lemma PaddingFills(k: nat, at: nat)
    ensures |Padding(8 * k + at)| == if at % 8 == 0 then 0 else 8 - at % 8
  {}

  /** Zero bits that fill the last octet. */
  function Padded(s: seq<bool>): (p: seq<bool>)
    ensures |p| % 8 == 0 && |p| / 8 == (|s| + 7) / 8
    ensures p == s + Padding(|s|) && p[..|s|] == s
  {
    s + Padding(|s|)
  }

  class BitOut {
    const tmpspace: array<u8>
    // the place of `buffer` in `tmpspace`, the bits used and the bits left from there
    var buffer: nat
    var nboff: nat
    var nbits: nat
    // the octets handed to the output callback
    var output: seq<u8>
    ghost var bits: seq<bool>

    constructor ()
      ensures Valid() && fresh(tmpspace) && bits == []
    {
      tmpspace := new u8[32];
      buffer, nboff, nbits := 0, 0, 256;
      output, bits := [], [];
    }

    /** The octets handed over and those at hand hold exactly `bits`. */
    ghost predicate Valid()
      reads this, tmpspace
    {
      && tmpspace.Length == 32 && nbits + 8 * buffer == 256 && nboff <= nbits
      && |bits| == 8 * (|output| + buffer) + nboff
      && bits == Bits(output + tmpspace[..])[..|bits|]
    }

    /** `asn_put_few_bits`: the low `n` bits of `value`, for n up to 31. */
    method PutFewBits(value: nat, n: int) returns (failed: bool)
      requires Valid()
      modifies this, tmpspace
      ensures Valid()
      ensures failed == (n < 0 || n > 31)
      ensures bits == if failed then old(bits) else old(bits) + ToBits(value, n)
      decreases n
    {
      hide Bits, ToBits, Pow2, And, Low, Shr;
      if n <= 0 || n >= 32 {
        NoBitsAtAll(value);
        return n != 0;
      }
      failed := false;
      Normalize();
      if nboff + n > nbits {
        Flush();
      }
      var off := nboff + n;
      AndLowMask(value, n);
      Split(value, n);
      ToBitsOfLow(value, n);
      var v := And(value, Pow2(n) - 1);
      if off <= 8 {
        Merge(v, n, 1);
      } else if off <= 16 {
        Merge(v, n, 2);
      } else if off <= 24 {
        Merge(v, n, 3);
      } else if off <= 31 {
        Merge(v, n, 4);
      } else {
        ghost var was := bits;
        ToBitsSplit(v, 24, n - 24);
        var _ := PutFewBits(Shr(v, n - 24), 24);
        var _ := PutFewBits(v, n - 24);
        ConcatAssoc(was, ToBits(Shr(v, n - 24), 24), ToBits(v, n - 24), []);
      }
    }

    // Makes `buffer` the octet of the next bit.
    method Normalize()
      requires Valid()
      modifies `buffer, `nboff, `nbits
      ensures Valid() && nboff < 8
    {
      if nboff >= 8 {
        buffer := buffer + nboff / 8;
        nbits := nbits - nboff / 8 * 8;
        nboff := nboff % 8;
      }
    }

    // Hands the whole octets over, and moves the one begun to the front.
    method Flush()
      requires Valid() && nboff < 8 && (nboff > 0 ==> buffer < 32)
      modifies this, tmpspace
      ensures Valid() && bits == old(bits) && buffer == 0 && nboff == old(nboff)
    {
      hide Bits;
      ghost var all := output + tmpspace[..];
      output := output + tmpspace[..buffer];
      if nboff > 0 {
        tmpspace[0] := tmpspace[buffer];
      }
      buffer := 0;
      nbits := 256;
      SameOctets(all, output + tmpspace[..], |bits|);
    }

    // Merges the low `n` bits of `v` into `m` octets.
    method Merge(v: nat, n: nat, m: nat)
      requires Valid() && nboff < 8 && nboff + n <= nbits && v < Pow2(n)
      requires 1 <= m <= 4 && 8 * (m - 1) < nboff + n <= 8 * m
      modifies this, tmpspace
      ensures Valid() && bits == old(bits) + ToBits(v, n)
    {
      hide Bits, ToBits, Pow2, Octets;
      ghost var all, j, o := output + tmpspace[..], |output| + buffer, nboff;
      ghost var octets := Octets(tmpspace[buffer], o, v, n, m);
      StoreOctets(v, n, m);
      assert output + tmpspace[..] == all[..j] + octets + all[j + m..];
      MergedInPlace(all, output + tmpspace[..], j, o, v, n, m);
      nboff := nboff + n;
      bits := bits + ToBits(v, n);
    }

    // The stores into `m` octets from `buffer` on.
    method StoreOctets(v: nat, n: nat, m: nat)
      requires tmpspace.Length == 32 && nboff < 8 && v < Pow2(n)
      requires 1 <= m <= 4 && nboff + n <= 8 * m && buffer + m <= 32
      modifies tmpspace
      ensures tmpspace[..]
           == old(tmpspace[..buffer] + Octets(tmpspace[buffer], nboff, v, n, m) + tmpspace[buffer + m..])
    {
      hide Pow2, Shl, Shr, Low, Merged, Octets;
      var at, off := buffer, nboff + n;
      ghost var was := tmpspace[..];
      ghost var octets := Octets(tmpspace[at], nboff, v, n, m);
      MergesAreOctets(tmpspace[at], nboff, v, n, m);
      var w := Shl32(v, 8 * m - off);
      var first := Merged(tmpspace[at], nboff, w, 8 * (m - 1));
      tmpspace[at] := first;
      for k := 1 to m
        modifies tmpspace
        invariant tmpspace[..at + k] == was[..at] + octets[..k] && tmpspace[at + k..] == was[at + k..]
      {
        tmpspace[at + k] := Shr(w, 8 * (m - 1 - k)) % 0x100;
        assert tmpspace[..at + k + 1] == tmpspace[..at + k] + [tmpspace[at + k]];
      }
      assert tmpspace[..] == tmpspace[..at + m] + tmpspace[at + m..];
    }

    /** `asn_put_aligned_flush`: everything is handed over, the last octet filled with zeros. */
    method AlignedFlush()
      requires Valid()
      modifies this, tmpspace
      ensures Valid() && bits == Padded(old(bits)) && Bits(output) == bits
    {
      hide Bits, Padded;
      ClearUnused();
      var complete := buffer + (nboff + 7) / 8;
      ghost var next, n := output + tmpspace[..], |output| + complete;
      BitsPrefix(next, n);
      assert next[..n] == output + tmpspace[..complete];
      bits := Padded(bits);
      output := output + tmpspace[..complete];
      buffer := 0;
      nboff := 0;
      nbits := 256;
      BitsPrefix(output + tmpspace[..], |output|);
      assert (output + tmpspace[..])[..|output|] == output;
    }

    // Zeros in the unused bits of the last octet.
    method ClearUnused()
      requires Valid()
      modifies tmpspace
      ensures Valid() && 8 * (|output| + buffer + (nboff + 7) / 8) == |Padded(bits)|
      ensures Bits(output + tmpspace[..])[..|Padded(bits)|] == Padded(bits)
    {
      hide Bits, Padded;
      ghost var all := output + tmpspace[..];
      var unused := (8 - nboff % 8) % 8;
      UnusedCount(|output| + buffer, nboff);
      if unused != 0 {
        ClearLow(buffer + nboff / 8, unused);
      }
      FilledOctets(all, output + tmpspace[..], bits, |output| + buffer, nboff);
    }

    method ClearLow(at: nat, unused: nat)
      requires at < tmpspace.Length && 0 < unused < 8
      modifies tmpspace
      ensures var i := |output| + at;
        Bits(output + tmpspace[..])[..8 * i + 8]
          == old(Bits(output + tmpspace[..]))[..8 * i + 8 - unused] + Zeros(unused)
    {
      hide Bits, Pow2, And;
      ghost var all := output + tmpspace[..];
      OctetFits(tmpspace[at], 32);
      Pow2Monotone(unused, 32);
      WidthFacts();
      ClearedOctet(all, |output| + at, unused);
      tmpspace[at] := And(tmpspace[at], TWO_32 - Pow2(unused));
      assert output + tmpspace[..] == all[|output| + at := tmpspace[at]];
    }

    /** `aper_put_align`. */
    method PutAlign()
      requires Valid()
      modifies this, tmpspace
      ensures Valid()
      ensures bits == old(bits) + Padding(|old(bits)|)
    {
      assert |bits| == 8 * (|output| + buffer) + nboff;
      PaddingFills(|output| + buffer, nboff);
      hide ToBits, Bits, Valid, Padding;
      ghost var was := bits;
      if nboff % 8 != 0 {
        var n := 8 - nboff % 8;
        ToBitsOfZero(n);
        var _ := PutFewBits(0, n);
      } else {
        assert was + Padding(|was|) == was;
      }
    }

    /** `per_put_many_bits`: the first `n` bits of a byte string, 24 at a time. */
    method PutManyBits(src: seq<u8>, n: nat)
      requires Valid() && n <= 8 * |src|
      modifies this, tmpspace
      ensures Valid()
      ensures bits == old(bits) + Bits(src)[..n]
    {
      hide Valid, Bits, ToBits, BytesValue, Or, Shl, Shr;
      ghost var start, all := bits, Bits(src);
      var p: nat, left: nat := 0, n;
      assert start + all[..0] == start;
      while left != 0
        invariant Valid() && 8 * p + left == n && bits == start + all[..8 * p]
      {
        if left >= 24 {
          var value := Or(Or(Shl(src[p], 16), Shl(src[p + 1], 8)), src[p + 2]);
          ThreeOctets(src, p);
          LeadingBits(src, p, 3, 24);
          ShrZero(value);
          var _ := PutFewBits(value, 24);
          NextBits(start, all, 8 * p, 8 * p + 24);
          p := p + 3;
          left := left - 24;
        } else {
          PutTail(src, p, left);
          NextBits(start, all, 8 * p, n);
          break;
        }
      }
    }

    // The last turn of that loop, for fewer than 24 bits.
    method PutTail(src: seq<u8>, p: nat, count: nat)
      requires Valid() && 0 < count < 24 && 8 * p + count <= 8 * |src|
      modifies this, tmpspace
      ensures Valid()
      ensures bits == old(bits) + Bits(src)[8 * p..8 * p + count]
    {
      hide Valid, Bits, ToBits, BytesValue, Or, Shl, Shr;
      var value: nat := src[p];
      FirstOctet(src, p);
      if count > 8 {
        value := Or(Shl(value, 8), src[p + 1]);
        OneMoreOctet(src, p, 1);
      }
      if count > 16 {
        value := Or(Shl(value, 8), src[p + 2]);
        OneMoreOctet(src, p, 2);
      }
      ShrZero(value);
      LeadingBits(src, p, (count + 7) / 8, count);
      if count % 8 != 0 {
        value := Shr(value, 8 - count % 8);
      }
      var _ := PutFewBits(value, count);
    }
  }

  lemma NextBits(start: seq<bool>, all: seq<bool>, i: nat, j: nat)
    requires i <= j <= |all|
    ensures start + all[..i] + all[i..j] == start + all[..j]
  {
    assert all[..i] + all[i..j] == all[..j];
    ConcatAssoc(start, all[..i], all[i..j], []);
  }

  lemma FirstOctet(src: seq<u8>, p: nat)
    requires p < |src|
    ensures BytesValue(src, p, 1) == src[p]
  {
    assert BytesValue(src, p, 1) == BytesValue(src, p, 0) * 0x100 + src[p];
  }

  lemma OneMoreOctet(src: seq<u8>, p: nat, k: nat)
    requires p + k < |src|
    ensures Or(Shl(BytesValue(src, p, k), 8), src[p + k]) == BytesValue(src, p, k + 1)
  {
    hide Or, Shl;
    assert Pow2(8) == 0x100;
    Disjoint(BytesValue(src, p, k), src[p + k], 8);
    ShlIsProduct(BytesValue(src, p, k), 8);
  }

  lemma ThreeOctets(src: seq<u8>, p: nat)
    requires p + 3 <= |src|
    ensures Or(Or(Shl(src[p], 16), Shl(src[p + 1], 8)), src[p + 2]) == BytesValue(src, p, 3)
  {
    hide Or, Shl;
    assert Pow2(8) == 0x100;
    FirstOctet(src, p);
    OrFields(src[p], src[p + 1], 8, 8);
    OneMoreOctet(src, p, 2);
    ShlIsProduct(src[p], 8);
    assert BytesValue(src, p, 2) == BytesValue(src, p, 1) * 0x100 + src[p + 1];
  }

  /** The first `n` bits of `k` octets, from their value. */
  lemma LeadingBits(src: seq<u8>, p: nat, k: nat, n: nat)
    requires p + k <= |src| && n <= 8 * k
    ensures ToBits(Shr(BytesValue(src, p, k), 8 * k - n), n) == Bits(src)[8 * p..8 * p + n]
  {
    hide Bits, ToBits, FromBits, Shr;
    var s := Bits(src)[8 * p..8 * (p + k)];
    BytesValueIsBits(src, p, k);
    ToFromBits(s);
    ToBitsPrefix(FromBits(s), n, 8 * k - n);
    assert s[..n] == Bits(src)[8 * p..8 * p + n];
  }

  lemma NothingIsZero()
    ensures FromBits([]) == 0
  {}

  lemma ShiftIn(s: seq<bool>, t: seq<bool>)
    ensures Or(Shl(FromBits(s), |t|), FromBits(t)) == FromBits(s + t)
  {
    hide FromBits, Or, Shl, Pow2;
    FromBitsConcat(s, t);
    FromBitsBound(t);
    Disjoint(FromBits(s), FromBits(t), |t|);
  }

  /** Clearing the unused low bits of an octet makes them zeros and keeps the others. */
  lemma ClearedOctet(all: seq<u8>, i: nat, unused: nat)
    requires i < |all| && 0 < unused < 8
    ensures Pow2(32) >= Pow2(unused) && And(all[i], Pow2(32) - Pow2(unused)) < 0x100
    ensures var next := all[i := And(all[i], Pow2(32) - Pow2(unused))];
      var n := 8 * i + 8 - unused;
      Bits(next)[..8 * i + 8] == Bits(all)[..n] + Zeros(unused)
  {
    hide Bits, ToBits, Pow2, And, Shr, Shl;
    OctetFits(all[i], 32);
    KeepTop(all[i], unused, 32);
    var h := Shr(all[i], unused);
    WidthFacts();
    TopSmall(all[i], 8 - unused, unused);
    FieldsBelow(h, 0, Pow2(8 - unused), Pow2(unused));
    Pow2Add(8 - unused, unused);
    ShlIsProduct(h, unused);
    var next := all[i := And(all[i], Pow2(32) - Pow2(unused))];
    ByteOfBits(all, i);
    ByteOfBits(next, i);
    ToBitsFields(h, 0, 8 - unused, unused);
    ToBitsPrefix(all[i], 8 - unused, unused);
    ToBitsOfZero(unused);
    SameOctets(all, next, 8 * i);
    var n := 8 * i + 8 - unused;
    assert Bits(all)[..n] == Bits(all)[..8 * i] + Bits(all)[8 * i..8 * i + 8][..8 - unused];
    assert Bits(next)[..8 * i + 8] == Bits(next)[..8 * i] + Bits(next)[8 * i..8 * i + 8];
  }

  lemma UnusedCount(o: nat, k: nat)
    ensures (8 - k % 8) % 8 == if k % 8 == 0 then 0 else 8 - k % 8
    ensures (k + 7) / 8 == k / 8 + (if k % 8 == 0 then 0 else 1)
    ensures (8 * o + k) / 8 == o + k / 8 && (8 * o + k) % 8 == k % 8
  {}

  lemma PrefixOfPrefix(all: seq<bool>, s: seq<bool>, p: seq<bool>)
    requires |s| <= |p| <= |all| && all[..|p|] == p && p[..|s|] == s
    ensures all[..|s|] == s
  {
    assert all[..|p|][..|s|] == all[..|s|];
  }

  lemma FilledOctets(all: seq<u8>, next: seq<u8>, s: seq<bool>, o: nat, k: nat)
    requires |s| == 8 * o + k <= 8 * |all| && |all| == |next| && s == Bits(all)[..|s|]
    requires k % 8 == 0 ==> all == next
    requires k % 8 != 0 ==> o + k / 8 < |all|
    requires k % 8 != 0 ==>
      Bits(next)[..8 * (o + k / 8) + 8] == Bits(all)[..8 * (o + k / 8) + 8 - (8 - k % 8)] + Zeros(8 - k % 8)
    ensures |Padded(s)| == 8 * (o + (k + 7) / 8) <= 8 * |next|
    ensures Bits(next)[..|Padded(s)|] == Padded(s) && Bits(next)[..|s|] == s
  {
    hide Bits;
    UnusedCount(o, k);
    if k % 8 == 0 {
      assert s + [] == s;
    }
    PrefixOfPrefix(Bits(next), s, Padded(s));
  }

  class BitIn {
    const bytes: seq<u8>
    // the place of `buffer` in `bytes`, the bits consumed and the bits there are from there
    var buffer: nat
    var nboff: nat
    var nbits: nat
    ghost const data: seq<bool>
    ghost var pos: nat

    /** `asn_bit_data_new_contiguous`: the first `size` bits of a byte string. */
    constructor (bytes: seq<u8>, size: nat)
      requires size <= 8 * |bytes|
      ensures Valid() && data == Bits(bytes)[..size] && pos == 0
    {
      this.bytes := bytes;
      buffer, nboff, nbits := 0, 0, size;
      data, pos := Bits(bytes)[..size], 0;
    }

    // The same place of the same bits.
    constructor At(bytes: seq<u8>, buffer: nat, nboff: nat, nbits: nat)
      requires nboff <= nbits && 8 * buffer + nbits <= 8 * |bytes|
      ensures Valid() && data == Bits(bytes)[..8 * buffer + nbits] && pos == 8 * buffer + nboff
    {
      this.bytes := bytes;
      this.buffer, this.nboff, this.nbits := buffer, nboff, nbits;
      data, pos := Bits(bytes)[..8 * buffer + nbits], 8 * buffer + nboff;
    }

    ghost predicate Valid()
      reads this
    {
      && 8 * buffer + nbits == |data| <= 8 * |bytes| && data == Bits(bytes)[..|data|]
      && 8 * buffer + nboff == pos && nboff <= nbits
    }

    /** `asn_get_few_bits`: the next `n` bits as a number, or -1. */
    method GetFewBits(n: int) returns (value: int)
      requires Valid()
      modifies this
      ensures Valid() && pos <= |data|
      ensures if 0 <= n <= 31 && old(pos) + n <= |data|
              then value == FromBits(data[old(pos)..old(pos) + n]) && pos == old(pos) + n
              else value == -1 && pos == old(pos)
      decreases n, 1
    {
      hide Bits, FromBits, Pow2, And, Shr, BytesValue, Or, Shl;
      if n < 0 || n > nbits - nboff {
        return -1;
      }
      Normalize();
      if n == 0 {
        NothingIsZero();
        assert data[pos..pos] == [];
        return 0;
      }
      var off := nboff + n;
      if off > 31 {
        value := GetWide(n);
        return;
      }
      nboff := off;
      pos := pos + n;
      if off <= 8 {
        value := Extract(off, n, 1);
      } else if off <= 16 {
        value := Extract(off, n, 2);
      } else if off <= 24 {
        value := Extract(off, n, 3);
      } else {
        value := Extract(off, n, 4);
      }
    }

    // Makes `buffer` the octet of the next bit.
    method Normalize()
      requires Valid()
      modifies `buffer, `nboff, `nbits
      ensures Valid() && nboff < 8
    {
      if nboff >= 8 {
        buffer := buffer + nboff / 8;
        nbits := nbits - nboff / 8 * 8;
        nboff := nboff % 8;
      }
    }

    // Bits that spread over five octets are read in two parts, from a copy of this input.
    method GetWide(n: nat) returns (value: int)
      requires Valid() && nboff < 8 && nboff + n > 31 && nboff + n <= nbits
      modifies this
      ensures Valid()
      ensures if n <= 31 then value == FromBits(data[old(pos)..old(pos) + n]) && pos == old(pos) + n
              else value == -1 && pos == old(pos)
      decreases n, 0
    {
      hide Bits, FromBits, Or, Shl;
      if n > 31 {
        return -1;
      }
      var tpd := new BitIn.At(bytes, buffer, nboff, nbits);
      ghost var p := pos;
      var high := tpd.GetFewBits(n - 24);
      var low := tpd.GetFewBits(24);
      ShiftIn(data[p..p + n - 24], data[p + n - 24..p + n]);
      assert data[p..p + n] == data[p..p + n - 24] + data[p + n - 24..p + n];
      nboff := nboff + n;
      pos := pos + n;
      value := Or(Shl(high, 24), low);
    }

    // Shifts and masks the last `n` of the first `off` bits out of `m` octets.
    method Extract(off: nat, n: nat, m: nat) returns (accum: nat)
      requires Valid() && off == nboff && n <= off <= 8 * m && 8 * (m - 1) < off && m >= 1
      ensures accum == FromBits(data[pos - n..pos])
    {
      hide Bits, FromBits, Pow2, And, Shr, BytesValue;
      ShiftedOut(bytes, buffer, off - n, n, m);
      assert data[pos - n..pos] == Bits(bytes)[pos - n..pos];
      accum := And(Shr(BytesValue(bytes, buffer, m), 8 * m - off), Pow2(n) - 1);
    }

    lemma PlaceInOctet()
      requires Valid()
      ensures pos <= |data| && |Padding(pos)| == (if nboff % 8 == 0 then 0 else 8 - nboff % 8)
    {
      assert pos == 8 * buffer + nboff by {
        hide Bits;
      }
      hide Valid;
      PaddingFills(buffer, nboff);
    }

    /** `aper_get_align`: the skipped bits as a number, 0 if there are none, or -1. */
    method GetAlign() returns (value: int)
      requires Valid()
      modifies this
      ensures Valid()
      ensures var n := |Padding(old(pos))|;
        if old(pos) + n <= |data|
        then value == FromBits(data[old(pos)..old(pos) + n]) && pos == old(pos) + n
        else value == -1 && pos == old(pos)
    {
      PlaceInOctet();
      hide FromBits, Bits, Valid, Padding;
      var skip := nboff % 8;
      assert data[pos..pos] == [];
      NothingIsZero();
      if skip != 0 {
        value := GetFewBits(8 - skip);
      } else {
        value := 0;
      }
    }

    /** `asn_get_many_bits`: the next `n` bits as bytes, zero-padded on the right, or, if
        `alright`, on the left; or -1. */
    method GetManyBits(alright: bool, n: nat) returns (ok: bool, dst: seq<u8>)
      requires Valid()
      modifies this
      ensures Valid() && pos <= |data|
      ensures ok == (old(pos) + n <= |data|)
      ensures ok ==> pos == old(pos) + n
      ensures ok && alright && n % 8 != 0 ==>
        dst == BytesRight(data, old(pos), n % 8) + BytesBetween(data, old(pos) + n % 8, pos)
      ensures ok && !(alright && n % 8 != 0) ==> dst == BytesBetween(data, old(pos), pos)
    {
      assert pos <= |data|;
      hide Valid, BytesBetween;
      var nbits := n;
      dst := [];
      if alright && nbits % 8 != 0 {
        ghost var p := pos;
        var value := GetFewBits(nbits % 8);
        if value < 0 {
          return false, [];
        }
        RightIsByte(data, p, nbits % 8);
        dst := [value];
        nbits := nbits - nbits % 8;
      }
      var rest: seq<u8>;
      ok, rest := GetLeft(nbits);
      assert [] + rest == rest;
      dst := dst + rest;
    }

    // The bits as bytes, 24 at a time.
    method GetLeft(n: nat) returns (ok: bool, dst: seq<u8>)
      requires Valid()
      modifies this
      ensures Valid() && pos <= |data|
      ensures ok == (old(pos) + n <= |data|)
      ensures ok ==> pos == old(pos) + n && dst == BytesBetween(data, old(pos), pos)
    {
      assert pos <= |data|;
      hide Valid, BytesBetween;
      ghost var start := pos;
      ok, dst := true, [];
      var left: nat := n;
      NoBytesYet(data, start);
      while ok && left != 0
        invariant Valid() && pos <= |data|
        invariant ok ==> start <= pos && pos + left == start + n && Whole(left, n)
        invariant ok ==> dst == BytesBetween(data, start, pos)
        invariant !ok ==> start + n > |data|
        decreases ok, left
      {
        ok, dst, left := GetChunk(start, n, dst, left);
      }
    }

    // A turn of that loop.
    method GetChunk(ghost start: nat, ghost n: nat, was: seq<u8>, left: nat)
      returns (ok: bool, dst: seq<u8>, rest: nat)
      requires Valid() && start <= pos <= |data| && left > 0 && pos + left == start + n && Whole(left, n)
      requires was == BytesBetween(data, start, pos)
      modifies this
      ensures Valid() && pos <= |data| && rest < left
      ensures ok ==> start <= pos && pos + rest == start + n && Whole(rest, n) && dst == BytesBetween(data, start, pos)
      ensures !ok ==> start + n > |data|
    {
      hide Valid, BytesBetween;
      ghost var p := pos;
      var octets: seq<u8>;
      WholeStep(left, n);
      if left >= 24 {
        ok, octets := GetThree();
        rest := left - 24;
      } else {
        ok, octets := GetTail(left);
        rest := 0;
      }
      dst := was + octets;
      if ok {
        MoreBytes(data, start, p, pos);
      }
    }

    // Three whole octets.
    method GetThree() returns (ok: bool, octets: seq<u8>)
      requires Valid()
      modifies this
      ensures Valid() && pos <= |data|
      ensures ok == (old(pos) + 24 <= |data|)
      ensures ok ==> octets == BytesBetween(data, old(pos), old(pos) + 24) && pos == old(pos) + 24
    {
      hide BytesOf, FromBits, Shl;
      var value := GetFewBits(24);
      if value < 0 {
        return false, [];
      }
      OctetsOfChunk(data[old(pos)..pos], 24);
      octets := [value / 0x1_0000 % 0x100, value / 0x100 % 0x100, value % 0x100];
      ok := true;
    }

    // Fewer than 24 bits, the last of them.
    method GetTail(count: nat) returns (ok: bool, octets: seq<u8>)
      requires Valid() && 0 < count < 24
      modifies this
      ensures Valid() && pos <= |data|
      ensures ok == (old(pos) + count <= |data|)
      ensures ok ==> octets == BytesBetween(data, old(pos), old(pos) + count) && pos == old(pos) + count
    {
      hide BytesOf, FromBits, Shl;
      var value := GetFewBits(count);
      if value < 0 {
        return false, [];
      }
      OctetsOfChunk(data[old(pos)..pos], count);
      var width := count;
      if width % 8 != 0 {
        value := Shl(value, 8 - width % 8);
        width := width + (8 - width % 8);
      }
      octets := [];
      if width > 16 {
        octets := octets + [value / 0x1_0000 % 0x100];
      }
      if width > 8 {
        octets := octets + [value / 0x100 % 0x100];
      }
      octets := octets + [value % 0x100];
      ok := true;
    }
  }

  lemma NoBits()
    ensures BytesOf([]) == []
  {}

  /** The bytes of the bits from `i` up to `j`. */
  function BytesBetween(data: seq<bool>, i: nat, j: nat): seq<u8>
    requires i <= j <= |data|
  {
    BytesOf(data[i..j])
  }

  lemma NoBytesYet(data: seq<bool>, start: nat)
    requires start <= |data|
    ensures BytesBetween(data, start, start) == []
  {
    NoBits();
    assert data[start..start] == [];
  }

  /** Of `n` bits to read, whole octets have been, unless nothing is left. */
  predicate Whole(left: nat, n: nat) {
    left > 0 ==> left <= n && (n - left) % 8 == 0
  }

  lemma WholeStep(left: nat, n: nat)
    requires Whole(left, n) && left > 0
    ensures Whole(0, n) && (left >= 24 ==> Whole(left - 24, n))
  {
    if left > 24 {
      assert (n - (left - 24)) % 8 == (n - left) % 8;
    }
  }

  lemma MoreBytes(data: seq<bool>, start: nat, p: nat, end: nat)
    requires start <= p <= end <= |data| && (p - start) % 8 == 0
    ensures BytesBetween(data, start, end) == BytesBetween(data, start, p) + BytesBetween(data, p, end)
  {
    hide BytesOf;
    BytesOfConcat(data[start..p], data[p..end]);
    assert data[start..end] == data[start..p] + data[p..end];
  }

  /** Up to seven bits from `i` on as the low bits of one byte. */
  function BytesRight(data: seq<bool>, i: nat, n: nat): seq<u8>
    requires i + n <= |data| && n < 8
  {
    RightIsByte(data, i, n);
    [FromBits(data[i..i + n])]
  }

  lemma RightIsByte(data: seq<bool>, i: nat, n: nat)
    requires i + n <= |data| && n < 8
    ensures FromBits(data[i..i + n]) < 0x100
  {
    hide FromBits;
    FromBitsBound(data[i..i + n]);
    Pow2Monotone(n, 8);
    assert Pow2(8) == 0x100;
  }

  lemma BetweenIsBytes(data: seq<bool>, i: nat, j: nat)
    requires i <= j <= |data|
    ensures BytesBetween(data, i, j) == BytesOf(data[i..j])
  {}

  lemma OctetAt(s: seq<bool>, i: nat)
    requires i < |BytesOf(s)|
    ensures BytesOf(s)[i] == ByteOf(Padded(s)[8 * i..8 * i + 8])
  {
    hide ByteOf, Padded;
  }

  /** Whole octets in front do not change the padding. */
  lemma PaddedConcat(s: seq<bool>, t: seq<bool>)
    requires |s| % 8 == 0
    ensures s + Padded(t) == Padded(s + t)
    ensures Padded(s) == s && (|t| % 8 == 0 ==> Padded(t) == t)
  {
    assert |s + t| % 8 == |t| % 8;
  }

  lemma OctetOfConcat(s: seq<bool>, t: seq<bool>, i: nat)
    requires |s| % 8 == 0 && i < |BytesOf(s + t)|
    ensures |BytesOf(s)| == |s| / 8
    ensures BytesOf(s + t)[i] == if i < |s| / 8 then BytesOf(s)[i] else BytesOf(t)[i - |s| / 8]
  {
    hide BytesOf, ByteOf, Padded;
    PaddedConcat(s, t);
    OctetAt(s + t, i);
    if i < |s| / 8 {
      OctetAt(s, i);
      assert (s + Padded(t))[8 * i..8 * i + 8] == s[8 * i..8 * i + 8];
    } else {
      var j := i - |s| / 8;
      OctetAt(t, j);
      assert (s + Padded(t))[8 * i..8 * i + 8] == Padded(t)[8 * j..8 * j + 8];
    }
  }

  lemma BytesOfConcat(s: seq<bool>, t: seq<bool>)
    requires |s| % 8 == 0
    ensures BytesOf(s + t) == BytesOf(s) + BytesOf(t)
  {
    hide BytesOf;
    forall i | 0 <= i < |BytesOf(s + t)|
      ensures BytesOf(s + t)[i] == (BytesOf(s) + BytesOf(t))[i]
    {
      OctetOfConcat(s, t, i);
    }
  }

  /** The octets of at most 24 bits, from their value moved up to whole octets. */
  lemma OctetsOfChunk(t: seq<bool>, n: nat)
    requires |t| == n && 0 < n <= 24
    ensures var v := if n % 8 != 0 then Shl(FromBits(t), 8 - n % 8) else FromBits(t);
      BytesOf(t) ==
        (if n > 16 then [v / 0x1_0000 % 0x100] else []) + (if n > 8 then [v / 0x100 % 0x100] else []) + [v % 0x100]
  {
    hide FromBits, Shl, BytesOf;
    var p := Padded(t);
    FromBitsPadded(t, |p| - n);
    assert p == t + Zeros(|p| - n);
    if n % 8 == 0 {
      assert p == t;
    }
    PaddedOctets(t);
    ChunkOctets(p);
  }

  lemma PaddedOctets(t: seq<bool>)
    ensures BytesOf(t) == BytesOf(Padded(t))
  {
    hide FromBits;
    assert Padded(Padded(t)) == Padded(t);
  }

  lemma ChunkOctets(p: seq<bool>)
    requires |p| == 8 || |p| == 16 || |p| == 24
    ensures var v := FromBits(p);
      BytesOf(p) == (if |p| > 16 then [v / 0x1_0000 % 0x100] else []) +
        (if |p| > 8 then [v / 0x100 % 0x100] else []) + [v % 0x100]
  {
    hide FromBits, BytesOf;
    LastOctet(p);
    NoBits();
    if |p| == 8 {
      assert p[..0] == [];
      NothingIsZero();
      assert p[0..] == p;
    } else if |p| == 16 {
      OneOctet(p[..8]);
    } else {
      LastOctet(p[..16]);
      OneOctet(p[..16][..8]);
      SplitOctets(FromBits(p[..16][..8]), FromBits(p[..16][8..]), FromBits(p[16..]));
    }
  }

  lemma OneOctet(p: seq<bool>)
    requires |p| == 8
    ensures BytesOf(p) == [FromBits(p)] && FromBits(p) < 0x100
  {
    hide FromBits;
    FromBitsBound(p);
    assert Pow2(8) == 0x100;
    assert Padded(p)[0..8] == p;
  }

  /** The last octet of a bit string, and the value it completes. */
  lemma LastOctet(p: seq<bool>)
    requires |p| >= 8 && |p| % 8 == 0
    ensures var h, l := p[..|p| - 8], p[|p| - 8..];
      && BytesOf(p) == BytesOf(h) + [FromBits(l)] && FromBits(l) < 0x100
      && FromBits(p) == FromBits(h) * 0x100 + FromBits(l)
  {
    hide FromBits, BytesOf;
    var h, l := p[..|p| - 8], p[|p| - 8..];
    assert p == h + l;
    FromBitsConcat(h, l);
    ShlIsProduct(FromBits(h), 8);
    assert Pow2(8) == 0x100;
    OneOctet(l);
    BytesOfConcat(h, l);
  }

  lemma SplitOctets(a: nat, b: nat, c: nat)
    requires a < 0x100 && b < 0x100 && c < 0x100
    ensures var v := (a * 0x100 + b) * 0x100 + c;
      v / 0x1_0000 % 0x100 == a && v / 0x100 % 0x100 == b && v % 0x100 == c
  {}

  /** The bytes of a bit string, the last one zero-padded on the right. */
  function BytesOf(s: seq<bool>): (b: seq<u8>)
    ensures |b| == (|s| + 7) / 8
  {
    var p := Padded(s);
    seq(|p| / 8, i requires 0 <= i < |p| / 8 => ByteOf(p[8 * i..8 * i + 8]))
  }

  function ByteOf(s: seq<bool>): u8
    requires |s| == 8
  {
    FromBitsBound(s);
    assert Pow2(8) == 0x100;
    FromBits(s)
  }

  lemma BitsOfBytes(s: seq<bool>)
    ensures Bits(BytesOf(s)) == Padded(s)
  {
    hide FromBits, ToBits, Padded;
    var b, p := BytesOf(s), Padded(s);
    forall k | 0 <= k < |p|
      ensures Bits(b)[k] == p[k]
    {
      var i := k / 8;
      ToFromBits(p[8 * i..8 * i + 8]);
      assert p[k] == p[8 * i..8 * i + 8][k % 8];
    }
  }

  /** The byte read in front when the bits are aligned to the right: zeros, then the bits. */
  lemma RightIsPadded(data: seq<bool>, i: nat, n: nat)
    requires i + n <= |data| && n < 8
    ensures Bits(BytesRight(data, i, n)) == Zeros(8 - n) + data[i..i + n]
  {
    hide ToBits, FromBits, Shl, Bits;
    var b := data[i..i + n];
    RightIsByte(data, i, n);
    ToFromBits(b);
    FromBitsBound(b);
    ToBitsOfZero(8 - n);
    ShlIsProduct(0, n);
    ToBitsFields(0, FromBits(b), 8 - n, n);
    ByteOfBits([FromBits(b)], 0);
    OneByte(FromBits(b));
  }

  lemma OneByte(b: u8)
    ensures |Bits([b])| == 8 && Bits([b])[8 * 0..8 * 0 + 8] == Bits([b])
  {
    hide ToBits;
  }
}
