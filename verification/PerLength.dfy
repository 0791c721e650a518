/** The length determinants of the packed encoding rules (section 11.9 of X.691): one octet up
    to 127, two up to 16383, and beyond that up to four fragments of 16384 at a time. */
module PerLength {
  import opened Words
  import opened Wrappers
  import opened BitStream

  const FRAGMENT: nat := 16384

  /** How many of `n` units the next length determinant announces. */
  function Fragment(n: nat): (k: nat)
    ensures k <= n && (n >= FRAGMENT ==> k > 0)
  {
    if n < FRAGMENT then n else FRAGMENT * Fragments(n)
  }

  function Fragments(n: nat): nat {
    if n / FRAGMENT > 4 then 4 else n / FRAGMENT
  }

  /** Section 11.9.3 of X.691: one octet up to 127, two up to 16383, else up to four fragments. */
  function LengthPrefix(n: nat): seq<bool> {
    if n <= 127 then [false] + ToBits(n, 7)
    else if n < FRAGMENT then [true, false] + ToBits(n, 14)
    else [true, true] + ToBits(Fragments(n), 6)
  }

  /** What a determinant says: a count, whether more pieces follow, and where it ends. */
  datatype Announced = Announced(count: nat, repeat: bool, end: nat)

  /** The determinant at position `pos`. */
  function ReadDeterminant(data: seq<bool>, pos: nat): (r: Option<Announced>)
    ensures r.Some? ==> pos < |data| && pos + 8 <= r.value.end <= |data| && (r.value.end - pos) % 8 == 0
    ensures r.Some? && r.value.repeat ==>
      r.value.end == pos + 8 && r.value.count >= FRAGMENT && r.value.count % FRAGMENT == 0
  {
    if pos + 8 > |data| then None
    else if !data[pos] then Some(Announced(FromBits(data[pos + 1..pos + 8]), false, pos + 8))
    else if !data[pos + 1] then
      if pos + 16 > |data| then None
      else Some(Announced(FromBits(data[pos + 2..pos + 16]), false, pos + 16))
    else
      var m := FromBits(data[pos + 2..pos + 8]);
      if 1 <= m <= 4 then Some(Announced(FRAGMENT * m, true, pos + 8)) else None
  }

  lemma LengthWidths()
    ensures Pow2(6) == 64 && Pow2(7) == 128 && Pow2(14) == FRAGMENT
  {
    assert Pow2(7) == 128;
    Pow2Add(7, 7);
  }

  lemma PrefixRoundTrip(n: nat, before: seq<bool>, after: seq<bool>)
    ensures ReadDeterminant(before + LengthPrefix(n) + after, |before|)
         == Some(Announced(Fragment(n), n >= FRAGMENT, |before| + |LengthPrefix(n)|))
  {
    hide ToBits, FromBits, Pow2;
    var pos, data := |before|, before + LengthPrefix(n) + after;
    LengthWidths();
    if n <= 127 {
      assert data[pos + 1..pos + 8] == ToBits(n, 7);
      FromToBits(n, 7);
      LowSmall(n, 7);
    } else if n < FRAGMENT {
      assert data[pos + 2..pos + 16] == ToBits(n, 14);
      FromToBits(n, 14);
      LowSmall(n, 14);
    } else {
      assert data[pos + 2..pos + 8] == ToBits(Fragments(n), 6);
      FromToBits(Fragments(n), 6);
      LowSmall(Fragments(n), 6);
    }
  }

  lemma FragmentsAreOctets(n: nat)
    ensures n >= FRAGMENT ==> Fragment(n) % 8 == 0
    ensures n < FRAGMENT ==> Fragment(n) == n
  {}

  // ----- pieces

  /** What has been read before, and the rest. */
  function Prepended<T>(s: seq<T>, r: Option<(seq<T>, nat)>): Option<(seq<T>, nat)> {
    match r
    case None => None
    case Some(v) => Some((s + v.0, v.1))
  }

  lemma PrependedTwice<T>(s: seq<T>, t: seq<T>, r: Option<(seq<T>, nat)>)
    ensures Prepended(s, Prepended(t, r)) == Prepended(s + t, r)
  {
    if r.Some? {
      assert s + (t + r.value.0) == s + t + r.value.0;
    }
  }

  lemma NothingPrepended<T>(r: Option<(seq<T>, nat)>)
    ensures Prepended([], r) == r
  {
    if r.Some? {
      assert [] + r.value.0 == r.value.0;
    }
  }

  /** A buffer grown by some octets, and a terminator behind them. */
  method Grown(was: seq<u8>, dst: seq<u8>) returns (p: array<u8>)
    ensures fresh(p) && p.Length == |was| + |dst| + 1 && p[..|was| + |dst|] == was + dst
  {
    p := new u8[|was| + |dst| + 1];
    for i := 0 to |was|
      invariant p[..i] == was[..i]
    {
      p[i] := was[i];
      assert p[..i + 1] == p[..i] + [p[i]];
    }
    for i := 0 to |dst|
      invariant p[..|was| + i] == was + dst[..i]
    {
      p[|was| + i] := dst[i];
      assert p[..|was| + i + 1] == p[..|was| + i] + [p[|was| + i]];
    }
    p[|was| + |dst|] := 0;
    assert p[..|was| + |dst|] == was + dst;
  }

  /** The least number of bits for `range` values. */
  function Width(range: nat): (k: nat)
    ensures range <= Pow2(k) && (forall j: nat :: j < k ==> Pow2(j) < range)
  {
    if range <= 1 then 0
    else
      var k := Width((range + 1) / 2);
      assert forall j: nat :: 0 < j < k + 1 ==> Pow2(j) == 2 * Pow2(j - 1);
      k + 1
  }

  // ----- the determinant is what section 11.9.3 of X.691 asks for

  /** The three forms a reader knows. */
  predicate IsDeterminant(b: seq<bool>, count: nat, repeat: bool) {
    if repeat then
      && |b| == 8 && b[0] && b[1]
      && 1 <= FromBits(b[2..]) <= 4 && count == 16384 * FromBits(b[2..])
    else
      || (|b| == 8 && !b[0] && count == FromBits(b[1..]))
      || (|b| == 16 && b[0] && !b[1] && count == FromBits(b[2..]))
  }

  /** The reader knows these and no others. */
  lemma ReadsTheForms(data: seq<bool>, pos: nat, l: Announced)
    ensures ReadDeterminant(data, pos) == Some(l)
       <==> pos < l.end <= |data| && IsDeterminant(data[pos..l.end], l.count, l.repeat)
  {
    hide FromBits;
    if pos + 8 <= |data| {
      var b := data[pos..pos + 8];
      assert b[1..] == data[pos + 1..pos + 8] && b[2..] == data[pos + 2..pos + 8];
    }
    if pos + 16 <= |data| {
      assert data[pos..pos + 16][2..] == data[pos + 2..pos + 16];
    }
  }

  /** Of all determinants of a count below 16384 the one written is the shortest. */
  lemma PrefixIsShortest(n: nat, b: seq<bool>)
    requires n < 16384 && IsDeterminant(b, n, false)
    ensures |LengthPrefix(n)| <= |b|
    ensures IsDeterminant(LengthPrefix(n), n, false)
  {
    LengthWidths();
    hide FromBits, ToBits, Pow2;
    if n <= 127 {
      FromToBits(n, 7);
      LowSmall(n, 7);
      assert ([false] + ToBits(n, 7))[1..] == ToBits(n, 7);
    } else {
      FromBitsBound(b[1..]);
      FromToBits(n, 14);
      LowSmall(n, 14);
      assert ([true, false] + ToBits(n, 14))[2..] == ToBits(n, 14);
    }
  }

  /** From 16384 on, the one written announces the most that any determinant can within `n`. */
  lemma PrefixAnnouncesMost(n: nat, b: seq<bool>, count: nat)
    requires n >= 16384 && IsDeterminant(b, count, true) && count <= n
    ensures count <= Fragment(n) <= n
    ensures IsDeterminant(LengthPrefix(n), Fragment(n), true)
  {
    LengthWidths();
    hide FromBits, ToBits, Pow2;
    var m := Fragments(n);
    FromToBits(m, 6);
    LowSmall(m, 6);
    assert ([true, true] + ToBits(m, 6))[2..] == ToBits(m, 6);
  }

  // ----- writing

  /** The common part of `uper_put_length` and `aper_put_length`. */
  method PutDeterminant(po: BitOut, length: nat) returns (announced: nat)
    requires po.Valid()
    modifies po, po.tmpspace
    ensures po.Valid() && po.bits == old(po.bits) + LengthPrefix(length)
    ensures announced == Fragment(length)
  {
    hide ToBits, Or, Pow2, Bits;
    if length <= 127 {
      ShortPrefix(length);
      var _ := po.PutFewBits(length, 8);
      return length;
    } else if length < FRAGMENT {
      MediumPrefix(length);
      var _ := po.PutFewBits(Or(0x8000, length), 16);
      return length;
    }
    var count := length / FRAGMENT;
    if count > 4 {
      count := 4;
    }
    FragmentPrefix(count);
    var _ := po.PutFewBits(Or(0xc0, count), 8);
    announced := count * FRAGMENT;
  }

  /** `uper_put_length`: the announced count, and whether a final empty piece is due. */
  method UperPutLength(po: BitOut, length: nat) returns (announced: nat, needEom: bool)
    requires po.Valid()
    modifies po, po.tmpspace
    ensures po.Valid() && po.bits == old(po.bits) + LengthPrefix(length)
    ensures announced == Fragment(length) && needEom == (length >= FRAGMENT && length == announced)
  {
    announced := PutDeterminant(po, length);
    needEom := length >= FRAGMENT && length % FRAGMENT == 0 && length / FRAGMENT <= 4;
  }

  /** `aper_put_length` without a range. */
  method AperPutLength(po: BitOut, length: nat) returns (announced: nat)
    requires po.Valid()
    modifies po, po.tmpspace
    ensures po.Valid()
    ensures po.bits == old(po.bits) + Padding(|old(po.bits)|) + LengthPrefix(length)
    ensures announced == Fragment(length)
  {
    po.PutAlign();
    announced := PutDeterminant(po, length);
  }

  lemma ShortPrefix(n: nat)
    requires n <= 127
    ensures ToBits(n, 8) == [false] + ToBits(n, 7)
  {
    hide ToBits, Shl, Pow2;
    LengthWidths();
    ShlIsProduct(0, 7);
    ToBitsFields(0, n, 1, 7);
    ToOneBit(0);
  }

  lemma TwoBitsOf(b: nat)
    requires b < 4
    ensures ToBits(b, 2) == [b / 2 == 1, b % 2 == 1]
  {
    ToOneBit(b / 2);
  }

  lemma MediumPrefix(n: nat)
    requires n < FRAGMENT
    ensures ToBits(Or(0x8000, n), 16) == [true, false] + ToBits(n, 14)
  {
    hide ToBits, Shl, Pow2, Or;
    LengthWidths();
    ShlIsProduct(2, 14);
    Disjoint(2, n, 14);
    ToBitsFields(2, n, 2, 14);
    TwoBitsOf(2);
  }

  lemma FragmentPrefix(m: nat)
    requires m <= 4
    ensures ToBits(Or(0xc0, m), 8) == [true, true] + ToBits(m, 6)
  {
    hide ToBits, Shl, Pow2, Or;
    LengthWidths();
    ShlIsProduct(3, 6);
    Disjoint(3, m, 6);
    ToBitsFields(3, m, 2, 6);
    TwoBitsOf(3);
  }

  // ----- reading

  /** The common part of `uper_get_length` and `aper_get_length`. */
  method GetDeterminant(pd: BitIn) returns (value: int, repeat: bool)
    requires pd.Valid()
    modifies pd
    ensures pd.Valid() && pd.pos <= |pd.data| && value >= -1
    ensures var r := ReadDeterminant(pd.data, old(pd.pos));
      if value < 0 then r == None else r == Some(Announced(value, repeat, pd.pos))
  {
    assert pd.pos <= |pd.data|;
    hide pd.Valid, FromBits, Pow2, And, Or, Shl;
    repeat := false;
    ghost var p := pd.pos;
    value := pd.GetFewBits(8);
    if value < 0 {
      // all the tests on -1 fall through to the check for the end of the stream
      return;
    }
    FirstOctet(pd.data, p);
    if And(value, 0x80) == 0 {
      value := And(value, 0x7f);
    } else if And(value, 0x40) == 0 {
      var low := pd.GetFewBits(8);
      if low < 0 {
        return -1, false;
      }
      SecondOctet(pd.data, p);
      value := Or(Shl(And(value, 0x3f), 8), low);
    } else {
      value := And(value, 0x3f);
      if value < 1 || value > 4 {
        return -1, false;
      }
      repeat := true;
      value := FRAGMENT * value;
    }
  }

  /** The tests and masks on the first octet of a determinant. */
  lemma FirstOctet(data: seq<bool>, p: nat)
    requires p + 8 <= |data|
    ensures var v := FromBits(data[p..p + 8]);
      && (And(v, 0x80) == 0 <==> !data[p]) && (And(v, 0x40) == 0 <==> !data[p + 1])
      && And(v, 0x3f) == FromBits(data[p + 2..p + 8])
      && (!data[p] ==> And(v, 0x7f) == FromBits(data[p + 1..p + 8]))
  {
    hide FromBits, And;
    var octet := data[p..p + 8];
    OctetFields(octet);
    assert octet[1..] == data[p + 1..p + 8] && octet[2..] == data[p + 2..p + 8];
  }

  /** Two octets joined. */
  lemma SecondOctet(data: seq<bool>, p: nat)
    requires p + 16 <= |data|
    ensures Or(Shl(And(FromBits(data[p..p + 8]), 0x3f), 8), FromBits(data[p + 8..p + 16]))
         == FromBits(data[p + 2..p + 16])
  {
    hide FromBits, And, Or, Shl;
    FirstOctet(data, p);
    ShiftIn(data[p + 2..p + 8], data[p + 8..p + 16]);
    assert data[p + 2..p + 8] + data[p + 8..p + 16] == data[p + 2..p + 16];
  }

  /** A determinant announces at most 64K units, one that begins with a zero is one octet. */
  lemma DeterminantIsSmall(data: seq<bool>, pos: nat)
    requires ReadDeterminant(data, pos).Some?
    ensures var l := ReadDeterminant(data, pos).value;
      l.count <= 8192 * (l.end - pos) && (!data[pos] ==> l.end == pos + 8 && !l.repeat)
  {
    hide FromBits, Pow2;
    LengthWidths();
    if !data[pos] {
      FromBitsBound(data[pos + 1..pos + 8]);
    } else if !data[pos + 1] {
      FromBitsBound(data[pos + 2..pos + 16]);
    }
  }

  /** `aper_get_length` without a range: the padding is skipped, whatever it is. */
  method AperGetLength(pd: BitIn) returns (value: int, repeat: bool)
    requires pd.Valid()
    modifies pd
    ensures pd.Valid() && pd.pos <= |pd.data| && value >= -1
    ensures var p := old(pd.pos) + |Padding(old(pd.pos))|;
      var r := if p <= |pd.data| then ReadDeterminant(pd.data, p) else None;
      if value < 0 then r == None else r == Some(Announced(value, repeat, pd.pos))
  {
    var skipped := pd.GetAlign();
    if skipped < 0 {
      return -1, false;
    }
    value, repeat := GetDeterminant(pd);
  }

  /** The tests and masks on the first octet of a length determinant. */
  lemma OctetFields(s: seq<bool>)
    requires |s| == 8
    ensures var v := FromBits(s);
      && (And(v, 0x80) == 0 <==> !s[0]) && (And(v, 0x40) == 0 <==> !s[1])
      && And(v, 0x3f) == FromBits(s[2..])
      && (!s[0] ==> And(v, 0x7f) == FromBits(s[1..]))
  {
    hide FromBits, ToBits, Pow2, And, Bit, Low;
    var v := FromBits(s);
    ToFromBits(s);
    ToBitsAt(v, 8, 0);
    ToBitsAt(v, 8, 1);
    LengthWidths();
    OctetPowers();
    AndPow2(v, 7);
    AndPow2(v, 6);
    AndLowMask(v, 6);
    AndLowMask(v, 7);
    ToBitsSuffix(v, 2, 6);
    FromToBits(v, 6);
    ToBitsSuffix(v, 1, 7);
    FromToBits(v, 7);
  }
}
