/** Unaligned PER of BIT STRINGs: size-constrained, and in the general form with its fragments. */
module Uper {
  import opened Words
  import opened Wrappers
  import opened BitOrder
  import opened BitString
  import opened BitStream
  import opened PerLength

  /** A size constraint; `effectiveBits` is negative when there is no upper bound to speak of. */
  datatype Size = Size(extensible: bool, effectiveBits: int, lowerBound: nat, upperBound: nat)

  /** `asn_DEF_BIT_STRING_constraint_size`. */
  const ANY_SIZE: Size := Size(false, -1, 0, 0)

  // ----- the general form

  function GeneralForm(s: seq<bool>): seq<bool>
    decreases |s|
  {
    LengthPrefix(|s|) + s[..Fragment(|s|)] +
    (if |s| < FRAGMENT then [] else GeneralForm(s[Fragment(|s|)..]))
  }

  /** The length read at `pos`: a constrained one in up to 16 bits, a determinant otherwise. */
  function ReadLength(c: Size, data: seq<bool>, pos: nat): (r: Option<Announced>)
    ensures r.Some? ==> pos <= r.value.end <= |data| && (r.value.repeat ==> r.value.end == pos + 8)
    ensures r.Some? && r.value.repeat ==> r.value.count % 8 == 0
  {
    if 0 <= c.effectiveBits <= 16 then
      var p := pos + c.effectiveBits;
      if p > |data| then None else Some(Announced(FromBits(data[pos..p]) + c.lowerBound, false, p))
    else ReadDeterminant(data, pos)
  }

  /** All the pieces from `pos` on, joined, and the position after them. */
  function ReadPieces(c: Size, data: seq<bool>, pos: nat): (r: Option<(seq<bool>, nat)>)
    decreases |data| - pos
  {
    match ReadLength(c, data, pos)
    case None => None
    case Some(l) =>
      var end := l.end + l.count;
      if end > |data| then None
      else if !l.repeat then Some((data[l.end..end], end))
      else
        match ReadPieces(c, data, end)
        case None => None
        case Some(rest) => Some((data[l.end..end] + rest.0, rest.1))
  }

  lemma {:induction false} GeneralRoundTrip(c: Size, s: seq<bool>, before: seq<bool>, after: seq<bool>)
    requires c.effectiveBits < 0
    ensures ReadPieces(c, before + GeneralForm(s) + after, |before|)
         == Some((s, |before| + |GeneralForm(s)|))
    decreases |s|
  {
    hide ReadDeterminant, LengthPrefix, Fragment, ReadPieces;
    var n := |s|;
    var prefix, k := LengthPrefix(n), Fragment(n);
    var rest := if n < FRAGMENT then [] else GeneralForm(s[k..]);
    var data := before + GeneralForm(s) + after;
    var head := before + prefix + s[..k];
    assert data == before + prefix + (s[..k] + rest + after);
    PrefixRoundTrip(n, before, s[..k] + rest + after);
    assert data[|before + prefix|..|head|] == s[..k];
    if n >= FRAGMENT {
      assert data == head + rest + after;
      GeneralRoundTrip(c, s[k..], head, after);
      assert s[..k] + s[k..] == s;
    } else {
      FragmentsAreOctets(n);
      assert s[..k] == s;
    }
    PieceStep(c, data, |before|);
  }

  lemma PieceStep(c: Size, data: seq<bool>, pos: nat)
    requires ReadLength(c, data, pos).Some?
    requires var l := ReadLength(c, data, pos).value;
      l.end + l.count <= |data| && (l.repeat ==> ReadPieces(c, data, l.end + l.count).Some?)
    ensures var l := ReadLength(c, data, pos).value;
      var piece := data[l.end..l.end + l.count];
      ReadPieces(c, data, pos) == Some(
        if l.repeat then var rest := ReadPieces(c, data, l.end + l.count).value; (piece + rest.0, rest.1)
        else (piece, l.end + l.count))
  {
    hide ReadLength;
  }

  // ----- the whole encoding

  predicate InRoot(c: Size, n: nat) {
    0 <= c.effectiveBits && n <= c.upperBound
  }

  predicate Encodable(c: Size, n: nat) {
    c.effectiveBits < 0 || (if n <= c.upperBound then c.effectiveBits <= 31 else c.extensible)
  }

  /** A string within the constraint, brought up to the lower bound. */
  function Widened(c: Size, s: seq<bool>): (t: seq<bool>)
    ensures |t| == if |s| < c.lowerBound then c.lowerBound else |s|
  {
    s + Zeros(if |s| < c.lowerBound then c.lowerBound - |s| else 0)
  }

  /** The bits that encode a trimmed string. */
  function Encoded(c: Size, s: seq<bool>): seq<bool> {
    (if c.extensible then [c.effectiveBits >= 0 && |s| > c.upperBound] else []) +
    (if InRoot(c, |s|) then RootBits(c, s) else GeneralForm(s))
  }

  function RootBits(c: Size, s: seq<bool>): seq<bool>
    requires c.effectiveBits >= 0
  {
    ToBits(|Widened(c, s)| - c.lowerBound, c.effectiveBits) + Widened(c, s)
  }

  /** The string decoded at position `pos`, and the position after it. */
  function ReadBitString(c: Size, data: seq<bool>, pos: nat): Option<(seq<bool>, nat)>
    requires pos <= |data|
  {
    if !c.extensible then ReadBody(c, data, pos)
    else if pos == |data| then None
    else ReadBody(if data[pos] then ANY_SIZE else c, data, pos + 1)
  }

  function ReadBody(c: Size, data: seq<bool>, pos: nat): Option<(seq<bool>, nat)> {
    if c.effectiveBits != 0 then ReadPieces(c, data, pos)
    else if pos + c.upperBound > |data| then None
    else Some((data[pos..pos + c.upperBound], pos + c.upperBound))
  }

  // ----- the round trip

  /** The length field holds the size of a string of `n` bits; without a field the size is known. */
  predicate Holds(c: Size, n: nat)
    requires c.effectiveBits >= 0
  {
    var m := if n < c.lowerBound then c.lowerBound else n;
    if c.effectiveBits == 0 then m == c.upperBound else m - c.lowerBound < Pow2(c.effectiveBits)
  }

  /** It does for every size of a constraint whose bounds fit the width of the field. */
  lemma BoundsFit(c: Size, n: nat)
    requires InRoot(c, n) && c.lowerBound <= c.upperBound < c.lowerBound + Pow2(c.effectiveBits)
    ensures Holds(c, n)
  {
    NoWidth();
  }

  /** The size stands in the general form, or in a field that holds it and is read. */
  predicate Legible(c: Size, n: nat) {
    !InRoot(c, n) || (c.effectiveBits <= 16 && Holds(c, n))
  }

  /** What comes back of a trimmed string. */
  function Returned(c: Size, s: seq<bool>): seq<bool> {
    if InRoot(c, |s|) then Widened(c, s) else s
  }

  lemma ReturnedIsSame(c: Size, s: seq<bool>)
    ensures Same(Returned(c, s), s)
  {}

  lemma RootRoundTrip(c: Size, s: seq<bool>, before: seq<bool>, after: seq<bool>)
    requires InRoot(c, |s|) && Legible(c, |s|)
    ensures var code := RootBits(c, s);
      ReadBody(c, before + code + after, |before|) == Some((Widened(c, s), |before| + |code|))
  {
    hide ToBits, FromBits, Pow2;
    var t := Widened(c, s);
    var n, e := |t| - c.lowerBound, c.effectiveBits;
    var head := ToBits(n, e);
    var data := before + (head + t) + after;
    var pos := |before|;
    FromToBits(n, e);
    if e != 0 {
      LowSmall(n, e);
    }
    assert data[pos..pos + e] == head;
    assert data[pos + e..pos + e + |t|] == t;
  }

  /** A size the field does not hold is read as another. */
  lemma NarrowLengthsNeverReturn(c: Size, s: seq<bool>, before: seq<bool>, after: seq<bool>)
    requires c.effectiveBits <= 16 && InRoot(c, |s|) && !Holds(c, |s|)
    ensures var code := RootBits(c, s);
      var r := ReadBody(c, before + code + after, |before|);
      r.Some? ==> r.value.1 != |before| + |code| || |r.value.0| != |Widened(c, s)|
  {
    hide ToBits, FromBits, Pow2;
    var n, e := |Widened(c, s)| - c.lowerBound, c.effectiveBits;
    var data := before + RootBits(c, s) + after;
    assert data[|before|..|before| + e] == ToBits(n, e);
    FromBitsBound(ToBits(n, e));
  }

  lemma NoWidth()
    ensures Pow2(0) == 1
  {}

  /** Decoding what the encoder wrote for the trimmed bits of a buffer consumes exactly that and
      gives a string of the trimmed length, or of the lower bound if that is more; up to
      trailing zeros it is the input, unless the input has a one among its unused bits. */
  lemma UperRoundTrip(c: Size, s: seq<u8>, unused: nat, before: seq<bool>, after: seq<bool>)
    requires unused <= 8 * |s|
    requires Encodable(c, TrimmedLength(Bits(s))) && Legible(c, TrimmedLength(Bits(s)))
    ensures var n, value := TrimmedLength(Bits(s)), Bits(s)[..8 * |s| - unused];
      var code := Encoded(c, Bits(s)[..n]);
      var r := ReadBitString(c, before + code + after, |before|);
      && r.Some? && r.value.1 == |before| + |code|
      && |r.value.0| == (if InRoot(c, n) && n < c.lowerBound then c.lowerBound else n)
      && (Same(r.value.0, value) <==> forall k :: |value| <= k < 8 * |s| ==> !Bits(s)[k])
  {
    hide Bits, ReadBody, GeneralForm, RootBits, Widened, ToBits, ReadPieces, Pow2, Same;
    var n := TrimmedLength(Bits(s));
    var t := Bits(s)[..n];
    var ext := if c.extensible then [c.effectiveBits >= 0 && n > c.upperBound] else [];
    var body := if InRoot(c, n) then RootBits(c, t) else GeneralForm(t);
    var data := before + Encoded(c, t) + after;
    assert data == (before + ext) + body + after;
    assert c.extensible ==> data[|before|] == ext[0];
    if InRoot(c, n) {
      RootRoundTrip(c, t, before + ext, after);
    } else {
      var d := if c.effectiveBits >= 0 then ANY_SIZE else c;
      GeneralRoundTrip(d, t, before + ext, after);
      GeneralBody(d, data, |before + ext|);
    }
    ReturnedIsSame(c, t);
    PaddingDecides(Bits(s), 8 * |s| - unused, Returned(c, t));
  }

  lemma GeneralBody(c: Size, data: seq<bool>, pos: nat)
    requires c.effectiveBits < 0
    ensures ReadBody(c, data, pos) == ReadPieces(c, data, pos)
  {}

  lemma PaddingDecides(s: seq<bool>, m: nat, t: seq<bool>)
    requires m <= |s| && Same(t, s[..TrimmedLength(s)])
    ensures Same(t, s[..m]) <==> forall k :: m <= k < |s| ==> !s[k]
  {
    assert forall k: nat :: At(t, k) == At(s, k) by {
      assert forall k: nat :: At(s[..TrimmedLength(s)], k) == At(s, k);
    }
    assert forall k: nat :: At(s[..m], k) == (k < m && s[k]);
    if Same(t, s[..m]) {
      forall k | m <= k < |s|
        ensures !s[k]
      {
        assert At(t, k) == At(s[..m], k);
      }
    }
  }

  // ----- length fields wider than sixteen bits

  /** Length determinants are whole octets, and each announces at most 64K bits. */
  lemma {:induction false} DeterminantsAreSmall(c: Size, data: seq<bool>, pos: nat)
    requires c.effectiveBits > 16 && ReadPieces(c, data, pos).Some?
    ensures var r := ReadPieces(c, data, pos).value;
      var h := r.1 - pos - |r.0|;
      pos < |data| && h >= 8 && h % 8 == 0 && |r.0| <= 8192 * h && (!data[pos] ==> h == 8)
    decreases |data| - pos
  {
    hide ReadDeterminant, ReadPieces;
    PiecesUnfold(c, data, pos);
    var l := ReadLength(c, data, pos).value;
    DeterminantIsSmall(data, pos);
    if l.repeat {
      DeterminantsAreSmall(c, data, l.end + l.count);
      var rest := ReadPieces(c, data, l.end + l.count).value;
      HeadersAddUp(l.end - pos, rest.1 - (l.end + l.count) - |rest.0|, l.count, |rest.0|);
    }
  }

  lemma HeadersAddUp(g: int, h: int, m: nat, n: nat)
    requires g >= 8 && g % 8 == 0 && m <= 8192 * g && h >= 8 && h % 8 == 0 && n <= 8192 * h
    ensures (g + h) % 8 == 0 && m + n <= 8192 * (g + h)
  {}

  /** The encoder writes a length field of 17 bits and more as it is, the decoder looks for
      octet determinants: it never returns a string of the length written and stops after it. */
  lemma WideLengthsNeverReturn(c: Size, s: seq<bool>, before: seq<bool>, after: seq<bool>)
    requires 16 < c.effectiveBits <= 31 && InRoot(c, |s|)
    ensures var code := Encoded(c, s);
      var r := ReadBitString(c, before + code + after, |before|);
      r.Some? ==> r.value.1 != |before| + |code| || |r.value.0| != |Widened(c, s)|
  {
    hide ReadPieces, ToBits, Pow2, Widened;
    var code := Encoded(c, s);
    var ext := if c.extensible then [false] else [];
    var pos := |before + ext|;
    var t := Widened(c, s);
    var n, e := |t| - c.lowerBound, c.effectiveBits;
    var data := before + code + after;
    assert data == (before + ext) + ToBits(n, e) + (t + after);
    assert c.extensible ==> data[|before|] == false;
    if ReadPieces(c, data, pos).Some? {
      DeterminantsAreSmall(c, data, pos);
      if e == 24 && n < 0x4_0000 {
        SmallHasNoTopBit(n);
        assert data[pos] == ToBits(n, e)[0];
      }
    }
  }

  lemma SmallHasNoTopBit(n: nat)
    requires n < 0x4_0000
    ensures !ToBits(n, 24)[0]
  {
    hide ToBits, Shr, Pow2;
    ToBitsAt(n, 24, 0);
    LengthWidths();
    Pow2Add(14, 7);
    Pow2Monotone(21, 23);
    LowSmall(n, 23);
  }

  /** Decoding returns a string of the length written, and stops after it, if and only if the
      size stands in the general form or in a field of up to 16 bits that holds it. */
  lemma UperReturnsIfLegible(c: Size, s: seq<u8>, before: seq<bool>, after: seq<bool>)
    requires Encodable(c, TrimmedLength(Bits(s)))
    ensures var n := TrimmedLength(Bits(s));
      var t := Bits(s)[..n];
      var code := Encoded(c, t);
      var r := ReadBitString(c, before + code + after, |before|);
      (r.Some? && r.value.1 == |before| + |code| && |r.value.0| == |Returned(c, t)|) <==> Legible(c, n)
  {
    hide Bits, ReadBody, RootBits, GeneralForm, TrimmedLength, Holds, Widened;
    var n := TrimmedLength(Bits(s));
    var t := Bits(s)[..n];
    if Legible(c, n) {
      UperRoundTrip(c, s, 0, before, after);
    } else if c.effectiveBits > 16 {
      WideLengthsNeverReturn(c, t, before, after);
    } else {
      var ext := if c.extensible then [false] else [];
      NarrowLengthsNeverReturn(c, t, before + ext, after);
      assert before + Encoded(c, t) + after == (before + ext) + RootBits(c, t) + after;
    }
  }

  /** A hand-made constraint with a field of 17 bits: a string of one bit comes back empty. */
  lemma WideLengthIsLost()
    ensures var c := Size(false, 17, 0, 131071);
      Encodable(c, 1) && |Encoded(c, [true])| == 18 && ReadBitString(c, Encoded(c, [true]), 0) == Some(([], 8))
  {
    hide ToBits, FromBits, Pow2;
    var c := Size(false, 17, 0, 131071);
    LengthWidths();
    Pow2Add(14, 3);
    OctetPowers();
    assert Widened(c, [true]) == [true];
    var head := ToBits(1, 17);
    var data := head + [true];
    ToBitsPrefix(1, 8, 9);
    Pow2Monotone(1, 9);
    LowSmall(1, 9);
    ToBitsOfZero(8);
    assert head[..8] == Zeros(8);
    assert data[1..8] == Zeros(7);
    FromBitsZeros(7);
    assert data[8..8] == [];
    assert Encoded(c, [true]) == [] + (head + [true]) == data;
    assert !data[0];
    assert ReadDeterminant(data, 0) == Some(Announced(0, false, 8));
    assert ReadPieces(c, data, 0) == Some(([], 8));
  }

  /** The decoded size meets the lower bound if and only if the size was checked against the
      constraint or meets it by itself: in the general form nothing is added. */
  lemma SizeMeetsLowerBound(c: Size, s: seq<u8>, before: seq<bool>, after: seq<bool>)
    requires Encodable(c, TrimmedLength(Bits(s))) && Legible(c, TrimmedLength(Bits(s)))
    ensures var n := TrimmedLength(Bits(s));
      var r := ReadBitString(c, before + Encoded(c, Bits(s)[..n]) + after, |before|);
      r.Some? && (|r.value.0| >= c.lowerBound <==> InRoot(c, n) || n >= c.lowerBound)
  {
    hide Bits, Encoded, ReadBitString, TrimmedLength;
    UperRoundTrip(c, s, 0, before, after);
  }

  /** A string without ones in a type of at least one bit and no bound the encoding sees. */
  lemma EmptyUnderLowerBound()
    ensures var c := Size(false, -1, 1, 131072);
      Encodable(c, 0) && ReadBitString(c, Encoded(c, []), 0) == Some(([], 8))
  {
    hide ReadPieces, GeneralForm;
    var c := Size(false, -1, 1, 131072);
    GeneralRoundTrip(c, [], [], []);
    assert [] + GeneralForm([]) + [] == GeneralForm([]);
    FormUnfolds([]);
    assert [] + GeneralForm([]) == GeneralForm([]);
  }

  // ----- the encoder

  /** The `do` loop of the general form, over the first `sizeInBits` bits. */
  method PutPieces(po: BitOut, bytes: seq<u8>, sizeInBits: nat)
    requires sizeInBits <= 8 * |bytes|
    requires po.Valid()
    modifies po, po.tmpspace
    ensures po.Valid()
    ensures po.bits == old(po.bits) + GeneralForm(Bits(bytes)[..sizeInBits])
  {
    hide po.Valid, Bits, GeneralForm, LengthPrefix, Fragment;
    ghost var start, all := po.bits, Bits(bytes)[..sizeInBits];
    var off: nat, left: nat := 0, sizeInBits;
    assert all[0..] == all;
    while true
      invariant po.Valid() && 8 * off + left == sizeInBits
      invariant po.bits + GeneralForm(all[8 * off..]) == start + GeneralForm(all)
      decreases left
    {
      ghost var rest, was := all[8 * off..], po.bits;
      var maySave, needEom := UperPutLength(po, left);
      FragmentsAreOctets(left);
      BitsSuffix(bytes, off);
      assert Bits(bytes[off..])[..maySave] == rest[..maySave];
      po.PutManyBits(bytes[off..], maySave);
      assert rest[maySave..] == all[8 * off + maySave..];
      ghost var tail := if left < FRAGMENT then [] else GeneralForm(rest[maySave..]);
      assert po.bits + tail == was + GeneralForm(rest) by {
        FormUnfolds(rest);
        ConcatAssoc(was, LengthPrefix(left), rest[..maySave], tail);
      }
      off := off + maySave / 8;
      left := left - maySave;
      if needEom {
        ghost var almost := po.bits;
        NothingForm();
        var _, _ := UperPutLength(po, 0);
        assert rest[maySave..] == [];
        assert po.bits == start + GeneralForm(all);
      }
      if left == 0 {
        assert po.bits == start + GeneralForm(all);
        break;
      }
    }
  }

  lemma FormUnfolds(s: seq<bool>)
    ensures GeneralForm(s) == LengthPrefix(|s|) + s[..Fragment(|s|)] +
      (if |s| < FRAGMENT then [] else GeneralForm(s[Fragment(|s|)..]))
  {}

  lemma NothingForm()
    ensures GeneralForm([]) == LengthPrefix(0)
  {}

  /** The zeros that bring a string up to the lower bound, sixteen octets at a time. */
  method PutTrailer(po: BitOut, trailingZeroBits: nat)
    requires po.Valid()
    modifies po, po.tmpspace
    ensures po.Valid()
    ensures po.bits == old(po.bits) + Zeros(trailingZeroBits)
  {
    hide po.Valid, Bits;
    var zeros: seq<u8> := seq(16, i => 0);
    ZeroOctets(zeros);
    ghost var start := po.bits;
    var left: nat := trailingZeroBits;
    while left > 0
      invariant po.Valid() && left <= trailingZeroBits && po.bits == start + Zeros(trailingZeroBits - left)
    {
      ghost var done := trailingZeroBits - left;
      if left > 8 * |zeros| {
        po.PutManyBits(zeros, 8 * |zeros|);
        left := left - 8 * |zeros|;
      } else {
        po.PutManyBits(zeros, left);
        left := 0;
      }
      assert Zeros(trailingZeroBits - left) == Zeros(done) + Zeros(trailingZeroBits - left - done);
    }
  }

  lemma ZeroOctets(zeros: seq<u8>)
    requires forall i :: 0 <= i < |zeros| ==> zeros[i] == 0
    ensures Bits(zeros) == Zeros(8 * |zeros|)
  {
    hide Bits, Bit;
    forall k | 0 <= k < 8 * |zeros|
      ensures !Bits(zeros)[k]
    {
      OctetOfBits(zeros, k);
      ZeroHasNoBit(7 - k % 8);
    }
  }

  /** The bit string is one the encoder takes: no buffer only if empty, and a sound count of unused bits. */
  predicate Acceptable(st: BIT_STRING)
    reads st
  {
    && (st.buf == null ==> st.size == 0)
    && 0 <= st.bitsUnused < 8 && (st.size == 0 ==> st.bitsUnused == 0)
  }

  /** `BIT_STRING_encode_uper`. */
  method EncodeUper(c: Size, st: BIT_STRING, po: BitOut) returns (ok: bool)
    requires (st.buf != null ==> st.size <= st.buf.Length) && st.buf != po.tmpspace
    requires po.Valid()
    modifies po, po.tmpspace
    ensures po.Valid()
    ensures ok ==> Acceptable(st)
    ensures Acceptable(st) ==> ok == Encodable(c, TrimmedLength(Bits(st.Contents())))
    ensures ok ==>
      var s := Bits(st.Contents());
      po.bits == old(po.bits) + Encoded(c, s[..TrimmedLength(s)])
  {
    hide po.Valid, Bits, Encoded, TrimmedLength;
    if st.buf == null && st.size != 0 {
      return false;
    }
    if (st.size == 0 && st.bitsUnused != 0) || !(0 <= st.bitsUnused <= 7) {
      return false;
    }
    var bytes, sizeInBits := CompactBits(st);
    ok := EncodeBits(c, po, bytes, sizeInBits);
  }

  /** The octets up to the last set bit, and the number of bits up to it. */
  method CompactBits(st: BIT_STRING) returns (bytes: seq<u8>, sizeInBits: nat)
    requires st.Valid() && (st.size == 0 ==> st.bitsUnused == 0)
    ensures sizeInBits <= 8 * |bytes|
    ensures var s := Bits(st.Contents());
      sizeInBits == TrimmedLength(s) && Bits(bytes)[..sizeInBits] == s[..sizeInBits]
  {
    hide Bits, TrimmedLength;
    var compact := new BIT_STRING();
    var b := st.Compactify(compact);
    sizeInBits := 8 * b.size - b.bitsUnused;
    bytes := b.Contents();
    BitsPrefix(st.Contents(), b.size);
    assert bytes == st.Contents()[..b.size];
  }

  method EncodeBits(c: Size, po: BitOut, bytes: seq<u8>, sizeInBits: nat) returns (ok: bool)
    requires sizeInBits <= 8 * |bytes|
    requires po.Valid()
    modifies po, po.tmpspace
    ensures po.Valid()
    ensures ok == Encodable(c, sizeInBits)
    ensures ok ==> po.bits == old(po.bits) + Encoded(c, Bits(bytes)[..sizeInBits])
  {
    hide po.Valid, Bits, ToBits, GeneralForm, RootBits;
    var inext := false;
    if c.effectiveBits >= 0 {
      if sizeInBits > c.upperBound {
        if c.extensible {
          inext := true;
        } else {
          return false;
        }
      }
    }
    ghost var t, start := Bits(bytes)[..sizeInBits], po.bits;
    ghost var ext := if c.extensible then [inext] else [];
    if c.extensible {
      ToOneBit(if inext then 1 else 0);
      var _ := po.PutFewBits(if inext then 1 else 0, 1);
    }
    assert po.bits == start + ext;
    if c.effectiveBits >= 0 && !inext {
      ok := PutRoot(c, po, bytes, sizeInBits);
      ConcatAssoc(start, ext, RootBits(c, t), []);
      return;
    }
    PutPieces(po, bytes, sizeInBits);
    ConcatAssoc(start, ext, GeneralForm(t), []);
    ok := true;
  }

  /** Length and contents of a string that the constraint admits. */
  method PutRoot(c: Size, po: BitOut, bytes: seq<u8>, sizeInBits: nat) returns (ok: bool)
    requires c.effectiveBits >= 0 && sizeInBits <= 8 * |bytes|
    requires po.Valid()
    modifies po, po.tmpspace
    ensures po.Valid()
    ensures ok == (c.effectiveBits <= 31)
    ensures ok ==> po.bits == old(po.bits) + RootBits(c, Bits(bytes)[..sizeInBits])
  {
    hide po.Valid, Bits, ToBits;
    ghost var t := Bits(bytes)[..sizeInBits];
    ghost var start := po.bits;
    var addTrailer := sizeInBits < c.lowerBound;
    var failed := po.PutFewBits(if addTrailer then 0 else sizeInBits - c.lowerBound, c.effectiveBits);
    if failed {
      return false;
    }
    ghost var head := ToBits(|Widened(c, t)| - c.lowerBound, c.effectiveBits);
    assert po.bits == start + head;
    po.PutManyBits(bytes, sizeInBits);
    if addTrailer {
      PutTrailer(po, c.lowerBound - sizeInBits);
    }
    assert po.bits == start + head + Widened(c, t);
    ConcatAssoc(start, head, Widened(c, t), []);
    ok := true;
  }

  // ----- the decoder

  /** `uper_get_length`. */
  method GetLength(c: Size, pd: BitIn) returns (value: int, repeat: bool)
    requires pd.Valid()
    modifies pd
    ensures pd.Valid() && pd.pos <= |pd.data| && value >= -1
    ensures var r := ReadLength(c, pd.data, old(pd.pos));
      if value < 0 then r == None else r == Some(Announced(value, repeat, pd.pos))
  {
    assert pd.pos <= |pd.data|;
    hide pd.Valid, FromBits, ReadDeterminant;
    if 0 <= c.effectiveBits <= 16 {
      repeat := false;
      value := pd.GetFewBits(c.effectiveBits);
      if value >= 0 {
        value := value + c.lowerBound;
      }
      return;
    }
    value, repeat := GetDeterminant(pd);
  }

  method Append(st: BIT_STRING, dst: seq<u8>)
    requires st.Valid()
    modifies st`buf, st`size
    ensures st.Valid() && st.buf != null && fresh(st.buf) && st.Contents() == old(st.Contents()) + dst
  {
    var was := st.Contents();
    var p := Grown(was, dst);
    st.buf, st.size := p, |was| + |dst|;
  }

  /** The decoder sets the count of unused bits whatever the length. */
  predicate AlwaysCounts(c: Size, data: seq<bool>, pos: nat)
    requires pos < |data| || !c.extensible
  {
    c.effectiveBits == 0 && !(c.extensible && data[pos])
  }

  /** The count of unused bits after a string of `n` bits, `was` before: a length that fills its
      last octet leaves the count as it was. */
  function UnusedAfter(c: Size, data: seq<bool>, pos: nat, n: nat, was: int): int
    requires pos < |data| || !c.extensible
  {
    if AlwaysCounts(c, data, pos) then (8 - n % 8) % 8 else if n % 8 != 0 then 8 - n % 8 else was
  }

  /** The count is right except when a string of whole octets and of variable size is decoded
      over an earlier one with unused bits. */
  lemma CountIsRight(c: Size, data: seq<bool>, pos: nat, n: nat, was: int)
    requires pos < |data| || !c.extensible
    ensures 8 * ((n + 7) / 8) - UnusedAfter(c, data, pos, n, was) == n
       <==> n % 8 != 0 || was == 0 || AlwaysCounts(c, data, pos)
  {
    if n % 8 == 0 {
      assert (n + 7) / 8 == n / 8;
    } else {
      assert (n + 7) / 8 == n / 8 + 1;
    }
  }

  /** Decoded over a string with three unused bits, one octet counts as five bits. */
  lemma StaleCount(octet: u8)
    ensures var c := Size(false, 8, 0, 255);
      var data := ToBits(8, 8) + ToBits(octet, 8);
      && ReadBitString(c, data, 0) == Some((ToBits(octet, 8), 16))
      && 8 * 1 - UnusedAfter(c, data, 0, 8, 3) == 5
  {
    hide ToBits, FromBits;
    var data := ToBits(8, 8) + ToBits(octet, 8);
    FromToBits(8, 8);
    WidthFacts();
    LowSmall(8, 8);
    assert data[0..8] == ToBits(8, 8);
    assert data[8..16] == ToBits(octet, 8);
  }

  /** `BIT_STRING_decode_uper`. */
  method DecodeUper(c: Size, st: BIT_STRING, pd: BitIn) returns (ok: bool)
    requires st.Valid() && pd.Valid()
    modifies st, pd
    ensures st.Valid() && pd.Valid()
    ensures ok <==> ReadBitString(c, pd.data, old(pd.pos)).Some?
    ensures ok ==>
      var r := ReadBitString(c, pd.data, old(pd.pos)).value;
      && pd.pos == r.1 && Bits(st.Contents()) == Padded(r.0)
      && st.bitsUnused == UnusedAfter(c, pd.data, old(pd.pos), |r.0|, old(st.bitsUnused))
  {
    hide ReadPieces, Bits, Padded, FromBits;
    assert pd.pos <= |pd.data|;
    hide pd.Valid;
    var csiz := c;
    if c.extensible {
      var inext := pd.GetFewBits(1);
      if inext < 0 {
        return false;
      }
      FromOneBit(pd.data[pd.pos - 1..pd.pos]);
      if inext != 0 {
        csiz := ANY_SIZE;
      }
    }
    if csiz.effectiveBits >= 0 {
      st.size := (csiz.upperBound + 7) / 8;
      st.buf := new u8[st.size + 1];
    }
    if csiz.effectiveBits == 0 {
      ok := GetFixed(csiz, st, pd);
      return;
    }
    st.size := 0;
    ok := GetPieces(csiz, st, pd);
  }

  /** A string of one possible size. */
  method GetFixed(c: Size, st: BIT_STRING, pd: BitIn) returns (ok: bool)
    requires st.Valid() && pd.Valid() && c.effectiveBits == 0
    modifies st, pd
    ensures st.Valid() && pd.Valid()
    ensures ok <==> ReadBody(c, pd.data, old(pd.pos)).Some?
    ensures ok ==>
      var r := ReadBody(c, pd.data, old(pd.pos)).value;
      pd.pos == r.1 && Bits(st.Contents()) == Padded(r.0) && st.bitsUnused == (8 - |r.0| % 8) % 8
  {
    hide pd.Valid, Bits, Padded, BytesOf, BytesBetween;
    ghost var p := pd.pos;
    var got, dst := pd.GetManyBits(false, c.upperBound);
    if !got {
      return false;
    }
    st.size := 0;
    Append(st, dst);
    assert [] + dst == dst;
    BitsBetween(pd.data, p, pd.pos);
    st.bitsUnused := (8 - c.upperBound % 8) % 8;
    ok := true;
  }

  /** The `do` loop of the decoder. */
  method GetPieces(c: Size, st: BIT_STRING, pd: BitIn) returns (ok: bool)
    requires st.Valid() && st.size == 0 && pd.Valid() && c.effectiveBits != 0
    modifies st, pd
    ensures st.Valid() && pd.Valid()
    ensures ok <==> ReadPieces(c, pd.data, old(pd.pos)).Some?
    ensures ok ==>
      var r := ReadPieces(c, pd.data, old(pd.pos)).value;
      && pd.pos == r.1 && Bits(st.Contents()) == Padded(r.0)
      && st.bitsUnused == if |r.0| % 8 != 0 then 8 - |r.0| % 8 else old(st.bitsUnused)
  {
    hide ReadPieces, ReadLength, Bits, Padded, Piece, Prepended;
    ghost var whole := ReadPieces(c, pd.data, pd.pos);
    ghost var soFar: seq<bool> := [];
    NoOctets(st.Contents());
    NothingPrepended(whole);
    var repeat := true;
    while repeat
      invariant st.Valid() && pd.Valid()
      invariant repeat ==> |soFar| % 8 == 0 && whole == Prepended(soFar, ReadPieces(c, pd.data, pd.pos))
      invariant !repeat ==> whole == Some((soFar, pd.pos))
      invariant Bits(st.Contents()) == Padded(soFar)
      invariant st.bitsUnused == if |soFar| % 8 != 0 then 8 - |soFar| % 8 else old(st.bitsUnused)
      decreases repeat, |pd.data| - pd.pos
    {
      PieceExtends(c, pd.data, pd.pos, soFar, whole);
      ghost var piece := Piece(c, pd.data, pd.pos);
      ok, repeat := GetPiece(c, st, pd);
      if !ok {
        return;
      }
      soFar := soFar + piece;
    }
    ok := true;
  }

  /** The length at `pos` is there and so are the bits it announces. */
  predicate HasPiece(c: Size, data: seq<bool>, pos: nat) {
    match ReadLength(c, data, pos)
    case None => false
    case Some(l) => l.end + l.count <= |data|
  }

  /** A piece brings the whole string nearer, and fills the octets behind the earlier pieces. */
  lemma PieceExtends(c: Size, data: seq<bool>, pos: nat, soFar: seq<bool>, whole: Option<(seq<bool>, nat)>)
    requires |soFar| % 8 == 0 && whole == Prepended(soFar, ReadPieces(c, data, pos))
    ensures !HasPiece(c, data, pos) ==> whole == None
    ensures HasPiece(c, data, pos) ==>
      var l, next := ReadLength(c, data, pos).value, soFar + Piece(c, data, pos);
      && |next| % 8 == |Piece(c, data, pos)| % 8 == l.count % 8
      && Padded(soFar) + Padded(Piece(c, data, pos)) == Padded(next)
      && (l.repeat ==> l.count % 8 == 0)
      && whole == (if l.repeat then Prepended(next, ReadPieces(c, data, l.end + l.count))
                   else Some((next, l.end + l.count)))
  {
    hide *;
    NextWhole(c, data, pos, soFar);
    if HasPiece(c, data, pos) {
      PaddedConcat(soFar, Piece(c, data, pos));
      PieceLength(c, data, pos);
      LengthsAddUp(soFar, Piece(c, data, pos));
    }
  }

  lemma LengthsAddUp(s: seq<bool>, t: seq<bool>)
    requires |s| % 8 == 0
    ensures |s + t| % 8 == |t| % 8
  {}

  lemma PieceLength(c: Size, data: seq<bool>, pos: nat)
    requires HasPiece(c, data, pos)
    ensures ReadLength(c, data, pos).Some?
    ensures |Piece(c, data, pos)| == ReadLength(c, data, pos).value.count
  {
    hide ReadLength;
  }

  lemma NextWhole(c: Size, data: seq<bool>, pos: nat, soFar: seq<bool>)
    ensures Prepended(soFar, ReadPieces(c, data, pos)) ==
      if !HasPiece(c, data, pos) then None
      else
        var l, next := ReadLength(c, data, pos).value, soFar + Piece(c, data, pos);
        if l.repeat then Prepended(next, ReadPieces(c, data, l.end + l.count)) else Some((next, l.end + l.count))
  {
    hide ReadPieces, ReadLength;
    PiecesUnfold(c, data, pos);
    if HasPiece(c, data, pos) {
      var l := ReadLength(c, data, pos).value;
      PrependedTwice(soFar, Piece(c, data, pos), ReadPieces(c, data, l.end + l.count));
    }
  }

  /** The contents announced by the length at `pos`, if they are there. */
  ghost function Piece(c: Size, data: seq<bool>, pos: nat): seq<bool> {
    match ReadLength(c, data, pos)
    case None => []
    case Some(l) => if l.end + l.count <= |data| then data[l.end..l.end + l.count] else []
  }

  /** One turn of that loop. */
  method GetPiece(c: Size, st: BIT_STRING, pd: BitIn) returns (ok: bool, repeat: bool)
    requires st.Valid() && pd.Valid()
    modifies st, pd
    ensures st.Valid() && pd.Valid()
    ensures ok <==> HasPiece(c, pd.data, old(pd.pos))
    ensures ok ==>
      var l, piece := ReadLength(c, pd.data, old(pd.pos)).value, Piece(c, pd.data, old(pd.pos));
      && repeat == l.repeat && pd.pos == l.end + l.count
      && Bits(st.Contents()) == old(Bits(st.Contents())) + Padded(piece)
      && st.bitsUnused == if |piece| % 8 != 0 then 8 - |piece| % 8 else old(st.bitsUnused)
  {
    hide ReadLength, Bits, BytesOf, Padded;
    ghost var was := st.Contents();
    var rawLength: int;
    rawLength, repeat := GetLength(c, pd);
    if rawLength < 0 {
      return false, false;
    }
    RepeatedAreOctets(c, pd.data, old(pd.pos));
    if rawLength == 0 && st.buf != null {
      PaddedConcat([], []);
      assert Bits(was) + [] == Bits(was);
      return true, repeat;
    }
    ok := TakeBits(st, pd, rawLength);
  }

  /** The announced bits, appended to the buffer. */
  method TakeBits(st: BIT_STRING, pd: BitIn, lenBits: nat) returns (ok: bool)
    requires st.Valid() && pd.Valid()
    modifies st, pd
    ensures st.Valid() && pd.Valid()
    ensures ok <==> old(pd.pos) + lenBits <= |pd.data|
    ensures ok ==>
      && pd.pos == old(pd.pos) + lenBits
      && Bits(st.Contents()) == old(Bits(st.Contents())) + Padded(pd.data[old(pd.pos)..pd.pos])
      && st.bitsUnused == if lenBits % 8 != 0 then 8 - lenBits % 8 else old(st.bitsUnused)
  {
    hide Bits, BytesOf, Padded;
    ghost var was, q := st.Contents(), pd.pos;
    if lenBits % 8 != 0 {
      st.bitsUnused := 8 - lenBits % 8;
    }
    var dst: seq<u8>;
    ok, dst := pd.GetManyBits(false, lenBits);
    if !ok {
      return;
    }
    BitsBetween(pd.data, q, pd.pos);
    BitsConcat(was, dst);
    Append(st, dst);
  }

  lemma BitsBetween(data: seq<bool>, i: nat, j: nat)
    requires i <= j <= |data|
    ensures Bits(BytesBetween(data, i, j)) == Padded(data[i..j])
  {
    BetweenIsBytes(data, i, j);
    BitsOfBytes(data[i..j]);
  }

  lemma RepeatedAreOctets(c: Size, data: seq<bool>, pos: nat)
    ensures var l := ReadLength(c, data, pos); l.Some? && l.value.repeat ==> l.value.count % 8 == 0
  {
    hide FromBits;
  }

  lemma PiecesUnfold(c: Size, data: seq<bool>, pos: nat)
    ensures var l := ReadLength(c, data, pos);
      ReadPieces(c, data, pos) ==
        if l == None || l.value.end + l.value.count > |data| then None
        else
          var piece := data[l.value.end..l.value.end + l.value.count];
          if l.value.repeat then Prepended(piece, ReadPieces(c, data, l.value.end + l.value.count))
          else Some((piece, l.value.end + l.value.count))
  {
    hide ReadLength;
  }

  lemma NoOctets(s: seq<u8>)
    requires s == []
    ensures Bits(s) == []
  {}

  // ----- sizes as sections 16.8 to 16.11 of X.691 write them

  /** A size between bounds, in as many bits as the bounds ask for, after the extension bit. */
  function StandardSized(lower: nat, upper: nat, extensible: bool, s: seq<bool>): seq<bool>
    requires lower <= |s| <= upper
  {
    (if extensible then [false] else []) + ToBits(|s| - lower, Width(upper - lower + 1)) + s
  }

  /** Sizes between the bounds are written so, shorter strings are filled with zeros, and longer
      ones go behind a set extension bit in the general form. */
  lemma SizeIsStandard(lower: nat, upper: nat, extensible: bool, s: seq<bool>)
    requires lower <= upper
    ensures var c := Size(extensible, Width(upper - lower + 1), lower, upper);
      && (lower <= |s| <= upper ==> Encoded(c, s) == StandardSized(lower, upper, extensible, s))
      && (|s| < lower ==>
            Encoded(c, s) == StandardSized(lower, upper, extensible, s + Zeros(lower - |s|)))
      && (|s| > upper && extensible ==> Encoded(c, s) == [true] + GeneralForm(s))
      && (Encodable(c, |s|) <==> if |s| <= upper then Width(upper - lower + 1) <= 31 else extensible)
  {
    hide ToBits, GeneralForm, Width;
    assert s + Zeros(0) == s;
  }

  /** Without an upper bound every size goes in the general form. */
  lemma UnboundedIsGeneral(c: Size, s: seq<bool>)
    requires c.effectiveBits < 0
    ensures Encoded(c, s) == (if c.extensible then [false] else []) + GeneralForm(s)
    ensures Encodable(c, |s|)
  {}

  /** The bits of a string whose size is in a field, or known. */
  predicate IsSized(c: Size, b: seq<bool>, t: seq<bool>)
    requires c.effectiveBits >= 0
  {
    if c.effectiveBits == 0 then b == t && |t| == c.upperBound
    else
      && |t| >= c.lowerBound && |t| - c.lowerBound < Pow2(c.effectiveBits)
      && b == ToBits(|t| - c.lowerBound, c.effectiveBits) + t
  }

  /** The reader takes exactly these. */
  lemma SizeIsRead(c: Size, data: seq<bool>, pos: nat, t: seq<bool>, end: nat)
    requires 0 <= c.effectiveBits <= 16 && pos <= |data|
    ensures ReadBody(c, data, pos) == Some((t, end)) <==> pos <= end <= |data| && IsSized(c, data[pos..end], t)
  {
    hide IsSized, ReadBody;
    if ReadBody(c, data, pos) == Some((t, end)) {
      ReadIsSized(c, data, pos);
    }
    if pos <= end <= |data| && IsSized(c, data[pos..end], t) {
      SizedIsRead(c, data, pos, t, end);
    }
  }

  lemma ReadIsSized(c: Size, data: seq<bool>, pos: nat)
    requires 0 <= c.effectiveBits <= 16 && pos <= |data| && ReadBody(c, data, pos).Some?
    ensures var r := ReadBody(c, data, pos).value; pos <= r.1 <= |data| && IsSized(c, data[pos..r.1], r.0)
  {
    hide ToBits, FromBits, Pow2, ReadBody;
    var e := c.effectiveBits;
    var t := ReadBody(c, data, pos).value.0;
    BodyIs(c, data, pos);
    if e > 0 {
      FieldAndRest(data, pos, e, |t|);
      FieldIsSize(data[pos..pos + e], c.lowerBound, |t|);
    }
  }

  lemma SizedIsRead(c: Size, data: seq<bool>, pos: nat, t: seq<bool>, end: nat)
    requires 0 <= c.effectiveBits <= 16 && pos <= end <= |data| && IsSized(c, data[pos..end], t)
    ensures ReadBody(c, data, pos) == Some((t, end))
  {
    hide ToBits, FromBits, Pow2, ReadBody;
    var e := c.effectiveBits;
    BodyIs(c, data, pos);
    if e > 0 {
      var f, b := ToBits(|t| - c.lowerBound, e), data[pos..end];
      assert |b| == e + |t|;
      FieldAndRest(data, pos, e, |t|);
      FieldThenRest(data[pos..pos + e], data[pos + e..pos + e + |t|], f, t);
      FieldIsSize(f, c.lowerBound, |t|);
    }
  }

  lemma FieldThenRest(f: seq<bool>, r: seq<bool>, g: seq<bool>, t: seq<bool>)
    requires |f| == |g|
    ensures f + r == g + t <==> f == g && r == t
  {
    assert (f + r)[..|f|] == f && (f + r)[|f|..] == r;
    assert (g + t)[..|g|] == g && (g + t)[|g|..] == t;
  }

  lemma BodyIs(c: Size, data: seq<bool>, pos: nat)
    requires 0 <= c.effectiveBits <= 16 && pos <= |data|
    ensures var p := pos + c.effectiveBits;
      ReadBody(c, data, pos) ==
        if c.effectiveBits == 0 then
          if pos + c.upperBound > |data| then None else Some((data[pos..pos + c.upperBound], pos + c.upperBound))
        else if p > |data| then None
        else
          var n := FromBits(data[pos..p]) + c.lowerBound;
          if p + n > |data| then None else Some((data[p..p + n], p + n))
  {
    hide FromBits;
  }

  lemma FieldIsSize(f: seq<bool>, lower: nat, n: nat)
    ensures n == FromBits(f) + lower <==> n >= lower && n - lower < Pow2(|f|) && f == ToBits(n - lower, |f|)
  {
    hide ToBits, FromBits, Pow2;
    FromBitsBound(f);
    ToFromBits(f);
    if n >= lower && n - lower < Pow2(|f|) {
      FromToBits(n - lower, |f|);
      LowSmall(n - lower, |f|);
    }
  }

  lemma FieldAndRest(data: seq<bool>, pos: nat, e: nat, n: nat)
    requires pos + e + n <= |data|
    ensures var b := data[pos..pos + e + n];
      b == data[pos..pos + e] + data[pos + e..pos + e + n] && b[..e] == data[pos..pos + e]
        && b[e..] == data[pos + e..pos + e + n]
  {}
}
