/** The `INTEGER_t` buffer and its conversions to and from 64-bit integers. */
module Integer {
  import opened Words
  import opened TwosComplement

  datatype Conversion = Value(value: int) | OutOfRange | Invalid

  /** The 64 bits of a signed value. */
  function ToU64(v: i64): u64 {
    if v < 0 then v + TWO_64 else v
  }

  /** The signed value of 64 bits. */
  function ToI64(w: u64): i64 {
    if w > INT64_MAX then w - TWO_64 else w
  }

  /** The number in a buffer, read the way the type says. */
  function Number(isUnsigned: bool, s: seq<u8>): int {
    if isUnsigned then Unsigned(s) else Signed(s)
  }

  /** The number has 64 bits, with or without a sign. */
  predicate Fits(isUnsigned: bool, v: int) {
    if isUnsigned then 0 <= v < TWO_64 else FitsI64(v)
  }

  class INTEGER {
    var buf: array?<u8>
    var size: nat

    constructor ()
      ensures Valid() && buf == null
    {
      buf, size := null, 0;
    }

    ghost predicate Valid()
      reads this
    {
      if buf == null then size == 0 else size <= buf.Length
    }

    ghost function Contents(): seq<u8>
      requires Valid()
      reads this, if buf == null then {} else {buf}
    {
      if buf == null then [] else buf[..size]
    }

    /** `INTEGER_st_prealloc`: an empty buffer for `minSize` octets and a terminator. */
    method Preallocate(minSize: nat)
      modifies this
      ensures Valid() && buf != null && fresh(buf) && size == 0 && buf.Length == minSize + 1
    {
      buf := new u8[minSize + 1];
      size := 0;
    }

    method Append(b: u8)
      requires Valid() && buf != null && size < buf.Length
      modifies this`size, buf
      ensures Valid() && buf == old(buf) && Contents() == old(Contents()) + [b]
    {
      buf[size] := b;
      size := size + 1;
    }

    method Terminate()
      requires Valid() && buf != null && size < buf.Length
      modifies buf
      ensures Valid() && Contents() == old(Contents())
    {
      buf[size] := 0;
    }

    /** The octets `INTEGER_encode_der` hands to the primitive encoder. */
    method CanonicalContents() returns (e: seq<u8>)
      requires Valid()
      ensures e == Stripped(Contents())
    {
      if buf == null {
        return [];
      }
      var b := SkipRedundant();
      e := buf[b..size];
    }

    /** The loop that steps over superfluous leading octets. */
    method SkipRedundant() returns (b: nat)
      requires Valid() && buf != null
      ensures b <= size && buf[b..size] == Stripped(Contents())
      ensures size > 0 ==> b < size
    {
      hide Stripped;
      ghost var s := Contents();
      b := 0;
      assert s[0..] == s;
      while b + 1 < size
        invariant b <= size && (size > 0 ==> b < size)
        invariant Stripped(s[b..]) == Stripped(s)
      {
        StripStep(s, b);
        if !RedundantPair(buf[b], buf[b + 1]) {
          break;
        }
        b := b + 1;
      }
      if b + 1 >= size {
        StripEnd(s, b);
      }
      assert buf[b..size] == s[b..];
    }

    method Convert(b: nat) returns (v: i64)
      requires Valid() && buf != null && b < size <= b + 8
      ensures v == Signed(buf[b..size])
    {
      hide Pow2, BytesValue, SignedPrefix, Signed, Or, Low, Shl;
      ghost var s := buf[b..size];
      assert Negative(s) <==> buf[b] >= 0x80;
      var value: u64 := if buf[b] / 0x80 == 1 then TWO_64 - 1 else 0;
      StartOfPrefix(s);
      for i := b to size
        invariant value == SignedPrefix(s, i - b) % TWO_64
      {
        assert s[i - b] == buf[i];
        NextOfPrefix(s, i - b);
        AppendIsSum(value, buf[i]);
        value := AppendOctet(value, buf[i]);
      }
      WholePrefix(s);
      v := ToI64(value);
    }

    /** `asn_INTEGER2imax`. */
    method ToImax() returns (r: Conversion)
      requires Valid()
      ensures buf == null ==> r == Invalid
      ensures buf != null ==>
        r == if INT64_MIN <= Signed(Contents()) <= INT64_MAX then Value(Signed(Contents())) else OutOfRange
    {
      hide Signed, Stripped, Pow2;
      if buf == null {
        return Invalid;
      }
      ghost var s := Contents();
      var b := 0;
      assert buf[b..size] == s;
      if size > 8 {
        b := SkipRedundant();
        FitsIfStripped(s);
        if size - b > 8 {
          return OutOfRange;
        }
      }
      if b == size {
        SignedOfNothing();
        return Value(0);
      }
      StrippedKeepsValue(s);
      ShortFits(buf[b..size]);
      var v := Convert(b);
      r := Value(v);
    }

    /** `asn_INTEGER2umax`: octets beyond eight must be zero; a sign is not looked at. */
    method ToUmax() returns (r: Conversion)
      requires Valid()
      ensures buf == null ==> r == Invalid
      ensures buf != null ==>
        r == if Unsigned(Contents()) < TWO_64 then Value(Unsigned(Contents())) else OutOfRange
    {
      hide Pow2, BytesValue, Or, Low, Shl;
      if buf == null {
        return Invalid;
      }
      ghost var s := Contents();
      var b := 0;
      var left := size;
      EmptyValue(s);
      while left > 8
        invariant b + left == size
        invariant BytesValue(s, 0, b) == 0
      {
        if buf[b] != 0 {
          LargeUnsigned(s, b);
          return OutOfRange;
        }
        NextValue(s, b);
        b := b + 1;
        left := left - 1;
      }
      TailIsSmall(s, b);
      var value: u64 := 0;
      for i := b to size
        invariant value == BytesValue(s, 0, i)
      {
        NextValue(s, i);
        PrefixIsSmall(s, i + 1);
        AppendIsSum(value, buf[i]);
        value := AppendOctet(value, buf[i]);
      }
      r := Value(value);
    }

    /** `asn_imax2INTEGER`, and `asn_int642INTEGER` which is the same. */
    method FromImax(value: i64)
      requires Valid()
      modifies this
      ensures Valid() && buf != null && fresh(buf)
      ensures Signed(Contents()) == value && Minimal(Contents())
      ensures Contents() == Stripped(BeBytes(ToU64(value), 8))
    {
      hide Signed, Pow2, Unsigned, Stripped, BeBytes;
      // the octets of `value` in memory, highest first
      var octets := BeBytes(ToU64(value), 8);
      ValueOfOctets(value);
      StrippedKeepsValue(octets);
      var p := 0;
      assert octets[0..] == octets;
      while p != 7
        invariant 0 <= p <= 7
        invariant Stripped(octets[p..]) == Stripped(octets)
        decreases 7 - p
      {
        StripStep(octets, p);
        if !RedundantPair(octets[p], octets[p + 1]) {
          break;
        }
        p := p + 1;
      }
      if p == 7 {
        StripEnd(octets, p);
      }
      CopyBody(octets, p);
    }

    // Copies the octets from `p` on into a fresh buffer.
    method CopyBody(octets: seq<u8>, p: nat)
      requires |octets| == 8 && p <= 7
      modifies this
      ensures Valid() && buf != null && fresh(buf)
      ensures Contents() == octets[p..]
    {
      var fill := new u8[8];
      var bp := 0;
      while p + bp != 8
        invariant p + bp <= 8
        invariant fill[..bp] == octets[p..p + bp]
        decreases 8 - bp
      {
        fill[bp] := octets[p + bp];
        assert fill[..bp + 1] == fill[..bp] + [fill[bp]];
        bp := bp + 1;
      }
      assert octets[p..p + bp] == octets[p..];
      buf := fill;
      size := bp;
    }

    /** `asn_umax2INTEGER`, and `asn_uint642INTEGER` which is the same. */
    method FromUmax(value: u64)
      requires Valid()
      modifies this
      ensures Valid() && buf != null && fresh(buf)
      ensures Signed(Contents()) == Unsigned(Contents()) == value && Minimal(Contents())
    {
      hide Pow2, Unsigned, Signed;
      if value <= INT64_MAX {
        FromImax(value);
        UnsignedOfNonNegative(Contents());
        return;
      }
      var octets := BeBytes(value, 8);
      LargeOctets(value);
      var fill := new u8[9];
      fill[0] := 0;
      for i := 0 to 8
        invariant fill[..i + 1] == [0] + octets[..i]
      {
        fill[i + 1] := octets[i];
        assert fill[..i + 2] == fill[..i + 1] + [fill[i + 1]];
        assert octets[..i + 1] == octets[..i] + [octets[i]];
      }
      assert fill[..9] == [0] + octets;
      UnsignedOfNonNegative([0] + octets);
      buf := fill;
      size := 9;
    }
  }

  // ----- steps of the conversions

  /** The two `case` labels of the loops that strip. */
  predicate RedundantPair(b0: u8, b1: u8) {
    (b0 == 0x00 && b1 < 0x80) || (b0 == 0xff && b1 >= 0x80)
  }

  lemma StripStep(s: seq<u8>, b: nat)
    requires b + 1 < |s|
    ensures Stripped(s[b..]) == if RedundantPair(s[b], s[b + 1]) then Stripped(s[b + 1..]) else s[b..]
  {
    assert s[b..][0] == s[b] && s[b..][1] == s[b + 1] && s[b..][1..] == s[b + 1..];
  }

  lemma StripEnd(s: seq<u8>, b: nat)
    requires b <= |s| <= b + 1
    ensures Stripped(s[b..]) == s[b..]
  {}

  lemma FitsIfStripped(s: seq<u8>)
    requires s != []
    ensures |Stripped(s)| <= 8 <==> INT64_MIN <= Signed(s) <= INT64_MAX
  {
    StrippedKeepsValue(s);
    MinimalFits(Stripped(s), 8);
    Pow63();
  }

  lemma ShortFits(s: seq<u8>)
    requires 1 <= |s| <= 8
    ensures INT64_MIN <= Signed(s) <= INT64_MAX
  {
    SignedRange(s);
    Pow63();
    Pow2Monotone(8 * |s| - 1, 63);
  }

  function AppendOctet(value: u64, b: u8): u64 {
    AppendIsSum(value, b);
    Or(Low(Shl(value, 8), 64), b)
  }

  /** On 64 bits, shifting an octet in is multiplying by 256 and adding. */
  lemma AppendIsSum(value: u64, b: u8)
    ensures Or(Low(Shl(value, 8), 64), b) == value * 0x100 % TWO_64 + b
    ensures value * 0x100 % TWO_64 + b == (value * 0x100 + b) % TWO_64
  {
    hide Or, Low, Shl;
    var l := Low(value, 56);
    assert Pow2(8) == 0x100 && Pow2(64) == TWO_64 by {
      WidthFacts();
    }
    LowOfShl(value, 56, 8);
    Disjoint(l, b, 8);
    assert Shl(l, 8) == value * 0x100 % TWO_64 by {
      ShlIsProduct(value, 8);
      ShrLowIsDivMod(Shl(value, 8), 64);
    }
    WholeOctet(value, b);
  }

  lemma WholeOctet(value: u64, b: u8)
    ensures value * 0x100 % TWO_64 + b == (value * 0x100 + b) % TWO_64
  {}

  /** The value of the first `i` octets, extended by the sign of the string. */
  ghost function SignedPrefix(s: seq<u8>, i: nat): int
    requires i <= |s|
  {
    BytesValue(s, 0, i) - (if Negative(s) then Pow2(8 * i) else 0)
  }

  lemma StartOfPrefix(s: seq<u8>)
    ensures SignedPrefix(s, 0) == if Negative(s) then -1 else 0
  {}

  lemma NextOfPrefix(s: seq<u8>, i: nat)
    requires i < |s|
    ensures SignedPrefix(s, i + 1) % TWO_64 == (SignedPrefix(s, i) % TWO_64 * 0x100 + s[i] as int) % TWO_64
  {
    Pow2Byte(i);
    ModAppend(SignedPrefix(s, i), s[i]);
  }

  lemma ModAppend(x: int, b: int)
    ensures (x * 0x100 + b) % TWO_64 == (x % TWO_64 * 0x100 + b) % TWO_64
  {}

  lemma WholePrefix(s: seq<u8>)
    requires 1 <= |s| <= 8
    ensures Signed(s) == SignedPrefix(s, |s|)
    ensures ToI64(SignedPrefix(s, |s|) % TWO_64) == Signed(s)
  {
    SignedRange(s);
    Pow63();
    Pow2Monotone(8 * |s| - 1, 63);
  }

  lemma Pow63()
    ensures Pow2(63) == 0x8000_0000_0000_0000
  {
    WidthFacts();
    assert Pow2(64) == 2 * Pow2(63);
  }

  lemma SignedOfNothing()
    ensures Signed([]) == 0
  {}

  lemma EmptyValue(s: seq<u8>)
    ensures BytesValue(s, 0, 0) == 0
  {}

  lemma NextValue(s: seq<u8>, i: nat)
    requires i < |s|
    ensures BytesValue(s, 0, i + 1) == BytesValue(s, 0, i) * 0x100 + s[i] as nat
  {}

  lemma UnsignedOfEight(s: seq<u8>)
    requires |s| == 8
    ensures Unsigned(s) == (((((((s[0] as nat * 0x100 + s[1]) * 0x100 + s[2]) * 0x100 + s[3]) * 0x100
      + s[4]) * 0x100 + s[5]) * 0x100 + s[6]) * 0x100 + s[7])
  {
    hide BytesValue;
    EmptyValue(s);
    NextValue(s, 0);
    NextValue(s, 1);
    NextValue(s, 2);
    NextValue(s, 3);
    NextValue(s, 4);
    NextValue(s, 5);
    NextValue(s, 6);
    NextValue(s, 7);
  }

  lemma {:induction false} LeadingOctetsScale(s: seq<u8>, i: nat, n: nat)
    requires i <= n <= |s|
    ensures BytesValue(s, 0, n) >= BytesValue(s, 0, i) * Pow2(8 * (n - i))
  {
    if i < n {
      LeadingOctetsScale(s, i, n - 1);
      Pow2Byte(n - 1 - i);
      Scale256(BytesValue(s, 0, i), Pow2(8 * (n - 1 - i)));
    }
  }

  lemma LargeUnsigned(s: seq<u8>, b: nat)
    requires b + 8 < |s| && s[b] != 0
    ensures Unsigned(s) >= TWO_64
  {
    hide Pow2;
    NextValue(s, b);
    LeadingOctetsScale(s, b + 1, |s|);
    WidthFacts();
    Pow2Monotone(64, 8 * (|s| - (b + 1)));
    ScaledAtLeast(BytesValue(s, 0, b + 1), 1, Pow2(8 * (|s| - (b + 1))));
  }

  lemma {:induction false} TailIsSmall(s: seq<u8>, b: nat)
    requires b <= |s| <= b + 8 && BytesValue(s, 0, b) == 0
    ensures forall i :: b <= i <= |s| ==> BytesValue(s, 0, i) < TWO_64
  {
    forall i | b <= i <= |s|
      ensures BytesValue(s, 0, i) < TWO_64
    {
      ZeroPrefix(s, b, i);
      BytesValueBound(s, b, i - b);
      WidthFacts();
      Pow2Monotone(8 * (i - b), 64);
    }
  }

  lemma {:induction false} ZeroPrefix(s: seq<u8>, b: nat, i: nat)
    requires b <= i <= |s| && BytesValue(s, 0, b) == 0
    ensures BytesValue(s, 0, i) == BytesValue(s, b, i - b)
  {
    if b < i {
      ZeroPrefix(s, b, i - 1);
    }
  }

  lemma PrefixIsSmall(s: seq<u8>, i: nat)
    requires i <= |s| && BytesValue(s, 0, i) < TWO_64
    ensures BytesValue(s, 0, i) % TWO_64 == BytesValue(s, 0, i)
  {}

  lemma ValueOfOctets(value: i64)
    ensures Signed(BeBytes(ToU64(value), 8)) == value
  {
    var s := BeBytes(ToU64(value), 8);
    UnsignedOfBeBytes(ToU64(value), 8);
    WidthFacts();
    LowSmall(ToU64(value), 64);
    SignedRange(s);
    Pow63();
  }

  lemma UnsignedOfNonNegative(s: seq<u8>)
    requires Signed(s) >= 0
    ensures Unsigned(s) == Signed(s)
  {
    if s != [] {
      SignedRange(s);
    }
  }

  lemma LargeOctets(value: u64)
    requires value > INT64_MAX
    ensures Signed([0] + BeBytes(value, 8)) == value
    ensures Minimal([0] + BeBytes(value, 8))
  {
    var t := BeBytes(value, 8);
    var s := [0] + t;
    assert s[1..] == t;
    UnsignedFront(s);
    UnsignedOfBeBytes(value, 8);
    WidthFacts();
    LowSmall(value, 64);
    SignedRange(t);
    Pow63();
  }
}
