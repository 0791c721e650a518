/** The `BIT_STRING_t` buffer: compaction and comparison. */
module BitString {
  import opened Words
  import opened BitOrder
  import opened TwosComplement

  class BIT_STRING {
    var buf: array?<u8>
    var size: nat
    var bitsUnused: int

    constructor ()
      ensures Valid() && buf == null && bitsUnused == 0
    {
      buf, size, bitsUnused := null, 0, 0;
    }

    ghost predicate Valid()
      reads this
    {
      if buf == null then size == 0 else size <= buf.Length
    }

    function Contents(): (s: seq<u8>)
      requires Valid()
      reads this, if buf == null then {} else {buf}
      ensures |s| == size
    {
      if buf == null then [] else buf[..size]
    }

    /** `BIT_STRING__compactify`: a view of the same buffer that ends right after its last set bit. */
    method Compactify(tmp: BIT_STRING) returns (c: BIT_STRING)
      requires Valid() && tmp != this && (size == 0 ==> bitsUnused == 0)
      modifies tmp
      ensures c == (if size == 0 then this else tmp) && c.Valid() && c.buf == buf
      ensures c.size <= size && 0 <= c.bitsUnused < 8
      ensures 8 * c.size - c.bitsUnused == TrimmedLength(Bits(Contents()))
    {
      hide Bits, And, ToBits;
      if size == 0 {
        return this;
      }
      var b := size - 1;
      while b > 0 && buf[b] == 0
        invariant 0 <= b < size
        invariant forall j :: b < j < size ==> buf[j] == 0
      {
        b := b - 1;
      }
      if buf[b] != 0 {
        var unused := UnusedBits(buf[b]);
        tmp.size := b + 1;
        tmp.bitsUnused := unused;
        LastSetBit(Contents(), b);
      } else {
        tmp.size := b;
        tmp.bitsUnused := 0;
        NoSetBit(Contents());
      }
      tmp.buf := buf;
      c := tmp;
    }
  }

  // ----- the lowest set bit of an octet

  /** The number of zero bits below the lowest set bit. */
  function TrailingZeros(v: nat): (t: nat)
    requires v != 0
    ensures Bit(v, t) && forall k: nat :: k < t ==> !Bit(v, k)
  {
    if v % 2 == 1 then 0
    else
      var t := TrailingZeros(v / 2);
      assert forall k: nat :: 0 < k <= t + 1 ==> Bit(v, k) == Bit(v / 2, k - 1);
      t + 1
  }

  lemma TrailingZerosBound(v: u8)
    requires v != 0
    ensures TrailingZeros(v) < 8
  {
    hide Shr, Pow2;
    var t := TrailingZeros(v);
    if t >= 8 {
      WidthFacts();
      Pow2Monotone(8, t);
      LowSmall(v, t);
    }
  }

  lemma AndStep(a: nat, b: nat, p: nat, q: nat)
    requires p < 2 && q < 2
    ensures And(2 * a + p, 2 * b + q) == 2 * And(a, b) + (if p == 1 && q == 1 then 1 else 0)
  {
    assert (2 * a + p) / 2 == a && (2 * b + q) / 2 == b;
  }

  lemma {:induction false} AndComplement(v: nat, n: nat)
    requires v < Pow2(n)
    ensures And(v, Pow2(n) - 1 - v) == 0
  {
    if n != 0 {
      hide And;
      AndComplement(v / 2, n - 1);
      AndStep(v / 2, Pow2(n - 1) - 1 - v / 2, v % 2, 1 - v % 2);
    }
  }

  /** A word and its two's complement share exactly the lowest set bit. */
  lemma {:induction false} AndNegation(v: nat, n: nat)
    requires 0 < v < Pow2(n)
    ensures And(v, Pow2(n) - v) == Pow2(TrailingZeros(v))
  {
    hide And, TrailingZeros;
    var a := v / 2;
    TrailingStep(v);
    NoPower(n);
    var p := Pow2(n - 1);
    assert Pow2(n) == 2 * p;
    hide Pow2;
    if v % 2 == 1 {
      AndComplement(a, n - 1);
      AndStep(a, p - 1 - a, 1, 1);
    } else {
      AndNegation(a, n - 1);
      AndStep(a, p - a, 0, 0);
    }
  }

  lemma TrailingStep(v: nat)
    requires v != 0
    ensures v % 2 == 1 ==> Pow2(TrailingZeros(v)) == 1
    ensures v % 2 == 0 ==> Pow2(TrailingZeros(v)) == 2 * Pow2(TrailingZeros(v / 2))
  {
    hide Bit;
  }

  lemma NoPower(n: nat)
    ensures n == 0 ==> Pow2(n) == 1
  {}

  lemma {:induction false} AndComm(a: nat, b: nat)
    ensures And(a, b) == And(b, a)
    decreases a
  {
    if a != 0 && b != 0 {
      AndComm(a / 2, b / 2);
    }
  }

  lemma MaskTest(t: nat, m: nat)
    requires t < 8
    ensures And(Pow2(t), m) != 0 <==> m / Pow2(t) % 2 == 1
  {
    hide Pow2, And, Shr;
    AndComm(Pow2(t), m);
    AndPow2(m, t);
    ShrLowIsDivMod(m, t);
  }

  lemma Masks(t: nat)
    requires t < 8
    ensures And(Pow2(t), 0x0f) != 0 <==> t < 4
    ensures And(Pow2(t), 0x33) != 0 <==> t % 4 < 2
    ensures And(Pow2(t), 0x55) != 0 <==> t % 2 < 1
  {
    hide Pow2, And;
    OctetPowers();
    MaskTest(t, 0x0f);
    MaskTest(t, 0x33);
    MaskTest(t, 0x55);
  }

  /** The bit counting of `BIT_STRING__compactify`. */
  method UnusedBits(octet: u8) returns (unused: nat)
    requires octet != 0
    ensures unused == TrailingZeros(octet) < 8
  {
    hide Pow2, And, Bit, TrailingZeros;
    ghost var t := TrailingZeros(octet);
    TrailingZerosBound(octet);
    WidthFacts();
    AndNegation(octet, 8);
    Masks(t);
    SumOfHalves(t);
    var v := And(octet, 0x100 - octet as int);
    unused := 7;
    if And(v, 0x0f) != 0 {
      unused := unused - 4;
    }
    if And(v, 0x33) != 0 {
      unused := unused - 2;
    }
    if And(v, 0x55) != 0 {
      unused := unused - 1;
    }
  }

  lemma SumOfHalves(t: nat)
    requires t < 8
    ensures t == 7 - (if t < 4 then 4 else 0) - (if t % 4 < 2 then 2 else 0) - (if t % 2 < 1 then 1 else 0)
  {}

  // ----- the last set bit of a buffer

  lemma OctetOfBits(s: seq<u8>, k: nat)
    requires k < 8 * |s|
    ensures Bits(s)[k] == Bit(s[k / 8], 7 - k % 8)
  {
    hide ToBits, Bit;
    ToBitsAt(s[k / 8], 8, k % 8);
  }

  lemma ZeroHasNoBit(k: nat)
    ensures !Bit(0, k)
  {
    hide Shr;
    Split(0, k);
    assert Shr(0, k) == 0 by {
      ScaledAtLeast(Pow2(k), 1, Shr(0, k));
    }
  }

  lemma LastSetBit(s: seq<u8>, b: nat)
    requires b < |s| && s[b] != 0
    requires forall j :: b < j < |s| ==> s[j] == 0
    ensures TrimmedLength(Bits(s)) == 8 * (b + 1) - TrailingZeros(s[b])
  {
    hide Bits, Bit;
    var t := TrailingZeros(s[b]);
    TrailingZerosBound(s[b]);
    var n := 8 * (b + 1) - t;
    OctetOfBits(s, n - 1);
    assert (n - 1) / 8 == b && 7 - (n - 1) % 8 == t;
    forall k | n <= k < 8 * |s|
      ensures !Bits(s)[k]
    {
      OctetOfBits(s, k);
      if k / 8 == b {
        assert 7 - k % 8 < t;
      } else {
        ZeroHasNoBit(7 - k % 8);
      }
    }
    TrimmedLengthIsUnique(Bits(s), n);
  }

  lemma NoSetBit(s: seq<u8>)
    requires forall j :: 0 <= j < |s| ==> s[j] == 0
    ensures TrimmedLength(Bits(s)) == 0
  {
    hide Bits, Bit;
    forall k | 0 <= k < 8 * |s|
      ensures !Bits(s)[k]
    {
      OctetOfBits(s, k);
      ZeroHasNoBit(7 - k % 8);
    }
    TrimmedLengthIsUnique(Bits(s), 0);
  }

  // ----- comparison

  /** What the first octet that differs says about the bits. */
  lemma {:induction false} MemcmpFindsOctet(a: seq<u8>, b: seq<u8>, n: nat) returns (i: nat)
    requires n <= |a| && n <= |b|
    ensures i <= n && a[..i] == b[..i]
    ensures Memcmp(a, b, n) == 0 <==> i == n
    ensures i < n ==> a[i] != b[i] && (Memcmp(a, b, n) < 0 <==> a[i] < b[i])
  {
    if n == 0 {
      i := 0;
    } else if a[0] != b[0] {
      i := 0;
    } else {
      var j := MemcmpFindsOctet(a[1..], b[1..], n - 1);
      i := j + 1;
      assert a[..i] == [a[0]] + a[1..][..j] && b[..i] == [b[0]] + b[1..][..j];
    }
  }

  /** The order of two words of one width is that of their bits. */
  lemma {:induction false} LessMeansBefore(s: seq<bool>, t: seq<bool>)
    requires |s| == |t| && FromBits(s) < FromBits(t)
    ensures exists k: nat :: k < |s| && FirstDifference(s, t, k)
  {
    var m := |s| - 1;
    var s1, t1 := s[..m], t[..m];
    if FromBits(s1) < FromBits(t1) {
      LessMeansBefore(s1, t1);
      var k: nat :| k < m && FirstDifference(s1, t1, k);
      forall j: nat | j <= k
        ensures At(s, j) == At(s1, j) && At(t, j) == At(t1, j)
      {}
      assert FirstDifference(s, t, k);
    } else {
      ToFromBits(s1);
      ToFromBits(t1);
      assert s1 == t1;
      forall j: nat | j < m
        ensures s[j] == t[j]
      {
        assert s1[j] == t1[j];
      }
      assert FirstDifference(s, t, m);
    }
  }

  lemma LessOctetIsBefore(a: seq<u8>, b: seq<u8>, i: nat)
    requires i < |a| && i < |b| && a[..i] == b[..i] && a[i] < b[i]
    ensures Before(Bits(a), Bits(b))
  {
    hide Bits, ToBits, FromBits;
    var s, t := ToBits(a[i], 8), ToBits(b[i], 8);
    assert Pow2(8) == 0x100;
    FromToBits(a[i], 8);
    FromToBits(b[i], 8);
    LowSmall(a[i], 8);
    LowSmall(b[i], 8);
    LessMeansBefore(s, t);
    var k: nat :| k < 8 && FirstDifference(s, t, k);
    ByteOfBits(a, i);
    ByteOfBits(b, i);
    EqualOctets(a, b, i);
    forall j: nat | j < 8 * i + 8
      ensures j >= 8 * i ==> At(Bits(a), j) == At(s, j - 8 * i) && At(Bits(b), j) == At(t, j - 8 * i)
      ensures j < 8 * i ==> At(Bits(a), j) == At(Bits(b), j)
    {
      if j >= 8 * i {
        assert Bits(a)[8 * i..8 * i + 8][j - 8 * i] == Bits(a)[j];
        assert Bits(b)[8 * i..8 * i + 8][j - 8 * i] == Bits(b)[j];
      } else {
        assert Bits(a)[..8 * i][j] == Bits(b)[..8 * i][j];
      }
    }
    assert FirstDifference(Bits(a), Bits(b), 8 * i + k);
  }

  lemma EqualOctets(a: seq<u8>, b: seq<u8>, n: nat)
    requires n <= |a| && n <= |b| && a[..n] == b[..n]
    ensures Bits(a)[..8 * n] == Bits(b)[..8 * n]
  {
    forall k | 0 <= k < 8 * n
      ensures Bits(a)[k] == Bits(b)[k]
    {
      assert a[..n][k / 8] == b[..n][k / 8];
    }
  }

  /** `BIT_STRING_compare` on two strings that are present. */
  method Compare(a: BIT_STRING, b: BIT_STRING) returns (ret: int)
    requires a.Valid() && (a.size == 0 ==> a.bitsUnused == 0)
    requires b.Valid() && (b.size == 0 ==> b.bitsUnused == 0)
    ensures ret == 0 <==> Same(Bits(a.Contents()), Bits(b.Contents()))
    ensures ret < 0 <==> Before(Bits(a.Contents()), Bits(b.Contents()))
    ensures ret > 0 <==> Before(Bits(b.Contents()), Bits(a.Contents()))
  {
    hide Bits, Memcmp, Same, Before;
    var compactA := new BIT_STRING();
    var compactB := new BIT_STRING();
    var c := a.Compactify(compactA);
    var d := b.Compactify(compactB);
    ghost var x, y := a.Contents(), b.Contents();
    OrderIsTotal(Bits(x), Bits(y));
    var commonPrefix := if c.size <= d.size then c.size else d.size;
    ret := Memcmp(a.Contents(), b.Contents(), commonPrefix);
    ghost var i := MemcmpFindsOctet(x, y, commonPrefix);
    if ret == 0 {
      EqualOctets(x, y, commonPrefix);
      CompactDecides(Bits(x), Bits(y), commonPrefix);
      if c.size < d.size {
        return -1;
      } else if c.size > d.size {
        return 1;
      } else if c.bitsUnused > d.bitsUnused {
        return -1;
      } else if c.bitsUnused < d.bitsUnused {
        return 1;
      } else {
        return 0;
      }
    } else if x[i] < y[i] {
      LessOctetIsBefore(x, y, i);
    } else {
      LessOctetIsBefore(y, x, i);
    }
  }

  /** With equal octets up to the shorter string, the lengths decide. */
  lemma CompactDecides(s: seq<bool>, t: seq<bool>, n: nat)
    requires 8 * n <= |s| && 8 * n <= |t| && s[..8 * n] == t[..8 * n]
    requires TrimmedLength(s) <= 8 * n || TrimmedLength(t) <= 8 * n
    ensures TrimmedLength(s) < TrimmedLength(t) ==> Before(s, t)
    ensures TrimmedLength(s) > TrimmedLength(t) ==> Before(t, s)
    ensures TrimmedLength(s) == TrimmedLength(t) ==> Same(s, t)
  {
    var m := TrimmedLength(s);
    var l := TrimmedLength(t);
    var k := if m < l then m else l;
    assert s[..k] == s[..8 * n][..k] && t[..k] == t[..8 * n][..k];
    if m < l {
      LongerIsAfter(s, t);
    } else if l < m {
      LongerIsAfter(t, s);
    } else {
      SameIffTrimmed(s, t);
    }
  }
}
