/** 128-EIA3: the message authentication code over a ZUC key stream (section 4 of TS 35.221). */
module Eia3 {
  import opened Words
  import Zuc

  // ----- specification

  /** The word z_i: key stream bits i to i + 31. */
  function Window(z: seq<bool>, i: nat): nat
    requires i + 32 <= |z|
  {
    FromBits(z[i..i + 32])
  }

  /** The exclusive or of z_i over the set bits i below `n` of the message. */
  function SumOfWindows(z: seq<bool>, message: seq<bool>, n: nat): nat
    requires n <= |message| && n + 31 <= |z|
  {
    if n == 0 then 0
    else Xor(SumOfWindows(z, message, n - 1), if message[n - 1] then Window(z, n - 1) else 0)
  }

  function WordCount(length: nat): nat {
    (length + 95) / 32
  }

  function Mac(z: seq<bool>, message: seq<bool>): nat
    requires |z| == 32 * WordCount(|message|)
  {
    var n := |message|;
    Xor(Xor(SumOfWindows(z, message, n), Window(z, n)), Window(z, 32 * (WordCount(n) - 1)))
  }

  // ----- the code

  function GetWord(data: seq<u32>, index: nat): u32
    requires index + 32 <= 32 * |data|
  {
    var ti := index % 32;
    if ti == 0 then data[index / 32]
    else Or32(Shl32(data[index / 32], ti), Shr32(data[index / 32 + 1], 32 - ti))
  }

  predicate GetBit(data: seq<u32>, index: nat)
    requires index < 32 * |data|
  {
    And(data[index / 32], Pow2(31 - index % 32)) != 0
  }

  function IvBytes(count: u32, direction: u32, bearer: u32): (iv: seq<u8>)
    ensures |iv| == 16
  {
    var c3, c2, c1, c0 := LowOctet(Shr(count, 24)), LowOctet(Shr(count, 16)), LowOctet(Shr(count, 8)), LowOctet(count);
    var b := LowOctet(And(Shl(bearer, 3), 0xf8));
    var d := LowOctet(Shl(And(direction, 1), 7));
    [c3, c2, c1, c0, b, 0, 0, 0, XorOctets(c3, d), c2, c1, c0, b, 0, XorOctets(0, d), 0]
  }

  method EIA3(gen: Zuc.Generator, key: seq<u8>, count: u32, direction: u32, bearer: u32, length: nat, data: seq<u32>)
    returns (mac: nat)
    requires gen.Valid() && |key| == 16
    requires length <= 32 * |data| && length + 95 < TWO_32
    modifies gen, gen.lfsr, gen.brc
    ensures var st := Zuc.Initialized(key, IvBytes(count, direction, bearer));
      mac == Mac(WordBits(Zuc.KeyStream(st, WordCount(length))), WordBits(data)[..length])
  {
    gen.Initialize(key, IvBytes(count, direction, bearer));
    var l := (length + 64 + 31) / 32;
    var z := gen.GenerateKeyStream(l);
    mac := Accumulate(z, length, data);
  }

  method Accumulate(z: seq<u32>, length: nat, data: seq<u32>) returns (mac: nat)
    requires length <= 32 * |data| && |z| == WordCount(length)
    ensures mac == Mac(WordBits(z), WordBits(data)[..length])
  {
    hide Xor, GetWord, GetBit, FromBits, WordBits;
    ghost var stream, message := WordBits(z), WordBits(data)[..length];
    var t := 0;
    for i := 0 to length
      invariant t == SumOfWindows(stream, message, i)
    {
      GetBitIsBit(data, i);
      GetWordIsWindow(z, i);
      XorZero(t);
      if GetBit(data, i) {
        t := Xor(t, GetWord(z, i));
      }
    }
    GetWordIsWindow(z, length);
    t := Xor(t, GetWord(z, length));
    GetWordIsWindow(z, 32 * (|z| - 1));
    mac := Xor(t, LastWord(z));
  }

  function LastWord(z: seq<u32>): (w: u32)
    requires |z| > 0
    ensures w == GetWord(z, 32 * (|z| - 1))
  {
    z[|z| - 1]
  }

  // ----- the two accessors read the bit strings they are meant to

  lemma GetBitIsBit(data: seq<u32>, i: nat)
    requires i < 32 * |data|
    ensures GetBit(data, i) == WordBits(data)[i]
  {
    hide And, ToBits;
    AndPow2(data[i / 32], 31 - i % 32);
    ToBitsAt(data[i / 32], 32, i % 32);
  }

  /** At every bit offset, `GetWord` is the 32-bit window of the stream from there. */
  lemma GetWordIsWindow(z: seq<u32>, i: nat)
    requires i + 32 <= 32 * |z|
    ensures GetWord(z, i) == Window(WordBits(z), i)
  {
    hide ToBits, FromBits, Or, Shl, Shr, Low, Pow2, WordBits;
    var q, t := i / 32, i % 32;
    var s := WordBits(z);
    WordOfBits(z, q);
    WidthFacts();
    if t == 0 {
      FromToBits(z[q], 32);
      LowSmall(z[q], 32);
    } else {
      WordOfBits(z, q + 1);
      assert s[i..i + 32] == s[32 * q..32 * q + 32][t..] + s[32 * q + 32..32 * q + 64][..t];
      Straddle(z[q], z[q + 1], t);
    }
  }

  // ----- linearity

  lemma {:induction false} SumXor(z: seq<bool>, a: seq<bool>, b: seq<bool>, n: nat)
    requires |a| == |b| && n <= |a| && n + 31 <= |z|
    ensures SumOfWindows(z, XorBits(a, b), n) == Xor(SumOfWindows(z, a, n), SumOfWindows(z, b, n))
  {
    hide Xor, Window;
    XorZero(0);
    if n != 0 {
      SumXor(z, a, b, n - 1);
      var w := Window(z, n - 1);
      XorSelf(w);
      XorZero(w);
      XorSwap(SumOfWindows(z, a, n - 1), SumOfWindows(z, b, n - 1),
              if a[n - 1] then w else 0, if b[n - 1] then w else 0);
    }
  }

  lemma {:induction false} SumOfNothing(z: seq<bool>, k: nat, n: nat)
    requires n <= k && n + 31 <= |z|
    ensures SumOfWindows(z, Zeros(k), n) == 0
  {
    hide Xor, Window;
    if n != 0 {
      SumOfNothing(z, k, n - 1);
      XorZero(0);
    }
  }

  /** For a fixed key stream the code is affine in the message. */
  lemma MacIsAffine(z: seq<bool>, a: seq<bool>, b: seq<bool>)
    requires |a| == |b| && |z| == 32 * WordCount(|a|)
    ensures Xor(Xor(Mac(z, a), Mac(z, b)), Mac(z, XorBits(a, b))) == Mac(z, Zeros(|a|))
  {
    hide Xor, Window, SumOfWindows;
    var n := |a|;
    var x, y := SumOfWindows(z, a, n), SumOfWindows(z, b, n);
    var v, w := Window(z, n), Window(z, 32 * (WordCount(n) - 1));
    SumXor(z, a, b, n);
    SumOfNothing(z, n, n);
    ThreeSums(x, y, v, w);
    XorZero(v);
  }

  lemma ThreeSums(x: nat, y: nat, v: nat, w: nat)
    ensures Xor(Xor(Xor(Xor(x, v), w), Xor(Xor(y, v), w)), Xor(Xor(Xor(x, y), v), w)) == Xor(v, w)
  {
    hide Xor;
    XorShared(Xor(x, v), Xor(y, v), w);
    XorShared(x, y, v);
    XorAssoc(Xor(x, y), Xor(Xor(x, y), v), w);
    XorCancel(v, Xor(x, y));
  }

  /** The codes of two messages that differ in one bit differ by the window at that bit. */
  lemma {:induction false} OneBitChange(z: seq<bool>, m: seq<bool>, k: nat, n: nat)
    requires k < n <= |m| && n + 31 <= |z|
    ensures Xor(SumOfWindows(z, m, n), SumOfWindows(z, m[k := !m[k]], n)) == Window(z, k)
  {
    hide Xor, Window;
    var f := m[k := !m[k]];
    var w := Window(z, n - 1);
    var p, q := if m[n - 1] then w else 0, if f[n - 1] then w else 0;
    XorSwap(SumOfWindows(z, m, n - 1), p, SumOfWindows(z, f, n - 1), q);
    XorSelf(w);
    XorSelf(0);
    if k == n - 1 {
      SamePrefix(z, m, f, k);
      XorSelf(SumOfWindows(z, m, k));
      XorZero(w);
    } else {
      OneBitChange(z, m, k, n - 1);
      XorZero(Window(z, k));
    }
  }

  lemma {:induction false} SamePrefix(z: seq<bool>, a: seq<bool>, b: seq<bool>, n: nat)
    requires n <= |a| && n <= |b| && n + 31 <= |z| && a[..n] == b[..n]
    ensures SumOfWindows(z, a, n) == SumOfWindows(z, b, n)
  {
    if n != 0 {
      assert a[n - 1] == a[..n][n - 1] == b[n - 1];
      assert a[..n - 1] == a[..n][..n - 1];
      assert b[..n - 1] == b[..n][..n - 1];
      SamePrefix(z, a, b, n - 1);
    }
  }
}
