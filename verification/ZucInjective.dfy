/** No two states of ZUC ever meet: the linear and S-box layers lose nothing, hence a round from
    cells in range loses nothing, and initialisation determines key and initial value. */
module ZucInjective {
  import opened Words
  import opened BitWords
  import opened Iteration
  import opened Zuc
  import opened ZucBoxes
  import opened ZucStandard

  // ----- the linear layers

  /** Bit `i` of a word of 32 bits, counted round and round. */
  predicate Turned(w: seq<bool>, i: nat)
    requires |w| == 32
  {
    w[i % 32]
  }

  lemma OnceAround(w: seq<bool>, i: nat)
    requires |w| == 32
    ensures Turned(w, i + 32) == Turned(w, i)
  {}

  lemma RotatedAt(w: seq<bool>, k: nat, i: nat)
    requires |w| == 32 && k < 32
    ensures Turned(Rotated(w, k), i) == Turned(w, i + k)
  {
    var j := i % 32;
    assert (i + k) % 32 == if j + k < 32 then j + k else j + k - 32;
  }

  lemma XorAt(a: seq<bool>, b: seq<bool>, i: nat)
    requires |a| == |b| == 32
    ensures Turned(XorBits(a, b), i) == (Turned(a, i) != Turned(b, i))
  {}

  lemma Linear1At(w: seq<bool>, i: nat)
    requires |w| == 32
    ensures Turned(Linear1(w), i)
         == ((((Turned(w, i) != Turned(w, i + 2)) != Turned(w, i + 10)) != Turned(w, i + 18)) != Turned(w, i + 24))
  {
    hide XorBits, Rotated, Turned;
    var a := XorBits(w, Rotated(w, 2));
    var b := XorBits(a, Rotated(w, 10));
    var c := XorBits(b, Rotated(w, 18));
    XorAt(w, Rotated(w, 2), i);
    XorAt(a, Rotated(w, 10), i);
    XorAt(b, Rotated(w, 18), i);
    XorAt(c, Rotated(w, 24), i);
    RotatedAt(w, 2, i);
    RotatedAt(w, 10, i);
    RotatedAt(w, 18, i);
    RotatedAt(w, 24, i);
  }

  lemma Linear2At(w: seq<bool>, i: nat)
    requires |w| == 32
    ensures Turned(Linear2(w), i)
         == ((((Turned(w, i) != Turned(w, i + 8)) != Turned(w, i + 14)) != Turned(w, i + 22)) != Turned(w, i + 30))
  {
    hide XorBits, Rotated, Turned;
    var a := XorBits(w, Rotated(w, 8));
    var b := XorBits(a, Rotated(w, 14));
    var c := XorBits(b, Rotated(w, 22));
    XorAt(w, Rotated(w, 8), i);
    XorAt(a, Rotated(w, 14), i);
    XorAt(b, Rotated(w, 22), i);
    XorAt(c, Rotated(w, 30), i);
    RotatedAt(w, 8, i);
    RotatedAt(w, 14, i);
    RotatedAt(w, 22, i);
    RotatedAt(w, 30, i);
  }

  /** Applied twice, three rotations are left of `L1`: over bits the cross terms cancel. */
  lemma Linear1Twice(w: seq<bool>, i: nat)
    requires |w| == 32
    ensures Turned(Linear1(Linear1(w)), i) == ((Turned(w, i) != Turned(w, i + 16)) != Turned(w, i + 20))
  {
    hide Linear1, Turned;
    Linear1At(Linear1(w), i);
    Linear1At(w, i);
    Linear1At(w, i + 2);
    Linear1At(w, i + 10);
    Linear1At(w, i + 18);
    Linear1At(w, i + 24);
    OnceAround(w, i + 4);
    OnceAround(w, i + 16);
  }

  lemma Linear2Twice(w: seq<bool>, i: nat)
    requires |w| == 32
    ensures Turned(Linear2(Linear2(w)), i) == ((Turned(w, i) != Turned(w, i + 12)) != Turned(w, i + 16))
  {
    hide Linear2, Turned;
    Linear2At(Linear2(w), i);
    Linear2At(w, i);
    Linear2At(w, i + 8);
    Linear2At(w, i + 14);
    Linear2At(w, i + 22);
    Linear2At(w, i + 30);
    OnceAround(w, i + 12);
    OnceAround(w, i + 28);
  }

  /** Applied four times, `L1` is a rotation by 8 and `L2` one by 24. */
  lemma LinearFourTimes(w: seq<bool>)
    requires |w| == 32
    ensures Linear1(Linear1(Linear1(Linear1(w)))) == Rotated(w, 8)
    ensures Linear2(Linear2(Linear2(Linear2(w)))) == Rotated(w, 24)
  {
    hide Linear1, Linear2, Rotated, Turned;
    var a, b := Linear1(Linear1(Linear1(Linear1(w)))), Linear2(Linear2(Linear2(Linear2(w))));
    forall i: nat ensures Turned(a, i) == Turned(Rotated(w, 8), i) && Turned(b, i) == Turned(Rotated(w, 24), i) {
      FourTimesAt(w, i);
      RotatedAt(w, 8, i);
      RotatedAt(w, 24, i);
    }
    SameTurns(a, Rotated(w, 8));
    SameTurns(b, Rotated(w, 24));
  }

  lemma SameTurns(v: seq<bool>, w: seq<bool>)
    requires |v| == |w| == 32 && forall i: nat :: Turned(v, i) == Turned(w, i)
    ensures v == w
  {
    forall i | 0 <= i < 32 ensures v[i] == w[i] {
      assert Turned(v, i) == Turned(w, i);
    }
  }

  lemma FourTimesAt(w: seq<bool>, i: nat)
    requires |w| == 32
    ensures Turned(Linear1(Linear1(Linear1(Linear1(w)))), i) == Turned(w, i + 8)
    ensures Turned(Linear2(Linear2(Linear2(Linear2(w)))), i) == Turned(w, i + 24)
  {
    hide Linear1, Linear2, Turned;
    Linear1Twice(Linear1(Linear1(w)), i);
    Linear1Twice(w, i);
    Linear1Twice(w, i + 16);
    Linear1Twice(w, i + 20);
    Linear2Twice(Linear2(Linear2(w)), i);
    Linear2Twice(w, i);
    Linear2Twice(w, i + 12);
    Linear2Twice(w, i + 16);
    OnceAround(w, i);
    OnceAround(w, i + 8);
  }

  lemma RotatedBack(v: seq<bool>, w: seq<bool>, k: nat)
    requires |v| == |w| && k <= |v| && Rotated(v, k) == Rotated(w, k)
    ensures v == w
  {
    var n := |v|;
    assert v == Rotated(v, k)[n - k..] + Rotated(v, k)[..n - k];
    assert w == Rotated(w, k)[n - k..] + Rotated(w, k)[..n - k];
  }

  lemma LinearIsInjective(x: u32, y: u32)
    ensures L1(x) == L1(y) <==> x == y
    ensures L2(x) == L2(y) <==> x == y
  {
    hide ToBits, L1, L2, Linear1, Linear2, Rotated;
    var v, w := ToBits(x, 32), ToBits(y, 32);
    LinearIsStandard(x);
    LinearIsStandard(y);
    LinearFourTimes(v);
    LinearFourTimes(w);
    if L1(x) == L1(y) {
      RotatedBack(v, w, 8);
      SameWord(x, y);
    }
    if L2(x) == L2(y) {
      RotatedBack(v, w, 24);
      SameWord(x, y);
    }
  }

  // ----- the S-box layer

  lemma MadeOfBytes(a: u8, b: u8, c: u8, d: u8, e: u8, f: u8, g: u8, h: u8)
    requires MakeU32(a, b, c, d) == MakeU32(e, f, g, h)
    ensures a == e && b == f && c == g && d == h
  {
    hide ToBits, MakeU32;
    BytesJoin(a, b, c, d);
    BytesJoin(e, f, g, h);
    var s, t := ToBits(MakeU32(a, b, c, d), 32), ToBits(MakeU32(e, f, g, h), 32);
    assert s[..8] == ToBits(a, 8) && t[..8] == ToBits(e, 8);
    assert s[8..16] == ToBits(b, 8) && t[8..16] == ToBits(f, 8);
    assert s[16..24] == ToBits(c, 8) && t[16..24] == ToBits(g, 8);
    assert s[24..] == ToBits(d, 8) && t[24..] == ToBits(h, 8);
    OctetsDetermine(a, e);
    OctetsDetermine(b, f);
    OctetsDetermine(c, g);
    OctetsDetermine(d, h);
  }

  lemma BytesDetermine(u: u32, v: u32)
    requires TopByte(u) == TopByte(v) && LowOctet(Shr32(u, 16)) == LowOctet(Shr32(v, 16))
    requires LowOctet(Shr32(u, 8)) == LowOctet(Shr32(v, 8)) && LowOctet(u) == LowOctet(v)
    ensures u == v
  {
    hide ToBits, ByteValue, TopByte, LowOctet, Shr32;
    BytesOfWord(u);
    BytesOfWord(v);
    var s, t := ToBits(u, 32), ToBits(v, 32);
    SameByte(s[..8], t[..8]);
    SameByte(s[8..16], t[8..16]);
    SameByte(s[16..24], t[16..24]);
    SameByte(s[24..], t[24..]);
    assert s == s[..8] + s[8..16] + s[16..24] + s[24..];
    assert t == t[..8] + t[8..16] + t[16..24] + t[24..];
    SameWord(u, v);
  }

  lemma SubstitutedIsInjective(u: u32, v: u32)
    ensures Substituted(u) == Substituted(v) <==> u == v
  {
    hide S0, S1, TopByte, LowOctet, Shr32, MakeU32;
    if Substituted(u) == Substituted(v) {
      var a, b, c, d := TopByte(u), LowOctet(Shr32(u, 16)), LowOctet(Shr32(u, 8)), LowOctet(u);
      var e, f, g, h := TopByte(v), LowOctet(Shr32(v, 16)), LowOctet(Shr32(v, 8)), LowOctet(v);
      MadeOfBytes(S0(a), S1(b), S0(c), S1(d), S0(e), S1(f), S0(g), S1(h));
      TablesAreInjective(a, e);
      TablesAreInjective(b, f);
      TablesAreInjective(c, g);
      TablesAreInjective(d, h);
      BytesDetermine(u, v);
    }
  }

  // ----- a round

  lemma CrossedDetermine(a: u32, b: u32, c: u32, d: u32)
    requires Crossed(a, b) == Crossed(c, d) && Crossed(b, a) == Crossed(d, c)
    ensures a == c && b == d
  {
    hide ToBits, Crossed;
    CrossedIsHalves(a, b);
    CrossedIsHalves(b, a);
    CrossedIsHalves(c, d);
    CrossedIsHalves(d, c);
    var p, q, r, s := ToBits(a, 32), ToBits(b, 32), ToBits(c, 32), ToBits(d, 32);
    assert p == (q[16..] + p[..16])[16..] + (p[16..] + q[..16])[..16];
    assert r == (s[16..] + r[..16])[16..] + (r[16..] + s[..16])[..16];
    assert q == (p[16..] + q[..16])[16..] + (q[16..] + p[..16])[..16];
    assert s == (r[16..] + s[..16])[16..] + (s[16..] + r[..16])[..16];
    SameWord(a, c);
    SameWord(b, d);
  }

  lemma MemoryDetermines(x: seq<u32>, r1: u32, r2: u32, q1: u32, q2: u32)
    requires |x| == 4 && NextMemory(x, r1, r2) == NextMemory(x, q1, q2)
    ensures r1 == q1 && r2 == q2
  {
    hide Substituted, L1, L2, Crossed, Xor;
    var w1, w2 := Add32(r1, x[1]), Xor32(r2, x[2]);
    var v1, v2 := Add32(q1, x[1]), Xor32(q2, x[2]);
    SubstitutedIsInjective(L1(Crossed(w1, w2)), L1(Crossed(v1, v2)));
    SubstitutedIsInjective(L2(Crossed(w2, w1)), L2(Crossed(v2, v1)));
    LinearIsInjective(Crossed(w1, w2), Crossed(v1, v2));
    LinearIsInjective(Crossed(w2, w1), Crossed(v2, v1));
    CrossedDetermine(w1, w2, v1, v2);
    XorCancel(r2, x[2]);
    XorCancel(q2, x[2]);
  }

  /** 257 has the inverse 16711935 modulo 2^31 - 1. */
  lemma CellDetermined(n: nat, a: nat, b: nat)
    requires 1 <= a <= P && 1 <= b <= P && Rep(n + 257 * a) == Rep(n + 257 * b)
    ensures a == b
  {
    var x: int, y: int := n + 257 * a, n + 257 * b;
    var k: int := x / P - y / P;
    assert 257 * (a - b) == P * k by {
      assert x == P * (x / P) + x % P && y == P * (y / P) + y % P;
    }
    assert a - b == P * (16711935 * k - 2 * (a - b));
    NoMultipleBetween(16711935 * k - 2 * (a - b), P);
  }

  lemma NewestCell(s: seq<u32>, init: bool, u: u32)
    requires InRange(s) && u <= P
    ensures Clock(s, init, u)[15] == Rep(FeedbackSum(s) + (if init then u else 0))
  {
    hide Feedback, FeedbackSum, AddM, Rep;
    FeedbackReduces(s);
    if init {
      AddMReduces(Rep(FeedbackSum(s)), u);
      RepAddsUp(FeedbackSum(s), u);
    }
  }

  lemma OldestInSum(s: seq<u32>, t: seq<u32>)
    requires |s| == |t| == 16 && forall i :: 1 <= i < 16 ==> s[i] == t[i]
    ensures FeedbackSum(s) - 257 * s[0] as int == FeedbackSum(t) - 257 * t[0] as int >= 0
  {}

  /** The feedback tells the oldest cell, the others being known. */
  lemma ClockDetermines(s: seq<u32>, t: seq<u32>, init: bool, u: u32)
    requires InRange(s) && InRange(t) && u <= P
    requires Clock(s, init, u) == Clock(t, init, u)
    ensures s == t
  {
    hide Clock, FeedbackSum, Rep;
    SameButOldest(s, t, init, u);
    NewestCell(s, init, u);
    NewestCell(t, init, u);
    OldestInSum(s, t);
    var n: nat := FeedbackSum(s) - 257 * s[0] as int + (if init then u else 0);
    CellDetermined(n, s[0], t[0]);
    assert s == [s[0]] + s[1..] && t == [t[0]] + t[1..];
  }

  lemma SameButOldest(s: seq<u32>, t: seq<u32>, init: bool, u: u32)
    requires |s| == |t| == 16 && Clock(s, init, u)[..15] == Clock(t, init, u)[..15]
    ensures s[1..] == t[1..]
    ensures forall i :: 1 <= i < 16 ==> s[i] == t[i]
  {
    hide Feedback, AddM;
    assert Clock(s, init, u)[..15] == s[1..] && Clock(t, init, u)[..15] == t[1..];
    forall i | 1 <= i < 16 ensures s[i] == t[i] {
      assert s[i] == s[1..][i - 1];
    }
  }

  lemma SameWords(s: seq<u32>, t: seq<u32>)
    requires |s| == |t| == 16 && forall i :: 1 <= i < 16 ==> s[i] == t[i]
    ensures Reorganized(s)[..3] == Reorganized(t)[..3]
  {
    hide Or32, Shl32, Shr32, And, Low16;
  }

  lemma FirstThree(x: seq<u32>, y: seq<u32>, r1: u32, r2: u32)
    requires |x| == |y| == 4 && x[..3] == y[..3]
    ensures NextMemory(x, r1, r2) == NextMemory(y, r1, r2) && OutputOfF(x, r1, r2) == OutputOfF(y, r1, r2)
  {
    hide Substituted, L1, L2, Crossed, Xor32, Add32;
    assert x[0] == x[..3][0] == y[0] && x[1] == x[..3][1] == y[1] && x[2] == x[..3][2] == y[2];
  }

  lemma HalfInRange(w: u32)
    ensures Shr32(w, 1) <= P
  {
    ShrZero(w / 2);
  }

  /** A round, of either kind, never merges two states with cells in range. */
  lemma RoundIsInjective(m: State, n: State, init: bool)
    requires InRange(m.s) && InRange(n.s)
    ensures Round(m, init) == Round(n, init) <==> m == n
  {
    hide Reorganized, NextMemory, OutputOfF, Clock, Shr32;
    if Round(m, init) == Round(n, init) {
      var x, y := Reorganized(m.s), Reorganized(n.s);
      var u, v := Shr32(OutputOfF(x, m.r1, m.r2), 1), Shr32(OutputOfF(y, n.r1, n.r2), 1);
      ClocksAgree(m.s, n.s, init, u, v);
      SameWords(m.s, n.s);
      FirstThree(x, y, n.r1, n.r2);
      MemoryDetermines(x, m.r1, m.r2, n.r1, n.r2);
      HalfInRange(OutputOfF(x, m.r1, m.r2));
      ClockDetermines(m.s, n.s, init, u);
    }
  }

  lemma ClocksAgree(s: seq<u32>, t: seq<u32>, init: bool, u: u32, v: u32)
    requires |s| == |t| == 16 && Clock(s, init, u) == Clock(t, init, v)
    ensures forall i :: 1 <= i < 16 ==> s[i] == t[i]
  {
    hide Feedback, AddM;
    forall i | 1 <= i < 16 ensures s[i] == t[i] {
      assert s[i] == Clock(s, init, u)[i - 1] && t[i] == Clock(t, init, v)[i - 1];
    }
  }

  // ----- runs

  lemma {:induction false} RunIsInjective(m: State, n: State, init: bool, k: nat)
    requires InRange(m.s) && InRange(n.s)
    ensures Iterate(Step(init), m, k) == Iterate(Step(init), n, k) <==> m == n
  {
    hide Round, InRange;
    if k != 0 {
      RunIsStandard(m, init, k - 1);
      RunIsStandard(n, init, k - 1);
      RoundIsInjective(Iterate(Step(init), m, k - 1), Iterate(Step(init), n, k - 1), init);
      RunIsInjective(m, n, init, k - 1);
    }
  }

  lemma CellDetermines(a: u8, d: u32, c: u8, e: u8, f: u8)
    requires 1 <= d < 0x8000
    ensures MakeU31(a, d, c) == MakeU31(e, d, f) <==> a == e && c == f
  {
    hide ToBits, FromBits, MakeU31;
    LoadedCell(a, d, c);
    LoadedCell(e, d, f);
    var s, t := ToBits(a, 8) + ToBits(d, 15) + ToBits(c, 8), ToBits(e, 8) + ToBits(d, 15) + ToBits(f, 8);
    if MakeU31(a, d, c) == MakeU31(e, d, f) {
      ToFromBits(s);
      ToFromBits(t);
      assert s[..8] == ToBits(a, 8) && t[..8] == ToBits(e, 8);
      assert s[23..] == ToBits(c, 8) && t[23..] == ToBits(f, 8);
      OctetsDetermine(a, e);
      OctetsDetermine(c, f);
    }
  }

  /** The key load determines key and initial value. */
  lemma {:induction false} LoadIsInjective(k: seq<u8>, iv: seq<u8>, l: seq<u8>, iw: seq<u8>, n: nat)
    requires |k| == |iv| == |l| == |iw| == 16 && n <= 16
    ensures Loaded(k, iv, n) == Loaded(l, iw, n) <==> k[..n] == l[..n] && iv[..n] == iw[..n]
  {
    hide MakeU31;
    if n != 0 {
      hide Loaded;
      var i := n - 1;
      LoadIsInjective(k, iv, l, iw, i);
      CellDetermines(k[i], EK_D[i], iv[i], l[i], iw[i]);
      OneMore(k, l, i);
      OneMore(iv, iw, i);
      OneAppended(k, iv, i);
      OneAppended(l, iw, i);
      OneMore(Loaded(k, iv, n), Loaded(l, iw, n), i);
    }
  }

  lemma OneMore<T>(s: seq<T>, t: seq<T>, i: nat)
    requires i < |s| && i < |t|
    ensures s[..i + 1] == t[..i + 1] <==> s[..i] == t[..i] && s[i] == t[i]
    ensures |s| == |t| == i + 1 ==> s[..i + 1] == s && t[..i + 1] == t
  {
    assert s[..i + 1] == s[..i] + [s[i]] && t[..i + 1] == t[..i] + [t[i]];
  }

  lemma OneAppended(k: seq<u8>, iv: seq<u8>, i: nat)
    requires |k| == |iv| == 16 && i < 16
    ensures Loaded(k, iv, i + 1)[..i] == Loaded(k, iv, i)
    ensures Loaded(k, iv, i + 1)[i] == MakeU31(k[i], EK_D[i], iv[i])
  {
    hide MakeU31;
  }

  /** After initialisation and any number of rounds two generators are in the same state if and
      only if key and initial value agree. */
  lemma InitializeIsInjective(k: seq<u8>, iv: seq<u8>, l: seq<u8>, iw: seq<u8>, n: nat)
    requires |k| == |iv| == |l| == |iw| == 16
    ensures Iterate(Step(false), Initialized(k, iv), n) == Iterate(Step(false), Initialized(l, iw), n)
       <==> k == l && iv == iw
  {
    hide Round, Loaded, Iterate;
    var s, t := State(Loaded(k, iv, 16), 0, 0), State(Loaded(l, iw, 16), 0, 0);
    var p, q := Iterate(Step(true), s, 32), Iterate(Step(true), t, 32);
    LoadIsInjective(k, iv, l, iw, 16);
    assert k[..16] == k && l[..16] == l && iv[..16] == iv && iw[..16] == iw;
    LoadedIsStandard(k, iv, 16);
    LoadedIsStandard(l, iw, 16);
    RunIsInjective(s, t, true, 32);
    RunIsStandard(s, true, 32);
    RunIsStandard(t, true, 32);
    RoundIsStandard(p, false);
    RoundIsStandard(q, false);
    RoundIsInjective(p, q, false);
    RunIsInjective(Round(p, false), Round(q, false), false, n);
  }
}
