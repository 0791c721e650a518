/** ZUC: a linear feedback register of sixteen cells over the integers modulo 2^31 - 1,
    feeding a nonlinear function. */
module Zuc {
  import opened Words
  import opened Iteration
  import opened ZucBoxes

  /** The modulus 2^31 - 1. */
  const P: nat := 0x7fff_ffff

  const EK_D: seq<u32> := [
    0x44D7, 0x26BC, 0x626B, 0x135E, 0x5789, 0x35E2, 0x7135, 0x09AF,
    0x4D78, 0x2F13, 0x6BC4, 0x1AF1, 0x5E26, 0x3C4D, 0x789A, 0x47AC]

  // ----- arithmetic modulo 2^31 - 1

  function AddM(a: u32, b: u32): u32 {
    var c := Add32(a, b);
    MaskedIsWord(c);
    And(c, 0x7fff_ffff) + Shr(c, 31)
  }

  function MulByPow2(x: u32, k: nat): u32
    requires k <= 31
  {
    var r := Or(Low(Shl(x, k), 32), Shr(x, 31 - k));
    MaskedIsWord(r);
    And(r, 0x7fff_ffff)
  }

  lemma MaskedIsWord(c: nat)
    ensures And(c, 0x7fff_ffff) <= P
    ensures c < TWO_32 ==> Shr(c, 31) <= 1
  {
    hide And, Shr, Low;
    Pow31();
    AndLowMask(c, 31);
    Split(c, 31);
    if c < TWO_32 {
      assert Pow2(1) == 2;
      WidthFacts();
      TopSmall(c, 1, 31);
    }
  }

  /** The representative of `n` between 1 and the modulus. */
  function Rep(n: nat): (r: nat)
    ensures 1 <= r <= P && r % P == n % P
  {
    if n % P == 0 then P else n % P
  }

  lemma RepAddsUp(a: nat, b: nat)
    requires a >= 1
    ensures Rep(Rep(a) + b) == Rep(a + b)
  {}

  lemma RepAddsUpRight(a: nat, b: nat)
    requires b >= 1
    ensures Rep(a + Rep(b)) == Rep(a + b)
  {}

  /** Mask, shift and add reduce exactly; the addition itself never wraps. */
  lemma AddMReduces(a: nat, b: nat)
    requires 1 <= a <= P && b <= P
    ensures a + b < TWO_32
    ensures AddM(a, b) == Rep(a + b)
  {
    hide And, Shr, Low;
    var c := a + b;
    assert Add32(a, b) == c;
    Pow31();
    AndLowMask(c, 31);
    if c <= P {
      LowSmall(c, 31);
    } else {
      SplitUnique(1, c - (P + 1), 31);
      assert 1 * Pow2(31) + (c - (P + 1)) == c;
    }
  }

  lemma Pow31()
    ensures Pow2(31) == P + 1
  {
    WidthFacts();
    assert Pow2(32) == 2 * Pow2(31);
  }

  /** The rotation of a nonzero 31-bit word is multiplication by 2^k. */
  lemma MulByPow2Reduces(x: nat, k: nat)
    requires 1 <= x <= P && k <= 31
    ensures MulByPow2(x, k) == Rep(x * Pow2(k))
  {
    hide And, Or, Shl, Shr, Low;
    var m := 31 - k;
    var h, l := Shr(x, m), Low(x, m);
    Pow31();
    assert x < Pow2(m + k);
    Split(x, m);
    RotatedWord(x, k, h, l);
    RotatedValue(x, k, h, l);
  }

  lemma RotatedWord(x: nat, k: nat, h: nat, l: nat)
    requires k <= 31 && 1 <= x <= P
    requires h == Shr(x, 31 - k) && l == Low(x, 31 - k)
    ensures h < Pow2(k) && l < Pow2(31 - k)
    ensures MulByPow2(x, k) == l * Pow2(k) + h <= P
  {
    hide And, Or, Shl, Shr, Low, Pow2;
    var m := 31 - k;
    Pow31();
    TopSmall(x, k, m);
    Split(x, m);
    var w := Low(Shl(x, k), 32);
    AndLowMask(Or(w, h), 31);
    OrLow(w, h, 31);
    LowOfLow(Shl(x, k), 32, 31);
    LowOfShl(x, m, k);
    Pow2Monotone(k, 31);
    LowSmall(h, 31);
    Disjoint(l, h, k);
    ShlIsProduct(l, k);
    Split(Or(w, h), 31);
  }

  lemma RotatedValue(x: nat, k: nat, h: nat, l: nat)
    requires 1 <= x <= P && k <= 31 && x == h * Pow2(31 - k) + l && h < Pow2(k)
    requires l * Pow2(k) + h <= P
    ensures x * Pow2(k) >= 1
    ensures l * Pow2(k) + h == Rep(x * Pow2(k))
  {
    Pow31();
    Pow2Add(31 - k, k);
    RotatedSum(h, l, Pow2(31 - k), Pow2(k));
    ScaledAtLeast(x, 1, Pow2(k));
    RepShift(h, l * Pow2(k) + h);
  }

  lemma RotatedSum(h: nat, l: nat, p: nat, q: nat)
    requires p * q == P + 1 && q >= 1 && h * p + l >= 1
    ensures (h * p + l) * q == h * P + (l * q + h)
    ensures l * q + h >= 1
  {
    assert (h * p + l) * q == h * (p * q) + l * q;
    if h == 0 {
      ScaledAtLeast(l, 1, q);
    }
  }

  lemma RepShift(h: nat, r: nat)
    requires 1 <= r <= P
    ensures Rep(h * P + r) == r
  {}

  // ----- the register

  ghost predicate InRange(s: seq<u32>) {
    |s| == 16 && forall i :: 0 <= i < 16 ==> 1 <= s[i] <= P
  }

  /** The feedback of the code, before `u` is added. */
  function Feedback(s: seq<u32>): u32
    requires |s| == 16
  {
    AddM(AddM(AddM(AddM(AddM(s[0], MulByPow2(s[0], 8)), MulByPow2(s[4], 20)),
         MulByPow2(s[10], 21)), MulByPow2(s[13], 17)), MulByPow2(s[15], 15))
  }

  /** The same sum over the integers. */
  function FeedbackSum(s: seq<nat>): nat
    requires |s| == 16
  {
    0x8000 * s[15] + 0x2_0000 * s[13] + 0x20_0000 * s[10] + 0x10_0000 * s[4] + (1 + 0x100) * s[0]
  }

  lemma FeedbackReduces(s: seq<u32>)
    requires InRange(s)
    ensures FeedbackSum(s) >= 1 && Feedback(s) == Rep(FeedbackSum(s))
  {
    hide AddM, MulByPow2, Rep;
    PowersUsed();
    var s0: nat, s4: nat, s10: nat, s13: nat := s[0], s[4], s[10], s[13];
    var f1: nat := s0 + s0 * 0x100;
    var f2: nat := f1 + s4 * 0x10_0000;
    var f3: nat := f2 + s10 * 0x20_0000;
    RepSmall(s0);
    Accumulate(s0, s0, 8);
    Accumulate(f1, s4, 20);
    Accumulate(f2, s10, 21);
    Accumulate(f3, s13, 17);
    Accumulate(f3 + s13 * 0x2_0000, s[15], 15);
  }

  lemma RepSmall(n: nat)
    requires 1 <= n <= P
    ensures Rep(n) == n
  {}

  lemma PowersUsed()
    ensures Pow2(8) == 0x100 && Pow2(15) == 0x8000 && Pow2(17) == 0x2_0000
    ensures Pow2(20) == 0x10_0000 && Pow2(21) == 0x20_0000
  {}

  /** One `MulByPow2` and `AddM` of the feedback. */
  lemma Accumulate(f: nat, x: u32, k: nat)
    requires f >= 1 && 1 <= x <= P && k <= 31
    ensures AddM(Rep(f), MulByPow2(x, k)) == Rep(f + x * Pow2(k))
  {
    hide AddM, MulByPow2;
    MulByPow2Reduces(x, k);
    ScaledAtLeast(x, 1, Pow2(k));
    AddMReduces(Rep(f), MulByPow2(x, k));
    RepAddsUpRight(Rep(f), x * Pow2(k));
    RepAddsUp(f, x * Pow2(k));
  }

  /** The step of the code: `u` is absent in working mode. */
  function Clock(s: seq<u32>, init: bool, u: u32): (t: seq<u32>)
    requires |s| == 16
    ensures |t| == 16
  {
    s[1..] + [if init then AddM(Feedback(s), u) else Feedback(s)]
  }

  // ----- the generator

  datatype State = State(s: seq<u32>, r1: u32, r2: u32)

  /** The four words `BRC_X` that bit reorganisation takes from the register. */
  function Reorganized(s: seq<u32>): (x: seq<u32>)
    requires |s| == 16
    ensures |x| == 4
  {
    [Or32(Shl32(And(s[15], 0x7fff_8000), 1), Low16(s[14])),
     Or32(Shl32(Low16(s[11]), 16), Shr32(s[9], 15)),
     Or32(Shl32(Low16(s[7]), 16), Shr32(s[5], 15)),
     Or32(Shl32(Low16(s[2]), 16), Shr32(s[0], 15))]
  }

  function Low16(w: u32): u32 {
    WidthFacts();
    AndLowMask(w, 16);
    Split(w, 16);
    And(w, 0xffff)
  }

  /** `ROT`. */
  function Rot(a: u32, k: nat): u32
    requires k <= 32
  {
    Or32(Shl32(a, k), Shr32(a, 32 - k))
  }

  function L1(x: u32): u32 {
    Xor32(Xor32(Xor32(Xor32(x, Rot(x, 2)), Rot(x, 10)), Rot(x, 18)), Rot(x, 24))
  }

  function L2(x: u32): u32 {
    Xor32(Xor32(Xor32(Xor32(x, Rot(x, 8)), Rot(x, 14)), Rot(x, 22)), Rot(x, 30))
  }

  /** The end of one word and the beginning of the other. */
  function Crossed(a: u32, b: u32): u32 {
    Or32(Shl32(a, 16), Shr32(b, 16))
  }

  function MakeU32(a: u8, b: u8, c: u8, d: u8): u32 {
    Or32(Or32(Or32(Shl32(a, 24), Shl32(b, 16)), Shl32(c, 8)), d)
  }

  function TopByte(w: u32): u8 {
    WidthFacts();
    TopSmall(w, 8, 24);
    Shr(w, 24)
  }

  /** The S-box layer, byte by byte. */
  function Substituted(u: u32): u32 {
    MakeU32(S0(TopByte(u)), S1(LowOctet(Shr32(u, 16))), S0(LowOctet(Shr32(u, 8))), S1(LowOctet(u)))
  }

  /** The output word `W` of the nonlinear function. */
  function OutputOfF(x: seq<u32>, r1: u32, r2: u32): u32
    requires |x| == 4
  {
    Add32(Xor32(x[0], r1), r2)
  }

  /** The next `F_R1` and `F_R2`. */
  function NextMemory(x: seq<u32>, r1: u32, r2: u32): (u32, u32)
    requires |x| == 4
  {
    var w1, w2 := Add32(r1, x[1]), Xor32(r2, x[2]);
    (Substituted(L1(Crossed(w1, w2))), Substituted(L2(Crossed(w2, w1))))
  }

  function Round(st: State, init: bool): State {
    if |st.s| != 16 then st
    else
      var x := Reorganized(st.s);
      var r := NextMemory(x, st.r1, st.r2);
      State(Clock(st.s, init, Shr32(OutputOfF(x, st.r1, st.r2), 1)), r.0, r.1)
  }

  function Step(init: bool): State -> State {
    (st: State) => Round(st, init)
  }

  function Loaded(key: seq<u8>, iv: seq<u8>, n: nat): (s: seq<u32>)
    requires |key| == |iv| == 16 && n <= 16
    ensures |s| == n
  {
    if n == 0 then [] else Loaded(key, iv, n - 1) + [MakeU31(key[n - 1], EK_D[n - 1], iv[n - 1])]
  }

  function MakeU31(a: u8, b: u32, c: u8): u32 {
    Or32(Or32(Shl32(a, 23), Shl32(b, 8)), c)
  }

  /** The state after `Initialize`: 32 feeding rounds and one working round. */
  function Initialized(key: seq<u8>, iv: seq<u8>): State
    requires |key| == |iv| == 16
  {
    Step(false)(Iterate(Step(true), State(Loaded(key, iv, 16), 0, 0), 32))
  }

  function KeyStreamWord(st: State): u32 {
    if |st.s| != 16 then 0
    else
      var x := Reorganized(st.s);
      Xor32(OutputOfF(x, st.r1, st.r2), x[3])
  }

  function KeyStream(st: State, n: nat): (z: seq<u32>)
    ensures |z| == n
  {
    if n == 0 then [] else KeyStream(st, n - 1) + [KeyStreamWord(Iterate(Step(false), st, n - 1))]
  }

  // ----- the thread-local variables and the functions that change them

  class Generator {
    const lfsr: array<u32>
    const brc: array<u32>
    var r1: u32
    var r2: u32

    constructor ()
      ensures Valid() && fresh(lfsr) && fresh(brc)
    {
      lfsr := new u32[16];
      brc := new u32[4];
    }

    ghost predicate Valid() {
      lfsr.Length == 16 && brc.Length == 4 && lfsr != brc
    }

    ghost function St(): State
      reads this, lfsr
    {
      State(lfsr[..], r1, r2)
    }

    method Accumulated() returns (f: u32)
      requires Valid()
      ensures f == Feedback(lfsr[..])
    {
      hide AddM, MulByPow2;
      f := lfsr[0];
      var v := MulByPow2(lfsr[0], 8);
      f := AddM(f, v);
      v := MulByPow2(lfsr[4], 20);
      f := AddM(f, v);
      v := MulByPow2(lfsr[10], 21);
      f := AddM(f, v);
      v := MulByPow2(lfsr[13], 17);
      f := AddM(f, v);
      v := MulByPow2(lfsr[15], 15);
      f := AddM(f, v);
    }

    method Shift(f: u32)
      requires Valid()
      modifies lfsr
      ensures lfsr[..] == old(lfsr[..])[1..] + [f]
    {
      for i := 0 to 15
        invariant forall j :: 0 <= j < i ==> lfsr[j] == old(lfsr[j + 1])
        invariant forall j :: i <= j < 16 ==> lfsr[j] == old(lfsr[j])
      {
        lfsr[i] := lfsr[i + 1];
      }
      lfsr[15] := f;
    }

    method LFSRWithInitializationMode(u: u32)
      requires Valid()
      modifies lfsr
      ensures lfsr[..] == Clock(old(lfsr[..]), true, u)
    {
      hide AddM, Feedback;
      var f := Accumulated();
      f := AddM(f, u);
      Shift(f);
    }

    method LFSRWithWorkMode()
      requires Valid()
      modifies lfsr
      ensures forall u: u32 :: lfsr[..] == Clock(old(lfsr[..]), false, u)
    {
      hide Feedback;
      var f := Accumulated();
      Shift(f);
    }

    method BitReorganization()
      requires Valid()
      modifies brc
      ensures brc[..] == Reorganized(lfsr[..])
    {
      hide Or32, Shl32, Shr32, And, Low16;
      brc[0] := Or32(Shl32(And(lfsr[15], 0x7fff_8000), 1), Low16(lfsr[14]));
      brc[1] := Or32(Shl32(Low16(lfsr[11]), 16), Shr32(lfsr[9], 15));
      brc[2] := Or32(Shl32(Low16(lfsr[7]), 16), Shr32(lfsr[5], 15));
      brc[3] := Or32(Shl32(Low16(lfsr[2]), 16), Shr32(lfsr[0], 15));
    }

    method F() returns (w: u32)
      requires Valid()
      modifies this
      ensures w == OutputOfF(brc[..], old(r1), old(r2))
      ensures (r1, r2) == NextMemory(brc[..], old(r1), old(r2))
    {
      hide Xor32, Add32, L1, L2, Crossed, Substituted;
      w := Add32(Xor32(brc[0], r1), r2);
      var w1 := Add32(r1, brc[1]);
      var w2 := Xor32(r2, brc[2]);
      var u := L1(Crossed(w1, w2));
      var v := L2(Crossed(w2, w1));
      r1 := Substituted(u);
      r2 := Substituted(v);
    }

    method FeedingRound()
      requires Valid()
      modifies this, lfsr, brc
      ensures St() == Step(true)(old(St()))
    {
      hide Reorganized, OutputOfF, NextMemory, Clock, Shr32;
      BitReorganization();
      var w := F();
      LFSRWithInitializationMode(Shr32(w, 1));
    }

    method WorkingRound() returns (z: u32)
      requires Valid()
      modifies this, lfsr, brc
      ensures St() == Step(false)(old(St()))
      ensures z == KeyStreamWord(old(St()))
    {
      hide Reorganized, OutputOfF, NextMemory, Clock, Shr32;
      BitReorganization();
      z := F();
      z := Xor32(z, brc[3]);
      LFSRWithWorkMode();
    }

    method Initialize(key: seq<u8>, iv: seq<u8>)
      requires Valid() && |key| == |iv| == 16
      modifies this, lfsr, brc
      ensures St() == Initialized(key, iv)
    {
      hide MakeU31, Step;
      for i := 0 to 16
        invariant lfsr[..i] == Loaded(key, iv, i)
      {
        lfsr[i] := MakeU31(key[i], EK_D[i], iv[i]);
        assert lfsr[..i + 1] == lfsr[..i] + [lfsr[i]];
      }
      assert lfsr[..] == lfsr[..16];
      r1 := 0;
      r2 := 0;
      ghost var st := St();
      var nCount := 32;
      while nCount > 0
        invariant 0 <= nCount <= 32
        invariant St() == Iterate(Step(true), st, 32 - nCount)
      {
        FeedingRound();
        nCount := nCount - 1;
      }
      var _ := WorkingRound();
    }

    method GenerateKeyStream(n: nat) returns (keyStream: seq<u32>)
      requires Valid()
      modifies this, lfsr, brc
      ensures keyStream == KeyStream(old(St()), n)
      ensures St() == Iterate(Step(false), old(St()), n)
    {
      hide Step;
      ghost var st := St();
      keyStream := [];
      for i := 0 to n
        invariant keyStream == KeyStream(st, i)
        invariant St() == Iterate(Step(false), st, i)
      {
        var z := WorkingRound();
        keyStream := keyStream + [z];
      }
    }
  }
}
