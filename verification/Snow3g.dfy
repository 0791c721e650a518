/** The SNOW 3G key stream generator: a register of sixteen 32-bit words, `LFSR_S0` to
    `LFSR_S15`, and a state machine of three words, with the S-boxes `S1` and `S2`. */
module Snow3g {
  import opened Words
  import opened SnowAlpha
  import opened SnowBoxes
  import opened Iteration

  /** The sixteen words `LFSR_S0` to `LFSR_S15`. */
  datatype Register = Register(
    s0: u32, s1: u32, s2: u32, s3: u32, s4: u32, s5: u32, s6: u32, s7: u32, s8: u32, s9: u32,
    s10: u32, s11: u32, s12: u32, s13: u32, s14: u32, s15: u32)

  datatype Machine = Machine(lfsr: Register, r1: u32, r2: u32, r3: u32)

  // ----- the steps

  /** The word fed back into the register, from `LFSR_S0`, `LFSR_S2` and `LFSR_S11`. */
  function Feedback(s0: u32, s2: u32, s11: u32): u32 {
    AlphaTimesIsWord(s0);
    AlphaTimesIsWord(s11);
    Xor32(Xor32(AlphaTimes(s0), s2), AlphaInverseTimes(s11))
  }

  function Shifted(r: Register, v: u32): Register {
    Register(r.s1, r.s2, r.s3, r.s4, r.s5, r.s6, r.s7, r.s8, r.s9, r.s10, r.s11, r.s12, r.s13, r.s14,
             r.s15, v)
  }

  function ClockLfsr(r: Register, f: u32): Register {
    Shifted(r, Xor32(Feedback(r.s0, r.s2, r.s11), f))
  }

  /** The output word `F` of the state machine. */
  function FsmOutput(m: Machine): u32 {
    Xor32(Add32(m.lfsr.s15, m.r1), m.r2)
  }

  function ClockFsm(m: Machine): Machine {
    Machine(m.lfsr, Add32(m.r2, Xor32(m.r3, m.lfsr.s5)), S1(m.r1), S2(m.r2))
  }

  /** One round of the generator; while initialising, `F` is fed back into the register. */
  function Round(m: Machine, init: bool): Machine {
    var n := ClockFsm(m);
    Machine(ClockLfsr(m.lfsr, if init then FsmOutput(m) else 0), n.r1, n.r2, n.r3)
  }

  function Step(init: bool): Machine -> Machine {
    m => Round(m, init)
  }

  function Rounds(m: Machine, k: nat, init: bool): Machine {
    Iterate(Step(init), m, k)
  }

  function Complement(w: u32): u32 {
    Xor32(w, 0xffff_ffff)
  }

  function LoadRegister(k0: u32, k1: u32, k2: u32, k3: u32, iv0: u32, iv1: u32, iv2: u32, iv3: u32): Register {
    Register(
      Complement(k0), Complement(k1), Complement(k2), Complement(k3), k0, k1, k2, k3,
      Complement(k0), Xor32(Complement(k1), iv3), Xor32(Complement(k2), iv2), Complement(k3),
      Xor32(k0, iv1), k1, k2, Xor32(k3, iv0))
  }

  function Load(k: seq<u32>, iv: seq<u32>): Machine
    requires |k| == 4 && |iv| == 4
  {
    Machine(LoadRegister(k[0], k[1], k[2], k[3], iv[0], iv[1], iv[2], iv[3]), 0, 0, 0)
  }

  function Initialized(k: seq<u32>, iv: seq<u32>): Machine
    requires |k| == 4 && |iv| == 4
  {
    Rounds(Load(k, iv), 32, true)
  }

  function KeyStreamWord(m: Machine): u32 {
    Xor32(FsmOutput(m), m.lfsr.s0)
  }

  /** The `n` words produced from state `m`; the first round produces nothing. */
  function KeyStream(m: Machine, n: nat): (z: seq<u32>)
    ensures |z| == n
  {
    if n == 0 then []
    else KeyStream(m, n - 1) + [KeyStreamWord(Rounds(m, n, false))]
  }

  // ----- the thread-local variables and the functions that change them

  class Generator {
    var lfsr0: u32   var lfsr1: u32   var lfsr2: u32   var lfsr3: u32
    var lfsr4: u32   var lfsr5: u32   var lfsr6: u32   var lfsr7: u32
    var lfsr8: u32   var lfsr9: u32   var lfsr10: u32  var lfsr11: u32
    var lfsr12: u32  var lfsr13: u32  var lfsr14: u32  var lfsr15: u32
    var fsmR1: u32   var fsmR2: u32   var fsmR3: u32

    ghost function Lfsr(): Register
      reads `lfsr0, `lfsr1, `lfsr2, `lfsr3, `lfsr4, `lfsr5, `lfsr6, `lfsr7
      reads `lfsr8, `lfsr9, `lfsr10, `lfsr11, `lfsr12, `lfsr13, `lfsr14, `lfsr15
    {
      Register(lfsr0, lfsr1, lfsr2, lfsr3, lfsr4, lfsr5, lfsr6, lfsr7, lfsr8, lfsr9, lfsr10, lfsr11,
               lfsr12, lfsr13, lfsr14, lfsr15)
    }

    ghost function State(): Machine
      reads this
    {
      Machine(Lfsr(), fsmR1, fsmR2, fsmR3)
    }

    // The sixteen assignments of a clock, in the order of the code, in two halves.
    method ShiftLow()
      modifies `lfsr0, `lfsr1, `lfsr2, `lfsr3, `lfsr4, `lfsr5, `lfsr6, `lfsr7
      ensures lfsr0 == old(lfsr1) && lfsr1 == old(lfsr2) && lfsr2 == old(lfsr3) && lfsr3 == old(lfsr4)
      ensures lfsr4 == old(lfsr5) && lfsr5 == old(lfsr6) && lfsr6 == old(lfsr7) && lfsr7 == old(lfsr8)
    {
      lfsr0 := lfsr1;
      lfsr1 := lfsr2;
      lfsr2 := lfsr3;
      lfsr3 := lfsr4;
      lfsr4 := lfsr5;
      lfsr5 := lfsr6;
      lfsr6 := lfsr7;
      lfsr7 := lfsr8;
    }

    method ShiftHigh(v: u32)
      modifies `lfsr8, `lfsr9, `lfsr10, `lfsr11, `lfsr12, `lfsr13, `lfsr14, `lfsr15
      ensures lfsr8 == old(lfsr9) && lfsr9 == old(lfsr10) && lfsr10 == old(lfsr11) && lfsr11 == old(lfsr12)
      ensures lfsr12 == old(lfsr13) && lfsr13 == old(lfsr14) && lfsr14 == old(lfsr15) && lfsr15 == v
    {
      lfsr8 := lfsr9;
      lfsr9 := lfsr10;
      lfsr10 := lfsr11;
      lfsr11 := lfsr12;
      lfsr12 := lfsr13;
      lfsr13 := lfsr14;
      lfsr14 := lfsr15;
      lfsr15 := v;
    }

    method Shift(v: u32)
      modifies this
      ensures Lfsr() == Shifted(old(Lfsr()), v)
      ensures fsmR1 == old(fsmR1) && fsmR2 == old(fsmR2) && fsmR3 == old(fsmR3)
    {
      ShiftLow();
      ShiftHigh(v);
    }

    method ClockLFSRInitializationMode(f: u32)
      modifies this
      ensures Lfsr() == ClockLfsr(old(Lfsr()), f)
      ensures fsmR1 == old(fsmR1) && fsmR2 == old(fsmR2) && fsmR3 == old(fsmR3)
    {
      Shift(Xor32(Feedback(lfsr0, lfsr2, lfsr11), f));
    }

    method ClockLFSRKeyStreamMode()
      modifies this
      ensures Lfsr() == ClockLfsr(old(Lfsr()), 0)
      ensures fsmR1 == old(fsmR1) && fsmR2 == old(fsmR2) && fsmR3 == old(fsmR3)
    {
      XorZero(Feedback(lfsr0, lfsr2, lfsr11));
      Shift(Feedback(lfsr0, lfsr2, lfsr11));
    }

    method ClockFSM() returns (f: u32)
      modifies this`fsmR1, this`fsmR2, this`fsmR3
      ensures f == FsmOutput(old(State()))
      ensures State() == ClockFsm(old(State()))
    {
      hide S1, S2, Xor32, Add32;
      f := Xor32(Add32(lfsr15, fsmR1), fsmR2);
      var r := Add32(fsmR2, Xor32(fsmR3, lfsr5));
      fsmR3 := S2(fsmR2);
      fsmR2 := S1(fsmR1);
      fsmR1 := r;
    }

    // The key load, from `LFSR_S15` down, in two halves.
    method LoadHigh(k0: u32, k1: u32, k2: u32, k3: u32, iv0: u32, iv1: u32, iv2: u32, iv3: u32)
      modifies `lfsr8, `lfsr9, `lfsr10, `lfsr11, `lfsr12, `lfsr13, `lfsr14, `lfsr15
      ensures lfsr15 == Xor32(k3, iv0) && lfsr14 == k2 && lfsr13 == k1 && lfsr12 == Xor32(k0, iv1)
      ensures lfsr11 == Complement(k3) && lfsr10 == Xor32(Complement(k2), iv2)
      ensures lfsr9 == Xor32(Complement(k1), iv3) && lfsr8 == Complement(k0)
    {
      lfsr15 := Xor32(k3, iv0);
      lfsr14 := k2;
      lfsr13 := k1;
      lfsr12 := Xor32(k0, iv1);
      lfsr11 := Complement(k3);
      lfsr10 := Xor32(Complement(k2), iv2);
      lfsr9 := Xor32(Complement(k1), iv3);
      lfsr8 := Complement(k0);
    }

    method LoadLow(k0: u32, k1: u32, k2: u32, k3: u32)
      modifies `lfsr0, `lfsr1, `lfsr2, `lfsr3, `lfsr4, `lfsr5, `lfsr6, `lfsr7
      ensures lfsr7 == k3 && lfsr6 == k2 && lfsr5 == k1 && lfsr4 == k0
      ensures lfsr3 == Complement(k3) && lfsr2 == Complement(k2)
      ensures lfsr1 == Complement(k1) && lfsr0 == Complement(k0)
    {
      lfsr7 := k3;
      lfsr6 := k2;
      lfsr5 := k1;
      lfsr4 := k0;
      lfsr3 := Complement(k3);
      lfsr2 := Complement(k2);
      lfsr1 := Complement(k1);
      lfsr0 := Complement(k0);
    }

    method LoadWords(k0: u32, k1: u32, k2: u32, k3: u32, iv0: u32, iv1: u32, iv2: u32, iv3: u32)
      modifies this
      ensures Lfsr() == LoadRegister(k0, k1, k2, k3, iv0, iv1, iv2, iv3)
    {
      LoadHigh(k0, k1, k2, k3, iv0, iv1, iv2, iv3);
      LoadLow(k0, k1, k2, k3);
    }

    method InitializationRound()
      modifies this
      ensures State() == Step(true)(old(State()))
    {
      var f := ClockFSM();
      ClockLFSRInitializationMode(f);
    }

    method KeyStreamRound() returns (z: u32)
      modifies this
      ensures z == KeyStreamWord(old(State()))
      ensures State() == Step(false)(old(State()))
    {
      var f := ClockFSM();
      z := Xor32(f, lfsr0);
      ClockLFSRKeyStreamMode();
    }

    method ResetFsm()
      modifies `fsmR1, `fsmR2, `fsmR3
      ensures fsmR1 == 0 && fsmR2 == 0 && fsmR3 == 0
    {
      fsmR1 := 0;
      fsmR2 := 0;
      fsmR3 := 0;
    }

    method LoadKey(k: seq<u32>, iv: seq<u32>)
      requires |k| == 4 && |iv| == 4
      modifies this
      ensures State() == Load(k, iv)
    {
      LoadWords(k[0], k[1], k[2], k[3], iv[0], iv[1], iv[2], iv[3]);
      ghost var r := Lfsr();
      ResetFsm();
      assert Lfsr() == r;
    }

    method RunInitialization()
      modifies this
      ensures State() == Rounds(old(State()), 32, true)
    {
      ghost var m := State();
      for i := 0 to 32
        invariant State() == Rounds(m, i, true)
      {
        InitializationRound();
      }
    }

    method Initialize(k: seq<u32>, iv: seq<u32>)
      requires |k| == 4 && |iv| == 4
      modifies this
      ensures State() == Initialized(k, iv)
    {
      LoadKey(k, iv);
      RunInitialization();
    }

    method GenerateKeyStream(n: nat) returns (keyStream: seq<u32>)
      modifies this
      ensures keyStream == KeyStream(old(State()), n)
      ensures State() == Rounds(old(State()), n + 1, false)
    {
      ghost var m := State();
      keyStream := [];
      var _ := KeyStreamRound();
      assert Rounds(m, 0, false) == m;
      for t := 0 to n
        invariant keyStream == KeyStream(m, t)
        invariant State() == Rounds(m, t + 1, false)
      {
        var z := KeyStreamRound();
        keyStream := keyStream + [z];
      }
    }
  }

  // ----- every step can be undone

  /** The register before a clock that fed `f` back. */
  function UnclockLfsr(t: Register, f: u32): Register {
    AlphaTimesIsWord(t.s10);
    var x := Xor32(Xor32(Xor32(t.s15, f), AlphaInverseTimes(t.s10)), t.s1);
    AlphaTimesIsWord(x);
    Register(AlphaInverseTimes(x),
             t.s0, t.s1, t.s2, t.s3, t.s4, t.s5, t.s6, t.s7, t.s8, t.s9, t.s10, t.s11, t.s12, t.s13,
             t.s14)
  }

  /** For every fed-back word the clock is a bijection on registers. */
  lemma ClockIsBijection(r: Register, f: u32)
    ensures UnclockLfsr(ClockLfsr(r, f), f) == r
    ensures ClockLfsr(UnclockLfsr(r, f), f) == r
  {
    FeedbackSolved(r.s0, r.s2, r.s11, f);
    FeedbackRestored(r.s15, r.s1, r.s10, f);
  }

  lemma FeedbackSolved(s0: u32, s2: u32, s11: u32, f: u32)
    ensures AlphaInverseTimes(s11) < TWO_32
    ensures Xor32(Xor32(Xor32(Xor32(Feedback(s0, s2, s11), f), f), AlphaInverseTimes(s11)), s2) == AlphaTimes(s0)
    ensures AlphaInverseTimes(AlphaTimes(s0)) == s0
  {
    AlphaTimesIsWord(s11);
    DivideUndoesMultiply(s0);
    XorUndo(AlphaTimes(s0), s2, AlphaInverseTimes(s11), f);
  }

  lemma FeedbackRestored(s15: u32, s1: u32, s10: u32, f: u32)
    ensures AlphaInverseTimes(s10) < TWO_32
    ensures var x := Xor32(Xor32(Xor32(s15, f), AlphaInverseTimes(s10)), s1);
      AlphaInverseTimes(x) < TWO_32 && Xor32(Feedback(AlphaInverseTimes(x), s1, s10), f) == s15
  {
    AlphaTimesIsWord(s10);
    var x := Xor32(Xor32(Xor32(s15, f), AlphaInverseTimes(s10)), s1);
    MultiplyUndoesDivide(x);
    XorUndo(s15, f, AlphaInverseTimes(s10), s1);
  }

  lemma XorUndo(a: nat, b: nat, c: nat, d: nat)
    ensures Xor(Xor(Xor(Xor(Xor(Xor(a, b), c), d), d), c), b) == a
  {
    XorCancel(Xor(Xor(a, b), c), d);
    XorCancel(Xor(a, b), c);
    XorCancel(a, b);
  }

  /** A round, of either kind, never merges two states. */
  lemma RoundIsInjective(m: Machine, n: Machine, init: bool)
    ensures Round(m, init) == Round(n, init) <==> m == n
  {
    if Round(m, init) == Round(n, init) {
      BoxesAreInjective(m.r1, n.r1);
      BoxesAreInjective(m.r2, n.r2);
      assert FsmOutput(m) == FsmOutput(n);
      AddCancels(m.r2, Xor32(m.r3, m.lfsr.s5), Xor32(n.r3, n.lfsr.s5));
      XorCancel(m.r3, m.lfsr.s5);
      XorCancel(n.r3, n.lfsr.s5);
      var f := if init then FsmOutput(m) else 0;
      ClockIsBijection(m.lfsr, f);
      ClockIsBijection(n.lfsr, f);
    }
  }

  lemma AddCancels(a: u32, b: u32, c: u32)
    requires Add32(a, b) == Add32(a, c)
    ensures b == c
  {}

  lemma StepIsInjective(init: bool)
    ensures Injective(Step(init))
  {
    forall m: Machine, n: Machine | Step(init)(m) == Step(init)(n)
      ensures m == n
    {
      RoundIsInjective(m, n, init);
    }
  }

  /** Initialisation loses nothing: different keys or different initial values always lead
      to different generator states, and so do any two runs of the generator from them. */
  lemma InitializeIsInjective(k: seq<u32>, iv: seq<u32>, l: seq<u32>, iw: seq<u32>, n: nat)
    requires |k| == |iv| == |l| == |iw| == 4
    ensures Rounds(Initialized(k, iv), n, false) == Rounds(Initialized(l, iw), n, false)
        <==> k == l && iv == iw
  {
    var m, q := Initialized(k, iv), Initialized(l, iw);
    if Rounds(m, n, false) == Rounds(q, n, false) {
      StepIsInjective(false);
      IterateIsInjective(Step(false), m, q, n);
      StepIsInjective(true);
      IterateIsInjective(Step(true), Load(k, iv), Load(l, iw), 32);
      LoadIsInjective(k, iv, l, iw);
    }
  }

  lemma LoadIsInjective(k: seq<u32>, iv: seq<u32>, l: seq<u32>, iw: seq<u32>)
    requires |k| == |iv| == |l| == |iw| == 4
    requires Load(k, iv).lfsr == Load(l, iw).lfsr
    ensures k == l && iv == iw
  {
    assert k == [k[0], k[1], k[2], k[3]] && l == [l[0], l[1], l[2], l[3]];
    assert iv == [iv[0], iv[1], iv[2], iv[3]] && iw == [iw[0], iw[1], iw[2], iw[3]];
    XorDetermines(k[3], iv[0], iw[0]);
    XorDetermines(k[0], iv[1], iw[1]);
    XorDetermines(Complement(k[2]), iv[2], iw[2]);
    XorDetermines(Complement(k[1]), iv[3], iw[3]);
  }

  lemma XorDetermines(a: nat, b: nat, c: nat)
    ensures Xor(a, b) == Xor(a, c) ==> b == c
  {
    XorCancel(b, a);
    XorCancel(c, a);
  }
}
