/** The two implementations of SNOW 3G: one on nineteen global registers, one on heap arrays.
    Each is proved against the same clocks, so they stay in step whatever was there before, and
    write no word behind those asked for. */
module Snow3gGenerators {
  import opened Snow3g
  import opened XorWords

  lemma FeedbackParts(st: State, f: bv32)
    requires Valid(st)
    ensures Feedback(st, f) == Xor32(Fed(st.s[0], st.s[2], st.s[11]), f)
    ensures Feedback(st, 0) == Fed(st.s[0], st.s[2], st.s[11])
    ensures ClockLfsr(st, f) == State(st.s[1..] + [Feedback(st, f)], st.r1, st.r2, st.r3)
  {
    hide Fed, Xor32;
    Xor32Unit(Fed(st.s[0], st.s[2], st.s[11]));
  }

  lemma FsmParts(st: State)
    requires Valid(st)
    ensures Output(st) == Xor32(Plus(st.s[15], st.r1), st.r2)
    ensures ClockFsm(st) == State(st.s, Plus(st.r2, Xor32(st.r3, st.s[5])), S1(st.r1), S2(st.r2))
  {
    hide Plus, Xor32, S1, S2;
  }

  lemma StreamStepIs(st: State)
    requires Valid(st)
    ensures StreamStep(st) == ClockLfsr(ClockFsm(st), 0)
  {
    hide ClockLfsr, ClockFsm;
  }

  lemma InitStepIs(st: State)
    requires Valid(st)
    ensures InitStep(st) == ClockLfsr(ClockFsm(st), Output(st))
  {
    hide ClockLfsr, ClockFsm, Output;
  }

  lemma StepsUnfold(st: State, n: nat)
    requires Valid(st)
    ensures StreamSteps(st, 0) == st && StreamSteps(st, n + 1) == StreamStep(StreamSteps(st, n))
    ensures InitSteps(st, 0) == st && InitSteps(st, n + 1) == InitStep(InitSteps(st, n))
  {
    hide StreamStep, InitStep;
  }

  lemma InitializedIs(k: seq<bv32>, iv: seq<bv32>)
    requires |k| == 4 && |iv| == 4
    ensures Initialized(k, iv) == InitSteps(Loaded(k, iv), 32)
  {
    hide InitSteps, Loaded;
  }

  lemma KeystreamUnfold(st: State, n: nat)
    requires Valid(st)
    ensures Keystream(st, 0) == []
    ensures Keystream(st, n + 1) == Keystream(st, n) + [Word(StreamSteps(st, n + 1))]
  {
    hide StreamSteps, Word;
  }

  lemma WordIs(st: State)
    requires Valid(st)
    ensures Word(st) == Xor32(Output(st), ClockFsm(st).s[0])
  {
    hide Output, S1, S2, FsmNext, Xor32;
  }

  /** Sixteen words in a row. */
  function Sixteen(s0: bv32, s1: bv32, s2: bv32, s3: bv32, s4: bv32, s5: bv32, s6: bv32, s7: bv32, s8: bv32,
                   s9: bv32, s10: bv32, s11: bv32, s12: bv32, s13: bv32, s14: bv32, s15: bv32): (r: seq<bv32>)
    ensures |r| == 16
  {
    [s0, s1, s2, s3, s4, s5, s6, s7, s8, s9, s10, s11, s12, s13, s14, s15]
  }

  lemma SixteenOf(s: seq<bv32>)
    requires |s| == 16
    ensures s == Sixteen(s[0], s[1], s[2], s[3], s[4], s[5], s[6], s[7],
                         s[8], s[9], s[10], s[11], s[12], s[13], s[14], s[15])
  {
  }

  lemma RegistersShifted(s0: bv32, s1: bv32, s2: bv32, s3: bv32, s4: bv32, s5: bv32, s6: bv32, s7: bv32, s8: bv32,
                    s9: bv32, s10: bv32, s11: bv32, s12: bv32, s13: bv32, s14: bv32, s15: bv32, v: bv32)
    ensures Sixteen(s0, s1, s2, s3, s4, s5, s6, s7, s8, s9, s10, s11, s12, s13, s14, s15)[1..] + [v]
            == Sixteen(s1, s2, s3, s4, s5, s6, s7, s8, s9, s10, s11, s12, s13, s14, s15, v)
  {
  }

  lemma LoadedIs(k: seq<bv32>, iv: seq<bv32>)
    requires |k| == 4 && |iv| == 4
    ensures Loaded(k, iv) ==
            State(Sixteen(Xor32(k[0], ONES), Xor32(k[1], ONES), Xor32(k[2], ONES), Xor32(k[3], ONES), k[0], k[1], k[2], k[3],
                          Xor32(k[0], ONES), Xor32(Xor32(k[1], ONES), iv[3]), Xor32(Xor32(k[2], ONES), iv[2]), Xor32(k[3], ONES),
                          Xor32(k[0], iv[1]), k[1], k[2], Xor32(k[3], iv[0])), 0, 0, 0)
  {
    hide Xor32;
  }

  /** The generator on global registers. */
  class GlobalRegisters {
    var s0: bv32
    var s1: bv32
    var s2: bv32
    var s3: bv32
    var s4: bv32
    var s5: bv32
    var s6: bv32
    var s7: bv32
    var s8: bv32
    var s9: bv32
    var s10: bv32
    var s11: bv32
    var s12: bv32
    var s13: bv32
    var s14: bv32
    var s15: bv32
    var r1: bv32
    var r2: bv32
    var r3: bv32

    ghost function Registers(): (st: State)
      reads this
      ensures Valid(st)
    {
      State(Sixteen(s0, s1, s2, s3, s4, s5, s6, s7, s8, s9, s10, s11, s12, s13, s14, s15), r1, r2, r3)
    }

    method ClockLfsrInitializationMode(f: bv32)
      modifies this
      ensures Registers() == ClockLfsr(old(Registers()), f)
    {
      hide *;
      RegistersParts();
      FeedbackParts(Registers(), f);
      Shift(Xor32(Fed(s0, s2, s11), f));
    }

    /** Every register takes the value of the next one. */
    method Shift(v: bv32)
      modifies this
      ensures Registers() == State(old(Registers()).s[1..] + [v], old(r1), old(r2), old(r3))
    {
      hide *;
      RegistersAre();
      RegistersShifted(s0, s1, s2, s3, s4, s5, s6, s7, s8, s9, s10, s11, s12, s13, s14, s15, v);
      ShiftAll(v);
      RegistersAre();
    }

    method ShiftAll(v: bv32)
      modifies this
      ensures s0 == old(s1) && s1 == old(s2) && s2 == old(s3) && s3 == old(s4)
      ensures s4 == old(s5) && s5 == old(s6) && s6 == old(s7) && s7 == old(s8)
      ensures s8 == old(s9) && s9 == old(s10) && s10 == old(s11) && s11 == old(s12)
      ensures s12 == old(s13) && s13 == old(s14) && s14 == old(s15) && s15 == v
      ensures r1 == old(r1) && r2 == old(r2) && r3 == old(r3)
    {
      ShiftLower();
      ShiftUpper(v);
    }

    method ShiftLower()
      modifies `s0, `s1, `s2, `s3, `s4, `s5, `s6, `s7
      ensures s0 == old(s1) && s1 == old(s2) && s2 == old(s3) && s3 == old(s4)
      ensures s4 == old(s5) && s5 == old(s6) && s6 == old(s7) && s7 == old(s8)
    {
      s0 := s1;
      s1 := s2;
      s2 := s3;
      s3 := s4;
      s4 := s5;
      s5 := s6;
      s6 := s7;
      s7 := s8;
    }

    method ShiftUpper(v: bv32)
      modifies `s8, `s9, `s10, `s11, `s12, `s13, `s14, `s15
      ensures s8 == old(s9) && s9 == old(s10) && s10 == old(s11) && s11 == old(s12)
      ensures s12 == old(s13) && s13 == old(s14) && s14 == old(s15) && s15 == v
    {
      s8 := s9;
      s9 := s10;
      s10 := s11;
      s11 := s12;
      s12 := s13;
      s13 := s14;
      s14 := s15;
      s15 := v;
    }

    lemma RegistersAre()
      ensures Registers() == State(Sixteen(s0, s1, s2, s3, s4, s5, s6, s7, s8, s9, s10, s11, s12, s13, s14, s15), r1, r2, r3)
    {
    }

    lemma RegistersParts()
      ensures var st := Registers();
              st.s[0] == s0 && st.s[2] == s2 && st.s[5] == s5 && st.s[11] == s11 && st.s[15] == s15
              && st.r1 == r1 && st.r2 == r2 && st.r3 == r3
    {
    }

    method ClockLfsrKeyStreamMode()
      modifies this
      ensures Registers() == ClockLfsr(old(Registers()), 0)
    {
      hide *;
      RegistersParts();
      FeedbackParts(Registers(), 0);
      Shift(Fed(s0, s2, s11));
    }

    method ClockFsmOnce() returns (f: bv32)
      modifies this
      ensures f == Output(old(Registers()))
      ensures Registers() == ClockFsm(old(Registers()))
    {
      hide *;
      RegistersParts();
      FsmParts(Registers());
      RegistersAre();
      f := Xor32(Plus(s15, r1), r2);
      var r := Plus(r2, Xor32(r3, s5));
      r3 := S2(r2);
      r2 := S1(r1);
      r1 := r;
      RegistersAre();
    }

    method Load(k: seq<bv32>, iv: seq<bv32>)
      requires |k| == 4 && |iv| == 4
      modifies this
      ensures Registers() == Loaded(k, iv)
    {
      hide *;
      ClearFsm();
      LoadUpper(k, iv);
      LoadLower(k);
      RegistersAre();
      LoadedIs(k, iv);
    }

    method ClearFsm()
      modifies `r1, `r2, `r3
      ensures r1 == 0 && r2 == 0 && r3 == 0
    {
      hide *;
      r1 := 0;
      r2 := 0;
      r3 := 0;
    }

    method LoadUpper(k: seq<bv32>, iv: seq<bv32>)
      requires |k| == 4 && |iv| == 4
      modifies `s8, `s9, `s10, `s11, `s12, `s13, `s14, `s15
      ensures s15 == Xor32(k[3], iv[0]) && s14 == k[2] && s13 == k[1] && s12 == Xor32(k[0], iv[1])
      ensures s11 == Xor32(k[3], ONES) && s10 == Xor32(Xor32(k[2], ONES), iv[2])
      ensures s9 == Xor32(Xor32(k[1], ONES), iv[3]) && s8 == Xor32(k[0], ONES)
    {
      hide *;
      s15 := Xor32(k[3], iv[0]);
      s14 := k[2];
      s13 := k[1];
      s12 := Xor32(k[0], iv[1]);
      s11 := Xor32(k[3], ONES);
      s10 := Xor32(Xor32(k[2], ONES), iv[2]);
      s9 := Xor32(Xor32(k[1], ONES), iv[3]);
      s8 := Xor32(k[0], ONES);
    }

    method LoadLower(k: seq<bv32>)
      requires |k| == 4
      modifies `s0, `s1, `s2, `s3, `s4, `s5, `s6, `s7
      ensures s7 == k[3] && s6 == k[2] && s5 == k[1] && s4 == k[0] && s3 == Xor32(k[3], ONES)
      ensures s2 == Xor32(k[2], ONES) && s1 == Xor32(k[1], ONES) && s0 == Xor32(k[0], ONES)
    {
      hide *;
      s7 := k[3];
      s6 := k[2];
      s5 := k[1];
      s4 := k[0];
      s3 := Xor32(k[3], ONES);
      s2 := Xor32(k[2], ONES);
      s1 := Xor32(k[1], ONES);
      s0 := Xor32(k[0], ONES);
    }

    /** snow3g_initialize: the result does not depend on what the registers held. */
    method Initialize(k: seq<bv32>, iv: seq<bv32>)
      requires |k| == 4 && |iv| == 4
      modifies this
      ensures Registers() == Initialized(k, iv)
    {
      hide *;
      InitializedIs(k, iv);
      Load(k, iv);
      StepsUnfold(Registers(), 0);
      var i := 0;
      while i < 32
        invariant 0 <= i <= 32
        invariant Registers() == InitSteps(Loaded(k, iv), i)
      {
        InitStepIs(Registers());
        StepsUnfold(Loaded(k, iv), i);
        var f := ClockFsmOnce();
        ClockLfsrInitializationMode(f);
        i := i + 1;
      }
    }

    method Oldest() returns (w: bv32)
      ensures w == Registers().s[0]
    {
      w := s0;
    }

    method GenerateKeystream(n: nat, ks: array<bv32>)
      requires n <= ks.Length
      modifies this, ks
      ensures ks[..n] == Keystream(old(Registers()), n)
      ensures ks[n..] == old(ks[n..])
      ensures Registers() == StreamSteps(old(Registers()), n + 1)
    {
      hide Registers, ClockLfsr, ClockFsm, Output, StreamSteps, StreamStep, Keystream, Word, Xor32;
      ghost var st := Registers();
      StepsUnfold(st, 0);
      KeystreamUnfold(st, 0);
      StreamStepIs(st);
      var f := ClockFsmOnce();
      ClockLfsrKeyStreamMode();
      var t := 0;
      while t < n
        invariant 0 <= t <= n
        invariant Registers() == StreamSteps(st, t + 1)
        invariant ks[..t] == Keystream(st, t)
        invariant ks[n..] == old(ks[n..])
      {
        ghost var now := Registers();
        StreamStepIs(now);
        StepsUnfold(st, t + 1);
        KeystreamUnfold(st, t);
        WordIs(now);
        f := ClockFsmOnce();
        var oldest := Oldest();
        ks[t] := Xor32(f, oldest);
        assert ks[..t + 1] == ks[..t] + [ks[t]];
        ClockLfsrKeyStreamMode();
        t := t + 1;
      }
    }
  }

  /** The generator on two heap arrays. */
  class S3gState {
    var lfsr: array<bv32>
    var fsm: array<bv32>

    ghost predicate Ready()
      reads this
    {
      lfsr.Length == 16 && fsm.Length == 3 && lfsr != fsm
    }

    ghost function Registers(): (st: State)
      requires Ready()
      reads this, lfsr, fsm
      ensures Valid(st)
    {
      State(lfsr[..], fsm[0], fsm[1], fsm[2])
    }

    /** s3g_clock_lfsr: shifts the array down by one. */
    method ClockLfsrOnce(f: bv32)
      requires Ready()
      modifies lfsr
      ensures Registers() == ClockLfsr(old(Registers()), f)
    {
      hide *;
      ReadyIs();
      RegistersAre();
      FeedbackParts(Registers(), f);
      Shift(Xor32(Fed(lfsr[0], lfsr[2], lfsr[11]), f));
      RegistersAre();
    }

    method Shift(v: bv32)
      requires Ready()
      modifies lfsr
      ensures lfsr[..] == old(lfsr[1..]) + [v]
      ensures fsm[0] == old(fsm[0]) && fsm[1] == old(fsm[1]) && fsm[2] == old(fsm[2])
    {
      var i := 0;
      while i < 15
        invariant 0 <= i <= 15
        invariant forall j :: 0 <= j < i ==> lfsr[j] == old(lfsr[j + 1])
        invariant forall j :: i <= j < 16 ==> lfsr[j] == old(lfsr[j])
      {
        lfsr[i] := lfsr[i + 1];
        i := i + 1;
      }
      lfsr[15] := v;
    }

    method ClockFsmOnce() returns (f: bv32)
      requires Ready()
      modifies fsm
      ensures f == Output(old(Registers()))
      ensures Registers() == ClockFsm(old(Registers()))
    {
      hide *;
      ReadyIs();
      RegistersAre();
      FsmParts(Registers());
      f := Xor32(Plus(lfsr[15], fsm[0]), fsm[1]);
      var r := Plus(fsm[1], Xor32(fsm[2], lfsr[5]));
      fsm[2] := S2(fsm[1]);
      fsm[1] := S1(fsm[0]);
      fsm[0] := r;
      RegistersAre();
    }

    method Load(k: seq<bv32>, iv: seq<bv32>)
      requires |k| == 4 && |iv| == 4 && Ready()
      modifies lfsr, fsm
      ensures Registers() == Loaded(k, iv)
    {
      hide *;
      ReadyIs();
      LoadUpper(k, iv);
      LoadLower(k);
      ClearFsm();
      RegistersAre();
      LoadedIs(k, iv);
      SixteenOf(lfsr[..]);
    }

    method LoadUpper(k: seq<bv32>, iv: seq<bv32>)
      requires |k| == 4 && |iv| == 4 && lfsr.Length == 16
      modifies lfsr
      ensures lfsr[15] == Xor32(k[3], iv[0]) && lfsr[14] == k[2] && lfsr[13] == k[1] && lfsr[12] == Xor32(k[0], iv[1])
      ensures lfsr[11] == Xor32(k[3], ONES) && lfsr[10] == Xor32(Xor32(k[2], ONES), iv[2])
      ensures lfsr[9] == Xor32(Xor32(k[1], ONES), iv[3]) && lfsr[8] == Xor32(k[0], ONES)
    {
      hide *;
      lfsr[15] := Xor32(k[3], iv[0]);
      lfsr[14] := k[2];
      lfsr[13] := k[1];
      lfsr[12] := Xor32(k[0], iv[1]);
      lfsr[11] := Xor32(k[3], ONES);
      lfsr[10] := Xor32(Xor32(k[2], ONES), iv[2]);
      lfsr[9] := Xor32(Xor32(k[1], ONES), iv[3]);
      lfsr[8] := Xor32(k[0], ONES);
    }

    method LoadLower(k: seq<bv32>)
      requires |k| == 4 && lfsr.Length == 16
      modifies lfsr
      ensures lfsr[7] == k[3] && lfsr[6] == k[2] && lfsr[5] == k[1] && lfsr[4] == k[0] && lfsr[3] == Xor32(k[3], ONES)
      ensures lfsr[2] == Xor32(k[2], ONES) && lfsr[1] == Xor32(k[1], ONES) && lfsr[0] == Xor32(k[0], ONES)
      ensures forall i :: 8 <= i < 16 ==> lfsr[i] == old(lfsr[i])
    {
      hide *;
      lfsr[7] := k[3];
      lfsr[6] := k[2];
      lfsr[5] := k[1];
      lfsr[4] := k[0];
      lfsr[3] := Xor32(k[3], ONES);
      lfsr[2] := Xor32(k[2], ONES);
      lfsr[1] := Xor32(k[1], ONES);
      lfsr[0] := Xor32(k[0], ONES);
    }

    method ClearFsm()
      requires fsm.Length == 3
      modifies fsm
      ensures fsm[0] == 0 && fsm[1] == 0 && fsm[2] == 0
    {
      fsm[0] := 0;
      fsm[1] := 0;
      fsm[2] := 0;
    }

    lemma ReadyIs()
      ensures Ready() == (lfsr.Length == 16 && fsm.Length == 3 && lfsr != fsm)
    {
    }

    lemma RegistersAre()
      requires Ready()
      ensures lfsr.Length == 16 && fsm.Length == 3
      ensures Registers() == State(lfsr[..], fsm[0], fsm[1], fsm[2])
    {
    }

    /** s3g_initialize. */
    constructor (k: seq<bv32>, iv: seq<bv32>)
      requires |k| == 4 && |iv| == 4
      ensures Ready() && fresh(lfsr) && fresh(fsm) && Registers() == Initialized(k, iv)
    {
      lfsr := new bv32[16];
      fsm := new bv32[3];
      new;
      hide *;
      ReadyIs();
      Load(k, iv);
      RunInit();
      InitializedIs(k, iv);
    }

    /** The clocks of the initialisation. */
    method RunInit()
      requires Ready()
      modifies lfsr, fsm
      ensures Registers() == InitSteps(old(Registers()), 32)
    {
      hide *;
      ghost var st := Registers();
      StepsUnfold(st, 0);
      var i := 0;
      while i < 32
        invariant 0 <= i <= 32
        invariant Registers() == InitSteps(st, i)
      {
        InitStepIs(Registers());
        StepsUnfold(st, i);
        var f := ClockFsmOnce();
        ClockLfsrOnce(f);
        i := i + 1;
      }
    }

    method GenerateKeystream(n: nat, ks: array<bv32>)
      requires Ready() && n <= ks.Length && ks != lfsr && ks != fsm
      modifies lfsr, fsm, ks
      ensures ks[..n] == Keystream(old(Registers()), n)
      ensures ks[n..] == old(ks[n..])
      ensures Registers() == StreamSteps(old(Registers()), n + 1)
    {
      hide Registers, ClockLfsr, ClockFsm, Output, StreamSteps, StreamStep, Keystream, Word, Xor32;
      ghost var st := Registers();
      StepsUnfold(st, 0);
      KeystreamUnfold(st, 0);
      StreamStepIs(st);
      var f := ClockFsmOnce();
      ClockLfsrOnce(0);
      var t := 0;
      while t < n
        invariant 0 <= t <= n
        invariant Registers() == StreamSteps(st, t + 1)
        invariant ks[..t] == Keystream(st, t)
        invariant ks[n..] == old(ks[n..])
      {
        ghost var now := Registers();
        StreamStepIs(now);
        StepsUnfold(st, t + 1);
        KeystreamUnfold(st, t);
        WordIs(now);
        f := ClockFsmOnce();
        var oldest := Oldest();
        ks[t] := Xor32(f, oldest);
        assert ks[..t + 1] == ks[..t] + [ks[t]];
        ClockLfsrOnce(0);
        t := t + 1;
      }
    }

    method Oldest() returns (w: bv32)
      requires Ready()
      ensures w == Registers().s[0]
    {
      w := lfsr[0];
    }
  }
}
