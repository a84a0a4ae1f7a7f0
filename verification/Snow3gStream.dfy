/** SNOW 3G as recurrences on four endless lists of words, the way its specification draws the
    registers, and why the generator on states follows them: its registers are a window on the
    lists, moved on by one at every clock. */
module Snow3gStream {
  import opened ByteTables
  import opened Snow3g
  import opened XorWords
  import GF = GfBytes

  /** The word that the finite state machine gives at clock u. */
  function Machine(a: seq<bv32>, r1: seq<bv32>, r2: seq<bv32>, u: nat): bv32
    requires u + 15 < |a| && u < |r1| && u < |r2|
  {
    Xor32(Plus(a[u + 15], r1[u]), r2[u])
  }

  /** What clock u adds to the lists. The machine's word is fed in for the first 32 clocks. */
  predicate Clocked(a: seq<bv32>, r1: seq<bv32>, r2: seq<bv32>, r3: seq<bv32>, u: nat)
    requires u + 16 < |a| && u + 1 < |r1| && u + 1 < |r2| && u + 1 < |r3|
  {
    && a[u + 16] == Xor32(Xor32(TimesAlpha(a[u]), a[u + 2]), Xor32(OverAlpha(a[u + 11]), if u < 32 then Machine(a, r1, r2, u) else 0))
    && r1[u + 1] == Plus(r2[u], Xor32(r3[u], a[u + 5]))
    && r2[u + 1] == S1(r1[u])
    && r3[u + 1] == S2(r2[u])
  }

  /** All 32 bits the other way. */
  function Flipped(x: bv32): bv32 {
    !x
  }

  /** The first sixteen words: the key and its complement, each twice, with the initialisation
      vector added at four places. */
  predicate Started(k: seq<bv32>, iv: seq<bv32>, a: seq<bv32>)
    requires |k| == 4 && |iv| == 4 && |a| >= 16
  {
    && a[0] == Flipped(k[0]) && a[1] == Flipped(k[1]) && a[2] == Flipped(k[2]) && a[3] == Flipped(k[3])
    && a[4] == k[0] && a[5] == k[1] && a[6] == k[2] && a[7] == k[3]
    && a[8] == Flipped(k[0]) && a[9] == Xor32(Flipped(k[1]), iv[3]) && a[10] == Xor32(Flipped(k[2]), iv[2]) && a[11] == Flipped(k[3])
    && a[12] == Xor32(k[0], iv[1]) && a[13] == k[1] && a[14] == k[2] && a[15] == Xor32(k[3], iv[0])
  }

  /** Lists that start from key and vector and follow the recurrences for 32 + n clocks. */
  ghost predicate IsRun(k: seq<bv32>, iv: seq<bv32>, a: seq<bv32>, r1: seq<bv32>, r2: seq<bv32>, r3: seq<bv32>, n: nat)
    requires |k| == 4 && |iv| == 4
  {
    && |a| == n + 48 && |r1| == |r2| == |r3| == n + 33
    && Started(k, iv, a) && r1[0] == 0 && r2[0] == 0 && r3[0] == 0
    && (forall u :: 0 <= u < n + 32 ==> Clocked(a, r1, r2, r3, u))
  }

  // --- states along a run ---

  /** The registers at clock u. */
  function StateAt(a: seq<bv32>, r1: seq<bv32>, r2: seq<bv32>, r3: seq<bv32>, u: nat): (st: State)
    requires u + 16 <= |a| && u < |r1| && u < |r2| && u < |r3|
    ensures Valid(st)
  {
    State(a[u..u + 16], r1[u], r2[u], r3[u])
  }

  lemma Complement(x: bv32)
    ensures Xor32(x, ONES) == Flipped(x)
  {
  }

  lemma LoadedIs(k: seq<bv32>, iv: seq<bv32>, a: seq<bv32>)
    requires |k| == 4 && |iv| == 4 && |a| >= 16 && Started(k, iv, a)
    ensures Loaded(k, iv) == State(a[..16], 0, 0, 0)
  {
    hide *;
    Complement(k[0]);
    Complement(k[1]);
    Complement(k[2]);
    Complement(k[3]);
    StartedIs(k, iv, a);
    LoadedFirst(k, iv);
    LoadedParts(k, iv);
    LoadedSecond(k, iv);
    SameState(Loaded(k, iv), a);
  }

  lemma StartedIs(k: seq<bv32>, iv: seq<bv32>, a: seq<bv32>)
    requires |k| == 4 && |iv| == 4 && |a| >= 16 && Started(k, iv, a)
    ensures a[0] == Flipped(k[0]) && a[1] == Flipped(k[1]) && a[2] == Flipped(k[2]) && a[3] == Flipped(k[3])
    ensures a[4] == k[0] && a[5] == k[1] && a[6] == k[2] && a[7] == k[3]
    ensures a[8] == Flipped(k[0]) && a[9] == Xor32(Flipped(k[1]), iv[3]) && a[10] == Xor32(Flipped(k[2]), iv[2]) && a[11] == Flipped(k[3])
    ensures a[12] == Xor32(k[0], iv[1]) && a[13] == k[1] && a[14] == k[2] && a[15] == Xor32(k[3], iv[0])
  {
    hide Xor32, Flipped;
  }

  lemma LoadedFirst(k: seq<bv32>, iv: seq<bv32>)
    requires |k| == 4 && |iv| == 4
    ensures var s := Loaded(k, iv).s;
            s[0] == Xor32(k[0], ONES) && s[1] == Xor32(k[1], ONES) && s[2] == Xor32(k[2], ONES) && s[3] == Xor32(k[3], ONES)
  {
    hide Xor32;
  }

  lemma LoadedSecond(k: seq<bv32>, iv: seq<bv32>)
    requires |k| == 4 && |iv| == 4
    ensures var s := Loaded(k, iv).s;
            && s[8] == Xor32(k[0], ONES) && s[9] == Xor32(Xor32(k[1], ONES), iv[3])
            && s[10] == Xor32(Xor32(k[2], ONES), iv[2]) && s[11] == Xor32(k[3], ONES)
            && s[12] == Xor32(k[0], iv[1]) && s[13] == k[1] && s[14] == k[2] && s[15] == Xor32(k[3], iv[0])
    ensures |Loaded(k, iv).s| == 16 && Loaded(k, iv).r1 == 0 && Loaded(k, iv).r2 == 0 && Loaded(k, iv).r3 == 0
  {
    hide Xor32;
  }

  lemma SameState(st: State, a: seq<bv32>)
    requires |st.s| == 16 && |a| >= 16 && st.r1 == 0 && st.r2 == 0 && st.r3 == 0
    requires var s := st.s;
             && s[0] == a[0] && s[1] == a[1] && s[2] == a[2] && s[3] == a[3] && s[4] == a[4] && s[5] == a[5] && s[6] == a[6] && s[7] == a[7]
             && s[8] == a[8] && s[9] == a[9] && s[10] == a[10] && s[11] == a[11]
             && s[12] == a[12] && s[13] == a[13] && s[14] == a[14] && s[15] == a[15]
    ensures st == State(a[..16], 0, 0, 0)
  {
    assert st.s == a[..16];
  }

  lemma FedBack(st: State, f: bv32)
    requires Valid(st)
    ensures Feedback(st, f) == Xor32(Xor32(TimesAlpha(st.s[0]), st.s[2]), Xor32(OverAlpha(st.s[11]), f))
  {
    hide TimesAlpha, OverAlpha, Xor32, Feedback;
    FeedbackIs(st, f);
    var t, w, o := TimesAlpha(st.s[0]), st.s[2], OverAlpha(st.s[11]);
    Xor32Associates(w, o, f);
    Xor32Associates(t, w, Xor32(o, f));
  }

  /** Registers after a clock that feeds in f. */
  lemma ClockedState(a: seq<bv32>, r1: seq<bv32>, r2: seq<bv32>, r3: seq<bv32>, u: nat, f: bv32)
    requires u + 16 < |a| && u + 1 < |r1| && u + 1 < |r2| && u + 1 < |r3| && Clocked(a, r1, r2, r3, u)
    requires f == if u < 32 then Machine(a, r1, r2, u) else 0
    ensures ClockLfsr(ClockFsm(StateAt(a, r1, r2, r3, u)), f) == StateAt(a, r1, r2, r3, u + 1)
  {
    hide TimesAlpha, OverAlpha, Xor32, Feedback, S1, S2, Machine, FsmNext, ClockLfsr, ClockFsm;
    var st := StateAt(a, r1, r2, r3, u);
    ClockFsmParts(st);
    ClockLfsrParts(ClockFsm(st), f);
    FedBack(ClockFsm(st), f);
    FsmNextRaw(r2[u], r3[u], a[u + 5]);
    assert a[u..u + 16][1..] + [a[u + 16]] == a[u + 1..u + 17];
  }

  lemma FsmNextRaw(r2: bv32, r3: bv32, s5: bv32)
    ensures FsmNext(r2, r3, s5) == Plus(r2, Xor32(r3, s5))
  {
    hide Xor32, Plus;
  }

  lemma OutputIs(a: seq<bv32>, r1: seq<bv32>, r2: seq<bv32>, r3: seq<bv32>, u: nat)
    requires u + 16 <= |a| && u < |r1| && u < |r2| && u < |r3|
    ensures Output(StateAt(a, r1, r2, r3, u)) == Machine(a, r1, r2, u)
    ensures Word(StateAt(a, r1, r2, r3, u)) == Xor32(Machine(a, r1, r2, u), a[u])
  {
    hide Xor32;
  }

  lemma RunParts(k: seq<bv32>, iv: seq<bv32>, a: seq<bv32>, r1: seq<bv32>, r2: seq<bv32>, r3: seq<bv32>, n: nat, u: nat)
    requires |k| == 4 && |iv| == 4 && IsRun(k, iv, a, r1, r2, r3, n)
    ensures |a| == n + 48 && |r1| == |r2| == |r3| == n + 33 && Started(k, iv, a) && r1[0] == 0 && r2[0] == 0 && r3[0] == 0
    ensures u < n + 32 ==> Clocked(a, r1, r2, r3, u)
  {
    hide Clocked, Started;
  }

  lemma StartIs(a: seq<bv32>, r1: seq<bv32>, r2: seq<bv32>, r3: seq<bv32>)
    requires |a| >= 16 && |r1| > 0 && |r2| > 0 && |r3| > 0 && r1[0] == 0 && r2[0] == 0 && r3[0] == 0
    ensures StateAt(a, r1, r2, r3, 0) == State(a[..16], 0, 0, 0)
  {
  }

  lemma {:induction false} InitStates(k: seq<bv32>, iv: seq<bv32>, a: seq<bv32>, r1: seq<bv32>, r2: seq<bv32>, r3: seq<bv32>, n: nat, u: nat)
    requires |k| == 4 && |iv| == 4 && IsRun(k, iv, a, r1, r2, r3, n) && u <= 32
    ensures |a| == n + 48 && |r1| == |r2| == |r3| == n + 33
    ensures InitSteps(Loaded(k, iv), u) == StateAt(a, r1, r2, r3, u)
  {
    hide *;
    RunParts(k, iv, a, r1, r2, r3, n, if u == 0 then 0 else u - 1);
    StepsUnfold(Loaded(k, iv), u);
    if u == 0 {
      LoadedIs(k, iv, a);
      StartIs(a, r1, r2, r3);
    } else {
      InitStates(k, iv, a, r1, r2, r3, n, u - 1);
      ClockedState(a, r1, r2, r3, u - 1, Machine(a, r1, r2, u - 1));
      OutputIs(a, r1, r2, r3, u - 1);
      InitStepIs(StateAt(a, r1, r2, r3, u - 1));
    }
  }

  lemma StepsUnfold(st: State, u: nat)
    requires Valid(st)
    ensures InitSteps(st, u) == if u == 0 then st else InitStep(InitSteps(st, u - 1))
    ensures StreamSteps(st, u) == if u == 0 then st else StreamStep(StreamSteps(st, u - 1))
  {
    hide InitStep, StreamStep;
  }

  lemma InitStepIs(st: State)
    requires Valid(st)
    ensures InitStep(st) == ClockLfsr(ClockFsm(st), Output(st)) && StreamStep(st) == ClockLfsr(ClockFsm(st), 0)
  {
    hide ClockLfsr, ClockFsm, Output;
  }

  lemma {:induction false} StreamStates(k: seq<bv32>, iv: seq<bv32>, a: seq<bv32>, r1: seq<bv32>, r2: seq<bv32>, r3: seq<bv32>, n: nat, v: nat)
    requires |k| == 4 && |iv| == 4 && IsRun(k, iv, a, r1, r2, r3, n) && v <= n
    ensures |a| == n + 48 && |r1| == |r2| == |r3| == n + 33
    ensures StreamSteps(StateAt(a, r1, r2, r3, 32), v) == StateAt(a, r1, r2, r3, 32 + v)
  {
    hide *;
    RunParts(k, iv, a, r1, r2, r3, n, if v == 0 then 0 else 32 + v - 1);
    StepsUnfold(StateAt(a, r1, r2, r3, 32), v);
    if v > 0 {
      StreamStates(k, iv, a, r1, r2, r3, n, v - 1);
      ClockedState(a, r1, r2, r3, 32 + v - 1, 0);
      InitStepIs(StateAt(a, r1, r2, r3, 32 + v - 1));
    }
  }

  lemma {:induction false} KeystreamAt(st: State, n: nat, t: nat)
    requires Valid(st) && t < n
    ensures Keystream(st, n)[t] == Word(StreamSteps(st, t + 1))
  {
    hide Word, StreamSteps;
    if t < n - 1 {
      KeystreamAt(st, n - 1, t);
    }
  }

  /** Keystream word t is the machine's word of clock 33 + t added to the word leaving the
      register: the word of clock 32, the first after initialisation, is left out. */
  lemma KeystreamOfRun(k: seq<bv32>, iv: seq<bv32>, a: seq<bv32>, r1: seq<bv32>, r2: seq<bv32>, r3: seq<bv32>, n: nat, t: nat)
    requires |k| == 4 && |iv| == 4 && IsRun(k, iv, a, r1, r2, r3, n) && t < n
    ensures |a| == n + 48 && |r1| == |r2| == |r3| == n + 33
    ensures Keystream(Initialized(k, iv), n)[t] == Xor32(Xor32(Plus(a[t + 48], r1[t + 33]), r2[t + 33]), a[t + 33])
  {
    hide *;
    RunParts(k, iv, a, r1, r2, r3, n, 0);
    InitStates(k, iv, a, r1, r2, r3, n, 32);
    InitializedIs(k, iv);
    StreamStates(k, iv, a, r1, r2, r3, n, t + 1);
    KeystreamAt(Initialized(k, iv), n, t);
    OutputIs(a, r1, r2, r3, t + 33);
    MachineIs(a, r1, r2, t + 33);
  }

  lemma MachineIs(a: seq<bv32>, r1: seq<bv32>, r2: seq<bv32>, u: nat)
    requires u + 15 < |a| && u < |r1| && u < |r2|
    ensures Machine(a, r1, r2, u) == Xor32(Plus(a[u + 15], r1[u]), r2[u])
  {
    hide Xor32, Plus;
  }

  lemma InitializedIs(k: seq<bv32>, iv: seq<bv32>)
    requires |k| == 4 && |iv| == 4
    ensures Initialized(k, iv) == InitSteps(Loaded(k, iv), 32)
  {
    hide InitSteps, Loaded;
  }

  /** The state at clock u, counted from the loading. */
  function ClockAt(k: seq<bv32>, iv: seq<bv32>, u: nat): (st: State)
    requires |k| == 4 && |iv| == 4
    ensures Valid(st)
  {
    if u <= 32 then InitSteps(Loaded(k, iv), u) else StreamSteps(Initialized(k, iv), u - 32)
  }

  lemma ClockAtStep(k: seq<bv32>, iv: seq<bv32>, u: nat)
    requires |k| == 4 && |iv| == 4
    ensures ClockAt(k, iv, 0) == Loaded(k, iv)
    ensures var st := ClockAt(k, iv, u); ClockAt(k, iv, u + 1) == ClockLfsr(ClockFsm(st), if u < 32 then Output(st) else 0)
  {
    hide Loaded, ClockLfsr, ClockFsm, Output, InitStep, StreamStep, Initialized, InitSteps, StreamSteps;
    InitializedIs(k, iv);
    StepsUnfold(Loaded(k, iv), 0);
    StepsUnfold(Loaded(k, iv), u + 1);
    StepsUnfold(Initialized(k, iv), 0);
    if u >= 32 {
      StepsUnfold(Initialized(k, iv), u + 1 - 32);
    }
    InitStepIs(ClockAt(k, iv, u));
  }

  /** The list of words that enter the register. */
  function Entered(k: seq<bv32>, iv: seq<bv32>, n: nat): (a: seq<bv32>)
    requires |k| == 4 && |iv| == 4
    ensures |a| == n + 48
  {
    seq(n + 48, i requires 0 <= i < n + 48 => if i < 16 then Loaded(k, iv).s[i] else ClockAt(k, iv, i - 15).s[15])
  }

  lemma EnteredAt(k: seq<bv32>, iv: seq<bv32>, n: nat, i: nat)
    requires |k| == 4 && |iv| == 4 && i < n + 48
    ensures Entered(k, iv, n)[i] == if i < 16 then Loaded(k, iv).s[i] else ClockAt(k, iv, i - 15).s[15]
  {
    hide Loaded, ClockAt;
  }

  lemma EnteredStarts(k: seq<bv32>, iv: seq<bv32>, n: nat)
    requires |k| == 4 && |iv| == 4
    ensures Entered(k, iv, n)[..16] == Loaded(k, iv).s
  {
    hide Loaded, ClockAt, Entered;
    forall i | 0 <= i < 16
      ensures Entered(k, iv, n)[..16][i] == Loaded(k, iv).s[i]
    {
      EnteredAt(k, iv, n, i);
    }
  }

  lemma NextRegister(k: seq<bv32>, iv: seq<bv32>, u: nat)
    requires |k| == 4 && |iv| == 4
    ensures ClockAt(k, iv, u + 1).s == ClockAt(k, iv, u).s[1..] + [ClockAt(k, iv, u + 1).s[15]]
  {
    hide *;
    ClockAtStep(k, iv, u);
    var st := ClockAt(k, iv, u);
    var f: bv32 := if u < 32 then Output(st) else 0;
    ClockFsmParts(st);
    ClockLfsrParts(ClockFsm(st), f);
    ValidIs(st);
    LastOfMore(st.s[1..], Feedback(ClockFsm(st), f));
  }

  lemma LastOfMore(s: seq<bv32>, x: bv32)
    requires |s| == 15
    ensures (s + [x])[15] == x
  {
  }

  lemma NextSlice(a: seq<bv32>, u: nat, s: seq<bv32>)
    requires u + 17 <= |a| && s == a[u..u + 16]
    ensures s[1..] + [a[u + 16]] == a[u + 1..u + 17]
  {
  }

  lemma {:induction false} RegisterIsSlice(k: seq<bv32>, iv: seq<bv32>, n: nat, u: nat)
    requires |k| == 4 && |iv| == 4 && u <= n + 32
    ensures ClockAt(k, iv, u).s == Entered(k, iv, n)[u..u + 16]
  {
    hide *;
    if u == 0 {
      ClockAtStep(k, iv, 0);
      EnteredStarts(k, iv, n);
    } else {
      RegisterIsSlice(k, iv, n, u - 1);
      NextRegister(k, iv, u - 1);
      EnteredAt(k, iv, n, u + 15);
      NextSlice(Entered(k, iv, n), u - 1, ClockAt(k, iv, u - 1).s);
    }
  }

  lemma LoadedStarts(k: seq<bv32>, iv: seq<bv32>, a: seq<bv32>)
    requires |k| == 4 && |iv| == 4 && |a| >= 16 && a[..16] == Loaded(k, iv).s
    ensures Started(k, iv, a)
  {
    hide *;
    LoadedFirst(k, iv);
    LoadedSecond(k, iv);
    LoadedParts(k, iv);
    Complement(k[0]);
    Complement(k[1]);
    Complement(k[2]);
    Complement(k[3]);
    Prefix16(a, Loaded(k, iv).s);
    StartedIf(k, iv, a);
  }

  lemma Prefix16(a: seq<bv32>, s: seq<bv32>)
    requires |a| >= 16 && s == a[..16]
    ensures s[0] == a[0] && s[1] == a[1] && s[2] == a[2] && s[3] == a[3] && s[4] == a[4] && s[5] == a[5] && s[6] == a[6] && s[7] == a[7]
    ensures s[8] == a[8] && s[9] == a[9] && s[10] == a[10] && s[11] == a[11]
    ensures s[12] == a[12] && s[13] == a[13] && s[14] == a[14] && s[15] == a[15]
  {
  }

  lemma StartedIf(k: seq<bv32>, iv: seq<bv32>, a: seq<bv32>)
    requires |k| == 4 && |iv| == 4 && |a| >= 16
    requires a[0] == Flipped(k[0]) && a[1] == Flipped(k[1]) && a[2] == Flipped(k[2]) && a[3] == Flipped(k[3])
    requires a[4] == k[0] && a[5] == k[1] && a[6] == k[2] && a[7] == k[3]
    requires a[8] == Flipped(k[0]) && a[9] == Xor32(Flipped(k[1]), iv[3]) && a[10] == Xor32(Flipped(k[2]), iv[2]) && a[11] == Flipped(k[3])
    requires a[12] == Xor32(k[0], iv[1]) && a[13] == k[1] && a[14] == k[2] && a[15] == Xor32(k[3], iv[0])
    ensures Started(k, iv, a)
  {
    hide Xor32, Flipped;
  }

  lemma ClockedFrom(a: seq<bv32>, r1: seq<bv32>, r2: seq<bv32>, r3: seq<bv32>, u: nat, f: bv32)
    requires u + 16 < |a| && u + 1 < |r1| && u + 1 < |r2| && u + 1 < |r3|
    requires f == if u < 32 then Machine(a, r1, r2, u) else 0
    requires ClockLfsr(ClockFsm(StateAt(a, r1, r2, r3, u)), f) == StateAt(a, r1, r2, r3, u + 1)
    ensures Clocked(a, r1, r2, r3, u)
  {
    hide TimesAlpha, OverAlpha, Xor32, Feedback, S1, S2, Machine, FsmNext, ClockLfsr, ClockFsm, Plus;
    var st := StateAt(a, r1, r2, r3, u);
    ClockFsmParts(st);
    ClockLfsrParts(ClockFsm(st), f);
    FedBack(ClockFsm(st), f);
    FsmNextRaw(r2[u], r3[u], a[u + 5]);
    assert a[u + 1..u + 17][15] == (st.s[1..] + [Feedback(ClockFsm(st), f)])[15];
  }

  /** There is a run for every key, vector and length. */
  lemma RunExists(k: seq<bv32>, iv: seq<bv32>, n: nat) returns (a: seq<bv32>, r1: seq<bv32>, r2: seq<bv32>, r3: seq<bv32>)
    requires |k| == 4 && |iv| == 4
    ensures IsRun(k, iv, a, r1, r2, r3, n)
  {
    hide Loaded, ClockAt, Entered, ClockFsm, ClockLfsr, Output, Clocked, Started, Machine;
    a := Entered(k, iv, n);
    r1 := seq(n + 33, u requires 0 <= u < n + 33 => ClockAt(k, iv, u).r1);
    r2 := seq(n + 33, u requires 0 <= u < n + 33 => ClockAt(k, iv, u).r2);
    r3 := seq(n + 33, u requires 0 <= u < n + 33 => ClockAt(k, iv, u).r3);
    RegisterIsSlice(k, iv, n, 0);
    ClockAtStep(k, iv, 0);
    LoadedStarts(k, iv, a);
    LoadedSecond(k, iv);
    forall u | 0 <= u < n + 32
      ensures Clocked(a, r1, r2, r3, u)
    {
      RegisterIsSlice(k, iv, n, u);
      RegisterIsSlice(k, iv, n, u + 1);
      ClockAtStep(k, iv, u);
      OutputIs(a, r1, r2, r3, u);
      assert StateAt(a, r1, r2, r3, u) == ClockAt(k, iv, u) && StateAt(a, r1, r2, r3, u + 1) == ClockAt(k, iv, u + 1);
      ClockedFrom(a, r1, r2, r3, u, if u < 32 then Output(ClockAt(k, iv, u)) else 0);
    }
  }

  // --- the S-boxes ---

  /** S1 takes each byte through the Rijndael table and mixes the column, last byte first. */
  lemma S1Column(w: bv32)
    ensures var m := GF.Mixed(GF.Column(SBox(Byte3(w)), SBox(Byte2(w)), SBox(Byte1(w)), SBox(Byte0(w))), 0x1b);
            Byte3(S1(w)) == m.a0 && Byte2(S1(w)) == m.a1 && Byte1(S1(w)) == m.a2 && Byte0(S1(w)) == m.a3
  {
    hide *;
    var m := GF.Mixed(GF.Column(SBox(Byte3(w)), SBox(Byte2(w)), SBox(Byte1(w)), SBox(Byte0(w))), 0x1b);
    S1Is(w);
    SpreadIsMixed(SBox(Byte0(w)), SBox(Byte1(w)), SBox(Byte2(w)), SBox(Byte3(w)), 0x1b);
    JoinedBytes(m.a3, m.a2, m.a1, m.a0);
  }

  /** S2 does the same with its own table and modulo x^8 + 0x69. */
  lemma S2Column(w: bv32)
    ensures var m := GF.Mixed(GF.Column(SQBox(Byte3(w)), SQBox(Byte2(w)), SQBox(Byte1(w)), SQBox(Byte0(w))), 0x69);
            Byte3(S2(w)) == m.a0 && Byte2(S2(w)) == m.a1 && Byte1(S2(w)) == m.a2 && Byte0(S2(w)) == m.a3
  {
    hide *;
    var m := GF.Mixed(GF.Column(SQBox(Byte3(w)), SQBox(Byte2(w)), SQBox(Byte1(w)), SQBox(Byte0(w))), 0x69);
    S2Is(w);
    SpreadIsMixed(SQBox(Byte0(w)), SQBox(Byte1(w)), SQBox(Byte2(w)), SQBox(Byte3(w)), 0x69);
    JoinedBytes(m.a3, m.a2, m.a1, m.a0);
  }

  // --- alpha ---

  /** The fourth power of alpha has the coefficients 23, 245, 48 and 239 as powers of x: it takes
      a constant to the third, second, first and zeroth power of alpha. */
  lemma AlphaRoot(c: bv8)
    ensures TimesAlpha(TimesAlpha(TimesAlpha(TimesAlpha(Joined(0, 0, 0, c))))) ==
            Joined(GF.MulXPow(c, 23, 0xa9), GF.MulXPow(c, 245, 0xa9), GF.MulXPow(c, 48, 0xa9), GF.MulXPow(c, 239, 0xa9))
  {
    hide *;
    AlphaMoves(0, 0, c);
    AlphaMoves(0, c, 0);
    AlphaMoves(c, 0, 0);
    TimesAlphaIs(Joined(c, 0, 0, 0));
    JoinedBytes(c, 0, 0, 0);
    Xor8Unit(GF.MulXPow(c, 23, 0xa9));
    Xor8Unit(GF.MulXPow(c, 245, 0xa9));
    Xor8Unit(GF.MulXPow(c, 48, 0xa9));
  }

  /** Without a top byte, multiplication by alpha moves the bytes up. */
  lemma AlphaMoves(p: bv8, q: bv8, r: bv8)
    ensures TimesAlpha(Joined(0, p, q, r)) == Joined(p, q, r, 0)
  {
    hide *;
    TimesAlphaIs(Joined(0, p, q, r));
    JoinedBytes(0, p, q, r);
    ZeroPower(23);
    ZeroPower(245);
    ZeroPower(48);
    ZeroPower(239);
    Xor8Unit(p);
    Xor8Unit(q);
    Xor8Unit(r);
  }

  lemma {:induction false} ZeroPower(i: nat)
    ensures GF.MulXPow(0, i, 0xa9) == 0
  {
    if i > 0 {
      ZeroPower(i - 1);
    }
  }

  /** Multiplication by alpha is additive. */
  lemma AlphaLinear(v: bv32, w: bv32)
    ensures TimesAlpha(Xor32(v, w)) == Xor32(TimesAlpha(v), TimesAlpha(w))
  {
    hide *;
    Byte0Xor(v, w);
    Byte1Xor(v, w);
    Byte2Xor(v, w);
    Byte3Xor(v, w);
    PowerLinear(Byte0(v), Byte0(w), 23);
    PowerLinear(Byte0(v), Byte0(w), 245);
    PowerLinear(Byte0(v), Byte0(w), 48);
    PowerLinear(Byte0(v), Byte0(w), 239);
    TimesAlphaIs(v);
    TimesAlphaIs(w);
    TimesAlphaIs(Xor32(v, w));
    var c, d := Byte0(v), Byte0(w);
    Xor8SwapsMiddle(Byte1(v), Byte1(w), GF.MulXPow(c, 23, 0xa9), GF.MulXPow(d, 23, 0xa9));
    Xor8SwapsMiddle(Byte2(v), Byte2(w), GF.MulXPow(c, 245, 0xa9), GF.MulXPow(d, 245, 0xa9));
    Xor8SwapsMiddle(Byte3(v), Byte3(w), GF.MulXPow(c, 48, 0xa9), GF.MulXPow(d, 48, 0xa9));
    JoinedXor(Xor8(Byte1(v), GF.MulXPow(c, 23, 0xa9)), Xor8(Byte2(v), GF.MulXPow(c, 245, 0xa9)),
              Xor8(Byte3(v), GF.MulXPow(c, 48, 0xa9)), GF.MulXPow(c, 239, 0xa9),
              Xor8(Byte1(w), GF.MulXPow(d, 23, 0xa9)), Xor8(Byte2(w), GF.MulXPow(d, 245, 0xa9)),
              Xor8(Byte3(w), GF.MulXPow(d, 48, 0xa9)), GF.MulXPow(d, 239, 0xa9));
  }

  lemma Byte0Xor(v: bv32, w: bv32)
    ensures Byte0(Xor32(v, w)) == Xor8(Byte0(v), Byte0(w))
  {
  }

  lemma Byte1Xor(v: bv32, w: bv32)
    ensures Byte1(Xor32(v, w)) == Xor8(Byte1(v), Byte1(w))
  {
  }

  lemma Byte2Xor(v: bv32, w: bv32)
    ensures Byte2(Xor32(v, w)) == Xor8(Byte2(v), Byte2(w))
  {
  }

  lemma Byte3Xor(v: bv32, w: bv32)
    ensures Byte3(Xor32(v, w)) == Xor8(Byte3(v), Byte3(w))
  {
  }

  lemma JoinedXor(p: bv8, q: bv8, r: bv8, t: bv8, p': bv8, q': bv8, r': bv8, t': bv8)
    ensures Joined(Xor8(p, p'), Xor8(q, q'), Xor8(r, r'), Xor8(t, t')) == Xor32(Joined(p, q, r, t), Joined(p', q', r', t'))
  {
    assert Joined(p ^ p', q ^ q', r ^ r', t ^ t') == Xor32(Joined(p, q, r, t), Joined(p', q', r', t'));
  }

  lemma {:induction false} PowerLinear(a: bv8, b: bv8, i: nat)
    ensures GF.MulXPow(Xor8(a, b), i, 0xa9) == Xor8(GF.MulXPow(a, i, 0xa9), GF.MulXPow(b, i, 0xa9))
  {
    hide GF.MulX, Xor8;
    if i > 0 {
      PowerLinear(a, b, i - 1);
      GF.MulXLinear(GF.MulXPow(a, i - 1, 0xa9), GF.MulXPow(b, i - 1, 0xa9), 0xa9);
    }
  }
}
