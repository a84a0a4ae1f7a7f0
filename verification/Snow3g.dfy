/** The SNOW 3G keystream generator as a function of key and initialisation vector. */
module Snow3g {
  import opened ByteTables
  import GF = GfBytes
  import opened XorWords

  // --- 32-bit words as four bytes, first byte on top ---

  function Joined(b0: bv8, b1: bv8, b2: bv8, b3: bv8): bv32 {
    ((b0 as bv32) << 24) | ((b1 as bv32) << 16) | ((b2 as bv32) << 8) | (b3 as bv32)
  }

  function Byte0(w: bv32): bv8 {
    ((w >> 24) & 0xFF) as bv8
  }

  function Byte1(w: bv32): bv8 {
    ((w >> 16) & 0xFF) as bv8
  }

  function Byte2(w: bv32): bv8 {
    ((w >> 8) & 0xFF) as bv8
  }

  function Byte3(w: bv32): bv8 {
    (w & 0xFF) as bv8
  }

  lemma JoinedBytes(b0: bv8, b1: bv8, b2: bv8, b3: bv8)
    ensures Byte0(Joined(b0, b1, b2, b3)) == b0 && Byte1(Joined(b0, b1, b2, b3)) == b1
    ensures Byte2(Joined(b0, b1, b2, b3)) == b2 && Byte3(Joined(b0, b1, b2, b3)) == b3
  {
  }

  lemma BytesJoined(w: bv32)
    ensures Joined(Byte0(w), Byte1(w), Byte2(w), Byte3(w)) == w
  {
  }

  // --- multiplication and division by alpha ---

  function MulAlpha(c: bv8): bv32 {
    Joined(GF.MulXPow(c, 23, 0xa9), GF.MulXPow(c, 245, 0xa9), GF.MulXPow(c, 48, 0xa9), GF.MulXPow(c, 239, 0xa9))
  }

  function DivAlpha(c: bv8): bv32 {
    Joined(GF.MulXPow(c, 16, 0xa9), GF.MulXPow(c, 39, 0xa9), GF.MulXPow(c, 6, 0xa9), GF.MulXPow(c, 64, 0xa9))
  }

  /** The contribution of the oldest register to the feedback. */
  function TimesAlpha(w: bv32): bv32 {
    ((w << 8) & 0xFFFFFF00) ^ MulAlpha(Byte0(w))
  }

  /** The contribution of register 11 to the feedback. */
  function OverAlpha(w: bv32): bv32 {
    ((w >> 8) & 0x00FFFFFF) ^ DivAlpha(Byte3(w))
  }

  lemma ShiftedUp(w: bv32, p: bv8, q: bv8, r: bv8, t: bv8)
    ensures ((w << 8) & 0xFFFFFF00) ^ Joined(p, q, r, t)
            == Joined(Xor8(Byte1(w), p), Xor8(Byte2(w), q), Xor8(Byte3(w), r), t)
  {
  }

  lemma ShiftedDown(w: bv32, p: bv8, q: bv8, r: bv8, t: bv8)
    ensures ((w >> 8) & 0x00FFFFFF) ^ Joined(p, q, r, t)
            == Joined(p, Xor8(Byte0(w), q), Xor8(Byte1(w), r), Xor8(Byte2(w), t))
  {
  }

  lemma TimesAlphaIs(w: bv32)
    ensures var c := Byte0(w);
            TimesAlpha(w) == Joined(Xor8(Byte1(w), GF.MulXPow(c, 23, 0xa9)), Xor8(Byte2(w), GF.MulXPow(c, 245, 0xa9)),
                                    Xor8(Byte3(w), GF.MulXPow(c, 48, 0xa9)), GF.MulXPow(c, 239, 0xa9))
  {
    hide Joined, Byte0, Byte1, Byte2, Byte3, Xor8, GF.MulXPow;
    var c := Byte0(w);
    ShiftedUp(w, GF.MulXPow(c, 23, 0xa9), GF.MulXPow(c, 245, 0xa9), GF.MulXPow(c, 48, 0xa9), GF.MulXPow(c, 239, 0xa9));
  }

  lemma OverAlphaIs(w: bv32)
    ensures var c := Byte3(w);
            OverAlpha(w) == Joined(GF.MulXPow(c, 16, 0xa9), Xor8(Byte0(w), GF.MulXPow(c, 39, 0xa9)),
                                   Xor8(Byte1(w), GF.MulXPow(c, 6, 0xa9)), Xor8(Byte2(w), GF.MulXPow(c, 64, 0xa9)))
  {
    hide Joined, Byte0, Byte1, Byte2, Byte3, Xor8, GF.MulXPow;
    var c := Byte3(w);
    ShiftedDown(w, GF.MulXPow(c, 16, 0xa9), GF.MulXPow(c, 39, 0xa9), GF.MulXPow(c, 6, 0xa9), GF.MulXPow(c, 64, 0xa9));
  }

  /** Dividing by alpha undoes multiplying by alpha. */
  lemma AlphaInverts(w: bv32)
    ensures OverAlpha(TimesAlpha(w)) == w
  {
    hide *;
    var c := Byte0(w);
    var p, q, r, t := GF.MulXPow(c, 23, 0xa9), GF.MulXPow(c, 245, 0xa9), GF.MulXPow(c, 48, 0xa9), GF.MulXPow(c, 239, 0xa9);
    TimesAlphaIs(w);
    JoinedBytes(Xor8(Byte1(w), p), Xor8(Byte2(w), q), Xor8(Byte3(w), r), t);
    OverAlphaIs(TimesAlpha(w));
    GF.MulXPowWraps(c, 16, 239, 0);
    GF.MulXPowWraps(c, 39, 239, 23);
    GF.MulXPowAdds(c, 6, 239, 0xa9);
    GF.MulXPowWraps(c, 64, 239, 48);
    MulXPowZero(c);
    Xor8Twice(Byte1(w), p);
    Xor8Twice(Byte2(w), q);
    Xor8Twice(Byte3(w), r);
    BytesJoined(w);
  }

  lemma MulXPowZero(v: bv8)
    ensures GF.MulXPow(v, 0, 0xa9) == v
  {
  }

  lemma TimesAlphaInjective(v: bv32, w: bv32)
    requires TimesAlpha(v) == TimesAlpha(w)
    ensures v == w
  {
    hide *;
    AlphaInverts(v);
    AlphaInverts(w);
  }

  // --- the S-boxes ---

  /** The mixing inside S1 and S2. */
  function Spread(w0: bv8, w1: bv8, w2: bv8, w3: bv8, c: bv8): bv32 {
    Joined(
      GF.MulX(w0, c) ^ w1 ^ w2 ^ (GF.MulX(w3, c) ^ w3),
      (GF.MulX(w0, c) ^ w0) ^ GF.MulX(w1, c) ^ w2 ^ w3,
      w0 ^ (GF.MulX(w1, c) ^ w1) ^ GF.MulX(w2, c) ^ w3,
      w0 ^ w1 ^ (GF.MulX(w2, c) ^ w2) ^ GF.MulX(w3, c)
    )
  }

  function S1(w: bv32): bv32 {
    Spread(SBox(Byte0(w)), SBox(Byte1(w)), SBox(Byte2(w)), SBox(Byte3(w)), 0x1b)
  }

  function S2(w: bv32): bv32 {
    Spread(SQBox(Byte0(w)), SQBox(Byte1(w)), SQBox(Byte2(w)), SQBox(Byte3(w)), 0x69)
  }

  lemma SpreadDirect(w0: bv8, w1: bv8, w2: bv8, w3: bv8, x0: bv8, x1: bv8, x2: bv8, x3: bv8)
    ensures x0 ^ w1 ^ w2 ^ (x3 ^ w3) == x0 ^ x3 ^ w3 ^ w2 ^ w1
    ensures (x0 ^ w0) ^ x1 ^ w2 ^ w3 == x1 ^ x0 ^ w0 ^ w3 ^ w2
    ensures w0 ^ (x1 ^ w1) ^ x2 ^ w3 == x2 ^ x1 ^ w1 ^ w0 ^ w3
    ensures w0 ^ w1 ^ (x2 ^ w2) ^ x3 == x3 ^ x2 ^ w2 ^ w1 ^ w0
  {
  }

  lemma SpreadIs(w0: bv8, w1: bv8, w2: bv8, w3: bv8, c: bv8)
    ensures var x0, x1, x2, x3 := GF.MulX(w0, c), GF.MulX(w1, c), GF.MulX(w2, c), GF.MulX(w3, c);
            Spread(w0, w1, w2, w3, c) == Joined(GF.Xor5(x0, x3, w3, w2, w1), GF.Xor5(x1, x0, w0, w3, w2),
                                                GF.Xor5(x2, x1, w1, w0, w3), GF.Xor5(x3, x2, w2, w1, w0))
  {
    hide Joined, GF.MulX;
    SpreadDirect(w0, w1, w2, w3, GF.MulX(w0, c), GF.MulX(w1, c), GF.MulX(w2, c), GF.MulX(w3, c));
  }

  /** Spread is the column mixing with the bytes taken from the other end. */
  lemma SpreadIsMixed(w0: bv8, w1: bv8, w2: bv8, w3: bv8, c: bv8)
    ensures var m := GF.Mixed(GF.Column(w3, w2, w1, w0), c);
            Spread(w0, w1, w2, w3, c) == Joined(m.a3, m.a2, m.a1, m.a0)
  {
    hide *;
    SpreadIs(w0, w1, w2, w3, c);
    GF.MixedIs(GF.Column(w3, w2, w1, w0), c);
  }

  lemma SpreadInjective(v0: bv8, v1: bv8, v2: bv8, v3: bv8, w0: bv8, w1: bv8, w2: bv8, w3: bv8, c: bv8)
    requires Spread(v0, v1, v2, v3, c) == Spread(w0, w1, w2, w3, c)
    ensures v0 == w0 && v1 == w1 && v2 == w2 && v3 == w3
  {
    hide *;
    var u, v := GF.Column(v3, v2, v1, v0), GF.Column(w3, w2, w1, w0);
    var m, n := GF.Mixed(u, c), GF.Mixed(v, c);
    SpreadIsMixed(v0, v1, v2, v3, c);
    SpreadIsMixed(w0, w1, w2, w3, c);
    JoinedBytes(m.a3, m.a2, m.a1, m.a0);
    JoinedBytes(n.a3, n.a2, n.a1, n.a0);
    GF.MixedInjective(u, v, c);
  }

  lemma S1Is(w: bv32)
    ensures S1(w) == Spread(SBox(Byte0(w)), SBox(Byte1(w)), SBox(Byte2(w)), SBox(Byte3(w)), 0x1b)
  {
  }

  lemma S2Is(w: bv32)
    ensures S2(w) == Spread(SQBox(Byte0(w)), SQBox(Byte1(w)), SQBox(Byte2(w)), SQBox(Byte3(w)), 0x69)
  {
  }

  lemma SBoxInjective(x: bv8, y: bv8)
    ensures SBox(x) == SBox(y) ==> x == y
  {
    hide *;
    SBoxInverts(x);
    SBoxInverts(y);
  }

  lemma SQBoxInjective(x: bv8, y: bv8)
    ensures SQBox(x) == SQBox(y) ==> x == y
  {
    hide *;
    SQBoxInverts(x);
    SQBoxInverts(y);
  }

  lemma S1Injective(v: bv32, w: bv32)
    requires S1(v) == S1(w)
    ensures v == w
  {
    hide *;
    S1Is(v);
    S1Is(w);
    SpreadInjective(SBox(Byte0(v)), SBox(Byte1(v)), SBox(Byte2(v)), SBox(Byte3(v)),
                    SBox(Byte0(w)), SBox(Byte1(w)), SBox(Byte2(w)), SBox(Byte3(w)), 0x1b);
    SBoxInjective(Byte0(v), Byte0(w));
    SBoxInjective(Byte1(v), Byte1(w));
    SBoxInjective(Byte2(v), Byte2(w));
    SBoxInjective(Byte3(v), Byte3(w));
    BytesJoined(v);
    BytesJoined(w);
  }

  lemma S2Injective(v: bv32, w: bv32)
    requires S2(v) == S2(w)
    ensures v == w
  {
    hide *;
    S2Is(v);
    S2Is(w);
    SpreadInjective(SQBox(Byte0(v)), SQBox(Byte1(v)), SQBox(Byte2(v)), SQBox(Byte3(v)),
                    SQBox(Byte0(w)), SQBox(Byte1(w)), SQBox(Byte2(w)), SQBox(Byte3(w)), 0x69);
    SQBoxInjective(Byte0(v), Byte0(w));
    SQBoxInjective(Byte1(v), Byte1(w));
    SQBoxInjective(Byte2(v), Byte2(w));
    SQBoxInjective(Byte3(v), Byte3(w));
    BytesJoined(v);
    BytesJoined(w);
  }

  // --- registers and clocks ---

  /** The sixteen shift registers, oldest first, and the three registers of the FSM. */
  datatype State = State(s: seq<bv32>, r1: bv32, r2: bv32, r3: bv32)

  predicate Valid(st: State) {
    |st.s| == 16
  }

  /** Addition modulo 2^32. */
  function Plus(a: bv32, b: bv32): bv32 {
    a + b
  }

  /** The word the FSM produces from the newest shift register and its own first two. */
  function FsmWord(s15: bv32, r1: bv32, r2: bv32): bv32 {
    Xor32(Plus(s15, r1), r2)
  }

  /** The next value of the FSM's first register. */
  function FsmNext(r2: bv32, r3: bv32, s5: bv32): bv32 {
    Plus(r2, Xor32(r3, s5))
  }

  function Output(st: State): bv32
    requires Valid(st)
  {
    FsmWord(st.s[15], st.r1, st.r2)
  }

  function ClockFsm(st: State): (r: State)
    requires Valid(st)
    ensures Valid(r)
  {
    State(st.s, FsmNext(st.r2, st.r3, st.s[5]), S1(st.r1), S2(st.r2))
  }

  /** What registers 0, 2 and 11 contribute to the word shifted in. */
  function Fed(w0: bv32, w2: bv32, w11: bv32): bv32 {
    ((w0 << 8) & 0xFFFFFF00) ^ MulAlpha(Byte0(w0)) ^ w2 ^ ((w11 >> 8) & 0x00FFFFFF) ^ DivAlpha(Byte3(w11))
  }

  /** The word shifted in, where f is the FSM output while initialising and zero afterwards. */
  function Feedback(st: State, f: bv32): bv32
    requires Valid(st)
  {
    Xor32(Fed(st.s[0], st.s[2], st.s[11]), f)
  }

  function ClockLfsr(st: State, f: bv32): (r: State)
    requires Valid(st)
    ensures Valid(r)
  {
    State(st.s[1..] + [Feedback(st, f)], st.r1, st.r2, st.r3)
  }

  function InitStep(st: State): (r: State)
    requires Valid(st)
    ensures Valid(r)
  {
    ClockLfsr(ClockFsm(st), Output(st))
  }

  function StreamStep(st: State): (r: State)
    requires Valid(st)
    ensures Valid(r)
  {
    ClockLfsr(ClockFsm(st), 0)
  }

  function InitSteps(st: State, n: nat): (r: State)
    requires Valid(st)
    ensures Valid(r)
  {
    if n == 0 then st else InitStep(InitSteps(st, n - 1))
  }

  function StreamSteps(st: State, n: nat): (r: State)
    requires Valid(st)
    ensures Valid(r)
  {
    if n == 0 then st else StreamStep(StreamSteps(st, n - 1))
  }

  const ONES: bv32 := 0xFFFFFFFF

  function Loaded(k: seq<bv32>, iv: seq<bv32>): (r: State)
    requires |k| == 4 && |iv| == 4
    ensures Valid(r)
  {
    State(
      [Xor32(k[0], ONES), Xor32(k[1], ONES), Xor32(k[2], ONES), Xor32(k[3], ONES), k[0], k[1], k[2], k[3],
       Xor32(k[0], ONES), Xor32(Xor32(k[1], ONES), iv[3]), Xor32(Xor32(k[2], ONES), iv[2]), Xor32(k[3], ONES),
       Xor32(k[0], iv[1]), k[1], k[2], Xor32(k[3], iv[0])],
      0, 0, 0
    )
  }

  function Initialized(k: seq<bv32>, iv: seq<bv32>): (r: State)
    requires |k| == 4 && |iv| == 4
    ensures Valid(r)
  {
    InitSteps(Loaded(k, iv), 32)
  }

  /** The keystream word a state yields before it is clocked. */
  function Word(st: State): bv32
    requires Valid(st)
  {
    Xor32(Output(st), st.s[0])
  }

  /** The first n keystream words; the clock before the first word is discarded. */
  function Keystream(st: State, n: nat): (z: seq<bv32>)
    requires Valid(st)
    ensures |z| == n
  {
    if n == 0 then [] else Keystream(st, n - 1) + [Word(StreamSteps(st, n))]
  }

  // --- no clock loses information ---

  /** What the registers other than the oldest contribute. */
  function Rest(st: State, f: bv32): bv32
    requires Valid(st)
  {
    Xor32(Xor32(st.s[2], OverAlpha(st.s[11])), f)
  }

  lemma FedIs(w0: bv32, w2: bv32, w11: bv32)
    ensures Fed(w0, w2, w11) == Xor32(TimesAlpha(w0), Xor32(w2, OverAlpha(w11)))
  {
    hide MulAlpha, DivAlpha, Byte0, Byte3;
    assert Xor32(((w0 << 8) & 0xFFFFFF00) ^ MulAlpha(Byte0(w0)), w2 ^ (((w11 >> 8) & 0x00FFFFFF) ^ DivAlpha(Byte3(w11))))
        == ((w0 << 8) & 0xFFFFFF00) ^ MulAlpha(Byte0(w0)) ^ w2 ^ ((w11 >> 8) & 0x00FFFFFF) ^ DivAlpha(Byte3(w11));
  }

  lemma FeedbackIs(st: State, f: bv32)
    requires Valid(st)
    ensures Feedback(st, f) == Xor32(TimesAlpha(st.s[0]), Rest(st, f))
  {
    hide Fed, TimesAlpha, OverAlpha, Xor32;
    FedIs(st.s[0], st.s[2], st.s[11]);
    Xor32Associates(TimesAlpha(st.s[0]), Xor32(st.s[2], OverAlpha(st.s[11])), f);
  }

  lemma RestSame(st: State, tt: State, f: bv32)
    requires Valid(st) && Valid(tt)
    requires st.s[2] == tt.s[2] && st.s[11] == tt.s[11]
    ensures Rest(st, f) == Rest(tt, f)
  {
  }

  /** The registers other than the oldest survive a clock. */
  lemma TailSame(st: State, tt: State, x: bv32, y: bv32)
    requires Valid(st) && Valid(tt)
    requires st.s[1..] + [x] == tt.s[1..] + [y]
    ensures x == y && st.s[1..] == tt.s[1..]
    ensures forall i :: 1 <= i < 16 ==> st.s[i] == tt.s[i]
  {
    var p, q := st.s[1..] + [x], tt.s[1..] + [y];
    assert p[15] == x && q[15] == y;
    assert st.s[1..] == p[..15] && tt.s[1..] == q[..15];
    forall i | 1 <= i < 16
      ensures st.s[i] == tt.s[i]
    {
      assert st.s[i] == st.s[1..][i - 1] && tt.s[i] == tt.s[1..][i - 1];
    }
  }

  lemma WholeSame(st: State, tt: State)
    requires Valid(st) && Valid(tt)
    requires st.s[0] == tt.s[0] && st.s[1..] == tt.s[1..]
    ensures st.s == tt.s
  {
    assert st.s == [st.s[0]] + st.s[1..];
    assert tt.s == [tt.s[0]] + tt.s[1..];
  }

  /** The shift registers before a clock follow from those after it and the word fed in. */
  lemma ClockLfsrInjective(st: State, tt: State, f: bv32)
    requires Valid(st) && Valid(tt)
    requires ClockLfsr(st, f).s == ClockLfsr(tt, f).s
    ensures st.s == tt.s
  {
    hide Feedback, TimesAlpha, Rest, Xor32;
    TailSame(st, tt, Feedback(st, f), Feedback(tt, f));
    FeedbackIs(st, f);
    FeedbackIs(tt, f);
    RestSame(st, tt, f);
    Xor32Cancels(TimesAlpha(st.s[0]), TimesAlpha(tt.s[0]), Rest(st, f));
    TimesAlphaInjective(st.s[0], tt.s[0]);
    WholeSame(st, tt);
  }

  lemma ClockLfsrParts(st: State, f: bv32)
    requires Valid(st)
    ensures ClockLfsr(st, f).s == st.s[1..] + [Feedback(st, f)]
    ensures ClockLfsr(st, f).r1 == st.r1 && ClockLfsr(st, f).r2 == st.r2 && ClockLfsr(st, f).r3 == st.r3
  {
  }

  lemma ClockFsmParts(st: State)
    requires Valid(st)
    ensures ClockFsm(st).s == st.s && ClockFsm(st).r1 == FsmNext(st.r2, st.r3, st.s[5])
    ensures ClockFsm(st).r2 == S1(st.r1) && ClockFsm(st).r3 == S2(st.r2)
  {
    hide S1, S2, FsmNext;
  }

  lemma PlusIs(a: bv32, b: bv32)
    ensures Plus(a, b) == a + b
  {
  }

  predicate Same(a: bv32, b: bv32) {
    a == b
  }

  lemma SameSelf(a: bv32)
    ensures Same(a, a)
  {
  }

  lemma PlusDirect(a: bv32, b: bv32, c: bv32)
    requires Same(a + b, a + c)
    ensures b == c
  {
  }

  lemma PlusCancels(a: bv32, b: bv32, c: bv32)
    requires Plus(a, b) == Plus(a, c)
    ensures b == c
  {
    hide *;
    PlusIs(a, b);
    PlusIs(a, c);
    SameSelf(Plus(a, b));
    PlusDirect(a, b, c);
  }

  lemma FsmNextIs(a: bv32, b: bv32, d: bv32)
    ensures FsmNext(a, b, d) == Plus(a, Xor32(b, d))
  {
    hide Plus, Xor32;
  }

  lemma FsmNextCancels(a: bv32, b: bv32, c: bv32, d: bv32)
    requires FsmNext(a, b, d) == FsmNext(a, c, d)
    ensures b == c
  {
    hide *;
    FsmNextIs(a, b, d);
    FsmNextIs(a, c, d);
    PlusCancels(a, Xor32(b, d), Xor32(c, d));
    Xor32Cancels(b, c, d);
  }

  lemma OutputSame(st: State, tt: State)
    requires Valid(st) && Valid(tt)
    requires st.s[15] == tt.s[15] && st.r1 == tt.r1 && st.r2 == tt.r2
    ensures Output(st) == Output(tt)
  {
    hide FsmWord;
  }

  lemma ValidIs(st: State)
    ensures Valid(st) == (|st.s| == 16)
  {
  }

  /** A clock with feedback word f1 or f2, where equal registers give equal words. */
  lemma ClockInjective(st: State, tt: State, f: bv32, g: bv32)
    requires Valid(st) && Valid(tt)
    requires ClockLfsr(ClockFsm(st), f) == ClockLfsr(ClockFsm(tt), g)
    requires (f == g == 0) || (f == Output(st) && g == Output(tt))
    ensures st == tt
  {
    hide *;
    var p, q := ClockFsm(st), ClockFsm(tt);
    ClockFsmParts(st);
    ClockFsmParts(tt);
    ClockLfsrParts(p, f);
    ClockLfsrParts(q, g);
    ValidIs(st);
    ValidIs(tt);
    TailSame(p, q, Feedback(p, f), Feedback(q, g));
    S1Injective(st.r1, tt.r1);
    S2Injective(st.r2, tt.r2);
    FsmNextCancels(st.r2, st.r3, tt.r3, st.s[5]);
    OutputSame(st, tt);
    ClockLfsrInjective(p, q, f);
  }

  lemma InitStepInjective(st: State, tt: State)
    requires Valid(st) && Valid(tt)
    requires InitStep(st) == InitStep(tt)
    ensures st == tt
  {
    hide Output, ClockLfsr, ClockFsm;
    ClockInjective(st, tt, Output(st), Output(tt));
  }

  lemma StreamStepInjective(st: State, tt: State)
    requires Valid(st) && Valid(tt)
    requires StreamStep(st) == StreamStep(tt)
    ensures st == tt
  {
    hide Output, ClockLfsr, ClockFsm;
    ClockInjective(st, tt, 0, 0);
  }

  lemma {:induction false} InitStepsInjective(st: State, tt: State, n: nat)
    requires Valid(st) && Valid(tt)
    requires InitSteps(st, n) == InitSteps(tt, n)
    ensures st == tt
  {
    hide InitStep;
    if n > 0 {
      InitStepInjective(InitSteps(st, n - 1), InitSteps(tt, n - 1));
      InitStepsInjective(st, tt, n - 1);
    }
  }

  lemma {:induction false} StreamStepsInjective(st: State, tt: State, n: nat)
    requires Valid(st) && Valid(tt)
    requires StreamSteps(st, n) == StreamSteps(tt, n)
    ensures st == tt
  {
    hide StreamStep;
    if n > 0 {
      StreamStepInjective(StreamSteps(st, n - 1), StreamSteps(tt, n - 1));
      StreamStepsInjective(st, tt, n - 1);
    }
  }

  lemma LoadedParts(k: seq<bv32>, iv: seq<bv32>)
    requires |k| == 4 && |iv| == 4
    ensures var s := Loaded(k, iv).s;
            |s| == 16 && s[4] == k[0] && s[5] == k[1] && s[6] == k[2] && s[7] == k[3]
            && s[15] == Xor32(k[3], iv[0]) && s[12] == Xor32(k[0], iv[1])
            && s[10] == Xor32(Xor32(k[2], ONES), iv[2]) && s[9] == Xor32(Xor32(k[1], ONES), iv[3])
  {
    hide Xor32;
  }

  lemma LoadedInjective(k: seq<bv32>, iv: seq<bv32>, l: seq<bv32>, jv: seq<bv32>)
    requires |k| == 4 && |iv| == 4 && |l| == 4 && |jv| == 4
    requires Loaded(k, iv) == Loaded(l, jv)
    ensures k == l && iv == jv
  {
    hide *;
    LoadedParts(k, iv);
    LoadedParts(l, jv);
    Xor32Cancels(iv[0], jv[0], k[3]);
    Xor32Cancels(iv[1], jv[1], k[0]);
    Xor32Cancels(iv[2], jv[2], Xor32(k[2], ONES));
    Xor32Cancels(iv[3], jv[3], Xor32(k[1], ONES));
  }

  /** Two different pairs of key and vector never reach the same state, at any time. */
  lemma StatesDistinct(k: seq<bv32>, iv: seq<bv32>, l: seq<bv32>, jv: seq<bv32>, n: nat)
    requires |k| == 4 && |iv| == 4 && |l| == 4 && |jv| == 4
    requires StreamSteps(Initialized(k, iv), n) == StreamSteps(Initialized(l, jv), n)
    ensures k == l && iv == jv
  {
    hide StreamSteps, InitSteps, Loaded;
    StreamStepsInjective(Initialized(k, iv), Initialized(l, jv), n);
    InitStepsInjective(Loaded(k, iv), Loaded(l, jv), 32);
    LoadedInjective(k, iv, l, jv);
  }
}
