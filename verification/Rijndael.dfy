/** The Rijndael encryptor: its round steps in place on a 4 by 4 array, and why no round loses
    information: a substitution has its inverse table, rows and columns come back after four
    times, and a key added twice is gone. */
module Rijndael {
  import opened ByteTables
  import GF = GfBytes
  import opened XorWords

  type Column = GF.Column

  /** The state as four columns. */
  datatype State = State(c0: Column, c1: Column, c2: Column, c3: Column)

  // --- the steps on values ---

  function AddColumn(u: Column, v: Column): Column {
    GF.Column(Xor8(u.a0, v.a0), Xor8(u.a1, v.a1), Xor8(u.a2, v.a2), Xor8(u.a3, v.a3))
  }

  function AddKey(s: State, k: State): State {
    State(AddColumn(s.c0, k.c0), AddColumn(s.c1, k.c1), AddColumn(s.c2, k.c2), AddColumn(s.c3, k.c3))
  }

  function SubColumn(u: Column): Column {
    GF.Column(SBox(u.a0), SBox(u.a1), SBox(u.a2), SBox(u.a3))
  }

  function SubBytes(s: State): State {
    State(SubColumn(s.c0), SubColumn(s.c1), SubColumn(s.c2), SubColumn(s.c3))
  }

  /** Row r moves r places to the left. */
  function ShiftRows(s: State): State {
    State(GF.Column(s.c0.a0, s.c1.a1, s.c2.a2, s.c3.a3), GF.Column(s.c1.a0, s.c2.a1, s.c3.a2, s.c0.a3),
          GF.Column(s.c2.a0, s.c3.a1, s.c0.a2, s.c1.a3), GF.Column(s.c3.a0, s.c0.a1, s.c1.a2, s.c2.a3))
  }

  /** Every column is multiplied by the circulant matrix. */
  function MixColumns(s: State): State {
    State(GF.Mixed(s.c0, 0x1b), GF.Mixed(s.c1, 0x1b), GF.Mixed(s.c2, 0x1b), GF.Mixed(s.c3, 0x1b))
  }

  function Round(s: State, k: State): State {
    AddKey(MixColumns(ShiftRows(SubBytes(s))), k)
  }

  /** The first n of the nine inner rounds. */
  function Rounds(s: State, keys: seq<State>, n: nat): State
    requires |keys| == 11 && n <= 9
  {
    if n == 0 then AddKey(s, keys[0]) else Round(Rounds(s, keys, n - 1), keys[n])
  }

  function Encrypted(s: State, keys: seq<State>): State
    requires |keys| == 11
  {
    AddKey(ShiftRows(SubBytes(Rounds(s, keys, 9))), keys[10])
  }

  // --- every step is invertible ---

  lemma AddColumnTwice(u: Column, v: Column)
    ensures AddColumn(AddColumn(u, v), v) == u
  {
    hide Xor8;
    Xor8Twice(u.a0, v.a0);
    Xor8Twice(u.a1, v.a1);
    Xor8Twice(u.a2, v.a2);
    Xor8Twice(u.a3, v.a3);
  }

  /** Adding a key twice changes nothing. */
  lemma AddKeyTwice(s: State, k: State)
    ensures AddKey(AddKey(s, k), k) == s
  {
    hide AddColumn;
    AddColumnTwice(s.c0, k.c0);
    AddColumnTwice(s.c1, k.c1);
    AddColumnTwice(s.c2, k.c2);
    AddColumnTwice(s.c3, k.c3);
  }

  function InvSubColumn(u: Column): Column {
    GF.Column(InvSBox(u.a0), InvSBox(u.a1), InvSBox(u.a2), InvSBox(u.a3))
  }

  function InvSubBytes(s: State): State {
    State(InvSubColumn(s.c0), InvSubColumn(s.c1), InvSubColumn(s.c2), InvSubColumn(s.c3))
  }

  lemma SubColumnInverts(u: Column)
    ensures InvSubColumn(SubColumn(u)) == u
  {
    hide SBox, InvSBox;
    SBoxInverts(u.a0);
    SBoxInverts(u.a1);
    SBoxInverts(u.a2);
    SBoxInverts(u.a3);
  }

  lemma SubBytesInverts(s: State)
    ensures InvSubBytes(SubBytes(s)) == s
  {
    hide SubColumn, InvSubColumn;
    SubColumnInverts(s.c0);
    SubColumnInverts(s.c1);
    SubColumnInverts(s.c2);
    SubColumnInverts(s.c3);
  }

  /** Four row shifts are the identity. */
  lemma ShiftRowsFourTimes(s: State)
    ensures ShiftRows(ShiftRows(ShiftRows(ShiftRows(s)))) == s
  {
  }

  /** Four column mixings are the identity. */
  lemma MixColumnsFourTimes(s: State)
    ensures MixColumns(MixColumns(MixColumns(MixColumns(s)))) == s
  {
    hide GF.Mixed;
    GF.MixedFourTimes(s.c0, 0x1b);
    GF.MixedFourTimes(s.c1, 0x1b);
    GF.MixedFourTimes(s.c2, 0x1b);
    GF.MixedFourTimes(s.c3, 0x1b);
  }

  lemma SubShiftInjective(s: State, t: State)
    requires ShiftRows(SubBytes(s)) == ShiftRows(SubBytes(t))
    ensures s == t
  {
    hide *;
    ShiftRowsFourTimes(SubBytes(s));
    ShiftRowsFourTimes(SubBytes(t));
    SubBytesInverts(s);
    SubBytesInverts(t);
  }

  lemma AddKeyInjective(s: State, t: State, k: State)
    requires AddKey(s, k) == AddKey(t, k)
    ensures s == t
  {
    hide *;
    AddKeyTwice(s, k);
    AddKeyTwice(t, k);
  }

  lemma RoundInjective(s: State, t: State, k: State)
    requires Round(s, k) == Round(t, k)
    ensures s == t
  {
    hide AddKey, MixColumns, ShiftRows, SubBytes;
    var u, v := ShiftRows(SubBytes(s)), ShiftRows(SubBytes(t));
    AddKeyInjective(MixColumns(u), MixColumns(v), k);
    MixColumnsFourTimes(u);
    MixColumnsFourTimes(v);
    SubShiftInjective(s, t);
  }

  lemma {:induction false} RoundsInjective(s: State, t: State, keys: seq<State>, n: nat)
    requires |keys| == 11 && n <= 9
    requires Rounds(s, keys, n) == Rounds(t, keys, n)
    ensures s == t
  {
    hide Round, AddKey;
    if n == 0 {
      AddKeyInjective(s, t, keys[0]);
    } else {
      RoundInjective(Rounds(s, keys, n - 1), Rounds(t, keys, n - 1), keys[n]);
      RoundsInjective(s, t, keys, n - 1);
    }
  }

  /** Encryption is injective for every choice of the eleven round keys. */
  lemma EncryptedInjective(s: State, t: State, keys: seq<State>)
    requires |keys| == 11
    requires Encrypted(s, keys) == Encrypted(t, keys)
    ensures s == t
  {
    hide AddKey, ShiftRows, SubBytes, Rounds;
    var u, v := Rounds(s, keys, 9), Rounds(t, keys, 9);
    AddKeyInjective(ShiftRows(SubBytes(u)), ShiftRows(SubBytes(v)), keys[10]);
    SubShiftInjective(u, v);
    RoundsInjective(s, t, keys, 9);
  }

  // --- the key schedule ---

  /** The word added to the first column of a round key. */
  function KeyWord(c3: Column, rc: bv8): Column {
    GF.Column(Xor8(SBox(c3.a1), rc), SBox(c3.a2), SBox(c3.a3), SBox(c3.a0))
  }

  function NextKey(k: State, rc: bv8): State {
    var c0 := AddColumn(k.c0, KeyWord(k.c3, rc));
    var c1 := AddColumn(k.c1, c0);
    var c2 := AddColumn(k.c2, c1);
    State(c0, c1, c2, AddColumn(k.c3, c2))
  }

  /** The round constant of round i + 1. */
  function RoundConst(i: nat): bv8 {
    if i == 0 then 1 else XTime(RoundConst(i - 1))
  }

  function RoundKey(k: State, i: nat): State {
    if i == 0 then k else NextKey(RoundKey(k, i - 1), RoundConst(i - 1))
  }

  /** A round key determines the one before it. */
  lemma NextKeyInjective(k: State, l: State, rc: bv8)
    requires NextKey(k, rc) == NextKey(l, rc)
    ensures k == l
  {
    hide AddColumn, KeyWord;
    var n, m := NextKey(k, rc), NextKey(l, rc);
    AddColumnTwice(k.c3, n.c2);
    AddColumnTwice(l.c3, n.c2);
    AddColumnTwice(k.c2, n.c1);
    AddColumnTwice(l.c2, n.c1);
    AddColumnTwice(k.c1, n.c0);
    AddColumnTwice(l.c1, n.c0);
    AddColumnTwice(k.c0, KeyWord(k.c3, rc));
    AddColumnTwice(l.c0, KeyWord(l.c3, rc));
  }

  /** Every round key determines the cipher key. */
  lemma {:induction false} RoundKeyInjective(k: State, l: State, i: nat)
    requires RoundKey(k, i) == RoundKey(l, i)
    ensures k == l
  {
    hide NextKey, RoundConst;
    if i > 0 {
      NextKeyInjective(RoundKey(k, i - 1), RoundKey(l, i - 1), RoundConst(i - 1));
      RoundKeyInjective(k, l, i - 1);
    }
  }

  // --- the steps in place ---

  ghost function StateOf(a: array2<bv8>): State
    requires a.Length0 == 4 && a.Length1 == 4
    reads a
  {
    State(GF.Column(a[0, 0], a[1, 0], a[2, 0], a[3, 0]), GF.Column(a[0, 1], a[1, 1], a[2, 1], a[3, 1]),
          GF.Column(a[0, 2], a[1, 2], a[2, 2], a[3, 2]), GF.Column(a[0, 3], a[1, 3], a[2, 3], a[3, 3]))
  }

  ghost function KeyOf(rk: array3<bv8>, r: nat): State
    requires rk.Length0 == 11 && rk.Length1 == 4 && rk.Length2 == 4 && r < 11
    reads rk
  {
    State(GF.Column(rk[r, 0, 0], rk[r, 1, 0], rk[r, 2, 0], rk[r, 3, 0]), GF.Column(rk[r, 0, 1], rk[r, 1, 1], rk[r, 2, 1], rk[r, 3, 1]),
          GF.Column(rk[r, 0, 2], rk[r, 1, 2], rk[r, 2, 2], rk[r, 3, 2]), GF.Column(rk[r, 0, 3], rk[r, 1, 3], rk[r, 2, 3], rk[r, 3, 3]))
  }

  ghost function KeysOf(rk: array3<bv8>): (keys: seq<State>)
    requires rk.Length0 == 11 && rk.Length1 == 4 && rk.Length2 == 4
    reads rk
    ensures |keys| == 11
  {
    seq(11, r requires 0 <= r < 11 reads rk => KeyOf(rk, r))
  }

  method KeyAdd(state: array2<bv8>, rk: array3<bv8>, round: nat)
    requires state.Length0 == 4 && state.Length1 == 4
    requires rk.Length0 == 11 && rk.Length1 == 4 && rk.Length2 == 4 && round < 11
    modifies state
    ensures StateOf(state) == AddKey(old(StateOf(state)), KeyOf(rk, round))
  {
    hide Xor8;
    var i := 0;
    while i < 4
      invariant 0 <= i <= 4
      invariant forall p, q :: 0 <= p < i && 0 <= q < 4 ==> state[p, q] == Xor8(old(state[p, q]), rk[round, p, q])
      invariant forall p, q :: i <= p < 4 && 0 <= q < 4 ==> state[p, q] == old(state[p, q])
    {
      var j := 0;
      while j < 4
        invariant 0 <= j <= 4
        invariant forall p, q :: 0 <= p < i && 0 <= q < 4 ==> state[p, q] == Xor8(old(state[p, q]), rk[round, p, q])
        invariant forall q :: 0 <= q < j ==> state[i, q] == Xor8(old(state[i, q]), rk[round, i, q])
        invariant forall q :: j <= q < 4 ==> state[i, q] == old(state[i, q])
        invariant forall p, q :: i < p < 4 && 0 <= q < 4 ==> state[p, q] == old(state[p, q])
      {
        state[i, j] := Xor8(state[i, j], rk[round, i, j]);
        j := j + 1;
      }
      i := i + 1;
    }
  }

  method ByteSub(state: array2<bv8>)
    requires state.Length0 == 4 && state.Length1 == 4
    modifies state
    ensures StateOf(state) == SubBytes(old(StateOf(state)))
  {
    hide SBox;
    var i := 0;
    while i < 4
      invariant 0 <= i <= 4
      invariant forall p, q :: 0 <= p < i && 0 <= q < 4 ==> state[p, q] == SBox(old(state[p, q]))
      invariant forall p, q :: i <= p < 4 && 0 <= q < 4 ==> state[p, q] == old(state[p, q])
    {
      var j := 0;
      while j < 4
        invariant 0 <= j <= 4
        invariant forall p, q :: 0 <= p < i && 0 <= q < 4 ==> state[p, q] == SBox(old(state[p, q]))
        invariant forall q :: 0 <= q < j ==> state[i, q] == SBox(old(state[i, q]))
        invariant forall q :: j <= q < 4 ==> state[i, q] == old(state[i, q])
        invariant forall p, q :: i < p < 4 && 0 <= q < 4 ==> state[p, q] == old(state[p, q])
      {
        state[i, j] := SBox(state[i, j]);
        j := j + 1;
      }
      i := i + 1;
    }
  }

  method ShiftRow(state: array2<bv8>)
    requires state.Length0 == 4 && state.Length1 == 4
    modifies state
    ensures StateOf(state) == ShiftRows(old(StateOf(state)))
  {
    ShiftRowOne(state);
    ShiftRowTwo(state);
    ShiftRowThree(state);
  }

  /** Rotates row 1 left by one place. */
  method ShiftRowOne(state: array2<bv8>)
    requires state.Length0 == 4 && state.Length1 == 4
    modifies state
    ensures forall q :: 0 <= q < 4 ==> state[0, q] == old(state[0, q]) && state[2, q] == old(state[2, q]) && state[3, q] == old(state[3, q])
    ensures state[1, 0] == old(state[1, 1]) && state[1, 1] == old(state[1, 2]) && state[1, 2] == old(state[1, 3]) && state[1, 3] == old(state[1, 0])
  {
    var temp := state[1, 0];
    state[1, 0] := state[1, 1];
    state[1, 1] := state[1, 2];
    state[1, 2] := state[1, 3];
    state[1, 3] := temp;
  }

  /** Rotates row 2 left by two places. */
  method ShiftRowTwo(state: array2<bv8>)
    requires state.Length0 == 4 && state.Length1 == 4
    modifies state
    ensures forall q :: 0 <= q < 4 ==> state[0, q] == old(state[0, q]) && state[1, q] == old(state[1, q]) && state[3, q] == old(state[3, q])
    ensures state[2, 0] == old(state[2, 2]) && state[2, 1] == old(state[2, 3]) && state[2, 2] == old(state[2, 0]) && state[2, 3] == old(state[2, 1])
  {
    var temp := state[2, 0];
    state[2, 0] := state[2, 2];
    state[2, 2] := temp;
    temp := state[2, 1];
    state[2, 1] := state[2, 3];
    state[2, 3] := temp;
  }

  /** Rotates row 3 left by three places. */
  method ShiftRowThree(state: array2<bv8>)
    requires state.Length0 == 4 && state.Length1 == 4
    modifies state
    ensures forall q :: 0 <= q < 4 ==> state[0, q] == old(state[0, q]) && state[1, q] == old(state[1, q]) && state[2, q] == old(state[2, q])
    ensures state[3, 0] == old(state[3, 3]) && state[3, 1] == old(state[3, 0]) && state[3, 2] == old(state[3, 1]) && state[3, 3] == old(state[3, 2])
  {
    var temp := state[3, 0];
    state[3, 0] := state[3, 3];
    state[3, 3] := state[3, 2];
    state[3, 2] := state[3, 1];
    state[3, 1] := temp;
  }

  /** Column i of an array. */
  ghost function ColumnOf(a: array2<bv8>, i: nat): Column
    requires a.Length0 == 4 && a.Length1 == 4 && i < 4
    reads a
  {
    GF.Column(a[0, i], a[1, i], a[2, i], a[3, i])
  }

  lemma MixDirect(a0: bv8, a1: bv8, a2: bv8, a3: bv8, p: bv8, q: bv8)
    ensures a0 ^ ((a0 ^ a1 ^ a2 ^ a3) ^ (p ^ q)) == p ^ q ^ a1 ^ a2 ^ a3
    ensures a1 ^ ((a0 ^ a1 ^ a2 ^ a3) ^ (p ^ q)) == p ^ q ^ a2 ^ a3 ^ a0
    ensures a2 ^ ((a0 ^ a1 ^ a2 ^ a3) ^ (p ^ q)) == p ^ q ^ a3 ^ a0 ^ a1
    ensures a3 ^ ((a0 ^ a1 ^ a2 ^ a3) ^ (p ^ q)) == p ^ q ^ a0 ^ a1 ^ a2
  {
  }

  function Sum4(a0: bv8, a1: bv8, a2: bv8, a3: bv8): bv8 {
    a0 ^ a1 ^ a2 ^ a3
  }

  /** The byte the source adds: the sum of the column and twice the sum of two neighbours. */
  function Added(a: bv8, temp: bv8, p: bv8, q: bv8): bv8 {
    a ^ (temp ^ XTime(p ^ q))
  }

  function AddPair(a: bv8, temp: bv8, p: bv8, q: bv8): bv8 {
    a ^ (temp ^ (p ^ q))
  }

  lemma AddedIs(a: bv8, temp: bv8, p: bv8, q: bv8)
    ensures Added(a, temp, p, q) == AddPair(a, temp, GF.MulX(p, 0x1b), GF.MulX(q, 0x1b))
  {
    hide XTime, GF.MulX;
    XTimeIsMulX(p ^ q);
    GF.MulXLinear(p, q, 0x1b);
  }

  lemma XTimeIsMulX(x: bv8)
    ensures XTime(x) == GF.MulX(x, 0x1b)
  {
    hide XTime;
    XTimeShifts(x);
  }

  lemma MixFirst(a0: bv8, a1: bv8, a2: bv8, a3: bv8, p: bv8, q: bv8)
    ensures AddPair(a0, Sum4(a0, a1, a2, a3), p, q) == GF.Xor5(p, q, a1, a2, a3)
  {
    MixDirect(a0, a1, a2, a3, p, q);
  }

  lemma MixSecond(a0: bv8, a1: bv8, a2: bv8, a3: bv8, p: bv8, q: bv8)
    ensures AddPair(a1, Sum4(a0, a1, a2, a3), p, q) == GF.Xor5(p, q, a2, a3, a0)
  {
    MixDirect(a0, a1, a2, a3, p, q);
  }

  lemma MixThird(a0: bv8, a1: bv8, a2: bv8, a3: bv8, p: bv8, q: bv8)
    ensures AddPair(a2, Sum4(a0, a1, a2, a3), p, q) == GF.Xor5(p, q, a3, a0, a1)
  {
    MixDirect(a0, a1, a2, a3, p, q);
  }

  lemma MixFourth(a0: bv8, a1: bv8, a2: bv8, a3: bv8, p: bv8, q: bv8)
    ensures AddPair(a3, Sum4(a0, a1, a2, a3), p, q) == GF.Xor5(p, q, a0, a1, a2)
  {
    MixDirect(a0, a1, a2, a3, p, q);
  }

  /** The in-place mixing of one column is multiplication by the matrix. */
  lemma MixedInPlace(a0: bv8, a1: bv8, a2: bv8, a3: bv8)
    ensures var t := Sum4(a0, a1, a2, a3);
            GF.Column(Added(a0, t, a0, a1), Added(a1, t, a1, a2), Added(a2, t, a2, a3), Added(a3, t, a3, a0))
            == GF.Mixed(GF.Column(a0, a1, a2, a3), 0x1b)
  {
    hide *;
    var t := Sum4(a0, a1, a2, a3);
    AddedIs(a0, t, a0, a1);
    AddedIs(a1, t, a1, a2);
    AddedIs(a2, t, a2, a3);
    AddedIs(a3, t, a3, a0);
    var x0, x1, x2, x3 := GF.MulX(a0, 0x1b), GF.MulX(a1, 0x1b), GF.MulX(a2, 0x1b), GF.MulX(a3, 0x1b);
    MixFirst(a0, a1, a2, a3, x0, x1);
    MixSecond(a0, a1, a2, a3, x1, x2);
    MixThird(a0, a1, a2, a3, x2, x3);
    MixFourth(a0, a1, a2, a3, x3, x0);
    GF.MixedIs(GF.Column(a0, a1, a2, a3), 0x1b);
  }

  /** Mixes column i. Later bytes are computed while earlier ones are already replaced. */
  method MixOneColumn(state: array2<bv8>, i: nat)
    requires state.Length0 == 4 && state.Length1 == 4 && i < 4
    modifies state
    ensures ColumnOf(state, i) == GF.Mixed(old(ColumnOf(state, i)), 0x1b)
    ensures forall p, q :: 0 <= p < 4 && 0 <= q < 4 && q != i ==> state[p, q] == old(state[p, q])
  {
    hide Added, Sum4, GF.Mixed;
    MixedInPlace(state[0, i], state[1, i], state[2, i], state[3, i]);
    var temp := Sum4(state[0, i], state[1, i], state[2, i], state[3, i]);
    var tmp0 := state[0, i];
    state[0, i] := Added(state[0, i], temp, state[0, i], state[1, i]);
    state[1, i] := Added(state[1, i], temp, state[1, i], state[2, i]);
    state[2, i] := Added(state[2, i], temp, state[2, i], state[3, i]);
    state[3, i] := Added(state[3, i], temp, state[3, i], tmp0);
  }

  method MixColumn(state: array2<bv8>)
    requires state.Length0 == 4 && state.Length1 == 4
    modifies state
    ensures StateOf(state) == MixColumns(old(StateOf(state)))
  {
    hide GF.Mixed;
    var i := 0;
    while i < 4
      invariant 0 <= i <= 4
      invariant forall q :: 0 <= q < i ==> ColumnOf(state, q) == GF.Mixed(old(ColumnOf(state, q)), 0x1b)
      invariant forall p, q :: 0 <= p < 4 && i <= q < 4 ==> state[p, q] == old(state[p, q])
    {
      MixOneColumn(state, i);
      i := i + 1;
    }
    assert ColumnOf(state, 0) == GF.Mixed(old(ColumnOf(state, 0)), 0x1b) && ColumnOf(state, 1) == GF.Mixed(old(ColumnOf(state, 1)), 0x1b);
    assert ColumnOf(state, 2) == GF.Mixed(old(ColumnOf(state, 2)), 0x1b) && ColumnOf(state, 3) == GF.Mixed(old(ColumnOf(state, 3)), 0x1b);
  }

  // --- the operations ---

  /** A block of sixteen octets, column by column. */
  function BlockState(b: seq<bv8>): State
    requires |b| == 16
  {
    State(GF.Column(b[0], b[1], b[2], b[3]), GF.Column(b[4], b[5], b[6], b[7]),
          GF.Column(b[8], b[9], b[10], b[11]), GF.Column(b[12], b[13], b[14], b[15]))
  }

  function Bytes(s: State): (b: seq<bv8>)
    ensures |b| == 16
  {
    [s.c0.a0, s.c0.a1, s.c0.a2, s.c0.a3, s.c1.a0, s.c1.a1, s.c1.a2, s.c1.a3,
     s.c2.a0, s.c2.a1, s.c2.a2, s.c2.a3, s.c3.a0, s.c3.a1, s.c3.a2, s.c3.a3]
  }

  lemma BlockBytes(b: seq<bv8>)
    requires |b| == 16
    ensures Bytes(BlockState(b)) == b
  {
  }

  /** Two different blocks never encrypt alike, whatever the eleven round keys are. */
  lemma BlocksEncryptApart(b: seq<bv8>, c: seq<bv8>, keys: seq<State>)
    requires |b| == 16 && |c| == 16 && |keys| == 11
    requires Encrypted(BlockState(b), keys) == Encrypted(BlockState(c), keys)
    ensures b == c
  {
    hide *;
    EncryptedInjective(BlockState(b), BlockState(c), keys);
    BlockBytes(b);
    BlockBytes(c);
  }

  method LoadState(input: array<bv8>) returns (state: array2<bv8>)
    requires input.Length == 16
    ensures fresh(state) && state.Length0 == 4 && state.Length1 == 4 && StateOf(state) == BlockState(input[..])
  {
    state := new bv8[4, 4];
    var i := 0;
    while i < 16
      invariant 0 <= i <= 16
      invariant forall p, q :: 0 <= p < 4 && 0 <= q < 4 && 4 * q + p < i ==> state[p, q] == input[4 * q + p]
    {
      state[i % 4, i / 4] := input[i];
      i := i + 1;
    }
  }

  method StoreState(state: array2<bv8>, output: array<bv8>)
    requires output.Length == 16 && state.Length0 == 4 && state.Length1 == 4
    modifies output
    ensures BlockState(output[..]) == StateOf(state)
  {
    var i := 0;
    while i < 16
      invariant 0 <= i <= 16
      invariant forall k :: 0 <= k < i ==> output[k] == state[k % 4, k / 4]
    {
      output[i] := state[i % 4, i / 4];
      i := i + 1;
    }
  }

  lemma RoundsUnfold(s: State, keys: seq<State>, n: nat)
    requires |keys| == 11 && n < 9
    ensures Rounds(s, keys, 0) == AddKey(s, keys[0])
    ensures Rounds(s, keys, n + 1) == AddKey(MixColumns(ShiftRows(SubBytes(Rounds(s, keys, n)))), keys[n + 1])
  {
    hide AddKey, MixColumns, ShiftRows, SubBytes;
  }

  lemma KeysOfAt(rk: array3<bv8>, r: nat)
    requires rk.Length0 == 11 && rk.Length1 == 4 && rk.Length2 == 4 && r < 11
    ensures KeysOf(rk)[r] == KeyOf(rk, r)
  {
    hide KeyOf;
  }

  /** rijndael_encrypt. */
  method Encrypt(input: array<bv8>, rk: array3<bv8>, output: array<bv8>)
    requires input.Length == 16 && output.Length == 16
    requires rk.Length0 == 11 && rk.Length1 == 4 && rk.Length2 == 4
    modifies output
    ensures BlockState(output[..]) == Encrypted(old(BlockState(input[..])), KeysOf(rk))
  {
    hide BlockState, StateOf, AddKey, MixColumns, ShiftRows, SubBytes, KeysOf, KeyOf, Rounds;
    ghost var block, keys := BlockState(input[..]), KeysOf(rk);
    var state := LoadState(input);
    KeysOfAt(rk, 0);
    RoundsUnfold(block, keys, 0);
    KeyAdd(state, rk, 0);
    var r := 1;
    while r <= 9
      invariant 1 <= r <= 10
      invariant StateOf(state) == Rounds(block, keys, r - 1)
      invariant KeysOf(rk) == keys
    {
      KeysOfAt(rk, r);
      RoundsUnfold(block, keys, r - 1);
      ByteSub(state);
      ShiftRow(state);
      MixColumn(state);
      KeyAdd(state, rk, r);
      r := r + 1;
    }
    KeysOfAt(rk, r);
    ByteSub(state);
    ShiftRow(state);
    KeyAdd(state, rk, r);
    StoreState(state, output);
  }

  lemma KeyByte(s: bv8, k: bv8, rc: bv8)
    ensures Xor8(Xor8(s, k), rc) == Xor8(k, Xor8(s, rc))
    ensures Xor8(s, k) == Xor8(k, s)
  {
  }

  lemma NextKeyColumns(k: State, n: State, rc: bv8)
    requires n.c0 == AddColumn(k.c0, KeyWord(k.c3, rc)) && n.c1 == AddColumn(k.c1, n.c0)
    requires n.c2 == AddColumn(k.c2, n.c1) && n.c3 == AddColumn(k.c3, n.c2)
    ensures n == NextKey(k, rc)
  {
    hide AddColumn, KeyWord;
  }

  method FirstKeyBytes(rk: array3<bv8>, i: nat, rc: bv8)
    requires rk.Length0 == 11 && rk.Length1 == 4 && rk.Length2 == 4 && 1 <= i < 11
    modifies rk
    ensures forall r, p, q :: 0 <= r < 11 && 0 <= p < 4 && 0 <= q < 4 && (r != i || q != 0) ==> rk[r, p, q] == old(rk[r, p, q])
    ensures rk[i, 0, 0] == Xor8(Xor8(SBox(rk[i - 1, 1, 3]), rk[i - 1, 0, 0]), rc)
    ensures rk[i, 1, 0] == Xor8(SBox(rk[i - 1, 2, 3]), rk[i - 1, 1, 0])
    ensures rk[i, 2, 0] == Xor8(SBox(rk[i - 1, 3, 3]), rk[i - 1, 2, 0])
    ensures rk[i, 3, 0] == Xor8(SBox(rk[i - 1, 0, 3]), rk[i - 1, 3, 0])
  {
    hide *;
    rk[i, 0, 0] := Xor8(Xor8(SBox(rk[i - 1, 1, 3]), rk[i - 1, 0, 0]), rc);
    rk[i, 1, 0] := Xor8(SBox(rk[i - 1, 2, 3]), rk[i - 1, 1, 0]);
    rk[i, 2, 0] := Xor8(SBox(rk[i - 1, 3, 3]), rk[i - 1, 2, 0]);
    rk[i, 3, 0] := Xor8(SBox(rk[i - 1, 0, 3]), rk[i - 1, 3, 0]);
  }

  /** The first column of round key i. */
  method FirstKeyColumn(rk: array3<bv8>, i: nat, rc: bv8)
    requires rk.Length0 == 11 && rk.Length1 == 4 && rk.Length2 == 4 && 1 <= i < 11
    modifies rk
    ensures forall r :: 0 <= r < i ==> KeyOf(rk, r) == old(KeyOf(rk, r))
    ensures KeyOf(rk, i).c0 == AddColumn(KeyOf(rk, i - 1).c0, KeyWord(KeyOf(rk, i - 1).c3, rc))
  {
    hide SBox, Xor8;
    KeyByte(SBox(rk[i - 1, 1, 3]), rk[i - 1, 0, 0], rc);
    KeyByte(SBox(rk[i - 1, 2, 3]), rk[i - 1, 1, 0], rc);
    KeyByte(SBox(rk[i - 1, 3, 3]), rk[i - 1, 2, 0], rc);
    KeyByte(SBox(rk[i - 1, 0, 3]), rk[i - 1, 3, 0], rc);
    FirstKeyBytes(rk, i, rc);
  }

  /** Row j of the other columns of round key i. */
  method OtherKeyRow(rk: array3<bv8>, i: nat, j: nat)
    requires rk.Length0 == 11 && rk.Length1 == 4 && rk.Length2 == 4 && 1 <= i < 11 && j < 4
    modifies rk
    ensures forall r, p, q :: 0 <= r < 11 && 0 <= p < 4 && 0 <= q < 4 && (r != i || p != j || q == 0) ==> rk[r, p, q] == old(rk[r, p, q])
    ensures rk[i, j, 1] == Xor8(rk[i - 1, j, 1], rk[i, j, 0])
    ensures rk[i, j, 2] == Xor8(rk[i - 1, j, 2], rk[i, j, 1])
    ensures rk[i, j, 3] == Xor8(rk[i - 1, j, 3], rk[i, j, 2])
  {
    hide Xor8;
    rk[i, j, 1] := Xor8(rk[i - 1, j, 1], rk[i, j, 0]);
    rk[i, j, 2] := Xor8(rk[i - 1, j, 2], rk[i, j, 1]);
    rk[i, j, 3] := Xor8(rk[i - 1, j, 3], rk[i, j, 2]);
  }

  /** The other columns of round key i, row by row. */
  method OtherKeyColumns(rk: array3<bv8>, i: nat)
    requires rk.Length0 == 11 && rk.Length1 == 4 && rk.Length2 == 4 && 1 <= i < 11
    modifies rk
    ensures forall r :: 0 <= r < i ==> KeyOf(rk, r) == old(KeyOf(rk, r))
    ensures KeyOf(rk, i).c0 == old(KeyOf(rk, i)).c0
    ensures KeyOf(rk, i).c1 == AddColumn(KeyOf(rk, i - 1).c1, KeyOf(rk, i).c0)
    ensures KeyOf(rk, i).c2 == AddColumn(KeyOf(rk, i - 1).c2, KeyOf(rk, i).c1)
    ensures KeyOf(rk, i).c3 == AddColumn(KeyOf(rk, i - 1).c3, KeyOf(rk, i).c2)
  {
    hide Xor8;
    var j := 0;
    while j < 4
      invariant 0 <= j <= 4
      invariant forall r, p, q :: 0 <= r < i && 0 <= p < 4 && 0 <= q < 4 ==> rk[r, p, q] == old(rk[r, p, q])
      invariant forall p :: 0 <= p < 4 ==> rk[i, p, 0] == old(rk[i, p, 0])
      invariant forall p :: 0 <= p < j ==> rk[i, p, 1] == Xor8(rk[i - 1, p, 1], rk[i, p, 0])
      invariant forall p :: 0 <= p < j ==> rk[i, p, 2] == Xor8(rk[i - 1, p, 2], rk[i, p, 1])
      invariant forall p :: 0 <= p < j ==> rk[i, p, 3] == Xor8(rk[i - 1, p, 3], rk[i, p, 2])
    {
      OtherKeyRow(rk, i, j);
      j := j + 1;
    }
  }

  lemma RoundKeyUnfold(k: State, i: nat)
    ensures RoundKey(k, 0) == k && RoundKey(k, i + 1) == NextKey(RoundKey(k, i), RoundConst(i))
    ensures RoundConst(0) == 1 && RoundConst(i + 1) == XTime(RoundConst(i))
  {
    hide NextKey, XTime;
  }

  method FirstKey(key: array<bv8>, rk: array3<bv8>)
    requires key.Length == 16 && rk.Length0 == 11 && rk.Length1 == 4 && rk.Length2 == 4
    modifies rk
    ensures KeyOf(rk, 0) == BlockState(key[..])
  {
    var i := 0;
    while i < 16
      invariant 0 <= i <= 16
      invariant forall p, q :: 0 <= p < 4 && 0 <= q < 4 && 4 * q + p < i ==> rk[0, p, q] == key[4 * q + p]
    {
      rk[0, i % 4, i / 4] := key[i];
      i := i + 1;
    }
  }

  /** Round key i from round key i - 1. */
  method NextRoundKey(rk: array3<bv8>, i: nat, rc: bv8)
    requires rk.Length0 == 11 && rk.Length1 == 4 && rk.Length2 == 4 && 1 <= i < 11
    modifies rk
    ensures forall r :: 0 <= r < i ==> KeyOf(rk, r) == old(KeyOf(rk, r))
    ensures KeyOf(rk, i) == NextKey(old(KeyOf(rk, i - 1)), rc)
  {
    hide KeyOf, AddColumn, KeyWord, NextKey;
    FirstKeyColumn(rk, i, rc);
    OtherKeyColumns(rk, i);
    NextKeyColumns(KeyOf(rk, i - 1), KeyOf(rk, i), rc);
  }

  /** rijndael_key_schedule. */
  method KeySchedule(key: array<bv8>, rk: array3<bv8>)
    requires key.Length == 16 && rk.Length0 == 11 && rk.Length1 == 4 && rk.Length2 == 4
    modifies rk
    ensures forall r :: 0 <= r < 11 ==> KeyOf(rk, r) == RoundKey(BlockState(key[..]), r)
  {
    hide KeyOf, NextKey, BlockState, RoundKey, RoundConst, XTime;
    ghost var k := BlockState(key[..]);
    FirstKey(key, rk);
    RoundKeyUnfold(k, 0);
    var roundConst: bv8 := 1;
    var i := 1;
    while i < 11
      invariant 1 <= i <= 11
      invariant forall r :: 0 <= r < i ==> KeyOf(rk, r) == RoundKey(k, r)
      invariant roundConst == RoundConst(i - 1)
    {
      RoundKeyUnfold(k, i - 1);
      NextRoundKey(rk, i, roundConst);
      roundConst := XTime(roundConst);
      i := i + 1;
    }
  }
}
