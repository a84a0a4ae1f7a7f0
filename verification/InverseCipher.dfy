/** The inverse cipher of section 5.3 of FIPS 197 on blocks of sixteen octets, written on its own,
    and why it undoes the encryptor. Octet 4 c + r stands in row r and column c; no step of the
    encryptor occurs in a definition. */
module InverseCipher {
  import opened ByteTables
  import opened Rijndael
  import opened XorWords
  import GF = GfBytes

  /** Row r moves r places to the right. */
  function RowsRight(s: seq<bv8>): (t: seq<bv8>)
    requires |s| == 16
    ensures |t| == 16
  {
    seq(16, i requires 0 <= i < 16 => s[4 * ((i / 4 + 4 - i % 4) % 4) + i % 4])
  }

  function InverseTable(s: seq<bv8>): (t: seq<bv8>)
    requires |s| == 16
    ensures |t| == 16
  {
    seq(16, i requires 0 <= i < 16 => InvSBox(s[i]))
  }

  function AddOctets(s: seq<bv8>, k: seq<bv8>): (t: seq<bv8>)
    requires |s| == 16 && |k| == 16
    ensures |t| == 16
  {
    seq(16, i requires 0 <= i < 16 => Xor8(s[i], k[i]))
  }

  /** The product with a polynomial of degree 3, given by its bits. */
  function TimesBits(x: bv8, b3: bool, b2: bool, b1: bool, b0: bool): bv8 {
    var x1 := GF.MulX(x, 0x1b);
    var x2 := GF.MulX(x1, 0x1b);
    var x3 := GF.MulX(x2, 0x1b);
    Xor8(Xor8(if b3 then x3 else 0, if b2 then x2 else 0), Xor8(if b1 then x1 else 0, if b0 then x else 0))
  }

  /** A row of the inverse matrix, 0e 0b 0d 09, times four octets. */
  function MixedBack(p: bv8, q: bv8, r: bv8, t: bv8): bv8 {
    Xor8(Xor8(TimesBits(p, true, true, true, false), TimesBits(q, true, false, true, true)),
         Xor8(TimesBits(r, true, true, false, true), TimesBits(t, true, false, false, true)))
  }

  /** The octet k places below octet i in its column. */
  function Below(i: nat, k: nat): (j: nat)
    requires i < 16 && k < 4
    ensures j < 16
  {
    4 * (i / 4) + (i + k) % 4
  }

  function InverseMatrix(s: seq<bv8>): (t: seq<bv8>)
    requires |s| == 16
    ensures |t| == 16
  {
    seq(16, i requires 0 <= i < 16 => MixedBack(s[i], s[Below(i, 1)], s[Below(i, 2)], s[Below(i, 3)]))
  }

  ghost predicate Keys(keys: seq<seq<bv8>>) {
    |keys| == 11 && forall r :: 0 <= r < 11 ==> |keys[r]| == 16
  }

  /** The rounds from key r down to key 0. */
  ghost function RoundsBack(s: seq<bv8>, keys: seq<seq<bv8>>, r: nat): (t: seq<bv8>)
    requires |s| == 16 && Keys(keys) && r <= 9
    ensures |t| == 16
    decreases r
  {
    var u := AddOctets(InverseTable(RowsRight(s)), keys[r]);
    if r == 0 then u else RoundsBack(InverseMatrix(u), keys, r - 1)
  }

  ghost function Decrypted(s: seq<bv8>, keys: seq<seq<bv8>>): (t: seq<bv8>)
    requires |s| == 16 && Keys(keys)
    ensures |t| == 16
  {
    RoundsBack(AddOctets(s, keys[10]), keys, 9)
  }

  // --- rows and columns of a block ---

  function Row(u: Column, r: nat): bv8
    requires r < 4
  {
    if r == 0 then u.a0 else if r == 1 then u.a1 else if r == 2 then u.a2 else u.a3
  }

  function ColumnAt(s: State, c: nat): Column
    requires c < 4
  {
    if c == 0 then s.c0 else if c == 1 then s.c1 else if c == 2 then s.c2 else s.c3
  }

  function Place(s: State, r: nat, c: nat): bv8
    requires r < 4 && c < 4
  {
    Row(ColumnAt(s, c), r)
  }

  lemma BytesAre(s: State)
    ensures var b := Bytes(s);
            && b[0] == s.c0.a0 && b[1] == s.c0.a1 && b[2] == s.c0.a2 && b[3] == s.c0.a3
            && b[4] == s.c1.a0 && b[5] == s.c1.a1 && b[6] == s.c1.a2 && b[7] == s.c1.a3
            && b[8] == s.c2.a0 && b[9] == s.c2.a1 && b[10] == s.c2.a2 && b[11] == s.c2.a3
            && b[12] == s.c3.a0 && b[13] == s.c3.a1 && b[14] == s.c3.a2 && b[15] == s.c3.a3
  {
  }

  lemma BytesOfColumn(s: State, c: nat)
    requires c < 4
    ensures Bytes(s)[4 * c] == Place(s, 0, c) && Bytes(s)[4 * c + 1] == Place(s, 1, c)
    ensures Bytes(s)[4 * c + 2] == Place(s, 2, c) && Bytes(s)[4 * c + 3] == Place(s, 3, c)
  {
    hide *;
    BytesAre(s);
    RowsOf(s, c);
    if c == 0 {
    } else if c == 1 {
    } else if c == 2 {
    } else {
    }
  }

  lemma RowsOf(s: State, c: nat)
    requires c < 4
    ensures var u := if c == 0 then s.c0 else if c == 1 then s.c1 else if c == 2 then s.c2 else s.c3;
            && u == ColumnAt(s, c) && Place(s, 0, c) == u.a0 && Place(s, 1, c) == u.a1 && Place(s, 2, c) == u.a2 && Place(s, 3, c) == u.a3
  {
  }

  /** Octet i of a block stands in row i % 4 and column i / 4. */
  lemma BytesAt(s: State, i: nat)
    requires i < 16
    ensures Bytes(s)[i] == Place(s, i % 4, i / 4)
  {
    hide *;
    BytesOfColumn(s, i / 4);
    assert i == 4 * (i / 4) + i % 4;
  }

  lemma Octets16(a: seq<bv8>, b: seq<bv8>)
    requires |a| == 16 && |b| == 16 && forall i :: 0 <= i < 16 ==> a[i] == b[i]
    ensures a == b
  {
  }

  // --- each step undoes its counterpart ---

  lemma ShiftedPlace(s: State, r: nat, c: nat)
    requires r < 4 && c < 4
    ensures Place(ShiftRows(s), r, c) == Place(s, r, (c + r) % 4)
  {
  }

  lemma RowsRightAt(t: seq<bv8>, i: nat)
    requires |t| == 16 && i < 16
    ensures RowsRight(t)[i] == t[4 * ((i / 4 + 4 - i % 4) % 4) + i % 4]
  {
  }

  lemma RowsBack(s: State)
    ensures RowsRight(Bytes(ShiftRows(s))) == Bytes(s)
  {
    hide *;
    var t := Bytes(ShiftRows(s));
    forall i | 0 <= i < 16
      ensures RowsRight(t)[i] == Bytes(s)[i]
    {
      RowsRightAt(t, i);
      var r, c := i % 4, i / 4;
      var d := (c + 4 - r) % 4;
      BytesAt(s, i);
      BytesAt(ShiftRows(s), 4 * d + r);
      ShiftedPlace(s, r, d);
      Turns(c, r);
    }
    Octets16(RowsRight(t), Bytes(s));
  }

  lemma Turns(c: nat, r: nat)
    requires c < 4 && r < 4
    ensures var d := (c + 4 - r) % 4; (d + r) % 4 == c && (4 * d + r) / 4 == d && (4 * d + r) % 4 == r && 4 * d + r < 16
  {
  }

  lemma SubbedPlace(s: State, r: nat, c: nat)
    requires r < 4 && c < 4
    ensures Place(SubBytes(s), r, c) == SBox(Place(s, r, c))
  {
    hide SBox;
  }

  lemma TableBack(s: State)
    ensures InverseTable(Bytes(SubBytes(s))) == Bytes(s)
  {
    hide SBox, InvSBox, Bytes, SubBytes, Place;
    var t := Bytes(SubBytes(s));
    forall i | 0 <= i < 16
      ensures InvSBox(t[i]) == Bytes(s)[i]
    {
      BytesAt(s, i);
      BytesAt(SubBytes(s), i);
      SubbedPlace(s, i % 4, i / 4);
      SBoxInverts(Bytes(s)[i]);
    }
  }

  lemma AddedPlace(s: State, k: State, r: nat, c: nat)
    requires r < 4 && c < 4
    ensures Place(AddKey(s, k), r, c) == Xor8(Place(s, r, c), Place(k, r, c))
  {
    hide Xor8;
  }

  lemma KeyBack(s: State, k: State)
    ensures AddOctets(Bytes(AddKey(s, k)), Bytes(k)) == Bytes(s)
  {
    hide Xor8, Bytes, AddKey, Place;
    var t := Bytes(AddKey(s, k));
    forall i | 0 <= i < 16
      ensures Xor8(t[i], Bytes(k)[i]) == Bytes(s)[i]
    {
      BytesAt(s, i);
      BytesAt(k, i);
      BytesAt(AddKey(s, k), i);
      AddedPlace(s, k, i % 4, i / 4);
      Xor8Twice(Bytes(s)[i], Bytes(k)[i]);
    }
  }

  // --- the inverse matrix is three mixings ---

  lemma TripleHalf(p: bv8, q: bv8)
    ensures var x, z := GF.MulX(p, 0x1b), GF.MulX(GF.MulX(GF.MulX(p, 0x1b), 0x1b), 0x1b);
            GF.MulX(GF.Half(p, q, 0x1b), 0x1b) == Xor8(Xor8(z, GF.MulX(GF.MulX(GF.MulX(q, 0x1b), 0x1b), 0x1b)), x)
  {
    hide GF.MulX, Xor8;
    var y, w := GF.MulX(GF.MulX(p, 0x1b), 0x1b), GF.MulX(GF.MulX(q, 0x1b), 0x1b);
    GF.MulXLinear(Xor8(y, w), p, 0x1b);
    GF.MulXLinear(y, w, 0x1b);
  }

  function Three(a: bv8, b: bv8, c: bv8): bv8 {
    a ^ b ^ c
  }

  function Four(a: bv8, b: bv8, c: bv8, d: bv8): bv8 {
    a ^ b ^ c ^ d
  }

  lemma Sum3(a: bv8, b: bv8, c: bv8)
    ensures Xor8(Xor8(a, b), c) == Three(a, b, c)
  {
    assert Xor8(a ^ b, c) == a ^ b ^ c;
  }

  lemma Sum4(a: bv8, b: bv8, c: bv8, d: bv8)
    ensures Xor8(Xor8(a, b), Xor8(c, d)) == Four(a, b, c, d)
  {
    assert Xor8(a ^ b, c ^ d) == a ^ b ^ c ^ d;
  }

  lemma WithoutTop(z: bv8, y: bv8, x: bv8, v: bv8)
    ensures Xor8(Xor8(z, y), Xor8(x, 0)) == Three(z, y, x) && Xor8(Xor8(z, 0), Xor8(x, v)) == Three(z, x, v)
    ensures Xor8(Xor8(z, y), Xor8(0, v)) == Three(z, y, v) && Xor8(Xor8(z, 0), Xor8(0, v)) == Xor8(z, v)
  {
    hide Xor8, Three;
    Xor8Unit(x);
    Xor8Unit(z);
    Xor8Unit(v);
    Sum3(z, y, x);
    Sum3(z, y, v);
    Sum3Right(z, x, v);
  }

  lemma Sum3Right(a: bv8, b: bv8, c: bv8)
    ensures Xor8(a, Xor8(b, c)) == Three(a, b, c)
  {
    assert Xor8(a, b ^ c) == a ^ b ^ c;
  }

  lemma LastThree(v1: bv8, v2: bv8, v3: bv8, y0: bv8, y1: bv8, y2: bv8, y3: bv8)
    ensures Three(Three(y1, y3, v1), Three(y2, y0, v2), Three(y3, y1, v3)) == Xor8(Xor8(y0, y2), Three(v1, v2, v3))
  {
    assert Three(y1 ^ y3 ^ v1, y2 ^ y0 ^ v2, y3 ^ y1 ^ v3) == Xor8(y0 ^ y2, v1 ^ v2 ^ v3);
  }

  lemma AllFive(v1: bv8, v2: bv8, v3: bv8, x0: bv8, x1: bv8, y0: bv8, y2: bv8, z0: bv8, z1: bv8, z2: bv8, z3: bv8)
    ensures Three(Three(z0, z2, x0), Three(z1, z3, x1), Xor8(Xor8(y0, y2), Three(v1, v2, v3)))
            == Four(Three(z0, y0, x0), Three(z1, x1, v1), Three(z2, y2, v2), Xor8(z3, v3))
  {
    assert Three(z0 ^ z2 ^ x0, z1 ^ z3 ^ x1, y0 ^ y2 ^ v1 ^ v2 ^ v3) == Four(z0 ^ y0 ^ x0, z1 ^ x1 ^ v1, z2 ^ y2 ^ v2, z3 ^ v3);
    assert Xor8(y0 ^ y2, v1 ^ v2 ^ v3) == y0 ^ y2 ^ v1 ^ v2 ^ v3;
  }

  lemma FiveAsThree(a: bv8, b: bv8, c: bv8, d: bv8, e: bv8)
    ensures GF.Xor5(a, b, c, d, e) == Three(a, b, Three(c, d, e))
  {
    assert Three(a, b, c ^ d ^ e) == a ^ b ^ c ^ d ^ e;
  }

  /** One octet of a third mixing, in terms of the products of the column by 1, x, x^2 and x^3. */
  lemma ThreeMixesSum(v0: bv8, v1: bv8, v2: bv8, v3: bv8, x0: bv8, x1: bv8, x2: bv8, x3: bv8,
                      y0: bv8, y1: bv8, y2: bv8, y3: bv8, z0: bv8, z1: bv8, z2: bv8, z3: bv8)
    ensures GF.Xor5(Xor8(Xor8(z0, z2), x0), Xor8(Xor8(z1, z3), x1), Xor8(Xor8(y1, y3), v1), Xor8(Xor8(y2, y0), v2), Xor8(Xor8(y3, y1), v3))
            == Xor8(Xor8(Xor8(Xor8(z0, y0), Xor8(x0, 0)), Xor8(Xor8(z1, 0), Xor8(x1, v1))),
                    Xor8(Xor8(Xor8(z2, y2), Xor8(0, v2)), Xor8(Xor8(z3, 0), Xor8(0, v3))))
  {
    hide *;
    Sum3(z0, z2, x0);
    Sum3(z1, z3, x1);
    Sum3(y1, y3, v1);
    Sum3(y2, y0, v2);
    Sum3(y3, y1, v3);
    FiveAsThree(Three(z0, z2, x0), Three(z1, z3, x1), Three(y1, y3, v1), Three(y2, y0, v2), Three(y3, y1, v3));
    LastThree(v1, v2, v3, y0, y1, y2, y3);
    AllFive(v1, v2, v3, x0, x1, y0, y2, z0, z1, z2, z3);
    WithoutTop(z0, y0, x0, v0);
    WithoutTop(z1, y1, x1, v1);
    WithoutTop(z2, y2, x2, v2);
    WithoutTop(z3, y3, x3, v3);
    Sum4(Three(z0, y0, x0), Three(z1, x1, v1), Three(z2, y2, v2), Xor8(z3, v3));
  }

  /** The first octet of three mixings. */
  lemma ThirdMixing(v: Column)
    ensures GF.Mixed(GF.Mixed(GF.Mixed(v, 0x1b), 0x1b), 0x1b).a0 == MixedBack(v.a0, v.a1, v.a2, v.a3)
  {
    hide GF.MulX, GF.Mixed, GF.Xor5, GF.Half, Xor8;
    var w := GF.Mixed(GF.Mixed(v, 0x1b), 0x1b);
    GF.TwoMixes(v, 0x1b);
    GF.MixedIs(w, 0x1b);
    TripleHalf(v.a0, v.a2);
    TripleHalf(v.a1, v.a3);
    HalfIs(v.a1, v.a3);
    HalfIs(v.a2, v.a0);
    HalfIs(v.a3, v.a1);
    var x0, x1, x2, x3 := GF.MulX(v.a0, 0x1b), GF.MulX(v.a1, 0x1b), GF.MulX(v.a2, 0x1b), GF.MulX(v.a3, 0x1b);
    var y0, y1, y2, y3 := GF.MulX(x0, 0x1b), GF.MulX(x1, 0x1b), GF.MulX(x2, 0x1b), GF.MulX(x3, 0x1b);
    ThreeMixesSum(v.a0, v.a1, v.a2, v.a3, x0, x1, x2, x3, y0, y1, y2, y3,
                  GF.MulX(y0, 0x1b), GF.MulX(y1, 0x1b), GF.MulX(y2, 0x1b), GF.MulX(y3, 0x1b));
  }

  lemma HalfIs(p: bv8, q: bv8)
    ensures GF.Half(p, q, 0x1b) == Xor8(Xor8(GF.MulX(GF.MulX(p, 0x1b), 0x1b), GF.MulX(GF.MulX(q, 0x1b), 0x1b)), p)
  {
    hide GF.MulX, Xor8;
  }

  lemma ThreeMixingsTurn(v: Column)
    ensures GF.Mixed(GF.Mixed(GF.Mixed(GF.Turned(v), 0x1b), 0x1b), 0x1b) == GF.Turned(GF.Mixed(GF.Mixed(GF.Mixed(v, 0x1b), 0x1b), 0x1b))
  {
    hide *;
    GF.MixTurns(v, 0x1b);
    GF.MixTurns(GF.Mixed(v, 0x1b), 0x1b);
    GF.MixTurns(GF.Mixed(GF.Mixed(v, 0x1b), 0x1b), 0x1b);
  }

  /** The inverse matrix undoes the matrix. */
  lemma MixedBackMixed(u: Column)
    ensures var v := GF.Mixed(u, 0x1b);
            && MixedBack(v.a0, v.a1, v.a2, v.a3) == u.a0 && MixedBack(v.a1, v.a2, v.a3, v.a0) == u.a1
            && MixedBack(v.a2, v.a3, v.a0, v.a1) == u.a2 && MixedBack(v.a3, v.a0, v.a1, v.a2) == u.a3
  {
    hide *;
    var v := GF.Mixed(u, 0x1b);
    var t := GF.Turned(v);
    var w := GF.Turned(t);
    var z := GF.Turned(w);
    GF.MixedFourTimes(u, 0x1b);
    ThirdMixing(v);
    ThirdMixing(t);
    ThirdMixing(w);
    ThirdMixing(z);
    ThreeMixingsTurn(v);
    ThreeMixingsTurn(t);
    ThreeMixingsTurn(w);
    GF.TurnedBytes(v);
    GF.TurnedBytes(t);
    GF.TurnedBytes(w);
    GF.TurnedBytes(u);
    GF.TurnedBytes(GF.Turned(u));
    GF.TurnedBytes(GF.Turned(GF.Turned(u)));
  }

  lemma MixedPlace(s: State, c: nat)
    requires c < 4
    ensures var u := ColumnAt(s, c);
            var v := GF.Mixed(u, 0x1b);
            && Place(MixColumns(s), 0, c) == v.a0 && Place(MixColumns(s), 1, c) == v.a1
            && Place(MixColumns(s), 2, c) == v.a2 && Place(MixColumns(s), 3, c) == v.a3
            && Place(s, 0, c) == u.a0 && Place(s, 1, c) == u.a1 && Place(s, 2, c) == u.a2 && Place(s, 3, c) == u.a3
  {
    hide GF.Mixed;
  }

  lemma InverseMatrixAt(t: seq<bv8>, i: nat)
    requires |t| == 16 && i < 16
    ensures InverseMatrix(t)[i] == MixedBack(t[i], t[Below(i, 1)], t[Below(i, 2)], t[Below(i, 3)])
  {
    hide MixedBack, Below;
  }

  lemma BelowIs(c: nat, r: nat, k: nat)
    requires c < 4 && r < 4 && k < 4
    ensures Below(4 * c + r, k) == if r + k < 4 then 4 * c + r + k else 4 * c + r + k - 4
  {
  }

  lemma MatrixBackAt(s: State, c: nat, r: nat)
    requires c < 4 && r < 4
    ensures InverseMatrix(Bytes(MixColumns(s)))[4 * c + r] == Bytes(s)[4 * c + r]
  {
    hide *;
    var t := Bytes(MixColumns(s));
    InverseMatrixAt(t, 4 * c + r);
    BelowIs(c, r, 1);
    BelowIs(c, r, 2);
    BelowIs(c, r, 3);
    BytesOfColumn(MixColumns(s), c);
    BytesOfColumn(s, c);
    MixedPlace(s, c);
    MixedBackMixed(ColumnAt(s, c));
  }

  lemma MatrixBack(s: State)
    ensures InverseMatrix(Bytes(MixColumns(s))) == Bytes(s)
  {
    hide *;
    forall i | 0 <= i < 16
      ensures InverseMatrix(Bytes(MixColumns(s)))[i] == Bytes(s)[i]
    {
      MatrixBackAt(s, i / 4, i % 4);
      assert i == 4 * (i / 4) + i % 4;
    }
    Octets16(InverseMatrix(Bytes(MixColumns(s))), Bytes(s));
  }

  // --- the whole ---

  ghost function KeyBytes(keys: seq<State>): (k: seq<seq<bv8>>)
    requires |keys| == 11
    ensures Keys(k)
  {
    seq(11, r requires 0 <= r < 11 => Bytes(keys[r]))
  }

  lemma RoundBack(s: State, k: State)
    ensures AddOctets(InverseTable(RowsRight(Bytes(ShiftRows(SubBytes(s))))), Bytes(k)) == AddOctets(Bytes(s), Bytes(k))
  {
    hide *;
    RowsBack(SubBytes(s));
    TableBack(s);
  }

  lemma KeyBytesAt(keys: seq<State>, r: nat)
    requires |keys| == 11 && r < 11
    ensures KeyBytes(keys)[r] == Bytes(keys[r])
  {
    hide Bytes;
  }

  lemma RoundsBackStep(s: seq<bv8>, keys: seq<seq<bv8>>, r: nat)
    requires |s| == 16 && Keys(keys) && r <= 9
    ensures RoundsBack(s, keys, r) ==
            var u := AddOctets(InverseTable(RowsRight(s)), keys[r]); if r == 0 then u else RoundsBack(InverseMatrix(u), keys, r - 1)
  {
    hide AddOctets, InverseTable, RowsRight, InverseMatrix;
  }

  /** Undoing the rounds from r on, from the state that the last step of round r + 1 starts from. */
  lemma {:induction false} RoundsUndone(b: State, keys: seq<State>, r: nat)
    requires |keys| == 11 && r <= 9
    ensures RoundsBack(Bytes(ShiftRows(SubBytes(Rounds(b, keys, r)))), KeyBytes(keys), r) == Bytes(b)
  {
    hide *;
    var s := Rounds(b, keys, r);
    RoundsBackStep(Bytes(ShiftRows(SubBytes(s))), KeyBytes(keys), r);
    RoundBack(s, keys[r]);
    KeyBytesAt(keys, r);
    RoundsUnfold(b, keys, if r == 0 then 0 else r - 1);
    if r == 0 {
      KeyBack(b, keys[0]);
    } else {
      var t := ShiftRows(SubBytes(Rounds(b, keys, r - 1)));
      KeyBack(MixColumns(t), keys[r]);
      MatrixBack(t);
      RoundsUndone(b, keys, r - 1);
    }
  }

  /** The inverse cipher undoes encryption for every block and every eleven round keys. */
  lemma DecryptsEncrypted(block: seq<bv8>, cipher: seq<bv8>, keys: seq<State>)
    requires |block| == 16 && |cipher| == 16 && |keys| == 11
    requires BlockState(cipher) == Encrypted(BlockState(block), keys)
    ensures Decrypted(cipher, KeyBytes(keys)) == block
  {
    hide *;
    var b := BlockState(block);
    var s := ShiftRows(SubBytes(Rounds(b, keys, 9)));
    BlockBytes(block);
    BlockBytes(cipher);
    EncryptedIs(b, keys);
    DecryptedIs(cipher, KeyBytes(keys));
    KeyBytesAt(keys, 10);
    KeyBack(s, keys[10]);
    RoundsUndone(b, keys, 9);
  }

  lemma EncryptedIs(s: State, keys: seq<State>)
    requires |keys| == 11
    ensures Encrypted(s, keys) == AddKey(ShiftRows(SubBytes(Rounds(s, keys, 9))), keys[10])
  {
    hide AddKey, ShiftRows, SubBytes, Rounds;
  }

  lemma DecryptedIs(s: seq<bv8>, keys: seq<seq<bv8>>)
    requires |s| == 16 && Keys(keys)
    ensures Decrypted(s, keys) == RoundsBack(AddOctets(s, keys[10]), keys, 9)
  {
    hide AddOctets, RoundsBack;
  }
}
