/** The key expansion of section 5.2 of FIPS 197, word by word on octets, and why the round keys
    of the schedule are its words. */
module KeyExpansion {
  import opened ByteTables
  import opened Rijndael
  import opened XorWords
  import GF = GfBytes

  function AddWords(a: seq<bv8>, b: seq<bv8>): (c: seq<bv8>)
    requires |a| == 4 && |b| == 4
    ensures |c| == 4
  {
    [Xor8(a[0], b[0]), Xor8(a[1], b[1]), Xor8(a[2], b[2]), Xor8(a[3], b[3])]
  }

  function RotWord(w: seq<bv8>): (r: seq<bv8>)
    requires |w| == 4
    ensures |r| == 4
  {
    [w[1], w[2], w[3], w[0]]
  }

  function SubWord(w: seq<bv8>): (r: seq<bv8>)
    requires |w| == 4
    ensures |r| == 4
  {
    [SBox(w[0]), SBox(w[1]), SBox(w[2]), SBox(w[3])]
  }

  /** x^(n-1), and three zeros. */
  function Rcon(n: nat): (r: seq<bv8>)
    requires n > 0
    ensures |r| == 4
  {
    [GF.MulXPow(1, n - 1, 0x1b), 0, 0, 0]
  }

  /** Word i of the expanded key. */
  function Word(key: seq<bv8>, i: nat): (w: seq<bv8>)
    requires |key| == 16
    ensures |w| == 4
  {
    if i < 4 then key[4 * i..4 * i + 4]
    else
      var t := Word(key, i - 1);
      AddWords(Word(key, i - 4), if i % 4 == 0 then AddWords(SubWord(RotWord(t)), Rcon(i / 4)) else t)
  }

  function ColumnBytes(u: Column): (w: seq<bv8>)
    ensures |w| == 4
  {
    [u.a0, u.a1, u.a2, u.a3]
  }

  lemma AddedBytes(u: Column, v: Column)
    ensures ColumnBytes(AddColumn(u, v)) == AddWords(ColumnBytes(u), ColumnBytes(v))
  {
    hide Xor8;
  }

  lemma KeyWordBytes(u: Column, rc: bv8)
    ensures ColumnBytes(KeyWord(u, rc)) == AddWords(SubWord(RotWord(ColumnBytes(u))), [rc, 0, 0, 0])
  {
    hide Xor8, SBox;
    Xor8Unit(SBox(u.a2));
    Xor8Unit(SBox(u.a3));
    Xor8Unit(SBox(u.a0));
  }

  lemma {:induction false} RoundConstIs(i: nat)
    ensures RoundConst(i) == GF.MulXPow(1, i, 0x1b)
  {
    hide XTime, GF.MulX;
    if i > 0 {
      RoundConstIs(i - 1);
      XTimeIsMulX(RoundConst(i - 1));
    }
  }

  lemma WordIs(key: seq<bv8>, i: nat)
    requires |key| == 16 && i >= 4
    ensures Word(key, i) ==
            AddWords(Word(key, i - 4), if i % 4 == 0 then AddWords(SubWord(RotWord(Word(key, i - 1))), Rcon(i / 4)) else Word(key, i - 1))
  {
    hide AddWords, SubWord, RotWord, Rcon;
  }

  lemma RconIs(n: nat)
    requires n > 0
    ensures Rcon(n) == [GF.MulXPow(1, n - 1, 0x1b), 0, 0, 0]
  {
    hide GF.MulXPow;
  }

  /** Four words as the columns of a round key. */
  ghost predicate Columns(k: State, key: seq<bv8>, r: nat)
    requires |key| == 16
  {
    && ColumnBytes(k.c0) == Word(key, 4 * r) && ColumnBytes(k.c1) == Word(key, 4 * r + 1)
    && ColumnBytes(k.c2) == Word(key, 4 * r + 2) && ColumnBytes(k.c3) == Word(key, 4 * r + 3)
  }

  lemma FirstColumns(key: seq<bv8>)
    requires |key| == 16
    ensures Columns(BlockState(key), key, 0)
  {
  }

  lemma NextColumns(k: State, key: seq<bv8>, r: nat)
    requires |key| == 16 && Columns(k, key, r)
    ensures Columns(NextKey(k, RoundConst(r)), key, r + 1)
  {
    hide Word, AddWords, SubWord, RotWord, Rcon, ColumnBytes, AddColumn, KeyWord, RoundConst, GF.MulXPow;
    var n := NextKey(k, RoundConst(r));
    var i := 4 * (r + 1);
    assert i % 4 == 0 && i / 4 == r + 1 && (i + 1) % 4 == 1 && (i + 2) % 4 == 2 && (i + 3) % 4 == 3;
    WordIs(key, i);
    WordIs(key, i + 1);
    WordIs(key, i + 2);
    WordIs(key, i + 3);
    RoundConstIs(r);
    RconIs(r + 1);
    KeyWordBytes(k.c3, RoundConst(r));
    AddedBytes(k.c0, KeyWord(k.c3, RoundConst(r)));
    AddedBytes(k.c1, n.c0);
    AddedBytes(k.c2, n.c1);
    AddedBytes(k.c3, n.c2);
  }

  /** Round key r is words 4 r to 4 r + 3 of the expanded key, as columns. */
  lemma {:induction false} RoundKeyWords(key: seq<bv8>, r: nat)
    requires |key| == 16
    ensures Columns(RoundKey(BlockState(key), r), key, r)
  {
    hide Columns, NextKey, RoundConst, BlockState;
    if r == 0 {
      FirstColumns(key);
    } else {
      RoundKeyWords(key, r - 1);
      NextColumns(RoundKey(BlockState(key), r - 1), key, r - 1);
    }
  }
}
