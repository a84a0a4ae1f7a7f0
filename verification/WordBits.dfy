/** Words as bits, bit 0 on top, and what the octets of a word and a pair of words are in bits.
    Shifted, joined and summed words follow, so that an algorithm on words can be described bit by
    bit by proofs that see no bit vector operation. */
module WordBits {
  import opened OctetBits
  import opened Snow3g
  import opened ByteNumbers
  import opened XorWords

  predicate WordBit(w: bv32, j: nat)
    requires j < 32
  {
    (w >> ((31 - j) as bv8)) & 1 == 1
  }

  /** Bit n of a string of words. */
  predicate StreamBit(ks: seq<bv32>, n: nat)
    requires n < 32 * |ks|
  {
    WordBit(ks[n / 32], n % 32)
  }

  lemma AtXor(a: bv32, b: bv32, s: bv8)
    requires s < 32
    ensures ((a ^ b) >> s) & 1 == ((a >> s) & 1) ^ ((b >> s) & 1)
  {
  }

  lemma OneBit(a: bv32)
    ensures a & 1 == 0 || a & 1 == 1
  {
  }

  lemma WordBitXor(a: bv32, b: bv32, j: nat)
    requires j < 32
    ensures WordBit(Xor32(a, b), j) == (WordBit(a, j) != WordBit(b, j))
    ensures !WordBit(0, j)
  {
    var s := (31 - j) as bv8;
    AtXor(a, b, s);
    OneBit(a >> s);
    OneBit(b >> s);
    assert (0 as bv32) >> s == 0;
  }

  // --- the octets of a word ---

  /** Octet k of a word, octet 0 on top. */
  function WordOctet(w: bv32, k: nat): bv8
    requires k < 4
  {
    if k == 0 then Byte0(w) else if k == 1 then Byte1(w) else if k == 2 then Byte2(w) else Byte3(w)
  }

  /** Bit s of an octet counted from below. */
  predicate LowBit(x: bv8, s: bv8)
    requires s < 8
  {
    (x >> s) & 1 == 1
  }

  predicate LowBitOfWord(w: bv32, s: bv8)
    requires s < 32
  {
    (w >> s) & 1 == 1
  }

  lemma LowBitOfByte0(w: bv32, s: bv8)
    requires s < 8
    ensures LowBit(Byte0(w), s) == LowBitOfWord(w, 24 + s)
  {
  }

  lemma LowBitOfByte1(w: bv32, s: bv8)
    requires s < 8
    ensures LowBit(Byte1(w), s) == LowBitOfWord(w, 16 + s)
  {
  }

  lemma LowBitOfByte2(w: bv32, s: bv8)
    requires s < 8
    ensures LowBit(Byte2(w), s) == LowBitOfWord(w, 8 + s)
  {
  }

  lemma LowBitOfByte3(w: bv32, s: bv8)
    requires s < 8
    ensures LowBit(Byte3(w), s) == LowBitOfWord(w, s)
  {
  }

  lemma BitIsLow(x: bv8, r: nat, s: bv8)
    requires r < 8 && s < 8 && s == (7 - r) as bv8
    ensures BitOf(x, r) == LowBit(x, s)
  {
  }

  lemma WordBitIsLow(w: bv32, j: nat, s: bv8)
    requires j < 32 && s < 32 && s == (31 - j) as bv8
    ensures WordBit(w, j) == LowBitOfWord(w, s)
  {
  }

  lemma Distance(r: nat, top: nat, base: bv8)
    requires r < 8 && top < 32 && r <= top && base as nat + 7 == top && base <= 24
    ensures (7 - r) as bv8 < 8 && (top - r) as bv8 == base + (7 - r) as bv8
  {
    hide *;
    RoundTrip(7 - r);
    RoundTrip(top - r);
    Below(7 - r, 8, 8);
    Sum(base, (7 - r) as bv8, (top - r) as bv8);
  }

  lemma Sum(x: bv8, y: bv8, z: bv8)
    requires x <= 24 && y < 8 && z as nat == x as nat + y as nat
    ensures z == x + y
  {
    hide *;
    SumNumber(x, y);
    NumberBack(z);
    NumberBack(x + y);
  }

  lemma SumNumber(x: bv8, y: bv8)
    requires x <= 24 && y < 8
    ensures (x + y) as nat == x as nat + y as nat
  {
  }

  /** Bit r of octet k of a word is bit 8 k + r of the word. */
  lemma OctetBit(w: bv32, k: nat, r: nat)
    requires k < 4 && r < 8
    ensures BitOf(WordOctet(w, k), r) == WordBit(w, 8 * k + r)
  {
    hide *;
    var s := (7 - r) as bv8;
    var base: bv8 := if k == 0 then 24 else if k == 1 then 16 else if k == 2 then 8 else 0;
    Distance(r, 31 - 8 * k, base);
    WordOctetIs(w, k);
    if k == 0 { LowBitOfByte0(w, s); } else if k == 1 { LowBitOfByte1(w, s); }
    else if k == 2 { LowBitOfByte2(w, s); } else { LowBitOfByte3(w, s); }
    BitIsLow(WordOctet(w, k), r, s);
    WordBitIsLow(w, 8 * k + r, base + s);
  }

  lemma WordOctetIs(w: bv32, k: nat)
    requires k < 4
    ensures WordOctet(w, k) == if k == 0 then Byte0(w) else if k == 1 then Byte1(w) else if k == 2 then Byte2(w) else Byte3(w)
  {
  }

  /** Bit 8 k + r of four octets joined is bit r of octet k. */
  lemma JoinedBit(s: seq<bv8>, at: nat, j: nat)
    requires at + 4 <= |s| && j < 32
    ensures WordBit(Joined(s[at], s[at + 1], s[at + 2], s[at + 3]), j) == BitAt(s, 8 * at + j)
  {
    hide BitOf, WordBit, Byte0, Byte1, Byte2, Byte3, Joined;
    JoinedBytes(s[at], s[at + 1], s[at + 2], s[at + 3]);
    OctetBit(Joined(s[at], s[at + 1], s[at + 2], s[at + 3]), j / 8, j % 8);
    assert (8 * at + j) / 8 == at + j / 8 && (8 * at + j) % 8 == j % 8;
  }

  // --- shifted words ---

  /** A word shifted up by t bits, filled from the top of another. */
  function Shifted(a: bv32, b: bv32, t: nat): bv32
    requires 1 <= t < 32
  {
    (a << (t as bv8)) | (b >> (32 - (t as bv8)))
  }

  /** Bit y of a word counted from the top, where 32 is the top bit of a following word. */
  predicate First(w: bv32, y: bv8) {
    y < 32 && (w >> (31 - y)) & 1 == 1
  }

  predicate Second(w: bv32, y: bv8) {
    32 <= y < 64 && (w >> (63 - y)) & 1 == 1
  }

  function ShiftedBy(a: bv32, b: bv32, t: bv8): bv32
    requires 1 <= t < 32
  {
    (a << t) | (b >> (32 - t))
  }

  predicate SumIs(z: bv8, y: bv8, x: bv8) {
    1 <= x < 32 && y < 32 && z == y + x
  }

  lemma ShiftedAt(a: bv32, b: bv32, t: bv8, j: bv8, z: bv8)
    requires 1 <= t < 32 && SumIs(z, j, t)
    ensures z < 32 ==> First(ShiftedBy(a, b, t), j) == First(a, z)
    ensures z >= 32 ==> First(ShiftedBy(a, b, t), j) == Second(b, z)
  {
    ShiftedDirect(a, b, t, j);
    Regroup(j, t);
  }

  lemma ShiftedDirect(a: bv32, b: bv32, t: bv8, j: bv8)
    requires 1 <= t < 32 && j < 32
    ensures j + t < 32 ==> (((a << t) | (b >> (32 - t))) >> (31 - j)) & 1 == (a >> (31 - j - t)) & 1
    ensures j + t >= 32 ==> (((a << t) | (b >> (32 - t))) >> (31 - j)) & 1 == (b >> (63 - j - t)) & 1
  {
  }

  lemma SmallNumber(n: nat)
    requires n < 64
    ensures (n as bv8) as nat == n && n as bv8 < 64
  {
    RoundTrip(n);
    Below(n, 64, 64);
  }

  lemma SmallSum(y: bv8, x: bv8) returns (z: bv8)
    requires y < 32 && 1 <= x < 32
    ensures SumIs(z, y, x) && z as nat == (y as nat) + (x as nat) && z < 64
  {
    z := y + x;
  }

  lemma SmallDifference(n: bv8, t: bv8)
    requires t <= n < 64
    ensures (n - t) as nat == (n as nat) - (t as nat)
  {
  }

  lemma DifferenceBack(n: nat, x: bv8, k: nat, y: bv8)
    requires n <= k < 64 && x as nat == n && y as nat == k && x < 64 && y < 64
    ensures (k - n) as bv8 == y - x
  {
    hide *;
    ByteOrder(x, y);
    SmallDifference(y, x);
    NumberBack(y - x);
  }

  /** The bits of a shifted pair of words. */
  lemma ShiftedBit(a: bv32, b: bv32, t: nat, j: nat)
    requires 1 <= t < 32 && j < 32
    ensures WordBit(Shifted(a, b, t), j) == if j + t < 32 then WordBit(a, j + t) else WordBit(b, j + t - 32)
  {
    hide *;
    var x, y := t as bv8, j as bv8;
    SmallNumber(t);
    SmallNumber(j);
    Bounds(t, x);
    Bounds(j, y);
    var z := SmallSum(y, x);
    ShiftedIs(a, b, t);
    WordBitIs(Shifted(a, b, t), j, y);
    ShiftedAt(a, b, x, y, z);
    Threshold(z, j + t);
    if j + t < 32 {
      WordBitIs(a, j + t, z);
    } else {
      WordBitOver(b, j + t, z);
    }
  }

  lemma Threshold(x: bv8, n: nat)
    requires x as nat == n
    ensures n < 32 <==> x < 32
  {
  }

  lemma Bounds(n: nat, x: bv8)
    requires n < 32 && x as nat == n
    ensures x < 32 && (1 <= n ==> 1 <= x)
  {
  }

  lemma Regroup(y: bv8, x: bv8)
    ensures 31 - y - x == 31 - (y + x) && 63 - y - x == 63 - (y + x)
  {
  }

  lemma ShiftedIs(a: bv32, b: bv32, t: nat)
    requires 1 <= t < 32
    ensures t as bv8 < 32 && 1 <= t as bv8 && Shifted(a, b, t) == ShiftedBy(a, b, t as bv8)
  {
    hide Shifted, ShiftedBy;
    Below(t, 32, 32);
    Below(t, 1, 1);
    ShiftedUnfold(a, b, t, t as bv8);
  }

  lemma ShiftedUnfold(a: bv32, b: bv32, t: nat, x: bv8)
    requires 1 <= t < 32 && 1 <= x < 32 && x == t as bv8
    ensures Shifted(a, b, t) == ShiftedBy(a, b, x)
  {
  }

  lemma WordBitIs(w: bv32, j: nat, y: bv8)
    requires j < 32 && y as nat == j && y < 64
    ensures WordBit(w, j) == First(w, y)
  {
    Threshold(y, j);
    LiteralNumber(31, 31);
    DifferenceBack(j, y, 31, 31);
  }

  lemma LiteralNumber(n: nat, x: bv8)
    requires n < 64 && (n == 31 ==> x == 31) && (n == 63 ==> x == 63)
    ensures n == 31 ==> x as nat == n
    ensures n == 63 ==> x as nat == n
  {
  }

  lemma WordBitOver(w: bv32, j: nat, y: bv8)
    requires 32 <= j < 64 && y as nat == j && y < 64
    ensures WordBit(w, j - 32) == Second(w, y)
  {
    Threshold(y, j);
    LiteralNumber(63, 63);
    DifferenceBack(j, y, 63, 63);
    assert 31 - (j - 32) == 63 - j;
  }

  lemma OrAt(a: bv32, b: bv32, s: bv8)
    requires s < 32
    ensures LowBitOfWord(a | b, s) == (LowBitOfWord(a, s) || LowBitOfWord(b, s))
  {
  }

  lemma WordBitOr(a: bv32, b: bv32, j: nat)
    requires j < 32
    ensures WordBit(a | b, j) == (WordBit(a, j) || WordBit(b, j))
  {
    hide WordBit;
    var s := (31 - j) as bv8;
    Below(31 - j, 32, 32);
    OrAt(a, b, s);
    WordBitIsLow(a, j, s);
    WordBitIsLow(b, j, s);
    WordBitIsLow(a | b, j, s);
  }

  /** A word shifted up with zeros behind it. */
  lemma ShiftedAlone(w: bv32, t: nat, j: nat)
    requires 1 <= t < 32 && j < 32
    ensures WordBit(Shifted(w, 0, t), j) == (j + t < 32 && WordBit(w, j + t))
  {
    hide *;
    ShiftedBit(w, 0, t, j);
    if j + t >= 32 {
      WordBitXor(0, 0, j + t - 32);
    }
  }

  /** The lowest bit of a word alone. */
  lemma LowestBit(w: bv32, j: nat)
    requires j < 32
    ensures WordBit(w & 1, j) == (j == 31 && WordBit(w, 31))
  {
    hide WordBit;
    var s := (31 - j) as bv8;
    Below(31 - j, 32, 32);
    RoundTrip(31 - j);
    LowestAt(w, s);
    WordBitIsLow(w & 1, j, s);
    WordBitIsLow(w, j, s);
    assert s == 0 <==> j == 31;
  }

  lemma LowestAt(w: bv32, s: bv8)
    requires s < 32
    ensures LowBitOfWord(w & 1, s) == (s == 0 && LowBitOfWord(w, 0))
  {
  }
}
