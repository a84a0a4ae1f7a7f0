/** What f9 builds from its inputs, in bits: the two field elements of the key, the blocks, the
    initialisation vector and the code itself (TS 35.215), each in terms of the octets and words
    that the caller passes. */
module F9Fields {
  import opened ByteNumbers
  import opened OctetBits
  import opened Snow3g
  import opened WordBits
  import opened XorWords
  import opened F9
  import G = Gf64

  // --- bits of long words ---

  predicate LowBitOfLong(w: bv64, s: bv8)
    requires s < 64
  {
    (w >> s) & 1 == 1
  }

  /** Bit j of a long word, bit 0 on top. */
  predicate LongBit(w: bv64, j: nat)
    requires j < 64
  {
    G.Bit(w, 63 - j)
  }

  lemma SumNumber64(x: bv8, y: bv8)
    requires x <= 56 && y < 32
    ensures (x + y) as nat == x as nat + y as nat
  {
  }

  /** The distance of bit j from the lower end. */
  predicate PlaceIs(j: nat, s: bv8)
    requires j < 64
  {
    s < 64 && s == (63 - j) as bv8
  }

  lemma PlaceSum(j: nat, base: bv8, s: bv8)
    requires j < 64 && base <= 56 && s < 32 && 63 - j == base as nat + s as nat
    ensures PlaceIs(j, base + s)
  {
    SumNumber64(base, s);
    NumberBack(base + s);
    SixtyThree(base + s);
  }

  lemma SixtyThree(x: bv8)
    ensures x as nat < 64 <==> x < 64
  {
  }

  lemma LongBitIs(w: bv64, j: nat, s: bv8)
    requires j < 64 && s < 64 && PlaceIs(j, s)
    ensures LongBit(w, j) == LowBitOfLong(w, s)
  {
  }

  // --- P and Q ---

  lemma UpperHalf(a: bv32, b: bv32, s: bv8)
    requires s < 32
    ensures LowBitOfLong(Pair(a, b), 32 + s) == LowBitOfWord(a, s)
  {
  }

  lemma LowerHalf(a: bv32, b: bv32, s: bv8)
    requires s < 32
    ensures LowBitOfLong(Pair(a, b), s) == LowBitOfWord(b, s)
  {
  }

  lemma PairBit(a: bv32, b: bv32, j: nat)
    requires j < 64
    ensures LongBit(Pair(a, b), j) == if j < 32 then WordBit(a, j) else WordBit(b, j - 32)
  {
    hide *;
    if j < 32 {
      var s := SmallByte(31 - j);
      PlaceSum(j, 32, s);
      LongBitIs(Pair(a, b), j, 32 + s);
      UpperHalf(a, b, s);
      WordBitIsLow(a, j, s);
    } else {
      var s := SmallByte(63 - j);
      PlaceSum(j, 0, s);
      ZeroBase(s);
      LongBitIs(Pair(a, b), j, s);
      LowerHalf(a, b, s);
      WordBitIsLow(b, j - 32, s);
    }
  }

  lemma SmallByte(n: nat) returns (s: bv8)
    requires n < 32
    ensures s < 32 && s == n as bv8 && s as nat == n
  {
    hide *;
    RoundTrip(n);
    Below(n, 32, 32);
    s := n as bv8;
  }

  lemma ZeroBase(s: bv8)
    ensures 0 + s == s
  {
  }

  /** The two elements of the field are the first 128 bits of the keystream. */
  lemma KeyBits(z: seq<bv32>, j: nat)
    requires |z| == 5 && j < 64
    ensures LongBit(Pair(z[0], z[1]), j) == StreamBit(z, j)
    ensures LongBit(Pair(z[2], z[3]), j) == StreamBit(z, 64 + j)
  {
    hide LongBit, WordBit, Pair;
    PairBit(z[0], z[1], j);
    PairBit(z[2], z[3], j);
    if j < 32 {
      assert j / 32 == 0 && j % 32 == j && (64 + j) / 32 == 2 && (64 + j) % 32 == j;
    } else {
      assert j / 32 == 1 && j % 32 == j - 32 && (64 + j) / 32 == 3 && (64 + j) % 32 == j - 32;
    }
  }

  // --- blocks ---

  lemma EightLow01(o0: bv8, o1: bv8, o2: bv8, o3: bv8, o4: bv8, o5: bv8, o6: bv8, o7: bv8, s: bv8)
    requires s < 8
    ensures LowBitOfLong(Eight(o0, o1, o2, o3, o4, o5, o6, o7), 56 + s) == LowBit(o0, s)
    ensures LowBitOfLong(Eight(o0, o1, o2, o3, o4, o5, o6, o7), 48 + s) == LowBit(o1, s)
  {
  }

  lemma EightLow23(o0: bv8, o1: bv8, o2: bv8, o3: bv8, o4: bv8, o5: bv8, o6: bv8, o7: bv8, s: bv8)
    requires s < 8
    ensures LowBitOfLong(Eight(o0, o1, o2, o3, o4, o5, o6, o7), 40 + s) == LowBit(o2, s)
    ensures LowBitOfLong(Eight(o0, o1, o2, o3, o4, o5, o6, o7), 32 + s) == LowBit(o3, s)
  {
  }

  lemma EightLow45(o0: bv8, o1: bv8, o2: bv8, o3: bv8, o4: bv8, o5: bv8, o6: bv8, o7: bv8, s: bv8)
    requires s < 8
    ensures LowBitOfLong(Eight(o0, o1, o2, o3, o4, o5, o6, o7), 24 + s) == LowBit(o4, s)
    ensures LowBitOfLong(Eight(o0, o1, o2, o3, o4, o5, o6, o7), 16 + s) == LowBit(o5, s)
  {
  }

  lemma EightLow67(o0: bv8, o1: bv8, o2: bv8, o3: bv8, o4: bv8, o5: bv8, o6: bv8, o7: bv8, s: bv8)
    requires s < 8
    ensures LowBitOfLong(Eight(o0, o1, o2, o3, o4, o5, o6, o7), 8 + s) == LowBit(o6, s)
    ensures LowBitOfLong(Eight(o0, o1, o2, o3, o4, o5, o6, o7), s) == LowBit(o7, s)
  {
  }

  /** Bit r of octet k of a block. */
  lemma EightBit(o: seq<bv8>, k: nat, r: nat)
    requires |o| == 8 && k < 8 && r < 8
    ensures LongBit(Eight(o[0], o[1], o[2], o[3], o[4], o[5], o[6], o[7]), 8 * k + r) == BitOf(o[k], r)
  {
    hide *;
    var w := Eight(o[0], o[1], o[2], o[3], o[4], o[5], o[6], o[7]);
    var base, s := OctetPlace(k, r);
    BitIsLow(o[k], r, s);
    LongBitIs(w, 8 * k + r, base + s);
    if k < 2 {
      EightLow01(o[0], o[1], o[2], o[3], o[4], o[5], o[6], o[7], s);
    } else if k < 4 {
      EightLow23(o[0], o[1], o[2], o[3], o[4], o[5], o[6], o[7], s);
    } else if k < 6 {
      EightLow45(o[0], o[1], o[2], o[3], o[4], o[5], o[6], o[7], s);
    } else {
      EightLow67(o[0], o[1], o[2], o[3], o[4], o[5], o[6], o[7], s);
      ZeroBase(s);
    }
  }

  /** Where bit r of octet k of eight lies. */
  lemma OctetPlace(k: nat, r: nat) returns (base: bv8, s: bv8)
    requires k < 8 && r < 8
    ensures s < 8 && s == (7 - r) as bv8 && PlaceIs(8 * k + r, base + s)
    ensures k == 0 ==> base == 56
    ensures k == 1 ==> base == 48
    ensures k == 2 ==> base == 40
    ensures k == 3 ==> base == 32
    ensures k == 4 ==> base == 24
    ensures k == 5 ==> base == 16
    ensures k == 6 ==> base == 8
    ensures k == 7 ==> base == 0
  {
    hide *;
    s := SmallByte(7 - r);
    Below(7 - r, 8, 8);
    base := BaseOf(k);
    PlaceSum(8 * k + r, base, s);
  }

  lemma BaseOf(k: nat) returns (base: bv8)
    requires k < 8
    ensures base <= 56 && base as nat == 56 - 8 * k
    ensures k == 0 ==> base == 56
    ensures k == 1 ==> base == 48
    ensures k == 2 ==> base == 40
    ensures k == 3 ==> base == 32
    ensures k == 4 ==> base == 24
    ensures k == 5 ==> base == 16
    ensures k == 6 ==> base == 8
    ensures k == 7 ==> base == 0
  {
    base := if k == 0 then 56 else if k == 1 then 48 else if k == 2 then 40 else if k == 3 then 32
            else if k == 4 then 24 else if k == 5 then 16 else if k == 6 then 8 else 0;
  }

  /** Bit j of block i is bit 64 i + j of the message, clear after its end. */
  lemma BlockBit(t: seq<bv8>, i: nat, j: nat)
    requires j < 64
    ensures LongBit(Block(t, i), j) == (64 * i + j < 8 * |t| && BitAt(t, 64 * i + j))
  {
    hide LongBit, BitOf, Eight;
    var k := 8 * i;
    var o := [OctetAt(t, k), OctetAt(t, k + 1), OctetAt(t, k + 2), OctetAt(t, k + 3),
              OctetAt(t, k + 4), OctetAt(t, k + 5), OctetAt(t, k + 6), OctetAt(t, k + 7)];
    EightBit(o, j / 8, j % 8);
    OctetOfList(t, k, j / 8, o);
    assert (64 * i + j) / 8 == k + j / 8 && (64 * i + j) % 8 == j % 8;
    ZeroBit(j % 8);
  }

  lemma OctetOfList(t: seq<bv8>, k: nat, n: nat, o: seq<bv8>)
    requires n < 8
    requires o == [OctetAt(t, k), OctetAt(t, k + 1), OctetAt(t, k + 2), OctetAt(t, k + 3),
                   OctetAt(t, k + 4), OctetAt(t, k + 5), OctetAt(t, k + 6), OctetAt(t, k + 7)]
    ensures o[n] == OctetAt(t, k + n)
  {
    hide OctetAt;
  }

  lemma ZeroBit(r: nat)
    requires r < 8
    ensures !BitOf(0, r)
  {
  }

  // --- the value ---

  /** A list of words as the coefficients of a polynomial in p, the last one constant,
      modulo x^64 + 0x1b. */
  ghost function Value(w: seq<bv64>, p: bv64): bv64 {
    if w == [] then 0 else Xor64(G.Product(Value(w[..|w| - 1], p), p, 0x1b), w[|w| - 1])
  }

  /** The words of a message of len bits: its blocks and then its length. */
  function MessageWords(t: seq<bv8>, len: nat): (w: seq<bv64>)
    requires len < 0x1_0000_0000_0000_0000
    ensures |w| == (len + 63) / 64 + 1
  {
    FirstBlocks(t, Blocks(len)) + [len as bv64]
  }

  function FirstBlocks(t: seq<bv8>, n: nat): (w: seq<bv64>)
    ensures |w| == n
  {
    if n == 0 then [] else FirstBlocks(t, n - 1) + [Block(t, n - 1)]
  }

  lemma ValueEnds(w: seq<bv64>, x: bv64, p: bv64)
    ensures Value([], p) == 0 && Value(w + [x], p) == Xor64(G.Product(Value(w, p), p, 0x1b), x)
  {
    hide G.Product, Xor64;
    assert (w + [x])[..|w + [x]| - 1] == w;
  }

  lemma FirstBlocksStep(t: seq<bv8>, n: nat)
    ensures FirstBlocks(t, 0) == [] && FirstBlocks(t, n + 1) == FirstBlocks(t, n) + [Block(t, n)]
  {
    hide Block;
  }

  lemma ReductionIs()
    ensures C == 0x1b
  {
  }

  lemma {:induction false} BlocksValue(t: seq<bv8>, p: bv64, n: nat)
    ensures G.Product(Value(FirstBlocks(t, n), p), p, 0x1b) == Polynomial(t, p, n, n)
  {
    hide *;
    ReductionIs();
    FirstBlocksStep(t, if n == 0 then 0 else n - 1);
    ValueEnds([], 0, p);
    PolynomialOfNothing(t, p, 0);
    if n == 0 {
      G.ProductLinearLeft(0, 0, p, 0x1b);
      Xor64Unit(0);
      Xor64Unit(G.Product(0, p, 0x1b));
    } else {
      BlocksValue(t, p, n - 1);
      ValueEnds(FirstBlocks(t, n - 1), Block(t, n - 1), p);
      HornerStep(t, p, n - 1);
    }
  }

  /** The evaluated word is the value of blocks and length at P, times Q. */
  lemma EvaluatedIsValue(t: seq<bv8>, p: bv64, q: bv64, len: nat)
    requires len < 0x1_0000_0000_0000_0000
    ensures Evaluated(t, p, q, len) == G.Product(Value(MessageWords(t, len), p), q, 0x1b)
  {
    hide G.Product, Xor64, Polynomial, Value, FirstBlocks;
    BlocksValue(t, p, Blocks(len));
    ValueEnds(FirstBlocks(t, Blocks(len)), len as bv64, p);
  }

  // --- the code ---

  lemma LongOctet01(w: bv64, s: bv8)
    requires s < 8
    ensures LowBit(Octet56(w), s) == LowBitOfLong(w, 56 + s) && LowBit(Octet48(w), s) == LowBitOfLong(w, 48 + s)
  {
  }

  lemma LongOctet23(w: bv64, s: bv8)
    requires s < 8
    ensures LowBit(Octet40(w), s) == LowBitOfLong(w, 40 + s) && LowBit(Octet32Of64(w), s) == LowBitOfLong(w, 32 + s)
  {
  }

  lemma LongOctetBit(w: bv64, k: nat, r: nat)
    requires k < 4 && r < 8
    ensures BitOf(Octet64(w, k), r) == LongBit(w, 8 * k + r)
  {
    hide *;
    var base, s := OctetPlace(k, r);
    BitIsLow(Octet64(w, k), r, s);
    LongBitIs(w, 8 * k + r, base + s);
    Octet64Is(w, k);
    LongOctet01(w, s);
    LongOctet23(w, s);
  }

  lemma Octet64Is(w: bv64, k: nat)
    requires k < 4
    ensures Octet64(w, k) == if k == 0 then Octet56(w) else if k == 1 then Octet48(w) else if k == 2 then Octet40(w) else Octet32Of64(w)
  {
    hide Octet56, Octet48, Octet40, Octet32Of64;
  }

  /** Bit j of the code is bit j of the evaluated word added to bit 128 + j of the keystream. */
  lemma MacBit(s: seq<bv8>, z: seq<bv32>, len: nat, j: nat)
    requires |z| == 5 && 1 <= len <= 8 * |s| && len < 0x1_0000_0000_0000_0000 && j < 32
    ensures var e := G.Product(Value(MessageWords(Trimmed(s, len), len), Pair(z[0], z[1])), Pair(z[2], z[3]), 0x1b);
            BitAt(Mac(s, z, len), j) == (LongBit(e, j) != StreamBit(z, 128 + j))
  {
    hide BitOf, LongBit, WordBit, WordOctet, Octet64, Xor8, G.Product, Value, MessageWords, Evaluated, Trimmed, Pair;
    var p, q := Pair(z[0], z[1]), Pair(z[2], z[3]);
    EvaluatedIsValue(Trimmed(s, len), p, q, len);
    var e := Evaluated(Trimmed(s, len), p, q, len);
    var k, r := j / 8, j % 8;
    LongOctetBit(e, k, r);
    OctetBit(z[4], k, r);
    BitOfXor(Octet64(e, k), WordOctet(z[4], k), r);
    assert (128 + j) / 32 == 4 && (128 + j) % 32 == j;
  }

  // --- the initialisation vector ---

  lemma Up15(w: bv32)
    ensures Shifted(w, 0, 15) == w << 15
  {
    hide Shifted;
    ShiftedUnfold(w, 0, 15, 15);
  }

  lemma Up31(w: bv32)
    ensures Shifted(w, 0, 31) == w << 31
  {
    hide Shifted;
    ShiftedUnfold(w, 0, 31, 31);
  }

  /** The count and the fresh number twice, with the direction added to bit 16 of the first word
      and to bit 0 of the second. */
  lemma MacIvBits(count: bv32, fresh_: bv32, direction: bv32, k: nat, j: nat)
    requires k < 4 && j < 32
    ensures WordBit(MacIv(count, fresh_, direction)[k], j) ==
            (WordBit(if k % 2 == 0 then fresh_ else count, j)
             != (if k == 0 then j + 15 < 32 && WordBit(direction, j + 15)
                 else k == 1 && j == 0 && WordBit(direction, 31)))
  {
    hide *;
    MacIvIs(count, fresh_, direction, k);
    if k == 0 {
      ShiftedAlone(direction, 15, j);
      WordBitXor(fresh_, Shifted(direction, 0, 15), j);
    } else if k == 1 {
      ShiftedAlone(direction, 31, j);
      WordBitXor(count, Shifted(direction, 0, 31), j);
    }
  }

  lemma MacIvIs(count: bv32, fresh_: bv32, direction: bv32, k: nat)
    requires k < 4
    ensures MacIv(count, fresh_, direction)[k] ==
            if k == 0 then Xor32(fresh_, Shifted(direction, 0, 15)) else if k == 1 then Xor32(count, Shifted(direction, 0, 31))
            else if k == 2 then fresh_ else count
  {
    hide Shifted;
    Up15(direction);
    Up31(direction);
  }

  // --- multiplication by x in bits ---

  lemma XorLow(v: bv64, w: bv64, s: bv8)
    requires s < 64
    ensures LowBitOfLong(Xor64(v, w), s) == (LowBitOfLong(v, s) != LowBitOfLong(w, s))
  {
    XorLowDirect(v, w, s);
    OneLow(v >> s);
    OneLow(w >> s);
  }

  lemma XorLowDirect(v: bv64, w: bv64, s: bv8)
    requires s < 64
    ensures ((v ^ w) >> s) & 1 == ((v >> s) & 1) ^ ((w >> s) & 1)
  {
  }

  lemma OneLow(v: bv64)
    ensures v & 1 == 0 || v & 1 == 1
  {
  }

  lemma DoubledLow(v: bv64, s: bv8)
    requires 0 < s < 64
    ensures LowBitOfLong(G.Doubled(v), s) == LowBitOfLong(v, s - 1)
  {
  }

  lemma DoubledEnds(v: bv64)
    ensures !LowBitOfLong(G.Doubled(v), 0) && G.Top(v) == LowBitOfLong(v, 63)
  {
  }

  lemma NoLow(s: bv8)
    requires s < 64
    ensures !LowBitOfLong(0, s)
  {
  }

  lemma ShiftedLow(v: bv64, c: bv64, s: bv8)
    requires 0 < s < 64
    ensures LowBitOfLong(G.Mul64x(v, c), s) == (LowBitOfLong(v, s - 1) != (LowBitOfLong(v, 63) && LowBitOfLong(c, s)))
  {
    hide *;
    G.Mul64xIs(v, c);
    XorLow(G.Doubled(v), if G.Top(v) then c else 0, s);
    DoubledLow(v, s);
    DoubledEnds(v);
    NoLow(s);
  }

  lemma LowestShifted(v: bv64, c: bv64)
    ensures LowBitOfLong(G.Mul64x(v, c), 0) == (LowBitOfLong(v, 63) && LowBitOfLong(c, 0))
  {
    hide *;
    G.Mul64xIs(v, c);
    XorLow(G.Doubled(v), if G.Top(v) then c else 0, 0);
    DoubledEnds(v);
    NoLow(0);
  }

  lemma BitIsLowOfLong(w: bv64, i: nat)
    requires i < 64
    ensures i as bv8 < 64 && G.Bit(w, i) == LowBitOfLong(w, i as bv8)
  {
    Below(i, 64, 64);
  }

  /** Multiplication by x moves every coefficient up and adds the reduction when the top one
      leaves. */
  lemma Mul64xBits(v: bv64, c: bv64, i: nat)
    requires i < 64
    ensures G.Bit(G.Mul64x(v, c), i) == ((i > 0 && G.Bit(v, i - 1)) != (G.Bit(v, 63) && G.Bit(c, i)))
  {
    hide *;
    BitIsLowOfLong(G.Mul64x(v, c), i);
    BitIsLowOfLong(c, i);
    BitIsLowOfLong(v, 63);
    LiteralTop();
    if i == 0 {
      LowestShifted(v, c);
    } else {
      BitIsLowOfLong(v, i - 1);
      Next(i - 1);
      PositiveByte(i);
      ShiftedLow(v, c, i as bv8);
    }
  }

  lemma LiteralTop()
    ensures 63 as bv8 == 63 && 0 as bv8 == 0
  {
  }

  lemma PositiveByte(i: nat)
    requires 0 < i < 64
    ensures 0 < i as bv8 < 64 && (i as bv8) - 1 == (i - 1) as bv8
  {
    hide *;
    Below(i, 0, 0);
    Below(i, 64, 64);
    Next(i - 1);
    Undone((i - 1) as bv8);
  }

  lemma Undone(x: bv8)
    ensures (x + 1) - 1 == x
  {
  }
}
