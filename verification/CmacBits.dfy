/** AES-CMAC said in bits (section 2.4 of RFC 4493): which blocks go through the cipher, one after
    the other, and the bits of the header that EIA2 puts in front of a message. */
module CmacBits {
  import opened OctetBits
  import opened Snow3g
  import opened WordBits
  import opened XorWords
  import opened Eia2

  /** Bit b of twice a block: the next bit, and when the first bit is set the four low bits of the
      reduction, 1000 0111. */
  predicate TwiceBit(s: seq<bv8>, b: nat)
    requires |s| == 16 && b < 128
  {
    (b < 127 && BitAt(s, b + 1)) != (BitAt(s, 0) && (b == 120 || b >= 125))
  }

  /** Bit m of a message that a single one follows, and then zeros. */
  predicate PaddedBit(bits: seq<bool>, m: nat) {
    if m < |bits| then bits[m] else m == |bits|
  }

  /** A block and a chain of blocks, as sixteen octets each. */
  predicate BlocksOf16(xs: seq<seq<bv8>>) {
    forall i :: 0 <= i < |xs| ==> |xs[i]| == 16
  }

  /** The inputs and outputs of the cipher in one computation of the code. Output 0 is zero;
      every input is the output before it with the block of the padded message added, and to the
      last one a subkey is added too: twice the cipher of zero when the message ends with its
      block, and four times it when padding was needed. */
  ghost predicate IsRun(e: Cipher, key: seq<bv8>, bits: seq<bool>, k1: seq<bv8>, k2: seq<bv8>, xs: seq<seq<bv8>>, c: seq<seq<bv8>>)
    requires BlockCipher(e)
  {
    var n := (|bits| + 127) / 128;
    var l := e(key, seq(16, _ => 0));
    && |k1| == 16 && |k2| == 16 && |xs| == n && |c| == n + 1 && BlocksOf16(xs) && BlocksOf16(c)
    && (forall b :: 0 <= b < 128 ==> BitAt(k1, b) == TwiceBit(l, b))
    && (forall b :: 0 <= b < 128 ==> BitAt(k2, b) == TwiceBit(k1, b))
    && (forall b :: 0 <= b < 128 ==> !BitAt(c[0], b))
    && (forall i :: 0 <= i < n ==> c[i + 1] == e(key, xs[i]))
    && (forall i, b :: 0 <= i < n && 0 <= b < 128 ==> BitAt(xs[i], b) == InputBit(bits, k1, k2, c[i], i, b))
  }

  predicate InputBit(bits: seq<bool>, k1: seq<bv8>, k2: seq<bv8>, before: seq<bv8>, i: nat, b: nat)
    requires |k1| == 16 && |k2| == 16 && |before| == 16 && b < 128
  {
    (BitAt(before, b) != PaddedBit(bits, 128 * i + b))
    != (128 * (i + 1) >= |bits| && BitAt(if |bits| % 128 == 0 then k1 else k2, b))
  }

  // --- the octet-wise steps in bits ---

  lemma CarriedBit(x: bv8, next: bv8, r: nat)
    requires r < 8
    ensures BitOf(Carried(x, next), r) == if r < 7 then BitOf(x, r + 1) else BitOf(next, 0)
  {
  }

  lemma LastDoubledBit(first: bv8, last: bv8, r: nat)
    requires r < 8
    ensures BitOf(LastDoubled(first, last), r) == ((r < 7 && BitOf(last, r + 1)) != (BitOf(first, 0) && (r == 0 || r >= 5)))
  {
  }

  lemma DoubledBit(s: seq<bv8>, b: nat)
    requires |s| == 16 && b < 128
    ensures BitAt(Doubled(s), b) == TwiceBit(s, b)
  {
    hide BitOf, Carried, LastDoubled;
    var k, r := b / 8, b % 8;
    assert r < 7 ==> (b + 1) / 8 == k && (b + 1) % 8 == r + 1;
    if k < 15 {
      CarriedBit(s[k], s[k + 1], r);
      assert r == 7 ==> (b + 1) / 8 == k + 1 && (b + 1) % 8 == 0;
    } else {
      LastDoubledBit(s[0], s[15], r);
      assert b == 120 + r;
    }
  }

  lemma XorBlockBit(a: seq<bv8>, b: seq<bv8>, j: nat)
    requires |a| == 16 && |b| == 16 && j < 128
    ensures BitAt(XorBlock(a, b), j) == (BitAt(a, j) != BitAt(b, j))
  {
    hide BitOf, Xor8;
    XorBlockAt(a, b, j / 8);
    BitOfXor(a[j / 8], b[j / 8], j % 8);
  }

  lemma BlockBit(bits: seq<bool>, i: nat, j: nat)
    requires j < 128
    ensures BitAt(Block(bits, i), j) == Has(bits, 128 * i + j)
  {
    hide BitOf, OctetOf, Has;
    OctetOfBit(bits, 16 * i + j / 8, j % 8);
    assert 8 * (16 * i + j / 8) + j % 8 == 128 * i + j;
  }

  lemma ZeroBits(b: nat)
    requires b < 128
    ensures !BitAt(ZeroBlock(), b)
  {
    ZeroOctet(b % 8);
  }

  lemma ZeroOctet(r: nat)
    requires r < 8
    ensures !BitOf(0, r)
  {
  }

  // --- the run ---

  lemma SubkeysOfRun(e: Cipher, key: seq<bv8>, bits: seq<bool>, k1: seq<bv8>, k2: seq<bv8>, xs: seq<seq<bv8>>, c: seq<seq<bv8>>)
    requires BlockCipher(e) && IsRun(e, key, bits, k1, k2, xs, c)
    ensures k1 == SubkeyOne(e, key) && k2 == Doubled(k1) && LastKey(e, key, |bits|) == if |bits| % 128 == 0 then k1 else k2
  {
    hide BitAt, TwiceBit, Doubled, InputBit, BlocksOf16;
    var l := e(key, ZeroBlock());
    assert ZeroBlock() == seq(16, _ => 0);
    forall b | 0 <= b < 128
      ensures BitAt(k1, b) == BitAt(Doubled(l), b)
    {
      DoubledBit(l, b);
    }
    SameBits(k1, Doubled(l));
    forall b | 0 <= b < 128
      ensures BitAt(k2, b) == BitAt(Doubled(k1), b)
    {
      DoubledBit(k1, b);
    }
    SameBits(k2, Doubled(k1));
  }

  lemma RunStarts(e: Cipher, key: seq<bv8>, bits: seq<bool>, k1: seq<bv8>, k2: seq<bv8>, xs: seq<seq<bv8>>, c: seq<seq<bv8>>)
    requires BlockCipher(e) && IsRun(e, key, bits, k1, k2, xs, c)
    ensures c[0] == ZeroBlock()
  {
    hide BitAt, TwiceBit, InputBit, ZeroBlock;
    forall b | 0 <= b < 128
      ensures BitAt(c[0], b) == BitAt(ZeroBlock(), b)
    {
      ZeroBits(b);
    }
    SameBits(c[0], ZeroBlock());
  }

  /** What goes into the cipher before the last block. */
  lemma InnerInput(bits: seq<bool>, k1: seq<bv8>, k2: seq<bv8>, before: seq<bv8>, x: seq<bv8>, i: nat)
    requires |k1| == 16 && |k2| == 16 && |before| == 16 && |x| == 16 && 128 * (i + 1) < |bits|
    requires forall b :: 0 <= b < 128 ==> BitAt(x, b) == InputBit(bits, k1, k2, before, i, b)
    ensures x == XorBlock(before, Block(bits, i))
  {
    hide BitAt, XorBlock, Block;
    forall b | 0 <= b < 128
      ensures BitAt(x, b) == BitAt(XorBlock(before, Block(bits, i)), b)
    {
      XorBlockBit(before, Block(bits, i), b);
      BlockBit(bits, i, b);
    }
    SameBits(x, XorBlock(before, Block(bits, i)));
  }

  lemma PaddedBits(bits: seq<bool>, m: nat)
    requires m < 128 * ((|bits| + 127) / 128)
    ensures Has(Padded(bits), m) == PaddedBit(bits, m)
  {
    if |bits| % 128 != 0 {
      PaddedHas(bits, m);
    }
  }

  lemma LastInput(bits: seq<bool>, k1: seq<bv8>, k2: seq<bv8>, before: seq<bv8>, x: seq<bv8>, i: nat, last: seq<bv8>)
    requires |k1| == 16 && |k2| == 16 && |before| == 16 && |x| == 16 && |bits| > 0 && i == (|bits| + 127) / 128 - 1
    requires last == if |bits| % 128 == 0 then k1 else k2
    requires forall b :: 0 <= b < 128 ==> BitAt(x, b) == InputBit(bits, k1, k2, before, i, b)
    ensures x == XorBlock(XorBlock(before, last), Block(Padded(bits), i))
  {
    hide BitAt, XorBlock, Block, Padded, PaddedBit;
    var y := XorBlock(XorBlock(before, last), Block(Padded(bits), i));
    forall b | 0 <= b < 128
      ensures BitAt(x, b) == BitAt(y, b)
    {
      XorBlockBit(XorBlock(before, last), Block(Padded(bits), i), b);
      XorBlockBit(before, last, b);
      BlockBit(Padded(bits), i, b);
      PaddedBits(bits, 128 * i + b);
    }
    SameBits(x, y);
  }

  lemma RunStep(e: Cipher, key: seq<bv8>, bits: seq<bool>, k1: seq<bv8>, k2: seq<bv8>, xs: seq<seq<bv8>>, c: seq<seq<bv8>>, i: nat)
    requires BlockCipher(e) && IsRun(e, key, bits, k1, k2, xs, c) && i < |xs|
    ensures |k1| == 16 && |k2| == 16 && |xs| == (|bits| + 127) / 128 && |c| == |xs| + 1 && |xs[i]| == 16 && |c[i]| == 16
    ensures c[i + 1] == e(key, xs[i]) && forall b :: 0 <= b < 128 ==> BitAt(xs[i], b) == InputBit(bits, k1, k2, c[i], i, b)
  {
    hide BitAt, TwiceBit, InputBit;
  }

  lemma {:induction false} RunIsChain(e: Cipher, key: seq<bv8>, bits: seq<bool>, k1: seq<bv8>, k2: seq<bv8>, xs: seq<seq<bv8>>,
                                      c: seq<seq<bv8>>, i: nat)
    requires BlockCipher(e) && IsRun(e, key, bits, k1, k2, xs, c) && |bits| > 0 && i < |xs|
    ensures i < |c| && c[i] == Chain(e, key, bits, i)
  {
    hide IsRun, BitAt, InputBit, Block, XorBlock, Chain, ZeroBlock;
    RunStarts(e, key, bits, k1, k2, xs, c);
    RunStep(e, key, bits, k1, k2, xs, c, i);
    ChainStep(e, key, bits, if i == 0 then 0 else i - 1);
    if i > 0 {
      RunStep(e, key, bits, k1, k2, xs, c, i - 1);
      RunIsChain(e, key, bits, k1, k2, xs, c, i - 1);
      InnerInput(bits, k1, k2, c[i - 1], xs[i - 1], i - 1);
    }
  }

  /** Whatever the run, its last output is the code. */
  lemma CmacOfRun(e: Cipher, key: seq<bv8>, bits: seq<bool>, k1: seq<bv8>, k2: seq<bv8>, xs: seq<seq<bv8>>, c: seq<seq<bv8>>)
    requires BlockCipher(e) && |bits| > 0 && IsRun(e, key, bits, k1, k2, xs, c)
    ensures |c| > 0 && c[|c| - 1] == Cmac(e, key, bits)
  {
    hide IsRun, BitAt, InputBit, Block, XorBlock, Chain, LastKey, Padded, SubkeyOne, Doubled;
    RunStep(e, key, bits, k1, k2, xs, c, 0) by { RunSize(e, key, bits, k1, k2, xs, c); }
    var i := |xs| - 1;
    RunStep(e, key, bits, k1, k2, xs, c, i);
    RunIsChain(e, key, bits, k1, k2, xs, c, i);
    SubkeysOfRun(e, key, bits, k1, k2, xs, c);
    LastInput(bits, k1, k2, c[i], xs[i], i, LastKey(e, key, |bits|));
    CmacIs(e, key, bits, i);
  }

  lemma RunSize(e: Cipher, key: seq<bv8>, bits: seq<bool>, k1: seq<bv8>, k2: seq<bv8>, xs: seq<seq<bv8>>, c: seq<seq<bv8>>)
    requires BlockCipher(e) && |bits| > 0 && IsRun(e, key, bits, k1, k2, xs, c)
    ensures |xs| == (|bits| + 127) / 128 >= 1
  {
  }

  ghost function RunInput(e: Cipher, key: seq<bv8>, bits: seq<bool>, i: nat): (x: seq<bv8>)
    requires BlockCipher(e)
    ensures |x| == 16
  {
    var c := Chain(e, key, bits, i);
    if 128 * (i + 1) < |bits| then XorBlock(c, Block(bits, i))
    else XorBlock(XorBlock(c, LastKey(e, key, |bits|)), Block(Padded(bits), i))
  }

  lemma RunInputBit(e: Cipher, key: seq<bv8>, bits: seq<bool>, i: nat, b: nat)
    requires BlockCipher(e) && |bits| > 0 && i < (|bits| + 127) / 128 && b < 128
    ensures BitAt(RunInput(e, key, bits, i), b) ==
            InputBit(bits, SubkeyOne(e, key), Doubled(SubkeyOne(e, key)), Chain(e, key, bits, i), i, b)
  {
    hide BitAt, XorBlock, Block, Padded, PaddedBit, Chain, SubkeyOne, Doubled;
    var c, last := Chain(e, key, bits, i), LastKey(e, key, |bits|);
    PaddedBits(bits, 128 * i + b);
    if 128 * (i + 1) < |bits| {
      XorBlockBit(c, Block(bits, i), b);
      BlockBit(bits, i, b);
      InnerBit(bits, 128 * i + b);
    } else {
      XorBlockBit(XorBlock(c, last), Block(Padded(bits), i), b);
      XorBlockBit(c, last, b);
      BlockBit(Padded(bits), i, b);
    }
  }

  lemma InnerBit(bits: seq<bool>, m: nat)
    requires m < |bits|
    ensures Has(bits, m) == PaddedBit(bits, m)
  {
  }

  /** There is a run for every message. */
  lemma RunExists(e: Cipher, key: seq<bv8>, bits: seq<bool>) returns (k1: seq<bv8>, k2: seq<bv8>, xs: seq<seq<bv8>>, c: seq<seq<bv8>>)
    requires BlockCipher(e) && |bits| > 0
    ensures IsRun(e, key, bits, k1, k2, xs, c)
  {
    hide BitAt, TwiceBit, InputBit, Chain, Doubled, RunInput, ZeroBlock, Block, XorBlock, Padded, LastKey;
    var n := (|bits| + 127) / 128;
    var l := e(key, seq(16, _ => 0));
    k1, k2 := SubkeyOne(e, key), Doubled(SubkeyOne(e, key));
    xs := seq(n, i requires 0 <= i < n => RunInput(e, key, bits, i));
    c := seq(n + 1, i requires 0 <= i <= n => if i == 0 then ZeroBlock() else e(key, RunInput(e, key, bits, i - 1)));
    ZeroBlockIs16();
    forall b | 0 <= b < 128
      ensures BitAt(k1, b) == TwiceBit(l, b) && BitAt(k2, b) == TwiceBit(k1, b) && !BitAt(c[0], b)
    {
      DoubledBit(l, b);
      DoubledBit(k1, b);
      ZeroBits(b);
    }
    forall i, b | 0 <= i < n && 0 <= b < 128
      ensures BitAt(xs[i], b) == InputBit(bits, k1, k2, c[i], i, b)
    {
      RunInputBit(e, key, bits, i, b);
      OutputIsChain(e, key, bits, i);
    }
  }

  lemma ZeroBlockIs16()
    ensures ZeroBlock() == seq(16, _ => 0)
  {
  }

  lemma OutputIsChain(e: Cipher, key: seq<bv8>, bits: seq<bool>, i: nat)
    requires BlockCipher(e) && |bits| > 0 && i < (|bits| + 127) / 128
    ensures Chain(e, key, bits, i) == if i == 0 then ZeroBlock() else e(key, RunInput(e, key, bits, i - 1))
  {
    hide Chain, ZeroBlock, XorBlock, Block, Padded, LastKey;
    ChainStep(e, key, bits, if i == 0 then 0 else i - 1);
  }

  // --- the header ---

  lemma FieldsOctet(bearer: bv8, direction: bv8, r: nat)
    requires r < 8
    ensures BitOf((bearer << 3) | (direction << 2), r) == ((r < 5 && BitOf(bearer, r + 3)) || (r < 6 && BitOf(direction, r + 2)))
  {
  }

  /** The count, five bits of bearer, one of direction and 26 zeros; a direction of more than one
      bit would run into the bearer. */
  lemma HeaderBits(count: bv32, bearer: bv8, direction: bv8, j: nat)
    requires j < 64
    ensures BitAt(Header(count, bearer, direction), j) ==
            if j < 32 then WordBit(count, j)
            else (j < 37 && BitOf(bearer, j - 29)) || (32 <= j < 38 && BitOf(direction, j - 30))
  {
    hide BitOf, WordBit, Byte0, Byte1, Byte2, Byte3;
    if j < 32 {
      OctetBit(count, j / 8, j % 8);
    } else if j < 40 {
      FieldsOctet(bearer, direction, j - 32);
    } else {
      ZeroOctet(j % 8);
    }
  }
}
