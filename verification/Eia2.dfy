/** 128-EIA2 on octets and on unpacked bits: both are the AES-CMAC of the header followed by
    the message, with the block cipher as a parameter (sections 2.3 and 2.4 of RFC 4493). */
module Eia2 {
  import opened OctetBits
  import opened Snow3g
  import Eea1
  import opened XorWords

  /** The block cipher: key and block of sixteen octets. */
  type Cipher = (seq<bv8>, seq<bv8>) -> seq<bv8>

  // --- bit strings as octets ---

  predicate Has(bits: seq<bool>, n: nat) {
    n < |bits| && bits[n]
  }

  function Or8(a: bv8, b: bv8): bv8 {
    a | b
  }

  /** Bit b moved up by n places. */
  function Raised(b: bv8, n: nat): bv8
    requires n < 8
  {
    b << n
  }

  function Digit(b: bool): bv8 {
    if b then 1 else 0
  }

  /** The first r bits of octet k, the others zero. */
  function FirstBits(bits: seq<bool>, k: nat, r: nat): bv8
    requires r <= 8
  {
    if r == 0 then 0 else Or8(FirstBits(bits, k, r - 1), Raised(Digit(Has(bits, 8 * k + r - 1)), 8 - r))
  }

  /** Octet k of a bit string, zero after its end. */
  function OctetOf(bits: seq<bool>, k: nat): bv8 {
    FirstBits(bits, k, 8)
  }

  lemma FirstBitsStep(bits: seq<bool>, k: nat, r: nat)
    requires r < 8
    ensures FirstBits(bits, k, 0) == 0
    ensures FirstBits(bits, k, r + 1) == Or8(FirstBits(bits, k, r), Raised(Digit(Has(bits, 8 * k + r)), 7 - r))
  {
    hide Or8, Raised, Digit, Has;
  }

  lemma OrNothing(x: bv8, n: nat)
    requires n < 8
    ensures Or8(x, Raised(Digit(false), n)) == x
  {
  }

  /** Bits after the end of the string add nothing. */
  lemma {:induction false} FirstBitsWhole(bits: seq<bool>, k: nat, r: nat)
    requires r <= 8 && (|bits| <= 8 * k + r || r == 8)
    ensures FirstBits(bits, k, r) == OctetOf(bits, k)
    decreases 8 - r
  {
    hide FirstBits, Or8, Raised, Digit;
    if r < 8 {
      FirstBitsWhole(bits, k, r + 1);
      FirstBitsStep(bits, k, r);
      OrNothing(FirstBits(bits, k, r), 7 - r);
    }
  }

  lemma {:induction false} FirstBitsSame(a: seq<bool>, b: seq<bool>, k: nat, r: nat)
    requires r <= 8 && forall n :: 8 * k <= n < 8 * k + r ==> Has(a, n) == Has(b, n)
    ensures FirstBits(a, k, r) == FirstBits(b, k, r)
  {
    hide Or8, Raised, Digit, Has;
    if r > 0 {
      FirstBitsSame(a, b, k, r - 1);
    }
  }

  lemma OctetOfSame(a: seq<bool>, b: seq<bool>, k: nat)
    requires forall n :: 8 * k <= n < 8 * k + 8 ==> Has(a, n) == Has(b, n)
    ensures OctetOf(a, k) == OctetOf(b, k)
  {
    hide FirstBits, Has;
    FirstBitsSame(a, b, k, 8);
  }

  lemma BitOfOr(a: bv8, b: bv8, r: nat)
    requires r < 8
    ensures BitOf(Or8(a, b), r) == (BitOf(a, r) || BitOf(b, r))
    ensures !BitOf(0, r)
  {
    OrDirect(a, b, 1 << (7 - r));
  }

  lemma OrDirect(a: bv8, b: bv8, m: bv8)
    ensures (a | b) & m == (a & m) | (b & m)
    ensures (a & m) | (b & m) == 0 <==> a & m == 0 && b & m == 0
  {
  }

  lemma BitOfRaised(d: bool, n: nat, r: nat)
    requires r < 8 && n < 8
    ensures BitOf(Raised(Digit(d), n), r) == (d && n + r == 7)
  {
  }

  lemma {:induction false} FirstBitsBit(bits: seq<bool>, k: nat, n: nat, r: nat)
    requires n <= 8 && r < 8
    ensures BitOf(FirstBits(bits, k, n), r) == (r < n && Has(bits, 8 * k + r))
  {
    hide Or8, Raised, Digit, Has, BitOf, FirstBits;
    FirstBitsStep(bits, k, if n == 0 then 0 else n - 1);
    BitOfOr(0, 0, r);
    if n > 0 {
      FirstBitsBit(bits, k, n - 1, r);
      BitOfOr(FirstBits(bits, k, n - 1), Raised(Digit(Has(bits, 8 * k + n - 1)), 8 - n), r);
      BitOfRaised(Has(bits, 8 * k + n - 1), 8 - n, r);
    }
  }

  /** Bit r of octet k is bit 8 k + r of the string. */
  lemma OctetOfBit(bits: seq<bool>, k: nat, r: nat)
    requires r < 8
    ensures BitOf(OctetOf(bits, k), r) == Has(bits, 8 * k + r)
  {
    hide FirstBits, Has, BitOf;
    FirstBitsBit(bits, k, 8, r);
  }

  /** The bits of a string of octets. */
  function BitsOf(s: seq<bv8>): (b: seq<bool>)
    ensures |b| == 8 * |s|
  {
    seq(8 * |s|, j requires 0 <= j < 8 * |s| => BitAt(s, j))
  }

  lemma BitOfBits(s: seq<bv8>, k: nat, r: nat)
    requires k < |s| && r < 8
    ensures Has(BitsOf(s), 8 * k + r) == BitOf(s[k], r)
  {
    hide BitOf;
    assert (8 * k + r) / 8 == k && (8 * k + r) % 8 == r;
  }

  lemma OctetOfBits(s: seq<bv8>, k: nat)
    requires k < |s|
    ensures OctetOf(BitsOf(s), k) == s[k]
  {
    hide BitOf, BitsOf, OctetOf, Has;
    forall r | 0 <= r < 8
      ensures BitOf(OctetOf(BitsOf(s), k), r) == BitOf(s[k], r)
    {
      OctetOfBit(BitsOf(s), k, r);
      BitOfBits(s, k, r);
    }
    BitsDecide(OctetOf(BitsOf(s), k), s[k]);
  }

  // --- subkeys ---

  /** Doubling in GF(2^128). */
  function Double(x: bv128): bv128 {
    if x & 0x8000_0000_0000_0000_0000_0000_0000_0000 != 0 then (x << 1) ^ 0x87 else x << 1
  }

  /** A block as one number, first octet on top. */
  function Number(s: seq<bv8>): bv128
    requires |s| == 16
  {
    Number16(s[0], s[1], s[2], s[3], s[4], s[5], s[6], s[7], s[8], s[9], s[10], s[11], s[12], s[13], s[14], s[15])
  }

  function Number16(o0: bv8, o1: bv8, o2: bv8, o3: bv8, o4: bv8, o5: bv8, o6: bv8, o7: bv8,
                    o8: bv8, o9: bv8, o10: bv8, o11: bv8, o12: bv8, o13: bv8, o14: bv8, o15: bv8): bv128
  {
    ((o0 as bv128) << 120) | ((o1 as bv128) << 112) | ((o2 as bv128) << 104) | ((o3 as bv128) << 96)
    | ((o4 as bv128) << 88) | ((o5 as bv128) << 80) | ((o6 as bv128) << 72) | ((o7 as bv128) << 64)
    | ((o8 as bv128) << 56) | ((o9 as bv128) << 48) | ((o10 as bv128) << 40) | ((o11 as bv128) << 32)
    | ((o12 as bv128) << 24) | ((o13 as bv128) << 16) | ((o14 as bv128) << 8) | (o15 as bv128)
  }

  /** An octet shifted left, taking the top bit of the next one. */
  function Carried(x: bv8, next: bv8): bv8 {
    (x << 1) | ((next >> 7) & 1)
  }

  function LastDoubled(first: bv8, last: bv8): bv8 {
    if first & 0x80 != 0 then (last << 1) ^ 0x87 else last << 1
  }

  /** The octet-wise doubling of the source. */
  function Doubled(s: seq<bv8>): (t: seq<bv8>)
    requires |s| == 16
    ensures |t| == 16
  {
    seq(16, i requires 0 <= i < 16 => if i < 15 then Carried(s[i], s[i + 1]) else LastDoubled(s[0], s[15]))
  }

  lemma ShiftDirect(o0: bv8, o1: bv8, o2: bv8, o3: bv8, o4: bv8, o5: bv8, o6: bv8, o7: bv8,
                    o8: bv8, o9: bv8, o10: bv8, o11: bv8, o12: bv8, o13: bv8, o14: bv8, o15: bv8)
    ensures var c0, c1, c2 := (o0 << 1) | ((o1 >> 7) & 1), (o1 << 1) | ((o2 >> 7) & 1), (o2 << 1) | ((o3 >> 7) & 1);
            var c3, c4, c5 := (o3 << 1) | ((o4 >> 7) & 1), (o4 << 1) | ((o5 >> 7) & 1), (o5 << 1) | ((o6 >> 7) & 1);
            var c6, c7, c8 := (o6 << 1) | ((o7 >> 7) & 1), (o7 << 1) | ((o8 >> 7) & 1), (o8 << 1) | ((o9 >> 7) & 1);
            var c9, c10, c11 := (o9 << 1) | ((o10 >> 7) & 1), (o10 << 1) | ((o11 >> 7) & 1), (o11 << 1) | ((o12 >> 7) & 1);
            var c12, c13, c14 := (o12 << 1) | ((o13 >> 7) & 1), (o13 << 1) | ((o14 >> 7) & 1), (o14 << 1) | ((o15 >> 7) & 1);
            var c15 := o15 << 1;
            ((c0 as bv128) << 120) | ((c1 as bv128) << 112) | ((c2 as bv128) << 104) | ((c3 as bv128) << 96)
            | ((c4 as bv128) << 88) | ((c5 as bv128) << 80) | ((c6 as bv128) << 72) | ((c7 as bv128) << 64)
            | ((c8 as bv128) << 56) | ((c9 as bv128) << 48) | ((c10 as bv128) << 40) | ((c11 as bv128) << 32)
            | ((c12 as bv128) << 24) | ((c13 as bv128) << 16) | ((c14 as bv128) << 8) | (c15 as bv128)
            == (((o0 as bv128) << 120) | ((o1 as bv128) << 112) | ((o2 as bv128) << 104) | ((o3 as bv128) << 96)
               | ((o4 as bv128) << 88) | ((o5 as bv128) << 80) | ((o6 as bv128) << 72) | ((o7 as bv128) << 64)
               | ((o8 as bv128) << 56) | ((o9 as bv128) << 48) | ((o10 as bv128) << 40) | ((o11 as bv128) << 32)
               | ((o12 as bv128) << 24) | ((o13 as bv128) << 16) | ((o14 as bv128) << 8) | (o15 as bv128)) << 1
  {
  }

  lemma ReduceDirect(o0: bv8, o1: bv8, o2: bv8, o3: bv8, o4: bv8, o5: bv8, o6: bv8, o7: bv8,
                     o8: bv8, o9: bv8, o10: bv8, o11: bv8, o12: bv8, o13: bv8, o14: bv8, o15: bv8)
    ensures var r := o15 ^ 0x87;
            ((o0 as bv128) << 120) | ((o1 as bv128) << 112) | ((o2 as bv128) << 104) | ((o3 as bv128) << 96)
            | ((o4 as bv128) << 88) | ((o5 as bv128) << 80) | ((o6 as bv128) << 72) | ((o7 as bv128) << 64)
            | ((o8 as bv128) << 56) | ((o9 as bv128) << 48) | ((o10 as bv128) << 40) | ((o11 as bv128) << 32)
            | ((o12 as bv128) << 24) | ((o13 as bv128) << 16) | ((o14 as bv128) << 8) | (r as bv128)
            == (((o0 as bv128) << 120) | ((o1 as bv128) << 112) | ((o2 as bv128) << 104) | ((o3 as bv128) << 96)
               | ((o4 as bv128) << 88) | ((o5 as bv128) << 80) | ((o6 as bv128) << 72) | ((o7 as bv128) << 64)
               | ((o8 as bv128) << 56) | ((o9 as bv128) << 48) | ((o10 as bv128) << 40) | ((o11 as bv128) << 32)
               | ((o12 as bv128) << 24) | ((o13 as bv128) << 16) | ((o14 as bv128) << 8) | (o15 as bv128)) ^ 0x87
  {
  }

  lemma ShiftNumber(o0: bv8, o1: bv8, o2: bv8, o3: bv8, o4: bv8, o5: bv8, o6: bv8, o7: bv8,
                  o8: bv8, o9: bv8, o10: bv8, o11: bv8, o12: bv8, o13: bv8, o14: bv8, o15: bv8)
    ensures Number16((o0 << 1) | ((o1 >> 7) & 1), (o1 << 1) | ((o2 >> 7) & 1), (o2 << 1) | ((o3 >> 7) & 1),
                     (o3 << 1) | ((o4 >> 7) & 1), (o4 << 1) | ((o5 >> 7) & 1), (o5 << 1) | ((o6 >> 7) & 1),
                     (o6 << 1) | ((o7 >> 7) & 1), (o7 << 1) | ((o8 >> 7) & 1), (o8 << 1) | ((o9 >> 7) & 1),
                     (o9 << 1) | ((o10 >> 7) & 1), (o10 << 1) | ((o11 >> 7) & 1), (o11 << 1) | ((o12 >> 7) & 1),
                     (o12 << 1) | ((o13 >> 7) & 1), (o13 << 1) | ((o14 >> 7) & 1), (o14 << 1) | ((o15 >> 7) & 1), o15 << 1)
            == Number16(o0, o1, o2, o3, o4, o5, o6, o7, o8, o9, o10, o11, o12, o13, o14, o15) << 1
  {
    ShiftDirect(o0, o1, o2, o3, o4, o5, o6, o7, o8, o9, o10, o11, o12, o13, o14, o15);
  }

  lemma Shifted16(o0: bv8, o1: bv8, o2: bv8, o3: bv8, o4: bv8, o5: bv8, o6: bv8, o7: bv8,
                  o8: bv8, o9: bv8, o10: bv8, o11: bv8, o12: bv8, o13: bv8, o14: bv8, o15: bv8)
    ensures Number16(Carried(o0, o1), Carried(o1, o2), Carried(o2, o3), Carried(o3, o4), Carried(o4, o5), Carried(o5, o6),
                     Carried(o6, o7), Carried(o7, o8), Carried(o8, o9), Carried(o9, o10), Carried(o10, o11), Carried(o11, o12),
                     Carried(o12, o13), Carried(o13, o14), Carried(o14, o15), o15 << 1)
            == Number16(o0, o1, o2, o3, o4, o5, o6, o7, o8, o9, o10, o11, o12, o13, o14, o15) << 1
  {
    hide Number16;
    ShiftNumber(o0, o1, o2, o3, o4, o5, o6, o7, o8, o9, o10, o11, o12, o13, o14, o15);
  }

  lemma Reduced16(o0: bv8, o1: bv8, o2: bv8, o3: bv8, o4: bv8, o5: bv8, o6: bv8, o7: bv8,
                  o8: bv8, o9: bv8, o10: bv8, o11: bv8, o12: bv8, o13: bv8, o14: bv8, o15: bv8)
    ensures Number16(o0, o1, o2, o3, o4, o5, o6, o7, o8, o9, o10, o11, o12, o13, o14, o15 ^ 0x87) == Number16(o0, o1, o2, o3, o4, o5, o6, o7, o8, o9, o10, o11, o12, o13, o14, o15) ^ 0x87
  {
    ReduceDirect(o0, o1, o2, o3, o4, o5, o6, o7, o8, o9, o10, o11, o12, o13, o14, o15);
  }

  lemma TopOf16(o0: bv8, o1: bv8, o2: bv8, o3: bv8, o4: bv8, o5: bv8, o6: bv8, o7: bv8,
                o8: bv8, o9: bv8, o10: bv8, o11: bv8, o12: bv8, o13: bv8, o14: bv8, o15: bv8)
    ensures (Number16(o0, o1, o2, o3, o4, o5, o6, o7, o8, o9, o10, o11, o12, o13, o14, o15) & 0x8000_0000_0000_0000_0000_0000_0000_0000 != 0) == (o0 & 0x80 != 0)
  {
  }

  lemma Doubled16(o0: bv8, o1: bv8, o2: bv8, o3: bv8, o4: bv8, o5: bv8, o6: bv8, o7: bv8,
                  o8: bv8, o9: bv8, o10: bv8, o11: bv8, o12: bv8, o13: bv8, o14: bv8, o15: bv8)
    ensures Number16(Carried(o0, o1), Carried(o1, o2), Carried(o2, o3), Carried(o3, o4), Carried(o4, o5), Carried(o5, o6),
                     Carried(o6, o7), Carried(o7, o8), Carried(o8, o9), Carried(o9, o10), Carried(o10, o11), Carried(o11, o12),
                     Carried(o12, o13), Carried(o13, o14), Carried(o14, o15), LastDoubled(o0, o15))
            == Double(Number16(o0, o1, o2, o3, o4, o5, o6, o7, o8, o9, o10, o11, o12, o13, o14, o15))
  {
    hide Number16, Carried;
    Shifted16(o0, o1, o2, o3, o4, o5, o6, o7, o8, o9, o10, o11, o12, o13, o14, o15);
    Reduced16(Carried(o0, o1), Carried(o1, o2), Carried(o2, o3), Carried(o3, o4), Carried(o4, o5), Carried(o5, o6),
              Carried(o6, o7), Carried(o7, o8), Carried(o8, o9), Carried(o9, o10), Carried(o10, o11), Carried(o11, o12),
              Carried(o12, o13), Carried(o13, o14), Carried(o14, o15), o15 << 1);
    TopOf16(o0, o1, o2, o3, o4, o5, o6, o7, o8, o9, o10, o11, o12, o13, o14, o15);
  }

  /** Shifting octet by octet is doubling in GF(2^128). */
  lemma DoubledIsDouble(s: seq<bv8>)
    requires |s| == 16
    ensures Number(Doubled(s)) == Double(Number(s))
  {
    hide Number16, Carried, LastDoubled, Double;
    Doubled16(s[0], s[1], s[2], s[3], s[4], s[5], s[6], s[7], s[8], s[9], s[10], s[11], s[12], s[13], s[14], s[15]);
  }

  // --- the code of a bit string ---

  function Zeros(n: nat): (b: seq<bool>)
    ensures |b| == n
  {
    seq(n, i => false)
  }

  /** A bit string padded with a one and zeros to whole blocks, unless it is whole already. */
  function Padded(bits: seq<bool>): (p: seq<bool>)
    ensures |bits| <= |p| && |p| % 128 == 0
  {
    if |bits| % 128 == 0 then bits else bits + [true] + Zeros(127 - |bits| % 128)
  }

  /** The number of blocks of a message that is not empty. */
  function BlockCount(len: nat): nat {
    (len + 127) / 128
  }

  /** Block i of a bit string. */
  function Block(bits: seq<bool>, i: nat): (b: seq<bv8>)
    ensures |b| == 16
  {
    seq(16, j requires 0 <= j < 16 => OctetOf(bits, 16 * i + j))
  }

  function XorBlock(a: seq<bv8>, b: seq<bv8>): (c: seq<bv8>)
    requires |a| == 16 && |b| == 16
    ensures |c| == 16
  {
    seq(16, j requires 0 <= j < 16 => Xor8(a[j], b[j]))
  }

  function ZeroBlock(): (b: seq<bv8>)
    ensures |b| == 16
  {
    seq(16, j => 0)
  }

  ghost predicate BlockCipher(e: Cipher) {
    forall k, b :: |e(k, b)| == 16
  }

  /** The chaining value after n blocks. */
  ghost function Chain(e: Cipher, key: seq<bv8>, bits: seq<bool>, n: nat): (t: seq<bv8>)
    requires BlockCipher(e)
    ensures |t| == 16
  {
    if n == 0 then ZeroBlock() else e(key, XorBlock(Chain(e, key, bits, n - 1), Block(bits, n - 1)))
  }

  ghost function SubkeyOne(e: Cipher, key: seq<bv8>): (k: seq<bv8>)
    requires BlockCipher(e)
    ensures |k| == 16
  {
    Doubled(e(key, ZeroBlock()))
  }

  /** The subkey for the last block: the first when it is whole, the second when it is padded. */
  ghost function LastKey(e: Cipher, key: seq<bv8>, len: nat): (k: seq<bv8>)
    requires BlockCipher(e)
    ensures |k| == 16
  {
    if len % 128 == 0 then SubkeyOne(e, key) else Doubled(SubkeyOne(e, key))
  }

  /** The cipher-based code of a bit string that is not empty. */
  ghost function Cmac(e: Cipher, key: seq<bv8>, bits: seq<bool>): (t: seq<bv8>)
    requires BlockCipher(e) && |bits| > 0
    ensures |t| == 16
  {
    var n := BlockCount(|bits|);
    var x := Chain(e, key, bits, n - 1);
    e(key, XorBlock(XorBlock(x, LastKey(e, key, |bits|)), Block(Padded(bits), n - 1)))
  }

  /** The eight octets that precede the message. */
  function Header(count: bv32, bearer: bv8, direction: bv8): (h: seq<bv8>)
    ensures |h| == 8
  {
    [Byte0(count), Byte1(count), Byte2(count), Byte3(count), (bearer << 3) | (direction << 2), 0, 0, 0]
  }

  /** Two strings that need padding pad alike only when they are the same. */
  lemma PaddedInjective(a: seq<bool>, b: seq<bool>)
    requires |a| % 128 != 0 && |b| % 128 != 0 && Padded(a) == Padded(b)
    ensures a == b
  {
    if |a| < |b| {
      PaddedEnd(a, b);
    } else if |b| < |a| {
      PaddedEnd(b, a);
    } else {
      assert a == Padded(a)[..|a|];
      assert b == Padded(b)[..|b|];
    }
  }

  lemma PaddedEnd(a: seq<bool>, b: seq<bool>)
    requires |a| % 128 != 0 && |b| % 128 != 0 && |a| < |b|
    ensures Padded(a) != Padded(b)
  {
    if |b| < |Padded(a)| {
      assert Padded(b)[|b|] && !Padded(a)[|b|];
    }
  }

  // --- octets of padded messages ---

  lemma PaddedHas(bits: seq<bool>, n: nat)
    requires |bits| % 128 != 0
    ensures Has(Padded(bits), n) == (if n == |bits| then true else Has(bits, n))
  {
  }

  /** The octet that takes the padding bit, and those that do not. */
  lemma PaddedOctet(bits: seq<bool>, k: nat, r: nat, m: nat)
    requires |bits| % 128 != 0 && |bits| == 8 * k + r && r < 8
    ensures m != k ==> OctetOf(Padded(bits), m) == OctetOf(bits, m)
    ensures OctetOf(Padded(bits), k) == Or8(OctetOf(bits, k), Raised(1, 7 - r))
  {
    hide OctetOf, FirstBits, Or8, Raised, Padded;
    forall n: nat
      ensures Has(Padded(bits), n) == (if n == |bits| then true else Has(bits, n))
    {
      PaddedHas(bits, n);
    }
    if m != k {
      OctetOfSame(Padded(bits), bits, m);
    }
    FirstBitsSame(Padded(bits), bits, k, r);
    FirstBitsWhole(bits, k, r);
    FirstBitsStep(Padded(bits), k, r);
    PaddedFirst(bits, k, r);
    assert Digit(true) == 1;
  }

  lemma {:induction false} PaddedFirst(bits: seq<bool>, k: nat, r: nat)
    requires |bits| % 128 != 0 && |bits| < 8 * k + r + 1 && r < 8
    ensures FirstBits(Padded(bits), k, r + 1) == OctetOf(Padded(bits), k)
    decreases 8 - r
  {
    hide FirstBits, Padded, Or8, Raised, Digit;
    if r < 7 {
      PaddedFirst(bits, k, r + 1);
      FirstBitsStep(Padded(bits), k, r + 1);
      PaddedHas(bits, 8 * k + r + 1);
      OrNothing(FirstBits(Padded(bits), k, r + 1), 6 - r);
    }
  }

  // --- the operations ---

  /** K1 and K2 are made octet by octet. */
  method DoubleBlock(l: array<bv8>) returns (k: array<bv8>)
    requires l.Length == 16
    ensures fresh(k) && k[..] == Doubled(l[..])
  {
    hide Carried, LastDoubled;
    k := new bv8[16];
    var i := 0;
    while i < 15
      invariant 0 <= i <= 15
      invariant forall j :: 0 <= j < i ==> k[j] == Carried(l[j], l[j + 1])
    {
      k[i] := Carried(l[i], l[i + 1]);
      i := i + 1;
    }
    k[15] := LastDoubled(l[0], l[15]);
    assert k[..] == Doubled(l[..]);
  }

  /** Adds block i of the message, and a subkey if there is one, to the chaining value. */
  method AddBlock(t: array<bv8>, k: array?<bv8>, m: array<bv8>, i: nat) returns (tmp: array<bv8>)
    requires t.Length == 16 && 16 * i + 16 <= m.Length && (k != null ==> k.Length == 16)
    ensures fresh(tmp) && tmp.Length == 16
    ensures tmp[..] == XorBlock(if k == null then t[..] else XorBlock(t[..], k[..]), m[16 * i..16 * i + 16])
  {
    hide *;
    ghost var x := if k == null then t[..] else XorBlock(t[..], k[..]);
    tmp := new bv8[16];
    var j := 0;
    while j < 16
      invariant 0 <= j <= 16
      invariant forall r :: 0 <= r < j ==> tmp[r] == Xor8(x[r], m[16 * i..16 * i + 16][r])
    {
      if k != null { XorBlockAt(t[..], k[..], j); }
      tmp[j] := Xor8(if k == null then t[j] else Xor8(t[j], k[j]), m[16 * i + j]);
      j := j + 1;
    }
    XorBlockIs(x, m[16 * i..16 * i + 16], tmp[..]);
  }

  lemma XorBlockAt(a: seq<bv8>, b: seq<bv8>, r: nat)
    requires |a| == 16 && |b| == 16 && r < 16
    ensures XorBlock(a, b)[r] == Xor8(a[r], b[r])
  {
    hide Xor8;
  }

  lemma XorBlockIs(a: seq<bv8>, b: seq<bv8>, c: seq<bv8>)
    requires |a| == 16 && |b| == 16 && |c| == 16
    requires forall r :: 0 <= r < 16 ==> c[r] == Xor8(a[r], b[r])
    ensures c == XorBlock(a, b)
  {
    hide Xor8;
  }

  /** Whether an array holds the octets of a bit string, zero after its end. */
  ghost predicate Holds(m: array<bv8>, bits: seq<bool>)
    reads m
  {
    forall k :: 0 <= k < m.Length ==> m[k] == OctetOf(bits, k)
  }

  lemma HeldBlock(m: array<bv8>, bits: seq<bool>, i: nat)
    requires Holds(m, bits) && 16 * i + 16 <= m.Length
    ensures m[16 * i..16 * i + 16] == Block(bits, i)
  {
    hide OctetOf;
  }

  lemma ChainStep(e: Cipher, key: seq<bv8>, bits: seq<bool>, n: nat)
    requires BlockCipher(e)
    ensures Chain(e, key, bits, 0) == ZeroBlock()
    ensures Chain(e, key, bits, n + 1) == e(key, XorBlock(Chain(e, key, bits, n), Block(bits, n)))
  {
    hide Block, XorBlock, ZeroBlock;
  }

  lemma CmacIs(e: Cipher, key: seq<bv8>, bits: seq<bool>, n: nat)
    requires BlockCipher(e) && |bits| > 0 && n == BlockCount(|bits|) - 1
    ensures Cmac(e, key, bits) == e(key, XorBlock(XorBlock(Chain(e, key, bits, n), LastKey(e, key, |bits|)), Block(Padded(bits), n)))
  {
    hide Chain, LastKey, XorBlock, Block, Padded, BlockCipher;
  }

  /** One call of the block cipher, into a fresh buffer. */
  method Encrypt(e: Cipher, key: array<bv8>, tmp: array<bv8>) returns (t: array<bv8>)
    requires BlockCipher(e) && tmp.Length == 16
    ensures fresh(t) && t.Length == 16 && t[..] == e(key[..], tmp[..])
  {
    var out := e(key[..], tmp[..]);
    t := new bv8[16](i requires 0 <= i < 16 => out[i]);
    assert t[..] == out;
  }

  lemma BlockCountIs(len: nat)
    requires len > 0
    ensures BlockCount(len) >= 1 && 128 * (BlockCount(len) - 1) < len <= 128 * BlockCount(len)
    ensures len % 128 == 0 <==> len == 128 * BlockCount(len)
  {
    var q, r := len / 128, len % 128;
    hide *;
    assert len == 128 * q + r;
    BlockCountFrom(len, q, r);
  }

  lemma BlockCountFrom(len: nat, q: nat, r: nat)
    requires len == 128 * q + r && r < 128
    ensures BlockCount(len) == if r == 0 then q else q + 1
  {
  }

  /** The chaining over a message buffer of len bits, common to both overloads. */
  method MacOfBuffer(e: Cipher, key: array<bv8>, m: array<bv8>, len: nat, ghost bits: seq<bool>) returns (t: array<bv8>)
    requires BlockCipher(e) && key != m && len == |bits| > 0 && Holds(m, bits) && 128 * BlockCount(len) <= 8 * m.Length
    modifies m
    ensures fresh(t) && t.Length == 16 && t[..] == Cmac(e, key[..], bits)
  {
    hide Chain, LastKey, XorBlock, Block, Padded, BlockCipher, Cmac, Holds, Doubled, ZeroBlock;
    BlockCountIs(len);
    ghost var kk := key[..];
    var zero := new bv8[16](i => 0);
    ZeroBlockIs(zero);
    var l := Encrypt(e, key, zero);
    var k1 := DoubleBlock(l);
    var k2 := DoubleBlock(k1);
    ghost var one, two := k1[..], k2[..];
    LastKeyIs(e, kk, len, one, two);
    var n := (len + 127) / 128;
    ChainStep(e, kk, bits, 0);
    t := new bv8[16](i => 0);
    ZeroBlockIs(t);
    var i := 0;
    while i < n - 1
      invariant 0 <= i <= n - 1
      invariant fresh(t) && t.Length == 16 && t[..] == Chain(e, kk, bits, i)
      invariant key[..] == kk && k1[..] == one && k2[..] == two && Holds(m, bits)
    {
      ChainStep(e, kk, bits, i);
      HeldBlock(m, bits, i);
      var tmp := AddBlock(t, null, m, i);
      t := Encrypt(e, key, tmp);
      i := i + 1;
    }
    ghost var x := t[..];
    CmacIs(e, kk, bits, i);
    if len % 128 == 0 {
      PaddedWhole(bits);
      HeldBlock(m, bits, i);
      var tmp := AddBlock(t, k1, m, i);
      t := Encrypt(e, key, tmp);
    } else {
      PadBuffer(m, len, i, bits);
      assert t[..] == x && key[..] == kk && k2[..] == two;
      HeldBlock(m, Padded(bits), i);
      var tmp := AddBlock(t, k2, m, i);
      t := Encrypt(e, key, tmp);
    }
    assert key[..] == kk;
  }

  lemma ZeroBlockIs(a: array<bv8>)
    requires a.Length == 16 && forall i :: 0 <= i < 16 ==> a[i] == 0
    ensures a[..] == ZeroBlock()
  {
  }

  lemma PaddedWhole(bits: seq<bool>)
    requires |bits| % 128 == 0
    ensures Padded(bits) == bits
  {
  }

  lemma LastKeyIs(e: Cipher, key: seq<bv8>, len: nat, k1: seq<bv8>, k2: seq<bv8>)
    requires BlockCipher(e) && |k1| == 16 && k1 == Doubled(e(key, ZeroBlock())) && k2 == Doubled(k1)
    ensures LastKey(e, key, len) == if len % 128 == 0 then k1 else k2
  {
    hide Doubled, ZeroBlock;
  }

  /** Sets the bit after the message in its last block. */
  method PadBuffer(m: array<bv8>, len: nat, i: nat, ghost bits: seq<bool>)
    requires len == |bits| && len % 128 != 0 && Holds(m, bits) && i == len / 128 && 16 * i + 16 <= m.Length
    modifies m
    ensures Holds(m, Padded(bits))
  {
    hide OctetOf, Padded, Or8, Raised;
    var rest := len % 128;
    var padBits := (128 - rest) - 1;
    var k := i * 16 + (15 - padBits / 8);
    PadPlace(len, i, padBits);
    ghost var r := 7 - padBits % 8;
    m[k] := Or8(m[k], Raised(1, padBits % 8));
    forall j | 0 <= j < m.Length
      ensures m[j] == OctetOf(Padded(bits), j)
    {
      PaddedOctet(bits, k, r, j);
    }
  }

  lemma PadPlace(len: nat, i: nat, padBits: nat)
    requires len % 128 != 0 && i == len / 128 && padBits == 128 - len % 128 - 1
    ensures padBits / 8 <= 15 && len == 8 * (i * 16 + (15 - padBits / 8)) + (7 - padBits % 8)
  {
  }

  /** The bits that follow the header in an octet message. */
  lemma HeaderThen(h: seq<bv8>, s: seq<bv8>)
    ensures BitsOf(h) + BitsOf(s) == BitsOf(h + s)
  {
    hide BitAt;
    forall j | 0 <= j < 8 * |h + s|
      ensures (BitsOf(h) + BitsOf(s))[j] == BitsOf(h + s)[j]
    {
      BitAtConcat(h, s, j);
    }
  }

  lemma BitAtConcat(h: seq<bv8>, s: seq<bv8>, j: nat)
    requires j < 8 * |h + s|
    ensures BitAt(h + s, j) == if j < 8 * |h| then BitAt(h, j) else BitAt(s, j - 8 * |h|)
  {
    hide BitOf;
    if j >= 8 * |h| {
      assert (j - 8 * |h|) / 8 == j / 8 - |h| && (j - 8 * |h|) % 8 == j % 8;
    }
  }

  lemma OctetAfter(bits: seq<bool>, k: nat)
    requires |bits| <= 8 * k
    ensures OctetOf(bits, k) == 0
  {
    hide FirstBits, OctetOf;
    FirstBitsStep(bits, k, 0);
    FirstBitsWhole(bits, k, 0);
  }

  /** liblte_security_128_eia2 on a message of octets. */
  method Eia2Octets(e: Cipher, key: array?<bv8>, count: bv32, bearer: bv8, direction: bv8, msg: array?<bv8>, msgLen: nat,
                    mac: array?<bv8>) returns (err: Eea1.Error)
    requires BlockCipher(e) && msgLen + 8 <= 0x100_0000
    requires msg != null ==> msgLen <= msg.Length
    requires mac != null ==> mac.Length >= 4
    modifies mac
    ensures err == if key != null && msg != null && mac != null then Eea1.Success else Eea1.InvalidInputs
    ensures err == Eea1.Success ==>
              mac[..4] == Cmac(e, old(key[..]), BitsOf(Header(count, bearer, direction)) + BitsOf(old(msg[..msgLen])))[..4]
              && mac[4..] == old(mac[4..])
    ensures err != Eea1.Success ==> mac != null ==> mac[..] == old(mac[..])
  {
    hide Cmac, BlockCipher, BitsOf, Header, Holds;
    err := Eea1.InvalidInputs;
    if key != null && msg != null && mac != null {
      ghost var bits := BitsOf(Header(count, bearer, direction)) + BitsOf(msg[..msgLen]);
      var m := OctetBuffer(count, bearer, direction, msg, msgLen);
      BufferRoom(msgLen);
      var t := MacOfBuffer(e, key, m, 8 * msgLen + 64, bits);
      ghost var c := t[..];
      FirstFour(t, mac);
      err := Eea1.Success;
    }
  }

  lemma BufferRoom(msgLen: nat)
    ensures 128 * BlockCount(8 * msgLen + 64) <= 8 * (msgLen + 24)
  {
  }

  method FirstFour(t: array<bv8>, mac: array<bv8>)
    requires t.Length == 16 && mac.Length >= 4 && t != mac
    modifies mac
    ensures mac[..4] == t[..4] && mac[4..] == old(mac[4..])
  {
    var i := 0;
    while i < 4
      invariant 0 <= i <= 4
      invariant forall j :: 0 <= j < i ==> mac[j] == t[j]
      invariant forall j :: 4 <= j < mac.Length ==> mac[j] == old(mac[j])
    {
      mac[i] := t[i];
      i := i + 1;
    }
  }

  /** The header at the start of a zeroed buffer. */
  method StartBuffer(count: bv32, bearer: bv8, direction: bv8, n: nat) returns (m: array<bv8>)
    requires n >= 8
    ensures fresh(m) && m.Length == n
    ensures m[..8] == Header(count, bearer, direction)
    ensures forall k :: 8 <= k < n ==> m[k] == 0
  {
    hide Byte0, Byte1, Byte2, Byte3;
    m := new bv8[n](i => 0);
    m[0] := Byte0(count);
    m[1] := Byte1(count);
    m[2] := Byte2(count);
    m[3] := Byte3(count);
    m[4] := (bearer << 3) | (direction << 2);
  }

  method OctetBuffer(count: bv32, bearer: bv8, direction: bv8, msg: array<bv8>, msgLen: nat) returns (m: array<bv8>)
    requires msgLen <= msg.Length
    ensures fresh(m) && m.Length == msgLen + 24
    ensures Holds(m, BitsOf(Header(count, bearer, direction)) + BitsOf(msg[..msgLen]))
  {
    hide OctetOf, BitsOf, Header;
    m := StartBuffer(count, bearer, direction, msgLen + 24);
    var i := 0;
    while i < msgLen
      invariant 0 <= i <= msgLen
      invariant m[..8] == Header(count, bearer, direction)
      invariant forall k :: 0 <= k < i ==> m[8 + k] == msg[k]
      invariant forall k :: 8 + i <= k < m.Length ==> m[k] == 0
    {
      m[8 + i] := msg[i];
      i := i + 1;
    }
    ghost var s := Header(count, bearer, direction) + msg[..msgLen];
    HeaderThen(Header(count, bearer, direction), msg[..msgLen]);
    forall k | 0 <= k < m.Length
      ensures m[k] == OctetOf(BitsOf(s), k)
    {
      if k < |s| {
        OctetOfBits(s, k);
        if k < 8 {
          assert m[k] == m[..8][k];
        }
      } else {
        OctetAfter(BitsOf(s), k);
      }
    }
  }

  /** The bits of an unpacked message: one element per bit. */
  function Unpacked(s: seq<bv8>): (b: seq<bool>)
    ensures |b| == |s|
  {
    seq(|s|, i requires 0 <= i < |s| => s[i] == 1)
  }

  /** liblte_security_128_eia2 on a message of unpacked bits, each zero or one. */
  method Eia2Bits(e: Cipher, key: array?<bv8>, count: bv32, bearer: bv8, direction: bv8, msg: array<bv8>, nBits: nat,
                  mac: array?<bv8>) returns (err: Eea1.Error)
    requires BlockCipher(e) && nBits + 64 <= 0x100_0000
    requires nBits <= msg.Length && forall i :: 0 <= i < nBits ==> msg[i] == 0 || msg[i] == 1
    requires mac != null ==> mac.Length >= 4
    modifies mac
    ensures err == if key != null && mac != null then Eea1.Success else Eea1.InvalidInputs
    ensures err == Eea1.Success ==>
              mac[..4] == Cmac(e, old(key[..]), BitsOf(Header(count, bearer, direction)) + Unpacked(old(msg[..nBits])))[..4]
              && mac[4..] == old(mac[4..])
    ensures err != Eea1.Success ==> mac != null ==> mac[..] == old(mac[..])
  {
    hide Cmac, BlockCipher, BitsOf, Header, Holds, Unpacked;
    err := Eea1.InvalidInputs;
    if key != null && mac != null {
      ghost var bits := BitsOf(Header(count, bearer, direction)) + Unpacked(msg[..nBits]);
      var m := BitBuffer(count, bearer, direction, msg, nBits);
      BitBufferRoom(nBits);
      var t := MacOfBuffer(e, key, m, nBits + 64, bits);
      FirstFour(t, mac);
      err := Eea1.Success;
    }
  }

  lemma BitBufferRoom(nBits: nat)
    ensures 128 * BlockCount(nBits + 64) <= 8 * (nBits * 8 + 24)
  {
  }

  /** Packs r unpacked bits into one octet of the buffer. */
  method PackOctet(m: array<bv8>, k: nat, msg: array<bv8>, at: nat, r: nat, ghost bits: seq<bool>)
    requires k < m.Length && r <= 8 && at + r <= msg.Length && m != msg
    requires forall n :: 8 * k <= n < 8 * k + r ==> Digit(Has(bits, n)) == msg[at + n - 8 * k]
    modifies m
    ensures m[k] == FirstBits(bits, k, r)
    ensures forall j :: 0 <= j < m.Length && j != k ==> m[j] == old(m[j])
  {
    hide FirstBits, Or8, Raised, Digit, Has;
    m[k] := 0;
    FirstBitsStep(bits, k, 0);
    var j := 0;
    while j < r
      invariant 0 <= j <= r
      invariant m[k] == FirstBits(bits, k, j)
      invariant forall i :: 0 <= i < m.Length && i != k ==> m[i] == old(m[i])
    {
      FirstBitsStep(bits, k, j);
      m[k] := Or8(m[k], Raised(msg[at + j], 7 - j));
      j := j + 1;
    }
  }

  lemma HeaderOctet(h: seq<bv8>, b: seq<bool>, k: nat)
    requires |h| == 8 && k < 8
    ensures OctetOf(BitsOf(h) + b, k) == h[k]
  {
    hide OctetOf, BitsOf;
    forall n | 8 * k <= n < 8 * k + 8
      ensures Has(BitsOf(h) + b, n) == Has(BitsOf(h), n)
    {
    }
    OctetOfSame(BitsOf(h) + b, BitsOf(h), k);
    OctetOfBits(h, k);
  }

  lemma UnpackedHas(h: seq<bool>, s: seq<bv8>, n: nat)
    requires n < |s| && (s[n] == 0 || s[n] == 1)
    ensures Digit(Has(h + Unpacked(s), |h| + n)) == s[n]
  {
  }

  lemma UnpackedDigits(h: seq<bool>, s: seq<bv8>)
    requires |h| == 64 && forall n :: 0 <= n < |s| ==> s[n] == 0 || s[n] == 1
    ensures forall n :: 0 <= n < |s| ==> Digit(Has(h + Unpacked(s), 64 + n)) == s[n]
  {
    hide *;
    forall n | 0 <= n < |s|
      ensures Digit(Has(h + Unpacked(s), 64 + n)) == s[n]
    {
      UnpackedHas(h, s, n);
    }
  }

  method BitBuffer(count: bv32, bearer: bv8, direction: bv8, msg: array<bv8>, nBits: nat) returns (m: array<bv8>)
    requires nBits <= msg.Length && forall i :: 0 <= i < nBits ==> msg[i] == 0 || msg[i] == 1
    ensures fresh(m) && m.Length == nBits * 8 + 24
    ensures Holds(m, BitsOf(Header(count, bearer, direction)) + Unpacked(msg[..nBits]))
  {
    hide *;
    m := StartBuffer(count, bearer, direction, nBits * 8 + 24);
    ghost var h := BitsOf(Header(count, bearer, direction));
    ghost var bits := h + Unpacked(msg[..nBits]);
    UnpackedDigits(h, msg[..nBits]);
    var i := 0;
    while i < nBits / 8
      invariant 0 <= i <= nBits / 8
      invariant m[..8] == Header(count, bearer, direction)
      invariant forall k :: 8 <= k < 8 + i ==> m[k] == OctetOf(bits, k)
      invariant forall k :: 8 + i <= k < m.Length ==> m[k] == 0
    {
      PackOctet(m, 8 + i, msg, i * 8, 8, bits);
      FirstBitsWhole(bits, 8 + i, 8);
      i := i + 1;
    }
    if nBits % 8 != 0 {
      PackOctet(m, 8 + i, msg, i * 8, nBits % 8, bits);
      FirstBitsWhole(bits, 8 + i, nBits % 8);
      i := i + 1;
    }
    BufferHolds(m, Header(count, bearer, direction), Unpacked(msg[..nBits]), 8 + i);
  }

  /** The header, the octets packed so far, and zeros. */
  lemma BufferHolds(m: array<bv8>, h: seq<bv8>, b: seq<bool>, n: nat)
    requires |h| == 8 && 8 <= n <= m.Length && 64 + |b| <= 8 * n && m[..8] == h
    requires forall k :: 8 <= k < n ==> m[k] == OctetOf(BitsOf(h) + b, k)
    requires forall k :: n <= k < m.Length ==> m[k] == 0
    ensures Holds(m, BitsOf(h) + b)
  {
    hide OctetOf, BitsOf;
    forall k | 0 <= k < m.Length
      ensures m[k] == OctetOf(BitsOf(h) + b, k)
    {
      if k < 8 {
        assert m[k] == m[..8][k];
        HeaderOctet(h, b, k);
      } else if k >= n {
        OctetAfter(BitsOf(h) + b, k);
      }
    }
  }

  lemma UnpackedOfBits(s: seq<bv8>, u: seq<bv8>)
    requires |u| == 8 * |s|
    requires forall j :: 0 <= j < |u| ==> u[j] == Digit(BitAt(s, j))
    ensures Unpacked(u) == BitsOf(s)
  {
    hide BitAt;
  }

  /** On an octet message and on its unpacked bits the two overloads give the same code. */
  method OverloadsAgree(e: Cipher, key: array<bv8>, count: bv32, bearer: bv8, direction: bv8, msg: array<bv8>, bits: array<bv8>,
                        mac1: array<bv8>, mac2: array<bv8>)
    requires BlockCipher(e) && 8 * msg.Length + 64 <= 0x100_0000 && bits.Length == 8 * msg.Length
    requires forall j :: 0 <= j < bits.Length ==> bits[j] == Digit(BitAt(msg[..], j))
    requires mac1.Length == 4 && mac2.Length == 4 && mac1 != mac2 && mac1 != key && mac1 != msg && mac1 != bits
    modifies mac1, mac2
    ensures mac1[..] == mac2[..]
  {
    hide Cmac, BlockCipher, BitsOf, Header, Unpacked, BitAt;
    UnpackedOfBits(msg[..], bits[..]);
    assert msg[..msg.Length] == msg[..] && bits[..bits.Length] == bits[..];
    var err := Eia2Octets(e, key, count, bearer, direction, msg, msg.Length, mac1);
    err := Eia2Bits(e, key, count, bearer, direction, bits, bits.Length, mac2);
    assert mac1[..] == mac1[..4] && mac2[..] == mac2[..4];
  }
}
