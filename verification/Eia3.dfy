/** 128-EIA3: the exclusive or of keystream windows at the set message bits, plus two
    windows that do not depend on the message. The keystream generator is a parameter. */
module Eia3 {
  import opened OctetBits
  import opened Snow3g
  import Eea1
  import opened WordBits
  import opened XorWords

  /** The keystream generator: key, initialisation vector and number of words. */
  type Generator = (seq<bv8>, seq<bv8>, nat) -> seq<bv32>

  // --- windows ---

  /** The words that a window at bit i reads. */
  predicate Readable(ks: seq<bv32>, i: nat) {
    i / 32 < |ks| && (i % 32 != 0 ==> i / 32 + 1 < |ks|)
  }

  /** GET_WORD. */
  function GetWord(ks: seq<bv32>, i: nat): bv32
    requires Readable(ks, i)
  {
    if i % 32 == 0 then ks[i / 32] else Shifted(ks[i / 32], ks[i / 32 + 1], i % 32)
  }

  /** GET_WORD(ks, i) is the 32-bit window of the keystream at bit i. */
  lemma GetWordIsWindow(ks: seq<bv32>, i: nat, j: nat)
    requires Readable(ks, i) && j < 32
    ensures i + j < 32 * |ks|
    ensures WordBit(GetWord(ks, i), j) == StreamBit(ks, i + j)
  {
    hide WordBit, Shifted;
    WindowPlace(i, j);
    if i % 32 != 0 {
      ShiftedBit(ks[i / 32], ks[i / 32 + 1], i % 32, j);
    }
  }

  lemma WindowPlace(i: nat, j: nat)
    requires j < 32
    ensures i % 32 + j < 32 ==> (i + j) / 32 == i / 32 && (i + j) % 32 == i % 32 + j
    ensures i % 32 + j >= 32 ==> (i + j) / 32 == i / 32 + 1 && (i + j) % 32 == i % 32 + j - 32
  {
  }

  // --- the tag ---

  /** The keystream words generated for a message of len bits. */
  function StreamWords(len: nat): nat {
    (len + 64 + 31) / 32
  }

  /** Every window at a bit of the message, and the one at its end, is inside the keystream. */
  lemma WindowsFit(ks: seq<bv32>, len: nat, i: nat)
    requires |ks| == StreamWords(len) && i <= len
    ensures Readable(ks, i)
  {
  }

  /** The sum of the windows at the first n bits that are set. */
  ghost function WindowSum(m: seq<bv8>, ks: seq<bv32>, n: nat): bv32
    requires n <= 8 * |m| && (forall i :: 0 <= i < n ==> Readable(ks, i))
  {
    if n == 0 then 0 else Xor32(WindowSum(m, ks, n - 1), if BitAt(m, n - 1) then GetWord(ks, n - 1) else 0)
  }

  lemma WindowSumStep(m: seq<bv8>, ks: seq<bv32>, n: nat)
    requires n < 8 * |m| && (forall i :: 0 <= i <= n ==> Readable(ks, i))
    ensures WindowSum(m, ks, 0) == 0
    ensures WindowSum(m, ks, n + 1) == Xor32(WindowSum(m, ks, n), if BitAt(m, n) then GetWord(ks, n) else 0)
  {
    hide Readable, GetWord, Xor32, BitAt;
  }

  /** Whether an odd number of the first n message bits meet a set keystream bit j places on. */
  ghost predicate Parity(m: seq<bv8>, ks: seq<bv32>, j: nat, n: nat)
    requires n <= 8 * |m| && (n > 0 ==> n - 1 + j < 32 * |ks|)
  {
    n > 0 && (Parity(m, ks, j, n - 1) != (BitAt(m, n - 1) && StreamBit(ks, n - 1 + j)))
  }

  /** Each bit of the window sum is a parity of message and keystream bits. */
  lemma {:induction false} WindowSumBit(m: seq<bv8>, ks: seq<bv32>, j: nat, n: nat)
    requires n <= 8 * |m| && j < 32 && (forall i :: 0 <= i < n ==> Readable(ks, i))
    ensures n > 0 ==> n - 1 + j < 32 * |ks|
    ensures WordBit(WindowSum(m, ks, n), j) == Parity(m, ks, j, n)
  {
    hide Readable, GetWord, Xor32, BitAt, WordBit, StreamBit;
    if n == 0 {
      WordBitXor(0, 0, j);
    } else {
      WindowSumBit(m, ks, j, n - 1);
      GetWordIsWindow(ks, n - 1, j);
      WindowSumStep(m, ks, n - 1);
      WordBitXor(WindowSum(m, ks, n - 1), if BitAt(m, n - 1) then GetWord(ks, n - 1) else 0, j);
      WordBitXor(0, 0, j);
    }
  }

  /** The 32-bit tag of a message of len bits. */
  ghost function TagWord(m: seq<bv8>, ks: seq<bv32>, len: nat): bv32
    requires len <= 8 * |m| && |ks| == StreamWords(len) && (forall i :: 0 <= i <= len ==> Readable(ks, i))
  {
    Xor32(Xor32(WindowSum(m, ks, len), GetWord(ks, len)), ks[|ks| - 1])
  }

  /** Bit j of the tag is the parity of the windows' bits, the keystream bit j places after
      the end of the message and bit j of the last keystream word. */
  lemma TagBit(m: seq<bv8>, ks: seq<bv32>, len: nat, j: nat)
    requires len <= 8 * |m| && |ks| == (len + 64 + 31) / 32 && j < 32
    requires forall i :: 0 <= i <= len ==> Readable(ks, i)
    ensures len + j < 32 * |ks|
    ensures var t := TagWord(m, ks, len);
            BitAt([Byte0(t), Byte1(t), Byte2(t), Byte3(t)], j)
            == ((Parity(m, ks, j, len) != StreamBit(ks, len + j)) != WordBit(ks[|ks| - 1], j))
  {
    hide Readable, GetWord, Xor32, WindowSum, Parity, StreamBit, WordBit, Byte0, Byte1, Byte2, Byte3, BitOf;
    var w, g := WindowSum(m, ks, len), GetWord(ks, len);
    OctetBit(TagWord(m, ks, len), j / 8, j % 8);
    WindowSumBit(m, ks, j, len);
    GetWordIsWindow(ks, len, j);
    WordBitXor(w, g, j);
    WordBitXor(Xor32(w, g), ks[|ks| - 1], j);
  }

  // --- the tag is affine ---

  function SumOf(s: seq<bv8>, t: seq<bv8>): (u: seq<bv8>)
    requires |s| == |t|
    ensures |u| == |s|
  {
    seq(|s|, i requires 0 <= i < |s| => Xor8(s[i], t[i]))
  }

  function Zero(n: nat): (u: seq<bv8>)
    ensures |u| == n
  {
    seq(n, i => 0)
  }

  lemma SumOfBits(s: seq<bv8>, t: seq<bv8>, n: nat)
    requires |s| == |t| && n < 8 * |s|
    ensures BitAt(SumOf(s, t), n) == (BitAt(s, n) != BitAt(t, n))
    ensures !BitAt(Zero(|s|), n)
  {
    hide BitOf, Xor8;
    BitOfXor(s[n / 8], t[n / 8], n % 8);
    BitOfXor(0, 0, n % 8);
    Xor8Unit(0);
  }

  lemma {:induction false} WindowSumLinear(s: seq<bv8>, t: seq<bv8>, ks: seq<bv32>, n: nat)
    requires |s| == |t| && n <= 8 * |s| && (forall i :: 0 <= i < n ==> Readable(ks, i))
    ensures WindowSum(SumOf(s, t), ks, n) == Xor32(WindowSum(s, ks, n), WindowSum(t, ks, n))
    ensures WindowSum(Zero(|s|), ks, n) == 0
  {
    hide *;
    Xor32Unit(0);
    if n == 0 {
      SumOfNothing(s, ks);
      SumOfNothing(t, ks);
      SumOfNothing(SumOf(s, t), ks);
      SumOfNothing(Zero(|s|), ks);
    } else {
      var m, w := n - 1, GetWord(ks, n - 1);
      WindowSumLinear(s, t, ks, m);
      WindowSumStep(s, ks, m);
      WindowSumStep(t, ks, m);
      WindowSumStep(SumOf(s, t), ks, m);
      WindowSumStep(Zero(|s|), ks, m);
      SumOfBits(s, t, m);
      Xor32Unit(w);
      Xor32SwapsMiddle(WindowSum(s, ks, m), WindowSum(t, ks, m), if BitAt(s, m) then w else 0, if BitAt(t, m) then w else 0);
    }
  }

  /** For messages of one length the sum of two tags is the tag of the sum plus the tag of zero. */
  lemma TagAffine(s: seq<bv8>, t: seq<bv8>, ks: seq<bv32>, len: nat)
    requires |s| == |t| && len <= 8 * |s| && |ks| == StreamWords(len) && (forall i :: 0 <= i <= len ==> Readable(ks, i))
    ensures Xor32(TagWord(s, ks, len), TagWord(t, ks, len)) == Xor32(TagWord(SumOf(s, t), ks, len), TagWord(Zero(|s|), ks, len))
  {
    hide Readable, GetWord, Xor32, WindowSum, SumOf, Zero;
    var a, b := WindowSum(s, ks, len), WindowSum(t, ks, len);
    var g, k := GetWord(ks, len), ks[|ks| - 1];
    WindowSumLinear(s, t, ks, len);
    Xor32Unit(Xor32(g, g));
    Xor32Unit(k);
    Xor32Unit(g);
    Xor32Unit(0);
    Xor32SwapsMiddle(Xor32(a, g), k, Xor32(b, g), k);
    Xor32SwapsMiddle(a, g, b, g);
    Xor32SwapsMiddle(Xor32(Xor32(a, b), g), k, Xor32(0, g), k);
    Xor32SwapsMiddle(Xor32(a, b), g, 0, g);
    Xor32Unit(Xor32(a, b));
  }

  // --- the operation ---

  function BearerField(bearer: bv8): bv8 {
    (bearer << 3) & 0xF8
  }

  function DirectionField(direction: bv8): bv8 {
    (direction & 1) << 7
  }

  /** The initialisation vector of EIA3. */
  function Eia3Iv(count: bv32, bearer: bv8, direction: bv8): (iv: seq<bv8>)
    ensures |iv| == 16
  {
    var b, d := BearerField(bearer), DirectionField(direction);
    [Byte0(count), Byte1(count), Byte2(count), Byte3(count), b, 0, 0, 0,
     Xor8(Byte0(count), d), Byte1(count), Byte2(count), Byte3(count), b, 0, d, 0]
  }

  /** Bit r of octet k: twice the count, the five bits of the bearer and zeros, with the
      direction added to the first bit of octets 8 and 14. */
  lemma Eia3IvBits(count: bv32, bearer: bv8, direction: bv8, k: nat, r: nat)
    requires k < 16 && r < 8
    ensures BitOf(Eia3Iv(count, bearer, direction)[k], r) ==
            ((if k % 8 < 4 then WordBit(count, 8 * (k % 8) + r) else k % 8 == 4 && r < 5 && BitOf(bearer, r + 3))
             != ((k == 8 || k == 14) && r == 0 && BitOf(direction, 7)))
  {
    hide *;
    Eia3IvOctet(count, bearer, direction, k);
    BearerBit(bearer, r);
    DirectionBit(direction, r);
    BitOfXor(Byte0(count), DirectionField(direction), r);
    BitOfXor(0, 0, r);
    Xor8Unit(0);
    if k % 8 < 4 {
      WordOctetIs(count, k % 8);
      OctetBit(count, k % 8, r);
    }
  }

  lemma Eia3IvOctet(count: bv32, bearer: bv8, direction: bv8, k: nat)
    requires k < 16
    ensures Eia3Iv(count, bearer, direction)[k] ==
            if k == 8 then Xor8(Byte0(count), DirectionField(direction))
            else if k % 8 < 4 then WordOctet(count, k % 8)
            else if k % 8 == 4 then BearerField(bearer)
            else if k == 14 then DirectionField(direction) else 0
  {
    hide *;
    Eia3IvStart(count, bearer, direction);
    Eia3IvEnd(count, bearer, direction);
    if k % 8 < 4 {
      WordOctetIs(count, k % 8);
      assert k < 8 ==> k % 8 == k;
      assert 8 <= k ==> k % 8 == k - 8;
    }
  }

  lemma Eia3IvStart(count: bv32, bearer: bv8, direction: bv8)
    ensures var iv := Eia3Iv(count, bearer, direction);
            && iv[0] == Byte0(count) && iv[1] == Byte1(count) && iv[2] == Byte2(count) && iv[3] == Byte3(count)
            && iv[4] == BearerField(bearer) && iv[5] == 0 && iv[6] == 0 && iv[7] == 0
  {
    hide Byte0, Byte1, Byte2, Byte3, Xor8, BearerField, DirectionField;
  }

  lemma Eia3IvEnd(count: bv32, bearer: bv8, direction: bv8)
    ensures var iv, d := Eia3Iv(count, bearer, direction), DirectionField(direction);
            && iv[8] == Xor8(Byte0(count), d) && iv[9] == Byte1(count) && iv[10] == Byte2(count) && iv[11] == Byte3(count)
            && iv[12] == BearerField(bearer) && iv[13] == 0 && iv[14] == d && iv[15] == 0
  {
    hide Byte0, Byte1, Byte2, Byte3, Xor8, BearerField, DirectionField;
  }

  lemma BearerBit(bearer: bv8, r: nat)
    requires r < 8
    ensures BitOf(BearerField(bearer), r) == (r < 5 && BitOf(bearer, r + 3))
  {
  }

  lemma DirectionBit(direction: bv8, r: nat)
    requires r < 8
    ensures BitOf(DirectionField(direction), r) == (r == 0 && BitOf(direction, 7))
  {
  }

  /** GET_BIT. */
  method GetBit(data: array<bv8>, i: nat) returns (b: bool)
    requires i < 8 * data.Length
    ensures b == BitAt(data[..], i)
  {
    b := data[i / 8] & (1 << (7 - i % 8)) != 0;
  }

  /** liblte_security_128_eia3. The tag is written, but the status is never set to success. */
  method Eia3Tag(zuc: Generator, key: array?<bv8>, count: bv32, bearer: bv8, direction: bv8, msg: array?<bv8>, msgLen: nat,
              mac: array?<bv8>) returns (err: Eea1.Error)
    requires forall k, iv, n :: |zuc(k, iv, n)| == n
    requires msg != null ==> msgLen <= 8 * msg.Length
    requires mac != null ==> mac.Length >= 4
    requires msgLen <= 0x7FFFFFA0
    modifies mac
    ensures err == Eea1.InvalidInputs
    ensures key != null && msg != null && mac != null ==>
              var ks := zuc(old(key[..]), Eia3Iv(count, bearer, direction), StreamWords(msgLen));
              (forall i :: 0 <= i <= msgLen ==> Readable(ks, i))
              && var t := TagWord(old(msg[..]), ks, msgLen);
                 mac[..4] == [Byte0(t), Byte1(t), Byte2(t), Byte3(t)] && mac[4..] == old(mac[4..])
    ensures key == null || msg == null ==> mac != null ==> mac[..] == old(mac[..])
  {
    hide Readable, GetWord, Xor32, WindowSum, BitAt, Byte0, Byte1, Byte2, Byte3, Eia3Iv, StreamWords;
    err := Eea1.InvalidInputs;
    if key != null && msg != null && mac != null {
      var t := Accumulate(zuc, key, Eia3Iv(count, bearer, direction), msg, msgLen);
      mac[0] := Byte0(t);
      mac[1] := Byte1(t);
      mac[2] := Byte2(t);
      mac[3] := Byte3(t);
    }
  }

  method Accumulate(zuc: Generator, key: array<bv8>, iv: seq<bv8>, msg: array<bv8>, msgLen: nat) returns (t: bv32)
    requires forall k, v, n :: |zuc(k, v, n)| == n
    requires msgLen <= 8 * msg.Length
    ensures var ks := zuc(key[..], iv, StreamWords(msgLen));
            (forall i :: 0 <= i <= msgLen ==> Readable(ks, i)) && t == TagWord(msg[..], ks, msgLen)
  {
    hide Readable, GetWord, Xor32, BitAt, WindowSum;
    var n := msgLen + 64;
    var l := (n + 31) / 32;
    var ks := zuc(key[..], iv, l);
    forall i | 0 <= i <= msgLen
      ensures Readable(ks, i)
    {
      WindowsFit(ks, msgLen, i);
    }
    t := 0;
    SumOfNothing(msg[..], ks);
    var i := 0;
    while i < msgLen
      invariant 0 <= i <= msgLen
      invariant t == WindowSum(msg[..], ks, i)
    {
      WindowSumStep(msg[..], ks, i);
      Xor32Unit(t);
      var b := GetBit(msg, i);
      if b {
        t := Xor32(t, GetWord(ks, i));
      }
      i := i + 1;
    }
    t := Xor32(t, GetWord(ks, msgLen));
    t := Xor32(t, ks[l - 1]);
  }

  lemma SumOfNothing(m: seq<bv8>, ks: seq<bv32>)
    ensures WindowSum(m, ks, 0) == 0
  {
  }
}
