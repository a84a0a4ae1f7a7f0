/** The two uses of SNOW 3G from their inputs to their outputs, in bits: key and parameters give the
    words the registers start from, and the recurrences give the words used. */
module SnowBits {
  import opened OctetBits
  import opened Snow3g
  import opened Snow3gStream
  import opened WordBits
  import opened XorWords
  import Eea1
  import F9
  import F9Fields

  lemma WordsDecide(v: bv32, w: bv32)
    requires forall j :: 0 <= j < 32 ==> WordBit(v, j) == WordBit(w, j)
    ensures v == w
  {
    hide WordBit, BitOf, Byte0, Byte1, Byte2, Byte3, Joined;
    forall k | 0 <= k < 4
      ensures WordOctet(v, k) == WordOctet(w, k)
    {
      forall r | 0 <= r < 8
        ensures BitOf(WordOctet(v, k), r) == BitOf(WordOctet(w, k), r)
      {
        OctetBit(v, k, r);
        OctetBit(w, k, r);
      }
      BitsDecide(WordOctet(v, k), WordOctet(w, k));
    }
    assert WordOctet(v, 0) == WordOctet(w, 0) && WordOctet(v, 1) == WordOctet(w, 1);
    assert WordOctet(v, 2) == WordOctet(w, 2) && WordOctet(v, 3) == WordOctet(w, 3);
    BytesJoined(v);
    BytesJoined(w);
  }

  /** Four key words that hold the key, the last word first. */
  predicate HoldsKey(k: seq<bv32>, key: seq<bv8>)
    requires |k| == 4 && |key| == 16
  {
    forall i, j :: 0 <= i < 4 && 0 <= j < 32 ==> WordBit(k[i], j) == BitAt(key, 32 * (3 - i) + j)
  }

  lemma KeyIs(k: seq<bv32>, key: seq<bv8>)
    requires |k| == 4 && |key| == 16 && HoldsKey(k, key)
    ensures k == Eea1.KeyWords(key)
  {
    hide WordBit, BitAt, Eea1.KeyWords;
    forall i | 0 <= i < 4
      ensures k[i] == Eea1.KeyWords(key)[i]
    {
      forall j | 0 <= j < 32
        ensures WordBit(k[i], j) == WordBit(Eea1.KeyWords(key)[i], j)
      {
        Eea1.KeyWordsBits(key, 3 - i, j);
        assert 3 - (3 - i) == i;
      }
      WordsDecide(k[i], Eea1.KeyWords(key)[i]);
    }
  }

  /** The word of keystream that a run gives at clock 33 + t. */
  function RunWord(a: seq<bv32>, r1: seq<bv32>, r2: seq<bv32>, t: nat): bv32
    requires t + 48 < |a| && t + 33 < |r1| && t + 33 < |r2|
  {
    Xor32(Xor32(Plus(a[t + 48], r1[t + 33]), r2[t + 33]), a[t + 33])
  }

  // --- ciphering ---

  /** Count and the word of bearer and direction, each twice. */
  predicate HoldsCipherIv(iv: seq<bv32>, count: bv32, bearer: bv32, direction: bv32)
    requires |iv| == 4
  {
    forall i, j :: 0 <= i < 4 && 0 <= j < 32 ==>
      WordBit(iv[i], j) == if i % 2 == 1 then WordBit(count, j) else (j < 5 && WordBit(bearer, 27 + j)) || (j == 5 && WordBit(direction, 31))
  }

  lemma CipherIvIs(iv: seq<bv32>, count: bv32, bearer: bv32, direction: bv32)
    requires |iv| == 4 && HoldsCipherIv(iv, count, bearer, direction)
    ensures iv == Eea1.CipherIv(count, bearer, direction)
  {
    hide WordBit, Eea1.CipherIv;
    forall i | 0 <= i < 4
      ensures iv[i] == Eea1.CipherIv(count, bearer, direction)[i]
    {
      forall j | 0 <= j < 32
        ensures WordBit(iv[i], j) == WordBit(Eea1.CipherIv(count, bearer, direction)[i], j)
      {
        Eea1.CipherIvBits(count, bearer, direction, i, j);
      }
      WordsDecide(iv[i], Eea1.CipherIv(count, bearer, direction)[i]);
    }
  }

  /** Bit j of a ciphertext: message bit j plus bit j % 32 of the run's word j / 32, below the
      length, for any run from the key and the parameters. */
  lemma CipherBitOfRun(s: seq<bv8>, key: seq<bv8>, count: bv32, bearer: bv32, direction: bv32, len: nat, j: nat,
                       k: seq<bv32>, iv: seq<bv32>, a: seq<bv32>, r1: seq<bv32>, r2: seq<bv32>, r3: seq<bv32>)
    requires |key| == 16 && |k| == 4 && |iv| == 4 && HoldsKey(k, key) && HoldsCipherIv(iv, count, bearer, direction)
    requires 1 <= len <= 8 * |s| && j < 8 * Octets(len) && IsRun(k, iv, a, r1, r2, r3, (len + 31) / 32)
    ensures j / 32 + 48 < |a| && j / 32 + 33 < |r1| && j / 32 + 33 < |r2|
    ensures Octets(len) <= 4 * Eea1.Words(len) && 8 * Octets(len) <= 8 * |s|
    ensures BitAt(Eea1.Ciphered(s, Eea1.CipherStream(key, count, bearer, direction, Eea1.Words(len)), len), j)
            == (j < len && BitAt(s, j) != WordBit(RunWord(a, r1, r2, j / 32), j % 32))
  {
    hide HoldsKey, HoldsCipherIv, IsRun, BitAt, WordBit, Eea1.Ciphered, Keystream, Initialized, Xor32, Plus, Eea1.KeyWords, Eea1.CipherIv;
    var n := (len + 31) / 32;
    Eea1.WordsRoom(len);
    OctetsRoom(len, |s|);
    KeyIs(k, key);
    CipherIvIs(iv, count, bearer, direction);
    var ks := Eea1.CipherStream(key, count, bearer, direction, n);
    Eea1.CipheredBits(s, ks, len, j);
    KeystreamOfRun(k, iv, a, r1, r2, r3, n, j / 32);
  }

  // --- the integrity algorithm ---

  predicate HoldsMacIv(iv: seq<bv32>, count: bv32, fresh_: bv32, direction: bv32)
    requires |iv| == 4
  {
    forall i, j :: 0 <= i < 4 && 0 <= j < 32 ==>
      WordBit(iv[i], j) == (WordBit(if i % 2 == 0 then fresh_ else count, j)
                            != (if i == 0 then j + 15 < 32 && WordBit(direction, j + 15) else i == 1 && j == 0 && WordBit(direction, 31)))
  }

  lemma MacIvIs(iv: seq<bv32>, count: bv32, fresh_: bv32, direction: bv32)
    requires |iv| == 4 && HoldsMacIv(iv, count, fresh_, direction)
    ensures iv == F9.MacIv(count, fresh_, direction)
  {
    hide WordBit, F9.MacIv;
    forall i | 0 <= i < 4
      ensures iv[i] == F9.MacIv(count, fresh_, direction)[i]
    {
      forall j | 0 <= j < 32
        ensures WordBit(iv[i], j) == WordBit(F9.MacIv(count, fresh_, direction)[i], j)
      {
        F9Fields.MacIvBits(count, fresh_, direction, i, j);
      }
      WordsDecide(iv[i], F9.MacIv(count, fresh_, direction)[i]);
    }
  }

  /** The five words of f9 are those of any run from the key and the parameters. */
  lemma MacWordOfRun(key: seq<bv8>, count: bv32, fresh_: bv32, direction: bv32, t: nat,
                     k: seq<bv32>, iv: seq<bv32>, a: seq<bv32>, r1: seq<bv32>, r2: seq<bv32>, r3: seq<bv32>)
    requires |key| == 16 && |k| == 4 && |iv| == 4 && HoldsKey(k, key) && HoldsMacIv(iv, count, fresh_, direction)
    requires IsRun(k, iv, a, r1, r2, r3, 5) && t < 5
    ensures t + 48 < |a| && t + 33 < |r1| && t + 33 < |r2|
    ensures F9.MacStream(key, count, fresh_, direction)[t] == RunWord(a, r1, r2, t)
  {
    hide HoldsKey, HoldsMacIv, IsRun, WordBit, Keystream, Initialized, Xor32, Plus, Eea1.KeyWords, F9.MacIv;
    KeyIs(k, key);
    MacIvIs(iv, count, fresh_, direction);
    KeystreamOfRun(k, iv, a, r1, r2, r3, 5, t);
  }
}
