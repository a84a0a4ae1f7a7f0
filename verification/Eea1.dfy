/** 128-EEA1 and the in-place f8: a message is exclusive-ored with the keystream, and the bits
    of the last octet beyond the message length are cleared. Both are stated octet by octet and
    bit by bit. */
module Eea1 {
  import Bits
  import opened OctetBits
  import opened Snow3g
  import opened Snow3gGenerators
  import opened WordBits
  import opened XorWords

  datatype Error = Success | InvalidInputs

  // --- what the ciphers compute ---

  /** The words that hold len bits. */
  function Words(len: nat): nat {
    (len + 31) / 32
  }

  /** Octet i of the keystream. */
  function StreamOctet(ks: seq<bv32>, i: nat): bv8
    requires i < 4 * |ks|
  {
    WordOctet(ks[i / 4], i % 4)
  }

  /** The first n octets of a message exclusive-ored with the keystream. */
  function Masked(s: seq<bv8>, ks: seq<bv32>, n: nat): (t: seq<bv8>)
    requires n <= |s| && n <= 4 * |ks|
    ensures |t| == n
  {
    seq(n, i requires 0 <= i < n => Xor8(s[i], StreamOctet(ks, i)))
  }

  /** The ciphertext of the first len bits of a message. */
  function Ciphered(s: seq<bv8>, ks: seq<bv32>, len: nat): (t: seq<bv8>)
    requires 1 <= len <= 8 * |s| && Octets(len) <= 4 * |ks|
    ensures |t| == Octets(len)
  {
    Trimmed(Masked(s, ks, Octets(len)), len)
  }

  lemma WordsRoom(len: nat)
    requires 1 <= len
    ensures 1 <= Words(len) && 4 * (Words(len) - 1) < Octets(len) <= 4 * Words(len)
  {
  }

  lemma MaskedBits(s: seq<bv8>, ks: seq<bv32>, n: nat, j: nat)
    requires n <= |s| && n <= 4 * |ks| && j < 8 * n
    ensures BitAt(Masked(s, ks, n), j) == (BitAt(s, j) != BitOf(StreamOctet(ks, j / 8), j % 8))
  {
    hide BitOf, StreamOctet, Xor8;
    BitOfXor(s[j / 8], StreamOctet(ks, j / 8), j % 8);
  }

  /** Bit j of the keystream octets is bit j of the keystream words. */
  lemma StreamOctetBit(ks: seq<bv32>, j: nat)
    requires j < 32 * |ks|
    ensures BitOf(StreamOctet(ks, j / 8), j % 8) == StreamBit(ks, j)
  {
    hide BitOf, WordOctet, WordBit;
    OctetBit(ks[j / 32], j / 8 % 4, j % 8);
    assert j / 8 / 4 == j / 32 && 8 * (j / 8 % 4) + j % 8 == j % 32;
  }

  /** Every message bit is added to the keystream bit of the same position, and every
      bit after the message is zero. */
  lemma CipheredBits(s: seq<bv8>, ks: seq<bv32>, len: nat, j: nat)
    requires 1 <= len <= 8 * |s| && Octets(len) <= 4 * |ks| && j < 8 * Octets(len)
    ensures 8 * Octets(len) <= 8 * |s| && j < 32 * |ks|
    ensures BitAt(Ciphered(s, ks, len), j) == (j < len && BitAt(s, j) != StreamBit(ks, j))
  {
    hide BitOf, BitAt, StreamOctet, StreamBit, Masked, Trimmed;
    OctetsRoom(len, |s|);
    TrimmedBits(Masked(s, ks, Octets(len)), len, j);
    MaskedBits(s, ks, Octets(len), j);
    StreamOctetBit(ks, j);
  }

  /** Ciphering twice gives back the message with the spare bits cleared. */
  lemma CipheredTwice(s: seq<bv8>, ks: seq<bv32>, len: nat)
    requires 1 <= len <= 8 * |s| && Octets(len) <= 4 * |ks|
    ensures len <= 8 * Octets(len)
    ensures Ciphered(Ciphered(s, ks, len), ks, len) == Trimmed(s, len)
  {
    hide BitOf, BitAt, StreamBit, Ciphered, Trimmed;
    OctetsRoom(len, |s|);
    var c := Ciphered(s, ks, len);
    forall j | 0 <= j < 8 * Octets(len)
      ensures BitAt(Ciphered(c, ks, len), j) == BitAt(Trimmed(s, len), j)
    {
      CipheredBits(c, ks, len, j);
      CipheredBits(s, ks, len, j);
      TrimmedBits(s, len, j);
    }
    SameBits(Ciphered(c, ks, len), Trimmed(s, len));
  }

  // --- key and initialisation vector ---

  /** The key words, last four octets first. */
  function KeyWords(key: seq<bv8>): (k: seq<bv32>)
    requires |key| == 16
    ensures |k| == 4
  {
    [Joined(key[12], key[13], key[14], key[15]), Joined(key[8], key[9], key[10], key[11]),
     Joined(key[4], key[5], key[6], key[7]), Joined(key[0], key[1], key[2], key[3])]
  }

  function BearerWord(bearer: bv32, direction: bv32): bv32 {
    (bearer << 27) | ((direction & 1) << 26)
  }

  function CipherIv(count: bv32, bearer: bv32, direction: bv32): (iv: seq<bv32>)
    ensures |iv| == 4
  {
    [BearerWord(bearer, direction), count, BearerWord(bearer, direction), count]
  }

  /** The keystream of one message. */
  function CipherStream(key: seq<bv8>, count: bv32, bearer: bv32, direction: bv32, n: nat): (ks: seq<bv32>)
    requires |key| == 16
    ensures |ks| == n
  {
    Keystream(Initialized(KeyWords(key), CipherIv(count, bearer, direction)), n)
  }

  lemma BearerWordIs(bearer: bv32, direction: bv32)
    ensures BearerWord(bearer, direction) == (bearer << 27) | ((direction & 1) << 26)
  {
  }

  /** The key words are the key read as bits, 32 at a time, the last word first. */
  lemma KeyWordsBits(key: seq<bv8>, i: nat, j: nat)
    requires |key| == 16 && i < 4 && j < 32
    ensures WordBit(KeyWords(key)[3 - i], j) == BitAt(key, 32 * i + j)
  {
    hide WordBit, BitOf, Joined;
    JoinedBit(key, 4 * i, j);
  }

  /** Five bits of bearer, one of direction, zeros; and the count: both twice. */
  lemma CipherIvBits(count: bv32, bearer: bv32, direction: bv32, k: nat, j: nat)
    requires k < 4 && j < 32
    ensures WordBit(CipherIv(count, bearer, direction)[k], j) ==
            if k % 2 == 1 then WordBit(count, j)
            else (j < 5 && WordBit(bearer, 27 + j)) || (j == 5 && WordBit(direction, 31))
  {
    hide WordBit, BearerWord;
    BearerWordBits(bearer, direction, j);
  }

  lemma BearerWordBits(bearer: bv32, direction: bv32, j: nat)
    requires j < 32
    ensures WordBit(BearerWord(bearer, direction), j) == ((j < 5 && WordBit(bearer, 27 + j)) || (j == 5 && WordBit(direction, 31)))
  {
    hide *;
    BearerWordShifted(bearer, direction);
    WordBitOr(Shifted(bearer, 0, 27), Shifted(direction & 1, 0, 26), j);
    ShiftedAlone(bearer, 27, j);
    ShiftedAlone(direction & 1, 26, j);
    if j < 6 {
      LowestBit(direction, j + 26);
    }
  }

  lemma BearerWordShifted(bearer: bv32, direction: bv32)
    ensures BearerWord(bearer, direction) == Shifted(bearer, 0, 27) | Shifted(direction & 1, 0, 26)
  {
    hide Shifted;
    ShiftedUnfold(bearer, 0, 27, 27);
    ShiftedUnfold(direction & 1, 0, 26, 26);
  }

  lemma BearerLowBits(bearer: bv8, direction: bv8)
    ensures (((bearer & 0x1F) as bv32) << 27) | (((direction & 1) as bv32) << 26)
            == BearerWord(bearer as bv32, direction as bv32)
  {
  }

  function XorOfOctets(b0: bv8, b1: bv8, b2: bv8, b3: bv8): bv32 {
    ((b0 as bv32) << 24) ^ ((b1 as bv32) << 16) ^ ((b2 as bv32) << 8) ^ (b3 as bv32)
  }

  lemma XorIsJoined(b0: bv8, b1: bv8, b2: bv8, b3: bv8)
    ensures XorOfOctets(b0, b1, b2, b3) == Joined(b0, b1, b2, b3)
  {
  }

  // --- the operations ---

  /** liblte_security_encryption_eea1. The output may be the message buffer itself. */
  method EncryptionEea1(key: array?<bv8>, count: bv32, bearer: bv8, direction: bv8, msg: array?<bv8>, msgLen: nat,
                        out: array?<bv8>) returns (err: Error)
    requires key != null ==> key.Length == 16
    requires 1 <= msgLen <= 0xFFFFFFE0
    requires msg != null ==> msgLen <= 8 * msg.Length
    requires out != null ==> msgLen <= 8 * out.Length
    modifies out
    ensures err == if key != null && msg != null && out != null then Success else InvalidInputs
    ensures err == Success ==>
              Octets(msgLen) <= 4 * Words(msgLen)
              && out[..Octets(msgLen)] == Ciphered(old(msg[..]), CipherStream(old(key[..]), count, bearer as bv32, direction as bv32, Words(msgLen)), msgLen)
              && out[Octets(msgLen)..] == old(out[Octets(msgLen)..])
    ensures err != Success ==> out != null ==> out[..] == old(out[..])
  {
    hide Keystream, Initialized, Joined, Ciphered, Masked, Trimmed, BearerWord, CipherStream, StreamOctet;
    err := InvalidInputs;
    WordsRoom(msgLen);
    if key != null && msg != null && out != null {
      OctetsRoom(msgLen, msg.Length);
      OctetsRoom(msgLen, out.Length);
      var n := (msgLen + 31) / 32;
      var ks := StreamEea1(key, count, bearer, direction, n);
      MaskEea1(msg, out, ks, msgLen);
      ghost var t := out[..];
      ZeroTailingBits(out, msgLen);
      TrimmedPrefix(t, msgLen);
      CipheredIs(old(msg[..]), ks[..], msgLen);
      err := Success;
    }
  }

  lemma CipheredIs(s: seq<bv8>, ks: seq<bv32>, len: nat)
    requires 1 <= len <= 8 * |s| && Octets(len) <= 4 * |ks|
    ensures Octets(len) <= |s| && len <= 8 * Octets(len)
    ensures Ciphered(s, ks, len) == Trimmed(Masked(s, ks, Octets(len)), len)
  {
    OctetsRoom(len, |s|);
  }

  method StreamEea1(key: array<bv8>, count: bv32, bearer: bv8, direction: bv8, n: nat) returns (ks: array<bv32>)
    requires key.Length == 16
    ensures fresh(ks) && ks[..] == CipherStream(key[..], count, bearer as bv32, direction as bv32, n)
  {
    hide *;
    var k := KeyEea1(key);
    BearerLowBits(bearer, direction);
    var word := (((bearer & 0x1F) as bv32) << 27) | (((direction & 1) as bv32) << 26);
    var iv := [word, count, word, count];
    var state := new S3gState(k, iv);
    ks := new bv32[n];
    state.GenerateKeystream(n, ks);
    assert ks[..n] == ks[..];
    CipherStreamIs(key[..], count, bearer as bv32, direction as bv32, n);
  }

  lemma CipherStreamIs(key: seq<bv8>, count: bv32, bearer: bv32, direction: bv32, n: nat)
    requires |key| == 16
    ensures var w := BearerWord(bearer, direction);
            CipherStream(key, count, bearer, direction, n) == Keystream(Initialized(KeyWords(key), [w, count, w, count]), n)
  {
    hide Keystream, Initialized, KeyWords, BearerWord;
  }

  method KeyEea1(key: array<bv8>) returns (k: seq<bv32>)
    requires key.Length == 16
    ensures k == KeyWords(key[..])
  {
    hide Joined;
    k := [0, 0, 0, 0];
    var i := 3;
    while i >= 0
      invariant -1 <= i <= 3 && |k| == 4
      invariant forall j :: i < j < 4 ==> k[j] == KeyWords(key[..])[j]
    {
      var b := 4 * (3 - i);
      k := k[i := Joined(key[b], key[b + 1], key[b + 2], key[b + 3])];
      i := i - 1;
    }
  }

  /** Whether out[from..to] is src masked. */
  ghost predicate MaskedPart(src: seq<bv8>, ks: seq<bv32>, out: seq<bv8>, from: nat, to: nat)
    requires from <= to <= |src| && to <= |out| && to <= 4 * |ks|
  {
    forall j :: from <= j < to ==> out[j] == Xor8(src[j], StreamOctet(ks, j))
  }

  lemma MaskedPartGrows(src: seq<bv8>, ks: seq<bv32>, out: seq<bv8>, next: seq<bv8>, mid: nat, to: nat)
    requires mid <= to <= |src| && to <= |out| == |next| && to <= 4 * |ks|
    requires MaskedPart(src, ks, out, 0, mid) && MaskedPart(src, ks, next, mid, to)
    requires forall j :: 0 <= j < mid ==> next[j] == out[j]
    ensures MaskedPart(src, ks, next, 0, to)
  {
    hide Xor8, StreamOctet;
  }

  lemma MaskedPartWhole(src: seq<bv8>, ks: seq<bv32>, out: seq<bv8>, n: nat)
    requires n <= |src| && n <= |out| && n <= 4 * |ks|
    requires MaskedPart(src, ks, out, 0, n)
    ensures out[..n] == Masked(src, ks, n)
  {
    hide Xor8, StreamOctet;
  }

  lemma NothingMasked(src: seq<bv8>, ks: seq<bv32>, out: seq<bv8>)
    ensures MaskedPart(src, ks, out, 0, 0)
  {
  }

  /** Masks the four octets of word i. */
  method MaskWord(msg: array<bv8>, out: array<bv8>, ks: array<bv32>, i: nat, ghost src: seq<bv8>)
    requires i < ks.Length && 4 * i + 4 <= msg.Length && 4 * i + 4 <= out.Length && |src| == msg.Length
    requires forall j :: 4 * i <= j < msg.Length ==> msg[j] == src[j]
    modifies out
    ensures MaskedPart(src, ks[..], out[..], 4 * i, 4 * i + 4)
    ensures forall j :: 0 <= j < out.Length && !(4 * i <= j < 4 * i + 4) ==> out[j] == old(out[j])
  {
    hide Byte0, Byte1, Byte2, Byte3, Xor8, StreamOctet;
    WordOctets(ks[..], i);
    var w := ks[i];
    out[4 * i + 0] := Xor8(msg[4 * i + 0], Byte0(w));
    out[4 * i + 1] := Xor8(msg[4 * i + 1], Byte1(w));
    out[4 * i + 2] := Xor8(msg[4 * i + 2], Byte2(w));
    out[4 * i + 3] := Xor8(msg[4 * i + 3], Byte3(w));
  }

  /** Masks octet i. */
  method MaskOctet(msg: array<bv8>, out: array<bv8>, ks: array<bv32>, i: nat, ghost src: seq<bv8>)
    requires i < 4 * ks.Length && i < msg.Length && i < out.Length && |src| == msg.Length
    requires msg[i] == src[i]
    modifies out
    ensures MaskedPart(src, ks[..], out[..], i, i + 1)
    ensures forall j :: 0 <= j < out.Length && j != i ==> out[j] == old(out[j])
  {
    hide Xor8, StreamOctet, ShiftedOctet;
    StreamOctetShifts(ks[..], i);
    out[i] := Xor8(msg[i], ShiftedOctet(ks[i / 4], (3 - i % 4) * 8));
  }

  /** Adds the keystream, whole words first and then the octets of the last word. */
  method MaskEea1(msg: array<bv8>, out: array<bv8>, ks: array<bv32>, msgLen: nat)
    requires 1 <= msgLen && Octets(msgLen) <= msg.Length && Octets(msgLen) <= out.Length && ks.Length == Words(msgLen)
    requires Octets(msgLen) <= 4 * ks.Length
    modifies out
    ensures out[..Octets(msgLen)] == Masked(old(msg[..]), ks[..], Octets(msgLen))
    ensures out[Octets(msgLen)..] == old(out[Octets(msgLen)..])
  {
    hide MaskedPart, Masked;
    WordsRoom(msgLen);
    var octets := (msgLen + 7) / 8;
    var words := (msgLen + 31) / 32;
    ghost var src := msg[..];
    NothingMasked(src, ks[..], out[..]);
    var i := 0;
    while i < words - 1
      invariant 0 <= i <= words - 1
      invariant MaskedPart(src, ks[..], out[..], 0, 4 * i)
      invariant forall j :: 4 * i <= j < msg.Length ==> msg[j] == src[j]
      invariant forall j :: octets <= j < out.Length ==> out[j] == old(out[j])
    {
      ghost var before := out[..];
      MaskWord(msg, out, ks, i, src);
      MaskedPartGrows(src, ks[..], before, out[..], 4 * i, 4 * i + 4);
      i := i + 1;
    }
    i := (words - 1) * 4;
    while i < octets
      invariant 4 * (words - 1) <= i <= octets
      invariant MaskedPart(src, ks[..], out[..], 0, i)
      invariant forall j :: i <= j < msg.Length ==> msg[j] == src[j]
      invariant forall j :: octets <= j < out.Length ==> out[j] == old(out[j])
    {
      ghost var before := out[..];
      MaskOctet(msg, out, ks, i, src);
      MaskedPartGrows(src, ks[..], before, out[..], i, i + 1);
      i := i + 1;
    }
    MaskedPartWhole(src, ks[..], out[..], octets);
  }

  lemma WordOctets(ks: seq<bv32>, i: nat)
    requires i < |ks|
    ensures forall j :: 4 * i <= j < 4 * i + 4 ==> StreamOctet(ks, j) == WordOctet(ks[i], j - 4 * i)
  {
    hide WordOctet;
    forall j | 4 * i <= j < 4 * i + 4
      ensures StreamOctet(ks, j) == WordOctet(ks[i], j - 4 * i)
    {
      assert j / 4 == i && j % 4 == j - 4 * i;
    }
  }

  function ShiftedOctet(w: bv32, n: nat): bv8
    requires n <= 24
  {
    ((w >> n) & 0xFF) as bv8
  }

  lemma ShiftedOctets(w: bv32)
    ensures ShiftedOctet(w, 24) == Byte0(w) && ShiftedOctet(w, 16) == Byte1(w)
    ensures ShiftedOctet(w, 8) == Byte2(w) && ShiftedOctet(w, 0) == Byte3(w)
  {
  }

  lemma StreamOctetShifts(ks: seq<bv32>, i: nat)
    requires i < 4 * |ks|
    ensures ShiftedOctet(ks[i / 4], (3 - i % 4) * 8) == StreamOctet(ks, i)
  {
    hide ShiftedOctet, Byte0, Byte1, Byte2, Byte3;
    ShiftedOctets(ks[i / 4]);
  }

  method DecryptionEea1(key: array?<bv8>, count: bv32, bearer: bv8, direction: bv8, ct: array?<bv8>, ctLen: nat,
                        out: array?<bv8>) returns (err: Error)
    requires key != null ==> key.Length == 16
    requires 1 <= ctLen <= 0xFFFFFFE0
    requires ct != null ==> ctLen <= 8 * ct.Length
    requires out != null ==> ctLen <= 8 * out.Length
    modifies out
    ensures err == if key != null && ct != null && out != null then Success else InvalidInputs
    ensures err == Success ==>
              Octets(ctLen) <= 4 * Words(ctLen)
              && out[..Octets(ctLen)] == Ciphered(old(ct[..]), CipherStream(old(key[..]), count, bearer as bv32, direction as bv32, Words(ctLen)), ctLen)
              && out[Octets(ctLen)..] == old(out[Octets(ctLen)..])
    ensures err != Success ==> out != null ==> out[..] == old(out[..])
  {
    err := EncryptionEea1(key, count, bearer, direction, ct, ctLen, out);
  }

  /** snow3g_f8, in place on the message buffer. The buffer is read and written in whole words,
      so it extends to a multiple of four octets; octets after the message are masked too. */
  method Snow3gF8(registers: GlobalRegisters, key: array<bv8>, count: bv32, bearer: bv32, direction: bv32,
                  data: array<bv8>, length: nat)
    requires key.Length == 16 && key != data
    requires 1 <= length <= 0xFFFFFFE0 && 4 * Words(length) <= data.Length
    modifies registers, data
    ensures Octets(length) <= 4 * Words(length)
    ensures data[..Octets(length)] == Ciphered(old(data[..]), CipherStream(key[..], count, bearer, direction, Words(length)), length)
    ensures data[Octets(length)..4 * Words(length)] ==
            Masked(old(data[..]), CipherStream(key[..], count, bearer, direction, Words(length)), 4 * Words(length))[Octets(length)..]
    ensures data[4 * Words(length)..] == old(data[4 * Words(length)..])
  {
    hide Ciphered, Masked, Trimmed, CipherStream, BitOf, Cleared;
    WordsRoom(length);
    OctetsRoom(length, data.Length);
    var n := (length + 31) / 32;
    ghost var src := data[..];
    var ks := StreamF8(registers, key, count, bearer, direction, n);
    MaskF8(data, ks, n);
    ghost var t := data[..];
    assert t[..4 * n] == Masked(src, ks[..], 4 * n);
    MaskedPrefix(src, ks[..], Octets(length), 4 * n);
    Bits.PrefixOfPrefix(t, Octets(length), 4 * n);
    TrimmedPrefix(t, length);
    CipheredIs(src, ks[..], length);
    TrimLastOctet(data, length);
    BehindAgrees(data[..], t, Octets(length), 4 * n);
  }

  lemma BehindAgrees(a: seq<bv8>, b: seq<bv8>, n: nat, m: nat)
    requires n <= m <= |a| && |b| == |a| && a[n..] == b[n..]
    ensures a[n..m] == b[n..m] && a[m..] == b[m..]
  {
    Bits.DropThenTake(a, n, m - n);
    Bits.DropThenTake(b, n, m - n);
    assert a[n..][m - n..] == a[m..] && b[n..][m - n..] == b[m..];
  }

  lemma MaskedPrefix(s: seq<bv8>, ks: seq<bv32>, n: nat, m: nat)
    requires n <= m <= |s| && m <= 4 * |ks|
    ensures Masked(s, ks, m)[..n] == Masked(s, ks, n)
  {
    hide Xor8, StreamOctet;
  }

  /** The last step of f8: clears the spare bits when the length is not whole octets. */
  method TrimLastOctet(data: array<bv8>, length: nat)
    requires 1 <= length <= 8 * data.Length
    modifies data
    ensures Octets(length) <= data.Length
    ensures data[..Octets(length)] == Trimmed(old(data[..]), length)
    ensures data[Octets(length)..] == old(data[Octets(length)..])
  {
    OctetsRoom(length, data.Length);
    var lastbits := (8 - length % 8) % 8;
    if lastbits != 0 {
      LastOctet(length);
      MaskOfSpare(lastbits);
      ghost var x := data[length / 8];
      data[length / 8] := data[length / 8] & (((256 as bv16) - (1 << lastbits)) & 0xFF) as bv8;
    } else {
      NothingCleared(data[Octets(length) - 1]);
    }
  }

  lemma LastOctet(length: nat)
    requires length % 8 != 0
    ensures length / 8 == Octets(length) - 1
  {
  }

  lemma MaskOfSpare(n: nat)
    requires 1 <= n < 8
    ensures (((256 as bv16) - (1 << n)) & 0xFF) as bv8 == 0xFF << n
  {
  }

  method StreamF8(registers: GlobalRegisters, key: array<bv8>, count: bv32, bearer: bv32, direction: bv32, n: nat)
    returns (ks: array<bv32>)
    requires key.Length == 16
    modifies registers
    ensures fresh(ks) && ks[..] == CipherStream(key[..], count, bearer, direction, n)
  {
    hide *;
    var k := KeyF8(key);
    var word := (bearer << 27) | ((direction & 1) << 26);
    BearerWordIs(bearer, direction);
    var iv := [word, count, word, count];
    registers.Initialize(k, iv);
    ks := new bv32[n];
    registers.GenerateKeystream(n, ks);
    assert ks[..n] == ks[..];
    CipherStreamIs(key[..], count, bearer, direction, n);
  }

  method KeyF8(key: array<bv8>) returns (k: seq<bv32>)
    requires key.Length == 16
    ensures k == KeyWords(key[..])
  {
    hide Joined, XorOfOctets;
    k := [0, 0, 0, 0];
    var i := 0;
    while i < 4
      invariant 0 <= i <= 4 && |k| == 4
      invariant forall j :: 4 - i <= j < 4 ==> k[j] == KeyWords(key[..])[j]
    {
      var b := 4 * i;
      k := k[3 - i := XorOfOctets(key[b], key[b + 1], key[b + 2], key[b + 3])];
      XorIsJoined(key[b], key[b + 1], key[b + 2], key[b + 3]);
      i := i + 1;
    }
  }

  /** Masks n whole words in place. */
  method MaskF8(data: array<bv8>, ks: array<bv32>, n: nat)
    requires n == ks.Length && 4 * n <= data.Length
    modifies data
    ensures data[..4 * n] == Masked(old(data[..]), ks[..], 4 * n)
    ensures data[4 * n..] == old(data[4 * n..])
  {
    hide MaskedPart, Masked;
    ghost var src := data[..];
    NothingMasked(src, ks[..], data[..]);
    var i := 0;
    while i < n
      invariant 0 <= i <= n
      invariant MaskedPart(src, ks[..], data[..], 0, 4 * i)
      invariant forall j :: 4 * i <= j < data.Length ==> data[j] == src[j]
    {
      ghost var before := data[..];
      MaskWord(data, data, ks, i, src);
      MaskedPartGrows(src, ks[..], before, data[..], 4 * i, 4 * i + 4);
      i := i + 1;
    }
    MaskedPartWhole(src, ks[..], data[..], 4 * n);
  }

  /** The two ciphers give the same octets: encrypting into another buffer with one and in
      place with the other. Both leave the spare bits of the last octet clear. */
  method CiphersAgree(registers: GlobalRegisters, key: array<bv8>, count: bv32, bearer: bv8, direction: bv8,
                      data: array<bv8>, length: nat, out: array<bv8>)
    requires key.Length == 16 && key != data && key != out && out != data
    requires 1 <= length <= 0xFFFFFFE0 && 4 * Words(length) <= data.Length && length <= 8 * out.Length
    modifies registers, data, out
    ensures Octets(length) <= data.Length && Octets(length) <= out.Length
    ensures data[..Octets(length)] == out[..Octets(length)]
  {
    hide Ciphered, CipherStream;
    OctetsRoom(length, out.Length);
    WordsRoom(length);
    WordsCover(length);
    var err := EncryptionEea1(key, count, bearer, direction, data, length, out);
    Snow3gF8(registers, key, count, bearer as bv32, direction as bv32, data, length);
  }

  lemma WordsCover(length: nat)
    ensures length <= 32 * Words(length)
  {
  }
}
