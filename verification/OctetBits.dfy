/** Octets as bits, first bit on top, and bit strings that end inside an octet. */
module OctetBits {
  import opened XorWords

  predicate BitOf(x: bv8, r: nat)
    requires r < 8
  {
    x & (1 << (7 - r)) != 0
  }

  /** Bit j of a string of octets. */
  predicate BitAt(s: seq<bv8>, j: nat)
    requires j < 8 * |s|
  {
    BitOf(s[j / 8], j % 8)
  }

  lemma AndXor(a: bv8, b: bv8, m: bv8)
    ensures (a ^ b) & m == (a & m) ^ (b & m)
  {
  }

  lemma BitOfXor(a: bv8, b: bv8, r: nat)
    requires r < 8
    ensures BitOf(Xor8(a, b), r) == (BitOf(a, r) != BitOf(b, r))
  {
    AndXor(a, b, 1 << (7 - r));
    SingleBit(a, r);
    SingleBit(b, r);
    assert a & (1 << (7 - r)) == b & (1 << (7 - r)) <==> (a & (1 << (7 - r))) ^ (b & (1 << (7 - r))) == 0;
  }

  lemma SingleBit(a: bv8, r: nat)
    requires r < 8
    ensures a & (1 << (7 - r)) == 0 || a & (1 << (7 - r)) == 1 << (7 - r)
  {
  }

  lemma BitsDecide(a: bv8, b: bv8)
    requires forall r :: 0 <= r < 8 ==> BitOf(a, r) == BitOf(b, r)
    ensures a == b
  {
    assert BitOf(a, 0) == BitOf(b, 0) && BitOf(a, 1) == BitOf(b, 1) && BitOf(a, 2) == BitOf(b, 2) && BitOf(a, 3) == BitOf(b, 3);
    assert BitOf(a, 4) == BitOf(b, 4) && BitOf(a, 5) == BitOf(b, 5) && BitOf(a, 6) == BitOf(b, 6) && BitOf(a, 7) == BitOf(b, 7);
  }

  lemma SameBits(s: seq<bv8>, t: seq<bv8>)
    requires |s| == |t|
    requires forall j :: 0 <= j < 8 * |s| ==> BitAt(s, j) == BitAt(t, j)
    ensures s == t
  {
    forall i | 0 <= i < |s|
      ensures s[i] == t[i]
    {
      forall r | 0 <= r < 8
        ensures BitOf(s[i], r) == BitOf(t[i], r)
      {
        assert BitAt(s, 8 * i + r) == BitAt(t, 8 * i + r);
        assert (8 * i + r) / 8 == i && (8 * i + r) % 8 == r;
      }
      BitsDecide(s[i], t[i]);
    }
  }

  /** The octets that hold len bits. */
  function Octets(len: nat): nat {
    (len + 7) / 8
  }

  /** The bits of the last octet beyond len. */
  function Spare(len: nat): nat {
    (8 - len % 8) % 8
  }

  /** Clears the n lowest bits of an octet. */
  function Cleared(x: bv8, n: nat): bv8
    requires n < 8
  {
    x & (0xFF << n)
  }

  /** The octets of a message of len bits, the spare bits cleared. */
  function Trimmed(s: seq<bv8>, len: nat): (t: seq<bv8>)
    requires 1 <= len <= 8 * |s|
    ensures |t| == Octets(len)
  {
    s[..Octets(len) - 1] + [Cleared(s[Octets(len) - 1], Spare(len))]
  }

  lemma OctetsRoom(len: nat, n: nat)
    requires 1 <= len <= 8 * n
    ensures 1 <= Octets(len) <= n && len <= 8 * Octets(len) < len + 8
    ensures 8 * Octets(len) - len == Spare(len)
  {
  }

  lemma NothingCleared(x: bv8)
    ensures Cleared(x, 0) == x
  {
  }

  lemma ClearedBits(x: bv8, n: nat, r: nat)
    requires r < 8 && n < 8
    ensures BitOf(Cleared(x, n), r) == (r < 8 - n && BitOf(x, r))
  {
  }

  /** Trimming keeps the message bits and clears the others. */
  lemma TrimmedBits(s: seq<bv8>, len: nat, j: nat)
    requires 1 <= len <= 8 * |s| && j < 8 * Octets(len)
    ensures 8 * Octets(len) <= 8 * |s|
    ensures BitAt(Trimmed(s, len), j) == (j < len && BitAt(s, j))
  {
    hide BitOf, Cleared;
    OctetsRoom(len, |s|);
    var last := Octets(len) - 1;
    if j / 8 == last {
      ClearedBits(s[last], Spare(len), j % 8);
    }
  }

  /** A trimmed message depends on its message bits alone. */
  lemma TrimmedSame(s: seq<bv8>, t: seq<bv8>, len: nat)
    requires 1 <= len <= 8 * |s| && len <= 8 * |t|
    requires forall j :: 0 <= j < len ==> BitAt(s, j) == BitAt(t, j)
    ensures Trimmed(s, len) == Trimmed(t, len)
  {
    hide BitAt, Trimmed;
    forall j | 0 <= j < 8 * Octets(len)
      ensures BitAt(Trimmed(s, len), j) == BitAt(Trimmed(t, len), j)
    {
      TrimmedBits(s, len, j);
      TrimmedBits(t, len, j);
    }
    SameBits(Trimmed(s, len), Trimmed(t, len));
  }

  lemma TrimmedPrefix(s: seq<bv8>, len: nat)
    requires 1 <= len <= 8 * |s|
    ensures 1 <= Octets(len) <= |s| && len <= 8 * Octets(len)
    ensures Trimmed(s, len) == Trimmed(s[..Octets(len)], len)
  {
    hide Cleared;
    OctetsRoom(len, |s|);
  }

  /** zero_tailing_bits. */
  method ZeroTailingBits(data: array<bv8>, lengthBits: nat)
    requires 1 <= lengthBits <= 8 * data.Length
    modifies data
    ensures data[..Octets(lengthBits)] == Trimmed(old(data[..]), lengthBits)
    ensures data[Octets(lengthBits)..] == old(data[Octets(lengthBits)..])
  {
    OctetsRoom(lengthBits, data.Length);
    var bits := (8 - lengthBits % 8) % 8;
    var last := (lengthBits + 7) / 8 - 1;
    data[last] := Cleared(data[last], bits);
  }
}
