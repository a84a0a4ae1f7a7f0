/** Fields of a few bits in octets, most significant first, and the octets of a number. */
module FieldBits {
  import opened Bits

  function Total(widths: seq<nat>): nat {
    if widths == [] then 0 else widths[0] + Total(widths[1..])
  }

  lemma Totals(a: nat, b: nat, c: nat, d: nat)
    ensures Total([]) == 0 && Total([a]) == a && Total([a, b]) == a + b && Total([a, b, c, d]) == a + b + c + d
  {
    hide Total;
    assert [a] == [a] + [] && [b] == [b] + [] && [d] == [d] + [] && [a, b] == [a] + [b] && [c, d] == [c] + [d];
    assert [b, c, d] == [b] + [c, d] && [a, b, c, d] == [a] + [b, c, d];
    TotalStep(a, []);
    TotalStep(b, []);
    TotalStep(d, []);
    TotalStep(a, [b]);
    TotalStep(c, [d]);
    TotalStep(b, [c, d]);
    TotalStep(a, [b, c, d]);
  }

  lemma TotalStep(a: nat, rest: seq<nat>)
    ensures Total([]) == 0 && Total([a] + rest) == a + Total(rest)
  {
    assert ([a] + rest)[1..] == rest;
  }

  lemma OctetBits(x: byte)
    ensures BytesBits([x]) == NatBits(x, 8)
  {
    hide NatBits;
    assert BytesBits([x]) == NatBits(x, 8) + BytesBits([x][1..]) && [x][1..] == [] && BytesBits([]) == [];
  }

  /** A field of m bits above one of k bits. */
  lemma TwoFields(hi: nat, lo: nat, m: nat, k: nat)
    requires lo < Pow2(k)
    ensures NatBits(Shl(hi, k) + lo, m + k) == NatBits(hi, m) + NatBits(lo, k)
  {
    hide *;
    NatBitsSplit(Shl(hi, k) + lo, m, k);
    ShrLowUnique(hi, lo, k);
    NatBitsMod(Shl(hi, k) + lo, k, k);
  }

  lemma NoOctets(v: nat)
    ensures BytesBits([]) == NatBits(v, 0)
  {
  }

  /** Octets that spell the upper bits of a number, and its low octet. */
  lemma OneMoreOctet(s: seq<byte>, v: nat, n: nat)
    requires n == 8 * |s| && BytesBits(s) == NatBits(v / 256, n)
    ensures BytesBits(s + [v % 256]) == NatBits(v, n + 8)
  {
    hide *;
    Pow2Values();
    BytesBitsConcat(s, [v % 256]);
    OctetBits(v % 256);
    TwoFields(v / 256, v % 256, n, 8);
    ShlIs(v / 256, 8);
    assert v == v / 256 * 256 + v % 256;
  }

  lemma ShrIs(v: nat, k: nat)
    ensures Shr(v, k) == v / Pow2(k) && Low(v, k) == v % Pow2(k)
  {
  }

  lemma FlagBits(r: bool, f: bool)
    ensures NatBits((if r then 2 else 0) + (if f then 1 else 0), 2) == [r, f]
    ensures NatBits(if f then 1 else 0, 1) == [f]
    ensures NatBits(if f then 1 else 0, 3) == [false, false, f]
  {
    var v: nat := if f then 1 else 0;
    NatBitsEnds(v, 3);
    NatBitsEnds(0, 2);
    NatBitsEnds(0, 1);
    NatBitsEnds(v, 1);
  }
}
