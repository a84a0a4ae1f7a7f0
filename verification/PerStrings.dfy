/** Octet strings and bit strings over the bit cursor. */
module PerStrings {
  import opened Bits
  import opened BitRefs
  import opened PerSpec
  import opened PerCodec

  // ------------------------------------------------------------ bit strings

  /** Octets a bit string of n bits occupies. */
  function OctetsFor(n: nat): nat {
    (n + 7) / 8
  }

  /** Bits the top octet contributes. */
  function TopWidth(n: nat): nat
    requires n > 0
  {
    (n - 1) % 8 + 1
  }

  /** A bit string held in octets, least significant octet first, as the bits it goes out as:
      the top octet contributes its low bits, every other octet all eight. */
  ghost function BitstringBits(s: seq<byte>, n: nat): (b: seq<bool>)
    requires 0 < n && |s| == OctetsFor(n)
    ensures |b| == n
    decreases n
  {
    if n <= 8 then NatBits(s[0], n) else BitstringBits(s[1..], n - 8) + NatBits(s[0], 8)
  }

  /** The octets of a number's n low bits, least significant first, unused bits clear. */
  ghost function NumberOctets(v: nat, n: nat): (s: seq<byte>)
    requires 0 < n
    ensures |s| == OctetsFor(n)
    decreases n
  {
    Pow2Values();
    if n <= 8 then (Pow2Monotone(n, 8); [Low(v, n)]) else [Low(v, 8)] + NumberOctets(Shr(v, 8), n - 8)
  }

  /** The bit sent m places before the end is bit m % 8 of octet m / 8, counted from below. */
  lemma {:induction false} BitstringBit(s: seq<byte>, n: nat, m: nat)
    requires 0 < n && |s| == OctetsFor(n) && m < n
    ensures BitstringBits(s, n)[n - 1 - m] == (Shr(s[m / 8], m % 8) % 2 == 1)
    decreases n
  {
    hide Shr, NatBits;
    if n <= 8 {
      NatBitsAt(s[0], n, m);
    } else if m < 8 {
      NatBitsAt(s[0], 8, m);
    } else {
      BitstringBit(s[1..], n - 8, m - 8);
      assert (m - 8) / 8 == m / 8 - 1 && (m - 8) % 8 == m % 8;
    }
  }

  /** Sending a number's octets as a bit string sends the number's bits. */
  lemma {:induction false} NumberAsBitstring(v: nat, n: nat)
    requires 0 < n
    ensures BitstringBits(NumberOctets(v, n), n) == NatBits(v, n)
    decreases n
  {
    var s := NumberOctets(v, n);
    if n <= 8 {
      NatBitsMod(v, n, n);
    } else {
      assert s[1..] == NumberOctets(Shr(v, 8), n - 8);
      NumberAsBitstring(Shr(v, 8), n - 8);
      NatBitsSplit(v, n - 8, 8);
      NatBitsMod(v, 8, 8);
    }
  }

  /** Octets of a bit string with the unused bits of the top octet clear. */
  predicate Canonical(s: seq<byte>, n: nat) {
    0 < n && |s| == OctetsFor(n) && s[|s| - 1] < Pow2(TopWidth(n))
  }

  /** Such octets are the octets of the number that their bits spell. */
  lemma {:induction false} CanonicalOctets(s: seq<byte>, n: nat)
    requires Canonical(s, n)
    ensures NumberOctets(BitsNat(BitstringBits(s, n)), n) == s
    decreases n
  {
    hide *;
    CanonicalParts(s, n);
    if n <= 8 {
      BitsNatOfNatBits(s[0], n);
      LowSmall(s[0], n);
      NumberOctetsOne(s[0], n);
    } else {
      var b, v := BitstringBits(s[1..], n - 8), BitsNat(BitstringBits(s[1..], n - 8));
      CanonicalOctets(s[1..], n - 8);
      NumberOctetsStep(v, s[0], n - 8);
      BitsNatConcat(b, NatBits(s[0], 8));
      BitsNatOfNatBits(s[0], 8);
      Byte8(s[0]);
    }
  }

  lemma CanonicalParts(s: seq<byte>, n: nat)
    requires Canonical(s, n)
    ensures 0 < n && |s| == OctetsFor(n) > 0 && s == [s[0]] + s[1..]
    ensures n <= 8 ==> s == [s[0]] && s[0] < Pow2(n) && BitstringBits(s, n) == NatBits(s[0], n)
    ensures n > 8 ==> |s[1..]| == OctetsFor(n - 8) && Canonical(s[1..], n - 8) && BitstringBits(s, n) == BitstringBits(s[1..], n - 8) + NatBits(s[0], 8)
  {
    hide NatBits, Pow2;
  }

  /** Eight more bits behind a number are one more octet in front of its octets. */
  lemma NumberOctetsStep(v: nat, b: byte, n: nat)
    requires 0 < n
    ensures NumberOctets(Shl(v, 8) + b, n + 8) == [b] + NumberOctets(v, n)
  {
    Pow2Values();
    ShrLowUnique(v, b, 8);
  }

  /** The octets of any bit string of n bits are canonical. */
  lemma {:induction false} NumberOctetsCanonical(v: nat, n: nat)
    requires 0 < n
    ensures Canonical(NumberOctets(v, n), n)
    decreases n
  {
    hide BitsNat;
    if n > 8 {
      NumberOctetsCanonical(Shr(v, 8), n - 8);
    }
  }

  lemma {:induction false} NumberOctetsAt(v: nat, n: nat, i: nat)
    requires 0 < n && i < OctetsFor(n)
    ensures NumberOctets(v, n)[i] == if 8 * i + 8 <= n then Low(Shr(v, 8 * i), 8) else Low(Shr(v, 8 * i), n - 8 * i)
    decreases n
  {
    if i == 0 {
      assert Shr(v, 0) == v by { ShrZero(v); }
    } else {
      NumberOctetsAt(Shr(v, 8), n - 8, i - 1);
      ShrAdd(v, 8, 8 * (i - 1));
    }
  }

  lemma ShrAdd(v: nat, j: nat, k: nat)
    ensures Shr(Shr(v, j), k) == Shr(v, j + k)
  {
    hide *;
    ShrLow(v, j);
    var h := Shr(v, j);
    ShrLow(h, k);
    var q, r, lo := Shr(h, k), Low(h, k), Low(v, j);
    ShlBound(r, k, j);
    assert v == Shl(Shl(q, k) + r, j) + lo;
    ShlSum(Shl(q, k), r, j);
    ShlAdd(q, k, j);
    ShrLowUnique(q, Shl(r, j) + lo, k + j);
  }

  /** Stores the n low bits of a number, octet by octet, and clears the top octet's spare bits. */
  method NumberToBitstring(dst: array<byte>, number: nat, n: nat)
    requires 0 < n <= 64 && dst.Length >= OctetsFor(n)
    modifies dst
    ensures dst[..OctetsFor(n)] == NumberOctets(number, n)
    ensures forall j :: OctetsFor(n) <= j < dst.Length ==> dst[j] == old(dst[j])
  {
    hide *;
    var nofBytes := OctetsFor(n);
    OctetsShape(n);
    Pow2Values();
    var i := 0;
    while i < nofBytes
      invariant 0 <= i <= nofBytes
      invariant forall j :: 0 <= j < i ==> dst[j] == Low(Shr(number, 8 * j), 8)
      invariant forall j :: nofBytes <= j < dst.Length ==> dst[j] == old(dst[j])
    {
      dst[i] := Low(Shr(number, 8 * i), 8);
      i := i + 1;
    }
    var offset := n % 8;
    if offset > 0 {
      LowLow(Shr(number, 8 * (nofBytes - 1)), 8, offset);
      dst[nofBytes - 1] := Low(dst[nofBytes - 1], offset);
    }
    forall j | 0 <= j < nofBytes ensures dst[j] == NumberOctets(number, n)[j] {
      NumberOctetsAt(number, n, j);
    }
  }

  lemma OctetsShape(n: nat)
    requires n > 0
    ensures OctetsFor(n) > 0 && n % 8 < 8
    ensures n % 8 == 0 ==> 8 * OctetsFor(n) == n
    ensures n % 8 > 0 ==> 8 * (OctetsFor(n) - 1) + n % 8 == n
  {
  }

  lemma BitstringStep(s: seq<byte>, n: nat, j: nat)
    requires 0 < n && |s| == OctetsFor(n) && 0 < j < |s|
    ensures n - 8 * j > 0 && |s[j..]| == OctetsFor(n - 8 * j)
    ensures n - 8 * (j - 1) > 0 && |s[j - 1..]| == OctetsFor(n - 8 * (j - 1))
    ensures BitstringBits(s[j - 1..], n - 8 * (j - 1)) == BitstringBits(s[j..], n - 8 * j) + NatBits(s[j - 1], 8)
  {
    assert s[j - 1..][1..] == s[j..];
  }

  lemma BitstringTop(s: seq<byte>, n: nat)
    requires 0 < n && |s| == OctetsFor(n)
    ensures var k := |s|;
      && 0 < k && 0 < TopWidth(n) <= 8 && n - 8 * (k - 1) == TopWidth(n) && |s[k - 1..]| == OctetsFor(n - 8 * (k - 1))
      && BitstringBits(s[k - 1..], n - 8 * (k - 1)) == NatBits(s[k - 1], TopWidth(n))
  {
  }

  /** The top octet's significant bits first, then whole octets downwards. */
  method PackCommonBitstring(bref: BitRef, src: seq<byte>, n: nat) returns (code: Code)
    requires bref.Valid() && (n > 0 ==> |src| == OctetsFor(n))
    modifies bref`ptr, bref`offset, bref.buf
    ensures bref.Valid()
    ensures code == if n > 0 && old(bref.Pos()) + n <= 8 * bref.max then Success else EncodeFail
    ensures code == Success ==>
      bref.Pos() == old(bref.Pos()) + n && bref.Mem() == Overlay(old(bref.Mem()), old(bref.Pos()), BitstringBits(src, n))
    ensures n == 0 ==> bref.Pos() == old(bref.Pos()) && bref.Mem() == old(bref.Mem())
  {
    hide NatBits, BytesBits, Overlay, BitstringBits, OctetsFor, TopWidth;
    if n == 0 { return EncodeFail; }
    BitstringTop(src, n);
    ghost var mem0, p0 := bref.Mem(), bref.Pos();
    var nOcts := OctetsFor(n);
    var offset := TopWidth(n);
    code := bref.Pack(src[nOcts - 1], offset);
    if code != Success { return; }
    var i := 1;
    while i < nOcts
      invariant 1 <= i <= nOcts && bref.Valid()
      invariant n - 8 * (nOcts - i) > 0 && |src[nOcts - i..]| == OctetsFor(n - 8 * (nOcts - i))
      invariant bref.Pos() == p0 + (n - 8 * (nOcts - i)) <= 8 * bref.max
      invariant bref.Mem() == Overlay(mem0, p0, BitstringBits(src[nOcts - i..], n - 8 * (nOcts - i)))
    {
      BitstringStep(src, n, nOcts - i);
      ghost var soFar := BitstringBits(src[nOcts - i..], n - 8 * (nOcts - i));
      code := bref.Pack(src[nOcts - 1 - i], 8);
      if code != Success { return; }
      OverlayCompose(mem0, p0, soFar, NatBits(src[nOcts - 1 - i], 8));
      i := i + 1;
    }
    assert src[0..] == src;
    return Success;
  }

  /** Reads the top octet's significant bits, then whole octets downwards. */
  method UnpackCommonBitstring(dst: array<byte>, bref: BitRef, n: nat) returns (code: Code)
    requires bref.Valid() && dst != bref.buf && dst.Length >= OctetsFor(n)
    modifies bref`ptr, bref`offset, dst
    ensures bref.Valid()
    ensures code == if n > 0 && old(bref.Pos()) + n <= 8 * bref.max then Success else DecodeFail
    ensures code == Success ==>
      && n > 0 && bref.Pos() == old(bref.Pos()) + n
      && BitstringBits(dst[..OctetsFor(n)], n) == bref.Mem()[old(bref.Pos())..bref.Pos()]
      && dst[..OctetsFor(n)] == NumberOctets(BitsNat(bref.Mem()[old(bref.Pos())..bref.Pos()]), n)
  {
    hide *;
    Reach(bref);
    if n == 0 { return DecodeFail; }
    ghost var p0, mem := bref.Pos(), bref.Mem();
    var nOcts := OctetsFor(n);
    var offset := TopWidth(n);
    TopOctet(n);
    var u := bref.Unpack(offset);
    if u.code != Success { return u.code; }
    ReadField(mem, p0, offset, u.val);
    dst[nOcts - 1] := u.val;
    ghost var got: seq<byte> := [u.val];
    NumberOctetsOne(u.val, offset);
    var i := 1;
    while i < nOcts
      invariant 1 <= i <= nOcts && bref.Valid() && |got| == i
      invariant forall k :: 0 <= k < i ==> dst[nOcts - i + k] == got[k]
      invariant 0 < offset + 8 * (i - 1) && i == OctetsFor(offset + 8 * (i - 1))
      invariant bref.Pos() == p0 + (offset + 8 * (i - 1)) <= 8 * bref.max
      invariant got == NumberOctets(BitsNat(mem[p0..bref.Pos()]), offset + 8 * (i - 1))
    {
      ghost var q := bref.Pos();
      u := bref.Unpack(8);
      if u.code != Success { return u.code; }
      ReadField(mem, q, 8, u.val);
      OctetBehind(mem, p0, q, u.val, offset + 8 * (i - 1));
      dst[nOcts - 1 - i] := u.val;
      got := [u.val] + got;
      i := i + 1;
    }
    assert dst[..nOcts] == got;
    NumberAsBitstring(BitsNat(mem[p0..bref.Pos()]), n);
    NatBitsOfBitsNat(mem[p0..bref.Pos()]);
    return Success;
  }

  /** A bit string of fixed size into octets of its own. */
  method UnpackFixedBitstring(bref: BitRef, n: nat) returns (octets: seq<byte>, code: Code)
    requires bref.Valid() && 0 < n
    modifies bref`ptr, bref`offset
    ensures bref.Valid()
    ensures var g := ReadBitString(n, bref.Mem(), 8 * bref.max, old(bref.Pos()));
            (code == Success <==> g.GotOctets?) && (g.GotOctets? ==> octets == g.octets && bref.Pos() == g.next)
  {
    hide *;
    Reach(bref);
    ReadBitStringIs(n, bref.Mem(), 8 * bref.max, bref.Pos());
    var dst := new byte[OctetsFor(n)];
    code := UnpackCommonBitstring(dst, bref, n);
    octets := dst[..OctetsFor(n)];
  }

  lemma ReadBitStringIs(n: nat, mem: seq<bool>, limit: nat, p: nat)
    requires limit <= |mem| && 0 < n
    ensures ReadBitString(n, mem, limit, p)
            == if p + n > limit then NoOctets else GotOctets(NumberOctets(BitsNat(mem[p..p + n]), n), p + n)
  {
    hide NumberOctets, BitsNat;
  }

  lemma Reach(bref: BitRef)
    requires bref.Valid()
    ensures bref.Pos() <= 8 * bref.max <= |bref.Mem()|
  {
  }

  lemma TopOctet(n: nat)
    requires n > 0
    ensures 0 < OctetsFor(n) && 0 < TopWidth(n) <= 8 && n == TopWidth(n) + 8 * (OctetsFor(n) - 1)
    ensures OctetsFor(TopWidth(n)) == 1
  {
  }

  lemma NumberOctetsOne(v: byte, n: nat)
    requires 0 < n <= 8 && v < Pow2(n)
    ensures OctetsFor(n) == 1 && NumberOctets(v, n) == [v]
  {
    LowSmall(v, n);
  }

  /** The octet read behind the bits before it goes in front of their octets. */
  lemma OctetBehind(mem: seq<bool>, p: nat, q: nat, v: byte, n: nat)
    requires p <= q && q + 8 <= |mem| && 0 < n && v == BitsNat(mem[q..q + 8])
    ensures OctetsFor(n + 8) == OctetsFor(n) + 1
    ensures NumberOctets(BitsNat(mem[p..q + 8]), n + 8) == [v] + NumberOctets(BitsNat(mem[p..q]), n)
  {
    hide *;
    SplitSlice(mem, p, q, q + 8);
    BitsNatConcat(mem[p..q], mem[q..q + 8]);
    NumberOctetsStep(BitsNat(mem[p..q]), v, n);
    OneOctetMore(n);
  }

  lemma OneOctetMore(n: nat)
    ensures OctetsFor(n + 8) == OctetsFor(n) + 1
  {
  }

  /** A value read from n bits spells those bits, and fits an octet when n does. */
  lemma ReadField(mem: seq<bool>, p: nat, n: nat, v: nat)
    requires p + n <= |mem| && n <= 8 && v == BitsNat(mem[p..p + n])
    ensures v < 256 && v < Pow2(n) && NatBits(v, n) == mem[p..p + n]
  {
    NatBitsOfBitsNat(mem[p..p + n]);
    BitsNatBound(mem[p..p + n]);
    Pow2Monotone(n, 8);
    Pow2Values();
  }

  // ------------------------------------------------------------ octet strings

  /** The octets that a bit string of whole octets spells. */
  ghost function BitsOctets(b: seq<bool>): (s: seq<byte>)
    requires |b| % 8 == 0
    ensures 8 * |s| == |b|
    decreases |b|
  {
    if b == [] then [] else (EightBits(b[..8]); [BitsNat(b[..8])] + BitsOctets(b[8..]))
  }

  lemma EightBits(b: seq<bool>)
    requires |b| == 8
    ensures BitsNat(b) < 256 && NatBits(BitsNat(b), 8) == b
  {
    BitsNatBound(b);
    Pow2Values();
    NatBitsOfBitsNat(b);
  }

  lemma {:induction false} BitsOctetsSpell(b: seq<bool>)
    requires |b| % 8 == 0
    ensures BytesBits(BitsOctets(b)) == b
    decreases |b|
  {
    if b != [] {
      BitsOctetsSpell(b[8..]);
      EightBits(b[..8]);
      assert BitsOctets(b)[1..] == BitsOctets(b[8..]);
      assert b == b[..8] + b[8..];
    }
  }

  lemma OctetsOfBytes(s: seq<byte>)
    ensures BitsOctets(BytesBits(s)) == s
  {
    BitsOctetsSpell(BytesBits(s));
    BytesBitsInjective(BitsOctets(BytesBits(s)), s);
  }

  /** What a decoder takes from memory at p for a string. */
  datatype GotOctets = GotOctets(octets: seq<byte>, next: nat) | NoOctets

  /** A length determinant and that many octets. */
  ghost function ReadOctetString(aligned: bool, mem: seq<bool>, limit: nat, p: nat): (g: GotOctets)
    requires limit <= |mem|
    ensures g.GotOctets? ==> p <= g.next <= limit
  {
    var d := ReadLength(aligned, mem, limit, p);
    if d.Malformed? || d.next + 8 * d.val > limit then NoOctets
    else GotOctets(BitsOctets(mem[d.next..d.next + 8 * d.val]), d.next + 8 * d.val)
  }

  /** The bits of a string of fixed size. */
  ghost function ReadBitString(n: nat, mem: seq<bool>, limit: nat, p: nat): (g: GotOctets)
    requires limit <= |mem| && 0 < n
    ensures g.GotOctets? ==> p <= g.next <= limit
  {
    if p + n > limit then NoOctets else GotOctets(NumberOctets(BitsNat(mem[p..p + n]), n), p + n)
  }

  /** The position behind an octet string packed at p. */
  function EndOctets(octets: seq<byte>, aligned: bool, p: nat): (q: nat)
    requires |octets| < ASN_16K
    ensures q >= p
  {
    End(Length, |octets|, aligned, p) + 8 * |octets|
  }

  /** A length determinant and the octets behind it, one by one. */
  method PackUnboundedOctstring(bref: BitRef, octets: seq<byte>, aligned: bool) returns (code: Code)
    requires bref.Valid() && |octets| < TWO_TO_THE_32
    modifies bref`ptr, bref`offset, bref.buf
    ensures bref.Valid()
    ensures |octets| < ASN_16K ==>
      if EndOctets(octets, aligned, old(bref.Pos())) <= 8 * bref.max
      then code == Success && OctetsPacked(octets, aligned, old(bref.Mem()), old(bref.Pos()), bref.Mem(), bref.Pos())
      else code == EncodeFail
    ensures |octets| >= (if aligned then ASN_64K + 1 else ASN_16K) ==>
      code == EncodeFail && bref.Pos() == old(bref.Pos()) && bref.Mem() == old(bref.Mem())
  {
    var len: uint32 := |octets|;
    hide *;
    ghost var mem0, p0 := bref.Mem(), bref.Pos();
    Reach(bref);
    code := PackLength(bref, len, aligned);
    ghost var mem1, q := bref.Mem(), bref.Pos();
    if |octets| < ASN_16K { LengthExtent(octets, aligned, mem0, p0, mem1, q, 8 * bref.max); }
    if code != Success { return; }
    Reach(bref);
    code := PackOctets(bref, octets);
    if |octets| < ASN_16K && code == Success { OctetsPackedBy(octets, aligned, mem0, p0, mem1, q, bref.Mem()); }
  }

  /** Octets one by one, at any bit offset. */
  method PackOctets(bref: BitRef, octets: seq<byte>) returns (code: Code)
    requires bref.Valid()
    modifies bref`ptr, bref`offset, bref.buf
    ensures bref.Valid()
    ensures code == if old(bref.Pos()) + 8 * |octets| <= 8 * bref.max then Success else EncodeFail
    ensures code == Success ==>
      && bref.Pos() == old(bref.Pos()) + 8 * |octets|
      && bref.Mem() == Overlay(old(bref.Mem()), old(bref.Pos()), BytesBits(octets))
  {
    hide *;
    ghost var mem, q := bref.Mem(), bref.Pos();
    Reach(bref);
    OverlayAt(mem, q, []);
    assert octets[..0] == [];
    NoBits();
    var i := 0;
    while i < |octets|
      invariant 0 <= i <= |octets| && bref.Valid()
      invariant bref.Pos() == q + 8 * i <= 8 * bref.max
      invariant bref.Mem() == Overlay(mem, q, BytesBits(octets[..i]))
    {
      BytesBitsSnoc(octets, i);
      code := bref.Pack(octets[i], 8);
      if code != Success { return; }
      OverlayCompose(mem, q, BytesBits(octets[..i]), NatBits(octets[i], 8));
      i := i + 1;
    }
    assert octets[..|octets|] == octets;
    return Success;
  }

  /** Where the determinant of an octet string ends, and whether it and the octets fit. */
  lemma LengthExtent(octets: seq<byte>, aligned: bool, mem: seq<bool>, p: nat, mem': seq<bool>, q: nat, limit: nat)
    requires |octets| < ASN_16K
    ensures Encodable(Length, |octets|)
    ensures Packed(Length, |octets|, aligned, mem, p, mem', q) ==>
              q + 8 * |octets| == EndOctets(octets, aligned, p) && q <= |mem| == |mem'|
    ensures EndOctets(octets, aligned, p) <= limit ==> Fits(Length, |octets|, aligned, p, limit)
  {
    hide Encoding, Packed, Overlay, PadLen;
    if Packed(Length, |octets|, aligned, mem, p, mem', q) {
      PackedExtent(Length, |octets|, aligned, mem, p, mem', q);
    }
  }

  /** The whole effect of packing an octet string. */
  ghost predicate OctetsPacked(octets: seq<byte>, aligned: bool, mem: seq<bool>, p: nat, mem': seq<bool>, p': nat) {
    && |octets| < ASN_16K && p + PadLen(p) <= |mem|
    && p' == EndOctets(octets, aligned, p) <= |mem|
    && mem' == Overlay(mem, p, Laid(Length, |octets|, aligned, mem, p) + BytesBits(octets))
  }

  lemma OctetsPackedBy(octets: seq<byte>, aligned: bool, mem: seq<bool>, p: nat, mem1: seq<bool>, q: nat, mem2: seq<bool>)
    requires |octets| < ASN_16K && Packed(Length, |octets|, aligned, mem, p, mem1, q)
    requires q + 8 * |octets| <= |mem1| && mem2 == Overlay(mem1, q, BytesBits(octets))
    ensures OctetsPacked(octets, aligned, mem, p, mem2, q + 8 * |octets|)
  {
    hide *;
    PackedIs(Length, |octets|, aligned, mem, p, mem1, q);
    OverlayCompose(mem, p, Laid(Length, |octets|, aligned, mem, p), BytesBits(octets));
    EndOctetsIs(octets, aligned, p);
    OctetsPackedIf(octets, aligned, mem, p, mem2);
  }

  lemma EndOctetsIs(octets: seq<byte>, aligned: bool, p: nat)
    requires |octets| < ASN_16K && Encodable(Length, |octets|)
    ensures EndOctets(octets, aligned, p) == End(Length, |octets|, aligned, p) + 8 * |octets|
  {
    hide End;
  }

  lemma OctetsPackedIf(octets: seq<byte>, aligned: bool, mem: seq<bool>, p: nat, mem': seq<bool>)
    requires |octets| < ASN_16K && Encodable(Length, |octets|) && p + PadLen(p) <= |mem|
    requires EndOctets(octets, aligned, p) <= |mem| && p + |Laid(Length, |octets|, aligned, mem, p) + BytesBits(octets)| <= |mem|
    requires mem' == Overlay(mem, p, Laid(Length, |octets|, aligned, mem, p) + BytesBits(octets))
    ensures OctetsPacked(octets, aligned, mem, p, mem', EndOctets(octets, aligned, p))
  {
    hide EndOctets, Laid, Overlay, BytesBits, PadLen, Encodable;
  }

  lemma NoBits()
    ensures BytesBits([]) == []
  {
  }

  /** What was packed is read back, and what precedes it has not changed. */
  lemma OctetsPackedRead(octets: seq<byte>, aligned: bool, mem: seq<bool>, p: nat, mem': seq<bool>, p': nat, limit: nat)
    requires OctetsPacked(octets, aligned, mem, p, mem', p') && p' <= limit <= |mem|
    ensures p <= p' && |mem'| == |mem| && mem'[..p] == mem[..p]
    ensures ReadOctetString(aligned, mem', limit, p) == GotOctets(octets, p')
  {
    hide *;
    OctetsPackedParts(octets, aligned, mem, p, mem', p');
    var n := |octets|;
    var q := End(Length, n, aligned, p);
    var laid := Laid(Length, n, aligned, mem, p);
    var mem1 := Overlay(mem, p, laid);
    OverlayCompose(mem, p, laid, BytesBits(octets));
    OverlayAt(mem1, q, BytesBits(octets));
    LengthKept(aligned, n, mem, mem1, mem', limit, p, q);
    OctetsOfBytes(octets);
    ReadOctetStringIs(aligned, mem', limit, p, n, q);
  }

  lemma OctetsPackedParts(octets: seq<byte>, aligned: bool, mem: seq<bool>, p: nat, mem': seq<bool>, p': nat)
    requires OctetsPacked(octets, aligned, mem, p, mem', p')
    ensures |octets| < ASN_16K && Encodable(Length, |octets|) && p + PadLen(p) <= |mem|
    ensures var q, laid := End(Length, |octets|, aligned, p), Laid(Length, |octets|, aligned, mem, p);
            && q == p + |laid| && p' == q + 8 * |octets| <= |mem|
            && mem' == Overlay(mem, p, laid + BytesBits(octets))
            && Packed(Length, |octets|, aligned, mem, p, Overlay(mem, p, laid), q)
  {
    hide Overlay, Encoding, BytesBits, PadLen;
  }

  lemma ReadOctetStringIs(aligned: bool, mem: seq<bool>, limit: nat, p: nat, n: nat, q: nat)
    requires limit <= |mem| && ReadLength(aligned, mem, limit, p) == Decoded(n, q) && q + 8 * n <= limit
    ensures ReadOctetString(aligned, mem, limit, p) == GotOctets(BitsOctets(mem[q..q + 8 * n]), q + 8 * n)
  {
    hide ReadLength, BitsOctets;
  }

  /** Returns exactly what the decoder specification reads at the cursor. */
  method UnpackUnboundedOctstring(bref: BitRef, aligned: bool) returns (octets: seq<byte>, code: Code)
    requires bref.Valid()
    modifies bref`ptr, bref`offset
    ensures bref.Valid()
    ensures var g := ReadOctetString(aligned, bref.Mem(), 8 * bref.max, old(bref.Pos()));
            (code == Success <==> g.GotOctets?) && (g.GotOctets? ==> octets == g.octets && bref.Pos() == g.next)
  {
    hide *;
    ghost var mem, limit, p0 := bref.Mem(), 8 * bref.max, bref.Pos();
    Reach(bref);
    octets := [];
    var len := UnpackLength(bref, aligned);
    ghost var q := bref.Pos();
    ReadIsLength(aligned, mem, limit, p0);
    AgreesIs(len, q, ReadLength(aligned, mem, limit, p0));
    OctetStringCases(aligned, mem, limit, p0);
    if len.code != Success { return octets, len.code; }
    NoBits();
    assert mem[q..q] == [];
    var i := 0;
    while i < len.val
      invariant 0 <= i <= len.val && bref.Valid() && |octets| == i
      invariant bref.Pos() == q + 8 * i <= limit
      invariant BytesBits(octets) == mem[q..q + 8 * i]
    {
      var u := bref.Unpack(8);
      if u.code != Success { return octets, u.code; }
      ReadOctet(octets, u.val, mem, q, q + 8 * i + 8);
      octets := octets + [u.val];
      i := i + 1;
    }
    OctetsOfBytes(octets);
    code := Success;
  }

  lemma OctetStringCases(aligned: bool, mem: seq<bool>, limit: nat, p: nat)
    requires limit <= |mem|
    ensures var d, g := ReadLength(aligned, mem, limit, p), ReadOctetString(aligned, mem, limit, p);
            && (d.Decoded? ==> 0 <= d.val)
            && (g.GotOctets? <==> d.Decoded? && d.next + 8 * d.val <= limit)
            && (d.Decoded? && d.next + 8 * d.val <= limit ==>
                  g == GotOctets(BitsOctets(mem[d.next..d.next + 8 * d.val]), d.next + 8 * d.val))
  {
    hide ReadLength, BitsOctets;
  }

  // ------------------------------------------------------------ strings are decoded from their bits alone

  lemma OctetStringRelocated(aligned: bool, mem: seq<bool>, limit: nat, p: nat, other: seq<bool>, limit': nat, p': nat)
    requires limit <= |mem| && limit' <= |other| && SamePhase(aligned, p, p')
    requires var g := ReadOctetString(aligned, mem, limit, p);
      g.GotOctets? && p' + (g.next - p) <= limit' && SameBits(mem, p, other, p', g.next - p)
    ensures var g := ReadOctetString(aligned, mem, limit, p);
      ReadOctetString(aligned, other, limit', p') == GotOctets(g.octets, p' + (g.next - p))
  {
    hide *;
    OctetStringCases(aligned, mem, limit, p);
    var d, n := ReadLength(aligned, mem, limit, p), ReadOctetString(aligned, mem, limit, p).next - p;
    var i := d.next - p;
    SameBitsSlice(mem, p, other, p', n, 0, i);
    LengthRelocated(aligned, mem, limit, p, other, limit', p');
    SameBitsSlice(mem, p, other, p', n, i, 8 * d.val);
    SameBitsHolds(mem, p + i, other, p' + i, 8 * d.val);
    ReadOctetStringIs(aligned, other, limit', p', d.val, p' + i);
  }

  lemma BitStringRelocated(n: nat, mem: seq<bool>, limit: nat, p: nat, other: seq<bool>, limit': nat, p': nat)
    requires limit <= |mem| && limit' <= |other| && 0 < n
    requires var g := ReadBitString(n, mem, limit, p);
      g.GotOctets? && p' + (g.next - p) <= limit' && SameBits(mem, p, other, p', g.next - p)
    ensures var g := ReadBitString(n, mem, limit, p);
      ReadBitString(n, other, limit', p') == GotOctets(g.octets, p' + (g.next - p))
  {
    hide NumberOctets, BitsNat;
    SameBitsHolds(mem, p, other, p', n);
  }

  /** A bit string packed at p is read back. */
  lemma BitStringRead(octets: seq<byte>, n: nat, mem: seq<bool>, p: nat, mem': seq<bool>, limit: nat)
    requires Canonical(octets, n) && p + n <= limit <= |mem| && mem' == Overlay(mem, p, BitstringBits(octets, n))
    ensures |mem'| == |mem| && mem'[..p] == mem[..p] && ReadBitString(n, mem', limit, p) == GotOctets(octets, p + n)
  {
    hide BitstringBits, Overlay, NumberOctets, BitsNat;
    OverlayAt(mem, p, BitstringBits(octets, n));
    CanonicalOctets(octets, n);
  }
}
