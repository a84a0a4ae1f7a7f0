/** PER packers and unpackers that move a bit cursor over a byte buffer. */
module PerCodec {
  import opened Bits
  import opened BitRefs
  import opened PerSpec

  // Integers, length determinants and enumerations: packers are proved to lay down the encodings
  // of PerSpec, unpackers to decode every memory exactly as PerSpec.Read does.

  datatype Result = Result(val: int, code: Code)

  /** Packing (s, v) at p takes the bits [p, End). */
  function End(s: Shape, v: int, aligned: bool, p: nat): (q: nat)
    requires Encodable(s, v)
    ensures q >= p
  {
    Start(s, aligned, p) + |Encoding(s, v, aligned)|
  }

  /** The filler and the encoding, as laid down at p. */
  function Laid(s: Shape, v: int, aligned: bool, mem: seq<bool>, p: nat): (b: seq<bool>)
    requires Encodable(s, v) && p + PadLen(p) <= |mem|
    ensures |b| == End(s, v, aligned, p) - p
  {
    Filler(s, aligned, mem, p) + Encoding(s, v, aligned)
  }

  /** The whole effect of packing (s, v) at p: the cursor moves to the end of the encoding and
      memory holds the filler and the encoding there, and is cleared to the octet boundary. */
  ghost predicate Packed(s: Shape, v: int, aligned: bool, mem: seq<bool>, p: nat, mem': seq<bool>, p': nat) {
    && Encodable(s, v) && p + PadLen(p) <= |mem|
    && p' == End(s, v, aligned, p) <= |mem|
    && mem' == Overlay(mem, p, Laid(s, v, aligned, mem, p))
  }

  predicate Fits(s: Shape, v: int, aligned: bool, p: nat, limit: nat)
    requires Encodable(s, v)
  {
    End(s, v, aligned, p) <= limit
  }

  /** What was packed is decoded, and what precedes it has not changed. */
  lemma PackedReads(s: Shape, v: int, aligned: bool, mem: seq<bool>, p: nat, mem': seq<bool>, p': nat, limit: nat)
    requires ValidShape(s) && Packed(s, v, aligned, mem, p, mem', p') && p' <= limit <= |mem|
    ensures |mem'| == |mem| && mem'[..p] == mem[..p]
    ensures Read(s, aligned, mem', limit, p) == Decoded(v, p')
  {
    hide Read, Encoding, Overlay, OverlayBit, ValidShape, Encodable, Filler;
    var f, e := Filler(s, aligned, mem, p), Encoding(s, v, aligned);
    OverlayAt(mem, p, f + e);
    SliceOfSlice(mem', p, |f + e|, |f|, |e|);
    assert (f + e)[|f|..|f| + |e|] == e;
    ReadEncoded(s, v, aligned, mem', limit, p);
  }

  lemma PackedIs(s: Shape, v: int, aligned: bool, mem: seq<bool>, p: nat, mem': seq<bool>, p': nat)
    requires Packed(s, v, aligned, mem, p, mem', p')
    ensures Encodable(s, v) && p + PadLen(p) <= |mem| == |mem'|
    ensures p' == End(s, v, aligned, p) == p + |Laid(s, v, aligned, mem, p)| <= |mem|
    ensures mem' == Overlay(mem, p, Laid(s, v, aligned, mem, p))
  {
    hide Overlay, Encoding, PadLen;
  }

  lemma PackedExtent(s: Shape, v: int, aligned: bool, mem: seq<bool>, p: nat, mem': seq<bool>, p': nat)
    requires Packed(s, v, aligned, mem, p, mem', p')
    ensures Encodable(s, v) && p' == End(s, v, aligned, p)
    ensures p <= p' <= |mem| == |mem'|
    ensures s.Length? ==> ValidShape(s)
  {
  }

  /** The length determinant survives the octets written behind it. */
  lemma LengthKept(aligned: bool, n: nat, mem0: seq<bool>, mem1: seq<bool>, mem2: seq<bool>, limit: nat, p: nat, q: nat)
    requires n < ASN_16K && Packed(Length, n, aligned, mem0, p, mem1, q)
    requires q <= limit <= |mem1| == |mem2| && mem2[..q] == mem1[..q]
    ensures p <= q && |mem0| == |mem2| && mem2[..p] == mem0[..p] && ReadLength(aligned, mem2, limit, p) == Decoded(n, q)
  {
    PackedExtent(Length, n, aligned, mem0, p, mem1, q);
    hide *;
    PackedReads(Length, n, aligned, mem0, p, mem1, q, limit);
    TakeThenDrop(mem1, p, q);
    TakeThenDrop(mem2, p, q);
    PrefixOfPrefix(mem1, p, q);
    PrefixOfPrefix(mem2, p, q);
    SameBitsIs(mem1, p, mem2, p, q - p);
    SamePhaseIs(aligned, p);
    ReadIsLength(aligned, mem1, limit, p);
    LengthRelocated(aligned, mem1, limit, p, mem2, limit, p);
  }

  lemma ReadIsLength(aligned: bool, mem: seq<bool>, limit: nat, p: nat)
    requires limit <= |mem|
    ensures Read(Length, aligned, mem, limit, p) == ReadLength(aligned, mem, limit, p)
  {
    hide ReadLength;
  }

  lemma SamePhaseIs(aligned: bool, p: nat)
    ensures SamePhase(aligned, p, p)
  {
  }

  lemma SameBitsIs(mem: seq<bool>, p: nat, other: seq<bool>, p': nat, n: nat)
    requires p + n <= |mem| && p' + n <= |other| && mem[p..p + n] == other[p'..p' + n]
    ensures SameBits(mem, p, other, p', n)
  {
  }

  lemma PadFits(n: nat, p: nat)
    requires p <= 8 * n
    ensures p + PadLen(p) <= 8 * n
  {
  }

  // ------------------------------------------------------------ constrained whole numbers

  /** X.691 section 10.5: an integer between two bounds. The unaligned branch drops the code of
      its only write, so it reports success even when the field did not fit. */
  method PackConstrainedWholeNumber(bref: BitRef, t: IntType, n: int, lb: int, ub: int, aligned: bool)
    returns (code: Code)
    requires bref.Valid() && t.Holds(n) && ValidShape(Constrained(t, lb, ub))
    modifies bref`ptr, bref`offset, bref.buf
    ensures bref.Valid()
    ensures !(lb <= n <= ub) ==> code == EncodeFail && bref.Pos() == old(bref.Pos()) && bref.Mem() == old(bref.Mem())
    ensures lb <= n <= ub ==>
      var s := Constrained(t, lb, ub);
      if Fits(s, n, aligned, old(bref.Pos()), 8 * bref.max)
      then code == Success && Packed(s, n, aligned, old(bref.Mem()), old(bref.Pos()), bref.Mem(), bref.Pos())
      else code == if aligned then EncodeFail else Success
    ensures lb <= n <= ub && !aligned ==>
      var s := Constrained(t, lb, ub);
      var room := 8 * bref.max - old(bref.Pos());
      !Fits(s, n, false, old(bref.Pos()), 8 * bref.max) ==>
        bref.Pos() == 8 * bref.max && 0 <= room < |Encoding(s, n, false)|
        && bref.Mem() == Overlay(old(bref.Mem()), old(bref.Pos()), Encoding(s, n, false)[..room])
  {
    hide *;
    if ub < lb || n < lb || n > ub { return EncodeFail; }
    var ra := ub - lb + 1;
    ghost var s, mem0, p0 := Constrained(t, lb, ub), bref.Mem(), bref.Pos();
    ConstrainedIs(s, n);
    Room(bref);
    PadRoom(bref);
    FitsIs(s, n, aligned, p0, 8 * bref.max);
    if ra == 1 {
      ConstantPlaced(s, n, aligned, mem0, p0);
      return Success;
    }
    var nBits := CeilLog2(ra);
    var toEncode := t.Wrap(n - lb);
    FieldWidth(ra);
    if !aligned {
      FieldPlaced(s, n, aligned, mem0, p0);
      UnalignedField(s, n);
      var _ := bref.Pack(ToUint32(toEncode), nBits);
      return Success;
    } else if ra < 256 {
      FieldPlaced(s, n, aligned, mem0, p0);
      code := bref.Pack(ToUint32(toEncode), nBits);
    } else {
      OctetsPlaced(s, n, mem0, p0);
      code := PackWholeOctets(bref, ToUint32(toEncode), nBits);
    }
  }

  /** Without alignment the encoding is the field alone. */
  lemma UnalignedField(s: Shape, n: int)
    requires s.Constrained? && ValidShape(s) && Encodable(s, n) && Range(s) > 1
    ensures Encoding(s, n, false) == NatBits(ToUint32(s.t.Wrap(n - s.lb)), CeilLog2(Range(s)))
  {
    hide *;
    ConstrainedParts(s, n);
    ConstrainedEncoding(s, n, false);
    NarrowWidth(s, false);
    WrapField(s.t, n - s.lb, CeilLog2(Range(s)));
  }

  lemma ConstrainedIs(s: Shape, n: int)
    requires s.Constrained? && ValidShape(s) && s.t.Holds(n) && s.lb <= n <= s.ub
    ensures Encodable(s, n) && Range(s) == s.ub - s.lb + 1 && 0 < Range(s) <= ASN_64K
  {
    hide IntType.Wrap, IntType.Holds;
  }

  /** The branch for one- and two-octet fields: align, leading zeros, value, align again. */
  method PackWholeOctets(bref: BitRef, val: uint32, nBits: nat) returns (code: Code)
    requires bref.Valid() && nBits <= 16
    modifies bref`ptr, bref`offset, bref.buf
    ensures bref.Valid()
    ensures code == if OctetsEnd(old(bref.Pos()), nBits) <= 8 * bref.max then Success else EncodeFail
    ensures code == Success ==>
      && bref.Pos() == OctetsEnd(old(bref.Pos()), nBits)
      && bref.Mem() == OctetsWritten(old(bref.Mem()), old(bref.Pos()), val, nBits)
  {
    hide NatBits, Overlay, OverlayBit, BytesBits, PadLen;
    var nOctets := (nBits + 7) / 8;
    code := bref.AlignBytesZero();
    code := bref.Pack(0, nOctets * 8 - nBits);
    if code != Success { return; }
    code := bref.Pack(val, nBits);
    if code != Success { return; }
    WholeOctets(old(bref.Pos()), nBits);
    OverlayNothing(bref.Mem(), bref.Pos());
    code := bref.AlignBytesZero();
  }

  function OctetsEnd(p: nat, n: nat): nat {
    p + PadLen(p) + (n + 7) / 8 * 8
  }

  ghost function OctetsWritten(mem: seq<bool>, p: nat, val: uint32, n: nat): seq<bool>
    requires OctetsEnd(p, n) <= |mem|
  {
    var lead := (n + 7) / 8 * 8 - n;
    var p1 := p + PadLen(p);
    Overlay(Overlay(Overlay(mem, p, Zeros(PadLen(p))), p1, NatBits(0, lead)), p1 + lead, NatBits(val, n))
  }

  lemma WholeOctets(p: nat, n: nat)
    ensures OctetsEnd(p, n) % 8 == 0
  {
  }

  lemma ConstantPlaced(s: Shape, v: int, aligned: bool, mem: seq<bool>, p: nat)
    requires s.Constrained? && Range(s) == 1 && Encodable(s, v) && p + PadLen(p) <= |mem|
    ensures End(s, v, aligned, p) == p && Packed(s, v, aligned, mem, p, mem, p)
  {
    assert Laid(s, v, aligned, mem, p) == [];
    OverlayAt(mem, p, []);
  }

  /** A bare bit field is the whole encoding below 256 values and in the unaligned variant. */
  lemma FieldPlaced(s: Shape, v: int, aligned: bool, mem: seq<bool>, p: nat)
    requires s.Constrained? && ValidShape(s) && Encodable(s, v) && p + PadLen(p) <= |mem|
    requires Range(s) > 1 && !(aligned && Range(s) >= 256)
    ensures var field := NatBits(ToUint32(s.t.Wrap(v - s.lb)), CeilLog2(Range(s)));
      && CeilLog2(Range(s)) <= 16
      && End(s, v, aligned, p) == p + |field|
      && (p + |field| <= |mem| ==> Packed(s, v, aligned, mem, p, Overlay(mem, p, field), p + |field|))
  {
    hide *;
    var n := CeilLog2(Range(s));
    ConstrainedParts(s, v);
    ConstrainedEncoding(s, v, aligned);
    NarrowWidth(s, aligned);
    WrapField(s.t, v - s.lb, n);
    BareLaid(s, v, aligned, mem, p);
    if End(s, v, aligned, p) <= |mem| {
      PackedBy(s, v, aligned, mem, p);
    }
  }

  lemma NarrowWidth(s: Shape, aligned: bool)
    requires s.Constrained? && Range(s) > 1 && !(aligned && Range(s) >= 256)
    ensures ConstrainedWidth(s, aligned) == CeilLog2(Range(s))
  {
    hide CeilLog2;
  }

  /** Without alignment nothing precedes the encoding. */
  lemma BareLaid(s: Shape, v: int, aligned: bool, mem: seq<bool>, p: nat)
    requires Encodable(s, v) && p + PadLen(p) <= |mem| && s.Constrained? && !(aligned && Range(s) >= 256)
    ensures Laid(s, v, aligned, mem, p) == Encoding(s, v, aligned) && End(s, v, aligned, p) == p + |Encoding(s, v, aligned)|
  {
    hide Encoding, Encodable, PadLen;
    assert [] + Encoding(s, v, aligned) == Encoding(s, v, aligned);
  }

  /** The octet-aligned form: leading zeros that fill octets, then the significant bits. */
  lemma OctetsEncoding(s: Shape, v: int)
    requires s.Constrained? && ValidShape(s) && Encodable(s, v) && Range(s) >= 256
    ensures var n := CeilLog2(Range(s));
      && n <= 16
      && Encoding(s, v, true) == NatBits(0, (n + 7) / 8 * 8 - n) + NatBits(ToUint32(s.t.Wrap(v - s.lb)), n)
  {
    hide NatBits, Pow2, IntType.Wrap, CeilLog2, IntType.Holds, Encoding;
    var n := CeilLog2(Range(s));
    FieldWidth(Range(s));
    ConstrainedEncoding(s, v, true);
    WrapField(s.t, v - s.lb, n);
    LeadingZeros(v - s.lb, (n + 7) / 8 * 8 - n, n);
    assert ConstrainedWidth(s, true) == (n + 7) / 8 * 8;
  }

  /** Filler, leading zeros and field, written one after the other. */
  lemma OctetsPlaced(s: Shape, v: int, mem: seq<bool>, p: nat)
    requires s.Constrained? && ValidShape(s) && Encodable(s, v) && Range(s) >= 256 && p + PadLen(p) <= |mem|
    ensures CeilLog2(Range(s)) <= 16
    ensures End(s, v, true, p) == OctetsEnd(p, CeilLog2(Range(s)))
    ensures OctetsEnd(p, CeilLog2(Range(s))) <= |mem| ==>
      Packed(s, v, true, mem, p,
        OctetsWritten(mem, p, ToUint32(s.t.Wrap(v - s.lb)), CeilLog2(Range(s))),
        OctetsEnd(p, CeilLog2(Range(s))))
  {
    hide Encoding, Encodable, ValidShape, NatBits, Overlay, CeilLog2, IntType.Wrap, Packed, Laid, End, PadLen;
    OctetsEncoding(s, v);
    var n := CeilLog2(Range(s));
    var z, field := NatBits(0, (n + 7) / 8 * 8 - n), NatBits(ToUint32(s.t.Wrap(v - s.lb)), n);
    OctetsLaid(s, v, mem, p, z, field);
    if OctetsEnd(p, n) <= |mem| {
      ThreeWrites(mem, p, Zeros(PadLen(p)), z, field);
      PackedBy(s, v, true, mem, p);
    }
  }

  lemma OctetsLaid(s: Shape, v: int, mem: seq<bool>, p: nat, z: seq<bool>, field: seq<bool>)
    requires s.Constrained? && Encodable(s, v) && Range(s) >= 256 && p + PadLen(p) <= |mem|
    requires Encoding(s, v, true) == z + field
    ensures Laid(s, v, true, mem, p) == Zeros(PadLen(p)) + (z + field)
    ensures End(s, v, true, p) == p + PadLen(p) + |z| + |field|
  {
    hide Encoding, Encodable, PadLen;
  }

  lemma PackedBy(s: Shape, v: int, aligned: bool, mem: seq<bool>, p: nat)
    requires Encodable(s, v) && p + PadLen(p) <= |mem| && End(s, v, aligned, p) <= |mem|
    ensures Packed(s, v, aligned, mem, p, Overlay(mem, p, Laid(s, v, aligned, mem, p)), End(s, v, aligned, p))
  {
  }

  lemma ThreeWrites(mem: seq<bool>, p: nat, a: seq<bool>, b: seq<bool>, c: seq<bool>)
    requires p + |a| + |b| + |c| <= |mem|
    ensures Overlay(Overlay(Overlay(mem, p, a), p + |a|, b), p + |a| + |b|, c) == Overlay(mem, p, a + (b + c))
  {
    hide *;
    OverlayCompose(mem, p, a, b);
    OverlayCompose(mem, p, a + b, c);
    assert a + b + c == a + (b + c);
  }

  lemma OverlayNothing(mem: seq<bool>, p: nat)
    requires p <= |mem| && p % 8 == 0
    ensures PadLen(p) == 0 && Overlay(mem, p, Zeros(PadLen(p))) == mem
  {
    assert Zeros(0) == [];
    OverlayAt(mem, p, []);
  }

  lemma LeadingZeros(v: nat, m: nat, n: nat)
    requires v < Pow2(n)
    ensures NatBits(0, m) + NatBits(v, n) == NatBits(v, m + n)
  {
    NatBitsSplit(v, m, n);
    LowSmall(v, n);
  }

  /** What an unpacker reports, against the decoding memory calls for. */
  ghost predicate Agrees(r: Result, p': nat, d: Decoded) {
    && (r.code == Success <==> d.Decoded?)
    && (d.Decoded? ==> r.val == d.val && p' == d.next)
  }

  method UnpackConstrainedWholeNumber(bref: BitRef, t: IntType, lb: int, ub: int, aligned: bool)
    returns (r: Result)
    requires bref.Valid() && ub - lb < ASN_64K
    modifies bref`ptr, bref`offset
    ensures bref.Valid()
    ensures Agrees(r, bref.Pos(),
      Read(Constrained(t, lb, ub), aligned, bref.Mem(), 8 * bref.max, old(bref.Pos())))
  {
    hide BitsNat, BytesBits, Pow2, IntType.Wrap, CeilLog2, PadLen;
    if ub < lb { return Result(0, DecodeFail); }
    var ra := ub - lb + 1;
    if ra == 1 { return Result(lb, Success); }
    ghost var s := Constrained(t, lb, ub);
    ReadConstrainedOffset(s, aligned, bref.Mem(), 8 * bref.max, bref.Pos());
    var nBits := CeilLog2(ra);
    FieldWidth(ra);
    var u: ValOrError;
    if !aligned {
      u := bref.Unpack(nBits);
      if u.code != Success { return Result(0, u.code); }
      var n := t.Wrap(t.Wrap(u.val) + lb);
      return Result(n, if n > ub then DecodeFail else Success);
    } else if ra < 256 {
      u := bref.Unpack(nBits);
    } else {
      u := UnpackWholeOctets(bref, (nBits + 7) / 8);
    }
    if u.code != Success { return Result(0, u.code); }
    return Result(t.Wrap(t.Wrap(u.val) + lb), Success);
  }

  /** The branch for one- and two-octet fields: align, read, align again. */
  method UnpackWholeOctets(bref: BitRef, nOctets: nat) returns (u: ValOrError)
    requires bref.Valid() && nOctets <= 2
    modifies bref`ptr, bref`offset
    ensures bref.Valid()
    ensures var d := ReadNat(bref.Mem(), 8 * bref.max, old(bref.Pos()) + PadLen(old(bref.Pos())), nOctets * 8);
      && (u.code == Success <==> d.Decoded?)
      && (d.Decoded? ==> d == Decoded(u.val, bref.Pos()))
  {
    NoPadAfterOctets(bref.Pos(), nOctets);
    hide BitsNat, BytesBits, Pow2, PadLen;
    var code := bref.AlignBytes();
    u := bref.Unpack(nOctets * 8);
    if u.code != Success { return; }
    code := bref.AlignBytes();
  }

  lemma NoPadAfterOctets(p: nat, n: nat)
    ensures PadLen(p + PadLen(p) + n * 8) == 0
  {
  }

  // ------------------------------------------------------------ normally small numbers

  /** X.691 section 10.6: one clear bit and six bits; larger numbers are refused after the
      marker bit has been written. */
  method PackSmall(bref: BitRef, n: uint32) returns (code: Code)
    requires bref.Valid()
    modifies bref`ptr, bref`offset, bref.buf
    ensures bref.Valid()
    ensures code == if n <= 63 && old(bref.Pos()) + 7 <= 8 * bref.max then Success else EncodeFail
    ensures code == Success ==>
      bref.Pos() == old(bref.Pos()) + 7 && bref.Mem() == Overlay(old(bref.Mem()), old(bref.Pos()), NatBits(n, 7))
  {
    if n <= 63 {
      code := bref.Pack(n, 7);
    } else {
      code := bref.Pack(1, 1);
      return EncodeFail;
    }
  }

  method UnpackSmall(bref: BitRef) returns (r: Result)
    requires bref.Valid()
    modifies bref`ptr, bref`offset
    ensures bref.Valid()
    ensures Agrees(r, bref.Pos(), ReadSmall(bref.Mem(), 8 * bref.max, old(bref.Pos())))
  {
    hide BytesBits, Pow2;
    var ext := bref.Unpack(1);
    if ext.code != Success { return Result(0, ext.code); }
    OneBit(bref.Mem(), old(bref.Pos()));
    if ext.val != 0 { return Result(0, DecodeFail); }
    var u := bref.Unpack(6);
    return Result(u.val, u.code);
  }

  lemma OneBit(mem: seq<bool>, p: nat)
    requires p < |mem|
    ensures BitsNat(mem[p..p + 1]) == if mem[p] then 1 else 0
  {
    assert mem[p..p + 1] == [mem[p]];
  }

  // ------------------------------------------------------------ length determinants

  /** Writing after bits that are left alone. */
  lemma OverlayKeep(mem: seq<bool>, p: nat, q: nat, e: seq<bool>)
    requires p <= q && q + |e| <= |mem| && e != []
    ensures Overlay(mem, p, mem[p..q] + e) == Overlay(mem, q, e)
  {
    var a := mem[p..q] + e;
    assert p + |a| == q + |e|;
    forall i | 0 <= i < |mem| ensures OverlayBit(mem, p, a, i) == OverlayBit(mem, q, e, i) {
      if p <= i < q { assert a[i - p] == mem[i]; }
    }
  }

  lemma LengthPlaced(v: int, aligned: bool, mem: seq<bool>, p: nat)
    requires Encodable(Length, v) && p + PadLen(p) <= |mem|
    ensures var q, e := Start(Length, aligned, p), Encoding(Length, v, aligned);
      && End(Length, v, aligned, p) == q + |e|
      && (q + |e| <= |mem| ==> Packed(Length, v, aligned, mem, p, Overlay(mem, q, e), q + |e|))
  {
    hide NatBits, Overlay;
    var q, e := Start(Length, aligned, p), Encoding(Length, v, aligned);
    if q + |e| <= |mem| {
      OverlayKeep(mem, p, q, e);
      assert Filler(Length, aligned, mem, p) == mem[p..q];
    }
  }

  /** The fragmented form the aligned packer emits from 16K to 64K: 11, a multiplier of 16K in
      six bits, and the remainder in sixteen. */
  function Fragmented(v: nat): seq<bool> {
    [true, true] + (NatBits(v / ASN_16K, 6) + NatBits(v - v / ASN_16K * ASN_16K, 16))
  }

  /** X.691 section 10.9. Below 16K both variants write the standard form. The fragmented form
      is written too, but no decoder of this codec takes it back. */
  method PackLength(bref: BitRef, val: uint32, aligned: bool) returns (code: Code)
    requires bref.Valid()
    modifies bref`ptr, bref`offset, bref.buf
    ensures bref.Valid()
    ensures val < ASN_16K ==>
      if Fits(Length, val, aligned, old(bref.Pos()), 8 * bref.max)
      then code == Success && Packed(Length, val, aligned, old(bref.Mem()), old(bref.Pos()), bref.Mem(), bref.Pos())
      else code == EncodeFail
    ensures val >= (if aligned then ASN_64K + 1 else ASN_16K) ==>
      code == EncodeFail && bref.Pos() == old(bref.Pos()) && bref.Mem() == old(bref.Mem())
    ensures aligned && ASN_16K <= val <= ASN_64K ==>
      var q := old(bref.Pos()) + PadLen(old(bref.Pos()));
      && code == (if q + 24 <= 8 * bref.max then Success else EncodeFail)
      && (code == Success ==>
        && bref.Pos() == q + 24 && bref.Mem() == Overlay(old(bref.Mem()), q, Fragmented(val))
        && Read(Length, true, bref.Mem(), 8 * bref.max, old(bref.Pos())) == Malformed)
  {
    hide *;
    Sizes();
    Room(bref);
    if !aligned {
      if val < ASN_16K {
        code := PackShortForm(bref, val, false, bref.Mem(), bref.Pos());
      } else {
        return EncodeFail;
      }
    } else {
      if val > ASN_64K { return EncodeFail; }
      ghost var mem0, p0 := bref.Mem(), bref.Pos();
      code := bref.AlignBytes();
      if val < ASN_16K {
        code := PackShortForm(bref, val, true, mem0, p0);
      } else {
        code := PackLongForm(bref, val, mem0, p0);
      }
    }
  }

  /** The form below 16K, behind the filler when there is one. */
  method PackShortForm(bref: BitRef, val: uint32, ghost aligned: bool, ghost mem: seq<bool>, ghost p: nat) returns (code: Code)
    requires bref.Valid() && bref.Mem() == mem && bref.Pos() == (if aligned then p + PadLen(p) else p)
    requires p <= bref.Pos() && val < ASN_16K && p <= |mem|
    modifies bref`ptr, bref`offset, bref.buf
    ensures bref.Valid() && Encodable(Length, val)
    ensures if Fits(Length, val, aligned, p, 8 * bref.max)
            then code == Success && Packed(Length, val, aligned, mem, p, bref.Mem(), bref.Pos())
            else code == EncodeFail
  {
    hide *;
    Room(bref);
    PadFits(bref.buf.Length, p);
    LengthStart(aligned, p);
    LengthFits(val, aligned, mem, p, 8 * bref.max);
    code := PackDeterminant(bref, val);
  }

  /** The aligned form from 16K to 64K, behind the filler. */
  method PackLongForm(bref: BitRef, val: uint32, ghost mem: seq<bool>, ghost p: nat) returns (code: Code)
    requires bref.Valid() && bref.Mem() == mem && bref.Pos() == p + PadLen(p) && ASN_16K <= val <= ASN_64K
    modifies bref`ptr, bref`offset, bref.buf
    ensures bref.Valid()
    ensures code == if p + PadLen(p) + 24 <= 8 * bref.max then Success else EncodeFail
    ensures code == Success ==>
      && bref.Pos() == p + PadLen(p) + 24 && bref.Mem() == Overlay(mem, p + PadLen(p), Fragmented(val))
      && Read(Length, true, bref.Mem(), 8 * bref.max, p) == Malformed
  {
    hide *;
    Sizes();
    Room(bref);
    LengthStart(true, p);
    var m := val / ASN_16K;
    code := PackFragmented(bref, m, val - m * ASN_16K);
    FragmentedDigits(val);
    if code == Success {
      FragmentedRefused(mem, p + PadLen(p), val, 8 * bref.max, p);
      ReadIsLength(true, bref.Mem(), 8 * bref.max, p);
    }
  }

  lemma Sizes()
    ensures ASN_16K == 16384 && ASN_64K == 65536
  {
  }

  lemma LengthStart(aligned: bool, p: nat)
    ensures Start(Length, aligned, p) == if aligned then p + PadLen(p) else p
  {
    hide PadLen;
  }

  /** The determinant below 16K is the same in both variants, from its start on. */
  lemma LengthFits(v: nat, aligned: bool, mem: seq<bool>, p: nat, limit: nat)
    requires v < ASN_16K && p + PadLen(p) <= |mem| && limit <= |mem|
    ensures var q, e := Start(Length, aligned, p), Encoding(Length, v, false);
            && Encodable(Length, v) && (Fits(Length, v, aligned, p, limit) <==> q + |e| <= limit)
            && (q + |e| <= limit ==> Packed(Length, v, aligned, mem, p, Overlay(mem, q, e), q + |e|))
  {
    LengthEncodable(v);
    hide *;
    LengthPlaced(v, aligned, mem, p);
    LengthDigits(v);
    SmallForm(v);
    FitsIs(Length, v, aligned, p, limit);
  }

  lemma LengthEncodable(v: nat)
    requires v < ASN_16K
    ensures Encodable(Length, v)
  {
  }

  lemma SmallForm(v: nat)
    requires v < ASN_16K
    ensures Encoding(Length, v, true) == Encoding(Length, v, false)
  {
    hide NatBits;
  }

  /** One octet below 128, two octets behind the mark 10 below 16K. */
  method PackDeterminant(bref: BitRef, val: uint32) returns (code: Code)
    requires bref.Valid() && val < ASN_16K
    modifies bref`ptr, bref`offset, bref.buf
    ensures bref.Valid()
    ensures var e := Encoding(Length, val, false);
      && code == (if old(bref.Pos()) + |e| <= 8 * bref.max then Success else EncodeFail)
      && (code == Success ==>
        bref.Pos() == old(bref.Pos()) + |e| && bref.Mem() == Overlay(old(bref.Mem()), old(bref.Pos()), e))
  {
    hide *;
    LengthDigits(val);
    Room(bref);
    if val < 128 {
      code := bref.Pack(val, 8);
    } else {
      code := bref.Pack(2, 2);
      if code != Success { return; }
      code := bref.Pack(val, 14);
      if code != Success { return; }
      OverlayCompose(old(bref.Mem()), old(bref.Pos()), NatBits(2, 2), NatBits(val, 14));
    }
  }

  lemma Room(bref: BitRef)
    requires bref.Valid()
    ensures bref.Pos() <= 8 * bref.max <= |bref.Mem()|
  {
  }

  lemma LengthDigits(v: nat)
    ensures 128 <= v < ASN_16K ==> Encoding(Length, v, true) == NatBits(2, 2) + NatBits(v, 14)
    ensures 128 <= v < ASN_16K ==> Encoding(Length, v, false) == NatBits(2, 2) + NatBits(v, 14)
    ensures v < 128 ==> Encoding(Length, v, true) == Encoding(Length, v, false) == NatBits(v, 8)
  {
    assert NatBits(2, 2) == [true, false];
  }

  lemma FragmentedDigits(v: nat)
    ensures Fragmented(v) == NatBits(3, 2) + (NatBits(v / ASN_16K, 6) + NatBits(v - v / ASN_16K * ASN_16K, 16))
  {
    assert NatBits(3, 2) == [true, true];
  }

  method PackFragmented(bref: BitRef, m: uint32, rest: uint32) returns (code: Code)
    requires bref.Valid()
    modifies bref`ptr, bref`offset, bref.buf
    ensures bref.Valid()
    ensures code == if old(bref.Pos()) + 24 <= 8 * bref.max then Success else EncodeFail
    ensures code == Success ==>
      && bref.Pos() == old(bref.Pos()) + 24
      && bref.Mem() == Overlay(old(bref.Mem()), old(bref.Pos()), NatBits(3, 2) + (NatBits(m, 6) + NatBits(rest, 16)))
  {
    hide NatBits, Overlay, BytesBits;
    code := bref.Pack(3, 2);
    if code != Success { return; }
    code := bref.Pack(m, 6);
    if code != Success { return; }
    code := bref.Pack(rest, 16);
    if code != Success { return; }
    ThreeWrites(old(bref.Mem()), old(bref.Pos()), NatBits(3, 2), NatBits(m, 6), NatBits(rest, 16));
  }

  lemma FragmentedRefused(mem: seq<bool>, q: nat, v: nat, limit: nat, p: nat)
    requires q + 24 <= limit <= |mem| && q == Start(Length, true, p)
    ensures ReadLength(true, Overlay(mem, q, Fragmented(v)), limit, p) == Malformed
  {
    OverlayAt(mem, q, Fragmented(v));
    var m := Overlay(mem, q, Fragmented(v));
    SliceOfSlice(m, q, 24, 0, 1);
    SliceOfSlice(m, q, 24, 1, 1);
  }

  method UnpackLength(bref: BitRef, aligned: bool) returns (r: Result)
    requires bref.Valid()
    modifies bref`ptr, bref`offset
    ensures bref.Valid()
    ensures Agrees(r, bref.Pos(), Read(Length, aligned, bref.Mem(), 8 * bref.max, old(bref.Pos())))
  {
    PadAligns(bref.Pos());
    hide BitsNat, BytesBits, PadLen;
    if !aligned {
      r := UnpackBitLength(bref);
    } else {
      var code := bref.AlignBytes();
      r := UnpackOctetLength(bref);
    }
  }

  /** The unaligned form, read mark by mark. */
  method UnpackBitLength(bref: BitRef) returns (r: Result)
    requires bref.Valid()
    modifies bref`ptr, bref`offset
    ensures bref.Valid()
    ensures Agrees(r, bref.Pos(), ReadLength(false, bref.Mem(), 8 * bref.max, old(bref.Pos())))
  {
    ghost var mem, p0, limit := bref.Mem(), bref.Pos(), 8 * bref.max;
    hide *;
    Room(bref);
    ghost var d := ReadLength(false, mem, limit, p0);
    MarksRead(mem, limit, p0);
    var ext := bref.Unpack(1);
    r := Result(0, ext.code);
    if ext.code == Success {
      OneBit(mem, p0);
      if ext.val == 0 {
        var u := bref.Unpack(7);
        r := Result(u.val, u.code);
      } else {
        r := UnpackSecondMark(bref, mem, limit, p0);
      }
    }
    AgreesIs(r, bref.Pos(), d);
  }

  /** The rest of a length whose first mark is set. */
  method UnpackSecondMark(bref: BitRef, ghost mem: seq<bool>, ghost limit: nat, ghost p: nat) returns (r: Result)
    requires bref.Valid() && bref.Mem() == mem && 8 * bref.max == limit <= |mem| && bref.Pos() == p + 1 <= limit
    modifies bref`ptr, bref`offset
    ensures bref.Valid()
    ensures if p + 2 > limit || mem[p + 1] || p + 16 > limit then r.code != Success
            else r == Result(BitsNat(mem[p + 2..p + 16]), Success) && bref.Pos() == p + 16
  {
    hide *;
    var ext := bref.Unpack(1);
    if ext.code != Success { return Result(0, ext.code); }
    OneBit(mem, p + 1);
    if ext.val != 0 { return Result(0, DecodeFail); }
    var u := bref.Unpack(14);
    return Result(u.val, u.code);
  }

  /** Decoding a length by its leading bits, one after the other. */
  lemma MarksRead(mem: seq<bool>, limit: nat, p: nat)
    requires limit <= |mem|
    ensures var d := ReadLength(false, mem, limit, p);
            if p + 1 > limit then d == Malformed
            else if !mem[p] then d == if p + 8 > limit then Malformed else Decoded(BitsNat(mem[p + 1..p + 8]), p + 8)
            else if p + 2 > limit || mem[p + 1] then d == Malformed
            else d == if p + 16 > limit then Malformed else Decoded(BitsNat(mem[p + 2..p + 16]), p + 16)
  {
    hide BitsNat, Pow2;
    if p + 8 <= limit && !mem[p] { LeadingZeroBit(mem, p, 7); }
  }

  /** The aligned form, read an octet at a time from an octet boundary. */
  method UnpackOctetLength(bref: BitRef) returns (r: Result)
    requires bref.Valid()
    modifies bref`ptr, bref`offset
    ensures bref.Valid()
    ensures Agrees(r, bref.Pos(), ReadLength(false, bref.Mem(), 8 * bref.max, old(bref.Pos())))
  {
    hide BitsNat, BytesBits, Pow2, PadLen;
    ghost var q := bref.Pos();
    var u := bref.Unpack(8);
    if u.code != Success { return Result(0, u.code); }
    LeadingOctet(bref.Mem(), q);
    var val := u.val;
    if val < 128 { return Result(val, Success); }
    val := val - 128;
    if val < 64 {
      var octet2 := bref.Unpack(8);
      if octet2.code != Success { return Result(val, octet2.code); }
      TwoOctets(bref.Mem(), q);
      return Result(Shl(val, 8) + octet2.val, Success);
    }
    return Result(val, EncodeFail);
  }

  lemma LeadingZeroBit(mem: seq<bool>, p: nat, n: nat)
    requires p + 1 + n <= |mem| && !mem[p]
    ensures BitsNat(mem[p..p + 1 + n]) == BitsNat(mem[p + 1..p + 1 + n])
  {
    assert mem[p..p + 1 + n] == [false] + mem[p + 1..p + 1 + n];
    BitsNatConcat([false], mem[p + 1..p + 1 + n]);
    assert BitsNat([false]) == 0 by { assert [false][..0] == []; }
  }

  lemma LeadingOneBit(mem: seq<bool>, p: nat, n: nat)
    requires p + 1 + n <= |mem| && mem[p]
    ensures BitsNat(mem[p..p + 1 + n]) == Pow2(n) + BitsNat(mem[p + 1..p + 1 + n])
  {
    assert mem[p..p + 1 + n] == [true] + mem[p + 1..p + 1 + n];
    BitsNatConcat([true], mem[p + 1..p + 1 + n]);
    assert BitsNat([true]) == 1 by { assert [true][..0] == []; }
  }

  /** Comparing the first octet with 128 and 192 is looking at its two leading bits. */
  lemma LeadingOctet(mem: seq<bool>, q: nat)
    requires q + 8 <= |mem|
    ensures var v := BitsNat(mem[q..q + 8]);
      && v < 256
      && (v < 128 <==> !mem[q])
      && (mem[q] ==> (v - 128 < 64 <==> !mem[q + 1]))
      && (mem[q] && !mem[q + 1] ==> v - 128 == BitsNat(mem[q + 2..q + 8]))
  {
    hide BitsNat;
    Pow2Values();
    BitsNatBound(mem[q..q + 8]);
    BitsNatBound(mem[q + 1..q + 8]);
    BitsNatBound(mem[q + 2..q + 8]);
    if mem[q] {
      LeadingOneBit(mem, q, 7);
      if mem[q + 1] { LeadingOneBit(mem, q + 1, 6); } else { LeadingZeroBit(mem, q + 1, 6); }
    } else {
      LeadingZeroBit(mem, q, 7);
    }
  }

  lemma TwoOctets(mem: seq<bool>, q: nat)
    requires q + 16 <= |mem|
    ensures BitsNat(mem[q + 2..q + 16]) == Shl(BitsNat(mem[q + 2..q + 8]), 8) + BitsNat(mem[q + 8..q + 16])
  {
    assert mem[q + 2..q + 16] == mem[q + 2..q + 8] + mem[q + 8..q + 16];
    BitsNatConcat(mem[q + 2..q + 8], mem[q + 8..q + 16]);
  }

  // ------------------------------------------------------------ enumerations

  /** The bits of an option of an extensible enumeration with noext root options. */
  function ExtensibleBits(e: nat, nBits: nat, noext: nat): (b: seq<bool>)
    ensures |b| == if e < noext then 1 + nBits else 8
  {
    if e < noext then NatBits(0, 1) + NatBits(e, nBits) else NatBits(1, 1) + NatBits(e - noext, 7)
  }

  /** An extension mark, then either the root index or the index of the extension as a
      normally small number. */
  method PackExtensibleEnum(bref: BitRef, e: uint32, nBits: nat, noext: nat) returns (code: Code)
    requires bref.Valid() && nBits <= 16
    modifies bref`ptr, bref`offset, bref.buf
    ensures bref.Valid()
    ensures var b := ExtensibleBits(e, nBits, noext);
      && code == (if e <= noext + 63 && old(bref.Pos()) + |b| <= 8 * bref.max then Success else EncodeFail)
      && (code == Success ==>
        bref.Pos() == old(bref.Pos()) + |b| && bref.Mem() == Overlay(old(bref.Mem()), old(bref.Pos()), b))
  {
    hide NatBits, Overlay, BytesBits;
    ghost var mem0, p0 := bref.Mem(), bref.Pos();
    if e < noext {
      code := bref.Pack(0, 1);
      if code != Success { return; }
      code := bref.Pack(e, nBits);
      if code == Success { OverlayCompose(mem0, p0, NatBits(0, 1), NatBits(e, nBits)); }
    } else {
      code := bref.Pack(1, 1);
      if code != Success { return; }
      code := PackSmall(bref, e - noext);
      if code == Success { OverlayCompose(mem0, p0, NatBits(1, 1), NatBits(e - noext, 7)); }
    }
  }

  /** An enumeration option, refused when it is no option of the type. */
  method PackEnum(bref: BitRef, e: uint32, nofTypes: nat, nofExts: nat, hasExt: bool) returns (code: Code)
    requires bref.Valid() && ValidShape(Enumerated(nofTypes, nofExts, hasExt))
    modifies bref`ptr, bref`offset, bref.buf
    ensures bref.Valid()
    ensures e >= nofTypes ==> code == EncodeFail && bref.Pos() == old(bref.Pos()) && bref.Mem() == old(bref.Mem())
    ensures e < nofTypes ==>
      var s := Enumerated(nofTypes, nofExts, hasExt);
      if Encodable(s, e) && Fits(s, e, false, old(bref.Pos()), 8 * bref.max)
      then code == Success && Packed(s, e, false, old(bref.Mem()), old(bref.Pos()), bref.Mem(), bref.Pos())
      else code == EncodeFail
  {
    hide *;
    if e >= nofTypes { return EncodeFail; }
    ghost var s, mem0, p0 := Enumerated(nofTypes, nofExts, hasExt), bref.Mem(), bref.Pos();
    Room(bref);
    PadRoom(bref);
    EnumParts(nofTypes, nofExts, hasExt);
    var root := if hasExt then nofTypes - nofExts else nofTypes;
    var nBits := CeilLog2(root);
    FieldWidth(root);
    EnumPlaced(s, e, mem0, p0);
    FitsIs(s, e, false, p0, 8 * bref.max);
    if hasExt {
      code := PackExtensibleEnum(bref, e, nBits, root);
    } else {
      code := bref.Pack(e, nBits);
    }
  }

  lemma FitsIs(s: Shape, v: int, aligned: bool, p: nat, limit: nat)
    ensures Encodable(s, v) ==> Fits(s, v, aligned, p, limit) == (End(s, v, aligned, p) <= limit)
  {
    hide End, Encodable;
  }

  lemma PadRoom(bref: BitRef)
    requires bref.Valid()
    ensures bref.Pos() + PadLen(bref.Pos()) <= |bref.Mem()|
  {
    PadFits(bref.buf.Length, bref.Pos());
  }

  lemma EnumPlaced(s: Shape, v: nat, mem: seq<bool>, p: nat)
    requires s.Enumerated? && NofNoext(s) > 0 && v < s.nofTypes && p + PadLen(p) <= |mem|
    ensures Encodable(s, v) <==> v <= NofNoext(s) + 63
    ensures Encodable(s, v) ==>
      var n := CeilLog2(NofNoext(s));
      var b := if s.hasExt then ExtensibleBits(v, n, NofNoext(s)) else NatBits(v, n);
      && End(s, v, false, p) == p + |b|
      && (p + |b| <= |mem| ==> Packed(s, v, false, mem, p, Overlay(mem, p, b), p + |b|))
  {
    if Encodable(s, v) {
      assert NatBits(0, 1) == [false] && NatBits(1, 1) == [true];
      hide NatBits, Overlay, CeilLog2;
      var n := CeilLog2(NofNoext(s));
      assert [] + NatBits(v, n) == NatBits(v, n);
      var b := if s.hasExt then ExtensibleBits(v, n, NofNoext(s)) else NatBits(v, n);
      assert Laid(s, v, false, mem, p) == b;
    }
  }

  method UnpackEnum(bref: BitRef, nofTypes: nat, nofExts: nat, hasExt: bool) returns (r: Result)
    requires bref.Valid() && ValidShape(Enumerated(nofTypes, nofExts, hasExt))
    modifies bref`ptr, bref`offset
    ensures bref.Valid()
    ensures Agrees(r, bref.Pos(),
      Read(Enumerated(nofTypes, nofExts, hasExt), false, bref.Mem(), 8 * bref.max, old(bref.Pos())))
  {
    hide *;
    Room(bref);
    EnumParts(nofTypes, nofExts, hasExt);
    ghost var d := Read(Enumerated(nofTypes, nofExts, hasExt), false, bref.Mem(), 8 * bref.max, bref.Pos());
    EnumRead(nofTypes, nofExts, hasExt, bref.Mem(), 8 * bref.max, bref.Pos());
    var root := if hasExt then nofTypes - nofExts else nofTypes;
    var nBits := CeilLog2(root);
    FieldWidth(root);
    var u: ValOrError;
    if !hasExt {
      u := bref.Unpack(nBits);
      r := Result(u.val, u.code);
    } else {
      u := bref.Unpack(1);
      if u.code != Success {
        r := Result(u.val, u.code);
        AgreesIs(r, bref.Pos(), d);
        return;
      }
      OneBit(bref.Mem(), old(bref.Pos()));
      if u.val == 0 {
        u := bref.Unpack(nBits);
        r := Result(u.val, u.code);
      } else {
        r := UnpackSmall(bref);
        AgreesIs(r, bref.Pos(), ReadSmall(bref.Mem(), 8 * bref.max, old(bref.Pos()) + 1));
        r := r.(val := r.val + root);
      }
    }
    if r.val >= nofTypes { r := r.(code := DecodeFail); }
    AgreesIs(r, bref.Pos(), d);
  }

  lemma AgreesIs(r: Result, p': nat, d: Decoded)
    ensures Agrees(r, p', d) == ((r.code == Success <==> d.Decoded?) && (d.Decoded? ==> r.val == d.val && p' == d.next))
  {
  }

  lemma EnumParts(nofTypes: nat, nofExts: nat, hasExt: bool)
    requires ValidShape(Enumerated(nofTypes, nofExts, hasExt))
    ensures var root := if hasExt then nofTypes - nofExts else nofTypes;
            0 < root <= ASN_64K && NofNoext(Enumerated(nofTypes, nofExts, hasExt)) == root
  {
  }

  /** Decoding an enumeration, branch by branch. */
  lemma EnumRead(nofTypes: nat, nofExts: nat, hasExt: bool, mem: seq<bool>, limit: nat, p: nat)
    requires ValidShape(Enumerated(nofTypes, nofExts, hasExt)) && limit <= |mem|
    ensures var d := Read(Enumerated(nofTypes, nofExts, hasExt), false, mem, limit, p);
            var root := if hasExt then nofTypes - nofExts else nofTypes;
            var n := CeilLog2(root);
            var at := if hasExt then p + 1 else p;
            if hasExt && p >= limit then d == Malformed
            else if hasExt && mem[p] then
              var small := ReadSmall(mem, limit, p + 1);
              d == if small.Malformed? || small.val + root >= nofTypes then Malformed else Decoded(small.val + root, small.next)
            else d == if at + n > limit || BitsNat(mem[at..at + n]) >= nofTypes then Malformed else Decoded(BitsNat(mem[at..at + n]), at + n)
  {
    hide BitsNat, CeilLog2, ReadSmall;
  }

  // ------------------------------------------------------------ sequences of fields

  datatype Item = Item(shape: Shape, val: int)

  /** A value the C++ caller holds in the declared type. */
  ghost predicate ValidItem(i: Item) {
    && ValidShape(i.shape)
    && (match i.shape
        case Constrained(t, _, _) => t.Holds(i.val)
        case _ => 0 <= i.val < TWO_TO_THE_32)
  }

  method PackItem(bref: BitRef, i: Item, aligned: bool) returns (code: Code)
    requires bref.Valid() && ValidItem(i)
    modifies bref`ptr, bref`offset, bref.buf
    ensures bref.Valid()
    ensures Encodable(i.shape, i.val) && Fits(i.shape, i.val, aligned, old(bref.Pos()), 8 * bref.max) ==>
      && code == Success
      && Packed(i.shape, i.val, aligned, old(bref.Mem()), old(bref.Pos()), bref.Mem(), bref.Pos())
  {
    hide Packed, Encoding, ValidShape;
    match i.shape {
      case Constrained(t, lb, ub) =>
        code := PackConstrainedWholeNumber(bref, t, i.val, lb, ub, aligned);
      case Length =>
        code := PackLength(bref, i.val, aligned);
      case Enumerated(nofTypes, nofExts, hasExt) =>
        EnumVariant(i.shape, i.val, aligned, bref.Mem(), bref.Pos());
        code := PackEnum(bref, i.val, nofTypes, nofExts, hasExt);
    }
  }

  /** The variant makes no difference to an enumeration. */
  lemma EnumVariant(s: Shape, v: int, aligned: bool, mem: seq<bool>, p: nat)
    requires s.Enumerated?
    ensures Encodable(s, v) ==> End(s, v, aligned, p) == End(s, v, false, p)
    ensures forall mem', p' :: Packed(s, v, aligned, mem, p, mem', p') <==> Packed(s, v, false, mem, p, mem', p')
  {
  }

  method UnpackItem(bref: BitRef, s: Shape, aligned: bool) returns (r: Result)
    requires bref.Valid() && ValidShape(s)
    modifies bref`ptr, bref`offset
    ensures bref.Valid()
    ensures Agrees(r, bref.Pos(), Read(s, aligned, bref.Mem(), 8 * bref.max, old(bref.Pos())))
  {
    match s {
      case Constrained(t, lb, ub) => r := UnpackConstrainedWholeNumber(bref, t, lb, ub, aligned);
      case Length => r := UnpackLength(bref, aligned);
      case Enumerated(nofTypes, nofExts, hasExt) => r := UnpackEnum(bref, nofTypes, nofExts, hasExt);
    }
  }
}
