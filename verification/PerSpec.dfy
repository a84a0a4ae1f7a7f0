/** What the PER primitives mean: the encoding X.691 prescribes for a value, and the value a
    decoder must take from memory. Independent of the code that packs and unpacks. */
module PerSpec {
  import opened Bits
  import opened BitRefs

  const ASN_16K: nat := 16384
  const ASN_64K: nat := 65536

  /** The C++ integer types the codec is instantiated for. */
  datatype IntType = IntType(width: nat, signed: bool) {
    ghost predicate Valid() {
      width == 8 || width == 16 || width == 32 || width == 64
    }

    /** Conversion to this type: two's complement wrap-around. */
    function Wrap(x: int): int {
      var r := x % Pow2(width);
      if signed && width > 0 && r >= Pow2(width - 1) then r - Pow2(width) else r
    }

    predicate Holds(x: int) {
      Wrap(x) == x
    }
  }

  function ToUint32(x: int): uint32 {
    x % TWO_TO_THE_32
  }

  /** ceil(log2(n)): the width of a field with n values. */
  function CeilLog2(n: nat): (k: nat)
    requires n > 0
    ensures n <= Pow2(k)
    ensures k > 0 ==> Pow2(k - 1) < n
    decreases n
  {
    if n == 1 then 0 else 1 + CeilLog2((n + 1) / 2)
  }

  lemma CeilLog2Bound(n: nat, k: nat)
    requires 0 < n <= Pow2(k)
    ensures CeilLog2(n) <= k
  {
    if CeilLog2(n) > k { Pow2Monotone(k, CeilLog2(n) - 1); }
  }

  lemma FieldWidth(ra: nat)
    requires 0 < ra <= ASN_64K
    ensures CeilLog2(ra) <= 16
    ensures ra <= 256 ==> CeilLog2(ra) <= 8
    ensures ra > 256 ==> CeilLog2(ra) > 8
    ensures ra == 256 ==> CeilLog2(ra) == 8
  {
    Pow2Large();
    Pow2Values();
    CeilLog2Bound(ra, 16);
    if ra <= 256 { CeilLog2Bound(ra, 8); }
    if CeilLog2(ra) <= 8 { Pow2Monotone(CeilLog2(ra), 8); }
    if ra == 256 && CeilLog2(ra) < 8 { Pow2Monotone(CeilLog2(ra), 7); }
  }

  /** The kinds of field a message is made of, with the parameters both ends share. */
  datatype Shape =
    | Constrained(t: IntType, lb: int, ub: int)
    | Length
    | Enumerated(nofTypes: nat, nofExts: nat, hasExt: bool)

  function Range(s: Shape): int
    requires s.Constrained?
  {
    s.ub - s.lb + 1
  }

  function NofNoext(s: Shape): int
    requires s.Enumerated?
  {
    if s.hasExt then s.nofTypes - s.nofExts else s.nofTypes
  }

  /** The declarations the codec is exact for: at most 64K values in a range. */
  ghost predicate ValidShape(s: Shape) {
    match s
    case Constrained(t, lb, ub) => t.Valid() && t.Holds(lb) && t.Holds(ub) && ub - lb < ASN_64K
    case Length => true
    case Enumerated(nofTypes, nofExts, hasExt) => nofTypes <= ASN_64K && NofNoext(s) > 0
  }

  /** The values both ends of the codec agree on. */
  predicate Encodable(s: Shape, v: int) {
    match s
    case Constrained(t, lb, ub) => lb <= v <= ub
    case Length => 0 <= v < ASN_16K
    case Enumerated(nofTypes, nofExts, hasExt) => 0 <= v < nofTypes && v - NofNoext(s) <= 63
  }

  /** X.691 puts octet-sized integers and length determinants on an octet boundary in the
      aligned variant. */
  predicate OctetAligned(s: Shape, aligned: bool) {
    aligned && (s.Length? || (s.Constrained? && Range(s) >= 256))
  }

  /** X.691 sections 10.5, 10.6 and 10.9: the bits of a value's encoding. */
  function Encoding(s: Shape, v: int, aligned: bool): (b: seq<bool>)
    requires Encodable(s, v)
  {
    match s
    case Constrained(t, lb, ub) =>
      if Range(s) == 1 then []
      else if aligned && Range(s) == 256 then NatBits(v - lb, 8)
      else if aligned && Range(s) > 256 then NatBits(v - lb, 16)
      else NatBits(v - lb, CeilLog2(Range(s)))
    case Length =>
      if v < 128 then NatBits(v, 8) else [true, false] + NatBits(v, 14)
    case Enumerated(nofTypes, nofExts, hasExt) =>
      if v < NofNoext(s) then
        (if hasExt then [false] else []) + NatBits(v, CeilLog2(NofNoext(s)))
      else
        [true] + NatBits(v - NofNoext(s), 7)
  }

  /** The filler before an octet-aligned field: cleared for integers, left as it was for
      lengths, whose packer skips to the boundary without writing. */
  function Filler(s: Shape, aligned: bool, mem: seq<bool>, p: nat): (b: seq<bool>)
    requires p + PadLen(p) <= |mem|
    ensures |b| == if OctetAligned(s, aligned) then PadLen(p) else 0
  {
    if !OctetAligned(s, aligned) then []
    else if s.Length? then mem[p..p + PadLen(p)]
    else Zeros(PadLen(p))
  }

  /** Where a field packed at p begins. */
  function Start(s: Shape, aligned: bool, p: nat): (q: nat)
    ensures q >= p
  {
    if OctetAligned(s, aligned) then p + PadLen(p) else p
  }

  // ------------------------------------------------------------ decoding

  datatype Decoded = Decoded(val: int, next: nat) | Malformed

  /** An n-bit number at p, if it ends before the limit. */
  function ReadNat(mem: seq<bool>, limit: nat, p: nat, n: nat): (d: Decoded)
    requires limit <= |mem|
    ensures d.Decoded? ==> d.next == p + n <= limit && d.val >= 0
  {
    if p + n <= limit then Decoded(BitsNat(mem[p..p + n]), p + n) else Malformed
  }

  /** What a decoder takes from memory at p for a field of the given shape. */
  function Read(s: Shape, aligned: bool, mem: seq<bool>, limit: nat, p: nat): (d: Decoded)
    requires limit <= |mem|
    requires s.Enumerated? ==> NofNoext(s) > 0
    ensures d.Decoded? ==> p <= d.next
    ensures d.Decoded? && d.next != p ==> d.next <= limit
  {
    match s
    case Constrained(t, lb, ub) => ReadConstrained(s, aligned, mem, limit, p)
    case Length => ReadLength(aligned, mem, limit, p)
    case Enumerated(_, _, _) => ReadEnumerated(s, mem, limit, p)
  }

  /** The width of a constrained integer's field, filler apart. */
  function ConstrainedWidth(s: Shape, aligned: bool): nat
    requires s.Constrained? && Range(s) > 0
  {
    if aligned && Range(s) >= 256 then (CeilLog2(Range(s)) + 7) / 8 * 8 else CeilLog2(Range(s))
  }

  function ReadConstrained(s: Shape, aligned: bool, mem: seq<bool>, limit: nat, p: nat): (d: Decoded)
    requires limit <= |mem| && s.Constrained?
    ensures d.Decoded? ==> p <= d.next
    ensures d.Decoded? && d.next != p ==> d.next <= limit
  {
    if s.ub < s.lb then Malformed
    else if Range(s) == 1 then Decoded(s.lb, p)
    else
      FromOffset(s, aligned, ReadNat(mem, limit, Start(s, aligned, p), ConstrainedWidth(s, aligned)))
  }

  /** The value an offset stands for, in the declared type; the unaligned decoder alone checks
      it against the upper bound. */
  function FromOffset(s: Shape, aligned: bool, r: Decoded): (d: Decoded)
    requires s.Constrained?
    ensures d.Decoded? ==> r.Decoded? && d.next == r.next
  {
    if r.Malformed? then Malformed
    else
      var v := s.t.Wrap(s.t.Wrap(r.val) + s.lb);
      if !aligned && v > s.ub then Malformed else Decoded(v, r.next)
  }

  function ReadLength(aligned: bool, mem: seq<bool>, limit: nat, p: nat): (d: Decoded)
    requires limit <= |mem|
    ensures d.Decoded? ==> p < d.next <= limit && d.val >= 0
  {
    var q := Start(Length, aligned, p);
    if q + 8 > limit then Malformed
    else if !mem[q] then Decoded(BitsNat(mem[q..q + 8]), q + 8)
    else if mem[q + 1] then Malformed
    else ReadNat(mem, limit, q + 2, 14)
  }

  function ReadEnumerated(s: Shape, mem: seq<bool>, limit: nat, p: nat): (d: Decoded)
    requires limit <= |mem| && s.Enumerated? && NofNoext(s) > 0
    ensures d.Decoded? ==> p <= d.next
    ensures d.Decoded? && d.next != p ==> d.next <= limit
  {
    var r :=
      if !s.hasExt then ReadNat(mem, limit, p, CeilLog2(s.nofTypes))
      else if p >= limit then Malformed
      else if !mem[p] then ReadNat(mem, limit, p + 1, CeilLog2(NofNoext(s)))
      else
        var small := ReadSmall(mem, limit, p + 1);
        if small.Malformed? then Malformed else Decoded(small.val + NofNoext(s), small.next);
    if r.Decoded? && r.val >= s.nofTypes then Malformed else r
  }

  /** X.691 section 10.6, the short form only: a clear bit and six bits. */
  function ReadSmall(mem: seq<bool>, limit: nat, p: nat): (d: Decoded)
    requires limit <= |mem|
    ensures d.Decoded? ==> p < d.next <= limit
  {
    if p >= limit || mem[p] then Malformed else ReadNat(mem, limit, p + 1, 6)
  }

  // ------------------------------------------------------------ encodings are read back

  lemma ReadNatAt(mem: seq<bool>, limit: nat, p: nat, v: nat, n: nat)
    requires p + n <= limit <= |mem| && v < Pow2(n) && mem[p..p + n] == NatBits(v, n)
    ensures ReadNat(mem, limit, p, n) == Decoded(v, p + n)
  {
    BitsNatOfNatBits(v, n);
    LowSmall(v, n);
  }

  /** Conversions to the declared type and back lose nothing: an offset from the lower bound
      survives the round trip through the type and through uint32. */
  lemma WrapOffset(t: IntType, lb: int, v: int)
    requires t.Valid() && t.Holds(v) && t.Holds(lb) && 0 <= v - lb < ASN_64K
    ensures t.Wrap(t.Wrap(v - lb) + lb) == v
  {
    hide *;
    ValidWidth(t);
    WrapCongruent(t, v - lb);
    var k := (t.Wrap(v - lb) - (v - lb)) / Pow2(t.width);
    WrapShift(t, v, k);
    HoldsIs(t, v);
  }

  lemma ValidWidth(t: IntType)
    requires t.Valid()
    ensures t.width > 0
  {
  }

  lemma HoldsIs(t: IntType, x: int)
    ensures t.Holds(x) == (t.Wrap(x) == x)
  {
    hide Pow2;
  }

  lemma WrapCongruent(t: IntType, x: int)
    requires t.width > 0
    ensures exists k :: t.Wrap(x) == x + k * Pow2(t.width)
    ensures t.Wrap(x) == x + (t.Wrap(x) - x) / Pow2(t.width) * Pow2(t.width)
  {
    var m := Pow2(t.width);
    var q, r := x / m, x % m;
    assert x == q * m + r;
    var k := if t.signed && r >= Pow2(t.width - 1) then -q - 1 else -q;
    assert (-q - 1) * m == -q * m - m;
    assert t.Wrap(x) == x + k * m;
    DivUnique(t.Wrap(x) - x, m, k, 0);
  }

  lemma WrapShift(t: IntType, x: int, k: int)
    requires t.width > 0
    ensures t.Wrap(x + k * Pow2(t.width)) == t.Wrap(x)
  {
    var m := Pow2(t.width);
    var q, r := x / m, x % m;
    assert x + k * m == (q + k) * m + r;
    DivUnique(x + k * m, m, q + k, r);
  }

  /** The low bits of a converted offset are the offset's own. */
  lemma WrapField(t: IntType, d: nat, n: nat)
    requires t.Valid() && d < ASN_64K && d < Pow2(t.width) && n <= t.width
    ensures NatBits(ToUint32(t.Wrap(d)), n) == NatBits(d, n)
  {
    var w := t.width;
    WrapSmall(t, d);
    if t.Wrap(d) != d {
      NegativeField(d, w);
      NatBitsMod(ToUint32(d - Pow2(w)), w, n);
    }
  }

  /** A small offset that wraps does so in a signed type of at most 16 bits. */
  lemma WrapSmall(t: IntType, d: nat)
    requires t.Valid() && d < ASN_64K && d < Pow2(t.width)
    ensures t.Wrap(d) == d || (t.width <= 16 && t.Wrap(d) == d - Pow2(t.width))
    ensures t.Wrap(d) == d ==> ToUint32(t.Wrap(d)) == d
  {
    LowSmall(d, t.width);
    Pow2Large();
    if t.width > 16 { Pow2Monotone(16, t.width - 1); }
  }

  /** The low bits of a number below 2^w less 2^w, as an unsigned word. */
  lemma NegativeField(d: nat, w: nat)
    requires 0 < w <= 16 && d < Pow2(w)
    ensures Low(ToUint32(d - Pow2(w)), w) == d
  {
    hide *;
    Pow2Large();
    Pow2Monotone(w, 16);
    var hi := Pow2(32 - w) - 1;
    Pow2Monotone(0, 32 - w);
    Pow2Values();
    Pow2Add(32 - w, w);
    ShlIs(hi, w);
    assert hi * Pow2(w) == Pow2(32 - w) * Pow2(w) - Pow2(w);
    ToUint32Negative(d - Pow2(w));
    ShrLowUnique(hi, d, w);
  }

  lemma ToUint32Negative(x: int)
    requires x < 0 <= x + TWO_TO_THE_32
    ensures ToUint32(x) == x + TWO_TO_THE_32
  {
  }

  lemma LengthBits(v: nat)
    requires v < ASN_16K
    ensures v < 128 ==> !NatBits(v, 8)[0]
    ensures |Encoding(Length, v, false)| == if v < 128 then 8 else 16
  {
    if v < 128 {
      Pow2Values();
      NatBitsSplit(v, 1, 7);
      LowSmall(v, 7);
      assert NatBits(0, 1) == [false];
    }
  }

  /** Memory holding a value's encoding decodes to that value, at any bit position and in
      either variant, and the decoder stops where the encoding ends. */
  lemma ReadEncoded(s: Shape, v: int, aligned: bool, mem: seq<bool>, limit: nat, p: nat)
    requires ValidShape(s) && Encodable(s, v) && limit <= |mem|
    requires var q := Start(s, aligned, p);
      && q + |Encoding(s, v, aligned)| <= limit
      && mem[q..q + |Encoding(s, v, aligned)|] == Encoding(s, v, aligned)
    ensures Read(s, aligned, mem, limit, p)
      == Decoded(v, Start(s, aligned, p) + |Encoding(s, v, aligned)|)
  {
    match s
    case Constrained(t, lb, ub) => ReadEncodedConstrained(s, v, aligned, mem, limit, p);
    case Length => ReadEncodedLength(v, aligned, mem, limit, p);
    case Enumerated(_, _, _) => ReadEncodedEnumerated(s, v, mem, limit, p);
  }

  lemma RangeFitsType(t: IntType, lb: int, ub: int)
    requires t.Holds(lb) && t.Holds(ub)
    ensures ub - lb < Pow2(t.width)
  {
  }

  lemma ConstrainedEncoding(s: Shape, v: int, aligned: bool)
    requires s.Constrained? && ValidShape(s) && Encodable(s, v) && Range(s) > 1
    ensures Encoding(s, v, aligned) == NatBits(v - s.lb, ConstrainedWidth(s, aligned))
    ensures CeilLog2(Range(s)) <= ConstrainedWidth(s, aligned) <= 16
    ensures v - s.lb < Pow2(CeilLog2(Range(s))) <= Pow2(ConstrainedWidth(s, aligned))
    ensures CeilLog2(Range(s)) <= s.t.width && v - s.lb < Pow2(s.t.width)
  {
    hide *;
    ConstrainedParts(s, v);
    FieldWidth(Range(s));
    ConstrainedBits(s, v, aligned);
    Pow2Monotone(CeilLog2(Range(s)), ConstrainedWidth(s, aligned));
    RangeFitsType(s.t, s.lb, s.ub);
    CeilLog2Bound(Range(s), s.t.width);
    CeilLog2Covers(Range(s));
  }

  lemma CeilLog2Covers(n: nat)
    requires n > 0
    ensures n <= Pow2(CeilLog2(n))
  {
  }

  /** What a valid range and a value in it satisfy. */
  lemma ConstrainedParts(s: Shape, v: int)
    requires s.Constrained? && ValidShape(s) && Encodable(s, v)
    ensures s.t.Valid() && s.t.Holds(s.lb) && s.t.Holds(s.ub) && Range(s) == s.ub - s.lb + 1
    ensures 0 <= v - s.lb < Range(s) <= ASN_64K
  {
    hide IntType.Valid, IntType.Holds;
  }

  lemma ConstrainedBits(s: Shape, v: int, aligned: bool)
    requires s.Constrained? && Encodable(s, v) && 1 < Range(s) <= ASN_64K
    requires CeilLog2(Range(s)) <= 16 && (Range(s) > 256 ==> CeilLog2(Range(s)) > 8) && (Range(s) == 256 ==> CeilLog2(Range(s)) == 8)
    ensures Encoding(s, v, aligned) == NatBits(v - s.lb, ConstrainedWidth(s, aligned))
    ensures CeilLog2(Range(s)) <= ConstrainedWidth(s, aligned) <= 16
  {
    hide NatBits, CeilLog2;
  }

  lemma ReadEncodedConstrained(s: Shape, v: int, aligned: bool, mem: seq<bool>, limit: nat, p: nat)
    requires s.Constrained? && ValidShape(s) && Encodable(s, v) && limit <= |mem|
    requires var q := Start(s, aligned, p);
      && q + |Encoding(s, v, aligned)| <= limit
      && mem[q..q + |Encoding(s, v, aligned)|] == Encoding(s, v, aligned)
    ensures ReadConstrained(s, aligned, mem, limit, p)
      == Decoded(v, Start(s, aligned, p) + |Encoding(s, v, aligned)|)
  {
    hide *;
    if Range(s) == 1 {
      ReadConstant(s, v, aligned, mem, limit, p);
    } else {
      RangePositive(s, v);
      ConstrainedEncoding(s, v, aligned);
      var q, n := Start(s, aligned, p), ConstrainedWidth(s, aligned);
      ReadNatAt(mem, limit, q, v - s.lb, n);
      FromOffsetExact(s, aligned, v, q + n);
      ReadConstrainedOffset(s, aligned, mem, limit, p);
    }
  }

  lemma RangePositive(s: Shape, v: int)
    requires s.Constrained? && Encodable(s, v)
    ensures Range(s) >= 1 && v >= s.lb
  {
  }

  lemma ReadConstant(s: Shape, v: int, aligned: bool, mem: seq<bool>, limit: nat, p: nat)
    requires s.Constrained? && Encodable(s, v) && limit <= |mem| && Range(s) == 1
    ensures ReadConstrained(s, aligned, mem, limit, p) == Decoded(v, Start(s, aligned, p) + |Encoding(s, v, aligned)|)
  {
    hide NatBits, ReadNat, FromOffset;
    assert Encoding(s, v, aligned) == [];
  }

  lemma ReadConstrainedOffset(s: Shape, aligned: bool, mem: seq<bool>, limit: nat, p: nat)
    requires limit <= |mem| && s.Constrained? && Range(s) > 1
    ensures ReadConstrained(s, aligned, mem, limit, p)
      == FromOffset(s, aligned, ReadNat(mem, limit, Start(s, aligned, p), ConstrainedWidth(s, aligned)))
  {
  }

  lemma FromOffsetExact(s: Shape, aligned: bool, v: int, next: nat)
    requires s.Constrained? && ValidShape(s) && Encodable(s, v)
    ensures FromOffset(s, aligned, Decoded(v - s.lb, next)) == Decoded(v, next)
  {
    hide Pow2, IntType.Wrap;
    HoldsBetween(s.t, s.lb, v, s.ub);
    WrapOffset(s.t, s.lb, v);
  }

  lemma HoldsBetween(t: IntType, lb: int, v: int, ub: int)
    requires t.width > 0 && t.Holds(lb) && t.Holds(ub) && lb <= v <= ub
    ensures t.Holds(v)
  {
    var m := Pow2(t.width);
    if v >= 0 {
      DivUnique(v, m, 0, v);
    } else {
      DivUnique(v, m, -1, v + m);
    }
  }

  lemma ReadEncodedLength(v: int, aligned: bool, mem: seq<bool>, limit: nat, p: nat)
    requires Encodable(Length, v) && limit <= |mem|
    requires var q := Start(Length, aligned, p);
      && q + |Encoding(Length, v, aligned)| <= limit
      && mem[q..q + |Encoding(Length, v, aligned)|] == Encoding(Length, v, aligned)
    ensures ReadLength(aligned, mem, limit, p)
      == Decoded(v, Start(Length, aligned, p) + |Encoding(Length, v, aligned)|)
  {
    hide *;
    var q := Start(Length, aligned, p);
    var e := Encoding(Length, v, aligned);
    LengthForms(v, aligned);
    LengthReads(aligned, mem, limit, p);
    Pow2Large();
    Pow2Values();
    FirstTwo(mem, q, e);
    if v < 128 {
      ReadNatAt(mem, limit, q, v, 8);
      ReadNatIs(mem, limit, q, 8);
    } else {
      SliceOfSlice(mem, q, 16, 2, 14);
      assert e[2..2 + 14] == NatBits(v, 14);
      ReadNatAt(mem, limit, q + 2, v, 14);
    }
  }

  lemma LengthForms(v: int, aligned: bool)
    requires Encodable(Length, v)
    ensures 0 <= v < 16384
    ensures var e := Encoding(Length, v, aligned);
            if v < 128 then e == NatBits(v, 8) && !e[0] else e == [true, false] + NatBits(v, 14)
  {
    LengthBits(v);
  }

  lemma LengthReads(aligned: bool, mem: seq<bool>, limit: nat, p: nat)
    requires limit <= |mem| && Start(Length, aligned, p) + 8 <= limit
    ensures var q := Start(Length, aligned, p);
            ReadLength(aligned, mem, limit, p) ==
            if !mem[q] then Decoded(BitsNat(mem[q..q + 8]), q + 8) else if mem[q + 1] then Malformed else ReadNat(mem, limit, q + 2, 14)
  {
    hide BitsNat, ReadNat;
  }

  lemma ReadNatIs(mem: seq<bool>, limit: nat, p: nat, n: nat)
    requires p + n <= limit <= |mem|
    ensures ReadNat(mem, limit, p, n) == Decoded(BitsNat(mem[p..p + n]), p + n)
  {
  }

  lemma FirstTwo(mem: seq<bool>, q: nat, e: seq<bool>)
    requires |e| >= 2 && q + |e| <= |mem| && mem[q..q + |e|] == e
    ensures mem[q] == e[0] && mem[q + 1] == e[1]
  {
  }

  lemma ReadEncodedEnumerated(s: Shape, v: int, mem: seq<bool>, limit: nat, p: nat)
    requires s.Enumerated? && ValidShape(s) && Encodable(s, v) && limit <= |mem|
    requires var e := Encoding(s, v, false);
      p + |e| <= limit && mem[p..p + |e|] == e
    ensures ReadEnumerated(s, mem, limit, p) == Decoded(v, p + |Encoding(s, v, false)|)
  {
    hide BitsNat, CeilLog2;
    var e := Encoding(s, v, false);
    var n := CeilLog2(NofNoext(s));
    if !s.hasExt {
      ReadNatAt(mem, limit, p, v, n);
    } else {
      SliceOfSlice(mem, p, |e|, 0, 1);
      SliceOfSlice(mem, p, |e|, 1, |e| - 1);
      if v < NofNoext(s) {
        ReadNatAt(mem, limit, p + 1, v, n);
      } else {
        assert mem[p + 1..p + 8] == NatBits(v - NofNoext(s), 7);
        ReadSmallAt(mem, limit, p + 1, v - NofNoext(s));
      }
    }
  }

  lemma ReadSmallAt(mem: seq<bool>, limit: nat, p: nat, w: nat)
    requires p + 7 <= limit <= |mem| && w <= 63 && mem[p..p + 7] == NatBits(w, 7)
    ensures ReadSmall(mem, limit, p) == Decoded(w, p + 7)
  {
    Pow2Values();
    NatBitsSplit(w, 1, 6);
    LowSmall(w, 6);
    assert NatBits(0, 1) == [false];
    SliceOfSlice(mem, p, 7, 0, 1);
    SliceOfSlice(mem, p, 7, 1, 6);
    ReadNatAt(mem, limit, p + 1, w, 6);
  }

  // ------------------------------------------------------------ decoding is local

  /** Two memories holding the same bits over a field's extent. */
  ghost predicate SameBits(mem: seq<bool>, p: nat, other: seq<bool>, p': nat, n: nat) {
    && p + n <= |mem| && p' + n <= |other|
    && mem[p..p + n] == other[p'..p' + n]
  }

  /** Positions on the same side of the octet boundaries, where those matter. */
  ghost predicate SamePhase(aligned: bool, p: nat, p': nat) {
    aligned ==> p % 8 == p' % 8
  }

  lemma PhaseShift(aligned: bool, p: nat, p': nat, d: nat)
    requires SamePhase(aligned, p, p')
    ensures SamePhase(aligned, p + d, p' + d)
  {
  }

  lemma SameBitsSlice(mem: seq<bool>, p: nat, other: seq<bool>, p': nat, n: nat, i: nat, k: nat)
    requires SameBits(mem, p, other, p', n) && i + k <= n
    ensures SameBits(mem, p + i, other, p' + i, k)
    ensures k > 0 ==> mem[p + i] == other[p' + i]
  {
    SliceOfSlice(mem, p, n, i, k);
    SliceOfSlice(other, p', n, i, k);
  }

  /** A decoder looks only at the bits it consumes and, in the aligned variant, at where the
      octet boundaries fall: the same bits elsewhere decode alike. */
  lemma ReadRelocated(s: Shape, aligned: bool, mem: seq<bool>, limit: nat, p: nat,
                      other: seq<bool>, limit': nat, p': nat)
    requires limit <= |mem| && limit' <= |other|
    requires s.Enumerated? ==> NofNoext(s) > 0
    requires SamePhase(aligned, p, p')
    requires var d := Read(s, aligned, mem, limit, p);
      d.Decoded? && p' + (d.next - p) <= limit' && SameBits(mem, p, other, p', d.next - p)
    ensures var d := Read(s, aligned, mem, limit, p);
      Read(s, aligned, other, limit', p') == Decoded(d.val, p' + (d.next - p))
  {
    hide ReadConstrained, ReadLength, ReadEnumerated, SameBits;
    match s
    case Constrained(_, _, _) =>
      ConstrainedRelocated(s, aligned, mem, limit, p, other, limit', p');
    case Length =>
      LengthRelocated(aligned, mem, limit, p, other, limit', p');
    case Enumerated(_, _, _) =>
      EnumeratedRelocated(s, mem, limit, p, other, limit', p');
  }

  lemma ConstrainedRelocated(s: Shape, aligned: bool, mem: seq<bool>, limit: nat, p: nat,
                             other: seq<bool>, limit': nat, p': nat)
    requires limit <= |mem| && limit' <= |other| && s.Constrained? && SamePhase(aligned, p, p')
    requires var d := ReadConstrained(s, aligned, mem, limit, p);
      d.Decoded? && p' + (d.next - p) <= limit' && SameBits(mem, p, other, p', d.next - p)
    ensures var d := ReadConstrained(s, aligned, mem, limit, p);
      ReadConstrained(s, aligned, other, limit', p') == Decoded(d.val, p' + (d.next - p))
  {
    hide BitsNat, SameBits, IntType.Wrap, ConstrainedWidth;
    if Range(s) > 1 {
      var n := ReadConstrained(s, aligned, mem, limit, p).next - p;
      var i, w := Start(s, aligned, p) - p, ConstrainedWidth(s, aligned);
      assert Start(s, aligned, p') == p' + i && n == i + w;
      SameBitsSlice(mem, p, other, p', n, i, w);
      SameBitsHolds(mem, p + i, other, p' + i, w);
    }
  }

  lemma LengthRelocated(aligned: bool, mem: seq<bool>, limit: nat, p: nat,
                        other: seq<bool>, limit': nat, p': nat)
    requires limit <= |mem| && limit' <= |other| && SamePhase(aligned, p, p')
    requires var d := ReadLength(aligned, mem, limit, p);
      d.Decoded? && p' + (d.next - p) <= limit' && SameBits(mem, p, other, p', d.next - p)
    ensures var d := ReadLength(aligned, mem, limit, p);
      ReadLength(aligned, other, limit', p') == Decoded(d.val, p' + (d.next - p))
  {
    hide BitsNat, SameBits;
    var n := ReadLength(aligned, mem, limit, p).next - p;
    var i := Start(Length, aligned, p) - p;
    assert Start(Length, aligned, p') == p' + i;
    SameBitsSlice(mem, p, other, p', n, i, 8);
    SameBitsSlice(mem, p, other, p', n, i + 1, 1);
    SameBitsHolds(mem, p + i, other, p' + i, 8);
    if mem[p + i] {
      SameBitsSlice(mem, p, other, p', n, i + 2, 14);
      SameBitsHolds(mem, p + i + 2, other, p' + i + 2, 14);
    }
  }

  lemma SameBitsHolds(mem: seq<bool>, p: nat, other: seq<bool>, p': nat, n: nat)
    requires SameBits(mem, p, other, p', n)
    ensures p + n <= |mem| && p' + n <= |other| && mem[p..p + n] == other[p'..p' + n]
  {
  }

  lemma EnumeratedRelocated(s: Shape, mem: seq<bool>, limit: nat, p: nat,
                            other: seq<bool>, limit': nat, p': nat)
    requires limit <= |mem| && limit' <= |other| && s.Enumerated? && NofNoext(s) > 0
    requires var d := ReadEnumerated(s, mem, limit, p);
      d.Decoded? && p' + (d.next - p) <= limit' && SameBits(mem, p, other, p', d.next - p)
    ensures var d := ReadEnumerated(s, mem, limit, p);
      ReadEnumerated(s, other, limit', p') == Decoded(d.val, p' + (d.next - p))
  {
    hide BitsNat, CeilLog2, SameBits;
    var n := ReadEnumerated(s, mem, limit, p).next - p;
    if !s.hasExt {
      SameBitsHolds(mem, p, other, p', n);
    } else {
      SameBitsSlice(mem, p, other, p', n, 0, 1);
      if !mem[p] {
        SameBitsSlice(mem, p, other, p', n, 1, n - 1);
        SameBitsHolds(mem, p + 1, other, p' + 1, n - 1);
      } else {
        SameBitsSlice(mem, p, other, p', n, 1, 1);
        SameBitsSlice(mem, p, other, p', n, 2, 6);
        SameBitsHolds(mem, p + 2, other, p' + 2, 6);
      }
    }
  }
}
