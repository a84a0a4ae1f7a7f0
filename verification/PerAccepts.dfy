/** The fields of an encoding in the terms of X.691, and what the decoder takes from memory
    that no encoder has written. */
module PerAccepts {
  import opened Bits
  import opened BitRefs
  import opened PerSpec
  import opened PerCodec

  /** A field of the least width for n values that spells v. */
  ghost predicate LeastField(b: seq<bool>, v: int, n: int) {
    BitsNat(b) == v && n <= Pow2(|b|) && (|b| > 0 ==> Pow2(|b| - 1) < n)
  }

  lemma SpelledBack(v: nat, n: nat)
    requires v < Pow2(n)
    ensures BitsNat(NatBits(v, n)) == v
  {
    hide *;
    BitsNatOfNatBits(v, n);
    LowSmall(v, n);
  }

  /** Section 10.5: nothing for one value, the least width, or in the aligned variant one octet
      for 256 values and two octets for more. */
  lemma ConstrainedFields(s: Shape, v: int, aligned: bool)
    requires s.Constrained? && ValidShape(s) && Encodable(s, v)
    ensures var e, r := Encoding(s, v, aligned), s.ub - s.lb + 1;
            if r == 1 then e == []
            else if aligned && r >= 256 then |e| == (if r == 256 then 8 else 16) && BitsNat(e) == v - s.lb
            else LeastField(e, v - s.lb, r)
  {
    hide NatBits, BitsNat, Pow2, CeilLog2;
    if Range(s) > 1 {
      ConstrainedEncoding(s, v, aligned);
      FieldWidth(Range(s));
      SpelledBack(v - s.lb, ConstrainedWidth(s, aligned));
      WidthIsLeast(Range(s));
    }
  }

  lemma WidthIsLeast(n: nat)
    requires n > 0
    ensures n <= Pow2(CeilLog2(n)) && (CeilLog2(n) > 0 ==> Pow2(CeilLog2(n) - 1) < n)
  {
  }

  /** Section 10.9: one octet with a clear first bit below 128, else two octets marked 10. */
  lemma LengthFields(v: int, aligned: bool)
    requires Encodable(Length, v)
    ensures var e := Encoding(Length, v, aligned);
            if v < 128 then |e| == 8 && !e[0] && BitsNat(e) == v
            else |e| == 16 && e[0] && !e[1] && BitsNat(e[2..]) == v
  {
    hide *;
    LengthForms(v, aligned);
    Pow2Values();
    Pow2Large();
    if v < 128 {
      SpelledBack(v, 8);
    } else {
      SpelledBack(v, 14);
      assert ([true, false] + NatBits(v, 14))[2..] == NatBits(v, 14);
    }
  }

  /** Section 13: the extension bit if there is one, then the least width for the root, or for
      an extension the normally small number of section 10.6. */
  lemma EnumeratedFields(s: Shape, v: int, aligned: bool)
    requires s.Enumerated? && ValidShape(s) && Encodable(s, v)
    ensures var e, root := Encoding(s, v, aligned), if s.hasExt then s.nofTypes - s.nofExts else s.nofTypes;
            if !s.hasExt then LeastField(e, v, root)
            else if v < root then |e| > 0 && !e[0] && LeastField(e[1..], v, root)
            else |e| == 8 && e[0] && !e[1] && BitsNat(e[2..]) == v - root
  {
    hide NatBits, BitsNat, Pow2, CeilLog2;
    var root := NofNoext(s);
    WidthIsLeast(root);
    if v < root {
      SpelledBack(v, CeilLog2(root));
      assert ([false] + NatBits(v, CeilLog2(root)))[1..] == NatBits(v, CeilLog2(root));
      assert [] + NatBits(v, CeilLog2(root)) == NatBits(v, CeilLog2(root));
    } else {
      SmallFields(v - root);
    }
  }

  lemma SmallFields(w: nat)
    requires w <= 63
    ensures var e := [true] + NatBits(w, 7); !e[1] && BitsNat(e[2..]) == w
  {
    hide *;
    Pow2Values();
    NatBitsSplit(w, 1, 6);
    LowSmall(w, 6);
    SpelledBack(w, 6);
    NatBitsEnds(0, 1);
    NatBitsEnds(0, 0);
    assert NatBits(0, 1) == [false] && NatBits(w, 7) == [false] + NatBits(w, 6);
    assert ([true] + NatBits(w, 7))[1] == NatBits(w, 7)[0];
    assert ([true] + ([false] + NatBits(w, 6)))[2..] == NatBits(w, 6);
  }

  /** Section 10.9.3.3 and its counterpart in 10.5.7: in the aligned variant lengths, and integers
      of 256 values or more, start at an octet boundary; everything else where the last field ended. */
  lemma StartAligned(s: Shape, aligned: bool, p: nat)
    ensures Start(s, aligned, p) ==
            if aligned && (s.Length? || (s.Constrained? && s.ub - s.lb + 1 >= 256)) then (p + 7) / 8 * 8 else p
  {
  }

  /** Of the bits skipped to get there, those before an integer are cleared and those before a
      length keep what they held. */
  lemma SkippedBits(s: Shape, v: int, mem: seq<bool>, p: nat, i: nat)
    requires Encodable(s, v) && p + PadLen(p) <= |mem| && End(s, v, true, p) <= |mem|
    requires p <= i < Start(s, true, p)
    ensures i < |mem| && Overlay(mem, p, Laid(s, v, true, mem, p))[i] == (s.Length? && mem[i])
  {
    hide Encoding, Overlay;
    OverlayAt(mem, p, Laid(s, v, true, mem, p));
    assert Overlay(mem, p, Laid(s, v, true, mem, p))[i] == Laid(s, v, true, mem, p)[i - p];
  }

  /** Section 10.9.3.8, with more than the standard's one to four in the six bits: 11, the number
      of 16384s, and the rest in sixteen bits. */
  lemma FragmentedFields(v: nat)
    requires ASN_16K <= v <= ASN_64K
    ensures var f := Fragmented(v);
            |f| == 24 && f[0] && f[1] && BitsNat(f[2..8]) == v / 16384 && BitsNat(f[8..]) == v % 16384
  {
    hide *;
    FragmentedIs(v);
    Pow2Values();
    Pow2Large();
    SpelledBack(v / 16384, 6);
    SpelledBack(v % 16384, 16);
    assert Fragmented(v)[2..8] == NatBits(v / 16384, 6) && Fragmented(v)[8..] == NatBits(v % 16384, 16);
  }

  lemma FragmentedIs(v: nat)
    requires ASN_16K <= v <= ASN_64K
    ensures Fragmented(v) == [true, true] + (NatBits(v / 16384, 6) + NatBits(v % 16384, 16)) && 1 <= v / 16384 <= 4
  {
    hide NatBits;
  }

  // --- memory that no encoder has written ---

  lemma FieldBack(mem: seq<bool>, q: nat, n: nat)
    requires q + n <= |mem|
    ensures BitsNat(mem[q..q + n]) < Pow2(n) && NatBits(BitsNat(mem[q..q + n]), n) == mem[q..q + n]
  {
    hide *;
    BitsNatBound(mem[q..q + n]);
    NatBitsOfBitsNat(mem[q..q + n]);
  }

  /** A constrained integer decodes exactly to what its bits encode while the offset is in
      range. A larger offset is refused by the unaligned variant alone, and only when the lower
      bound plus the offset fits the C++ type; what is accepted then is no value of the range. */
  lemma ConstrainedAccepts(s: Shape, aligned: bool, mem: seq<bool>, limit: nat, p: nat)
    requires s.Constrained? && ValidShape(s) && Range(s) > 1 && limit <= |mem|
    ensures var q, n := Start(s, aligned, p), ConstrainedWidth(s, aligned);
            var d := Read(s, aligned, mem, limit, p);
            if q + n > limit then d == Malformed
            else
              var r := BitsNat(mem[q..q + n]);
              && (r < Range(s) ==> d == Decoded(s.lb + r, q + n) && mem[q..q + n] == Encoding(s, s.lb + r, aligned))
              && (r >= Range(s) ==> (d == Malformed <==> !aligned && s.t.Holds(s.lb + r)))
              && (r >= Range(s) && d.Decoded? ==> !Encodable(s, d.val) && d.next == q + n)
  {
    hide *;
    var q, n := Start(s, aligned, p), ConstrainedWidth(s, aligned);
    ReadIsOffset(s, aligned, mem, limit, p);
    if q + n <= limit {
      FieldBack(mem, q, n);
      ReadNatIs(mem, limit, q, n);
      var r := BitsNat(mem[q..q + n]);
      if r < Range(s) {
        InRange(s, s.lb + r);
        ConstrainedEncoding(s, s.lb + r, aligned);
        FromOffsetExact(s, aligned, s.lb + r, q + n);
      } else {
        OffsetBeyond(s, aligned, r, q + n);
      }
    }
  }

  lemma ReadIsOffset(s: Shape, aligned: bool, mem: seq<bool>, limit: nat, p: nat)
    requires s.Constrained? && ValidShape(s) && Range(s) > 1 && limit <= |mem|
    ensures Read(s, aligned, mem, limit, p) == FromOffset(s, aligned, ReadNat(mem, limit, Start(s, aligned, p), ConstrainedWidth(s, aligned)))
    ensures Start(s, aligned, p) + ConstrainedWidth(s, aligned) > limit ==> Read(s, aligned, mem, limit, p) == Malformed
  {
    hide BitsNat, CeilLog2, IntType.Wrap;
  }

  lemma InRange(s: Shape, v: int)
    requires s.Constrained?
    ensures Encodable(s, v) <==> s.lb <= v < s.lb + Range(s)
    ensures Encodable(s, v) <==> s.lb <= v <= s.ub
  {
  }

  lemma OffsetBeyond(s: Shape, aligned: bool, r: nat, next: nat)
    requires s.Constrained? && ValidShape(s) && Range(s) > 1 && Range(s) <= r < Pow2(ConstrainedWidth(s, aligned))
    ensures var d := FromOffset(s, aligned, Decoded(r, next));
            && (d == Malformed <==> !aligned && s.t.Holds(s.lb + r))
            && (d.Decoded? ==> !Encodable(s, d.val) && d.next == next)
  {
    hide *;
    TypeOf(s, aligned);
    ValidWidth(s.t);
    WrapTwice(s.t, r, s.lb);
    FromOffsetIs(s, aligned, r, next);
    Pow2Monotone(ConstrainedWidth(s, aligned), s.t.width);
    RangeIs(s);
    WrapBeyond(s.t, s.lb, s.ub, r);
    InRange(s, s.t.Wrap(s.lb + r));
    HoldsIs(s.t, s.lb + r);
  }

  lemma RangeIs(s: Shape)
    requires s.Constrained?
    ensures Range(s) == s.ub - s.lb + 1
  {
  }

  /** The field is no wider than the type. */
  lemma TypeOf(s: Shape, aligned: bool)
    requires s.Constrained? && ValidShape(s) && Range(s) > 1
    ensures s.t.Valid() && s.t.Holds(s.lb) && s.t.Holds(s.ub) && ConstrainedWidth(s, aligned) <= s.t.width
  {
    hide NatBits, Pow2, CeilLog2, IntType.Wrap, IntType.Holds;
    RangeFitsType(s.t, s.lb, s.ub);
    CeilLog2Bound(Range(s), s.t.width);
    FieldWidth(Range(s));
  }

  lemma FromOffsetIs(s: Shape, aligned: bool, r: nat, next: nat)
    requires s.Constrained?
    ensures var v := s.t.Wrap(s.t.Wrap(r) + s.lb);
            FromOffset(s, aligned, Decoded(r, next)) == if !aligned && v > s.ub then Malformed else Decoded(v, next)
  {
    hide IntType.Wrap;
  }

  lemma WrapTwice(t: IntType, r: int, lb: int)
    requires t.width > 0
    ensures t.Wrap(t.Wrap(r) + lb) == t.Wrap(lb + r)
  {
    hide *;
    WrapCongruent(t, r);
    var k := (t.Wrap(r) - r) / Pow2(t.width);
    WrapShift(t, lb + r, k);
  }

  /** Past the upper bound a sum keeps its value while it fits the type, and falls below the
      lower bound when it does not. */
  lemma WrapBeyond(t: IntType, lb: int, ub: int, r: nat)
    requires t.width > 0 && t.Holds(lb) && t.Holds(ub) && lb <= ub && ub - lb < r < Pow2(t.width)
    ensures t.Wrap(lb + r) == lb + r || t.Wrap(lb + r) < lb
  {
    var m := Pow2(t.width);
    WrapShift(t, lb + r, -1);
    if lb >= 0 {
      if lb + r < m { DivUnique(lb + r, m, 0, lb + r); } else { DivUnique(lb + r, m, 1, lb + r - m); }
    } else {
      if lb + r < 0 { DivUnique(lb + r, m, -1, lb + r + m); } else { DivUnique(lb + r, m, 0, lb + r); }
    }
  }

  /** A length that decodes stands in memory as it is encoded, or is a number below 128 in the
      longer form; it is refused when it is marked as fragmented or does not end in time. */
  lemma LengthAccepts(aligned: bool, mem: seq<bool>, limit: nat, p: nat)
    requires limit <= |mem|
    ensures var q, d := Start(Length, aligned, p), Read(Length, aligned, mem, limit, p);
            && (d == Malformed <==> q + 8 > limit || (mem[q] && (mem[q + 1] || q + 16 > limit)))
            && (d.Decoded? ==> Encodable(Length, d.val) && q + 8 <= d.next <= limit
                               && (mem[q..d.next] == Encoding(Length, d.val, aligned)
                                   || (d.val < 128 && mem[q] && !mem[q + 1] && d.next == q + 16)))
  {
    hide *;
    var q := Start(Length, aligned, p);
    ReadOfLength(aligned, mem, limit, p);
    Pow2Large();
    Pow2Values();
    if q + 8 <= limit {
      LengthReads(aligned, mem, limit, p);
      if !mem[q] {
        FieldBack(mem, q, 8);
        FirstBitClear(mem[q..q + 8]);
        EncodableLength(BitsNat(mem[q..q + 8]));
        LengthForms(BitsNat(mem[q..q + 8]), aligned);
      } else if !mem[q + 1] && q + 16 <= limit {
        FieldBack(mem, q + 2, 14);
        ReadNatIs(mem, limit, q + 2, 14);
        EncodableLength(BitsNat(mem[q + 2..q + 16]));
        LengthForms(BitsNat(mem[q + 2..q + 16]), aligned);
        assert mem[q..q + 16] == [mem[q], mem[q + 1]] + mem[q + 2..q + 16];
      } else if !mem[q + 1] {
        ReadPastEnd(mem, limit, q + 2, 14);
      }
    }
  }

  lemma ReadOfLength(aligned: bool, mem: seq<bool>, limit: nat, p: nat)
    requires limit <= |mem|
    ensures Read(Length, aligned, mem, limit, p) == ReadLength(aligned, mem, limit, p)
    ensures Start(Length, aligned, p) + 8 > limit ==> ReadLength(aligned, mem, limit, p) == Malformed
  {
    hide BitsNat, ReadNat;
  }

  lemma EncodableLength(v: int)
    ensures Encodable(Length, v) <==> 0 <= v < 16384
  {
  }

  lemma ReadPastEnd(mem: seq<bool>, limit: nat, p: nat, n: nat)
    requires limit <= |mem| && p + n > limit
    ensures ReadNat(mem, limit, p, n) == Malformed
  {
  }

  lemma FirstBitClear(b: seq<bool>)
    requires |b| == 8 && !b[0]
    ensures BitsNat(b) < 128
  {
    hide *;
    Pow2Values();
    BitsNatConcat(b[..1], b[1..]);
    assert b == b[..1] + b[1..] && b[..1] == [] + [false];
    BitsNatEnds(b[..1]);
    BitsNatEnds([]);
    BitsNatBound(b[1..]);
    ShlIs(0, 7);
    Doubled7();
  }

  lemma Doubled7()
    ensures Pow2(7) == 128
  {
    Pow2Values();
  }

  /** An option that decodes is one of the type, and stands in memory as it is encoded unless
      it is an extension sent in the place of a root option. */
  lemma EnumeratedAccepts(s: Shape, aligned: bool, mem: seq<bool>, limit: nat, p: nat)
    requires s.Enumerated? && ValidShape(s) && limit <= |mem|
    ensures var d := Read(s, aligned, mem, limit, p);
            d.Decoded? ==>
              && 0 <= d.val < s.nofTypes && p <= d.next
              && ((d.next <= |mem| && Encodable(s, d.val) && mem[p..d.next] == Encoding(s, d.val, aligned))
                  || (s.hasExt && p < limit && !mem[p] && d.val >= NofNoext(s)))
  {
    hide BitsNat, Pow2, CeilLog2, NatBits;
    var root, n := NofNoext(s), CeilLog2(NofNoext(s));
    var d := Read(s, aligned, mem, limit, p);
    if d.Decoded? {
      if !s.hasExt {
        FieldBack(mem, p, n);
        assert [] + NatBits(d.val, n) == NatBits(d.val, n);
      } else if !mem[p] {
        FieldBack(mem, p + 1, n);
        assert mem[p..p + 1 + n] == [false] + mem[p + 1..p + 1 + n];
      } else {
        FieldBack(mem, p + 2, 6);
        Pow2Values();
        SmallBack(d.val - root);
        assert mem[p..p + 8] == [true, false] + mem[p + 2..p + 8];
      }
    }
  }

  lemma SmallBack(w: nat)
    requires w < Pow2(6)
    ensures w <= 63 && [true] + NatBits(w, 7) == [true, false] + NatBits(w, 6)
  {
    hide *;
    Pow2Values();
    NatBitsSplit(w, 1, 6);
    LowSmall(w, 6);
    NatBitsEnds(0, 1);
    NatBitsEnds(0, 0);
    assert NatBits(0, 1) == [false] && NatBits(w, 7) == [false] + NatBits(w, 6);
  }
}
