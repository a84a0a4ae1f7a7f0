/** The fields of an LTE MAC PDU in bits (sections 6.1.2, 6.1.3 and 6.2.1 of TS 36.321), and what
    the reader finds in any bytes, said in those fields. */
module SchFields {
  import opened Bits
  import opened FieldBits
  import opened SchWire
  import Bsr
  import S = SchPdu

  /** The widths of the fields of a control element: uplink power headroom, identity, truncated,
      short and long buffer status report; downlink activation, contention resolution identity
      and timing advance command. Every other element is empty. */
  function FieldWidths(lcid: nat, ul: bool): seq<nat> {
    if ul then
      match lcid
      case 26 => [2, 6]
      case 27 => [16]
      case 28 => [2, 6]
      case 29 => [2, 6]
      case 30 => [6, 6, 6, 6]
      case _ => []
    else
      match lcid
      case 27 => [7, 1]
      case 28 => [48]
      case 29 => [2, 6]
      case _ => []
  }

  /** The size by which reader and writer know a control element is that of its fields. */
  lemma SizeofCeFields(lcid: nat, ul: bool)
    ensures 8 * SizeofCe(lcid, ul) == Total(FieldWidths(lcid, ul))
  {
    Totals(6, 6, 6, 6);
    Totals(2, 6, 0, 0);
    Totals(7, 1, 0, 0);
    Totals(16, 0, 0, 0);
    Totals(48, 0, 0, 0);
  }

  // --- subheaders in bits ---

  /** The first octet: two reserved bits, whether another subheader follows, the identifier. */
  lemma FirstOctetBits(follows: bool, lcid: nat)
    ensures BytesBits([(if follows then 32 else 0) + lcid % 32]) == [false, false, follows] + NatBits(lcid, 5)
  {
    hide *;
    Pow2Values();
    OctetBits((if follows then 32 else 0) + lcid % 32);
    TwoFields(if follows then 1 else 0, lcid % 32, 3, 5);
    ShlIs(if follows then 1 else 0, 5);
    FlagBits(false, follows);
    ShrIs(lcid, 5);
    NatBitsMod(lcid, 5, 5);
  }

  /** A length: one bit for the format, then seven or fifteen bits. */
  lemma LengthBits(n: nat)
    requires n < 32768
    ensures BytesBits(LengthField(n)) == if n < 128 then [false] + NatBits(n, 7) else [true] + NatBits(n, 15)
  {
    hide NatBits, BytesBits, Shl, Low, Shr;
    Pow2Values();
    FlagBits(false, n >= 128);
    if n < 128 {
      OctetBits(n);
      TwoFields(0, n, 1, 7);
      ShlIs(0, 7);
    } else {
      var q, r := n / 256, n % 256;
      OctetBits(128 + q);
      OctetBits(r);
      TwoFields(1, q, 1, 7);
      ShlIs(1, 7);
      TwoFields(q, r, 7, 8);
      ShlIs(q, 8);
      LongLength(q);
      BytesBitsConcat([128 + q], [r]);
      assert LengthField(n) == [128 + q] + [r];
      assert [true] + NatBits(q, 7) + NatBits(r, 8) == [true] + (NatBits(q, 7) + NatBits(r, 8));
    }
  }

  /** The subheader of an item. Only an SDU that is not last carries its length. */
  lemma HeaderBits(it: Item, last: bool)
    requires Size(it) < 32768
    ensures BytesBits(HeaderBytes(it, last)) ==
            [false, false, !last] + NatBits(it.lcid, 5)
            + (if it.Ce? || last then []
               else if Size(it) < 128 then [false] + NatBits(Size(it), 7)
               else [true] + NatBits(Size(it), 15))
  {
    hide NatBits, BytesBits, LengthField;
    FirstOctetBits(!last, it.lcid);
    if it.Sdu? && !last {
      LengthBits(Size(it));
      BytesBitsConcat([(if last then 0 else 32) + it.lcid % 32], LengthField(Size(it)));
    } else {
      assert HeaderBytes(it, last) == [(if last then 0 else 32) + it.lcid % 32];
      assert [false, false, !last] + NatBits(it.lcid, 5) + [] == [false, false, !last] + NatBits(it.lcid, 5);
    }
  }

  /** A short report is two bits of group and six of index. */
  lemma ShortReportBits(sizes: seq<nat>)
    requires |sizes| == 4
    ensures var g := Bsr.LastGroup(sizes);
            var k := Bsr.Index(sizes[g]);
            k < 64 && BytesBits([g * 64 + k]) == NatBits(g, 2) + NatBits(k, 6)
  {
    hide NatBits, BytesBits, Shl, Bsr.Index, Bsr.LastGroup, Bsr.BTable;
    var g := Bsr.LastGroup(sizes);
    Pow2Values();
    OctetBits(g * 64 + Bsr.Index(sizes[g]));
    TwoFields(g, Bsr.Index(sizes[g]), 2, 6);
    ShlIs(g, 6);
  }

  /** The six octets of a contention resolution identity are its 48 low bits. */
  lemma {:induction false} ConResBits(id: nat)
    ensures BytesBits(S.ConResBytes(id)) == NatBits(id, 48)
  {
    hide *;
    ConResOctets(id);
    var x1, x2, x3, x4, x5 := id / 256, id / 0x1_0000, id / 0x100_0000, id / 0x1_0000_0000, id / 0x100_0000_0000;
    var s1 := [] + [x5 % 256];
    var s2 := s1 + [x4 % 256];
    var s3 := s2 + [x3 % 256];
    var s4 := s3 + [x2 % 256];
    var s5 := s4 + [x1 % 256];
    NoOctets(x5 / 256);
    OneMoreOctet([], x5, 0);
    OneMoreOctet(s1, x4, 8);
    OneMoreOctet(s2, x3, 16);
    OneMoreOctet(s3, x2, 24);
    OneMoreOctet(s4, x1, 32);
    OneMoreOctet(s5, id, 40);
    assert S.ConResBytes(id) == s5 + [id % 256];
  }

  lemma ConResOctets(id: nat)
    ensures S.ConResBytes(id) == [id / 0x100_0000_0000 % 256, id / 0x1_0000_0000 % 256, id / 0x100_0000 % 256,
                                  id / 0x1_0000 % 256, id / 256 % 256, id % 256]
    ensures id / 256 / 256 == id / 0x1_0000 && id / 0x1_0000 / 256 == id / 0x100_0000
    ensures id / 0x100_0000 / 256 == id / 0x1_0000_0000 && id / 0x1_0000_0000 / 256 == id / 0x100_0000_0000
  {
  }

  // --- what the reader finds in any bytes ---

  /** The fields of the first octet of a subheader. */
  lemma FirstOctetFields(x: byte)
    ensures BitsNat(NatBits(x, 8)[3..]) == x % 32 && NatBits(x, 8)[2] == (x / 32 % 2 == 1)
  {
    hide *;
    Pow2Values();
    NatBitsSplit(x, 3, 5);
    BitsNatOfNatBits(x, 5);
    ShrIs(x, 5);
    NatBitsEnds(Shr(x, 5), 3);
    assert NatBits(x, 8)[3..] == NatBits(x, 5);
  }

  /** The fields of the octet with the format bit. */
  lemma LengthOctetFields(x: byte)
    ensures BitsNat(NatBits(x, 8)[1..]) == x % 128 && NatBits(x, 8)[0] == (x / 128 % 2 == 1)
  {
    hide *;
    Pow2Values();
    NatBitsSplit(x, 1, 7);
    BitsNatOfNatBits(x, 7);
    ShrIs(x, 7);
    NatBitsEnds(Shr(x, 7), 1);
    NatBitsEnds(Shr(x, 7) / 2, 0);
    assert NatBits(x, 8)[1..] == NatBits(x, 7);
  }

  /** Seven bits followed by an octet. */
  lemma LongFieldFields(x: byte, y: byte)
    ensures BitsNat(NatBits(x, 8)[1..] + NatBits(y, 8)) == x % 128 * 256 + y
  {
    hide *;
    Pow2Values();
    LengthOctetFields(x);
    BitsNatConcat(NatBits(x, 8)[1..], NatBits(y, 8));
    BitsNatOfNatBits(y, 8);
    ShrIs(y, 8);
    ShlIs(x % 128, 8);
  }

  /** The subheader that any three bytes hold: the third bit says whether another follows, then
      five bits of identifier; a channel that is not last has a format bit and seven or fifteen
      bits of length, and a control element has the size of its fields. */
  lemma ReadHeadBits(m: seq<byte>, at: nat, ul: bool)
    requires at + 2 < |m|
    ensures var x, y, z := NatBits(m[at], 8), NatBits(m[at + 1], 8), NatBits(m[at + 2], 8);
            var h := ReadHead(m, at, ul);
            && h.lcid == BitsNat(x[3..]) && h.extended == x[2]
            && if h.lcid >= 26 then 8 * h.nofBytes == Total(FieldWidths(h.lcid, ul)) && h.length == 1
               else if !x[2] then h.nofBytes == 0 && h.length == 1
               else if !y[0] then h.nofBytes == BitsNat(y[1..]) && h.length == 2
               else h.nofBytes == BitsNat(y[1..] + z) && h.length == 3
  {
    hide BitsNat, NatBits, FieldWidths, Total, SizeofCe;
    FirstOctetFields(m[at]);
    LengthOctetFields(m[at + 1]);
    LongFieldFields(m[at + 1], m[at + 2]);
    SizeofCeFields(m[at] % 32, ul);
  }

  /** Every payload starts where the one before it ends, the first behind the subheaders, and a
      control element is as long as its fields. */
  ghost predicate Consecutive(rs: seq<Received>, at: nat, ul: bool) {
    && (rs != [] ==> rs[0].at == at)
    && (forall i :: 0 <= i < |rs| - 1 ==> rs[i + 1].at == rs[i].at + rs[i].nofBytes)
    && (forall i :: 0 <= i < |rs| ==> rs[i].lcid >= 26 ==> 8 * rs[i].nofBytes == Total(FieldWidths(rs[i].lcid, ul)))
  }

  ghost predicate Fielded(hs: seq<Head>, ul: bool) {
    forall i :: 0 <= i < |hs| ==> hs[i].lcid >= 26 ==> 8 * hs[i].nofBytes == Total(FieldWidths(hs[i].lcid, ul))
  }

  lemma {:induction false} HeadsFielded(m: seq<byte>, pduLen: nat, ul: bool, max: nat, at: nat, k: nat)
    requires pduLen + 3 <= |m| && at <= pduLen && k < max
    ensures Fielded(Heads(m, pduLen, ul, max, at, k), ul)
    decreases max - k
  {
    hide Heads, ReadHead, FieldWidths, Total;
    HeadsStep(m, pduLen, ul, max, at, k);
    ReadHeadBits(m, at, ul);
    var h := ReadHead(m, at, ul);
    if !Stops(h, at + h.length, k, max, pduLen) {
      HeadsFielded(m, pduLen, ul, max, at + h.length, k + 1);
    }
  }

  lemma {:induction false} PlacedConsecutive(hs: seq<Head>, at: nat, ul: bool)
    requires Fielded(hs, ul)
    ensures Consecutive(Placed(hs, at), at, ul)
  {
    hide FieldWidths, Total;
    if hs != [] {
      PlacedConsecutive(hs[1..], at + hs[0].nofBytes, ul);
    }
  }

  /** So it is in whatever the reader makes of any bytes. */
  lemma ParseBaseConsecutive(m: seq<byte>, pduLen: nat, ul: bool, max: nat)
    requires pduLen + 3 <= |m|
    ensures var rs := ParseBase(m, pduLen, ul, max);
            rs != [] ==> max > 0 && Consecutive(rs, HeadsLength(Heads(m, pduLen, ul, max, 0, 0)), ul)
  {
    hide Heads, FieldWidths, Total, Consecutive, Fielded, Placed;
    if max > 0 {
      HeadsFielded(m, pduLen, ul, max, 0, 0);
      PlacedConsecutive(Heads(m, pduLen, ul, max, 0, 0), HeadsLength(Heads(m, pduLen, ul, max, 0, 0)), ul);
    }
  }

  /** A long buffer status report and an SDU behind it, in any uplink PDU of six bytes or more. */
  lemma LongReportThenSdu(m: seq<byte>, pduLen: nat)
    requires 6 <= pduLen && pduLen + 3 <= |m| && m[0] == 0x3E && m[1] == 0x01
    ensures Parse(m, pduLen, true, 20) == [Received(30, 3, 2), Received(1, pduLen - 5, 5)]
  {
    hide *;
    TwoHeads(m, pduLen);
    TwoPlaced();
    ParseOfHeads(m, pduLen, [Head(30, 3, true, 1), Head(1, 0, false, 1)]);
    CorrectedOfTwo(pduLen);
  }

  lemma TwoHeads(m: seq<byte>, pduLen: nat)
    requires 6 <= pduLen && pduLen + 3 <= |m| && m[0] == 0x3E && m[1] == 0x01
    ensures Heads(m, pduLen, true, 20, 0, 0) == [Head(30, 3, true, 1), Head(1, 0, false, 1)]
  {
    hide Heads;
    HeadsStep(m, pduLen, true, 20, 0, 0);
    HeadsStep(m, pduLen, true, 20, 1, 1);
  }

  lemma TwoPlaced()
    ensures var hs := [Head(30, 3, true, 1), Head(1, 0, false, 1)];
            HeadsLength(hs) == 2 && Placed(hs, 2) == [Received(30, 3, 2), Received(1, 0, 5)]
  {
    var h, g := Head(30, 3, true, 1), Head(1, 0, false, 1);
    assert [h, g][1..] == [g] && [g][1..] == [];
    assert HeadsLength([]) == 0 && HeadsLength([g]) == 1 && HeadsLength([h, g]) == 2;
    assert Placed([], 5) == [] && Placed([g], 5) == [Received(1, 0, 5)] + [];
  }

  lemma ParseOfHeads(m: seq<byte>, pduLen: nat, hs: seq<Head>)
    requires pduLen + 3 <= |m| && Heads(m, pduLen, true, 20, 0, 0) == hs && hs != [] && !hs[|hs| - 1].extended
    ensures Parse(m, pduLen, true, 20) == Corrected(Placed(hs, HeadsLength(hs)), pduLen)
  {
    hide Heads, Corrected, Placed, HeadsLength;
  }

  lemma CorrectedOfTwo(pduLen: nat)
    requires 6 <= pduLen
    ensures Corrected([Received(30, 3, 2), Received(1, 0, 5)], pduLen) == [Received(30, 3, 2), Received(1, pduLen - 5, 5)]
  {
    var rs := [Received(30, 3, 2), Received(1, 0, 5)];
    assert rs[..1] == [Received(30, 3, 2)];
    SumOfOne(Received(30, 3, 2));
  }

  lemma HeadLength(m: seq<byte>, at: nat, ul: bool)
    requires at + 2 < |m|
    ensures !ReadHead(m, at, ul).extended ==> ReadHead(m, at, ul).length == 1
  {
  }

  /** The chain of subheaders in any bytes: every one but the last announces another, the last
      does so only at the end of the bytes or of the table, and a table of two or more places
      keeps one free. */
  lemma {:induction false} HeadsChain(m: seq<byte>, pduLen: nat, ul: bool, max: nat, at: nat, k: nat)
    requires pduLen + 3 <= |m| && at <= pduLen && k < max
    ensures var hs := Heads(m, pduLen, ul, max, at, k);
            && (forall i :: 0 <= i < |hs| - 1 ==> hs[i].extended)
            && (hs[|hs| - 1].extended ==> at + HeadsLength(hs) >= pduLen || k + |hs| + 1 >= max)
            && (!hs[|hs| - 1].extended ==> hs[|hs| - 1].length == 1)
            && (k + 2 <= max ==> k + |hs| <= max - 1)
    decreases max - k
  {
    hide Heads, ReadHead;
    HeadsStep(m, pduLen, ul, max, at, k);
    HeadLength(m, at, ul);
    var h, hs := ReadHead(m, at, ul), Heads(m, pduLen, ul, max, at, k);
    if Stops(h, at + h.length, k, max, pduLen) {
      assert HeadsLength([h][1..]) == 0;
    } else {
      HeadsChain(m, pduLen, ul, max, at + h.length, k + 1);
      assert hs[1..] == Heads(m, pduLen, ul, max, at + h.length, k + 1);
    }
  }

  /** The PDU is dropped before its payloads are placed exactly when there is no table, or the
      last subheader announces another one that the PDU has no byte for. */
  lemma ParseBaseDropped(m: seq<byte>, pduLen: nat, ul: bool, max: nat)
    requires pduLen + 3 <= |m| && max > 0
    ensures var hs := Heads(m, pduLen, ul, max, 0, 0);
            ParseBase(m, pduLen, ul, max) == [] <==> hs[|hs| - 1].extended && HeadsLength(hs) >= pduLen
    ensures max >= 2 ==> |ParseBase(m, pduLen, ul, max)| <= max - 1
  {
    hide Heads, HeadsLength;
    HeadsChain(m, pduLen, ul, max, 0, 0);
  }

  /** A subheader whose length field, if it has one, has the shortest form. */
  predicate Shortest(h: Head) {
    h.length == if h.lcid >= 26 then 1 else if h.nofBytes < 128 then 2 else 3
  }

  lemma {:induction false} PlacedSum(hs: seq<Head>, at: nat)
    requires hs != [] && forall i :: 0 <= i < |hs| - 1 ==> Shortest(hs[i])
    ensures var r, n := Placed(hs, at), |hs| - 1;
            r[n].at + HeadsLength(hs) == at + SumSizes(r[..n]) + hs[n].length
  {
    var r, n := Placed(hs, at), |hs| - 1;
    if n == 0 {
      assert HeadsLength(hs[1..]) == 0 && SumSizes(r[..0]) == 0;
    } else {
      var t := Placed(hs[1..], at + hs[0].nofBytes);
      PlacedSum(hs[1..], at + hs[0].nofBytes);
      assert r[..n] == [r[0]] + t[..n - 1];
      SumSizesConcat([r[0]], t[..n - 1]);
      SumOfOne(r[0]);
    }
  }

  /** When all length fields have the shortest form and the subheaders end before the table, the
      payloads end exactly where the PDU does; the PDU is dropped when the subheaders and the
      sizes they give leave no byte for the last one. */
  lemma ParseFillsPdu(m: seq<byte>, pduLen: nat, ul: bool, max: nat)
    requires pduLen + 3 <= |m| && max > 0
    requires var hs := Heads(m, pduLen, ul, max, 0, 0);
             !hs[|hs| - 1].extended && forall i :: 0 <= i < |hs| - 1 ==> Shortest(hs[i])
    ensures var rs, base := Parse(m, pduLen, ul, max), ParseBase(m, pduLen, ul, max);
            && |base| > 0
            && var n := |base| - 1;
               && (rs == [] <==> base[n].at > pduLen)
               && (rs != [] ==> |rs| == n + 1 && rs[..n] == base[..n] && rs[n].lcid == base[n].lcid
                                && rs[n].at == base[n].at && rs[n].at + rs[n].nofBytes == pduLen)
  {
    hide Heads, Placed, HeadsLength, SumSizes;
    var hs := Heads(m, pduLen, ul, max, 0, 0);
    HeadsChain(m, pduLen, ul, max, 0, 0);
    PlacedSum(hs, HeadsLength(hs));
  }
}
