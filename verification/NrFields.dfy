/** The fields of an NR MAC PDU in bits (sections 6.1.2, 6.1.3 and 6.2.1 of TS 38.321), and what
    unpacking finds in any bytes, said in those fields. */
module NrFields {
  import opened Bits
  import opened ByteSpans
  import opened FieldBits
  import opened NrPdu

  /** The widths of the fields of what has no length field: uplink CCCH of both sizes, identity,
      truncated and short buffer status report; downlink timing advance command and contention
      resolution identity. Every other element is taken to be empty. */
  function FieldWidths(lcid: nat, ul: bool): seq<nat> {
    if ul then
      match lcid
      case 0 => [64]
      case 52 => [48]
      case 58 => [16]
      case 59 => [3, 5]
      case 61 => [3, 5]
      case _ => []
    else
      match lcid
      case 61 => [2, 6]
      case 62 => [48]
      case _ => []
  }

  lemma SizeofCeFields(lcid: nat, ul: bool)
    ensures 8 * SizeofCe(lcid, ul) == Total(FieldWidths(lcid, ul))
  {
    Totals(64, 0, 0, 0);
    Totals(48, 0, 0, 0);
    Totals(16, 0, 0, 0);
    Totals(3, 5, 0, 0);
    Totals(2, 6, 0, 0);
  }

  /** Both directions accept the same identifiers: uplink 47 to 51, which are reserved there,
      pass the test meant for downlink. */
  lemma ValidIdentifiers(lcid: nat, ul: bool)
    ensures IsValidLcid(lcid, ul) <==> lcid <= 32 || 47 <= lcid <= 63
    ensures IsSdu(lcid, ul) && !IsUlCcch(lcid, ul) <==> lcid <= 32 && !(ul && lcid == 0)
  {
  }

  /** A subheader: a reserved bit, the format, the identifier, and eight or sixteen bits of length
      or none. */
  lemma HeaderBits(p: Subpdu)
    requires Writable(p)
    ensures |Written(p)| >= p.headerLength
    ensures BytesBits(Written(p)[..p.headerLength]) ==
            [false, p.fBit] + NatBits(p.lcid, 6) + NatBits(p.sduLength, 8 * (p.headerLength - 1))
  {
    hide NatBits, BytesBits, Written, LengthField;
    WrittenHeader(p);
    FirstOctetBits(p.fBit, p.lcid);
    LengthFieldBits(p);
    BytesBitsConcat([FirstByte(p.fBit, p.lcid)], LengthField(p));
  }

  lemma WrittenHeader(p: Subpdu)
    requires Writable(p)
    ensures |Written(p)| >= p.headerLength
    ensures Written(p)[..p.headerLength] == [FirstByte(p.fBit, p.lcid)] + LengthField(p)
  {
    hide LengthField;
    var h := [FirstByte(p.fBit, p.lcid)] + LengthField(p);
    assert |h| == p.headerLength && h <= Written(p);
  }

  lemma FirstOctetBits(fBit: bool, lcid: nat)
    ensures BytesBits([FirstByte(fBit, lcid)]) == [false, fBit] + NatBits(lcid, 6)
  {
    hide NatBits, BytesBits, Shl, Low, Shr;
    Pow2Values();
    OctetBits(FirstByte(fBit, lcid));
    TwoFields(if fBit then 1 else 0, lcid % 64, 2, 6);
    ShlIs(if fBit then 1 else 0, 6);
    FlagBits(false, fBit);
    ShrIs(lcid, 6);
    NatBitsMod(lcid, 6, 6);
  }

  lemma LengthFieldBits(p: Subpdu)
    requires Writable(p)
    ensures BytesBits(LengthField(p)) == NatBits(p.sduLength, 8 * (p.headerLength - 1))
  {
    hide NatBits, BytesBits, Written;
    var n := p.sduLength;
    NoOctets(n);
    NoOctets(n / 256);
    NoOctets(n / 256 / 256);
    if p.headerLength == 2 {
      OneMoreOctet([], n, 0);
      assert [] + [n % 256] == LengthField(p);
    } else if p.headerLength == 3 {
      OneMoreOctet([], n / 256, 0);
      assert [] + [n / 256 % 256] == [n / 256 % 256];
      OneMoreOctet([n / 256 % 256], n, 8);
      assert [n / 256 % 256] + [n % 256] == LengthField(p);
    }
  }

  // --- what unpacking finds in any bytes ---

  /** The fields of the first octet of a subheader. */
  lemma FirstOctetFields(x: byte)
    ensures BitsNat(NatBits(x, 8)[2..]) == x % 64 && NatBits(x, 8)[1] == (x / 64 % 2 == 1)
  {
    hide *;
    Pow2Values();
    NatBitsSplit(x, 2, 6);
    BitsNatOfNatBits(x, 6);
    ShrIs(x, 6);
    NatBitsEnds(Shr(x, 6), 2);
    assert NatBits(x, 8)[2..] == NatBits(x, 6);
  }

  lemma LengthFields(x: byte, y: byte)
    ensures BitsNat(NatBits(x, 8)) == x && BitsNat(NatBits(x, 8) + NatBits(y, 8)) == (x as nat) * 256 + y
  {
    hide *;
    Pow2Values();
    BitsNatOfNatBits(x, 8);
    BitsNatOfNatBits(y, 8);
    LowSmall(x, 8);
    LowSmall(y, 8);
    BitsNatConcat(NatBits(x, 8), NatBits(y, 8));
    ShlIs(x, 8);
  }

  /** The subheader that any three bytes hold: a format bit and six bits of identifier, then
      eight or sixteen bits of length for a channel, or the size of the fields. */
  lemma ReadSubheaderBits(m: seq<byte>, at: nat, ul: bool)
    requires at + 2 < |m|
    ensures var x, y, z := NatBits(m[at], 8), NatBits(m[at + 1], 8), NatBits(m[at + 2], 8);
            var p := ReadSubheader(m, at, ul);
            && p.lcid == BitsNat(x[2..]) && p.fBit == x[1] && p.sdu == Received(at + p.headerLength)
            && if p.lcid > 32 || (ul && p.lcid == 0) then 8 * p.sduLength == Total(FieldWidths(p.lcid, ul)) && p.headerLength == 1
               else if x[1] then p.sduLength == BitsNat(y + z) && p.headerLength == 3
               else p.sduLength == BitsNat(y) && p.headerLength == 2
  {
    hide BitsNat, NatBits, FieldWidths, Total, SizeofCe, IsSdu, IsUlCcch;
    FirstOctetFields(m[at]);
    LengthFields(m[at + 1], m[at + 2]);
    SizeofCeFields(m[at] % 64, ul);
    ValidIdentifiers(m[at] % 64, ul);
  }

  /** Every payload starts behind its header, which starts where the payload before it ends. */
  ghost predicate Consecutive(rs: seq<Subpdu>, at: nat) {
    && (forall i :: 0 <= i < |rs| ==> rs[i].sdu.Received?)
    && (rs != [] ==> rs[0].sdu.at == at + rs[0].headerLength)
    && (forall i :: 0 <= i < |rs| - 1 ==> rs[i + 1].sdu.at == rs[i].sdu.at + rs[i].sduLength + rs[i + 1].headerLength)
  }

  function EndOf(rs: seq<Subpdu>, at: nat): nat {
    if rs == [] then at else EndOf(rs[1..], at + TotalLength(rs[0]))
  }

  /** Unpacking any bytes gives consecutive subPDUs with valid identifiers and stops only at the
      end of the PDU or at a reserved identifier. */
  lemma {:induction false} ParseConsecutive(m: seq<byte>, len: nat, at: nat, ul: bool)
    requires len + 2 <= |m|
    ensures var rs := Parse(m, len, at, ul);
            && Consecutive(rs, at)
            && (forall i :: 0 <= i < |rs| ==> rs[i].lcid <= 32 || 47 <= rs[i].lcid <= 63)
            && (EndOf(rs, at) >= len || 32 < m[EndOf(rs, at)] % 64 < 47)
    decreases len - at
  {
    hide ReadSubheader, IsValidLcid, Consecutive, EndOf;
    NothingConsecutive(at);
    if at < len {
      ValidIdentifiers(m[at] % 64, ul);
      if IsValidLcid(m[at] % 64, ul) {
        var p := ReadSubheader(m, at, ul);
        ReadIdentifier(m, at, ul);
        ParseStep(m, len, at, ul);
        ParseConsecutive(m, len, at + TotalLength(p), ul);
        ConsecutiveCons(p, Parse(m, len, at + TotalLength(p), ul), at);
      }
    }
  }

  lemma NothingConsecutive(at: nat)
    ensures Consecutive([], at) && EndOf([], at) == at
  {
  }

  lemma ReadIdentifier(m: seq<byte>, at: nat, ul: bool)
    requires at + 2 < |m|
    ensures ReadSubheader(m, at, ul).lcid == m[at] % 64
    ensures ReadSubheader(m, at, ul).sdu == Received(at + ReadSubheader(m, at, ul).headerLength)
  {
    hide SizeofCe, IsSdu, IsUlCcch;
  }

  lemma ConsecutiveCons(p: Subpdu, rest: seq<Subpdu>, at: nat)
    requires p.sdu == Received(at + p.headerLength) && Consecutive(rest, at + TotalLength(p))
    ensures Consecutive([p] + rest, at) && EndOf([p] + rest, at) == EndOf(rest, at + TotalLength(p))
  {
    assert ([p] + rest)[1..] == rest;
  }
}
