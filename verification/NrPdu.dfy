/** The NR MAC PDU: SDUs are written in place behind their subheaders, padding fills the rest,
    and unpacking walks the subPDUs (section 6.1.2 of TS 38.321). */
module NrPdu {
  import opened Bits
  import opened ByteSpans

  const CCCH_SIZE_64 := 0
  const CCCH_SIZE_48 := 52
  const CRNTI := 58
  const SHORT_TRUNC_BSR := 59
  const TA_CMD := 61
  const SHORT_BSR := 61
  const CON_RES_ID := 62
  const PADDING := 63
  const ERROR: uint32 := 0xFFFF_FFFF

  /** What a subPDU points at: nothing, the caller's payload, or a place in received bytes. */
  datatype Sdu = NoSdu | Payload(bytes: seq<byte>) | Received(at: nat)

  datatype Subpdu = Subpdu(lcid: nat, headerLength: nat, sduLength: nat, fBit: bool, sdu: Sdu)

  function TotalLength(p: Subpdu): nat {
    p.headerLength + p.sduLength
  }

  predicate IsUlCcch(lcid: nat, ul: bool) {
    ul && (lcid == CCCH_SIZE_48 || lcid == CCCH_SIZE_64)
  }

  predicate IsSdu(lcid: nat, ul: bool) {
    lcid <= 32 || (ul && lcid == 52)
  }

  /** False for the reserved values. */
  predicate IsValidLcid(lcid: nat, ul: bool) {
    lcid <= 63 && ((ul && (lcid <= 32 || lcid >= 52)) || (lcid <= 32 || lcid >= 47))
  }

  function SizeofCe(lcid: nat, ul: bool): nat {
    if ul then
      if lcid == CCCH_SIZE_48 then 6
      else if lcid == CCCH_SIZE_64 then 8
      else if lcid == CRNTI then 2
      else if lcid == SHORT_TRUNC_BSR || lcid == SHORT_BSR then 1
      else 0
    else
      if lcid == CON_RES_ID then 6 else if lcid == TA_CMD then 1 else 0
  }

  /** The length set_sdu takes: a CCCH message has the length its identifier says. */
  function EffectiveLength(lcid: nat, len: nat, ul: bool): nat {
    if IsUlCcch(lcid, ul) then SizeofCe(lcid, ul) else len
  }

  /** The subPDU that set_sdu makes of a payload. */
  function SetSdu(lcid: nat, ul: bool, bytes: seq<byte>): Subpdu {
    var headerLength := if IsUlCcch(lcid, ul) then 1 else 2;
    if |bytes| >= 256 then Subpdu(lcid, headerLength + 1, |bytes|, true, Payload(bytes))
    else Subpdu(lcid, headerLength, |bytes|, false, Payload(bytes))
  }

  function SetPadding(len: nat): (p: Subpdu)
    requires len >= 1
  {
    Subpdu(PADDING, 1, len - 1, false, NoSdu)
  }

  function FirstByte(fBit: bool, lcid: nat): byte {
    (if fBit then 64 else 0) + lcid % 64
  }

  function LengthField(p: Subpdu): (s: seq<byte>)
    ensures |s| == if p.headerLength == 3 then 2 else if p.headerLength == 2 then 1 else 0
  {
    if p.headerLength == 3 then [p.sduLength / 256 % 256, p.sduLength % 256]
    else if p.headerLength == 2 then [p.sduLength % 256]
    else []
  }

  /** A subPDU whose header length is one of the three that can be written and whose payload,
      if any, is all there. */
  predicate Writable(p: Subpdu) {
    1 <= p.headerLength <= 3 && (p.sdu.NoSdu? || (p.sdu.Payload? && |p.sdu.bytes| == p.sduLength))
  }

  /** The bytes of a subPDU. */
  function Written(p: Subpdu): (s: seq<byte>)
    requires Writable(p)
    ensures |s| == TotalLength(p)
  {
    [FirstByte(p.fBit, p.lcid)] + LengthField(p) + (if p.sdu.Payload? then p.sdu.bytes else ZeroBytes(p.sduLength))
  }

  /** The bytes of a list of subPDUs. */
  function Wire(items: seq<Subpdu>): (s: seq<byte>)
    requires forall p :: p in items ==> Writable(p)
  {
    if items == [] then [] else Written(items[0]) + Wire(items[1..])
  }

  lemma {:induction false} WireConcat(a: seq<Subpdu>, b: seq<Subpdu>)
    requires (forall p :: p in a ==> Writable(p)) && (forall p :: p in b ==> Writable(p))
    ensures Wire(a + b) == Wire(a) + Wire(b)
  {
    hide Written, Writable;
    if a == [] {
      assert a + b == b;
    } else {
      assert (a + b)[0] == a[0] && (a + b)[1..] == a[1..] + b;
      WireConcat(a[1..], b);
    }
  }

  lemma WireOfOne(p: Subpdu)
    requires Writable(p)
    ensures Wire([p]) == Written(p)
  {
    hide Written;
    assert Wire([p][1..]) == [];
  }

  // --- reading ---

  /** What read_subheader finds at a place; the bytes after it must be readable. */
  function ReadSubheader(m: seq<byte>, at: nat, ul: bool): Subpdu
    requires at + 2 < |m|
  {
    var fBit := m[at] / 64 % 2 == 1;
    var lcid := m[at] % 64;
    if IsSdu(lcid, ul) && !IsUlCcch(lcid, ul) then
      if fBit then Subpdu(lcid, 3, (m[at + 1] as nat) * 256 + m[at + 2] as nat, fBit, Received(at + 3))
      else Subpdu(lcid, 2, m[at + 1], fBit, Received(at + 2))
    else Subpdu(lcid, 1, SizeofCe(lcid, ul), fBit, Received(at + 1))
  }

  /** The subPDUs from a place to the end of a PDU of len bytes, up to an invalid one. */
  function Parse(m: seq<byte>, len: nat, at: nat, ul: bool): (items: seq<Subpdu>)
    requires len + 2 <= |m|
    ensures at <= len ==> |items| <= len - at
    decreases len - at
  {
    if at >= len then []
    else if !IsValidLcid(m[at] % 64, ul) then []
    else
      var p := ReadSubheader(m, at, ul);
      [p] + Parse(m, len, at + TotalLength(p), ul)
  }

  /** A subPDU as the receiver sees it when it starts at a place. */
  function AsReceived(p: Subpdu, at: nat): Subpdu {
    p.(sdu := Received(at + p.headerLength))
  }

  function Located(items: seq<Subpdu>, at: nat): (s: seq<Subpdu>)
    ensures |s| == |items|
  {
    if items == [] then [] else [AsReceived(items[0], at)] + Located(items[1..], at + TotalLength(items[0]))
  }

  /** What add_sdu makes of a logical channel's SDU below 65536 bytes or of a CCCH message of
      the right size. */
  predicate Sendable(p: Subpdu, ul: bool) {
    && p.sdu.Payload? && p == SetSdu(p.lcid, ul, p.sdu.bytes)
    && (if IsUlCcch(p.lcid, ul) then p.sduLength == SizeofCe(p.lcid, ul) else p.lcid <= 32 && p.sduLength < 65536)
  }

  lemma SendableParts(p: Subpdu, ul: bool)
    requires Sendable(p, ul)
    ensures Writable(p) && p.lcid < 64 && IsValidLcid(p.lcid, ul) && p.sduLength < 65536
    ensures IsUlCcch(p.lcid, ul) ==> p.headerLength == 1 && !p.fBit && p.sduLength == SizeofCe(p.lcid, ul)
    ensures !IsUlCcch(p.lcid, ul) ==> IsSdu(p.lcid, ul) && p.fBit == (p.sduLength >= 256) && p.headerLength == if p.fBit then 3 else 2
  {
  }

  lemma FirstByteReads(fBit: bool, lcid: nat)
    requires lcid < 64
    ensures FirstByte(fBit, lcid) % 64 == lcid && (FirstByte(fBit, lcid) / 64 % 2 == 1) == fBit
  {
  }

  lemma LengthReads(n: nat)
    requires n < 65536
    ensures n / 256 % 256 * 256 + n % 256 == n
    ensures n < 256 ==> n % 256 == n
  {
  }

  /** A written SDU is read back with the same identifier, lengths and place. */
  lemma ReadWritten(m: seq<byte>, at: nat, p: Subpdu, ul: bool)
    requires Sendable(p, ul) && Writable(p) && Holds(m, at, Written(p)) && at + 2 < |m|
    ensures IsValidLcid(m[at] % 64, ul)
    ensures ReadSubheader(m, at, ul) == AsReceived(p, at)
  {
    SendableParts(p, ul);
    HoldsBytes(m, at, Written(p));
    FirstByteReads(p.fBit, p.lcid);
    LengthReads(p.sduLength);
    var w := Written(p);
    assert m[at] == w[0] == FirstByte(p.fBit, p.lcid);
    if p.headerLength >= 2 {
      assert m[at + 1] == w[1] == LengthField(p)[0];
    }
    if p.headerLength == 3 {
      assert m[at + 2] == w[2] == LengthField(p)[1];
    }
  }

  lemma ParseStep(m: seq<byte>, len: nat, at: nat, ul: bool)
    requires len + 2 <= |m| && at < len && IsValidLcid(m[at] % 64, ul)
    ensures var p := ReadSubheader(m, at, ul);
            Parse(m, len, at, ul) == [p] + Parse(m, len, at + TotalLength(p), ul)
  {
    hide ReadSubheader, IsValidLcid;
  }

  lemma WireStep(items: seq<Subpdu>)
    requires items != [] && forall p :: p in items ==> Writable(p)
    ensures Wire(items) == Written(items[0]) + Wire(items[1..])
  {
    hide Written, Writable;
  }

  lemma LocatedStep(items: seq<Subpdu>, at: nat)
    requires items != []
    ensures Located(items, at) == [AsReceived(items[0], at)] + Located(items[1..], at + TotalLength(items[0]))
  {
    hide AsReceived, TotalLength;
  }

  /** SDUs that lie in a PDU one after the other are parsed in order, then parsing goes on
      behind them. */
  lemma {:induction false} ParseWritten(m: seq<byte>, len: nat, at: nat, items: seq<Subpdu>, ul: bool)
    requires forall p :: p in items ==> Sendable(p, ul) && Writable(p)
    requires len + 2 <= |m| && Holds(m, at, Wire(items)) && at + |Wire(items)| <= len
    ensures Parse(m, len, at, ul) == Located(items, at) + Parse(m, len, at + |Wire(items)|, ul)
    decreases |items|
  {
    hide Parse, Sendable, Writable, Holds, Wire, ReadSubheader, AsReceived, IsValidLcid, Located;
    if items == [] {
      WireNothing();
      LocatedNothing(at);
    } else {
      var p, rest := items[0], items[1..];
      assert forall q :: q in rest ==> q in items;
      WireStep(items);
      LocatedStep(items, at);
      HoldsSplit(m, at, Written(p), Wire(rest));
      assert TotalLength(p) >= 1 by {
        hide TotalLength;
        WritableLength(p);
      }
      ReadWritten(m, at, p, ul);
      ParseStep(m, len, at, ul);
      AsReceivedLength(p, at);
      ParseWritten(m, len, at + TotalLength(p), rest, ul);
      assert [AsReceived(p, at)] + Located(rest, at + TotalLength(p)) + Parse(m, len, at + |Wire(items)|, ul)
             == [AsReceived(p, at)] + (Located(rest, at + TotalLength(p)) + Parse(m, len, at + |Wire(items)|, ul));
    }
  }

  lemma WireNothing()
    ensures Wire([]) == []
  {
  }

  lemma LocatedNothing(at: nat)
    ensures Located([], at) == []
  {
  }

  lemma WritableLength(p: Subpdu)
    requires Writable(p)
    ensures TotalLength(p) >= 1
  {
  }

  lemma AsReceivedLength(p: Subpdu, at: nat)
    ensures TotalLength(AsReceived(p, at)) == TotalLength(p)
  {
  }

  /** The padding subPDU that pack adds to r bytes of space: one byte of header, then zeros. */
  lemma PaddingBytes(r: nat)
    requires r >= 1
    ensures Writable(SetPadding(r)) && Written(SetPadding(r)) == [63] + ZeroBytes(r - 1) && TotalLength(SetPadding(r)) == r
  {
  }

  /** What unpack makes of a packed PDU: the SDUs in order with their bytes, a padding subPDU
      of no length if there was space left, and nothing else exactly when at most one byte was
      left, because the zeros behind the padding header are parsed as further subPDUs. */
  lemma UnpackPacked(m: seq<byte>, items: seq<Subpdu>, r: nat, ul: bool)
    requires forall p :: p in items ==> Sendable(p, ul) && Writable(p)
    requires |Wire(items)| + r + 2 <= |m| && Holds(m, 0, Wire(items))
    requires r > 0 ==> Writable(SetPadding(r)) && Holds(m, |Wire(items)|, Written(SetPadding(r)))
    ensures var n := |Wire(items)|;
            var known := Located(items, 0) + (if r > 0 then [Subpdu(PADDING, 1, 0, false, Received(n + 1))] else []);
            known <= Parse(m, n + r, 0, ul) && (known == Parse(m, n + r, 0, ul) <==> r <= 1)
  {
    hide Sendable, Writable, Holds, Wire, Located, Parse, Written, ReadSubheader, IsValidLcid, SetPadding;
    var n := |Wire(items)|;
    ParseWritten(m, n + r, 0, items, ul);
    if r == 0 {
      ParseEnd(m, n, n, ul);
    } else {
      ReadPadding(m, n, r, ul);
      ParseStep(m, n + r, n, ul);
      if r == 1 {
        ParseEnd(m, n + 1, n + 1, ul);
      } else {
        ParseStep(m, n + r, n + 1, ul);
        assert |Parse(m, n + r, n + 1, ul)| >= 1;
      }
    }
  }

  lemma ParseEnd(m: seq<byte>, len: nat, at: nat, ul: bool)
    requires len + 2 <= |m| && at >= len
    ensures Parse(m, len, at, ul) == []
  {
  }

  /** Padding is read as a subPDU of one byte, and a zero behind it as the start of another. */
  lemma ReadPadding(m: seq<byte>, n: nat, r: nat, ul: bool)
    requires r >= 1 && n + r + 2 <= |m| && Writable(SetPadding(r)) && Holds(m, n, Written(SetPadding(r)))
    ensures IsValidLcid(m[n] % 64, ul) && ReadSubheader(m, n, ul) == Subpdu(PADDING, 1, 0, false, Received(n + 1))
    ensures r > 1 ==> IsValidLcid(m[n + 1] % 64, ul)
  {
    hide *;
    PaddingBytes(r);
    HoldsBytes(m, n, Written(SetPadding(r)));
    var w := Written(SetPadding(r));
    assert m[n + 0] == w[0] == 63;
    ReadPaddingHeader(m, n, ul);
    if r > 1 {
      assert m[n + 1] == w[1] == 0;
      ZeroIsValid(ul);
    }
  }

  lemma ReadPaddingHeader(m: seq<byte>, n: nat, ul: bool)
    requires n + 2 < |m| && m[n] == 63
    ensures IsValidLcid(m[n] % 64, ul) && ReadSubheader(m, n, ul) == Subpdu(PADDING, 1, 0, false, Received(n + 1))
  {
  }

  lemma ZeroIsValid(ul: bool)
    ensures IsValidLcid(0 % 64, ul)
  {
  }

  /** The payload of every SDU is where the receiver's subPDU points. */
  lemma {:induction false} PayloadsInPlace(m: seq<byte>, at: nat, items: seq<Subpdu>, i: nat)
    requires (forall p :: p in items ==> Writable(p) && p.sdu.Payload?) && Holds(m, at, Wire(items)) && i < |items|
    ensures Located(items, at)[i].sdu.Received?
    ensures Located(items, at)[i].lcid == items[i].lcid && Located(items, at)[i].sduLength == items[i].sduLength
    ensures Holds(m, Located(items, at)[i].sdu.at, items[i].sdu.bytes)
    decreases |items|
  {
    hide Writable, Holds, Wire, LengthField;
    var p, rest := items[0], items[1..];
    assert forall q :: q in rest ==> q in items;
    WireStep(items);
    HoldsSplit(m, at, Written(p), Wire(rest));
    if i == 0 {
      WrittenParts(p);
      HoldsSplit(m, at, [FirstByte(p.fBit, p.lcid)] + LengthField(p), p.sdu.bytes);
    } else {
      assert items[i] == rest[i - 1];
      PayloadsInPlace(m, at + TotalLength(p), rest, i - 1);
    }
  }

  lemma WrittenParts(p: Subpdu)
    requires Writable(p) && p.sdu.Payload?
    ensures Written(p) == [FirstByte(p.fBit, p.lcid)] + LengthField(p) + p.sdu.bytes
    ensures |[FirstByte(p.fBit, p.lcid)] + LengthField(p)| == p.headerLength
  {
  }

  // --- the PDU ---

  class ByteBuffer {
    var msg: array<byte>
    var nBytes: nat

    constructor (capacity: nat)
      ensures fresh(msg) && msg.Length == capacity && nBytes == 0
    {
      msg := new byte[capacity](i => 0);
      nBytes := 0;
    }
  }

  /** The space add_sdu demands: the header for the announced length and that length. */
  function SizeHeaderSdu(lcid: nat, nbytes: nat, ul: bool): nat {
    if IsUlCcch(lcid, ul) then 1 else if nbytes < 256 then 2 else 3
  }

  /** The space write_subpdu takes. */
  function SizeWritten(lcid: nat, len: nat, ul: bool): nat {
    SizeHeaderSdu(lcid, EffectiveLength(lcid, len, ul), ul) + EffectiveLength(lcid, len, ul)
  }

  /** The space checked is the space taken exactly unless a CCCH message has the wrong size. */
  lemma SizesAgree(lcid: nat, len: nat, ul: bool)
    ensures SizeHeaderSdu(lcid, len, ul) + len == SizeWritten(lcid, len, ul) <==> !(IsUlCcch(lcid, ul) && len != SizeofCe(lcid, ul))
  {
  }

  /** Bytes written plus space left stay constant exactly when the space taken was there. */
  lemma AccountKept(written: nat, remaining: uint32, taken: nat)
    requires taken < TWO_TO_THE_32
    ensures (written + taken) + (remaining - taken) % TWO_TO_THE_32 == written + remaining <==> taken <= remaining
  {
  }

  /** A one-byte CCCH message passes the check in three bytes of space and takes seven. */
  lemma WrongSizeOverruns()
    ensures SizeHeaderSdu(CCCH_SIZE_48, 1, true) + 1 <= 3 < SizeWritten(CCCH_SIZE_48, 1, true)
  {
  }

  lemma SetSduWritable(lcid: nat, ul: bool, bytes: seq<byte>)
    ensures Writable(SetSdu(lcid, ul, bytes))
    ensures IsUlCcch(lcid, ul) ==> |bytes| == SizeofCe(lcid, ul) ==> TotalLength(SetSdu(lcid, ul, bytes)) == SizeWritten(lcid, |bytes|, ul)
    ensures !IsUlCcch(lcid, ul) ==> TotalLength(SetSdu(lcid, ul, bytes)) == SizeWritten(lcid, |bytes|, ul)
  {
  }

  class MacNrSchPdu {
    var ulsch: bool
    var subpdus: seq<Subpdu>
    var buffer: ByteBuffer?
    var pduLen: uint32
    var remainingLen: uint32

    constructor (ulsch_: bool)
      ensures ulsch == ulsch_ && subpdus == [] && buffer == null && pduLen == 0 && remainingLen == 0
    {
      ulsch := ulsch_;
      subpdus := [];
      buffer := null;
      pduLen := 0;
      remainingLen := 0;
    }

    method InitTx(b: ByteBuffer, len: uint32, ulsch_: bool)
      modifies this
      ensures buffer == b && pduLen == len && remainingLen == len && ulsch == ulsch_ && subpdus == old(subpdus)
      ensures b.nBytes == 0 && len <= b.msg.Length ==> Sending(this, subpdus)
    {
      buffer := b;
      pduLen := len;
      remainingLen := len;
      ulsch := ulsch_;
    }

    /** Writes the bytes of a subPDU and returns their number. */
    method WriteSubpdu(p: Subpdu, msg: array<byte>, at: nat) returns (n: nat)
      requires Writable(p) && at + TotalLength(p) <= msg.Length
      modifies msg
      ensures n == TotalLength(p) && msg[at..at + n] == Written(p)
      ensures forall i :: 0 <= i < msg.Length && !(at <= i < at + n) ==> msg[i] == old(msg[i])
    {
      hide FirstByte, LengthField;
      var ptr := WriteHeader(p, msg, at);
      ghost var head := msg[at..ptr];
      var body := if p.sdu.Payload? then p.sdu.bytes else ZeroBytes(p.sduLength);
      CopyBytes(msg, ptr, body);
      assert msg[at..ptr] == head;
      SplitSlice(msg[..], at, ptr, ptr + |body|);
      n := ptr + |body| - at;
    }

    /** Writes the subheader and returns the place behind it. */
    method WriteHeader(p: Subpdu, msg: array<byte>, at: nat) returns (ptr: nat)
      requires Writable(p) && at + p.headerLength <= msg.Length
      modifies msg
      ensures ptr == at + p.headerLength && msg[at..ptr] == [FirstByte(p.fBit, p.lcid)] + LengthField(p)
      ensures forall i :: 0 <= i < msg.Length && !(at <= i < ptr) ==> msg[i] == old(msg[i])
    {
      hide FirstByte;
      ptr := at;
      msg[ptr] := FirstByte(p.fBit, p.lcid);
      ptr := ptr + 1;
      if p.headerLength == 3 {
        msg[ptr] := p.sduLength / 256 % 256;
        ptr := ptr + 1;
        msg[ptr] := p.sduLength % 256;
        ptr := ptr + 1;
      } else if p.headerLength == 2 {
        msg[ptr] := p.sduLength % 256;
        ptr := ptr + 1;
      }
    }

    /** Appends an SDU if it fits. The payload is readable as far as the length taken, and the
        buffer writable, which only matters for a CCCH message of the wrong size. */
    method AddSdu(lcid: nat, payload: array<byte>, len: uint32) returns (ret: uint32)
      requires buffer != null && payload != buffer.msg && len <= payload.Length
      requires len <= 0xFFFF_FFFC && EffectiveLength(lcid, len, ulsch) <= payload.Length
      requires SizeHeaderSdu(lcid, len, ulsch) + len <= remainingLen ==>
                 buffer.nBytes + SizeWritten(lcid, len, ulsch) <= buffer.msg.Length
      modifies this, buffer, buffer.msg
      ensures buffer == old(buffer) && buffer.msg == old(buffer.msg) && ulsch == old(ulsch) && pduLen == old(pduLen)
      ensures ret == 0 <==> SizeHeaderSdu(lcid, len, ulsch) + len <= old(remainingLen)
      ensures ret != 0 ==> ret == ERROR && remainingLen == old(remainingLen) && subpdus == old(subpdus)
                           && buffer.nBytes == old(buffer.nBytes) && buffer.msg[..] == old(buffer.msg[..])
      ensures ret == 0 ==>
                var n := EffectiveLength(lcid, len, ulsch);
                var p := SetSdu(lcid, ulsch, old(payload[..n]));
                var taken := SizeWritten(lcid, len, ulsch);
                Writable(p) && subpdus == old(subpdus) + [p]
                && buffer.nBytes == old(buffer.nBytes) + taken
                && remainingLen == (old(remainingLen) - taken) % TWO_TO_THE_32
                && Holds(buffer.msg[..], old(buffer.nBytes), Written(p))
                && forall i :: 0 <= i < buffer.msg.Length && !(old(buffer.nBytes) <= i < buffer.nBytes) ==> buffer.msg[i] == old(buffer.msg[i])
    {
      var headerSize := SizeHeaderSdu(lcid, len, ulsch);
      if headerSize + len > remainingLen {
        return ERROR;
      }
      var n := EffectiveLength(lcid, len, ulsch);
      var p := SetSdu(lcid, ulsch, payload[..n]);
      SetSduWritable(lcid, ulsch, payload[..n]);
      var length := WriteSubpdu(p, buffer.msg, buffer.nBytes);
      assert length == SizeWritten(lcid, len, ulsch);
      buffer.nBytes := buffer.nBytes + length;
      remainingLen := (remainingLen - length) % TWO_TO_THE_32;
      subpdus := subpdus + [p];
      return 0;
    }

    /** Fills the space left with one padding subPDU. */
    method Pack()
      requires buffer != null && buffer.nBytes + remainingLen <= buffer.msg.Length
      modifies this, buffer, buffer.msg
      ensures buffer == old(buffer) && buffer.msg == old(buffer.msg) && ulsch == old(ulsch) && pduLen == old(pduLen)
      ensures remainingLen == 0 && buffer.nBytes == old(buffer.nBytes) + old(remainingLen)
      ensures old(remainingLen) == 0 ==> subpdus == old(subpdus) && buffer.msg[..] == old(buffer.msg[..])
      ensures old(remainingLen) > 0 ==>
                var p := SetPadding(old(remainingLen));
                Writable(p) && subpdus == old(subpdus) + [p] && Holds(buffer.msg[..], old(buffer.nBytes), Written(p))
      ensures forall i :: 0 <= i < old(buffer.nBytes) ==> buffer.msg[i] == old(buffer.msg[i])
    {
      if remainingLen > 0 {
        PaddingBytes(remainingLen);
        var p := SetPadding(remainingLen);
        var n := WriteSubpdu(p, buffer.msg, buffer.nBytes);
        buffer.nBytes := buffer.nBytes + TotalLength(p);
        remainingLen := remainingLen - TotalLength(p);
        subpdus := subpdus + [p];
      }
    }

    /** Appends the subPDUs of a received PDU. The two bytes after it are readable. */
    method Unpack(payload: array<byte>, len: nat)
      requires len + 2 <= payload.Length && len < 0x8000_0000
      modifies this
      ensures subpdus == old(subpdus) + Parse(payload[..], len, 0, ulsch)
      ensures ulsch == old(ulsch) && buffer == old(buffer) && pduLen == old(pduLen) && remainingLen == old(remainingLen)
    {
      hide Parse, ReadSubheader, IsValidLcid;
      ghost var before := subpdus;
      var offset := 0;
      while offset < len
        invariant subpdus + Parse(payload[..], len, offset, ulsch) == before + Parse(payload[..], len, 0, ulsch)
        invariant ulsch == old(ulsch) && buffer == old(buffer) && pduLen == old(pduLen) && remainingLen == old(remainingLen)
        decreases len - offset
      {
        if !IsValidLcid(payload[offset] % 64, ulsch) {
          ParseInvalid(payload[..], len, offset, ulsch);
          return;
        }
        ParseStep(payload[..], len, offset, ulsch);
        var p := ReadSubheader(payload[..], offset, ulsch);
        ReadProgress(payload[..], offset, ulsch);
        ghost var rest := Parse(payload[..], len, offset + TotalLength(p), ulsch);
        assert subpdus + ([p] + rest) == (subpdus + [p]) + rest;
        offset := offset + TotalLength(p);
        subpdus := subpdus + [p];
      }
      ParseEnd(payload[..], len, offset, ulsch);
    }
  }

  lemma ParseInvalid(m: seq<byte>, len: nat, at: nat, ul: bool)
    requires len + 2 <= |m| && at < len && !IsValidLcid(m[at] % 64, ul)
    ensures Parse(m, len, at, ul) == []
  {
    hide IsValidLcid;
  }

  /** Every subPDU takes at least one byte, so the walk ends on any input. */
  lemma ReadProgress(m: seq<byte>, at: nat, ul: bool)
    requires at + 2 < |m|
    ensures TotalLength(ReadSubheader(m, at, ul)) >= 1
  {
  }

  // --- a whole transmission ---

  /** A sender between init_tx on an empty buffer and pack: what was added lies at the start of
      the buffer, and bytes written plus space left are the PDU length. */
  ghost predicate Sending(pdu: MacNrSchPdu, before: seq<Subpdu>)
    reads pdu, pdu.buffer, if pdu.buffer == null then {} else {pdu.buffer.msg}
  {
    && pdu.buffer != null
    && before <= pdu.subpdus
    && (forall p :: p in pdu.subpdus[|before|..] ==> Sendable(p, pdu.ulsch) && Writable(p))
    && Holds(pdu.buffer.msg[..], 0, Wire(pdu.subpdus[|before|..]))
    && pdu.buffer.nBytes == |Wire(pdu.subpdus[|before|..])|
    && pdu.buffer.nBytes + pdu.remainingLen == pdu.pduLen <= pdu.buffer.msg.Length
  }

  /** Whether an SDU is one that every receiver can read back. */
  predicate Regular(lcid: nat, len: nat, ul: bool) {
    if IsUlCcch(lcid, ul) then len == SizeofCe(lcid, ul) else lcid <= 32 && len < 65536
  }

  /** Adding an SDU keeps the account and the contents, whether it fits or not. */
  method AddRegular(pdu: MacNrSchPdu, lcid: nat, payload: array<byte>, len: uint32, ghost before: seq<Subpdu>) returns (ret: uint32)
    requires Sending(pdu, before) && payload != pdu.buffer.msg && len <= payload.Length && Regular(lcid, len, pdu.ulsch)
    modifies pdu, pdu.buffer, pdu.buffer.msg
    ensures pdu.buffer == old(pdu.buffer) && pdu.buffer.msg == old(pdu.buffer.msg) && pdu.ulsch == old(pdu.ulsch) && pdu.pduLen == old(pdu.pduLen)
    ensures Sending(pdu, before)
    ensures ret == 0 ==> pdu.subpdus == old(pdu.subpdus) + [SetSdu(lcid, pdu.ulsch, old(payload[..len]))]
    ensures ret != 0 ==> pdu.subpdus == old(pdu.subpdus)
  {
    hide Sendable, Writable, Holds, Wire, SetSdu, IsUlCcch, SizeHeaderSdu;
    RegularSizes(lcid, len, pdu.ulsch);
    ghost var items := pdu.subpdus[|before|..];
    ghost var bytes := payload[..len];
    ghost var m := pdu.buffer.msg[..];
    ret := pdu.AddSdu(lcid, payload, len);
    if ret == 0 {
      ghost var p := SetSdu(lcid, pdu.ulsch, bytes);
      RegularSendable(lcid, bytes, pdu.ulsch);
      SizeOfRegular(lcid, bytes, pdu.ulsch);
      ghost var w := pdu.buffer.msg[..];
      HoldsSame(m, w, 0, Wire(items));
      WireOfOne(p);
      WireConcat(items, [p]);
      HoldsSplit(w, 0, Wire(items), Written(p));
      assert pdu.subpdus[|before|..] == items + [p];
    }
  }

  lemma RegularSizes(lcid: nat, len: nat, ul: bool)
    requires Regular(lcid, len, ul)
    ensures EffectiveLength(lcid, len, ul) == len && len < 65536
    ensures SizeHeaderSdu(lcid, len, ul) + len == SizeWritten(lcid, len, ul)
  {
    SizesAgree(lcid, len, ul);
  }

  lemma RegularSendable(lcid: nat, bytes: seq<byte>, ul: bool)
    requires Regular(lcid, |bytes|, ul)
    ensures Sendable(SetSdu(lcid, ul, bytes), ul) && Writable(SetSdu(lcid, ul, bytes))
  {
  }

  lemma SizeOfRegular(lcid: nat, bytes: seq<byte>, ul: bool)
    requires Regular(lcid, |bytes|, ul)
    ensures TotalLength(SetSdu(lcid, ul, bytes)) == SizeWritten(lcid, |bytes|, ul)
  {
    SetSduWritable(lcid, ul, bytes);
  }

  /** Packing yields exactly the PDU length, and unpacking its bytes with anything behind them
      gives the SDUs in order, then padding if there was space left; nothing else exactly when
      at most one byte was left. */
  method PackAndUnpack(pdu: MacNrSchPdu, ghost before: seq<Subpdu>, ghost tail: seq<byte>)
    requires Sending(pdu, before) && |tail| >= 2
    modifies pdu, pdu.buffer, pdu.buffer.msg
    ensures pdu.buffer != null && pdu.buffer.nBytes == pdu.pduLen == old(pdu.pduLen) && pdu.remainingLen == 0
    ensures pdu.pduLen <= pdu.buffer.msg.Length
    ensures var items := old(pdu.subpdus)[|before|..];
            var r := old(pdu.remainingLen);
            var n := pdu.pduLen - r;
            var known := Located(items, 0) + (if r > 0 then [Subpdu(PADDING, 1, 0, false, Received(n + 1))] else []);
            var parsed := Parse(pdu.buffer.msg[..pdu.pduLen] + tail, pdu.pduLen, 0, old(pdu.ulsch));
            known <= parsed && (known == parsed <==> r <= 1)
  {
    hide Sendable, Writable, Holds, Wire, Parse, Located, Written, SetPadding;
    ghost var items := pdu.subpdus[|before|..];
    ghost var r := pdu.remainingLen;
    ghost var m := pdu.buffer.msg[..];
    pdu.Pack();
    ghost var w := pdu.buffer.msg[..];
    HoldsSame(m, w, 0, Wire(items));
    ghost var sent := w[..pdu.pduLen] + tail;
    HoldsCut(w, pdu.pduLen, tail, 0, Wire(items));
    if r > 0 {
      PaddingBytes(r);
      HoldsCut(w, pdu.pduLen, tail, |Wire(items)|, Written(SetPadding(r)));
    }
    UnpackPacked(sent, items, r, pdu.ulsch);
  }
}
