/** The LTE MAC PDU object: its space accounting, its writer and its reader. */
module SchPdu {
  import opened Bits
  import opened ByteSpans
  import opened SchWire
  import Bsr

  const CRNTI := 27
  const CON_RES_ID := 28
  const TRUNC_BSR := 28
  const TA_CMD := 29
  const SHORT_BSR := 29

  /** A message buffer: the message starts at msg and has nBytes bytes. */
  class ByteBuffer {
    const data: array<byte>
    var msg: nat
    var nBytes: nat

    constructor (size: nat, offset: nat)
      requires offset <= size
      ensures fresh(data) && data.Length == size && msg == offset && nBytes == 0
    {
      data := new byte[size](i => 0);
      msg := offset;
      nBytes := 0;
    }

    function Headroom(): nat
      reads this
    {
      msg
    }

    function Tailroom(): nat
      requires msg + nBytes <= data.Length
      reads this
    {
      data.Length - msg - nBytes
    }

    lemma Rooms()
      requires msg + nBytes <= data.Length
      ensures Headroom() == msg && msg + nBytes + Tailroom() == data.Length
    {
    }
  }

  /** One entry of the subheader table: the place of a received payload or the bytes of a
      control element. */
  datatype Subh = Subh(lcid: nat, nofBytes: nat, payload: int, ce: seq<byte>)

  /** Whether an entry describes an item that is to be sent. */
  predicate Matches(s: Subh, it: Item, ul: bool) {
    && s.lcid == it.lcid && s.nofBytes == Size(it)
    && (it.Sdu? <==> s.lcid < PHR_REPORT)
    && (it.Ce? ==> Size(it) == SizeofCe(it.lcid, ul) && Size(it) <= |s.ce| && s.ce[..Size(it)] == it.payload)
  }

  /** The index of the last SDU, or -1. */
  function LastSdu(items: seq<Item>): (i: int)
    ensures -1 <= i < |items| && (i >= 0 ==> items[i].Sdu?)
  {
    if items == [] then -1
    else if items[|items| - 1].Sdu? then |items| - 1
    else LastSdu(items[..|items| - 1])
  }

  lemma {:induction false} LastSduIs(items: seq<Item>)
    ensures LastSdu(items) < 0 <==> Sdus(items) == []
    ensures LastSdu(items) >= 0 ==> Sdus(items)[|Sdus(items)| - 1] == items[LastSdu(items)]
    ensures Saved(Sdus(items)) == if LastSdu(items) < 0 then 0 else SizeHeaderSdu(Size(items[LastSdu(items)])) - 1
  {
    hide SizeHeaderSdu;
    if items != [] {
      LastSduIs(items[..|items| - 1]);
    }
  }

  lemma SdusSnoc(items: seq<Item>, it: Item)
    ensures Sdus(items + [it]) == Sdus(items) + (if it.Sdu? then [it] else [])
    ensures Ces(items + [it]) == Ces(items) + (if it.Ce? then [it] else [])
    ensures LastSdu(items + [it]) == if it.Sdu? then |items| else LastSdu(items)
  {
    assert (items + [it])[..|items|] == items;
  }

  lemma SizeIs(it: Item)
    ensures Size(it) == |it.payload|
  {
  }

  /** Adding a control element costs one byte and its size. */
  lemma ChargeOfCe(items: seq<Item>, it: Item)
    requires it.Ce?
    ensures Charge(items + [it]) == Charge(items) + 1 + Size(it)
  {
    SdusSnoc(items, it);
    FullConcat(items, [it]);
    FullOfOne(it);
    assert Sdus(items) + [] == Sdus(items);
  }

  /** Adding an SDU costs one byte and its size, and what the SDU before it had saved. */
  lemma ChargeOfSdu(items: seq<Item>, it: Item)
    requires it.Sdu?
    ensures Charge(items + [it]) == Charge(items) + Saved(Sdus(items)) + 1 + Size(it)
  {
    SdusSnoc(items, it);
    FullConcat(items, [it]);
    FullOfOne(it);
    SavedBound(Sdus(items));
    FullSplits(items);
    assert (Sdus(items) + [it])[|Sdus(items) + [it]| - 1] == it;
  }

  /** The answer of the RLC layer to a read request. */
  datatype ReadResult = Failed | Read(bytes: seq<byte>)

  const ERROR := -1

  class SchPdu {
    const maxSubheaders: nat
    var subheaders: seq<Subh>
    var pduLen: nat
    var remLen: nat
    var curIdx: int
    var nofSubheaders: int
    var pduIsUl: bool
    var bufferTx: ByteBuffer?
    var lastSduIdx: int
    /** What has been added so far. */
    ghost var items: seq<Item>

    /** The invariant of a PDU that is being built: the table describes the items, the charge
        and the space left make up the PDU length, and the buffer holds the SDUs. */
    ghost predicate Valid()
      reads this, bufferTx, if bufferTx == null then {} else {bufferTx.data}
    {
      && bufferTx != null
      && Structure()
      && Charge(items) + remLen == pduLen
      && bufferTx.msg + bufferTx.nBytes <= bufferTx.data.Length
      && bufferTx.data[bufferTx.msg..bufferTx.msg + bufferTx.nBytes] == Payloads(Sdus(items))
    }

    ghost predicate Structure()
      reads this
    {
      && |subheaders| == maxSubheaders
      && |items| <= nofSubheaders <= |items| + 1 && nofSubheaders <= maxSubheaders
      && curIdx == nofSubheaders - 1
      && lastSduIdx == LastSdu(items)
      && (forall i :: 0 <= i < |items| ==> Matches(subheaders[i], items[i], pduIsUl))
    }

    /** Whether the newest table entry has not been set yet. */
    ghost predicate Blank()
      reads this
    {
      nofSubheaders == |items| + 1
    }

    constructor (max: nat)
      ensures maxSubheaders == max && |subheaders| == max && bufferTx == null && nofSubheaders == 0 && pduLen == 0
    {
      maxSubheaders := max;
      subheaders := seq(max, i => Subh(0, 0, -1, []));
      pduLen := 0;
      remLen := 0;
      curIdx := -1;
      nofSubheaders := 0;
      pduIsUl := false;
      bufferTx := null;
      lastSduIdx := -1;
      items := [];
    }

    method Init(buffer: ByteBuffer?, pduLenBytes: nat, isUlsch: bool)
      requires |subheaders| == maxSubheaders
      modifies this
      ensures pduLen == pduLenBytes && remLen == pduLenBytes && pduIsUl == isUlsch && bufferTx == buffer
      ensures nofSubheaders == 0 && curIdx == -1 && lastSduIdx == -1 && |subheaders| == maxSubheaders && items == []
    {
      nofSubheaders := 0;
      pduLen := pduLenBytes;
      remLen := pduLen;
      pduIsUl := isUlsch;
      bufferTx := buffer;
      lastSduIdx := -1;
      curIdx := -1;
      subheaders := seq(maxSubheaders, i => Subh(0, 0, -1, []));
      items := [];
    }

    /** init_tx on an empty buffer starts a valid PDU. */
    method InitTx(buffer: ByteBuffer, pduLenBytes: nat, isUlsch: bool)
      requires |subheaders| == maxSubheaders && buffer.nBytes == 0 && buffer.msg <= buffer.data.Length
      modifies this
      ensures Valid() && !Blank() && items == [] && pduLen == pduLenBytes && pduIsUl == isUlsch && bufferTx == buffer
    {
      Init(buffer, pduLenBytes, isUlsch);
      ChargeOfNothing();
    }

    lemma ChargeOfNothing()
      ensures Charge([]) == 0 && Payloads(Sdus([])) == []
    {
    }

    method NewSubh() returns (ok: bool)
      requires Valid() && !Blank()
      modifies this`nofSubheaders, this`curIdx
      ensures Valid() && (ok <==> Blank())
      ensures ok <==> old(nofSubheaders) < maxSubheaders - 1 && remLen > 0 && bufferTx.Headroom() > 1
    {
      if nofSubheaders < maxSubheaders - 1 && remLen > 0 && bufferTx.Headroom() > 1 {
        nofSubheaders := nofSubheaders + 1;
        ok := Next();
      } else {
        ok := false;
      }
    }

    method Next() returns (ok: bool)
      modifies this`curIdx
      ensures ok <==> old(curIdx) < nofSubheaders - 1
      ensures curIdx == if ok then old(curIdx) + 1 else old(curIdx)
    {
      if curIdx < nofSubheaders - 1 {
        curIdx := curIdx + 1;
        return true;
      } else {
        return false;
      }
    }

    /** Takes back an entry that was not set. */
    method DelSubh()
      requires Valid() && Blank()
      modifies this`nofSubheaders, this`curIdx
      ensures Valid() && !Blank()
    {
      if nofSubheaders > 0 {
        nofSubheaders := nofSubheaders - 1;
      }
      if curIdx >= 0 {
        curIdx := curIdx - 1;
      }
    }

    function HasSpaceCe(nbytes: nat): bool
      reads this
    {
      remLen >= nbytes + 1
    }

    method UpdateSpaceCe(nbytes: nat) returns (ok: bool)
      modifies this`remLen
      ensures ok <==> old(remLen) >= nbytes + 1
      ensures remLen == if ok then old(remLen) - (nbytes + 1) else old(remLen)
    {
      if HasSpaceCe(nbytes) {
        remLen := remLen - (nbytes + 1);
        return true;
      } else {
        return false;
      }
    }

    /** What all setters of control elements do: fails without space, otherwise fills the
        newest entry. */
    method SetCe(lcid: nat, bytes: seq<byte>) returns (ok: bool)
      requires Valid() && Blank()
      requires PHR_REPORT <= lcid < 32 && |bytes| == SizeofCe(lcid, pduIsUl)
      modifies this
      ensures Valid() && pduLen == old(pduLen) && pduIsUl == old(pduIsUl) && bufferTx == old(bufferTx)
      ensures nofSubheaders == old(nofSubheaders)
      ensures ok <==> old(remLen) >= |bytes| + 1
      ensures items == if ok then old(items) + [Ce(lcid, bytes)] else old(items)
    {
      hide *;
      ValidParts();
      SpaceForCe(|bytes|);
      if HasSpaceCe(|bytes|) {
        ghost var before := items;
        ghost var it := Ce(lcid, bytes);
        subheaders := subheaders[curIdx := subheaders[curIdx].(lcid := lcid, nofBytes := |bytes|, ce := bytes)];
        var charged := UpdateSpaceCe(|bytes|);
        items := items + [it];
        MatchesCe(subheaders[curIdx], it, pduIsUl);
        SnocMatches(before, it);
        ChargeOfCe(before, it);
        SdusSnoc(before, it);
        SizeIs(it);
        assert Sdus(before) + [] == Sdus(before);
        MakeValid();
        return true;
      } else {
        return false;
      }
    }

    lemma SpaceForCe(nbytes: nat)
      ensures HasSpaceCe(nbytes) == (remLen >= nbytes + 1)
    {
    }

    lemma MatchesCe(s: Subh, it: Item, ul: bool)
      requires it.Ce? && s.lcid == it.lcid >= PHR_REPORT && s.nofBytes == |it.payload| == SizeofCe(it.lcid, ul) && s.ce == it.payload
      ensures Matches(s, it, ul)
    {
      hide SizeofCe;
    }

    method SetCRnti(crnti: nat) returns (ok: bool)
      requires Valid() && Blank() && pduIsUl && crnti < 0x1_0000
      modifies this
      ensures Valid() && nofSubheaders == old(nofSubheaders) && (ok <==> old(remLen) >= 3)
      ensures items == if ok then old(items) + [Ce(CRNTI, [crnti / 256, crnti % 256])] else old(items)
    {
      ok := SetCe(CRNTI, [crnti / 256, crnti % 256]);
    }

    method SetConResId(id: nat) returns (ok: bool)
      requires Valid() && Blank() && !pduIsUl
      modifies this
      ensures Valid() && nofSubheaders == old(nofSubheaders) && (ok <==> old(remLen) >= 7)
      ensures items == if ok then old(items) + [Ce(CON_RES_ID, ConResBytes(id))] else old(items)
    {
      ok := SetCe(CON_RES_ID, ConResBytes(id));
    }

    method SetTaCmd(taCmd: byte) returns (ok: bool)
      requires Valid() && Blank() && !pduIsUl
      modifies this
      ensures Valid() && nofSubheaders == old(nofSubheaders) && (ok <==> old(remLen) >= 2)
      ensures items == if ok then old(items) + [Ce(TA_CMD, [taCmd % 64])] else old(items)
    {
      ok := SetCe(TA_CMD, [taCmd % 64]);
    }

    /** set_bsr in a format of one byte. */
    method SetBsr(sizes: seq<nat>, format: nat) returns (ok: bool)
      requires Valid() && Blank() && pduIsUl && |sizes| == 4 && (format == SHORT_BSR || format == TRUNC_BSR)
      modifies this
      ensures Valid() && nofSubheaders == old(nofSubheaders) && (ok <==> old(remLen) >= 2)
      ensures var g := Bsr.LastGroup(sizes);
              items == if ok then old(items) + [Ce(format, [g * 64 + Bsr.Index(sizes[g])])] else old(items)
    {
      hide *;
      OneByte(format);
      var b := Bsr.ShortBsr(sizes);
      ok := SetCe(format, [b]);
    }

    /** The bytes an SDU may have: what is left after its own subheader byte and the length
        field that the SDU before it now needs, but no more than the buffer has room for. */
    function SduSpace(): (n: nat)
      requires bufferTx != null && bufferTx.msg + bufferTx.nBytes <= bufferTx.data.Length
      requires lastSduIdx < |subheaders|
      reads this, bufferTx
    {
      var saved := if lastSduIdx < 0 then 0 else SizeHeaderSdu(subheaders[lastSduIdx].nofBytes) - 1;
      var ret := remLen - saved - 1;
      var n := if ret >= 0 then ret else 0;
      if n <= bufferTx.Tailroom() then n else bufferTx.Tailroom()
    }

    /** set_sdu through the read interface: the interface writes its answer behind the message
        and may give fewer bytes than requested, none, too many or an error. */
    method SetSdu(lcid: nat, requested: nat, answer: ReadResult) returns (ret: int)
      requires Valid() && Blank() && lcid < PHR_REPORT
      requires answer.Read? ==> |answer.bytes| <= bufferTx.Tailroom()
      modifies this, bufferTx, bufferTx.data
      ensures Valid() && pduLen == old(pduLen) && pduIsUl == old(pduIsUl) && bufferTx == old(bufferTx)
      ensures nofSubheaders == old(nofSubheaders) && bufferTx.msg == old(bufferTx.msg)
      ensures requested > old(SduSpace()) || answer.Failed? || |answer.bytes| > requested ==> ret == ERROR
      ensures requested <= old(SduSpace()) && answer.Read? && |answer.bytes| <= requested ==> ret == |answer.bytes|
      ensures items == if ret > 0 then old(items) + [Sdu(lcid, answer.bytes)] else old(items)
      ensures ret > 0 ==> answer.Read?
    {
      hide Charge, Payloads, Sdus, SizeofCe, LastSdu, SizeHeaderSdu, Matches;
      var space := SduSpace();
      if space < requested {
        return ERROR;
      }
      match answer
      case Failed =>
        StageSdu(lcid, []);
        return ERROR;
      case Read(bytes) =>
        StageSdu(lcid, bytes);
        if |bytes| == 0 {
          return 0;
        }
        if |bytes| > requested {
          StageSize(|bytes|);
          return ERROR;
        }
        CommitSdu(lcid, bytes);
        return |bytes|;
    }

    /** The interface has written behind the message and the entry points there. */
    method StageSdu(lcid: nat, bytes: seq<byte>)
      requires Valid() && Blank() && |bytes| <= bufferTx.Tailroom()
      modifies this`subheaders, bufferTx.data
      ensures Valid() && Blank() && SduSpace() == old(SduSpace())
      ensures subheaders[curIdx].lcid == lcid
      ensures bufferTx.data[bufferTx.msg + bufferTx.nBytes..bufferTx.msg + bufferTx.nBytes + |bytes|] == bytes
    {
      hide Charge, Payloads, Sdus, SizeofCe, LastSdu, SizeHeaderSdu, Matches;
      subheaders := subheaders[curIdx := subheaders[curIdx].(lcid := lcid, payload := bufferTx.msg + bufferTx.nBytes)];
      CopyBytes(bufferTx.data, bufferTx.msg + bufferTx.nBytes, bytes);
    }

    method StageSize(n: nat)
      requires Valid() && Blank()
      modifies this`subheaders
      ensures Valid() && Blank()
      ensures subheaders == old(subheaders[curIdx := subheaders[curIdx].(nofBytes := n)])
      ensures SduSpace() == old(SduSpace())
    {
      hide Charge, Payloads, Sdus, SizeofCe, LastSdu, SizeHeaderSdu, Matches;
      subheaders := subheaders[curIdx := subheaders[curIdx].(nofBytes := n)];
    }

    /** Charges an SDU: the one before it gets its length field, the new one counts short. */
    method UpdateSpaceSdu(nbytes: nat) returns (ok: bool)
      requires Valid() && Blank() && nbytes >= 1
      modifies this`remLen, this`lastSduIdx
      ensures ok <==> nbytes <= old(SduSpace())
      ensures ok ==> remLen == old(remLen) - Saved(Sdus(items)) - nbytes - 1 && lastSduIdx == curIdx
    {
      hide Charge, Payloads, Sdus, SizeofCe, SizeHeaderSdu;
      LastSduIs(items);
      if nbytes <= SduSpace() {
        var saved := if lastSduIdx < 0 then 0 else SizeHeaderSdu(subheaders[lastSduIdx].nofBytes) - 1;
        remLen := remLen - (nbytes + 1 + saved);
        lastSduIdx := curIdx;
        return true;
      } else {
        return false;
      }
    }

    /** Takes a staged SDU into the PDU. */
    method CommitSdu(lcid: nat, bytes: seq<byte>)
      requires Valid() && Blank() && 1 <= |bytes| <= SduSpace()
      requires lcid < PHR_REPORT && subheaders[curIdx].lcid == lcid
      requires bufferTx.data[bufferTx.msg + bufferTx.nBytes..bufferTx.msg + bufferTx.nBytes + |bytes|] == bytes
      modifies this, bufferTx
      ensures Valid() && pduLen == old(pduLen) && pduIsUl == old(pduIsUl) && bufferTx == old(bufferTx)
      ensures nofSubheaders == old(nofSubheaders) && bufferTx.msg == old(bufferTx.msg)
      ensures items == old(items) + [Sdu(lcid, bytes)]
    {
      hide *;
      ValidParts();
      StageSize(|bytes|);
      ValidParts();
      SduSpaceIs();
      var ok := UpdateSpaceSdu(|bytes|);
      TakeSdu(lcid, bytes);
    }

    /** The SDU charged before becomes the last of the message. */
    method TakeSdu(lcid: nat, bytes: seq<byte>)
      requires bufferTx != null && |subheaders| == maxSubheaders && |items| + 1 == nofSubheaders <= maxSubheaders
      requires curIdx == lastSduIdx == |items|
      requires forall i :: 0 <= i < |items| ==> Matches(subheaders[i], items[i], pduIsUl)
      requires Charge(items) + Saved(Sdus(items)) + 1 + |bytes| + remLen == pduLen
      requires bufferTx.msg + bufferTx.nBytes + |bytes| <= bufferTx.data.Length
      requires bufferTx.data[bufferTx.msg..bufferTx.msg + bufferTx.nBytes] == Payloads(Sdus(items))
      requires bufferTx.data[bufferTx.msg + bufferTx.nBytes..bufferTx.msg + bufferTx.nBytes + |bytes|] == bytes
      requires lcid < PHR_REPORT && subheaders[curIdx].lcid == lcid && subheaders[curIdx].nofBytes == |bytes|
      modifies this`items, bufferTx`nBytes
      ensures Valid() && items == old(items) + [Sdu(lcid, bytes)]
    {
      hide *;
      ghost var it := Sdu(lcid, bytes);
      ghost var before := items;
      AddSdu(bytes);
      items := items + [it];
      MatchesSdu(subheaders[curIdx], it, pduIsUl);
      SnocMatches(before, it);
      SnocSdu(before, it);
      MakeValid();
    }

    /** What one more SDU changes. */
    lemma SnocSdu(before: seq<Item>, it: Item)
      requires it.Sdu?
      ensures Charge(before + [it]) == Charge(before) + Saved(Sdus(before)) + 1 + |it.payload|
      ensures Payloads(Sdus(before + [it])) == Payloads(Sdus(before)) + it.payload
      ensures LastSdu(before + [it]) == |before|
    {
      hide *;
      SdusSnoc(before, it);
      ChargeOfSdu(before, it);
      SizeIs(it);
      FullConcat(Sdus(before), [it]);
      FullOfOne(it);
    }

    lemma MatchesSdu(s: Subh, it: Item, ul: bool)
      requires it.Sdu? && s.lcid == it.lcid < PHR_REPORT && s.nofBytes == |it.payload|
      ensures Matches(s, it, ul)
    {
    }

    lemma ValidParts()
      requires Valid()
      ensures bufferTx != null && |subheaders| == maxSubheaders && |items| <= nofSubheaders <= |items| + 1 && nofSubheaders <= maxSubheaders
      ensures curIdx == nofSubheaders - 1 && lastSduIdx == LastSdu(items)
      ensures forall i :: 0 <= i < |items| ==> Matches(subheaders[i], items[i], pduIsUl)
      ensures Charge(items) + remLen == pduLen && bufferTx.msg + bufferTx.nBytes <= bufferTx.data.Length
      ensures bufferTx.data[bufferTx.msg..bufferTx.msg + bufferTx.nBytes] == Payloads(Sdus(items))
      ensures Blank() == (nofSubheaders == |items| + 1)
    {
      hide Charge, Payloads, Sdus, LastSdu, Matches;
    }

    lemma MakeValid()
      requires bufferTx != null && |subheaders| == maxSubheaders && |items| <= nofSubheaders <= |items| + 1 && nofSubheaders <= maxSubheaders
      requires curIdx == nofSubheaders - 1 && lastSduIdx == LastSdu(items)
      requires forall i :: 0 <= i < |items| ==> Matches(subheaders[i], items[i], pduIsUl)
      requires Charge(items) + remLen == pduLen && bufferTx.msg + bufferTx.nBytes <= bufferTx.data.Length
      requires bufferTx.data[bufferTx.msg..bufferTx.msg + bufferTx.nBytes] == Payloads(Sdus(items))
      ensures Valid()
    {
      hide Charge, Payloads, Sdus, LastSdu, Matches;
    }

    lemma SnocMatches(before: seq<Item>, it: Item)
      requires items == before + [it] && curIdx == |before| && |subheaders| > curIdx
      requires forall i :: 0 <= i < |before| ==> Matches(subheaders[i], before[i], pduIsUl)
      requires Matches(subheaders[curIdx], it, pduIsUl)
      ensures forall i :: 0 <= i < |items| ==> Matches(subheaders[i], items[i], pduIsUl)
    {
      hide Matches;
    }

    lemma SduSpaceIs()
      requires Valid() && Blank()
      ensures bufferTx != null && bufferTx.msg + bufferTx.nBytes + SduSpace() <= bufferTx.data.Length
    {
    }

    /** The message grows by the bytes behind it. */
    method AddSdu(bytes: seq<byte>)
      requires bufferTx != null && bufferTx.msg + bufferTx.nBytes + |bytes| <= bufferTx.data.Length
      requires bufferTx.data[bufferTx.msg + bufferTx.nBytes..bufferTx.msg + bufferTx.nBytes + |bytes|] == bytes
      modifies bufferTx`nBytes
      ensures bufferTx.nBytes == old(bufferTx.nBytes) + |bytes|
      ensures bufferTx.data[bufferTx.msg..bufferTx.msg + bufferTx.nBytes]
              == old(bufferTx.data[bufferTx.msg..bufferTx.msg + bufferTx.nBytes]) + bytes
    {
      ghost var from, mid := bufferTx.msg, bufferTx.msg + bufferTx.nBytes;
      bufferTx.nBytes := bufferTx.nBytes + |bytes|;
      SplitSlice(bufferTx.data[..], from, mid, mid + |bytes|);
    }

    /** Writes headers and control elements in front of the SDUs and padding behind them. Fails
        without room in front, having changed nothing, or without room behind; otherwise the
        message is exactly the PDU. */
    method WritePacket() returns (ok: bool)
      requires Valid() && !Blank()
      modifies bufferTx, bufferTx.data
      ensures ok <==> old(bufferTx.msg) >= |WireHeaders(items, pduLen)| + |Payloads(Ces(items))|
                      && old(bufferTx.Tailroom()) >= PadSize(items, pduLen)
      ensures old(bufferTx.msg) < |WireHeaders(items, pduLen)| + |Payloads(Ces(items))| ==>
                bufferTx.msg == old(bufferTx.msg) && bufferTx.nBytes == old(bufferTx.nBytes) && bufferTx.data[..] == old(bufferTx.data[..])
      ensures ok ==> bufferTx.nBytes == pduLen && bufferTx.msg + pduLen <= bufferTx.data.Length
                     && bufferTx.msg == old(bufferTx.msg) - |WireHeaders(items, pduLen)| - |Payloads(Ces(items))|
                     && bufferTx.data[bufferTx.msg..bufferTx.msg + pduLen] == Wire(items, pduLen)
      ensures forall i :: 0 <= i < bufferTx.data.Length && !(bufferTx.msg <= i < bufferTx.msg + bufferTx.nBytes) ==> bufferTx.data[i] == old(bufferTx.data[i])
    {
      hide *;
      ValidParts();
      ChargeBound();
      LastSduIs(items);
      bufferTx.Rooms();
      var numPadding := remLen;
      var ceOnly := lastSduIdx < 0;
      var multibyte, oneTwo := false, 0;
      PaddingCases(items, pduLen);
      if numPadding > 2 {
        multibyte := true;
        numPadding := numPadding - 1;
        if !ceOnly {
          SduEntry(lastSduIdx);
          numPadding := numPadding - (EntryHeaderSize(subheaders[lastSduIdx], false) - 1);
        }
      } else if numPadding > 0 {
        oneTwo := numPadding;
        numPadding := 0;
      }
      assert oneTwo == OneTwo(items, pduLen) && numPadding == PadSize(items, pduLen);
      var total := HeaderTotal(multibyte, oneTwo);
      if bufferTx.Headroom() < total {
        return false;
      }
      ok := WriteBytes(total, multibyte, oneTwo, numPadding);
    }

    lemma ChargeBound()
      requires Valid()
      ensures Charge(items) <= pduLen && pduLen - Charge(items) == remLen
    {
      hide Charge, Payloads, Sdus, Structure;
    }

    lemma SduEntry(i: int)
      requires Valid() && 0 <= i < |items| && items[i].Sdu?
      ensures i < |subheaders| && Matches(subheaders[i], items[i], pduIsUl)
      ensures EntryHeaderSize(subheaders[i], false) == SizeHeaderSdu(Size(items[i]))
    {
      hide Charge, Payloads, Sdus, LastSdu;
    }

    /** The size of all headers and control elements, added up over the table. */
    method HeaderTotal(multibyte: bool, oneTwo: nat) returns (total: nat)
      requires Valid() && !Blank() && Charge(items) <= pduLen
      requires multibyte == (pduLen - Charge(items) > 2) && oneTwo == OneTwo(items, pduLen)
      ensures total == |WireHeaders(items, pduLen)| + |Payloads(Ces(items))|
    {
      hide *;
      ValidParts();
      LastSduIs(items);
      WireHeadersSize(items, pduLen);
      var headerSz, cePayloadSz := 0, 0;
      var i := 0;
      SumsStart(items);
      while i < nofSubheaders
        invariant 0 <= i <= |items| == nofSubheaders
        invariant headerSz + (if !multibyte && 0 <= lastSduIdx < i then Saved(Sdus(items)) else 0) == HeaderSum(items[..i])
        invariant cePayloadSz == |Payloads(Ces(items[..i]))|
      {
        SumsStep(items, i);
        EntryIs(subheaders[i], items[i], pduIsUl);
        headerSz := headerSz + EntryHeaderSize(subheaders[i], !multibyte && i == lastSduIdx);
        if subheaders[i].lcid >= PHR_REPORT {
          cePayloadSz := cePayloadSz + subheaders[i].nofBytes;
        }
        i := i + 1;
      }
      assert items[..i] == items;
      OneTwoIs(items, pduLen);
      if multibyte {
        headerSz := headerSz + 1;
      } else {
        headerSz := headerSz + oneTwo;
      }
      total := headerSz + cePayloadSz;
    }

    /** Everything behind the room check. */
    method WriteBytes(total: nat, multibyte: bool, oneTwo: nat, numPadding: nat) returns (ok: bool)
      requires Valid() && !Blank() && Charge(items) <= pduLen
      requires multibyte == (pduLen - Charge(items) > 2) && oneTwo == OneTwo(items, pduLen) && numPadding == PadSize(items, pduLen)
      requires total == |WireHeaders(items, pduLen)| + |Payloads(Ces(items))| <= bufferTx.msg
      modifies bufferTx, bufferTx.data
      ensures ok <==> old(bufferTx.Tailroom()) >= numPadding
      ensures ok ==> bufferTx.nBytes == pduLen && bufferTx.msg + pduLen <= bufferTx.data.Length
                     && bufferTx.msg == old(bufferTx.msg) - total
                     && bufferTx.data[bufferTx.msg..bufferTx.msg + pduLen] == Wire(items, pduLen)
      ensures forall i :: 0 <= i < bufferTx.data.Length && !(bufferTx.msg <= i < bufferTx.msg + bufferTx.nBytes) ==> bufferTx.data[i] == old(bufferTx.data[i])
    {
      hide *;
      ValidParts();
      ValidDescribes();
      bufferTx.Rooms();
      var data := bufferTx.data;
      ghost var sdus := Payloads(Sdus(items));
      ghost var was := data[..];
      ghost var end := bufferTx.msg + bufferTx.nBytes;
      HoldsSlice(was, bufferTx.msg, end, sdus);
      bufferTx.msg := bufferTx.msg - total;
      bufferTx.nBytes := bufferTx.nBytes + total;
      bufferTx.Rooms();
      var base := bufferTx.msg;
      var ptr := WriteHeaders(data, base, multibyte, oneTwo, numPadding);
      ptr := WriteCePayloads(data, base, ptr);
      HoldsSame(was, data[..], base + total, sdus);
      if bufferTx.Tailroom() < numPadding {
        return false;
      }
      WritePadding(data, base, base + bufferTx.nBytes, numPadding, WireHeaders(items, pduLen) + Payloads(Ces(items)), sdus);
      bufferTx.nBytes := bufferTx.nBytes + numPadding;
      ok := bufferTx.nBytes == pduLen;
    }

    /** Zeros behind the SDUs complete the PDU. */
    method WritePadding(data: array<byte>, ghost base: nat, at: nat, n: nat, ghost head: seq<byte>, ghost sdus: seq<byte>)
      requires Charge(items) <= pduLen && n == PadSize(items, pduLen) && at + n <= data.Length
      requires head == WireHeaders(items, pduLen) + Payloads(Ces(items)) && sdus == Payloads(Sdus(items))
      requires Holds(data[..], base, head) && Holds(data[..], base + |head|, sdus) && at == base + |head| + |sdus|
      modifies data
      ensures at + n == base + pduLen && data[base..base + pduLen] == Wire(items, pduLen)
      ensures forall j :: 0 <= j < data.Length && !(at <= j < at + n) ==> data[j] == old(data[j])
    {
      hide *;
      ghost var was := data[..];
      CopyBytes(data, at, ZeroBytes(n));
      ghost var now := data[..];
      HoldsSame(was, now, base, head);
      HoldsSame(was, now, base + |head|, sdus);
      HoldsSlice(now, at, at + n, ZeroBytes(n));
      PduBytes(now, base, items, pduLen, head, sdus);
    }

    /** Padding of one or two bytes, control elements, SDUs and padding of more bytes. */
    method WriteHeaders(data: array<byte>, base: nat, multibyte: bool, oneTwo: nat, numPadding: nat) returns (ptr: nat)
      requires Described() && Charge(items) <= pduLen
      requires multibyte == (pduLen - Charge(items) > 2) && oneTwo == OneTwo(items, pduLen) && numPadding == PadSize(items, pduLen)
      requires base + |WireHeaders(items, pduLen)| <= data.Length
      modifies data
      ensures ptr == base + |WireHeaders(items, pduLen)| && Holds(data[..], base, WireHeaders(items, pduLen))
      ensures forall j :: 0 <= j < data.Length && !(base <= j < ptr) ==> data[j] == old(data[j])
    {
      hide *;
      DescribedParts();
      LastSduIs(items);
      ghost var was := data[..];
      ghost var k := 0;
      ptr := base;
      HoldsNothing(data[..], base);
      StartedNothing(items, pduLen);
      OneTwoIs(items, pduLen);
      WireListSize(items, pduLen);
      ProgressIs(data, was, base, ptr, items, pduLen, 0);
      PadKind(0);
      var i := 0;
      while i < oneTwo
        invariant 0 <= i <= oneTwo
        invariant Progress(data, was, base, ptr, items, pduLen, i)
      {
        PadPlace(items, pduLen, i);
        ptr := AppendHeader(data, was, base, ptr, items, pduLen, i, PADDING, 0, !(pduLen > oneTwo));
        i := i + 1;
      }
      ptr := WriteCeHeaders(data, was, base, ptr, multibyte, oneTwo);
      ptr := WriteSduHeaders(data, was, base, ptr, multibyte, oneTwo);
      FilterCount(items);
      if multibyte {
        MultiPlace(items, pduLen);
        PadKind(numPadding);
        ptr := AppendHeader(data, was, base, ptr, items, pduLen, |items|, PADDING, numPadding, true);
      }
      StartedAll(items, pduLen);
      ProgressIs(data, was, base, ptr, items, pduLen, |WireList(items, pduLen)|);
    }

    method WriteCeHeaders(data: array<byte>, ghost was: seq<byte>, base: nat, at: nat, multibyte: bool, oneTwo: nat) returns (ptr: nat)
      requires Described() && Charge(items) <= pduLen
      requires multibyte == (pduLen - Charge(items) > 2) && oneTwo == OneTwo(items, pduLen)
      requires base + |WireHeaders(items, pduLen)| <= data.Length && oneTwo <= |WireList(items, pduLen)|
      requires Progress(data, was, base, at, items, pduLen, oneTwo)
      modifies data
      ensures oneTwo + |Ces(items)| <= |WireList(items, pduLen)|
      ensures Progress(data, was, base, ptr, items, pduLen, oneTwo + |Ces(items)|)
    {
      hide *;
      DescribedParts();
      LastSduIs(items);
      FilterNothing();
      assert items[..0] == [];
      ptr := at;
      var i := 0;
      var ceOnly := lastSduIdx < 0;
      while i < nofSubheaders
        invariant 0 <= i <= |items| == nofSubheaders
        invariant oneTwo + |Ces(items[..i])| <= |WireList(items, pduLen)|
        invariant Progress(data, was, base, ptr, items, pduLen, oneTwo + |Ces(items[..i])|)
      {
        EntryIs(subheaders[i], items[i], pduIsUl);
        FilterTake(items, i);
        if subheaders[i].lcid >= PHR_REPORT {
          CePlace(items, pduLen, i);
          ptr := AppendHeader(data, was, base, ptr, items, pduLen, oneTwo + |Ces(items[..i])|, subheaders[i].lcid, subheaders[i].nofBytes,
                              ceOnly && !multibyte && i == nofSubheaders - 1);
        } else {
          assert Ces(items[..i]) + [] == Ces(items[..i]);
        }
        i := i + 1;
      }
      assert items[..i] == items;
    }

    method WriteSduHeaders(data: array<byte>, ghost was: seq<byte>, base: nat, at: nat, multibyte: bool, oneTwo: nat) returns (ptr: nat)
      requires Described() && Charge(items) <= pduLen
      requires multibyte == (pduLen - Charge(items) > 2) && oneTwo == OneTwo(items, pduLen)
      requires base + |WireHeaders(items, pduLen)| <= data.Length && oneTwo + |Ces(items)| <= |WireList(items, pduLen)|
      requires Progress(data, was, base, at, items, pduLen, oneTwo + |Ces(items)|)
      modifies data
      ensures oneTwo + |Ces(items)| + |Sdus(items)| <= |WireList(items, pduLen)|
      ensures Progress(data, was, base, ptr, items, pduLen, oneTwo + |Ces(items)| + |Sdus(items)|)
    {
      hide *;
      DescribedParts();
      LastSduIs(items);
      FilterNothing();
      assert items[..0] == [];
      ptr := at;
      if lastSduIdx >= 0 {
        var i := 0;
        while i < nofSubheaders
          invariant 0 <= i <= |items| == nofSubheaders
          invariant oneTwo + |Ces(items)| + |Sdus(items[..i])| <= |WireList(items, pduLen)|
          invariant Progress(data, was, base, ptr, items, pduLen, oneTwo + |Ces(items)| + |Sdus(items[..i])|)
        {
          EntryIs(subheaders[i], items[i], pduIsUl);
          FilterTake(items, i);
          if subheaders[i].lcid < PHR_REPORT {
            SduPlace(items, pduLen, i);
            NoneBehindLast(items, i);
            ptr := AppendHeader(data, was, base, ptr, items, pduLen, oneTwo + |Ces(items)| + |Sdus(items[..i])|, subheaders[i].lcid,
                                subheaders[i].nofBytes, !multibyte && i == lastSduIdx);
          } else {
            assert Sdus(items[..i]) + [] == Sdus(items[..i]);
          }
          i := i + 1;
        }
        assert items[..i] == items;
      }
    }

    /** The control elements follow the headers. */
    method WriteCePayloads(data: array<byte>, base: nat, at: nat) returns (ptr: nat)
      requires Described() && Charge(items) <= pduLen
      requires at == base + |WireHeaders(items, pduLen)| && at + |Payloads(Ces(items))| <= data.Length
      requires Holds(data[..], base, WireHeaders(items, pduLen))
      modifies data
      ensures ptr == at + |Payloads(Ces(items))| && Holds(data[..], base, WireHeaders(items, pduLen) + Payloads(Ces(items)))
      ensures forall j :: 0 <= j < data.Length && !(at <= j < ptr) ==> data[j] == old(data[j])
    {
      hide *;
      DescribedParts();
      FilterNothing();
      assert items[..0] == [];
      PayloadsNothing();
      ghost var h := WireHeaders(items, pduLen);
      assert h + [] == h;
      ptr := at;
      var i := 0;
      while i < nofSubheaders
        invariant 0 <= i <= |items| == nofSubheaders
        invariant ptr == at + |Payloads(Ces(items[..i]))|
        invariant Holds(data[..], base, h + Payloads(Ces(items[..i])))
        invariant forall j :: 0 <= j < data.Length && !(at <= j < ptr) ==> data[j] == old(data[j])
      {
        EntryIs(subheaders[i], items[i], pduIsUl);
        FilterTake(items, i);
        PayloadsGrow(items, i);
        if subheaders[i].lcid >= PHR_REPORT {
          var n := SizeofCe(subheaders[i].lcid, pduIsUl);
          EntryCe(subheaders[i], items[i], pduIsUl);
          ghost var was := data[..];
          CopyBytes(data, ptr, subheaders[i].ce[..n]);
          HoldsMore(was, data[..], base, h + Payloads(Ces(items[..i])), items[i].payload);
          assert h + Payloads(Ces(items[..i])) + items[i].payload == h + (Payloads(Ces(items[..i])) + items[i].payload);
          ptr := ptr + n;
        } else {
          assert Ces(items[..i]) + [] == Ces(items[..i]);
        }
        i := i + 1;
      }
      assert items[..i] == items;
    }

    /** The table describes the items. */
    ghost predicate Described()
      reads this
    {
      && nofSubheaders == |items| <= |subheaders|
      && lastSduIdx == LastSdu(items)
      && (forall i :: 0 <= i < |items| ==> Matches(subheaders[i], items[i], pduIsUl))
    }

    lemma ValidDescribes()
      requires Valid() && !Blank()
      ensures Described()
    {
      hide Charge, Payloads, Sdus, LastSdu, Matches;
    }

    lemma DescribedParts()
      requires Described()
      ensures nofSubheaders == |items| <= |subheaders| && lastSduIdx == LastSdu(items)
      ensures forall i :: 0 <= i < |items| ==> Matches(subheaders[i], items[i], pduIsUl)
    {
      hide LastSdu, Matches;
    }

    /** Whether the table holds what was received. */
    ghost predicate Holding(rs: seq<Received>)
      reads this
    {
      && nofSubheaders == |rs| <= |subheaders| == maxSubheaders
      && forall i :: 0 <= i < |rs| ==> subheaders[i].lcid == rs[i].lcid && subheaders[i].nofBytes == rs[i].nofBytes && subheaders[i].payload == rs[i].at
    }

    /** parse_packet. Up to three bytes behind the PDU are readable. */
    method ParsePacket(m: array<byte>)
      requires |subheaders| == maxSubheaders && pduLen + 3 <= m.Length
      modifies this
      ensures pduLen == old(pduLen) && pduIsUl == old(pduIsUl)
      ensures Holding(Parse(m[..], pduLen, pduIsUl, maxSubheaders))
    {
      hide *;
      ParseBasePacket(m);
      ghost var rs := ParseBase(m[..], pduLen, pduIsUl, maxSubheaders);
      HoldingParts(rs);
      ParseIs(m[..], pduLen, pduIsUl, maxSubheaders);
      CorrectedIs(rs, pduLen);
      if nofSubheaders > 0 {
        var readLen := SumOfEntries(rs);
        var n := pduLen - readLen - 1;
        if n >= 0 {
          subheaders := subheaders[nofSubheaders - 1 := subheaders[nofSubheaders - 1].(nofBytes := n)];
        } else {
          Init(bufferTx, pduLen, pduIsUl);
        }
      }
      MakeHolding(Parse(m[..], pduLen, pduIsUl, maxSubheaders));
    }

    /** The space of all entries but the last, added up over the table. */
    method SumOfEntries(ghost rs: seq<Received>) returns (readLen: nat)
      requires Holding(rs) && rs != []
      ensures readLen == SumSizes(rs[..|rs| - 1])
    {
      hide *;
      HoldingParts(rs);
      readLen := 0;
      var i := 0;
      SumOfNothing();
      assert rs[..0] == [];
      while i < nofSubheaders - 1
        invariant 0 <= i <= |rs| - 1
        invariant readLen == SumSizes(rs[..i])
      {
        SumSnoc(rs, i);
        EntrySize(subheaders[i], rs[i]);
        readLen := readLen + EntrySizePlusHeader(subheaders[i]);
        i := i + 1;
      }
    }

    lemma HoldingParts(rs: seq<Received>)
      requires Holding(rs)
      ensures nofSubheaders == |rs| <= |subheaders| == maxSubheaders
      ensures forall i :: 0 <= i < |rs| ==> subheaders[i].lcid == rs[i].lcid && subheaders[i].nofBytes == rs[i].nofBytes && subheaders[i].payload == rs[i].at
    {
    }

    lemma MakeHolding(rs: seq<Received>)
      requires nofSubheaders == |rs| <= |subheaders| == maxSubheaders
      requires forall i :: 0 <= i < |rs| ==> subheaders[i].lcid == rs[i].lcid && subheaders[i].nofBytes == rs[i].nofBytes && subheaders[i].payload == rs[i].at
      ensures Holding(rs)
    {
    }

    /** The reader common to all PDU kinds: subheaders while they announce another one, then the
        payloads in the same order. */
    method ParseBasePacket(m: array<byte>)
      requires |subheaders| == maxSubheaders && pduLen + 3 <= m.Length
      modifies this`subheaders, this`nofSubheaders
      ensures Holding(ParseBase(m[..], pduLen, pduIsUl, maxSubheaders))
    {
      hide *;
      ParseBaseIs(m[..], pduLen, pduIsUl, maxSubheaders);
      if maxSubheaders == 0 {
        nofSubheaders := 0;
        MakeHolding([]);
        return;
      }
      var ptr: nat, corrupted := ReadHeads(m);
      ghost var hs := Heads(m[..], pduLen, pduIsUl, maxSubheaders, 0, 0);
      if corrupted {
        nofSubheaders := 0;
        MakeHolding([]);
        return;
      }
      var i := 0;
      ghost var at := ptr;
      ghost var was := subheaders;
      assert hs[0..] == hs;
      while i < nofSubheaders
        invariant 0 <= i <= nofSubheaders == |hs| <= |subheaders| == maxSubheaders
        invariant Placed(hs, at)[i..] == Placed(hs[i..], ptr)
        invariant forall j :: i <= j < |hs| ==> subheaders[j].lcid == hs[j].lcid && subheaders[j].nofBytes == hs[j].nofBytes
        invariant forall j :: 0 <= j < i ==>
                    var r := Placed(hs, at)[j];
                    subheaders[j].lcid == r.lcid && subheaders[j].nofBytes == r.nofBytes && subheaders[j].payload == r.at
      {
        PlacedStep(hs[i..], ptr);
        assert hs[i..][0] == hs[i] && hs[i..][1..] == hs[i + 1..];
        assert Placed(hs, at)[i] == Placed(hs, at)[i..][0];
        assert Placed(hs, at)[i + 1..] == Placed(hs, at)[i..][1..];
        subheaders := subheaders[i := subheaders[i].(payload := ptr)];
        ptr := ptr + subheaders[i].nofBytes;
        i := i + 1;
      }
      MakeHolding(Placed(hs, at));
    }

    /** Reads subheaders until one is the last, the bytes are used up, or only one place of the
        table is left. */
    method ReadHeads(m: array<byte>) returns (ptr: nat, corrupted: bool)
      requires |subheaders| == maxSubheaders >= 1 && pduLen + 3 <= m.Length
      modifies this`subheaders, this`nofSubheaders
      ensures var hs := Heads(m[..], pduLen, pduIsUl, maxSubheaders, 0, 0);
              nofSubheaders == |hs| <= |subheaders| == maxSubheaders
              && (forall j :: 0 <= j < |hs| ==> subheaders[j].lcid == hs[j].lcid && subheaders[j].nofBytes == hs[j].nofBytes)
              && ptr == HeadsLength(hs) && corrupted == Corrupted(hs, pduLen)
    {
      hide *;
      ghost var all := Heads(m[..], pduLen, pduIsUl, maxSubheaders, 0, 0);
      ghost var done: seq<Head> := [];
      nofSubheaders := 0;
      ptr := 0;
      corrupted := false;
      HeadsLengthOfNothing();
      assert [] + all == all;
      var again := true;
      while again
        invariant 0 <= nofSubheaders == |done| <= |subheaders| == maxSubheaders
        invariant forall j :: 0 <= j < |done| ==> subheaders[j].lcid == done[j].lcid && subheaders[j].nofBytes == done[j].nofBytes
        invariant ptr == HeadsLength(done)
        invariant again ==> !corrupted && nofSubheaders < maxSubheaders && ptr <= pduLen
                            && all == done + Heads(m[..], pduLen, pduIsUl, maxSubheaders, ptr, nofSubheaders)
        invariant !again ==> done == all && corrupted == Corrupted(all, pduLen)
        decreases again, maxSubheaders - nofSubheaders
      {
        ScanStep(m[..], pduLen, pduIsUl, maxSubheaders, ptr, nofSubheaders, done, all);
        var extended, lcid, nofBytes, next := ReadSubheader(m, ptr, pduIsUl);
        ghost var h := ReadHead(m[..], ptr, pduIsUl);
        subheaders := subheaders[nofSubheaders := subheaders[nofSubheaders].(lcid := lcid, nofBytes := nofBytes)];
        nofSubheaders := nofSubheaders + 1;
        ptr := next;
        done := done + [h];
        if extended && ptr >= pduLen {
          corrupted := true;
        }
        again := extended && nofSubheaders + 1 < maxSubheaders && pduLen > ptr;
      }
    }
  }

  // --- a whole transmission ---

  /** What is written, carried to a receiver and parsed there: the receiver's table holds the
      padding, control elements and SDUs in wire order exactly when it has room for them, and
      every payload is found where the order of the sizes puts it. */
  method WriteAndParse(tx: SchPdu, rx: SchPdu, m: array<byte>) returns (ok: bool)
    requires tx.Valid() && !tx.Blank() && tx.items != [] && RegularItems(tx.items, tx.pduIsUl)
    requires rx != tx && |rx.subheaders| == rx.maxSubheaders
    requires m != tx.bufferTx.data && tx.pduLen + 3 <= m.Length
    modifies tx.bufferTx, tx.bufferTx.data, rx, m
    ensures ok <==> old(tx.bufferTx.msg) >= |WireHeaders(tx.items, tx.pduLen)| + |Payloads(Ces(tx.items))|
                    && old(tx.bufferTx.Tailroom()) >= PadSize(tx.items, tx.pduLen)
    ensures ok ==> Charge(tx.items) <= tx.pduLen && Arrived(tx.items, tx.pduLen, rx, m)
  {
    hide *;
    ghost var items, pduLen, ul := tx.items, tx.pduLen, tx.pduIsUl;
    tx.ValidParts();
    tx.ChargeBound();
    ok := tx.WritePacket();
    if ok {
      var b := tx.bufferTx;
      CopyBytes(m, 0, b.data[b.msg..b.msg + tx.pduLen]);
      rx.Init(null, tx.pduLen, tx.pduIsUl);
      rx.ParsePacket(m);
      ghost var tail := m[pduLen..];
      assert m[..] == Wire(items, pduLen) + tail;
      PduParsesBack(items, pduLen, ul, rx.maxSubheaders, tail);
      ArrivedIf(items, pduLen, ul, rx, m, tail);
    }
  }

  /** The receiver's side of a transmission. */
  ghost predicate Arrived(items: seq<Item>, pduLen: nat, rx: SchPdu, m: array<byte>)
    requires Charge(items) <= pduLen
    reads rx, m
  {
    var w := WireList(items, pduLen);
    var e := Expected(w, |Headers(w)|);
    && (rx.Holding(e) <==> |w| <= Capacity(rx.maxSubheaders))
    && forall i :: 0 <= i < |w| ==>
         e[i].lcid == w[i].lcid && e[i].nofBytes == |w[i].payload| && Holds(m[..], e[i].at, w[i].payload)
  }

  lemma ArrivedIf(items: seq<Item>, pduLen: nat, ul: bool, rx: SchPdu, m: array<byte>, tail: seq<byte>)
    requires Charge(items) <= pduLen && items != [] && pduLen + 3 <= m.Length && m[..] == Wire(items, pduLen) + tail
    requires rx.Holding(Parse(m[..], pduLen, ul, rx.maxSubheaders))
    requires var w := WireList(items, pduLen);
             Parse(m[..], pduLen, ul, rx.maxSubheaders) == Expected(w, |Headers(w)|) <==> |w| <= Capacity(rx.maxSubheaders)
    ensures Arrived(items, pduLen, rx, m)
  {
    hide *;
    var w := WireList(items, pduLen);
    var e, r := Expected(w, |Headers(w)|), Parse(m[..], pduLen, ul, rx.maxSubheaders);
    if rx.Holding(e) {
      HoldingSame(rx, e, r);
    }
    forall i | 0 <= i < |w|
      ensures e[i].lcid == w[i].lcid && e[i].nofBytes == |w[i].payload| && Holds(m[..], e[i].at, w[i].payload)
    {
      PduPayloads(items, pduLen, tail, i);
      SizeIs(w[i]);
    }
    ArrivedUnfold(items, pduLen, rx, m);
  }

  lemma ArrivedUnfold(items: seq<Item>, pduLen: nat, rx: SchPdu, m: array<byte>)
    requires Charge(items) <= pduLen
    ensures var w := WireList(items, pduLen);
            var e := Expected(w, |Headers(w)|);
            Arrived(items, pduLen, rx, m) <==>
            (rx.Holding(e) <==> |w| <= Capacity(rx.maxSubheaders))
            && forall i :: 0 <= i < |w| ==>
                 e[i].lcid == w[i].lcid && e[i].nofBytes == |w[i].payload| && Holds(m[..], e[i].at, w[i].payload)
  {
    hide WireList, Expected, Headers, Capacity, Holds, SchPdu.Holding;
  }

  /** A table describes only one list. */
  lemma HoldingSame(rx: SchPdu, a: seq<Received>, b: seq<Received>)
    requires rx.Holding(a) && rx.Holding(b)
    ensures a == b
  {
    assert |a| == |b|;
    forall i | 0 <= i < |a|
      ensures a[i] == b[i]
    {
    }
  }

  // --- pieces of the reader ---

  /** read_subheader. */
  method ReadSubheader(m: array<byte>, at: nat, ul: bool) returns (extended: bool, lcid: nat, nofBytes: nat, next: nat)
    requires at + 2 < m.Length
    ensures at < next && ReadHead(m[..], at, ul) == Head(lcid, nofBytes, extended, next - at)
  {
    extended := m[at] / 32 % 2 == 1;
    lcid := m[at] % 32;
    next := at + 1;
    if lcid < PHR_REPORT {
      if extended {
        var fBit := m[next] / 128 % 2 == 1;
        nofBytes := m[next] % 128;
        next := next + 1;
        if fBit {
          nofBytes := nofBytes * 256 + m[next];
          next := next + 1;
        }
      } else {
        nofBytes := 0;
      }
    } else {
      nofBytes := SizeofCe(lcid, ul);
    }
  }

  function EntrySizePlusHeader(s: Subh): nat {
    if s.lcid < PHR_REPORT then SizeHeaderSdu(s.nofBytes) + s.nofBytes else 1 + s.nofBytes
  }

  /** One more subheader: either the scan goes on behind it, or it was the last one. */
  lemma ScanStep(m: seq<byte>, pduLen: nat, ul: bool, max: nat, at: nat, k: nat, done: seq<Head>, all: seq<Head>)
    requires pduLen + 3 <= |m| && at <= pduLen && k < max && at == HeadsLength(done)
    requires all == done + Heads(m, pduLen, ul, max, at, k)
    ensures var h := ReadHead(m, at, ul);
            var next := at + h.length;
            HeadsLength(done + [h]) == next
            && if h.extended && k + 2 < max && pduLen > next
               then all == (done + [h]) + Heads(m, pduLen, ul, max, next, k + 1)
               else all == done + [h] && Corrupted(all, pduLen) == (h.extended && next >= pduLen)
  {
    hide *;
    var h := ReadHead(m, at, ul);
    var next := at + h.length;
    HeadsStep(m, pduLen, ul, max, at, k);
    StopsIs(h, next, k, max, pduLen);
    HeadsLengthSnoc(done, h);
    CorruptedIs(done + [h], pduLen);
    if h.extended && k + 2 < max && pduLen > next {
      Regroup(done, h, Heads(m, pduLen, ul, max, next, k + 1));
    }
  }

  lemma EntrySize(s: Subh, r: Received)
    requires s.lcid == r.lcid && s.nofBytes == r.nofBytes
    ensures EntrySizePlusHeader(s) == SizePlusHeader(r)
  {
  }

  lemma ParseIs(m: seq<byte>, pduLen: nat, ul: bool, max: nat)
    requires pduLen + 3 <= |m|
    ensures Parse(m, pduLen, ul, max) == Corrected(ParseBase(m, pduLen, ul, max), pduLen)
  {
    hide ParseBase, Corrected;
  }

  lemma CorrectedIs(rs: seq<Received>, pduLen: nat)
    ensures rs == [] ==> Corrected(rs, pduLen) == []
    ensures rs != [] ==>
              var n := |rs| - 1;
              Corrected(rs, pduLen) == if SumSizes(rs[..n]) + 1 <= pduLen then rs[..n] + [rs[n].(nofBytes := pduLen - SumSizes(rs[..n]) - 1)] else []
  {
    hide SumSizes;
  }

  lemma SumOfNothing()
    ensures SumSizes([]) == 0
  {
  }

  lemma SumSnoc(rs: seq<Received>, i: nat)
    requires i < |rs|
    ensures SumSizes(rs[..i + 1]) == SumSizes(rs[..i]) + SizePlusHeader(rs[i])
  {
    hide SizePlusHeader;
    assert rs[..i + 1][..i] == rs[..i];
  }

  lemma ParseBaseIs(m: seq<byte>, pduLen: nat, ul: bool, max: nat)
    requires pduLen + 3 <= |m|
    ensures max == 0 ==> ParseBase(m, pduLen, ul, max) == []
    ensures max > 0 ==>
              var hs := Heads(m, pduLen, ul, max, 0, 0);
              ParseBase(m, pduLen, ul, max) == if Corrupted(hs, pduLen) then [] else Placed(hs, HeadsLength(hs))
  {
    hide Heads, Corrupted, Placed, HeadsLength;
  }

  lemma PlacedStep(hs: seq<Head>, at: nat)
    requires hs != []
    ensures Placed(hs, at) == [Received(hs[0].lcid, hs[0].nofBytes, at)] + Placed(hs[1..], at + hs[0].nofBytes)
  {
  }

  lemma HeadsLengthOfNothing()
    ensures HeadsLength([]) == 0
  {
  }

  lemma {:induction false} HeadsLengthSnoc(hs: seq<Head>, h: Head)
    ensures HeadsLength(hs + [h]) == HeadsLength(hs) + h.length
  {
    if hs == [] {
      assert hs + [h] == [h] && [h][1..] == [];
    } else {
      assert (hs + [h])[1..] == hs[1..] + [h];
      HeadsLengthSnoc(hs[1..], h);
    }
  }

  lemma Regroup(a: seq<Head>, h: Head, b: seq<Head>)
    ensures a + ([h] + b) == (a + [h]) + b
  {
  }

  lemma StopsIs(h: Head, next: nat, k: nat, max: nat, pduLen: nat)
    ensures Stops(h, next, k, max, pduLen) == (!h.extended || next >= pduLen || k + 2 >= max)
  {
  }

  lemma CorruptedIs(hs: seq<Head>, pduLen: nat)
    requires hs != []
    ensures Corrupted(hs, pduLen) == (hs[|hs| - 1].extended && HeadsLength(hs) >= pduLen)
  {
    hide HeadsLength;
  }

  // --- pieces of the writer ---

  function EntryHeaderSize(s: Subh, last: bool): nat
  {
    if !last && s.lcid < PHR_REPORT then SizeHeaderSdu(s.nofBytes) else 1
  }

  lemma EntryIs(s: Subh, it: Item, ul: bool)
    requires Matches(s, it, ul)
    ensures s.lcid == it.lcid && s.nofBytes == Size(it) && (s.lcid < PHR_REPORT <==> it.Sdu?) && (it.Sdu? <==> !it.Ce?)
    ensures EntryHeaderSize(s, false) == HeaderSize(it, false) && EntryHeaderSize(s, true) == 1
    ensures it.Sdu? ==> HeaderSize(it, false) == SizeHeaderSdu(Size(it))
    ensures Size(it) == |it.payload|
  {
  }

  lemma EntryCe(s: Subh, it: Item, ul: bool)
    requires Matches(s, it, ul) && it.Ce?
    ensures SizeofCe(s.lcid, ul) == |it.payload| <= |s.ce| && s.ce[..|it.payload|] == it.payload
  {
  }

  lemma PaddingCases(items: seq<Item>, pduLen: nat)
    requires Charge(items) <= pduLen
    ensures OneTwo(items, pduLen) == if pduLen - Charge(items) > 2 then 0 else pduLen - Charge(items)
    ensures PadSize(items, pduLen) == if pduLen - Charge(items) > 2 then pduLen - Charge(items) - 1 - Saved(Sdus(items)) else 0
    ensures Saved(Sdus(items)) <= 2
  {
    hide Charge, Sdus;
    SavedBound(Sdus(items));
  }

  lemma OneTwoIs(items: seq<Item>, pduLen: nat)
    requires Charge(items) <= pduLen
    ensures OneTwo(items, pduLen) == if pduLen - Charge(items) > 2 then 0 else pduLen - Charge(items)
  {
    hide Charge;
  }

  lemma SumsStart(items: seq<Item>)
    ensures HeaderSum(items[..0]) == 0 && Payloads(Ces(items[..0])) == []
  {
  }

  lemma SumsStep(items: seq<Item>, i: nat)
    requires i < |items|
    ensures HeaderSum(items[..i + 1]) == HeaderSum(items[..i]) + HeaderSize(items[i], false)
    ensures Payloads(Ces(items[..i + 1])) == Payloads(Ces(items[..i])) + (if items[i].Ce? then items[i].payload else [])
  {
    hide Ces, Sdus, HeaderSize, Payloads;
    assert items[..i + 1][..i] == items[..i];
    PayloadsGrow(items, i);
  }

  lemma PayloadsGrow(items: seq<Item>, i: nat)
    requires i < |items|
    ensures Payloads(Ces(items[..i + 1])) == Payloads(Ces(items[..i])) + (if items[i].Ce? then items[i].payload else [])
    ensures |Payloads(Ces(items[..i + 1]))| <= |Payloads(Ces(items))|
  {
    hide *;
    FilterTake(items, i);
    FilterPrefix(items, i + 1);
    PayloadsNothing();
    FullConcat(Ces(items[..i]), if items[i].Ce? then [items[i]] else []);
    FullOfOne(items[i]);
    var a, b := Ces(items[..i + 1]), Ces(items);
    assert b == a + b[|a|..];
    FullConcat(a, b[|a|..]);
  }

  lemma PayloadsNothing()
    ensures Payloads([]) == []
  {
  }

  /** An SDU is the last one when no SDU follows it. */
  lemma {:induction false} NoneBehindLast(items: seq<Item>, i: nat)
    requires i < |items| && items[i].Sdu?
    ensures i == LastSdu(items) <==> forall j :: i < j < |items| ==> items[j].Ce?
    decreases |items|
  {
    var n := |items| - 1;
    if i < n {
      NoneBehindLast(items[..n], i);
      assert forall j :: i < j < n ==> items[..n][j] == items[j];
    }
  }

  lemma PadKind(n: nat)
    ensures Size(Ce(PADDING, ZeroBytes(n))) == n && Size(Ce(PADDING, [])) == 0 && PADDING >= PHR_REPORT
  {
  }

  lemma StartedNothing(items: seq<Item>, pduLen: nat)
    requires Charge(items) <= pduLen
    ensures Started(items, pduLen, 0) == []
  {
    hide Charge, WireList;
  }

  /** The first k subheaders are written from base on, up to ptr, and nothing else. */
  ghost predicate Progress(data: array<byte>, was: seq<byte>, base: nat, ptr: nat, items: seq<Item>, pduLen: nat, k: nat)
    requires Charge(items) <= pduLen && k <= |WireList(items, pduLen)|
    reads data
  {
    && |was| == data.Length
    && Holds(data[..], base, Started(items, pduLen, k)) && ptr == base + |Started(items, pduLen, k)|
    && forall j :: 0 <= j < data.Length && !(base <= j < ptr) ==> data[j] == was[j]
  }

  lemma ProgressIs(data: array<byte>, was: seq<byte>, base: nat, ptr: nat, items: seq<Item>, pduLen: nat, k: nat)
    requires Charge(items) <= pduLen && k <= |WireList(items, pduLen)|
    ensures Progress(data, was, base, ptr, items, pduLen, k) <==>
            |was| == data.Length && Holds(data[..], base, Started(items, pduLen, k)) && ptr == base + |Started(items, pduLen, k)|
            && forall j :: 0 <= j < data.Length && !(base <= j < ptr) ==> data[j] == was[j]
  {
    hide Holds, Started, Charge, WireList;
  }

  /** write_subheader: one byte, and the length of an SDU that is not last. */
  method WriteSubheader(data: array<byte>, at: nat, lcid: nat, nofBytes: nat, isLast: bool, ghost it: Item) returns (ptr: nat)
    requires lcid == it.lcid && nofBytes == Size(it) && (lcid < PHR_REPORT <==> it.Sdu?)
    requires at + |HeaderBytes(it, isLast)| <= data.Length
    modifies data
    ensures ptr == at + |HeaderBytes(it, isLast)| && data[at..ptr] == HeaderBytes(it, isLast)
    ensures forall j :: 0 <= j < data.Length && !(at <= j < ptr) ==> data[j] == old(data[j])
  {
    ptr := at;
    data[ptr] := (if isLast then 0 else 32) + lcid % 32;
    ptr := ptr + 1;
    if lcid < PHR_REPORT {
      if !isLast {
        if nofBytes >= 128 {
          data[ptr] := 128 + nofBytes / 256 % 128;
          ptr := ptr + 1;
          data[ptr] := nofBytes % 256;
          ptr := ptr + 1;
        } else {
          data[ptr] := nofBytes % 128;
          ptr := ptr + 1;
        }
      }
    }
  }

  /** Writes subheader k behind the ones before it. */
  method AppendHeader(data: array<byte>, ghost was: seq<byte>, base: nat, at: nat, ghost items: seq<Item>, ghost pduLen: nat, ghost k: nat,
                      lcid: nat, nofBytes: nat, isLast: bool) returns (ptr: nat)
    requires Charge(items) <= pduLen && k < |WireList(items, pduLen)|
    requires base + |WireHeaders(items, pduLen)| <= data.Length
    requires Progress(data, was, base, at, items, pduLen, k)
    requires isLast == LastFlag(items, pduLen, k)
    requires var it := WireList(items, pduLen)[k]; lcid == it.lcid && nofBytes == Size(it) && (lcid < PHR_REPORT <==> it.Sdu?)
    modifies data
    ensures Progress(data, was, base, ptr, items, pduLen, k + 1)
  {
    hide *;
    ghost var it := WireList(items, pduLen)[k];
    ProgressIs(data, was, base, at, items, pduLen, k);
    StartedStep(items, pduLen, k);
    StartedFits(items, pduLen, k + 1);
    ghost var before := data[..];
    ptr := WriteSubheader(data, at, lcid, nofBytes, isLast, it);
    HoldsSame(before, data[..], base, Started(items, pduLen, k));
    HoldsSlice(data[..], at, ptr, HeaderBytes(it, isLast));
    HoldsSplit(data[..], base, Started(items, pduLen, k), HeaderBytes(it, isLast));
    ProgressIs(data, was, base, ptr, items, pduLen, k + 1);
  }

  /** Headers and control elements, SDUs and zeros in a row are the PDU. */
  lemma PduBytes(m: seq<byte>, base: nat, items: seq<Item>, pduLen: nat, head: seq<byte>, sdus: seq<byte>)
    requires Charge(items) <= pduLen
    requires head == WireHeaders(items, pduLen) + Payloads(Ces(items)) && sdus == Payloads(Sdus(items))
    requires Holds(m, base, head) && Holds(m, base + |head|, sdus)
    requires Holds(m, base + |head| + |sdus|, ZeroBytes(PadSize(items, pduLen)))
    ensures |head| + |sdus| + PadSize(items, pduLen) == pduLen
    ensures base + pduLen <= |m| && m[base..base + pduLen] == Wire(items, pduLen)
  {
    hide *;
    var z := ZeroBytes(PadSize(items, pduLen));
    WireParts(items, pduLen, head, sdus);
    WireHasPduLength(items, pduLen);
    HoldsSplit(m, base, head, sdus);
    HoldsSplit(m, base, head + sdus, z);
    HoldsIs(m, base, head + sdus + z);
  }

  lemma WireParts(items: seq<Item>, pduLen: nat, head: seq<byte>, sdus: seq<byte>)
    requires Charge(items) <= pduLen
    requires head == WireHeaders(items, pduLen) + Payloads(Ces(items)) && sdus == Payloads(Sdus(items))
    ensures Wire(items, pduLen) == head + sdus + ZeroBytes(PadSize(items, pduLen))
  {
    hide Charge, WireHeaders, Payloads, Ces, Sdus, PadSize, WireList;
    PayloadsOfWire(items, pduLen);
    var h, c, z := WireHeaders(items, pduLen), Payloads(Ces(items)), ZeroBytes(PadSize(items, pduLen));
    assert h + (c + sdus + z) == h + c + sdus + z;
  }

  lemma OneByte(format: nat)
    requires format == SHORT_BSR || format == TRUNC_BSR
    ensures PHR_REPORT <= format < 32 && SizeofCe(format, true) == 1
  {
  }

  function ConResBytes(id: nat): (s: seq<byte>)
    ensures |s| == 6
  {
    [id / 0x100_0000_0000 % 256, id / 0x1_0000_0000 % 256, id / 0x100_0000 % 256, id / 0x1_0000 % 256, id / 256 % 256, id % 256]
  }
}
