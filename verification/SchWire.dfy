/** The LTE MAC PDU as bytes (sections 6.1.2 and 6.2.1 of TS 36.321): what the writer must
    produce and what the reader makes of any bytes. */
module SchWire {
  import opened Bits
  import opened ByteSpans

  /** The smallest identifier that is not a logical channel. */
  const PHR_REPORT := 26
  const PADDING := 31

  /** A control element or padding, or an SDU, with its bytes. */
  datatype Item = Ce(lcid: nat, payload: seq<byte>) | Sdu(lcid: nat, payload: seq<byte>)

  function Size(it: Item): nat {
    |it.payload|
  }

  function SizeHeaderSdu(nbytes: nat): nat {
    if nbytes < 128 then 2 else 3
  }

  function HeaderSize(it: Item, last: bool): nat {
    if last || it.Ce? then 1 else SizeHeaderSdu(Size(it))
  }

  /** The size of a control element by identifier and link direction. */
  function SizeofCe(lcid: nat, ul: bool): nat {
    if ul then
      if lcid == 26 then 1 else if lcid == 27 then 2 else if lcid == 28 then 1 else if lcid == 29 then 1
      else if lcid == 30 then 3 else 0
    else
      if lcid == 28 then 6 else if lcid == 29 then 1 else if lcid == 27 then 1 else 0
  }

  // --- what is written ---

  function LengthField(n: nat): (s: seq<byte>)
    ensures |s| == SizeHeaderSdu(n) - 1
  {
    if n >= 128 then [128 + n / 256 % 128, n % 256] else [n]
  }

  /** A subheader; the last one has its extension bit clear and no length. */
  function HeaderBytes(it: Item, last: bool): (s: seq<byte>)
    ensures |s| == HeaderSize(it, last)
  {
    [(if last then 0 else 32) + it.lcid % 32] + (if it.Sdu? && !last then LengthField(Size(it)) else [])
  }

  function Headers(w: seq<Item>): seq<byte> {
    if w == [] then [] else HeaderBytes(w[0], |w| == 1) + Headers(w[1..])
  }

  function Payloads(w: seq<Item>): seq<byte> {
    if w == [] then [] else w[0].payload + Payloads(w[1..])
  }

  /** The space of a list when every subheader is written in full. */
  function Full(w: seq<Item>): nat {
    if w == [] then 0 else HeaderSize(w[0], false) + Size(w[0]) + Full(w[1..])
  }

  /** What is saved by writing the subheader of the last item short. */
  function Saved(w: seq<Item>): nat {
    if w == [] then 0 else HeaderSize(w[|w| - 1], false) - 1
  }

  lemma {:induction false} FullConcat(a: seq<Item>, b: seq<Item>)
    ensures Full(a + b) == Full(a) + Full(b)
    ensures Payloads(a + b) == Payloads(a) + Payloads(b)
  {
    if a == [] {
      assert a + b == b;
    } else {
      assert (a + b)[0] == a[0] && (a + b)[1..] == a[1..] + b;
      FullConcat(a[1..], b);
    }
  }

  lemma SavedBound(w: seq<Item>)
    ensures Saved(w) <= 2 && (w != [] ==> Saved(w) < Full(w)) && Saved(w) <= Full(w)
  {
    if w != [] {
      FullConcat(w[..|w| - 1], [w[|w| - 1]]);
      assert w == w[..|w| - 1] + [w[|w| - 1]];
      assert Full([w[|w| - 1]]) == HeaderSize(w[|w| - 1], false) + Size(w[|w| - 1]) + Full([]);
    }
  }

  lemma {:induction false} WireLength(w: seq<Item>)
    ensures |Headers(w)| + |Payloads(w)| == Full(w) - Saved(w)
  {
    hide HeaderBytes, HeaderSize;
    if w != [] {
      WireLength(w[1..]);
      if |w| > 1 {
        assert w[1..][|w[1..]| - 1] == w[|w| - 1];
      } else {
        assert w[1..] == [];
        LastHeaderSize(w[0]);
      }
    }
  }

  lemma LastHeaderSize(it: Item)
    ensures HeaderSize(it, true) == 1
  {
  }

  // --- the order in which items are written ---

  function Ces(items: seq<Item>): (w: seq<Item>)
    ensures forall it :: it in w ==> it in items && it.Ce?
  {
    if items == [] then []
    else Ces(items[..|items| - 1]) + (if items[|items| - 1].Ce? then [items[|items| - 1]] else [])
  }

  function Sdus(items: seq<Item>): (w: seq<Item>)
    ensures forall it :: it in w ==> it in items && it.Sdu?
  {
    if items == [] then []
    else Sdus(items[..|items| - 1]) + (if items[|items| - 1].Sdu? then [items[|items| - 1]] else [])
  }

  function Pads(n: nat): (w: seq<Item>)
    ensures |w| == n
  {
    seq(n, i => Ce(PADDING, []))
  }

  /** The space the items are charged for: the last SDU counts with a one-byte subheader. */
  function Charge(items: seq<Item>): nat {
    SavedBound(Sdus(items));
    FullSplits(items);
    Full(items) - Saved(Sdus(items))
  }

  lemma {:induction false} FullSplits(items: seq<Item>)
    ensures Full(items) == Full(Ces(items)) + Full(Sdus(items))
  {
    hide *;
    if items == [] {
      FilterNothing();
    } else {
      var init, last := items[..|items| - 1], items[|items| - 1];
      FullSplits(init);
      FilterStep(items);
      assert items == init + [last];
      FullConcat(init, [last]);
      FullConcat(Ces(init), if last.Ce? then [last] else []);
      FullConcat(Sdus(init), if last.Sdu? then [last] else []);
      FilterNothing();
    }
  }

  lemma FilterNothing()
    ensures Ces([]) == [] && Sdus([]) == [] && Full([]) == 0
  {
  }

  lemma FilterStep(items: seq<Item>)
    requires items != []
    ensures var init, last := items[..|items| - 1], items[|items| - 1];
            Ces(items) == Ces(init) + (if last.Ce? then [last] else [])
            && Sdus(items) == Sdus(init) + (if last.Sdu? then [last] else [])
  {
  }

  /** Control elements first, then SDUs; one or two bytes of space become padding subheaders in
      front, more become one padding subheader at the end with zeros behind everything. */
  function WireList(items: seq<Item>, pduLen: nat): seq<Item>
    requires Charge(items) <= pduLen
  {
    var rem := pduLen - Charge(items);
    var w := Ces(items) + Sdus(items);
    if rem > 2 then
      SavedBound(Sdus(items));
      w + [Ce(PADDING, ZeroBytes(rem - 1 - Saved(Sdus(items))))]
    else Pads(rem) + w
  }

  /** A PDU of two bytes with no items is two last subheaders. */
  function WireHeaders(items: seq<Item>, pduLen: nat): seq<byte>
    requires Charge(items) <= pduLen
  {
    if items == [] && pduLen == 2 then [PADDING, PADDING] else Headers(WireList(items, pduLen))
  }

  /** The bytes of the PDU. */
  function Wire(items: seq<Item>, pduLen: nat): seq<byte>
    requires Charge(items) <= pduLen
  {
    WireHeaders(items, pduLen) + Payloads(WireList(items, pduLen))
  }

  lemma PadsFacts(n: nat)
    ensures Full(Pads(n)) == n && Payloads(Pads(n)) == []
  {
    if n > 0 {
      assert Pads(n)[1..] == Pads(n - 1);
      PadsFacts(n - 1);
    }
  }

  /** In each of the four padding cases the PDU has exactly the demanded length. */
  lemma WireHasPduLength(items: seq<Item>, pduLen: nat)
    requires Charge(items) <= pduLen
    ensures |Wire(items, pduLen)| == pduLen
  {
    hide HeaderSize, HeaderBytes, Headers, Payloads, Ces, Sdus, Pads;
    var rem := pduLen - Charge(items);
    var w := Ces(items) + Sdus(items);
    FullSplits(items);
    FullConcat(Ces(items), Sdus(items));
    SavedBound(Sdus(items));
    SavedOfWire(items);
    if rem > 2 {
      var pad := Ce(PADDING, ZeroBytes(rem - 1 - Saved(Sdus(items))));
      FullConcat(w, [pad]);
      FullOfPad(pad);
      WireLength(w + [pad]);
      assert (w + [pad])[|w + [pad]| - 1] == pad;
    } else {
      PadsFacts(rem);
      FullConcat(Pads(rem), w);
      WireLength(Pads(rem) + w);
      SavedBehindPads(rem, w);
      if items == [] {
        WireOfNothing(pduLen);
      }
    }
  }

  lemma FullOfPad(pad: Item)
    requires pad.Ce?
    ensures Full([pad]) == 1 + Size(pad) && HeaderSize(pad, false) == 1
  {
    assert [pad][1..] == [];
  }

  lemma SavedOfWire(items: seq<Item>)
    ensures Saved(Ces(items) + Sdus(items)) == Saved(Sdus(items))
  {
    hide Ces, Sdus;
    var c, s := Ces(items), Sdus(items);
    if s == [] {
      assert c + s == c;
      if c != [] {
        assert c[|c| - 1] in c;
      }
    } else {
      assert (c + s)[|c + s| - 1] == s[|s| - 1];
    }
  }

  lemma SavedBehindPads(n: nat, w: seq<Item>)
    ensures Saved(Pads(n) + w) == Saved(w)
  {
    if w == [] {
      assert Pads(n) + w == Pads(n);
    } else {
      assert (Pads(n) + w)[|Pads(n) + w| - 1] == w[|w| - 1];
    }
  }

  lemma WireOfNothing(pduLen: nat)
    requires pduLen <= 2
    ensures Charge([]) == 0 && |Payloads(WireList([], pduLen))| == 0
    ensures |WireHeaders([], pduLen)| == pduLen
  {
    assert Ces([]) + Sdus([]) == [];
    assert Pads(pduLen) + [] == Pads(pduLen);
    PadsFacts(pduLen);
    WireLength(Pads(pduLen));
    SavedBehindPads(pduLen, []);
    assert WireList([], pduLen) == Pads(pduLen);
  }

  // --- the headers one by one, in the order in which the writer makes them ---

  /** The first k subheaders of a list. */
  function HeadersUpTo(w: seq<Item>, k: nat): seq<byte>
    requires k <= |w|
  {
    if k == 0 then [] else HeadersUpTo(w, k - 1) + HeaderBytes(w[k - 1], k == |w|)
  }

  lemma {:induction false} HeadersUpToRest(w: seq<Item>, k: nat)
    requires k <= |w|
    ensures HeadersUpTo(w, k) + Headers(w[k..]) == Headers(w)
  {
    hide HeaderBytes;
    if k == 0 {
      assert w[0..] == w;
    } else {
      HeadersUpToRest(w, k - 1);
      assert w[k - 1..][0] == w[k - 1] && w[k - 1..][1..] == w[k..];
      assert |w[k - 1..]| == 1 <==> k == |w|;
    }
  }

  /** The subheaders of a PDU after k of them. */
  function Started(items: seq<Item>, pduLen: nat, k: nat): seq<byte>
    requires Charge(items) <= pduLen && k <= |WireList(items, pduLen)|
  {
    if items == [] && pduLen == 2 then seq(k, i => PADDING) else HeadersUpTo(WireList(items, pduLen), k)
  }

  /** Whether subheader k is written as a last one. */
  predicate LastFlag(items: seq<Item>, pduLen: nat, k: nat)
    requires Charge(items) <= pduLen
  {
    k + 1 == |WireList(items, pduLen)| || (items == [] && pduLen == 2)
  }

  lemma StartedStep(items: seq<Item>, pduLen: nat, k: nat)
    requires Charge(items) <= pduLen && k < |WireList(items, pduLen)|
    ensures Started(items, pduLen, 0) == []
    ensures Started(items, pduLen, k + 1) == Started(items, pduLen, k) + HeaderBytes(WireList(items, pduLen)[k], LastFlag(items, pduLen, k))
  {
    hide WireList, HeaderBytes, Charge;
    if items == [] && pduLen == 2 {
      WireListOfNothing();
      assert HeaderBytes(Ce(PADDING, []), true) == [PADDING] by {
        PadHeader();
      }
      assert seq(k + 1, i => PADDING) == seq(k, i => PADDING) + [PADDING];
    }
  }

  lemma PadHeader()
    ensures HeaderBytes(Ce(PADDING, []), true) == [PADDING]
  {
  }

  lemma WireListOfNothing()
    ensures Charge([]) == 0 && WireList([], 2) == [Ce(PADDING, []), Ce(PADDING, [])]
  {
    assert Ces([]) + Sdus([]) == [];
  }

  lemma StartedAll(items: seq<Item>, pduLen: nat)
    requires Charge(items) <= pduLen
    ensures Started(items, pduLen, |WireList(items, pduLen)|) == WireHeaders(items, pduLen)
  {
    hide WireList, Charge;
    if items == [] && pduLen == 2 {
      WireListOfNothing();
    } else {
      var w := WireList(items, pduLen);
      HeadersUpToRest(w, |w|);
      HeadersNothing();
      assert w[|w|..] == [];
    }
  }

  lemma StartedFits(items: seq<Item>, pduLen: nat, k: nat)
    requires Charge(items) <= pduLen && k <= |WireList(items, pduLen)|
    ensures |Started(items, pduLen, k)| <= |WireHeaders(items, pduLen)|
  {
    hide WireList, Charge;
    if items == [] && pduLen == 2 {
      WireListOfNothing();
    } else {
      HeadersUpToRest(WireList(items, pduLen), k);
    }
  }

  // --- where each item comes in the list ---

  /** The number of one-byte padding subheaders in front. */
  function OneTwo(items: seq<Item>, pduLen: nat): nat
    requires Charge(items) <= pduLen
  {
    if pduLen - Charge(items) > 2 then 0 else pduLen - Charge(items)
  }

  /** The number of zeros at the end. */
  function PadSize(items: seq<Item>, pduLen: nat): nat
    requires Charge(items) <= pduLen
  {
    SavedBound(Sdus(items));
    if pduLen - Charge(items) > 2 then pduLen - Charge(items) - 1 - Saved(Sdus(items)) else 0
  }

  lemma FilterTake(items: seq<Item>, i: nat)
    requires i < |items|
    ensures Ces(items[..i + 1]) == Ces(items[..i]) + (if items[i].Ce? then [items[i]] else [])
    ensures Sdus(items[..i + 1]) == Sdus(items[..i]) + (if items[i].Sdu? then [items[i]] else [])
  {
    hide *;
    FilterStep(items[..i + 1]);
    assert items[..i + 1][..i] == items[..i] && items[..i + 1][i] == items[i];
  }

  lemma {:induction false} FilterPrefix(items: seq<Item>, i: nat)
    requires i <= |items|
    ensures Ces(items[..i]) <= Ces(items) && Sdus(items[..i]) <= Sdus(items)
    decreases |items|
  {
    hide *;
    if i < |items| {
      var init := items[..|items| - 1];
      FilterStep(items);
      FilterPrefix(init, i);
      assert init[..i] == items[..i];
    } else {
      assert items[..i] == items;
    }
  }

  lemma {:induction false} FilterCount(items: seq<Item>)
    ensures |Ces(items)| + |Sdus(items)| == |items|
  {
    if items != [] {
      FilterCount(items[..|items| - 1]);
    }
  }

  lemma CesUpTo(items: seq<Item>, i: nat)
    requires i <= |items|
    ensures Ces(items[..i]) <= Ces(items) && Sdus(items[..i]) <= Sdus(items)
    ensures |Ces(items)| + |Sdus(items)| == |items| && |Ces(items[..i])| + |Sdus(items[..i])| == i
    ensures i < |items| ==> Ces(items[..i + 1]) == Ces(items[..i]) + (if items[i].Ce? then [items[i]] else [])
    ensures i < |items| ==> Sdus(items[..i + 1]) == Sdus(items[..i]) + (if items[i].Sdu? then [items[i]] else [])
  {
    hide *;
    FilterPrefix(items, i);
    FilterCount(items);
    FilterCount(items[..i]);
    if i < |items| {
      FilterTake(items, i);
    }
  }

  /** A control element is found behind the padding and the control elements before it. */
  lemma CePlace(items: seq<Item>, pduLen: nat, i: nat)
    requires Charge(items) <= pduLen && i < |items| && items[i].Ce?
    ensures var k := OneTwo(items, pduLen) + |Ces(items[..i])|;
            k < |WireList(items, pduLen)| && WireList(items, pduLen)[k] == items[i]
            && |Ces(items[..i + 1])| == |Ces(items[..i])| + 1
            && (LastFlag(items, pduLen, k) <==> Sdus(items) == [] && pduLen - Charge(items) <= 2 && i == |items| - 1)
  {
    hide *;
    CesUpTo(items, i);
    CesUpTo(items, i + 1);
    var j := |Ces(items[..i])|;
    assert Ces(items[..i + 1])[j] == items[i];
    WireListAt(items, pduLen, j);
  }

  /** The place of the j-th of the control elements and SDUs. */
  lemma WireListAt(items: seq<Item>, pduLen: nat, j: nat)
    requires Charge(items) <= pduLen && j < |items|
    ensures |Ces(items)| + |Sdus(items)| == |items|
    ensures var k := OneTwo(items, pduLen) + j;
            k < |WireList(items, pduLen)|
            && WireList(items, pduLen)[k] == (if j < |Ces(items)| then Ces(items)[j] else Sdus(items)[j - |Ces(items)|])
            && (LastFlag(items, pduLen, k) <==> pduLen - Charge(items) <= 2 && j == |items| - 1)
  {
    hide Ces, Sdus, Charge;
    FilterCount(items);
    WireListSize(items, pduLen);
  }

  lemma WireListSize(items: seq<Item>, pduLen: nat)
    requires Charge(items) <= pduLen
    ensures |WireList(items, pduLen)| == OneTwo(items, pduLen) + |items| + (if pduLen - Charge(items) > 2 then 1 else 0)
  {
    hide Ces, Sdus, Charge;
    CesUpTo(items, 0);
  }

  lemma {:induction false} LastSduCount(items: seq<Item>, i: nat)
    requires i < |items| && items[i].Sdu?
    ensures |Sdus(items[..i])| + 1 == |Sdus(items)| <==> (forall j :: i < j < |items| ==> items[j].Ce?)
    decreases |items|
  {
    hide *;
    var n := |items| - 1;
    var init := items[..n];
    FilterStep(items);
    if i < n {
      LastSduCount(init, i);
      assert init[..i] == items[..i];
      FilterTake(init, i);
      FilterPrefix(init, i + 1);
      assert forall j :: i < j < n ==> init[j] == items[j];
    }
  }

  /** An SDU is found behind the padding, all control elements and the SDUs before it. */
  lemma SduPlace(items: seq<Item>, pduLen: nat, i: nat)
    requires Charge(items) <= pduLen && i < |items| && items[i].Sdu?
    ensures var k := OneTwo(items, pduLen) + |Ces(items)| + |Sdus(items[..i])|;
            k < |WireList(items, pduLen)| && WireList(items, pduLen)[k] == items[i]
            && |Sdus(items[..i + 1])| == |Sdus(items[..i])| + 1
            && (LastFlag(items, pduLen, k) <==> pduLen - Charge(items) <= 2 && forall j :: i < j < |items| ==> items[j].Ce?)
  {
    hide *;
    CesUpTo(items, i);
    CesUpTo(items, i + 1);
    var j := |Sdus(items[..i])|;
    assert Sdus(items[..i + 1])[j] == items[i];
    WireListAt(items, pduLen, |Ces(items)| + j);
    LastSduCount(items, i);
  }

  lemma PadPlace(items: seq<Item>, pduLen: nat, k: nat)
    requires Charge(items) <= pduLen && k < OneTwo(items, pduLen)
    ensures k < |WireList(items, pduLen)| && WireList(items, pduLen)[k] == Ce(PADDING, [])
    ensures LastFlag(items, pduLen, k) <==> pduLen <= OneTwo(items, pduLen)
  {
    hide Ces, Sdus;
    WireListSize(items, pduLen);
    ChargeOfSome(items);
    assert WireList(items, pduLen)[k] == Pads(OneTwo(items, pduLen))[k];
  }

  lemma ChargeOfSome(items: seq<Item>)
    ensures Charge(items) == 0 <==> items == []
  {
    SavedBound(Sdus(items));
    FullSplits(items);
    if items != [] {
      WireNotEmpty(items);
      SavedBound(Ces(items));
    }
  }

  lemma MultiPlace(items: seq<Item>, pduLen: nat)
    requires Charge(items) <= pduLen && pduLen - Charge(items) > 2
    ensures var k := |items|;
            k < |WireList(items, pduLen)| && WireList(items, pduLen)[k] == Ce(PADDING, ZeroBytes(PadSize(items, pduLen)))
            && LastFlag(items, pduLen, k)
  {
    hide Ces, Sdus, Charge;
    CesUpTo(items, 0);
  }

  lemma PayloadsOfWire(items: seq<Item>, pduLen: nat)
    requires Charge(items) <= pduLen
    ensures Payloads(WireList(items, pduLen)) == Payloads(Ces(items)) + Payloads(Sdus(items)) + ZeroBytes(PadSize(items, pduLen))
  {
    hide Ces, Sdus, Charge;
    var w := Ces(items) + Sdus(items);
    FullConcat(Ces(items), Sdus(items));
    if pduLen - Charge(items) > 2 {
      FullConcat(w, [Ce(PADDING, ZeroBytes(PadSize(items, pduLen)))]);
      FullOfOne(Ce(PADDING, ZeroBytes(PadSize(items, pduLen))));
    } else {
      PadsFacts(OneTwo(items, pduLen));
      FullConcat(Pads(OneTwo(items, pduLen)), w);
      assert [] + Payloads(w) == Payloads(w);
      assert ZeroBytes(0) == [];
    }
  }

  lemma FullOfOne(it: Item)
    ensures Full([it]) == HeaderSize(it, false) + Size(it) && Payloads([it]) == it.payload
  {
    assert [it][1..] == [];
  }

  // --- the size of the headers ---

  /** The bytes of all subheaders when each is written in full, as the writer adds them up. */
  function HeaderSum(items: seq<Item>): nat {
    if items == [] then 0 else HeaderSum(items[..|items| - 1]) + HeaderSize(items[|items| - 1], false)
  }

  lemma {:induction false} HeaderSumFull(items: seq<Item>)
    ensures HeaderSum(items) + |Payloads(Ces(items))| + |Payloads(Sdus(items))| == Full(items)
  {
    if items == [] {
    } else {
      hide *;
      var init, last := items[..|items| - 1], items[|items| - 1];
      HeaderSumFull(init);
      LastApart(items, init, last);
      FullConcat(init, [last]);
      FullOfOne(last);
      FullConcat(Ces(init), [last]);
      FullConcat(Sdus(init), [last]);
    }
  }

  lemma LastApart(items: seq<Item>, init: seq<Item>, last: Item)
    requires items != [] && init == items[..|items| - 1] && last == items[|items| - 1]
    ensures items == init + [last] && HeaderSum(items) == HeaderSum(init) + HeaderSize(last, false)
    ensures Ces(items) == if last.Ce? then Ces(init) + [last] else Ces(init)
    ensures Sdus(items) == if last.Sdu? then Sdus(init) + [last] else Sdus(init)
    ensures Size(last) == |last.payload|
  {
  }

  /** The size the writer computes for the headers is the size of the headers. */
  lemma WireHeadersSize(items: seq<Item>, pduLen: nat)
    requires Charge(items) <= pduLen
    ensures |WireHeaders(items, pduLen)| ==
            if pduLen - Charge(items) > 2 then HeaderSum(items) + 1
            else OneTwo(items, pduLen) + HeaderSum(items) - Saved(Sdus(items))
    ensures Saved(Sdus(items)) <= HeaderSum(items)
  {
    hide Ces, Sdus, HeaderSum, Payloads, WireHeaders, WireList;
    WireHasPduLength(items, pduLen);
    PayloadsOfWire(items, pduLen);
    HeaderSumFull(items);
    SavedBound(Sdus(items));
    FullSplits(items);
    SavedInHeaders(items);
  }

  lemma {:induction false} SavedInHeaders(items: seq<Item>)
    ensures Saved(Sdus(items)) <= HeaderSum(items)
  {
    if items != [] {
      SavedInHeaders(items[..|items| - 1]);
    }
  }

  // --- reading ---

  /** A subheader as read: its extension bit and the size it gives, and the bytes it takes. */
  datatype Head = Head(lcid: nat, nofBytes: nat, extended: bool, length: nat)

  function ReadHead(m: seq<byte>, at: nat, ul: bool): (h: Head)
    requires at + 2 < |m|
    ensures 1 <= h.length <= 3
  {
    var extended := m[at] / 32 % 2 == 1;
    var lcid := m[at] % 32;
    if lcid < PHR_REPORT then
      if extended then
        if m[at + 1] / 128 % 2 == 1 then Head(lcid, (m[at + 1] as nat) % 128 * 256 + m[at + 2], extended, 3)
        else Head(lcid, m[at + 1] % 128, extended, 2)
      else Head(lcid, 0, extended, 1)
    else Head(lcid, SizeofCe(lcid, ul), extended, 1)
  }

  /** Whether reading stops behind a subheader: it is the last, the bytes are used up, or only
      one place is left in the table. */
  predicate Stops(h: Head, next: nat, k: nat, max: nat, pduLen: nat) {
    !h.extended || next >= pduLen || k + 2 >= max
  }

  /** The subheaders from a place on, as subheader number k; the table has max places. */
  function Heads(m: seq<byte>, pduLen: nat, ul: bool, max: nat, at: nat, k: nat): (hs: seq<Head>)
    requires pduLen + 3 <= |m| && at <= pduLen && k < max
    ensures 1 <= |hs| <= max - k
    decreases max - k
  {
    var h := ReadHead(m, at, ul);
    if Stops(h, at + h.length, k, max, pduLen) then [h]
    else [h] + Heads(m, pduLen, ul, max, at + h.length, k + 1)
  }

  function HeadsLength(hs: seq<Head>): nat {
    if hs == [] then 0 else hs[0].length + HeadsLength(hs[1..])
  }

  /** The last subheader announces another one behind the end of the PDU. */
  predicate Corrupted(hs: seq<Head>, pduLen: nat) {
    hs != [] && hs[|hs| - 1].extended && HeadsLength(hs) >= pduLen
  }

  /** What the reader knows of a subheader: identifier, payload size and payload place. */
  datatype Received = Received(lcid: nat, nofBytes: nat, at: nat)

  function Placed(hs: seq<Head>, at: nat): (r: seq<Received>)
    ensures |r| == |hs|
  {
    if hs == [] then [] else [Received(hs[0].lcid, hs[0].nofBytes, at)] + Placed(hs[1..], at + hs[0].nofBytes)
  }

  function SizePlusHeader(r: Received): nat {
    if r.lcid < PHR_REPORT then SizeHeaderSdu(r.nofBytes) + r.nofBytes else 1 + r.nofBytes
  }

  function SumSizes(rs: seq<Received>): nat {
    if rs == [] then 0 else SumSizes(rs[..|rs| - 1]) + SizePlusHeader(rs[|rs| - 1])
  }

  /** The subheaders with their payloads, before the size of the last one is corrected. */
  function ParseBase(m: seq<byte>, pduLen: nat, ul: bool, max: nat): seq<Received>
    requires pduLen + 3 <= |m|
  {
    if max == 0 then []
    else
      var hs := Heads(m, pduLen, ul, max, 0, 0);
      if Corrupted(hs, pduLen) then [] else Placed(hs, HeadsLength(hs))
  }

  /** The last subheader gets what the PDU length leaves; when nothing is left the PDU is dropped. */
  function Corrected(rs: seq<Received>, pduLen: nat): seq<Received> {
    if rs == [] then []
    else
      var n := |rs| - 1;
      var readLen := SumSizes(rs[..n]);
      if readLen + 1 <= pduLen then rs[..n] + [rs[n].(nofBytes := pduLen - readLen - 1)] else []
  }

  /** What parse_packet makes of the bytes of a PDU. */
  function Parse(m: seq<byte>, pduLen: nat, ul: bool, max: nat): seq<Received>
    requires pduLen + 3 <= |m|
  {
    Corrected(ParseBase(m, pduLen, ul, max), pduLen)
  }

  /** The number of subheaders a table of max places can take from one PDU. */
  function Capacity(max: nat): nat {
    if max <= 1 then max else max - 1
  }

  // --- reading what was written ---

  /** An SDU of a logical channel below 32768 bytes, or a control element of the size that its
      identifier and the direction say. */
  predicate Regular(it: Item, ul: bool) {
    match it
    case Sdu(lcid, payload) => lcid < PHR_REPORT && |payload| < 32768
    case Ce(lcid, payload) => PHR_REPORT <= lcid < 32 && |payload| == SizeofCe(lcid, ul)
  }

  /** An item that can be last: then its size is not read from the subheader. */
  predicate RegularLast(it: Item, ul: bool) {
    Regular(it, ul) || (it.Ce? && it.lcid == PADDING) || (it.Sdu? && it.lcid < PHR_REPORT)
  }

  predicate RegularList(w: seq<Item>, ul: bool) {
    w != [] && (forall i :: 0 <= i < |w| - 1 ==> Regular(w[i], ul)) && RegularLast(w[|w| - 1], ul)
  }

  /** The head that the reader finds for an item. */
  function HeadOf(it: Item, last: bool, ul: bool): Head {
    if it.Ce? then Head(it.lcid, SizeofCe(it.lcid, ul), !last, 1)
    else if last then Head(it.lcid, 0, false, 1)
    else Head(it.lcid, Size(it), true, SizeHeaderSdu(Size(it)))
  }

  lemma FirstByteReads(last: bool, lcid: nat)
    requires lcid < 32
    ensures var b: int := (if last then 0 else 32) + lcid % 32;
            b % 32 == lcid && (b / 32 % 2 == 1) == !last
  {
  }

  lemma LengthReads(n: nat)
    requires n < 32768
    ensures n >= 128 ==> LengthField(n)[0] / 128 % 2 == 1 && (LengthField(n)[0] as nat) % 128 * 256 + LengthField(n)[1] as nat == n
    ensures n < 128 ==> LengthField(n)[0] / 128 % 2 == 0 && LengthField(n)[0] % 128 == n
  {
    var q, r := n / 256, n % 256;
    assert n == 256 * q + r && q < 128;
    LongLength(q);
  }

  lemma LongLength(q: nat)
    requires q < 128
    ensures q % 128 == q && (128 + q) / 128 % 2 == 1 && (128 + q) % 128 == q && q / 128 == 0
  {
  }

  lemma ReadHeadOf(m: seq<byte>, at: nat, it: Item, last: bool, ul: bool)
    requires at + 2 < |m| && Holds(m, at, HeaderBytes(it, last))
    requires if last then RegularLast(it, ul) else Regular(it, ul)
    ensures ReadHead(m, at, ul) == HeadOf(it, last, ul)
    ensures HeadOf(it, last, ul).length == HeaderSize(it, last)
  {
    HoldsBytes(m, at, HeaderBytes(it, last));
    var b := HeaderBytes(it, last);
    FirstByteReads(last, it.lcid);
    assert m[at + 0] == b[0];
    if it.Sdu? && !last {
      LengthReads(Size(it));
      assert m[at + 1] == b[1] == LengthField(Size(it))[0];
      if Size(it) >= 128 {
        assert m[at + 2] == b[2] == LengthField(Size(it))[1];
      }
    }
  }

  function HeadsOf(w: seq<Item>, ul: bool): (hs: seq<Head>)
    ensures |hs| == |w|
  {
    if w == [] then [] else [HeadOf(w[0], |w| == 1, ul)] + HeadsOf(w[1..], ul)
  }

  lemma HeadsStep(m: seq<byte>, pduLen: nat, ul: bool, max: nat, at: nat, k: nat)
    requires pduLen + 3 <= |m| && at <= pduLen && k < max
    ensures var h := ReadHead(m, at, ul);
            if Stops(h, at + h.length, k, max, pduLen) then Heads(m, pduLen, ul, max, at, k) == [h]
            else k + 1 < max && at + h.length <= pduLen
                 && Heads(m, pduLen, ul, max, at, k) == [h] + Heads(m, pduLen, ul, max, at + h.length, k + 1)
  {
    hide ReadHead;
  }

  lemma HeadersStep(w: seq<Item>)
    requires w != []
    ensures Headers(w) == HeaderBytes(w[0], |w| == 1) + Headers(w[1..])
    ensures |w| > 1 ==> |Headers(w[1..])| >= 1
  {
    if |w| > 1 {
      assert |HeaderBytes(w[1..][0], |w[1..]| == 1)| >= 1;
    }
  }

  lemma HeadOfExtended(it: Item, last: bool, ul: bool)
    ensures HeadOf(it, last, ul).extended == !last && HeadOf(it, last, ul).length == HeaderSize(it, last)
  {
  }

  /** Written subheaders are read back in order, as many as the table takes; when the table
      takes them all the bytes read are the bytes written. */
  lemma {:induction false} HeadsRead(m: seq<byte>, pduLen: nat, ul: bool, max: nat, at: nat, k: nat, w: seq<Item>)
    requires pduLen + 3 <= |m| && k < max && RegularList(w, ul)
    requires Holds(m, at, Headers(w)) && at + |Headers(w)| <= pduLen
    ensures k + |w| <= Capacity(max) || |w| == 1 ==>
              Heads(m, pduLen, ul, max, at, k) == HeadsOf(w, ul) && HeadsLength(HeadsOf(w, ul)) == |Headers(w)|
    ensures !(k + |w| <= Capacity(max) || |w| == 1) ==> |Heads(m, pduLen, ul, max, at, k)| < |w|
    decreases |w|
  {
    hide Heads, Holds, ReadHead, Headers, HeadOf, HeaderBytes, HeaderSize, Regular, RegularLast;
    var it := w[0];
    var last := |w| == 1;
    HeadersStep(w);
    HoldsSplit(m, at, HeaderBytes(it, last), Headers(w[1..]));
    HeadOfExtended(it, last, ul);
    ReadHeadOf(m, at, it, last, ul);
    HeadsStep(m, pduLen, ul, max, at, k);
    if last {
      assert w[1..] == [];
      assert HeadsOf(w[1..], ul) == [];
      assert HeadsOf(w, ul)[1..] == [];
      HeadersNothing();
    } else {
      RegularTail(w, ul);
      var h := HeadOf(it, last, ul);
      if k + 2 < max {
        HeadsRead(m, pduLen, ul, max, at + h.length, k + 1, w[1..]);
        assert HeadsOf(w, ul)[1..] == HeadsOf(w[1..], ul);
      }
    }
  }

  lemma HeadersNothing()
    ensures Headers([]) == []
  {
  }

  lemma RegularTail(w: seq<Item>, ul: bool)
    requires RegularList(w, ul) && |w| > 1
    ensures RegularList(w[1..], ul)
  {
    hide Regular, RegularLast;
    var t := w[1..];
    forall i | 0 <= i < |t| - 1
      ensures Regular(t[i], ul)
    {
      assert t[i] == w[i + 1];
    }
    assert t[|t| - 1] == w[|w| - 1];
  }

  /** What the receiver should find: every item with its size, its payload behind the headers. */
  function Expected(w: seq<Item>, at: nat): (r: seq<Received>)
    ensures |r| == |w|
  {
    if w == [] then [] else [Received(w[0].lcid, Size(w[0]), at)] + Expected(w[1..], at + Size(w[0]))
  }

  lemma HeadOfSize(it: Item, ul: bool)
    requires Regular(it, ul)
    ensures HeadOf(it, false, ul).nofBytes == Size(it) && HeadOf(it, false, ul).lcid == it.lcid
  {
  }

  /** Before the correction only the size of the last subheader may differ. */
  lemma {:induction false} PlacedMatches(w: seq<Item>, ul: bool, at: nat)
    requires RegularList(w, ul)
    ensures var r, e := Placed(HeadsOf(w, ul), at), Expected(w, at);
            |r| == |e| == |w| && r[..|w| - 1] == e[..|w| - 1]
            && r[|w| - 1].lcid == e[|w| - 1].lcid && r[|w| - 1].at == e[|w| - 1].at
    decreases |w|
  {
    hide HeadOf, Regular, RegularLast;
    var it := w[0];
    var r, e := Placed(HeadsOf(w, ul), at), Expected(w, at);
    assert HeadsOf(w, ul)[1..] == HeadsOf(w[1..], ul);
    if |w| == 1 {
      HeadOfLcid(it, true, ul);
    } else {
      RegularTail(w, ul);
      HeadOfSize(it, ul);
      PlacedMatches(w[1..], ul, at + Size(it));
      var r1, e1 := Placed(HeadsOf(w[1..], ul), at + Size(it)), Expected(w[1..], at + Size(it));
      assert r == [Received(it.lcid, Size(it), at)] + r1 && e == [Received(it.lcid, Size(it), at)] + e1;
      assert r[..|w| - 1] == [Received(it.lcid, Size(it), at)] + r1[..|w| - 2];
      assert e[..|w| - 1] == [Received(it.lcid, Size(it), at)] + e1[..|w| - 2];
    }
  }

  lemma HeadOfLcid(it: Item, last: bool, ul: bool)
    ensures HeadOf(it, last, ul).lcid == it.lcid
  {
  }

  lemma {:induction false} SumSizesConcat(a: seq<Received>, b: seq<Received>)
    ensures SumSizes(a + b) == SumSizes(a) + SumSizes(b)
    decreases |b|
  {
    hide SizePlusHeader;
    if b == [] {
      assert a + b == a;
    } else {
      assert (a + b)[..|a + b| - 1] == a + b[..|b| - 1];
      SumSizesConcat(a, b[..|b| - 1]);
    }
  }

  /** What the reader counts for the subheaders before the last is what they took. */
  lemma {:induction false} SumOfExpected(w: seq<Item>, ul: bool, at: nat)
    requires RegularList(w, ul)
    ensures SumSizes(Expected(w, at)[..|w| - 1]) + HeaderSize(w[|w| - 1], true) + Size(w[|w| - 1]) == Full(w) - Saved(w)
    decreases |w|
  {
    hide Regular, RegularLast, SizePlusHeader, HeaderSize;
    var it := w[0];
    var e := Expected(w, at);
    if |w| == 1 {
      LastHeaderSize(it);
      assert w[1..] == [] && e[..0] == [];
    } else {
      RegularTail(w, ul);
      SumOfExpected(w[1..], ul, at + Size(it));
      var e1 := Expected(w[1..], at + Size(it));
      var r := Received(it.lcid, Size(it), at);
      assert e[..|w| - 1] == [r] + e1[..|w| - 2];
      SumSizesConcat([r], e1[..|w| - 2]);
      SumOfOne(r);
      SizeOfRegular(it, ul, at);
      assert w[1..][|w[1..]| - 1] == w[|w| - 1];
    }
  }

  lemma SumOfOne(r: Received)
    ensures SumSizes([r]) == SizePlusHeader(r)
  {
    assert [r][..0] == [];
  }

  lemma SizeOfRegular(it: Item, ul: bool, at: nat)
    requires Regular(it, ul)
    ensures SizePlusHeader(Received(it.lcid, Size(it), at)) == HeaderSize(it, false) + Size(it)
  {
  }

  lemma HeadsNotCorrupted(w: seq<Item>, ul: bool, pduLen: nat)
    requires w != []
    ensures !Corrupted(HeadsOf(w, ul), pduLen)
  {
    LastHead(w, ul);
  }

  lemma {:induction false} LastHead(w: seq<Item>, ul: bool)
    requires w != []
    ensures !HeadsOf(w, ul)[|w| - 1].extended
    decreases |w|
  {
    hide HeadOf;
    HeadOfExtended(w[0], |w| == 1, ul);
    if |w| > 1 {
      LastHead(w[1..], ul);
    }
  }

  /** The bytes of a list of subheaders and their payloads are parsed back to the list, with the
      size of the last one restored from the PDU length, exactly when the table has room. */
  lemma ParseWritten(m: seq<byte>, w: seq<Item>, ul: bool, max: nat)
    requires RegularList(w, ul) && Holds(m, 0, Headers(w) + Payloads(w))
    requires |Headers(w)| + |Payloads(w)| + 3 <= |m|
    ensures Parse(m, |Headers(w)| + |Payloads(w)|, ul, max) == Expected(w, |Headers(w)|) <==> |w| <= Capacity(max)
  {
    hide Heads, Holds, Headers, Payloads, HeadsOf, Regular, RegularLast, Expected, Placed, SumSizes, Full, Corrupted, HeadsLength;
    var n := |Headers(w)| + |Payloads(w)|;
    HoldsSplit(m, 0, Headers(w), Payloads(w));
    if max == 0 {
      assert Parse(m, n, ul, max) == [];
    } else {
      HeadsRead(m, n, ul, max, 0, 0, w);
      if |w| <= Capacity(max) {
        HeadsNotCorrupted(w, ul, n);
        PlacedMatches(w, ul, |Headers(w)|);
        SumOfExpected(w, ul, |Headers(w)|);
        WireLength(w);
        LastHeaderSize(w[|w| - 1]);
        ExpectedLast(w, |Headers(w)|);
        var r, e := Placed(HeadsOf(w, ul), |Headers(w)|), Expected(w, |Headers(w)|);
        assert r[|w| - 1].(nofBytes := Size(w[|w| - 1])) == e[|w| - 1];
        assert e == e[..|w| - 1] + [e[|w| - 1]];
      } else {
        assert |w| > 1;
        assert |Parse(m, n, ul, max)| < |w|;
      }
    }
  }

  lemma {:induction false} ExpectedLast(w: seq<Item>, at: nat)
    requires w != []
    ensures Expected(w, at)[|w| - 1].nofBytes == Size(w[|w| - 1])
    decreases |w|
  {
    if |w| > 1 {
      ExpectedLast(w[1..], at + Size(w[0]));
      assert w[1..][|w[1..]| - 1] == w[|w| - 1];
    }
  }

  /** The payloads are where the receiver's subheaders point. */
  lemma {:induction false} PayloadsInPlace(m: seq<byte>, w: seq<Item>, at: nat, i: nat)
    requires Holds(m, at, Payloads(w)) && i < |w|
    ensures var r := Expected(w, at)[i];
            r.lcid == w[i].lcid && r.nofBytes == Size(w[i]) && Holds(m, r.at, w[i].payload)
    decreases |w|
  {
    hide Holds;
    HoldsSplit(m, at, w[0].payload, Payloads(w[1..]));
    if i > 0 {
      PayloadsInPlace(m, w[1..], at + Size(w[0]), i - 1);
      assert w[i] == w[1..][i - 1];
    }
  }

  // --- a whole PDU ---

  predicate RegularItems(items: seq<Item>, ul: bool) {
    forall it :: it in items ==> Regular(it, ul)
  }

  lemma WireListRegular(items: seq<Item>, pduLen: nat, ul: bool)
    requires Charge(items) <= pduLen && RegularItems(items, ul) && items != []
    ensures RegularList(WireList(items, pduLen), ul)
  {
    hide Regular, Ces, Sdus;
    var rem := pduLen - Charge(items);
    var w := Ces(items) + Sdus(items);
    var v := WireList(items, pduLen);
    PadIsRegular(ul);
    WireNotEmpty(items);
    forall i | 0 <= i < |w|
      ensures Regular(w[i], ul)
    {
      assert w[i] in Ces(items) || w[i] in Sdus(items);
    }
    if rem > 2 {
      assert forall i :: 0 <= i < |v| - 1 ==> v[i] == w[i];
    } else {
      forall i | 0 <= i < |v|
        ensures Regular(v[i], ul)
      {
        if i < rem {
          assert v[i] == Pads(rem)[i];
        } else {
          assert v[i] == w[i - rem];
        }
      }
    }
  }

  lemma PadIsRegular(ul: bool)
    ensures Regular(Ce(PADDING, []), ul)
  {
  }

  lemma WireNotEmpty(items: seq<Item>)
    requires items != []
    ensures Ces(items) + Sdus(items) != []
  {
    var last := items[|items| - 1];
    assert last in Ces(items) + Sdus(items);
  }

  /** A written PDU with at least one item parses back to its padding, control elements and SDUs
      in wire order, each with its identifier, size and place, exactly when the table of the
      reader has room for the subheaders; the bytes behind the PDU do not matter. */
  lemma PduParsesBack(items: seq<Item>, pduLen: nat, ul: bool, max: nat, tail: seq<byte>)
    requires Charge(items) <= pduLen && RegularItems(items, ul) && items != [] && |tail| >= 3
    ensures |Wire(items, pduLen)| == pduLen
    ensures var w := WireList(items, pduLen);
            Parse(Wire(items, pduLen) + tail, pduLen, ul, max) == Expected(w, |Headers(w)|) <==> |w| <= Capacity(max)
  {
    hide Parse, Expected, RegularList, WireList, Headers, Payloads, Charge, RegularItems;
    var w := WireList(items, pduLen);
    WireHasPduLength(items, pduLen);
    WireListRegular(items, pduLen, ul);
    WireIs(items, pduLen);
    var m := Wire(items, pduLen) + tail;
    assert m[..pduLen] == Wire(items, pduLen);
    assert m[0..0 + pduLen] == Headers(w) + Payloads(w);
    ParseWritten(m, w, ul, max);
  }

  lemma WireIs(items: seq<Item>, pduLen: nat)
    requires Charge(items) <= pduLen && items != []
    ensures Wire(items, pduLen) == Headers(WireList(items, pduLen)) + Payloads(WireList(items, pduLen))
  {
    hide WireList, Headers, Payloads;
  }

  /** The receiver also finds every payload, bit for bit. */
  lemma PduPayloads(items: seq<Item>, pduLen: nat, tail: seq<byte>, i: nat)
    requires Charge(items) <= pduLen && items != [] && i < |WireList(items, pduLen)|
    ensures var w := WireList(items, pduLen);
            var r := Expected(w, |Headers(w)|)[i];
            r.lcid == w[i].lcid && r.nofBytes == Size(w[i]) && Holds(Wire(items, pduLen) + tail, r.at, w[i].payload)
  {
    hide Expected, WireList, Headers, Payloads, Charge, Holds;
    var w := WireList(items, pduLen);
    WireIs(items, pduLen);
    var m := Wire(items, pduLen) + tail;
    HoldsStart(Headers(w) + Payloads(w), tail);
    HoldsSplit(m, 0, Headers(w), Payloads(w));
    PayloadsInPlace(m, w, |Headers(w)|, i);
  }
}
