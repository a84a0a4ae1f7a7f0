/** Open types of PER: packed content behind a length determinant. */
module OpenTypes {
  import opened Bits
  import opened BitRefs
  import opened PerSpec
  import opened PerCodec
  import opened PerStrings
  import opened ExtGroups

  // Content is packed into a scratch buffer of its own, padded to octets and copied behind its
  // length; the unpacking guard skips what was not read. A message is a sequence of fields, octet
  // strings, bit strings, extension group flags and open types nested to any depth.

  const SCRATCH_OCTETS: nat := 1024

  datatype Content =
    | Field(item: Item)
    | OctetString(octets: seq<byte>)
    | BitString(octets: seq<byte>, size: nat)
    | Groups(flags: seq<bool>, supported: nat)
    | Open(inner: seq<Content>)

  /** What a decoder knows beforehand: the declared shapes, not the values. */
  datatype Form =
    | FieldForm(shape: Shape)
    | OctetStringForm
    | BitStringForm(size: nat)
    | GroupsForm(supported: nat)
    | OpenForm(inner: seq<Form>)

  function FormOf(c: Content): Form {
    match c
    case Field(i) => FieldForm(i.shape)
    case OctetString(_) => OctetStringForm
    case BitString(_, n) => BitStringForm(n)
    case Groups(_, supported) => GroupsForm(supported)
    case Open(inner) => OpenForm(FormsOf(inner))
  }

  function FormsOf(cs: seq<Content>): seq<Form> {
    if cs == [] then [] else [FormOf(cs[0])] + FormsOf(cs[1..])
  }

  ghost predicate ValidForm(f: Form) {
    match f
    case FieldForm(s) => ValidShape(s)
    case OctetStringForm => true
    case BitStringForm(n) => 0 < n
    case GroupsForm(_) => true
    case OpenForm(inner) => ValidForms(inner)
  }

  ghost predicate ValidForms(fs: seq<Form>) {
    fs == [] || (ValidForm(fs[0]) && ValidForms(fs[1..]))
  }

  /** Every field has an encoding, octet strings are shorter than 16K, bit strings have clear
      unused bits, and every open type's content fits the scratch buffer. */
  ghost predicate Packable(c: Content, aligned: bool)
    decreases c, 1
  {
    match c
    case Field(i) => ValidItem(i) && Encodable(i.shape, i.val)
    case OctetString(octets) => |octets| < ASN_16K
    case BitString(octets, n) => Canonical(octets, n)
    case Groups(flags, supported) => Sendable(flags, supported)
    case Open(inner) => AllPackable(inner, aligned) && EndContents(inner, aligned, 0) <= 8 * SCRATCH_OCTETS
  }

  ghost predicate AllPackable(cs: seq<Content>, aligned: bool)
    decreases cs, 0
  {
    cs == [] || (Packable(cs[0], aligned) && AllPackable(cs[1..], aligned))
  }

  /** Where content packed from bit p on ends. */
  ghost function EndContent(c: Content, aligned: bool, p: nat): (q: nat)
    requires Packable(c, aligned)
    ensures q >= p
    decreases c, 2
  {
    match c
    case Field(i) => End(i.shape, i.val, aligned, p)
    case OctetString(octets) => EndOctets(octets, aligned, p)
    case BitString(_, n) => p + n
    case Groups(flags, _) => p + 7 + NofGroups(flags)
    case Open(inner) =>
      var n := Octets(EndContents(inner, aligned, 0));
      End(Length, n, aligned, p) + 8 * n
  }

  ghost function EndContents(cs: seq<Content>, aligned: bool, p: nat): (q: nat)
    requires AllPackable(cs, aligned)
    ensures q >= p
    decreases cs, 1
  {
    if cs == [] then p else EndContents(cs[1..], aligned, EndContent(cs[0], aligned, p))
  }

  function Octets(n: nat): nat {
    (n + 7) / 8
  }

  // ------------------------------------------------------------ decoding

  datatype Got = Got(content: Content, next: nat) | NoContent
  datatype GotAll = GotAll(contents: seq<Content>, next: nat) | NoContents

  /** What a decoder takes from memory at p. Leaving an open type skips at most 32 bits. */
  ghost function ReadContent(f: Form, aligned: bool, mem: seq<bool>, limit: nat, p: nat): (g: Got)
    requires limit <= |mem| && WellFormed(f)
    ensures g.Got? ==> p <= g.next && (p <= limit ==> g.next <= limit)
    decreases f, 1
  {
    match f
    case FieldForm(s) =>
      var d := Read(s, aligned, mem, limit, p);
      if d.Decoded? then Got(Field(Item(s, d.val)), d.next) else NoContent
    case OctetStringForm =>
      var g := ReadOctetString(aligned, mem, limit, p);
      if g.GotOctets? then Got(OctetString(g.octets), g.next) else NoContent
    case BitStringForm(n) =>
      var g := ReadBitString(n, mem, limit, p);
      if g.GotOctets? then Got(BitString(g.octets, n), g.next) else NoContent
    case GroupsForm(supported) =>
      var g := ReadGroups(supported, mem, limit, p);
      if g.GotFlags? then Got(Groups(g.groups, supported), g.next) else NoContent
    case OpenForm(inner) =>
      var d := ReadLength(aligned, mem, limit, p);
      if d.Malformed? then NoContent
      else
        var g := ReadContents(inner, aligned, mem, limit, d.next);
        if g.NoContents? then NoContent else Leave(g, d.next, d.val, limit)
  }

  /** The end of an open type of n octets that began at q. */
  function Leave(g: GotAll, q: nat, n: nat, limit: nat): (r: Got)
    requires g.GotAll?
    ensures r.Got? ==> r.next == q + 8 * n <= limit && g.next <= r.next
  {
    if g.next <= q + 8 * n <= limit && q + 8 * n - g.next <= 32
    then Got(Open(g.contents), q + 8 * n)
    else NoContent
  }

  ghost function ReadContents(fs: seq<Form>, aligned: bool, mem: seq<bool>, limit: nat, p: nat): (g: GotAll)
    requires limit <= |mem| && AllWellFormed(fs)
    ensures g.GotAll? ==> p <= g.next && (p <= limit ==> g.next <= limit)
    decreases fs, 0
  {
    if fs == [] then GotAll([], p)
    else
      var h := ReadContent(fs[0], aligned, mem, limit, p);
      if h.NoContent? then NoContents
      else
        var t := ReadContents(fs[1..], aligned, mem, limit, h.next);
        if t.NoContents? then NoContents else GotAll([h.content] + t.contents, t.next)
  }

  /** Declarations the reader can be run on at all: no enumeration without root options. */
  predicate WellFormed(f: Form) {
    match f
    case FieldForm(s) => s.Enumerated? ==> NofNoext(s) > 0
    case OctetStringForm => true
    case BitStringForm(n) => 0 < n
    case GroupsForm(_) => true
    case OpenForm(inner) => AllWellFormed(inner)
  }

  predicate AllWellFormed(fs: seq<Form>) {
    fs == [] || (WellFormed(fs[0]) && AllWellFormed(fs[1..]))
  }

  lemma {:induction false} PackableForm(c: Content, aligned: bool)
    requires Packable(c, aligned)
    ensures ValidForm(FormOf(c))
    decreases c, 1
  {
    if c.Open? { PackableForms(c.inner, aligned); }
  }

  lemma {:induction false} PackableForms(cs: seq<Content>, aligned: bool)
    requires AllPackable(cs, aligned)
    ensures ValidForms(FormsOf(cs))
    decreases cs, 0
  {
    if cs != [] {
      PackableForm(cs[0], aligned);
      PackableForms(cs[1..], aligned);
      assert FormsOf(cs)[1..] == FormsOf(cs[1..]);
    }
  }

  lemma {:induction false} ValidFormWellFormed(f: Form)
    requires ValidForm(f)
    ensures WellFormed(f)
    decreases f, 1
  {
    if f.OpenForm? { ValidFormsWellFormed(f.inner); }
  }

  lemma {:induction false} ValidFormsWellFormed(fs: seq<Form>)
    requires ValidForms(fs)
    ensures AllWellFormed(fs)
    decreases fs, 0
  {
    if fs != [] {
      ValidFormWellFormed(fs[0]);
      ValidFormsWellFormed(fs[1..]);
    }
  }

  /** Decoding content is local too: the same bits at another place, on the same side of the
      octet boundaries where those matter, give the same content. */
  lemma {:induction false} ContentRelocated(f: Form, aligned: bool, mem: seq<bool>, limit: nat, p: nat,
                                            other: seq<bool>, limit': nat, p': nat)
    requires limit <= |mem| && limit' <= |other| && WellFormed(f) && SamePhase(aligned, p, p')
    requires var g := ReadContent(f, aligned, mem, limit, p);
      g.Got? && p' + (g.next - p) <= limit' && SameBits(mem, p, other, p', g.next - p)
    ensures var g := ReadContent(f, aligned, mem, limit, p);
      ReadContent(f, aligned, other, limit', p') == Got(g.content, p' + (g.next - p))
    decreases f, 1
  {
    hide *;
    var g := ReadContent(f, aligned, mem, limit, p);
    var n := g.next - p;
    match f
    case FieldForm(s) =>
      ReadField(s, aligned, mem, limit, p);
      ReadField(s, aligned, other, limit', p');
      ReadRelocated(s, aligned, mem, limit, p, other, limit', p');
    case OctetStringForm =>
      ReadStrings(f, aligned, mem, limit, p);
      ReadStrings(f, aligned, other, limit', p');
      OctetStringRelocated(aligned, mem, limit, p, other, limit', p');
    case BitStringForm(size) =>
      ReadStrings(f, aligned, mem, limit, p);
      ReadStrings(f, aligned, other, limit', p');
      BitStringRelocated(size, mem, limit, p, other, limit', p');
    case GroupsForm(supported) =>
      ReadStrings(f, aligned, mem, limit, p);
      ReadStrings(f, aligned, other, limit', p');
      GroupsRelocated(supported, mem, limit, p, other, limit', p');
    case OpenForm(inner) =>
      ReadOpen(inner, aligned, mem, limit, p);
      ReadOpen(inner, aligned, other, limit', p');
      var d := ReadLength(aligned, mem, limit, p);
      var q := d.next;
      var gs := ReadContents(inner, aligned, mem, limit, q);
      var q' := p' + (q - p);
      assert ReadLength(aligned, other, limit', p') == Decoded(d.val, q') by {
        SameBitsSlice(mem, p, other, p', n, 0, q - p);
        LengthRelocated(aligned, mem, limit, p, other, limit', p');
      }
      assert ReadContents(inner, aligned, other, limit', q') == GotAll(gs.contents, q' + (gs.next - q)) by {
        PhaseShift(aligned, p, p', q - p);
        SameBitsSlice(mem, p, other, p', n, q - p, gs.next - q);
        ContentsRelocated(inner, aligned, mem, limit, q, other, limit', q');
      }
      LeaveShift(gs, q, q', d.val, limit, limit');
  }

  lemma ReadField(s: Shape, aligned: bool, mem: seq<bool>, limit: nat, p: nat)
    requires limit <= |mem| && WellFormed(FieldForm(s))
    ensures s.Enumerated? ==> NofNoext(s) > 0
    ensures var d := Read(s, aligned, mem, limit, p);
      ReadContent(FieldForm(s), aligned, mem, limit, p)
        == if d.Decoded? then Got(Field(Item(s, d.val)), d.next) else NoContent
  {
    hide Read;
  }

  /** The forms without parts. */
  lemma ReadStrings(f: Form, aligned: bool, mem: seq<bool>, limit: nat, p: nat)
    requires limit <= |mem| && WellFormed(f) && !f.FieldForm? && !f.OpenForm?
    ensures f.BitStringForm? ==> 0 < f.size
    ensures match f
            case OctetStringForm =>
              var g := ReadOctetString(aligned, mem, limit, p);
              ReadContent(f, aligned, mem, limit, p) == if g.GotOctets? then Got(OctetString(g.octets), g.next) else NoContent
            case BitStringForm(n) =>
              var g := ReadBitString(n, mem, limit, p);
              ReadContent(f, aligned, mem, limit, p) == if g.GotOctets? then Got(BitString(g.octets, n), g.next) else NoContent
            case GroupsForm(supported) =>
              var g := ReadGroups(supported, mem, limit, p);
              ReadContent(f, aligned, mem, limit, p) == if g.GotFlags? then Got(Groups(g.groups, supported), g.next) else NoContent
            case _ => true
  {
    hide ReadOctetString, ReadBitString, ReadGroups;
  }

  lemma ReadOpen(inner: seq<Form>, aligned: bool, mem: seq<bool>, limit: nat, p: nat)
    requires limit <= |mem| && WellFormed(OpenForm(inner))
    ensures AllWellFormed(inner)
    ensures var d := ReadLength(aligned, mem, limit, p);
      d.Decoded? ==> d.val >= 0
    ensures var d := ReadLength(aligned, mem, limit, p);
      var g := if d.Decoded? then ReadContents(inner, aligned, mem, limit, d.next) else NoContents;
      ReadContent(OpenForm(inner), aligned, mem, limit, p)
        == if g.GotAll? then Leave(g, d.next, d.val, limit) else NoContent
  {
    hide ReadLength;
  }

  lemma LeaveShift(g: GotAll, q: nat, q': nat, n: nat, limit: nat, limit': nat)
    requires g.GotAll? && q <= g.next
    requires var r := Leave(g, q, n, limit);
      r.Got? && q' + (r.next - q) <= limit'
    ensures var r := Leave(g, q, n, limit);
      Leave(GotAll(g.contents, q' + (g.next - q)), q', n, limit') == Got(r.content, q' + (r.next - q))
    ensures g.next <= Leave(g, q, n, limit).next
  {
  }

  lemma {:induction false} ContentsRelocated(fs: seq<Form>, aligned: bool, mem: seq<bool>, limit: nat, p: nat,
                                             other: seq<bool>, limit': nat, p': nat)
    requires limit <= |mem| && limit' <= |other| && AllWellFormed(fs) && SamePhase(aligned, p, p')
    requires var g := ReadContents(fs, aligned, mem, limit, p);
      g.GotAll? && p' + (g.next - p) <= limit' && SameBits(mem, p, other, p', g.next - p)
    ensures var g := ReadContents(fs, aligned, mem, limit, p);
      ReadContents(fs, aligned, other, limit', p') == GotAll(g.contents, p' + (g.next - p))
    decreases fs, 0
  {
    hide *;
    if fs == [] {
      ReadContentsNil(aligned, mem, limit, p);
      ReadContentsNil(aligned, other, limit', p');
    } else {
      ReadContentsCons(fs, aligned, mem, limit, p);
      var n := ReadContents(fs, aligned, mem, limit, p).next - p;
      var h := ReadContent(fs[0], aligned, mem, limit, p);
      var t := ReadContents(fs[1..], aligned, mem, limit, h.next);
      var k, q' := h.next - p, p' + (h.next - p);
      assert ReadContent(fs[0], aligned, other, limit', p') == Got(h.content, q') by {
        SameBitsSlice(mem, p, other, p', n, 0, k);
        ContentRelocated(fs[0], aligned, mem, limit, p, other, limit', p');
      }
      assert ReadContents(fs[1..], aligned, other, limit', q') == GotAll(t.contents, p' + n) by {
        PhaseShift(aligned, p, p', k);
        SameBitsSlice(mem, p, other, p', n, k, t.next - h.next);
        ContentsRelocated(fs[1..], aligned, mem, limit, h.next, other, limit', q');
      }
      ReadContentsCons(fs, aligned, other, limit', p');
    }
  }

  lemma ReadContentsNil(aligned: bool, mem: seq<bool>, limit: nat, p: nat)
    requires limit <= |mem|
    ensures ReadContents([], aligned, mem, limit, p) == GotAll([], p)
  {
  }

  /** Reading a sequence is reading its head, then the rest. */
  lemma ReadContentsCons(fs: seq<Form>, aligned: bool, mem: seq<bool>, limit: nat, p: nat)
    requires limit <= |mem| && AllWellFormed(fs) && fs != []
    ensures WellFormed(fs[0]) && AllWellFormed(fs[1..])
    ensures var h := ReadContent(fs[0], aligned, mem, limit, p);
      var t := if h.Got? then ReadContents(fs[1..], aligned, mem, limit, h.next) else NoContents;
      ReadContents(fs, aligned, mem, limit, p)
        == if t.GotAll? then GotAll([h.content] + t.contents, t.next) else NoContents
  {
  }

  // ------------------------------------------------------------ the guards

  /** What closing a packing guard leaves in memory: at p a length determinant of n octets,
      behind it at q the d scratch bits and clear bits up to the octet. */
  ghost predicate Enclosed(aligned: bool, scratch: seq<bool>, d: nat, mem: seq<bool>, limit: nat, p: nat, q: nat, n: nat) {
    && limit <= |mem| && n == Octets(d) && d <= |scratch| && q + 8 * n <= limit
    && ReadLength(aligned, mem, limit, p) == Decoded(n, q)
    && SameBits(scratch, 0, mem, q, d)
    && mem[q + d..q + 8 * n] == Zeros(8 * n - d)
  }

  /** The exact effect on memory: the length determinant, the scratch bits and the padding,
      written at p in one piece. */
  ghost predicate CopiedBehind(aligned: bool, mem: seq<bool>, p: nat, scratch: seq<bool>, d: nat, mem': seq<bool>) {
    var n := Octets(d);
    && n < ASN_16K && d <= |scratch| && d <= 8 * n && p + PadLen(p) <= |mem|
    && End(Length, n, aligned, p) + 8 * n <= |mem|
    && mem' == Overlay(mem, p, Laid(Length, n, aligned, mem, p) + (scratch[..d] + Zeros(8 * n - d)))
  }

  /** While the guard lives, the caller's cursor writes to the guard's own buffer. */
  class VarlengthFieldPackGuard {
    var brefStart: BitRef
    var tracker: BitRef
    var buffer: array<byte>
    const align: bool

    constructor (bref: BitRef, align: bool)
      requires bref.Valid()
      modifies bref
      ensures fresh(brefStart) && fresh(buffer) && tracker == bref && this.align == align
      ensures brefStart.Valid() && brefStart.buf == old(bref.buf) && brefStart.max == old(bref.max)
      ensures brefStart.Pos() == old(bref.Pos())
      ensures bref.Valid() && bref.buf == buffer && bref.max == buffer.Length == SCRATCH_OCTETS && bref.Pos() == 0
    {
      this.align := align;
      tracker := bref;
      brefStart := new BitRef(bref.buf, bref.max);
      buffer := new byte[SCRATCH_OCTETS];
      new;
      brefStart.ptr, brefStart.offset := bref.ptr, bref.offset;
      bref.buf, bref.ptr, bref.offset, bref.max := buffer, 0, 0, SCRATCH_OCTETS;
    }

    /** Pads the content to octets and counts them. */
    method PadScratch() returns (nofBytes: nat)
      requires tracker.Valid() && tracker.buf == buffer && tracker.max == buffer.Length == SCRATCH_OCTETS
      modifies tracker`ptr, tracker`offset, buffer
      ensures tracker.Valid() && nofBytes == Octets(old(tracker.Pos())) <= buffer.Length
      ensures var d := old(tracker.Pos());
        && 8 * nofBytes == d + PadLen(d) && nofBytes < ASN_16K && |old(tracker.Mem())| == 8 * SCRATCH_OCTETS
        && BytesBits(buffer[..nofBytes]) == Overlay(old(tracker.Mem()), d, NatBits(0, PadLen(d)))[..8 * nofBytes]
    {
      hide NatBits, BytesBits, Overlay, PadLen, Octets;
      ScratchRoom(tracker.Pos());
      var leftover := 7 - (tracker.Pos() - 1) % 8;
      var padded := tracker.Pack(0, leftover);
      nofBytes := tracker.Pos() / 8;
      BytesBitsSplit(buffer[..], nofBytes);
      assert buffer[..][..nofBytes] == buffer[..nofBytes];
    }

    /** The destructor: pads the content to octets, goes back to the saved cursor, writes the
        length and the octets there and hands that cursor to the caller. */
    method Close()
      requires tracker != brefStart && tracker.Valid() && brefStart.Valid()
      requires tracker.buf == buffer && tracker.max == buffer.Length == SCRATCH_OCTETS && brefStart.buf != buffer
      requires var n := Octets(tracker.Pos());
        End(Length, n, align, brefStart.Pos()) + 8 * n <= 8 * brefStart.max
      modifies tracker, brefStart, buffer, brefStart.buf
      ensures tracker == old(tracker) && tracker.Valid()
      ensures tracker.buf == old(brefStart.buf) && tracker.max == old(brefStart.max)
      ensures var d, p := old(tracker.Pos()), old(brefStart.Pos());
        var n := Octets(d);
        var q := End(Length, n, align, p);
        && tracker.Pos() == q + 8 * n
        && p <= |tracker.Mem()| && tracker.Mem()[..p] == old(brefStart.Mem())[..p]
        && Enclosed(align, old(tracker.Mem()), d, tracker.Mem(), 8 * tracker.max, p, q, n)
        && CopiedBehind(align, old(brefStart.Mem()), p, old(tracker.Mem()), d, tracker.Mem())
    {
      hide NatBits, BytesBits, Overlay, PadLen, Packed, Enclosed, CopiedBehind, Encoding, End, ReadLength;
      ghost var scratch, d, p, mem0 := tracker.Mem(), tracker.Pos(), brefStart.Pos(), brefStart.Mem();
      var nofBytes := PadScratch();
      ghost var filled := Overlay(scratch, d, NatBits(0, PadLen(d)));
      var lengthCode := PackLength(brefStart, nofBytes, align);
      ghost var mem1, q := brefStart.Mem(), brefStart.Pos();
      PackedExtent(Length, nofBytes, align, mem0, p, mem1, q);
      CopyOctets(brefStart, buffer, nofBytes);
      EnclosedBy(align, scratch, d, filled, mem0, mem1, brefStart.Mem(), 8 * brefStart.max, p, q, nofBytes);
      CopiedBy(align, scratch, d, filled, mem0, mem1, brefStart.Mem(), p, q, nofBytes);
      tracker.buf, tracker.ptr, tracker.offset, tracker.max :=
        brefStart.buf, brefStart.ptr, brefStart.offset, brefStart.max;
    }
  }

  /** The padding the guard computes is the distance to the next octet boundary, which the
      scratch buffer has room for. */
  lemma ScratchRoom(d: nat)
    requires d <= 8 * SCRATCH_OCTETS
    ensures 7 - (d - 1) % 8 == PadLen(d)
    ensures d + PadLen(d) == 8 * Octets(d) <= 8 * SCRATCH_OCTETS && (d + PadLen(d)) / 8 == Octets(d)
    ensures Octets(d) < ASN_16K
  {
  }

  method CopyOctets(bref: BitRef, src: array<byte>, n: nat)
    requires bref.Valid() && bref.buf != src && n <= src.Length && bref.Pos() + 8 * n <= 8 * bref.max
    modifies bref`ptr, bref`offset, bref.buf
    ensures bref.Valid()
    ensures bref.Pos() == old(bref.Pos()) + 8 * n
    ensures bref.Mem() == Overlay(old(bref.Mem()), old(bref.Pos()), BytesBits(src[..n]))
  {
    hide NatBits, BytesBits, Overlay, PadLen;
    ghost var mem0, p0 := bref.Mem(), bref.Pos();
    var i := 0;
    OverlayAt(mem0, p0, []);
    assert src[..0] == [] && BytesBits([]) == [];
    while i < n
      invariant 0 <= i <= n && bref.Valid()
      invariant bref.Pos() == p0 + 8 * i
      invariant bref.Mem() == Overlay(mem0, p0, BytesBits(src[..i]))
    {
      BytesBitsSnoc(src[..n], i);
      assert src[..n][..i] == src[..i] && src[..n][..i + 1] == src[..i + 1];
      OverlayCompose(mem0, p0, BytesBits(src[..i]), NatBits(src[i], 8));
      var code := bref.Pack(src[i], 8);
      i := i + 1;
    }
  }

  /** The memory facts behind Enclosed. */
  lemma EnclosedBy(aligned: bool, scratch: seq<bool>, d: nat, filled: seq<bool>, mem0: seq<bool>, mem1: seq<bool>,
                   mem2: seq<bool>, limit: nat, p: nat, q: nat, n: nat)
    requires n == Octets(d) < ASN_16K && d + PadLen(d) == 8 * n <= |scratch|
    requires filled == Overlay(scratch, d, NatBits(0, PadLen(d)))
    requires Packed(Length, n, aligned, mem0, p, mem1, q)
    requires q + 8 * n <= limit <= |mem1| && mem2 == Overlay(mem1, q, filled[..8 * n])
    ensures |mem2| == |mem1| && mem2[..p] == mem0[..p]
    ensures Enclosed(aligned, scratch, d, mem2, limit, p, q, n)
  {
    hide *;
    OverlayAt(mem1, q, filled[..8 * n]);
    assert mem2[..p] == mem0[..p] && ReadLength(aligned, mem2, limit, p) == Decoded(n, q) by {
      LengthKept(aligned, n, mem0, mem1, mem2, limit, p, q);
    }
    assert SameBits(scratch, 0, mem2, q, d) && mem2[q + d..q + 8 * n] == Zeros(8 * n - d) by {
      OctetsCopied(scratch, d, filled, mem2, q, 8 * n);
    }
    EnclosedIs(aligned, scratch, d, mem2, limit, p, q, n);
  }

  lemma CopiedBy(aligned: bool, scratch: seq<bool>, d: nat, filled: seq<bool>, mem0: seq<bool>, mem1: seq<bool>,
                 mem2: seq<bool>, p: nat, q: nat, n: nat)
    requires n == Octets(d) < ASN_16K && d + PadLen(d) == 8 * n <= |scratch|
    requires filled == Overlay(scratch, d, NatBits(0, PadLen(d)))
    requires Packed(Length, n, aligned, mem0, p, mem1, q)
    requires q + 8 * n <= |mem1| && mem2 == Overlay(mem1, q, filled[..8 * n])
    ensures CopiedBehind(aligned, mem0, p, scratch, d, mem2)
  {
    hide *;
    PackedIs(Length, n, aligned, mem0, p, mem1, q);
    var z := NatBits(0, PadLen(d));
    NatBitsZero(PadLen(d));
    OverlayAt(scratch, d, z);
    SplitSlice(filled, 0, d, 8 * n);
    FromStart(filled, d);
    FromStart(filled, 8 * n);
    assert filled[..8 * n] == scratch[..d] + Zeros(8 * n - d);
    OverlayCompose(mem0, p, Laid(Length, n, aligned, mem0, p), filled[..8 * n]);
    CopiedBehindIf(aligned, mem0, p, scratch, d, mem2);
  }

  lemma FromStart<T>(s: seq<T>, n: nat)
    requires n <= |s|
    ensures s[0..n] == s[..n]
  {
  }

  lemma CopiedBehindIf(aligned: bool, mem: seq<bool>, p: nat, scratch: seq<bool>, d: nat, mem': seq<bool>)
    requires var n := Octets(d);
      && n < ASN_16K && d <= |scratch| && d <= 8 * n && p + PadLen(p) <= |mem| && Encodable(Length, n)
      && End(Length, n, aligned, p) + 8 * n <= |mem|
      && mem' == Overlay(mem, p, Laid(Length, n, aligned, mem, p) + (scratch[..d] + Zeros(8 * n - d)))
    ensures CopiedBehind(aligned, mem, p, scratch, d, mem')
  {
    hide Overlay, Laid, End, PadLen, Octets;
  }

  lemma EnclosedIs(aligned: bool, scratch: seq<bool>, d: nat, mem: seq<bool>, limit: nat, p: nat, q: nat, n: nat)
    requires limit <= |mem| && n == Octets(d) && d <= 8 * n && d <= |scratch| && q + 8 * n <= limit
    requires ReadLength(aligned, mem, limit, p) == Decoded(n, q)
    requires SameBits(scratch, 0, mem, q, d) && mem[q + d..q + 8 * n] == Zeros(8 * n - d)
    ensures Enclosed(aligned, scratch, d, mem, limit, p, q, n)
  {
    hide ReadLength, SameBits;
  }

  /** The scratch bits and the padding after them, copied to q. */
  lemma OctetsCopied(scratch: seq<bool>, d: nat, filled: seq<bool>, mem: seq<bool>, q: nat, k: nat)
    requires d <= k == d + PadLen(d) <= |scratch| && q + k <= |mem|
    requires filled == Overlay(scratch, d, NatBits(0, k - d)) && mem[q..q + k] == filled[..k]
    ensures SameBits(scratch, 0, mem, q, d) && mem[q + d..q + k] == Zeros(k - d)
  {
    hide *;
    OverlayAt(scratch, d, NatBits(0, k - d));
    NatBitsZero(k - d);
    SliceOfSlice(mem, q, k, 0, d);
    SliceOfSlice(mem, q, k, d, k - d);
    PrefixOfPrefix(filled, d, k);
    TakeThenDrop(filled, d, k);
    assert mem[q..q + k][0..d] == filled[..k][..d];
    assert filled[..k][d..k] == filled[..k][d..];
    SameBitsIs(scratch, 0, mem, q, d);
  }

  /** Reads the length on entry and skips what the content left over on exit. */
  class VarlengthFieldUnpackGuard {
    const tracker: BitRef
    const start: nat
    const len: int

    constructor (bref: BitRef, align: bool)
      requires bref.Valid()
      modifies bref`ptr, bref`offset
      ensures tracker == bref && bref.Valid() && start == bref.Pos()
      ensures var d := ReadLength(align, bref.Mem(), 8 * bref.max, old(bref.Pos()));
        d.Decoded? ==> len == d.val && bref.Pos() == d.next
    {
      var r := UnpackLength(bref, align);
      tracker := bref;
      start := bref.Pos();
      len := r.val;
    }

    /** The destructor. One read skips at most 32 bits, so the cursor reaches the end of the
        open type exactly when no more than 32 bits of it are left; otherwise it stays where
        the content ended. */
    method Close()
      requires tracker.Valid()
      modifies tracker`ptr, tracker`offset
      ensures tracker.Valid()
      ensures var left := start + 8 * len - old(tracker.Pos());
        -TWO_TO_THE_31 <= left < TWO_TO_THE_31 && start + 8 * len <= 8 * tracker.max ==>
          tracker.Pos() == if 0 <= left <= 32 then start + 8 * len else old(tracker.Pos())
    {
      hide BitsNat, BytesBits;
      var pad := tracker.Unpack(ToUint32(len * 8 - (tracker.Pos() - start)));
    }
  }

  const TWO_TO_THE_31: int := 0x8000_0000

  // ------------------------------------------------------------ whole messages

  /** Packing a message: every field through its packer, every open type through a guard. */
  method PackContents(bref: BitRef, cs: seq<Content>, aligned: bool) returns (code: Code)
    requires bref.Valid() && AllPackable(cs, aligned) && EndContents(cs, aligned, bref.Pos()) <= 8 * bref.max
    modifies bref, bref.buf
    ensures bref.Valid() && bref.buf == old(bref.buf) && bref.max == old(bref.max)
    ensures Delivered(cs, aligned, code, old(bref.Mem()), old(bref.Pos()), bref.Mem(), bref.Pos(), 8 * bref.max)
    ensures Written(cs, aligned, old(bref.Mem()), old(bref.Pos()), bref.Mem())
    decreases cs, 0
  {
    CursorBounds(bref);
    hide *;
    ghost var mem0, p0, limit := bref.Mem(), bref.Pos(), 8 * bref.max;
    EndContentsCons(cs, aligned, p0);
    if |cs| == 0 {
      DeliveredNothing(aligned, mem0, p0, limit);
      WrittenNothing(aligned, mem0, p0);
      return Success;
    }
    code := PackContent(bref, cs[0], aligned);
    ghost var mem1, p1 := bref.Mem(), bref.Pos();
    DeliveredParts([cs[0]], aligned, code, mem0, p0, mem1, p1, limit);
    EndOne(cs[0], aligned, p0);
    if code != Success { return; }
    code := PackContents(bref, cs[1..], aligned);
    DeliveredCons(cs, aligned, code, mem0, p0, mem1, p1, bref.Mem(), bref.Pos(), limit);
    WrittenCons(cs, aligned, mem0, p0, mem1, p1, bref.Mem(), bref.Pos());
  }

  lemma CursorBounds(bref: BitRef)
    requires bref.Valid()
    ensures bref.Pos() <= 8 * bref.max <= |bref.Mem()| && OctetLong(bref.Mem())
  {
  }

  method PackContent(bref: BitRef, c: Content, aligned: bool) returns (code: Code)
    requires bref.Valid() && Packable(c, aligned) && EndContent(c, aligned, bref.Pos()) <= 8 * bref.max
    modifies bref, bref.buf
    ensures bref.Valid() && bref.buf == old(bref.buf) && bref.max == old(bref.max)
    ensures Delivered([c], aligned, code, old(bref.Mem()), old(bref.Pos()), bref.Mem(), bref.Pos(), 8 * bref.max)
    ensures Written([c], aligned, old(bref.Mem()), old(bref.Pos()), bref.Mem())
    decreases c, 1
  {
    match c {
      case Field(i) =>
        code := PackField(bref, i, aligned);
      case OctetString(octets) =>
        code := PackOctetString(bref, octets, aligned);
      case BitString(octets, n) =>
        code := PackBitString(bref, octets, n, aligned);
      case Groups(flags, supported) =>
        code := PackGroupFlags(bref, flags, supported, aligned);
      case Open(inner) =>
        ghost var mem0, p0, limit := bref.Mem(), bref.Pos(), 8 * bref.max;
        hide Encoding, End, AllPackable, EndContents, ReadContents, ReadContent, Enclosed, CopiedBehind, Delivered, Written, Octets;
        var guard := new VarlengthFieldPackGuard(bref, aligned);
        ghost var blank := bref.Mem();
        code := PackContents(bref, inner, aligned);
        ghost var scratch, d := bref.Mem(), bref.Pos();
        DeliveredParts(inner, aligned, code, blank, 0, scratch, d, 8 * SCRATCH_OCTETS);
        guard.Close();
        DeliveredOpen(inner, aligned, blank, scratch, d, mem0, p0, bref.Mem(), bref.Pos(), limit);
        WrittenOpen(inner, aligned, blank, scratch, d, mem0, p0, bref.Mem());
    }
  }

  method PackField(bref: BitRef, i: Item, aligned: bool) returns (code: Code)
    requires bref.Valid() && Packable(Field(i), aligned) && EndContent(Field(i), aligned, bref.Pos()) <= 8 * bref.max
    modifies bref`ptr, bref`offset, bref.buf
    ensures bref.Valid()
    ensures Delivered([Field(i)], aligned, code, old(bref.Mem()), old(bref.Pos()), bref.Mem(), bref.Pos(), 8 * bref.max)
    ensures Written([Field(i)], aligned, old(bref.Mem()), old(bref.Pos()), bref.Mem())
  {
    hide *;
    ghost var mem0, p0, limit := bref.Mem(), bref.Pos(), 8 * bref.max;
    CursorBounds(bref);
    PackableField(i, aligned, p0);
    FitsIs(i.shape, i.val, aligned, p0, limit);
    code := PackItem(bref, i, aligned);
    PackedExtent(i.shape, i.val, aligned, mem0, p0, bref.Mem(), bref.Pos());
    DeliveredField(i, aligned, mem0, p0, bref.Mem(), bref.Pos(), limit);
    WrittenField(i, aligned, mem0, p0, bref.Mem(), bref.Pos());
  }

  method PackOctetString(bref: BitRef, octets: seq<byte>, aligned: bool) returns (code: Code)
    requires bref.Valid() && Packable(OctetString(octets), aligned)
    requires EndContent(OctetString(octets), aligned, bref.Pos()) <= 8 * bref.max
    modifies bref`ptr, bref`offset, bref.buf
    ensures bref.Valid()
    ensures Delivered([OctetString(octets)], aligned, code, old(bref.Mem()), old(bref.Pos()), bref.Mem(), bref.Pos(), 8 * bref.max)
    ensures Written([OctetString(octets)], aligned, old(bref.Mem()), old(bref.Pos()), bref.Mem())
  {
    hide *;
    ghost var mem0, p0, limit := bref.Mem(), bref.Pos(), 8 * bref.max;
    CursorBounds(bref);
    PackableStrings(OctetString(octets), aligned, p0);
    code := PackUnboundedOctstring(bref, octets, aligned);
    OctetsPackedEnd(octets, aligned, mem0, p0, bref.Mem(), bref.Pos());
    DeliveredOctets(octets, aligned, mem0, p0, bref.Mem(), bref.Pos(), limit);
    WrittenOctets(octets, aligned, mem0, p0, bref.Mem(), bref.Pos());
  }

  method PackBitString(bref: BitRef, octets: seq<byte>, n: nat, aligned: bool) returns (code: Code)
    requires bref.Valid() && Packable(BitString(octets, n), aligned)
    requires EndContent(BitString(octets, n), aligned, bref.Pos()) <= 8 * bref.max
    modifies bref`ptr, bref`offset, bref.buf
    ensures bref.Valid()
    ensures Delivered([BitString(octets, n)], aligned, code, old(bref.Mem()), old(bref.Pos()), bref.Mem(), bref.Pos(), 8 * bref.max)
    ensures Written([BitString(octets, n)], aligned, old(bref.Mem()), old(bref.Pos()), bref.Mem())
  {
    hide *;
    ghost var mem0, p0, limit := bref.Mem(), bref.Pos(), 8 * bref.max;
    CursorBounds(bref);
    PackableStrings(BitString(octets, n), aligned, p0);
    code := PackCommonBitstring(bref, octets, n);
    DeliveredBits(octets, n, aligned, mem0, p0, bref.Mem(), limit);
    WrittenBits(BitString(octets, n), aligned, mem0, p0, bref.Mem(), BitstringBits(octets, n));
  }

  method PackGroupFlags(bref: BitRef, flags: seq<bool>, supported: nat, aligned: bool) returns (code: Code)
    requires bref.Valid() && Packable(Groups(flags, supported), aligned)
    requires EndContent(Groups(flags, supported), aligned, bref.Pos()) <= 8 * bref.max
    modifies bref`ptr, bref`offset, bref.buf
    ensures bref.Valid()
    ensures Delivered([Groups(flags, supported)], aligned, code, old(bref.Mem()), old(bref.Pos()), bref.Mem(), bref.Pos(), 8 * bref.max)
    ensures Written([Groups(flags, supported)], aligned, old(bref.Mem()), old(bref.Pos()), bref.Mem())
  {
    hide *;
    ghost var mem0, p0, limit := bref.Mem(), bref.Pos(), 8 * bref.max;
    CursorBounds(bref);
    PackableStrings(Groups(flags, supported), aligned, p0);
    code := PackGroups(bref, flags);
    DeliveredGroups(flags, supported, aligned, mem0, p0, bref.Mem(), limit);
    WrittenBits(Groups(flags, supported), aligned, mem0, p0, bref.Mem(), GroupBits(flags));
  }

  datatype Unpacked = Unpacked(contents: seq<Content>, code: Code)

  /** Unpacking a message of known form. Whatever ReadContents finds in memory is what comes
      back, and the cursor ends where that content ends. */
  method UnpackContents(bref: BitRef, fs: seq<Form>, aligned: bool) returns (r: Unpacked)
    requires bref.Valid() && ValidForms(fs) && AllWellFormed(fs)
    modifies bref`ptr, bref`offset
    ensures bref.Valid()
    ensures var g := ReadContents(fs, aligned, bref.Mem(), 8 * bref.max, old(bref.Pos()));
      g.GotAll? ==> r == Unpacked(g.contents, Success) && bref.Pos() == g.next
    decreases fs, 0
  {
    ghost var mem, limit, p0 := bref.Mem(), 8 * bref.max, bref.Pos();
    hide *;
    if |fs| == 0 {
      ReadContentsNil(aligned, mem, limit, p0);
      return Unpacked([], Success);
    }
    ReadContentsCons(fs, aligned, mem, limit, p0);
    ValidFormsCons(fs);
    var h := UnpackContent(bref, fs[0], aligned);
    if h.code != Success { return h; }
    var t := UnpackContents(bref, fs[1..], aligned);
    return Unpacked(h.contents + t.contents, t.code);
  }

  method UnpackContent(bref: BitRef, f: Form, aligned: bool) returns (r: Unpacked)
    requires bref.Valid() && ValidForm(f) && WellFormed(f)
    modifies bref`ptr, bref`offset
    ensures bref.Valid()
    ensures var g := ReadContent(f, aligned, bref.Mem(), 8 * bref.max, old(bref.Pos()));
      g.Got? ==> r == Unpacked([g.content], Success) && bref.Pos() == g.next
    decreases f, 1
  {
    ghost var mem, limit, p0 := bref.Mem(), 8 * bref.max, bref.Pos();
    match f {
      case FieldForm(s) =>
        ValidFormField(s);
        hide *;
        ReadField(s, aligned, mem, limit, p0);
        var u := UnpackItem(bref, s, aligned);
        AgreesParts(u, bref.Pos(), Read(s, aligned, mem, limit, p0));
        return Unpacked([Field(Item(s, u.val))], u.code);
      case OctetStringForm =>
        hide *;
        ReadStrings(f, aligned, mem, limit, p0);
        var octets, code := UnpackUnboundedOctstring(bref, aligned);
        return Unpacked([OctetString(octets)], code);
      case BitStringForm(n) =>
        hide *;
        ReadStrings(f, aligned, mem, limit, p0);
        var octets, code := UnpackFixedBitstring(bref, n);
        return Unpacked([BitString(octets, n)], code);
      case GroupsForm(supported) =>
        hide *;
        ReadStrings(f, aligned, mem, limit, p0);
        var flags, code := UnpackGroups(bref, supported);
        return Unpacked([Groups(flags, supported)], code);
      case OpenForm(inner) =>
        ValidFormOpen(inner);
        hide *;
        ReadOpen(inner, aligned, mem, limit, p0);
        var guard := new VarlengthFieldUnpackGuard(bref, aligned);
        ghost var q := bref.Pos();
        var u := UnpackContents(bref, inner, aligned);
        ghost var d := ReadLength(aligned, mem, limit, p0);
        if d.Decoded? {
          ghost var g := ReadContents(inner, aligned, mem, limit, q);
          if g.GotAll? { LeaveParts(g, q, d.val, limit); }
        }
        guard.Close();
        return Unpacked([Open(u.contents)], u.code);
    }
  }

  lemma ValidFormsCons(fs: seq<Form>)
    requires ValidForms(fs) && AllWellFormed(fs) && fs != []
    ensures ValidForm(fs[0]) && ValidForms(fs[1..]) && WellFormed(fs[0]) && AllWellFormed(fs[1..])
  {
  }

  lemma ValidFormField(s: Shape)
    requires ValidForm(FieldForm(s))
    ensures ValidShape(s)
  {
  }

  lemma ValidFormOpen(inner: seq<Form>)
    requires ValidForm(OpenForm(inner))
    ensures ValidForms(inner)
  {
  }

  lemma AgreesParts(r: Result, p': nat, d: Decoded)
    requires Agrees(r, p', d)
    ensures r.code == Success <==> d.Decoded?
    ensures d.Decoded? ==> r.val == d.val && p' == d.next
  {
  }

  lemma LeaveParts(g: GotAll, q: nat, n: nat, limit: nat)
    requires g.GotAll? && q <= g.next
    ensures var r := Leave(g, q, n, limit);
      r.Got? ==> r == Got(Open(g.contents), q + 8 * n) && 0 <= q + 8 * n - g.next <= 32 && q + 8 * n <= limit
  {
  }

  /** The promise of packing: success, nothing before the start position touched, the cursor
      at the computed end, and memory that decodes to the very same content. */
  ghost predicate Delivered(cs: seq<Content>, aligned: bool, code: Code,
                            mem: seq<bool>, p: nat, mem': seq<bool>, p': nat, limit: nat)
  {
    && code == Success && AllPackable(cs, aligned)
    && p <= p' == EndContents(cs, aligned, p) && p' <= limit <= |mem'| == |mem|
    && mem'[..p] == mem[..p]
    && AllWellFormed(FormsOf(cs))
    && ReadContents(FormsOf(cs), aligned, mem', limit, p) == GotAll(cs, p')
  }

  lemma EndContentsCons(cs: seq<Content>, aligned: bool, p: nat)
    requires AllPackable(cs, aligned)
    ensures cs == [] ==> EndContents(cs, aligned, p) == p
    ensures cs != [] ==>
      && Packable(cs[0], aligned) && AllPackable(cs[1..], aligned)
      && var q := EndContent(cs[0], aligned, p);
         EndContents(cs, aligned, p) == EndContents(cs[1..], aligned, q) >= q
  {
  }

  lemma EndOne(c: Content, aligned: bool, p: nat)
    requires Packable(c, aligned)
    ensures AllPackable([c], aligned) && EndContents([c], aligned, p) == EndContent(c, aligned, p)
  {
    hide Packable, EndContent;
    assert [c][1..] == [];
  }

  lemma EndOpen(inner: seq<Content>, aligned: bool, p: nat)
    requires Packable(Open(inner), aligned)
    ensures AllPackable(inner, aligned) && EndContents(inner, aligned, 0) <= 8 * SCRATCH_OCTETS
    ensures var n := Octets(EndContents(inner, aligned, 0));
      n <= SCRATCH_OCTETS && Encodable(Length, n)
      && EndContent(Open(inner), aligned, p) == End(Length, n, aligned, p) + 8 * n
  {
    hide End, EndContents, AllPackable;
  }

  lemma FormsOfOne(c: Content)
    ensures FormsOf([c]) == [FormOf(c)]
    ensures AllWellFormed([FormOf(c)]) <==> WellFormed(FormOf(c))
  {
    hide FormOf, WellFormed;
    assert [c][1..] == [] && [FormOf(c)][1..] == [];
  }

  lemma DeliveredParts(cs: seq<Content>, aligned: bool, code: Code,
                       mem: seq<bool>, p: nat, mem': seq<bool>, p': nat, limit: nat)
    requires Delivered(cs, aligned, code, mem, p, mem', p', limit)
    ensures code == Success && AllPackable(cs, aligned)
    ensures p <= p' == EndContents(cs, aligned, p) && p' <= limit <= |mem'| == |mem| && mem'[..p] == mem[..p]
    ensures AllWellFormed(FormsOf(cs)) && ReadContents(FormsOf(cs), aligned, mem', limit, p) == GotAll(cs, p')
  {
    hide AllPackable, EndContents, ReadContents, AllWellFormed, FormsOf;
  }

  lemma DeliveredIf(cs: seq<Content>, aligned: bool, mem: seq<bool>, p: nat, mem': seq<bool>, p': nat, limit: nat)
    requires AllPackable(cs, aligned)
    requires p <= p' == EndContents(cs, aligned, p) && p' <= limit <= |mem'| == |mem| && mem'[..p] == mem[..p]
    requires AllWellFormed(FormsOf(cs)) && ReadContents(FormsOf(cs), aligned, mem', limit, p) == GotAll(cs, p')
    ensures Delivered(cs, aligned, Success, mem, p, mem', p', limit)
  {
    hide AllPackable, EndContents, ReadContents, AllWellFormed, FormsOf;
  }

  lemma DeliveredNothing(aligned: bool, mem: seq<bool>, p: nat, limit: nat)
    requires p <= limit <= |mem|
    ensures Delivered([], aligned, Success, mem, p, mem, p, limit)
  {
  }

  lemma DeliveredOne(c: Content, aligned: bool, mem: seq<bool>, p: nat, mem': seq<bool>, p': nat, limit: nat)
    requires Packable(c, aligned) && WellFormed(FormOf(c))
    requires p <= p' == EndContent(c, aligned, p) && p' <= limit <= |mem'| == |mem| && mem'[..p] == mem[..p]
    requires ReadContent(FormOf(c), aligned, mem', limit, p) == Got(c, p')
    ensures Delivered([c], aligned, Success, mem, p, mem', p', limit)
  {
    hide *;
    EndOne(c, aligned, p);
    FormsOfOne(c);
    ReadContentsCons([FormOf(c)], aligned, mem', limit, p);
    assert [FormOf(c)][1..] == [] && [c] + [] == [c];
    ReadContentsNil(aligned, mem', limit, p');
    DeliveredIf([c], aligned, mem, p, mem', p', limit);
  }

  lemma DeliveredField(i: Item, aligned: bool, mem: seq<bool>, p: nat, mem': seq<bool>, p': nat, limit: nat)
    requires Packable(Field(i), aligned) && p' <= limit <= |mem|
    requires Packed(i.shape, i.val, aligned, mem, p, mem', p')
    ensures Delivered([Field(i)], aligned, Success, mem, p, mem', p', limit)
  {
    PackableField(i, aligned, p);
    hide *;
    PackedExtent(i.shape, i.val, aligned, mem, p, mem', p');
    PackedReads(i.shape, i.val, aligned, mem, p, mem', p', limit);
    ReadField(i.shape, aligned, mem', limit, p);
    ItemEta(i);
    DeliveredOne(Field(i), aligned, mem, p, mem', p', limit);
  }

  lemma ItemEta(i: Item)
    ensures Item(i.shape, i.val) == i && FormOf(Field(i)) == FieldForm(i.shape)
  {
  }

  lemma PackableField(i: Item, aligned: bool, p: nat)
    requires Packable(Field(i), aligned)
    ensures ValidItem(i) && ValidShape(i.shape) && Encodable(i.shape, i.val) && WellFormed(FieldForm(i.shape))
    ensures EndContent(Field(i), aligned, p) == End(i.shape, i.val, aligned, p)
  {
  }

  /** What packable strings and flags satisfy, and where they end. */
  lemma PackableStrings(c: Content, aligned: bool, p: nat)
    requires Packable(c, aligned)
    ensures WellFormed(FormOf(c)) || c.Open? || c.Field?
    ensures c.OctetString? ==> |c.octets| < ASN_16K < TWO_TO_THE_32 && EndContent(c, aligned, p) == EndOctets(c.octets, aligned, p)
    ensures c.BitString? ==> 0 < c.size && |c.octets| == OctetsFor(c.size) && Canonical(c.octets, c.size) && EndContent(c, aligned, p) == p + c.size
    ensures c.Groups? ==> Sendable(c.flags, c.supported) && 1 <= NofGroups(c.flags) <= 64
                          && EndContent(c, aligned, p) == p + 7 + NofGroups(c.flags)
    ensures c.OctetString? ==> FormOf(c) == OctetStringForm
    ensures c.BitString? ==> FormOf(c) == BitStringForm(c.size)
    ensures c.Groups? ==> FormOf(c) == GroupsForm(c.supported)
  {
    hide EndOctets, NofGroups, Grown;
  }

  lemma DeliveredOctets(octets: seq<byte>, aligned: bool, mem: seq<bool>, p: nat, mem': seq<bool>, p': nat, limit: nat)
    requires Packable(OctetString(octets), aligned) && p' <= limit <= |mem|
    requires OctetsPacked(octets, aligned, mem, p, mem', p')
    ensures Delivered([OctetString(octets)], aligned, Success, mem, p, mem', p', limit)
  {
    hide *;
    var c := OctetString(octets);
    PackableStrings(c, aligned, p);
    OctetsPackedRead(octets, aligned, mem, p, mem', p', limit);
    OctetsPackedEnd(octets, aligned, mem, p, mem', p');
    ReadStrings(FormOf(c), aligned, mem', limit, p);
    DeliveredOne(c, aligned, mem, p, mem', p', limit);
  }

  lemma OctetsPackedEnd(octets: seq<byte>, aligned: bool, mem: seq<bool>, p: nat, mem': seq<bool>, p': nat)
    requires OctetsPacked(octets, aligned, mem, p, mem', p')
    ensures |octets| < ASN_16K && p' == EndOctets(octets, aligned, p)
  {
    hide EndOctets, Overlay, Laid;
  }

  lemma DeliveredBits(octets: seq<byte>, n: nat, aligned: bool, mem: seq<bool>, p: nat, mem': seq<bool>, limit: nat)
    requires Packable(BitString(octets, n), aligned) && 0 < n && |octets| == OctetsFor(n) && p + n <= limit <= |mem|
    requires mem' == Overlay(mem, p, BitstringBits(octets, n))
    ensures Delivered([BitString(octets, n)], aligned, Success, mem, p, mem', p + n, limit)
  {
    hide *;
    var c := BitString(octets, n);
    PackableStrings(c, aligned, p);
    BitStringRead(octets, n, mem, p, mem', limit);
    ReadStrings(FormOf(c), aligned, mem', limit, p);
    DeliveredOne(c, aligned, mem, p, mem', p + n, limit);
  }

  lemma DeliveredGroups(flags: seq<bool>, supported: nat, aligned: bool, mem: seq<bool>, p: nat, mem': seq<bool>, limit: nat)
    requires Packable(Groups(flags, supported), aligned) && 1 <= NofGroups(flags) && p + 7 + NofGroups(flags) <= limit <= |mem|
    requires mem' == Overlay(mem, p, GroupBits(flags))
    ensures Delivered([Groups(flags, supported)], aligned, Success, mem, p, mem', p + 7 + NofGroups(flags), limit)
  {
    hide *;
    var c := Groups(flags, supported);
    PackableStrings(c, aligned, p);
    GroupsRead(flags, supported, mem, p, mem', limit);
    ReadStrings(FormOf(c), aligned, mem', limit, p);
    DeliveredOne(c, aligned, mem, p, mem', p + 7 + NofGroups(flags), limit);
  }

  lemma DeliveredOpen(inner: seq<Content>, aligned: bool, blank: seq<bool>, scratch: seq<bool>, d: nat,
                      mem: seq<bool>, p: nat, mem': seq<bool>, p': nat, limit: nat)
    requires Packable(Open(inner), aligned)
    requires Delivered(inner, aligned, Success, blank, 0, scratch, d, 8 * SCRATCH_OCTETS)
    requires p <= |mem| == |mem'| && mem'[..p] == mem[..p] && p' == EndContent(Open(inner), aligned, p) <= limit
    requires Enclosed(aligned, scratch, d, mem', limit, p, End(Length, Octets(d), aligned, p), Octets(d))
    ensures Delivered([Open(inner)], aligned, Success, mem, p, mem', p', limit)
  {
    hide *;
    var n := Octets(d);
    EndOpen(inner, aligned, p);
    DeliveredParts(inner, aligned, Success, blank, 0, scratch, d, 8 * SCRATCH_OCTETS);
    var q := End(Length, n, aligned, p);
    EnclosedParts(aligned, scratch, d, mem', limit, p, q, n);
    OpenForms(inner);
    ReadOpen(FormsOf(inner), aligned, mem', limit, p);
    assert ReadContents(FormsOf(inner), aligned, mem', limit, q) == GotAll(inner, q + d) by {
      ContentsRelocated(FormsOf(inner), aligned, scratch, 8 * SCRATCH_OCTETS, 0, mem', limit, q);
    }
    LeaveAtEnd(inner, q, d, n, limit);
    DeliveredOne(Open(inner), aligned, mem, p, mem', p', limit);
  }

  lemma EnclosedParts(aligned: bool, scratch: seq<bool>, d: nat, mem: seq<bool>, limit: nat, p: nat, q: nat, n: nat)
    requires Enclosed(aligned, scratch, d, mem, limit, p, q, n)
    ensures limit <= |mem| && n == Octets(d) && d <= |scratch| && d <= 8 * n <= d + 7 && q + 8 * n <= limit
    ensures ReadLength(aligned, mem, limit, p) == Decoded(n, q) && p <= q
    ensures SameBits(scratch, 0, mem, q, d) && SamePhase(aligned, 0, q)
  {
    PadAligns(p);
    hide PadLen, BitsNat;
  }

  lemma OpenForms(inner: seq<Content>)
    requires AllWellFormed(FormsOf(inner))
    ensures FormOf(Open(inner)) == OpenForm(FormsOf(inner)) && WellFormed(OpenForm(FormsOf(inner)))
  {
    hide FormsOf, AllWellFormed;
  }

  lemma LeaveAtEnd(cs: seq<Content>, q: nat, d: nat, n: nat, limit: nat)
    requires d <= 8 * n <= d + 7 && q + 8 * n <= limit
    ensures Leave(GotAll(cs, q + d), q, n, limit) == Got(Open(cs), q + 8 * n)
  {
  }

  lemma DeliveredCons(cs: seq<Content>, aligned: bool, code: Code, mem0: seq<bool>, p0: nat,
                      mem1: seq<bool>, p1: nat, mem2: seq<bool>, p2: nat, limit: nat)
    requires cs != []
    requires Delivered([cs[0]], aligned, Success, mem0, p0, mem1, p1, limit)
    requires Delivered(cs[1..], aligned, code, mem1, p1, mem2, p2, limit)
    ensures Delivered(cs, aligned, code, mem0, p0, mem2, p2, limit)
  {
    hide *;
    var c, rest := cs[0], cs[1..];
    DeliveredParts([c], aligned, Success, mem0, p0, mem1, p1, limit);
    DeliveredParts(rest, aligned, code, mem1, p1, mem2, p2, limit);
    HeadOf(c, aligned, mem1, limit, p0);
    AllPackableCons(cs, aligned, p0);
    PrefixOfPrefix(mem1, p0, p1);
    PrefixOfPrefix(mem2, p0, p1);
    assert ReadContent(FormOf(c), aligned, mem2, limit, p0) == Got(c, p1) by {
      TakeThenDrop(mem1, p0, p1);
      TakeThenDrop(mem2, p0, p1);
      SameBitsIs(mem1, p0, mem2, p0, p1 - p0);
      SamePhaseIs(aligned, p0);
      ContentRelocated(FormOf(c), aligned, mem1, limit, p0, mem2, limit, p0);
    }
    FormsOfCons(cs);
    ReadContentsCons(FormsOf(cs), aligned, mem2, limit, p0);
    assert [c] + rest == cs;
    DeliveredIf(cs, aligned, mem0, p0, mem2, p2, limit);
  }

  lemma HeadOf(c: Content, aligned: bool, mem: seq<bool>, limit: nat, p: nat)
    requires limit <= |mem| && AllWellFormed(FormsOf([c]))
    requires ReadContents(FormsOf([c]), aligned, mem, limit, p).GotAll?
      && ReadContents(FormsOf([c]), aligned, mem, limit, p).contents == [c]
    ensures WellFormed(FormOf(c))
    ensures ReadContent(FormOf(c), aligned, mem, limit, p)
      == Got(c, ReadContents(FormsOf([c]), aligned, mem, limit, p).next)
  {
    hide *;
    FormsOfOne(c);
    ReadContentsCons([FormOf(c)], aligned, mem, limit, p);
    assert [FormOf(c)][1..] == [];
    var h := ReadContent(FormOf(c), aligned, mem, limit, p);
    ReadContentsNil(aligned, mem, limit, h.next);
    assert ([h.content] + [])[0] == h.content;
  }

  lemma AllPackableCons(cs: seq<Content>, aligned: bool, p: nat)
    requires cs != [] && AllPackable([cs[0]], aligned) && AllPackable(cs[1..], aligned)
    ensures AllPackable(cs, aligned)
    ensures EndContents(cs, aligned, p) == EndContents(cs[1..], aligned, EndContents([cs[0]], aligned, p))
  {
    hide Packable, EndContent;
    assert [cs[0]][1..] == [];
  }

  lemma FormsOfCons(cs: seq<Content>)
    requires cs != [] && WellFormed(FormOf(cs[0])) && AllWellFormed(FormsOf(cs[1..]))
    ensures AllWellFormed(FormsOf(cs)) && FormsOf(cs) != []
    ensures FormsOf(cs)[0] == FormOf(cs[0]) && FormsOf(cs)[1..] == FormsOf(cs[1..])
  {
    hide FormOf, WellFormed;
  }

  // ------------------------------------------------------------ the encoding of a message

  /** The bits of a message packed at p: what X.691 prescribes, with clear filler and, around
      each open type's content, its length in octets and clear padding. */
  ghost function Image(c: Content, aligned: bool, p: nat): (b: seq<bool>)
    requires Packable(c, aligned)
    decreases c, 2
  {
    match c
    case Field(i) => FieldImage(i.shape, i.val, aligned, p)
    case OctetString(octets) => FieldImage(Length, |octets|, aligned, p) + BytesBits(octets)
    case BitString(octets, n) => BitstringBits(octets, n)
    case Groups(flags, _) => GroupBits(flags)
    case Open(inner) =>
      var e := Images(inner, aligned, 0);
      var n := Octets(EndContents(inner, aligned, 0));
      FieldImage(Length, n, aligned, p) + (e + Zeros(if 8 * n >= |e| then 8 * n - |e| else 0))
  }

  ghost function FieldImage(s: Shape, v: int, aligned: bool, p: nat): (b: seq<bool>)
    requires Encodable(s, v)
    ensures |b| == End(s, v, aligned, p) - p
  {
    Zeros(if OctetAligned(s, aligned) then PadLen(p) else 0) + Encoding(s, v, aligned)
  }

  ghost function Images(cs: seq<Content>, aligned: bool, p: nat): (b: seq<bool>)
    requires AllPackable(cs, aligned)
    decreases cs, 1
  {
    if cs == [] then []
    else Image(cs[0], aligned, p) + Images(cs[1..], aligned, EndContent(cs[0], aligned, p))
  }

  /** The bits from p to the octet boundary are clear, as every packing step leaves them. */
  ghost predicate Clean(mem: seq<bool>, p: nat) {
    p + PadLen(p) <= |mem| && mem[p..p + PadLen(p)] == Zeros(PadLen(p))
  }

  /** From a clean position, packing writes exactly the message's bits. */
  ghost predicate Written(cs: seq<Content>, aligned: bool, mem: seq<bool>, p: nat, mem': seq<bool>) {
    Clean(mem, p) ==>
      && AllPackable(cs, aligned)
      && p + |Images(cs, aligned, p)| == EndContents(cs, aligned, p) <= |mem|
      && mem' == Overlay(mem, p, Images(cs, aligned, p))
  }

  lemma WrittenNothing(aligned: bool, mem: seq<bool>, p: nat)
    requires p <= |mem|
    ensures Written([], aligned, mem, p, mem)
  {
    OverlayAt(mem, p, []);
  }

  lemma WrittenOne(c: Content, aligned: bool, mem: seq<bool>, p: nat, mem': seq<bool>)
    requires Packable(c, aligned)
    requires Clean(mem, p) ==>
      && p + |Image(c, aligned, p)| == EndContent(c, aligned, p) <= |mem|
      && mem' == Overlay(mem, p, Image(c, aligned, p))
    ensures Written([c], aligned, mem, p, mem')
  {
    EndOne(c, aligned, p);
    hide Image, EndContent, EndContents, Packable, Clean, Overlay;
    assert [c][1..] == [];
    assert Images([c], aligned, p) == Image(c, aligned, p) + [] == Image(c, aligned, p);
  }

  /** On clean memory the filler is clear whichever way the packer leaves it. */
  lemma CleanLaid(s: Shape, v: int, aligned: bool, mem: seq<bool>, p: nat)
    requires Encodable(s, v) && Clean(mem, p)
    ensures Laid(s, v, aligned, mem, p) == FieldImage(s, v, aligned, p)
  {
    hide Encoding, PadLen;
    assert Zeros(0) == [];
  }

  lemma WrittenField(i: Item, aligned: bool, mem: seq<bool>, p: nat, mem': seq<bool>, p': nat)
    requires Packable(Field(i), aligned) && Packed(i.shape, i.val, aligned, mem, p, mem', p')
    ensures Written([Field(i)], aligned, mem, p, mem')
  {
    PackableField(i, aligned, p);
    PackedIs(i.shape, i.val, aligned, mem, p, mem', p');
    hide Packed, FieldImage, Laid, End, EndContent, Overlay, Clean, Written, Packable;
    if Clean(mem, p) { CleanLaid(i.shape, i.val, aligned, mem, p); }
    WrittenOne(Field(i), aligned, mem, p, mem');
  }

  lemma WrittenOctets(octets: seq<byte>, aligned: bool, mem: seq<bool>, p: nat, mem': seq<bool>, p': nat)
    requires Packable(OctetString(octets), aligned) && OctetsPacked(octets, aligned, mem, p, mem', p')
    ensures Written([OctetString(octets)], aligned, mem, p, mem')
  {
    hide *;
    var c := OctetString(octets);
    PackableStrings(c, aligned, p);
    OctetsPackedParts(octets, aligned, mem, p, mem', p');
    OctetsPackedEnd(octets, aligned, mem, p, mem', p');
    if Clean(mem, p) {
      CleanLaid(Length, |octets|, aligned, mem, p);
      OctetStringImage(octets, aligned, p);
    }
    WrittenOne(c, aligned, mem, p, mem');
  }

  lemma OctetStringImage(octets: seq<byte>, aligned: bool, p: nat)
    requires Packable(OctetString(octets), aligned) && Encodable(Length, |octets|)
    ensures Image(OctetString(octets), aligned, p) == FieldImage(Length, |octets|, aligned, p) + BytesBits(octets)
  {
    hide FieldImage, BytesBits;
  }

  /** Strings without a length and flags have no filler. */
  lemma WrittenBits(c: Content, aligned: bool, mem: seq<bool>, p: nat, mem': seq<bool>, bits: seq<bool>)
    requires Packable(c, aligned) && (c.BitString? || c.Groups?)
    requires c.BitString? ==> 0 < c.size && |c.octets| == OctetsFor(c.size) && bits == BitstringBits(c.octets, c.size)
    requires c.Groups? ==> 1 <= NofGroups(c.flags) && bits == GroupBits(c.flags)
    requires p + |bits| <= |mem| && mem' == Overlay(mem, p, bits)
    ensures Written([c], aligned, mem, p, mem')
  {
    hide *;
    PackableStrings(c, aligned, p);
    BareImage(c, aligned, p);
    WrittenOne(c, aligned, mem, p, mem');
  }

  lemma BareImage(c: Content, aligned: bool, p: nat)
    requires Packable(c, aligned) && (c.BitString? || c.Groups?)
    ensures c.BitString? ==> 0 < c.size && |c.octets| == OctetsFor(c.size) && Image(c, aligned, p) == BitstringBits(c.octets, c.size)
    ensures c.Groups? ==> 1 <= NofGroups(c.flags) && Image(c, aligned, p) == GroupBits(c.flags)
  {
    hide BitstringBits, NatBits, NofGroups, Grown;
  }

  lemma WrittenOpen(inner: seq<Content>, aligned: bool, blank: seq<bool>, scratch: seq<bool>, d: nat,
                    mem: seq<bool>, p: nat, mem': seq<bool>)
    requires Packable(Open(inner), aligned) && AllPackable(inner, aligned) && d == EndContents(inner, aligned, 0)
    requires Written(inner, aligned, blank, 0, scratch) && CopiedBehind(aligned, mem, p, scratch, d, mem')
    ensures Written([Open(inner)], aligned, mem, p, mem')
  {
    hide *;
    var n, e := Octets(d), Images(inner, aligned, 0);
    EndOpen(inner, aligned, p);
    CleanStart(blank);
    WrittenParts(inner, aligned, blank, 0, scratch);
    OverlayAt(blank, 0, e);
    FromStart(scratch, d);
    CopiedBehindParts(aligned, mem, p, scratch, d, mem');
    OpenImage(inner, aligned, p);
    if Clean(mem, p) { CleanLaid(Length, n, aligned, mem, p); }
    WrittenOne(Open(inner), aligned, mem, p, mem');
  }

  lemma CopiedBehindParts(aligned: bool, mem: seq<bool>, p: nat, scratch: seq<bool>, d: nat, mem': seq<bool>)
    requires CopiedBehind(aligned, mem, p, scratch, d, mem')
    ensures var n := Octets(d);
            && n < ASN_16K && d <= |scratch| && d <= 8 * n && p + PadLen(p) <= |mem| && Encodable(Length, n)
            && End(Length, n, aligned, p) + 8 * n <= |mem| && p + |Laid(Length, n, aligned, mem, p)| == End(Length, n, aligned, p)
            && mem' == Overlay(mem, p, Laid(Length, n, aligned, mem, p) + (scratch[..d] + Zeros(8 * n - d)))
  {
    hide Overlay, Encoding, PadLen, Octets;
  }

  lemma OpenImage(inner: seq<Content>, aligned: bool, p: nat)
    requires Packable(Open(inner), aligned) && AllPackable(inner, aligned)
    requires Encodable(Length, Octets(EndContents(inner, aligned, 0)))
    ensures var e, n := Images(inner, aligned, 0), Octets(EndContents(inner, aligned, 0));
            8 * n >= |e| ==> Image(Open(inner), aligned, p) == FieldImage(Length, n, aligned, p) + (e + Zeros(8 * n - |e|))
  {
    hide Images, FieldImage, Octets, EndContents, AllPackable, Encodable;
  }

  lemma CleanStart(mem: seq<bool>)
    ensures Clean(mem, 0)
  {
    assert PadLen(0) == 0;
  }

  ghost predicate OctetLong(mem: seq<bool>) {
    |mem| % 8 == 0
  }

  /** Packing leaves a clean position behind. */
  lemma CleanAfter(mem: seq<bool>, p: nat, b: seq<bool>)
    requires Clean(mem, p) && p + |b| <= |mem| && OctetLong(mem)
    ensures Clean(Overlay(mem, p, b), p + |b|)
  {
    hide *;
    var q, m := p + |b|, Overlay(mem, p, b);
    PadInside(mem, q);
    if b == [] {
      OverlayAt(mem, p, b);
    } else {
      forall i | q <= i < q + PadLen(q) ensures !m[i] {
        OverlayClears(mem, p, b, i);
      }
      CleanIs(m, q);
    }
  }

  lemma PadInside(mem: seq<bool>, q: nat)
    requires OctetLong(mem) && q <= |mem|
    ensures q + PadLen(q) <= |mem|
  {
  }

  lemma OverlayClears(mem: seq<bool>, p: nat, b: seq<bool>, i: nat)
    requires b != [] && p + |b| <= i < p + |b| + PadLen(p + |b|) <= |mem|
    ensures !Overlay(mem, p, b)[i]
  {
    hide PadLen;
  }

  lemma CleanIs(mem: seq<bool>, p: nat)
    requires p + PadLen(p) <= |mem| && forall i :: p <= i < p + PadLen(p) ==> !mem[i]
    ensures Clean(mem, p)
  {
    hide PadLen;
  }

  lemma WrittenParts(cs: seq<Content>, aligned: bool, mem: seq<bool>, p: nat, mem': seq<bool>)
    requires Written(cs, aligned, mem, p, mem') && Clean(mem, p)
    ensures AllPackable(cs, aligned) && p + |Images(cs, aligned, p)| == EndContents(cs, aligned, p) <= |mem|
    ensures mem' == Overlay(mem, p, Images(cs, aligned, p))
  {
    hide Clean, AllPackable, Images, EndContents, Overlay;
  }

  lemma WrittenIf(cs: seq<Content>, aligned: bool, mem: seq<bool>, p: nat, mem': seq<bool>)
    requires Clean(mem, p) ==>
      && AllPackable(cs, aligned)
      && p + |Images(cs, aligned, p)| == EndContents(cs, aligned, p) <= |mem|
      && mem' == Overlay(mem, p, Images(cs, aligned, p))
    ensures Written(cs, aligned, mem, p, mem')
  {
    hide Clean, AllPackable, Images, EndContents, Overlay;
  }

  lemma WrittenCons(cs: seq<Content>, aligned: bool, mem0: seq<bool>, p0: nat,
                    mem1: seq<bool>, p1: nat, mem2: seq<bool>, p2: nat)
    requires cs != [] && OctetLong(mem0)
    requires Packable(cs[0], aligned) && p1 == EndContent(cs[0], aligned, p0)
    requires AllPackable(cs, aligned) && p2 == EndContents(cs, aligned, p0) <= |mem0|
    requires Written([cs[0]], aligned, mem0, p0, mem1) && Written(cs[1..], aligned, mem1, p1, mem2)
    ensures Written(cs, aligned, mem0, p0, mem2)
  {
    hide *;
    if Clean(mem0, p0) {
      var c, rest := cs[0], cs[1..];
      EndContentsCons(cs, aligned, p0);
      EndOne(c, aligned, p0);
      ImagesCons(cs, aligned, p0);
      WrittenParts([c], aligned, mem0, p0, mem1);
      CleanAfter(mem0, p0, Image(c, aligned, p0));
      WrittenParts(rest, aligned, mem1, p1, mem2);
      OverlayCompose(mem0, p0, Image(c, aligned, p0), Images(rest, aligned, p1));
    }
    WrittenIf(cs, aligned, mem0, p0, mem2);
  }

  lemma ImagesCons(cs: seq<Content>, aligned: bool, p: nat)
    requires AllPackable(cs, aligned) && cs != [] && Packable(cs[0], aligned) && AllPackable([cs[0]], aligned)
    ensures AllPackable(cs[1..], aligned)
    ensures Images(cs, aligned, p) == Image(cs[0], aligned, p) + Images(cs[1..], aligned, EndContent(cs[0], aligned, p))
    ensures Images([cs[0]], aligned, p) == Image(cs[0], aligned, p)
  {
    hide Image, EndContent, Packable;
    assert [cs[0]][1..] == [];
    assert Image(cs[0], aligned, p) + [] == Image(cs[0], aligned, p);
  }

  /** The repository's own consistency test, for every message at once: what is packed unpacks,
      what was unpacked packs again, the three cursors agree and so do the octets. */
  method TestPackUnpackConsistency(cs: seq<Content>, aligned: bool) returns (r: int)
    requires AllPackable(cs, aligned) && EndContents(cs, aligned, 0) <= 8 * 2048
    ensures r == 0
  {
    hide *;
    PackableForms(cs, aligned);
    var buf := new byte[2048](_ => 0);
    var buf2 := new byte[2048](_ => 0);
    var bref := new BitRef(buf, 2048);
    var bref2 := new BitRef(buf, 2048);
    var bref3 := new BitRef(buf2, 2048);
    ghost var blank := bref.Mem();
    MemIs(bref);
    MemIs(bref3);
    assert buf[..] == buf2[..];
    var packed := PackContents(bref, cs, aligned);
    DeliveredParts(cs, aligned, packed, blank, 0, bref.Mem(), bref.Pos(), 8 * 2048);
    MemIs(bref);
    MemIs(bref2);
    if packed != Success { return -1; }
    var u := UnpackContents(bref2, FormsOf(cs), aligned);
    if u.code != Success { return -1; }
    packed := PackContents(bref3, u.contents, aligned);
    DeliveredParts(cs, aligned, packed, blank, 0, bref3.Mem(), bref3.Pos(), 8 * 2048);
    if packed != Success { return -1; }
    if bref3.Pos() != bref2.Pos() { return -1; }
    if bref3.Pos() != bref.Pos() { return -1; }
    MemIs(bref);
    MemIs(bref3);
    SameWriting(cs, aligned, blank, buf[..], buf2[..]);
    DistanceBytesFit(bref);
    if buf[..][..bref.DistanceBytes()] != buf2[..][..bref.DistanceBytes()] { return -1; }
    return 0;
  }

  /** A message packed at any bit offset and read from there again, as a copy of the cursor
      made before packing would read it: the same message, and the cursor ends where packing
      ended. What precedes the message has not changed. */
  method PackThenUnpack(bref: BitRef, cs: seq<Content>, aligned: bool) returns (r: Unpacked)
    requires bref.Valid() && AllPackable(cs, aligned) && EndContents(cs, aligned, bref.Pos()) <= 8 * bref.max
    modifies bref, bref.buf
    ensures bref.Valid() && bref.buf == old(bref.buf) && bref.max == old(bref.max)
    ensures r == Unpacked(cs, Success) && bref.Pos() == old(EndContents(cs, aligned, bref.Pos()))
    ensures old(bref.Pos()) <= |bref.Mem()| == |old(bref.Mem())|
            && bref.Mem()[..old(bref.Pos())] == old(bref.Mem())[..old(bref.Pos())]
  {
    ghost var mem, p := bref.Mem(), bref.Pos();
    var ptr, offset := bref.ptr, bref.offset;
    Rewound(bref, ptr, offset);
    hide *;
    PackableForms(cs, aligned);
    var packed := PackContents(bref, cs, aligned);
    ghost var written, end := bref.Mem(), bref.Pos();
    DeliveredParts(cs, aligned, packed, mem, p, written, end, 8 * bref.max);
    MemIs(bref);
    bref.ptr, bref.offset := ptr, offset;
    MemIs(bref);
    Rewound(bref, ptr, offset);
    r := UnpackContents(bref, FormsOf(cs), aligned);
    MemIs(bref);
  }

  /** A cursor inside the buffer is valid wherever it points to. */
  lemma Rewound(bref: BitRef, ptr: nat, offset: nat)
    requires bref.ptr == ptr && bref.offset == offset
    ensures bref.Pos() == 8 * ptr + offset
    ensures bref.Valid() == (ptr <= bref.max <= bref.buf.Length && offset < 8 && (offset != 0 ==> ptr < bref.max))
  {
  }

  /** Two writings of one message on clean memory are the same octets. */
  lemma SameWriting(cs: seq<Content>, aligned: bool, blank: seq<bool>, a: seq<byte>, b: seq<byte>)
    requires |a| == |b| && Written(cs, aligned, blank, 0, BytesBits(a)) && Written(cs, aligned, blank, 0, BytesBits(b))
    ensures a == b
  {
    hide *;
    CleanStart(blank);
    WrittenParts(cs, aligned, blank, 0, BytesBits(a));
    WrittenParts(cs, aligned, blank, 0, BytesBits(b));
    BytesBitsInjective(a, b);
  }

  lemma MemIs(bref: BitRef)
    ensures bref.Mem() == BytesBits(bref.buf[..])
  {
  }

  lemma DistanceBytesFit(bref: BitRef)
    requires bref.Valid()
    ensures bref.DistanceBytes() <= bref.buf.Length
  {
  }
}
