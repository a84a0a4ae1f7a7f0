/** The older codec: a message is an array with one element per bit, fields are written into
    it most significant bit first, and the array is packed into octets at the end. */
module LiblteBits {
  import opened Bits
  import opened BitRefs

  /** One array element per bit. */
  function Elements(b: seq<bool>): (s: seq<byte>)
    ensures |s| == |b|
  {
    seq(|b|, i requires 0 <= i < |b| => if b[i] then 1 else 0)
  }

  /** Element i of a number's n bits is its digit of weight 2^(n-1-i). */
  lemma ElementOfNumber(v: nat, n: nat, i: nat)
    requires i < n
    ensures Elements(NatBits(v, n))[i] == Shr(v, n - 1 - i) % 2
  {
    hide NatBits, Shr;
    NatBitsAt(v, n, n - 1 - i);
  }

  lemma ElementsConcat(a: seq<bool>, b: seq<bool>)
    ensures Elements(a + b) == Elements(a) + Elements(b)
  {
  }

  lemma ElementsSlice(b: seq<bool>, i: nat, j: nat)
    requires i <= j <= |b|
    ensures Elements(b)[i..j] == Elements(b[i..j])
  {
  }

  /** Bit i of an n-bit field, counted from the top. */
  lemma {:induction false} FieldBitAt(v: nat, n: nat, i: nat)
    requires i < n
    ensures NatBits(v, n)[i] == (Shr(v, n - i - 1) % 2 == 1)
    decreases n
  {
    if i == n - 1 {
      ShrZero(v);
    } else {
      FieldBitAt(v / 2, n - 1, i);
      ShrTwo(v, n - i - 2);
    }
  }

  /** Writes the n low bits of a value from bits[at] on; the result is the advanced pointer. */
  method LiblteValue2Bits(value: uint32, bits: array<byte>, at: nat, n: nat) returns (next: nat)
    requires n <= 32 && at + n <= bits.Length
    modifies bits
    ensures next == at + n
    ensures bits[at..next] == Elements(NatBits(value, n))
    ensures forall j :: 0 <= j < bits.Length && !(at <= j < next) ==> bits[j] == old(bits[j])
  {
    var i := 0;
    while i < n
      invariant 0 <= i <= n
      invariant forall j :: 0 <= j < i ==> bits[at + j] == Elements(NatBits(value, n))[j]
      invariant forall j :: 0 <= j < bits.Length && !(at <= j < at + i) ==> bits[j] == old(bits[j])
    {
      FieldBitAt(value, n, i);
      bits[at + i] := Shr(value, n - i - 1) % 2;
      i := i + 1;
    }
    return at + n;
  }

  /** Reads n bits from bits[at] on. Elements are 0 or 1, as the writer leaves them. */
  method LiblteBits2Value(bits: array<byte>, at: nat, n: nat, ghost b: seq<bool>) returns (value: nat, next: nat)
    requires n <= 32 && at + n <= bits.Length && |b| == n && bits[at..at + n] == Elements(b)
    ensures next == at + n && value == BitsNat(b)
  {
    value := 0;
    var i := 0;
    while i < n
      invariant 0 <= i <= n
      invariant value == Shl(BitsNat(b[..i]), n - i)
    {
      assert bits[at + i] == bits[at..at + n][i] == Elements(b)[i];
      BitsNatSnoc(b, i, n);
      value := value + Shl(bits[at + i], n - i - 1);
      i := i + 1;
    }
    assert b[..n] == b;
    ShlZero(BitsNat(b));
    return value, at + n;
  }

  lemma BitsNatSnoc(b: seq<bool>, i: nat, n: nat)
    requires i < |b| == n
    ensures Shl(BitsNat(b[..i + 1]), n - i - 1)
      == Shl(BitsNat(b[..i]), n - i) + Shl(if b[i] then 1 else 0, n - i - 1)
  {
    assert b[..i + 1][..i] == b[..i];
    ShlSum(2 * BitsNat(b[..i]), if b[i] then 1 else 0, n - i - 1);
    assert Shl(BitsNat(b[..i]), 1) == 2 * BitsNat(b[..i]) by { Pow2Values(); }
    ShlAdd(BitsNat(b[..i]), 1, n - i - 1);
  }

  /** The octets liblte_pack makes of a bit string: whole octets first; a remainder of fewer
      than eight bits becomes one more octet holding it right-justified. */
  ghost function LibltePacked(b: seq<bool>): (s: seq<byte>)
    ensures |s| == (|b| + 7) / 8
    decreases |b|
  {
    if |b| == 0 then []
    else if |b| < 8 then (OctetValue(b); [BitsNat(b)])
    else (OctetValue(b[..8]); [BitsNat(b[..8])] + LibltePacked(b[8..]))
  }

  lemma OctetValue(b: seq<bool>)
    requires |b| <= 8
    ensures BitsNat(b) < 256
  {
    BitsNatBound(b);
    Pow2Monotone(|b|, 8);
    Pow2Values();
  }

  /** When the length is a multiple of eight the octets spell the bit string ... */
  lemma {:induction false} LibltePackedWhole(b: seq<bool>)
    requires |b| % 8 == 0
    ensures BytesBits(LibltePacked(b)) == b
    decreases |b|
  {
    if |b| > 0 {
      var s := LibltePacked(b);
      LibltePackedWhole(b[8..]);
      NatBitsOfBitsNat(b[..8]);
      assert s[1..] == LibltePacked(b[8..]);
      assert b == b[..8] + b[8..];
    }
  }

  method LibltePack(bits: array<byte>, nBits: nat, bytes: array<byte>, ghost b: seq<bool>)
    requires nBits <= bits.Length && (nBits + 7) / 8 <= bytes.Length && bits != bytes
    requires |b| == nBits && bits[..nBits] == Elements(b)
    modifies bytes
    ensures bytes[..(nBits + 7) / 8] == LibltePacked(b)
  {
    hide *;
    var whole, rest := nBits / 8, nBits % 8;
    assert nBits == 8 * whole + rest && (nBits + 7) / 8 == whole + (if rest > 0 then 1 else 0);
    var at, i := 0, 0;
    ghost var done: seq<byte> := [];
    assert b[0..] == b && done + LibltePacked(b) == LibltePacked(b);
    while i < whole
      invariant 0 <= i <= whole && at == 8 * i && |done| == i
      invariant forall j :: 0 <= j < i ==> bytes[j] == done[j]
      invariant done + LibltePacked(b[at..]) == LibltePacked(b)
    {
      ghost var octet := b[at..at + 8];
      ElementsOf(bits[..], nBits, b, at, at + 8);
      LibltePackedStep(b, at);
      var v;
      v, at := LiblteBits2Value(bits, at, 8, octet);
      bytes[i] := v;
      AppendAssoc(done, v, LibltePacked(b[at..]));
      done := done + [v];
      i := i + 1;
    }
    LibltePackedRest(b[at..]);
    if rest > 0 {
      ElementsOf(bits[..], nBits, b, at, nBits);
      var v;
      v, at := LiblteBits2Value(bits, at, rest, b[at..]);
      bytes[whole] := v;
      done := done + [v];
    }
    assert bytes[..(nBits + 7) / 8] == done;
  }

  lemma AppendAssoc<T>(a: seq<T>, v: T, c: seq<T>)
    ensures a + ([v] + c) == (a + [v]) + c
  {
  }

  lemma ElementsOf(s: seq<byte>, n: nat, b: seq<bool>, i: nat, j: nat)
    requires i <= j <= n <= |s| && |b| == n && s[..n] == Elements(b)
    ensures s[i..j] == Elements(b[i..j])
    ensures j == n ==> b[i..j] == b[i..]
  {
    ElementsSlice(b, i, j);
    hide *;
    SliceOfSlice(s, 0, n, i, j - i);
    assert s[0..n] == s[..n];
  }

  lemma LibltePackedRest(b: seq<bool>)
    requires |b| < 8
    ensures BitsNat(b) < 256
    ensures LibltePacked(b) == if b == [] then [] else [BitsNat(b)]
  {
    OctetValue(b);
  }

  lemma LibltePackedStep(b: seq<bool>, at: nat)
    requires at + 8 <= |b|
    ensures BitsNat(b[at..at + 8]) < 256
    ensures LibltePacked(b[at..]) == [BitsNat(b[at..at + 8])] + LibltePacked(b[at + 8..])
  {
    OctetValue(b[at..at + 8]);
    DropThenTake(b, at, 8);
    assert b[at..][8..] == b[at + 8..];
  }

  /** The bits that do not fill an octet. */
  function Remainder(b: seq<bool>): seq<bool> {
    b[|b| - |b| % 8..]
  }

  /** What the bit cursor leaves: the bits, then clear bits up to the octet boundary. */
  function ZeroPadded(b: seq<bool>): seq<bool> {
    b + Zeros(PadLen(|b|))
  }

  /** ... and in general the octets spell the bit string with zero padding behind it, as the
      bit cursor would have left it, exactly when the remainder is empty or all clear. */
  lemma {:induction false} LibltePackedExact(b: seq<bool>)
    ensures BytesBits(LibltePacked(b)) == ZeroPadded(b) <==> BitsNat(Remainder(b)) == 0
    decreases |b|
  {
    if |b| == 0 {
    } else if |b| < 8 {
      RemainderExact(b);
    } else {
      hide *;
      var t := b[8..];
      LibltePackedExact(t);
      PackedTail(b);
      PaddedTail(b);
      SameTail(b[..8], BytesBits(LibltePacked(t)), ZeroPadded(t));
    }
  }

  lemma PackedTail(b: seq<bool>)
    requires |b| >= 8
    ensures BytesBits(LibltePacked(b)) == b[..8] + BytesBits(LibltePacked(b[8..]))
  {
    OctetValue(b[..8]);
    NatBitsOfBitsNat(b[..8]);
    assert LibltePacked(b)[1..] == LibltePacked(b[8..]);
  }

  lemma PaddedTail(b: seq<bool>)
    requires |b| >= 8
    ensures ZeroPadded(b) == b[..8] + ZeroPadded(b[8..])
    ensures Remainder(b[8..]) == Remainder(b)
  {
    assert PadLen(|b|) == PadLen(|b| - 8);
    hide PadLen;
  }

  lemma SameTail(a: seq<bool>, b: seq<bool>, c: seq<bool>)
    ensures a + b == a + c <==> b == c
  {
    if a + b == a + c {
      assert b == (a + b)[|a|..] == (a + c)[|a|..] == c;
    }
  }

  lemma RemainderExact(b: seq<bool>)
    requires 0 < |b| < 8
    ensures BytesBits(LibltePacked(b)) == ZeroPadded(b) <==> BitsNat(Remainder(b)) == 0
  {
    hide *;
    var k := 8 - |b|;
    RemainderWhole(b);
    RightJustified(b);
    if Zeros(k) + b == b + Zeros(k) { ShiftedSame(b, k); }
    if BitsNat(b) == 0 {
      NatBitsOfBitsNat(b);
      NatBitsZero(|b|);
      ZerosCommute(k, |b|);
    }
  }

  lemma ZerosCommute(k: nat, n: nat)
    ensures Zeros(k) + Zeros(n) == Zeros(n) + Zeros(k)
  {
  }

  lemma RemainderWhole(b: seq<bool>)
    requires 0 < |b| < 8
    ensures Remainder(b) == b
    ensures ZeroPadded(b) == b + Zeros(8 - |b|)
  {
    SmallMod(|b|);
    hide PadLen;
    assert b[0..] == b;
  }

  lemma SmallMod(n: nat)
    requires 0 < n < 8
    ensures n % 8 == n && PadLen(n) == 8 - n
  {
  }

  lemma RightJustified(b: seq<bool>)
    requires 0 < |b| < 8
    ensures BytesBits(LibltePacked(b)) == Zeros(8 - |b|) + b
  {
    hide *;
    OctetValue(b);
    BitsNatBound(b);
    OneOctet(b);
    SmallOctet(BitsNat(b), 8 - |b|, |b|);
    NatBitsOfBitsNat(b);
  }

  lemma SmallOctet(x: nat, k: nat, r: nat)
    requires k + r == 8 && x < Pow2(r)
    ensures NatBits(x, 8) == Zeros(k) + NatBits(x, r)
  {
    hide *;
    NatBitsSplit(x, k, r);
    LowSmall(x, r);
    NatBitsZero(k);
  }

  lemma OneOctet(b: seq<bool>)
    requires 0 < |b| < 8
    ensures BytesBits(LibltePacked(b)) == NatBits(BitsNat(b), 8)
  {
    hide NatBits, BitsNat;
    assert LibltePacked(b)[1..] == [];
  }

  /** A number that stays the same when shifted up is zero. */
  lemma ShiftedSame(b: seq<bool>, k: nat)
    requires k > 0 && Zeros(k) + b == b + Zeros(k)
    ensures BitsNat(b) == 0
  {
    var x := BitsNat(b);
    ZerosNat(k);
    BitsNatConcat(b, Zeros(k));
    BitsNatConcat(Zeros(k), b);
    Pow2Monotone(1, k);
    hide BitsNat, Pow2;
    assert Shl(0, |b|) == 0;
    assert x == x * Pow2(k);
    if x > 0 {
      assert x * Pow2(k) == x + x * (Pow2(k) - 1);
      MulAtLeast(Pow2(k) - 1, x);
    }
  }

  lemma ZerosNat(k: nat)
    ensures BitsNat(Zeros(k)) == 0
  {
    NatBitsZero(k);
    BitsNatOfNatBits(0, k);
    LowSmall(0, k);
  }

  // ------------------------------------------------------------ the two codecs side by side

  datatype FieldValue = FieldValue(value: uint32, width: nat)

  ghost predicate ValidFields(fs: seq<FieldValue>) {
    forall f <- fs :: f.width < 32
  }

  function Width(fs: seq<FieldValue>): nat {
    if fs == [] then 0 else Width(fs[..|fs| - 1]) + fs[|fs| - 1].width
  }

  function FieldsBits(fs: seq<FieldValue>): (b: seq<bool>)
    ensures |b| == Width(fs)
  {
    if fs == [] then []
    else FieldsBits(fs[..|fs| - 1]) + NatBits(fs[|fs| - 1].value, fs[|fs| - 1].width)
  }

  lemma FieldsBitsSnoc(fs: seq<FieldValue>, i: nat)
    requires i < |fs|
    ensures FieldsBits(fs[..i + 1]) == FieldsBits(fs[..i]) + NatBits(fs[i].value, fs[i].width)
    ensures Width(fs[..i + 1]) == Width(fs[..i]) + fs[i].width
  {
    assert fs[..i + 1][..i] == fs[..i];
  }

  lemma {:induction false} WidthPrefix(fs: seq<FieldValue>, i: nat)
    requires i <= |fs|
    ensures Width(fs[..i]) <= Width(fs)
    decreases |fs|
  {
    if i == |fs| {
      assert fs[..i] == fs;
    } else {
      WidthPrefix(fs[..|fs| - 1], i);
      assert fs[..|fs| - 1][..i] == fs[..i];
    }
  }

  method WriteBitArray(fs: seq<FieldValue>, bits: array<byte>)
    requires ValidFields(fs) && Width(fs) <= bits.Length
    modifies bits
    ensures bits[..Width(fs)] == Elements(FieldsBits(fs))
  {
    var at, i := 0, 0;
    while i < |fs|
      invariant 0 <= i <= |fs| && at == Width(fs[..i]) <= bits.Length
      invariant bits[..at] == Elements(FieldsBits(fs[..i]))
    {
      FieldsBitsSnoc(fs, i);
      WidthPrefix(fs, i + 1);
      ghost var before, was := bits[..at], at;
      at := LiblteValue2Bits(fs[i].value, bits, at, fs[i].width);
      assert bits[..was] == before;
      assert bits[..at] == bits[..was] + bits[was..at];
      ElementsConcat(FieldsBits(fs[..i]), NatBits(fs[i].value, fs[i].width));
      i := i + 1;
    }
    assert fs[..|fs|] == fs;
  }

  method WriteBitRef(fs: seq<FieldValue>, bref: BitRef) returns (code: Code)
    requires bref.Valid() && ValidFields(fs)
    modifies bref`ptr, bref`offset, bref.buf
    ensures bref.Valid()
    ensures code == Success <==> old(bref.Pos()) + Width(fs) <= 8 * bref.max
    ensures code == Success ==>
      && bref.Pos() == old(bref.Pos()) + Width(fs)
      && bref.Mem() == Overlay(old(bref.Mem()), old(bref.Pos()), FieldsBits(fs))
  {
    hide NatBits, BytesBits, Overlay;
    ghost var mem0, p0 := bref.Mem(), bref.Pos();
    OverlayAt(mem0, p0, []);
    assert fs[..0] == [];
    var i := 0;
    while i < |fs|
      invariant 0 <= i <= |fs| && bref.Valid()
      invariant bref.Pos() == p0 + Width(fs[..i]) <= 8 * bref.max
      invariant bref.Mem() == Overlay(mem0, p0, FieldsBits(fs[..i]))
    {
      FieldsBitsSnoc(fs, i);
      WidthPrefix(fs, i + 1);
      code := bref.Pack(fs[i].value, fs[i].width);
      if code != Success { return; }
      OverlayCompose(mem0, p0, FieldsBits(fs[..i]), NatBits(fs[i].value, fs[i].width));
      i := i + 1;
    }
    assert fs[..|fs|] == fs;
    return Success;
  }

  /** Fields written both ways from the start of a buffer give the same octets exactly when the
      widths add up to whole octets or the bits of the last, partial octet are all clear. */
  lemma SameOctets(fs: seq<FieldValue>, octets: seq<byte>, mem: seq<bool>)
    requires |octets| == (Width(fs) + 7) / 8 && 8 * |octets| <= |mem|
    requires BytesBits(octets) == Overlay(mem, 0, FieldsBits(fs))[..8 * |octets|]
    ensures octets == LibltePacked(FieldsBits(fs)) <==> BitsNat(Remainder(FieldsBits(fs))) == 0
    ensures Width(fs) % 8 == 0 ==> octets == LibltePacked(FieldsBits(fs))
  {
    hide *;
    var b := FieldsBits(fs);
    PackedSize(fs);
    LibltePackedExact(b);
    OverlayPadded(mem, b);
    if BytesBits(octets) == BytesBits(LibltePacked(b)) {
      BytesBitsInjective(octets, LibltePacked(b));
    }
  }

  lemma PackedSize(fs: seq<FieldValue>)
    ensures var b := FieldsBits(fs);
            |b| == Width(fs) && |b| + PadLen(|b|) == 8 * |LibltePacked(b)| && |LibltePacked(b)| == (Width(fs) + 7) / 8
    ensures Width(fs) % 8 == 0 ==> BitsNat(Remainder(FieldsBits(fs))) == 0
  {
    hide *;
    var b := FieldsBits(fs);
    OctetsTouched(|b|);
    if |b| % 8 == 0 {
      NoRemainder(b);
    }
  }

  lemma OctetsTouched(n: nat)
    ensures n + PadLen(n) == 8 * ((n + 7) / 8)
  {
  }

  lemma NoRemainder(b: seq<bool>)
    requires |b| % 8 == 0
    ensures BitsNat(Remainder(b)) == 0
  {
    assert Remainder(b) == [];
  }

  lemma OverlayPadded(mem: seq<bool>, b: seq<bool>)
    requires |b| + PadLen(|b|) <= |mem|
    ensures Overlay(mem, 0, b)[..|b| + PadLen(|b|)] == ZeroPadded(b)
  {
    var m := Overlay(mem, 0, b);
    if b == [] {
      assert PadLen(0) == 0;
    } else {
      forall i | 0 <= i < |b| + PadLen(|b|) ensures m[i] == (b + Zeros(PadLen(|b|)))[i] {
        assert m[i] == OverlayBit(mem, 0, b, i);
      }
    }
  }

  // ------------------------------------------------------------ unpacking

  /** liblte_unpack: eight elements per octet. */
  method LiblteUnpack(bytes: array<byte>, nBytes: nat, bits: array<byte>)
    requires nBytes <= bytes.Length && 8 * nBytes <= bits.Length && bits != bytes
    modifies bits
    ensures bits[..8 * nBytes] == Elements(BytesBits(bytes[..nBytes]))
  {
    hide *;
    var at, i := 0, 0;
    ghost var done: seq<bool> := [];
    NoOctets();
    assert bytes[..0] == [];
    while i < nBytes
      invariant 0 <= i <= nBytes && at == 8 * i == |done|
      invariant done == BytesBits(bytes[..i])
      invariant forall j :: 0 <= j < at ==> bits[j] == Elements(done)[j]
    {
      ghost var octet := NatBits(bytes[i], 8);
      ghost var was := done;
      OneMoreOctet(bytes[..i], bytes[i]);
      assert bytes[..i] + [bytes[i]] == bytes[..i + 1];
      ElementsConcat(was, octet);
      at := LiblteValue2Bits(bytes[i], bits, at, 8);
      done := was + octet;
      ElementsAt(bits[..], was, octet);
      i := i + 1;
    }
    assert bits[..8 * nBytes] == Elements(done);
  }

  lemma ElementsAt(s: seq<byte>, a: seq<bool>, b: seq<bool>)
    requires |a| + |b| <= |s| && s[|a|..|a| + |b|] == Elements(b)
    requires forall j :: 0 <= j < |a| ==> s[j] == Elements(a)[j]
    ensures forall j :: 0 <= j < |a| + |b| ==> s[j] == Elements(a + b)[j]
  {
    forall j | 0 <= j < |a| + |b|
      ensures s[j] == Elements(a + b)[j]
    {
      if j >= |a| {
        assert s[|a|..|a| + |b|][j - |a|] == s[j];
      }
    }
  }

  lemma NoOctets()
    ensures BytesBits([]) == []
  {
  }

  lemma OneMoreOctet(s: seq<byte>, x: byte)
    ensures BytesBits(s + [x]) == BytesBits(s) + NatBits(x, 8)
  {
    hide NatBits;
    BytesBitsConcat(s, [x]);
    assert [x][1..] == [];
  }

  /** Packing the bits of any octets gives the octets back; unpacking what was packed gives the
      bits back when their number is a multiple of eight. */
  lemma UnpackPackRoundTrip(s: seq<byte>, b: seq<bool>)
    ensures LibltePacked(BytesBits(s)) == s
    ensures BytesBits(LibltePacked(b)) == b <==> |b| % 8 == 0
  {
    hide *;
    LibltePackedWhole(BytesBits(s));
    PackedOctets(s);
    BytesBitsInjective(LibltePacked(BytesBits(s)), s);
    if |b| % 8 == 0 {
      LibltePackedWhole(b);
    } else {
      WholeOctets(LibltePacked(b));
    }
  }

  lemma WholeOctets(s: seq<byte>)
    ensures |BytesBits(s)| % 8 == 0
  {
    hide BytesBits;
  }

  lemma PackedOctets(s: seq<byte>)
    ensures |BytesBits(s)| % 8 == 0 && |LibltePacked(BytesBits(s))| == |s|
  {
    hide LibltePacked, BytesBits;
  }
}
