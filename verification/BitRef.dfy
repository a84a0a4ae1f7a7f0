/** The bit cursor of the PER codec: a byte buffer, a byte pointer, a bit offset inside the
    current byte and a limit. Every method is specified on the bits of the buffer. */
module BitRefs {
  import opened Bits

  datatype Code = Success | EncodeFail | DecodeFail

  datatype ValOrError = ValOrError(val: uint32, code: Code)

  /** Bits missing to the next octet boundary. */
  function PadLen(p: nat): (n: nat)
    ensures n < 8
  {
    (8 - p % 8) % 8
  }

  lemma PadAligns(p: nat)
    ensures (p + PadLen(p)) % 8 == 0
    ensures p % 8 == 0 <==> PadLen(p) == 0
  {
  }

  /** Memory after writing bits at position p: what precedes p stays, the rest of the last
      byte touched is cleared, the bytes after it stay. */
  function Overlay(mem: seq<bool>, p: nat, bits: seq<bool>): (m: seq<bool>)
    requires p + |bits| <= |mem|
    ensures |m| == |mem|
  {
    seq(|mem|, i requires 0 <= i < |mem| => OverlayBit(mem, p, bits, i))
  }

  predicate OverlayBit(mem: seq<bool>, p: nat, bits: seq<bool>, i: nat)
    requires i < |mem|
  {
    var q := p + |bits|;
    if p <= i < q then bits[i - p]
    else if q <= i < q + PadLen(q) && bits != [] then false
    else mem[i]
  }

  lemma OverlayAt(mem: seq<bool>, p: nat, bits: seq<bool>)
    requires p + |bits| <= |mem|
    ensures Overlay(mem, p, bits)[..p] == mem[..p]
    ensures Overlay(mem, p, bits)[p..p + |bits|] == bits
    ensures bits == [] ==> Overlay(mem, p, bits) == mem
  {
  }

  /** Two writes in a row are one write. */
  lemma OverlayCompose(mem: seq<bool>, p: nat, a: seq<bool>, b: seq<bool>)
    requires p + |a| + |b| <= |mem|
    ensures Overlay(Overlay(mem, p, a), p + |a|, b) == Overlay(mem, p, a + b)
  {
    var q, r := p + |a|, p + |a| + |b|;
    assert q + PadLen(q) <= r + PadLen(r);
    var m := Overlay(mem, p, a);
    forall i | 0 <= i < |mem|
      ensures OverlayBit(m, q, b, i) == OverlayBit(mem, p, a + b, i)
    {
      assert m[i] == OverlayBit(mem, p, a, i);
    }
  }

  /** One byte store of the packing loop: keep the byte's first o bits, put a k-bit field
      after them and leave the remaining bits clear. */
  function StoreField(b: byte, o: nat, field: nat, pad: nat): (r: nat)
    requires o + pad <= 8
  {
    Shl(Shr(b, 8 - o), 8 - o) + Shl(field, pad)
  }

  lemma StoreFieldBits(b: byte, o: nat, field: nat, k: nat, pad: nat)
    requires o + k + pad == 8 && field < Pow2(k)
    ensures Shl(field, pad) < 256 && StoreField(b, o, field, pad) < 256
    ensures NatBits(StoreField(b, o, field, pad), 8) == NatBits(b, 8)[..o] + NatBits(field, k) + Zeros(pad)
  {
    hide *;
    var h, lo := Shr(b, 8 - o), Shl(field, pad);
    StoreFieldIs(b, o, field, pad);
    Pow2Values();
    ShlBound(field, k, pad);
    Pow2Monotone(8 - o, 8);
    ShrBound(b, o, 8 - o);
    ShlBound(h, o, 8 - o);
    NatBitsSplit(b, o, 8 - o);
    SplitOfConcat(NatBits(b, 8), NatBits(h, o), NatBits(b, 8 - o), o);
    NatBitsJoin(h, lo, o, 8 - o);
    assert NatBits(lo, 8 - o) == NatBits(field, k) + Zeros(pad) by {
      NatBitsJoin(field, 0, k, pad);
      NatBitsZero(pad);
    }
    ThreeInARow(NatBits(StoreField(b, o, field, pad), 8), NatBits(h, o), NatBits(field, k), Zeros(pad));
  }

  lemma StoreFieldIs(b: byte, o: nat, field: nat, pad: nat)
    requires o + pad <= 8
    ensures StoreField(b, o, field, pad) == Shl(Shr(b, 8 - o), 8 - o) + Shl(field, pad)
  {
    hide Shl, Shr;
  }

  lemma ThreeInARow<T>(s: seq<T>, a: seq<T>, b: seq<T>, c: seq<T>)
    requires s == a + (b + c)
    ensures s == a + b + c
  {
  }

  /** Replacing the eight bits at 8 i by the old first o, a field and zeros writes the field. */
  lemma ByteOverlay(mem: seq<bool>, m: seq<bool>, i: nat, o: nat, eight: seq<bool>, field: seq<bool>)
    requires 8 * i + 8 <= |mem| && 0 < |field| && o + |field| <= 8
    requires eight == mem[8 * i..8 * i + 8][..o] + field + Zeros(8 - o - |field|)
    requires m == mem[..8 * i] + eight + mem[8 * i + 8..]
    ensures m == Overlay(mem, 8 * i + o, field)
  {
    var q := 8 * i + o + |field|;
    assert PadLen(q) == 8 - o - |field|;
    hide PadLen;
    forall j | 0 <= j < |mem|
      ensures m[j] == OverlayBit(mem, 8 * i + o, field, j)
    {
      if j < 8 * i {
        assert m[j] == mem[..8 * i][j];
      } else if j < 8 * i + 8 {
        assert m[j] == eight[j - 8 * i];
        if j < 8 * i + o {
          assert eight[j - 8 * i] == mem[8 * i..8 * i + 8][j - 8 * i] == mem[j];
        } else if j < q {
          assert eight[j - 8 * i] == field[j - 8 * i - o];
        } else {
          assert !eight[j - 8 * i];
        }
      } else {
        assert m[j] == mem[8 * i + 8..][j - 8 * i - 8] == mem[j];
      }
    }
  }

  /** One store of the packing loop writes a k-bit field at the cursor. */
  lemma StoreOverlay(s: seq<byte>, i: nat, o: nat, field: nat, k: nat)
    requires i < |s| && 0 < k && o + k <= 8 && field < Pow2(k)
    ensures Shl(field, 8 - o - k) < 256 && StoreField(s[i], o, field, 8 - o - k) < 256
    ensures BytesBits(s[i := StoreField(s[i], o, field, 8 - o - k)])
      == Overlay(BytesBits(s), 8 * i + o, NatBits(field, k))
  {
    StoreFieldBits(s[i], o, field, k, 8 - o - k);
    var v := StoreField(s[i], o, field, 8 - o - k);
    BytesBitsUpdate(s, i, v);
    BytesBitsAt(s, i);
    ByteOverlay(BytesBits(s), BytesBits(s[i := v]), i, o, NatBits(v, 8), NatBits(field, k));
  }

  /** The first done + k bits of an n-bit field, cut where n' bits remain. */
  lemma FieldChunk(val: nat, n: nat, left: nat, k: nat, v: nat)
    requires k <= left <= n && v == Low(val, left)
    ensures NatBits(val, n)[..n - left + k] == NatBits(val, n)[..n - left] + NatBits(Shr(v, left - k), k)
    ensures Shr(v, left - k) < Pow2(k)
  {
    NatBitsSplit(val, n - left, left);
    NatBitsMod(val, left, left);
    NatBitsSplit(v, k, left - k);
    ShrBound(v, k, left - k);
    var hi := NatBits(Shr(val, left), n - left);
    assert NatBits(val, n)[..n - left] == hi;
  }

  lemma LowLow(val: nat, m: nat, n: nat)
    requires n <= m
    ensures Low(Low(val, m), n) == Low(val, n)
  {
    NatBitsMod(val, m, n);
    BitsNatOfNatBits(val, n);
    BitsNatOfNatBits(Low(val, m), n);
  }

  lemma ShrZero(v: nat)
    ensures Shr(v, 0) == v
  {
  }

  lemma ShlZero(v: nat)
    ensures Shl(v, 0) == v
  {
  }

  lemma ShlOfZero(k: nat)
    ensures Shl(0, k) == 0
  {
  }

  lemma Byte8(v: nat)
    requires v < 256
    ensures Low(v, 8) == v
  {
    Pow2Values();
    LowSmall(v, 8);
  }

  /** Bits o to o + k of a byte, as a number. */
  lemma ByteField(b: byte, o: nat, k: nat)
    requires o + k <= 8
    ensures BitsNat(NatBits(b, 8)[o..o + k]) == Shr(Low(b, 8 - o), 8 - o - k)
  {
    hide *;
    var lo, rest := Low(b, 8 - o), 8 - o - k;
    NatBitsSplit(b, o, 8 - o);
    NatBitsMod(b, 8 - o, 8 - o);
    NatBitsSplit(lo, k, rest);
    MiddlePart(NatBits(b, 8), NatBits(Shr(b, 8 - o), o), NatBits(Shr(lo, rest), k), NatBits(lo, rest));
    ShrBound(lo, k, rest);
    LowSmall(Shr(lo, rest), k);
    BitsNatOfNatBits(Shr(lo, rest), k);
  }

  lemma MiddlePart<T>(s: seq<T>, a: seq<T>, b: seq<T>, c: seq<T>)
    requires s == a + (b + c)
    ensures s[|a|..|a| + |b|] == b
  {
  }

  /** The k bits the reading loop takes from one byte. */
  lemma ReadChunk(s: seq<byte>, i: nat, o: nat, k: nat)
    requires i < |s| && o + k <= 8
    ensures BitsNat(BytesBits(s)[8 * i + o..8 * i + o + k]) == Shr(Low(s[i], 8 - o), 8 - o - k)
  {
    hide *;
    OctetInside(s, i);
    BytesBitsAt(s, i);
    ByteField(s[i], o, k);
    PartOfSlice(BytesBits(s), 8 * i, 8, NatBits(s[i], 8), o, k);
  }

  lemma PartOfSlice(m: seq<bool>, at: nat, n: nat, b: seq<bool>, o: nat, k: nat)
    requires at + n <= |m| && |b| == n && m[at..at + n] == b && o + k <= n
    ensures m[at + o..at + o + k] == b[o..o + k]
  {
    SliceOfSlice(m, at, n, o, k);
  }

  lemma OctetInside(s: seq<byte>, i: nat)
    requires i < |s|
    ensures 8 * i + 8 <= |BytesBits(s)|
  {
    hide BytesBits;
  }

  /** Masking a byte to the bits [lo, hi) before shifting them down. */
  lemma MaskShift(b: byte, hi: nat, lo: nat)
    requires lo <= hi
    ensures Low(b, lo) <= Low(b, hi)
    ensures Shr(Low(b, hi) - Low(b, lo), lo) == Shr(Low(b, hi), lo)
  {
    LowLow(b, hi, lo);
    ShrLow(Low(b, hi), lo);
    ShrLowUnique(Shr(Low(b, hi), lo), 0, lo);
  }

  /** The number spelled by the bits [p, q), with n more bits still to come below it. */
  ghost function ReadSoFar(s: seq<byte>, p: nat, q: nat, n: nat): nat
    requires p <= q <= 8 * |s|
  {
    Shl(BitsNat(BytesBits(s)[p..q]), n)
  }

  lemma ReadBounds(s: seq<byte>, p: nat, q: nat, n: nat)
    requires p <= q <= 8 * |s|
    ensures p == q ==> ReadSoFar(s, p, q, n) == 0
    ensures ReadSoFar(s, p, q, 0) == BitsNat(BytesBits(s)[p..q]) < Pow2(q - p)
  {
    BitsNatBound(BytesBits(s)[p..q]);
    ShlZero(BitsNat(BytesBits(s)[p..q]));
    if p == q { assert BytesBits(s)[p..q] == []; }
  }

  /** Taking the k bits of byte i from bit o on. */
  lemma ReadExtend(s: seq<byte>, i: nat, o: nat, k: nat, p: nat, n: nat)
    requires i < |s| && o + k <= 8 && p <= 8 * i + o && k <= n && 8 * i + o + n <= p + 32
    ensures ReadSoFar(s, p, 8 * i + o + k, n - k)
      == ReadSoFar(s, p, 8 * i + o, n) + Shl(Shr(Low(s[i], 8 - o), 8 - o - k), n - k)
    ensures ReadSoFar(s, p, 8 * i + o + k, n - k) < TWO_TO_THE_32
  {
    hide NatBits, BytesBits, BitsNat, Shl, Shr, Low, Pow2;
    var mem, q := BytesBits(s), 8 * i + o;
    ReadChunk(s, i, o, k);
    assert mem[p..q + k] == mem[p..q] + mem[q..q + k];
    BitsNatConcat(mem[p..q], mem[q..q + k]);
    BitsNatBound(mem[p..q + k]);
    ShlSum(Shl(BitsNat(mem[p..q]), k), BitsNat(mem[q..q + k]), n - k);
    ShlAdd(BitsNat(mem[p..q]), k, n - k);
    ShlBound(BitsNat(mem[p..q + k]), q + k - p, n - k);
    Pow2Monotone(q - p + n, 32);
    Pow2Large();
  }

  /** The step that ends inside byte i: bits o to o + n are masked out and shifted down. */
  lemma ReadPartOfByte(s: seq<byte>, i: nat, o: nat, p: nat, n: nat)
    requires i < |s| && o + n < 8 && p <= 8 * i + o && 8 * i + o + n <= p + 32
    ensures Low(s[i], 8 - o - n) <= Low(s[i], 8 - o)
    ensures ReadSoFar(s, p, 8 * i + o + n, 0)
      == ReadSoFar(s, p, 8 * i + o, n) + Shr(Low(s[i], 8 - o) - Low(s[i], 8 - o - n), 8 - o - n)
    ensures ReadSoFar(s, p, 8 * i + o + n, 0) < TWO_TO_THE_32
  {
    hide *;
    ReadExtend(s, i, o, n, p, n);
    MaskShift(s[i], 8 - o, 8 - o - n);
    ShlZero(Shr(Low(s[i], 8 - o), 8 - o - n));
  }

  /** The step that takes the rest of byte i. */
  lemma ReadRestOfByte(s: seq<byte>, i: nat, o: nat, p: nat, n: nat)
    requires i < |s| && o < 8 && 8 - o <= n && p <= 8 * i + o && 8 * i + o + n <= p + 32
    ensures ReadSoFar(s, p, 8 * i + 8, n - 8 + o)
      == ReadSoFar(s, p, 8 * i + o, n) + Shl(Low(s[i], 8 - o), n - 8 + o)
    ensures ReadSoFar(s, p, 8 * i + 8, n - 8 + o) < TWO_TO_THE_32
  {
    hide *;
    ReadExtend(s, i, o, 8 - o, p, n);
    ShrZero(Low(s[i], 8 - o));
  }

  lemma ShlSum(a: nat, b: nat, k: nat)
    ensures Shl(a + b, k) == Shl(a, k) + Shl(b, k)
  {
  }

  lemma BytesBitsSnoc(s: seq<byte>, i: nat)
    requires i < |s|
    ensures BytesBits(s[..i + 1]) == BytesBits(s[..i]) + NatBits(s[i], 8)
  {
    assert s[..i + 1] == s[..i] + [s[i]];
    BytesBitsConcat(s[..i], [s[i]]);
    assert BytesBits([s[i]]) == NatBits(s[i], 8) + BytesBits([]);
  }

  lemma OneOctet(v: byte)
    ensures BytesBits([v]) == NatBits(v, 8)
  {
    assert BytesBits([v]) == NatBits(v, 8) + BytesBits([]);
  }

  lemma ReadOctet(s: seq<byte>, v: nat, mem: seq<bool>, p: nat, q: nat)
    requires p + 8 <= q <= |mem| && v == BitsNat(mem[q - 8..q])
    requires BytesBits(s) == mem[p..q - 8]
    ensures v < 256 && BytesBits(s + [v]) == mem[p..q]
  {
    hide *;
    BitsNatBound(mem[q - 8..q]);
    Pow2Values();
    NatBitsOfBitsNat(mem[q - 8..q]);
    BytesBitsConcat(s, [v]);
    OneOctet(v);
    SplitSlice(mem, p, q - 8, q);
  }

  lemma SliceOverlay(mem: seq<bool>, m: seq<bool>, p: nat, bits: seq<bool>)
    requires p + |bits| <= |mem| && (p + |bits|) % 8 == 0
    requires m == mem[..p] + bits + mem[p + |bits|..]
    ensures m == Overlay(mem, p, bits)
  {
    assert PadLen(p + |bits|) == 0;
    forall i | 0 <= i < |mem| ensures m[i] == OverlayBit(mem, p, bits, i) {}
  }

  /** A block copy of octets writes their bits. */
  lemma CopyOverlay(s: seq<byte>, i: nat, src: seq<byte>)
    requires i + |src| <= |s|
    ensures BytesBits(s[..i] + src + s[i + |src|..]) == Overlay(BytesBits(s), 8 * i, BytesBits(src))
  {
    hide *;
    ThreeParts(s[..i], src, s[i + |src|..]);
    BitsAround(s, i, |src|, BytesBits(src));
  }

  /** The bits before and behind k octets, with new bits between them. */
  lemma BitsAround(s: seq<byte>, i: nat, k: nat, bits: seq<bool>)
    requires i + k <= |s| && |bits| == 8 * k
    ensures 8 * i + |bits| <= |BytesBits(s)|
    ensures BytesBits(s[..i]) + bits + BytesBits(s[i + k..]) == Overlay(BytesBits(s), 8 * i, bits)
  {
    hide *;
    var mem := BytesBits(s);
    BitsInside(s, i + k);
    assert BytesBits(s[..i]) == mem[..8 * i] by { BytesBitsTake(s, i); }
    assert BytesBits(s[i + k..]) == mem[8 * (i + k)..] by { BytesBitsDrop(s, i + k); }
    OctetsOverlay(mem, i, k, bits);
  }

  lemma ThreeParts(a: seq<byte>, b: seq<byte>, c: seq<byte>)
    ensures BytesBits(a + b + c) == BytesBits(a) + BytesBits(b) + BytesBits(c)
    ensures |BytesBits(b)| == 8 * |b|
  {
    hide *;
    BytesBitsConcat(a + b, c);
    BytesBitsConcat(a, b);
  }

  lemma BitsInside(s: seq<byte>, n: nat)
    requires n <= |s|
    ensures 8 * n <= |BytesBits(s)|
  {
    hide *;
  }

  lemma OctetsOverlay(mem: seq<bool>, i: nat, k: nat, bits: seq<bool>)
    requires |bits| == 8 * k && 8 * (i + k) <= |mem|
    ensures mem[..8 * i] + bits + mem[8 * (i + k)..] == Overlay(mem, 8 * i, bits)
  {
    hide Overlay;
    assert 8 * i + |bits| == 8 * (i + k) && (8 * (i + k)) % 8 == 0;
    SliceOverlay(mem, mem[..8 * i] + bits + mem[8 * (i + k)..], 8 * i, bits);
  }

  /** A block copy out of the buffer reads their bits. */
  lemma CopyOut(s: seq<byte>, i: nat, n: nat)
    requires i + n <= |s|
    ensures BytesBits(s[i..i + n]) == BytesBits(s)[8 * i..8 * (i + n)]
  {
    hide *;
    BytesBitsTake(s, i + n);
    BytesBitsDrop(s[..i + n], i);
    TakeThenDrop(s, i, i + n);
    TakeThenDrop(BytesBits(s), 8 * i, 8 * (i + n));
  }

  /** Memory once the first done bits of an nBits-wide field have been written at p. */
  ghost function PackedSoFar(mem: seq<bool>, p: nat, val: nat, nBits: nat, done: nat): (m: seq<bool>)
    requires done <= nBits && p + done <= |mem|
    ensures |m| == |mem|
  {
    Overlay(mem, p, NatBits(val, nBits)[..done])
  }

  lemma PackedBounds(mem: seq<bool>, p: nat, val: nat, nBits: nat)
    requires p <= |mem|
    ensures PackedSoFar(mem, p, val, nBits, 0) == mem
  {
    OverlayAt(mem, p, []);
  }

  lemma PackedCut(mem: seq<bool>, p: nat, val: nat, nBits: nat, done: nat)
    requires done <= nBits && p + done <= |mem|
    ensures PackedSoFar(mem, p, val, nBits, done) == Overlay(mem, p, NatBits(val, nBits)[..done])
  {
  }

  lemma PackedAll(mem: seq<bool>, p: nat, val: nat, nBits: nat)
    requires p + nBits <= |mem|
    ensures PackedSoFar(mem, p, val, nBits, nBits) == Overlay(mem, p, NatBits(val, nBits))
  {
    assert NatBits(val, nBits)[..nBits] == NatBits(val, nBits);
  }

  /** Storing k more bits of the field in byte i, after the o bits already there. */
  lemma PackExtend(mem: seq<bool>, p: nat, val: nat, nBits: nat, n: nat, k: nat, s: seq<byte>, i: nat, o: nat)
    requires i < |s| && 0 < k <= n <= nBits && o + k <= 8
    requires p + (nBits - n) == 8 * i + o && |mem| == 8 * |s|
    requires BytesBits(s) == PackedSoFar(mem, p, val, nBits, nBits - n)
    ensures var field := Shr(Low(val, n), n - k);
      && Shl(field, 8 - o - k) < 256 && StoreField(s[i], o, field, 8 - o - k) < 256
      && BytesBits(s[i := StoreField(s[i], o, field, 8 - o - k)])
        == PackedSoFar(mem, p, val, nBits, nBits - n + k)
  {
    FieldChunk(val, nBits, n, k, Low(val, n));
    hide NatBits, Shr, Low, Pow2, Overlay, BytesBits, Shl;
    var field := Shr(Low(val, n), n - k);
    StoreOverlay(s, i, o, field, k);
    OverlayCompose(mem, p, NatBits(val, nBits)[..nBits - n], NatBits(field, k));
  }

  /** The step that ends inside byte i. */
  lemma PackPartOfByte(mem: seq<bool>, p: nat, val: nat, nBits: nat, n: nat, s: seq<byte>, i: nat, o: nat)
    requires i < |s| && 0 < n <= nBits && o + n < 8
    requires p + (nBits - n) == 8 * i + o && |mem| == 8 * |s|
    requires BytesBits(s) == PackedSoFar(mem, p, val, nBits, nBits - n)
    ensures var bit := Low(Shl(Low(val, n), 8 - o - n), 8);
      var v := Shl(Shr(s[i], 8 - o), 8 - o) + bit;
      && v < 256 && BytesBits(s[i := v]) == PackedSoFar(mem, p, val, nBits, nBits)
    ensures Low(Low(val, n), 0) == Low(val, 0)
  {
    hide NatBits, Shr, Low, Pow2, Overlay, BytesBits, Shl, PackedSoFar;
    PackExtend(mem, p, val, nBits, n, n, s, i, o);
    ShrZero(Low(val, n));
    Byte8(Shl(Low(val, n), 8 - o - n));
    LowLow(val, n, 0);
  }

  /** The step that fills byte i. */
  lemma PackRestOfByte(mem: seq<bool>, p: nat, val: nat, nBits: nat, n: nat, s: seq<byte>, i: nat, o: nat)
    requires i < |s| && o < 8 && 8 - o <= n <= nBits
    requires p + (nBits - n) == 8 * i + o && |mem| == 8 * |s|
    requires BytesBits(s) == PackedSoFar(mem, p, val, nBits, nBits - n)
    ensures var bit := Low(Shr(Low(val, n), n - 8 + o), 8);
      var v := Shl(Shr(s[i], 8 - o), 8 - o) + bit;
      && v < 256 && BytesBits(s[i := v]) == PackedSoFar(mem, p, val, nBits, nBits - (n - (8 - o)))
    ensures Low(Low(val, n), n - (8 - o)) == Low(val, n - (8 - o))
  {
    hide NatBits, Shr, Low, Pow2, Overlay, BytesBits, Shl, PackedSoFar;
    var k := 8 - o;
    PackExtend(mem, p, val, nBits, n, k, s, i, o);
    ShlZero(Shr(Low(val, n), n - k));
    Byte8(Shr(Low(val, n), n - k));
    LowLow(val, n, n - k);
  }

  /** The octets that n bits from a cursor on touch, against the position they end at. */
  lemma AdvanceFacts(ptr: nat, offset: nat, n: nat, max: nat)
    requires offset < 8
    ensures var q := 8 * ptr + offset + n;
            (ptr + (offset + n + 7) / 8 >= max <==> !(q + PadLen(q) < 8 * max))
            && 8 * (ptr + (offset + n) / 8) + (offset + n) % 8 == q
            && (ptr + (offset + n + 7) / 8 < max ==> ptr + (offset + n) / 8 < max)
  {
    OctetsAbove(8 * ptr + offset + n);
    assert (8 * ptr + offset + n + 7) / 8 == ptr + (offset + n + 7) / 8;
  }

  lemma OctetsAbove(q: nat)
    ensures q + PadLen(q) == 8 * ((q + 7) / 8)
  {
  }

  class BitRef {
    var buf: array<byte>
    var ptr: nat
    var offset: nat
    var max: nat

    ghost predicate Valid()
      reads this
    {
      ptr <= max <= buf.Length && offset < 8 && (offset != 0 ==> ptr < max)
    }

    /** The cursor's distance, in bits, from the start of the buffer. */
    function Pos(): nat
      reads `ptr, `offset
    {
      8 * ptr + offset
    }

    /** The octets the bits before the cursor touch. */
    function DistanceBytes(): nat
      reads `ptr, `offset
    {
      ptr + if offset != 0 then 1 else 0
    }

    /** The bits of the whole buffer. */
    ghost function Mem(): (m: seq<bool>)
      reads `buf, buf
      ensures |m| == 8 * buf.Length
    {
      BytesBits(buf[..])
    }

    lemma Parts()
      ensures Valid() == (ptr <= max <= buf.Length && offset < 8 && (offset != 0 ==> ptr < max))
      ensures Pos() == 8 * ptr + offset && Mem() == BytesBits(buf[..])
    {
      hide BytesBits;
    }

    constructor (buffer: array<byte>, size: nat)
      requires size <= buffer.Length
      ensures Valid() && buf == buffer && max == size && Pos() == 0
    {
      buf, ptr, offset, max := buffer, 0, 0, size;
    }

    /** Writes the n low bits of val, for n below 32, if they fit before the limit. When they
        do not, as many leading bits as fit are written and the cursor stops at the limit. */
    method Pack(val: uint32, nBits: uint32) returns (code: Code)
      requires Valid()
      modifies this`ptr, this`offset, buf
      ensures Valid()
      ensures nBits >= 32 ==> code == EncodeFail && Pos() == old(Pos()) && buf[..] == old(buf[..])
      ensures nBits < 32 ==> code == if old(Pos()) + nBits <= 8 * max then Success else EncodeFail
      ensures code == Success ==>
        Pos() == old(Pos()) + nBits && Mem() == Overlay(old(Mem()), old(Pos()), NatBits(val, nBits))
      ensures code == EncodeFail && nBits < 32 ==>
        Pos() == 8 * max && Mem() == Overlay(old(Mem()), old(Pos()), NatBits(val, nBits)[..8 * max - old(Pos())])
    {
      hide *;
      Parts();
      if nBits >= 32 { return EncodeFail; }
      var n: nat, v: nat := nBits, val;
      ghost var mem0, p0 := Mem(), Pos();
      PackedBounds(mem0, p0, val, nBits);
      while n > 0
        invariant Valid() && n <= nBits
        invariant Low(v, n) == Low(val, n)
        invariant Pos() == p0 + (nBits - n) <= 8 * max
        invariant Mem() == PackedSoFar(mem0, p0, val, nBits, nBits - n)
      {
        Parts();
        if ptr >= max {
          PackedCut(mem0, p0, val, nBits, nBits - n);
          return EncodeFail;
        }
        v := Low(v, n);
        n := PackOctet(v, n, mem0, p0, val, nBits);
      }
      PackedAll(mem0, p0, val, nBits);
      return Success;
    }

    /** Stores as many of the n bits left as the octet at the cursor has room for, and returns
        how many are left then. */
    method PackOctet(v: nat, n: nat, ghost mem: seq<bool>, ghost p: nat, ghost val: nat, ghost nBits: nat) returns (left: nat)
      requires Valid() && ptr < max && 0 < n <= nBits && v == Low(val, n)
      requires Pos() == p + (nBits - n) <= |mem| && |mem| == 8 * buf.Length && Mem() == PackedSoFar(mem, p, val, nBits, nBits - n)
      modifies this`ptr, this`offset, buf
      ensures Valid() && left < n && Low(v, left) == Low(val, left)
      ensures Pos() == p + (nBits - left) <= 8 * max && Mem() == PackedSoFar(mem, p, val, nBits, nBits - left)
    {
      hide *;
      Parts();
      ghost var s := buf[..];
      if 8 - offset > n {
        PackPartOfByte(mem, p, val, nBits, n, s, ptr, offset);
        var bit := Low(Shl(v, 8 - offset - n), 8);
        buf[ptr] := Shl(Shr(buf[ptr], 8 - offset), 8 - offset) + bit;
        assert buf[..] == s[ptr := buf[ptr]];
        offset := offset + n;
        left := 0;
      } else {
        PackRestOfByte(mem, p, val, nBits, n, s, ptr, offset);
        var bit := Low(Shr(v, n - 8 + offset), 8);
        buf[ptr] := Shl(Shr(buf[ptr], 8 - offset), 8 - offset) + bit;
        assert buf[..] == s[ptr := buf[ptr]];
        left := n - (8 - offset);
        offset := 0;
        ptr := ptr + 1;
      }
      Parts();
    }

    /** Reads n bits, for n up to 32, if they lie before the limit. */
    method Unpack(nBits: uint32) returns (r: ValOrError)
      requires Valid()
      modifies this`ptr, this`offset
      ensures Valid()
      ensures nBits > 32 ==> r == ValOrError(0, DecodeFail) && Pos() == old(Pos())
      ensures nBits <= 32 ==> r.code == if old(Pos()) + nBits <= 8 * max then Success else DecodeFail
      ensures r.code == Success ==>
        Pos() == old(Pos()) + nBits && r.val == BitsNat(Mem()[old(Pos())..Pos()]) < Pow2(nBits)
      ensures r.code == DecodeFail && nBits <= 32 ==> Pos() == 8 * max
    {
      hide *;
      Parts();
      if nBits > 32 { return ValOrError(0, DecodeFail); }
      var n: nat, val: uint32 := nBits, 0;
      ghost var p0 := Pos();
      ReadBounds(buf[..], p0, p0, n);
      while n > 0
        invariant Valid() && n <= nBits
        invariant Pos() == p0 + (nBits - n) <= 8 * max
        invariant val == ReadSoFar(buf[..], p0, Pos(), n)
      {
        Parts();
        if ptr >= max { return ValOrError(val, DecodeFail); }
        val, n := UnpackOctet(val, n, p0);
      }
      Parts();
      ReadBounds(buf[..], p0, Pos(), 0);
      return ValOrError(val, Success);
    }

    /** One round of reading: what is left of the number in this octet, or the rest of the octet. */
    method UnpackOctet(val: uint32, n: nat, ghost p: nat) returns (val': uint32, left: nat)
      requires Valid() && ptr < max && 0 < n && n + (Pos() - p) <= 32 && p <= Pos()
      requires val == ReadSoFar(buf[..], p, Pos(), n)
      modifies this`ptr, this`offset
      ensures Valid() && left < n && Pos() == old(Pos()) + (n - left) <= 8 * max
      ensures val' == ReadSoFar(buf[..], p, Pos(), left)
    {
      hide ReadSoFar, BytesBits, Shr, Shl, Low;
      Parts();
      if 8 - offset > n {
        ReadPartOfByte(buf[..], ptr, offset, p, n);
        var masked := Low(buf[ptr], 8 - offset) - Low(buf[ptr], 8 - offset - n);
        val' := val + Shr(masked, 8 - offset - n);
        offset := offset + n;
        left := 0;
      } else {
        ReadRestOfByte(buf[..], ptr, offset, p, n);
        val' := val + Shl(Low(buf[ptr], 8 - offset), n - 8 + offset);
        left := n - (8 - offset);
        offset := 0;
        ptr := ptr + 1;
      }
      Parts();
    }

    /** Copies whole octets in, keeping one octet of room in reserve. The aligned block copy
        and the unaligned octet loop write the same bits, and no store of the loop fails. */
    method PackBytes(src: seq<byte>) returns (code: Code)
      requires Valid()
      modifies this`ptr, this`offset, buf
      ensures Valid()
      ensures code == if src == [] || old(ptr) + |src| < max then Success else EncodeFail
      ensures code == Success ==>
        Pos() == old(Pos()) + 8 * |src| && Mem() == Overlay(old(Mem()), old(Pos()), BytesBits(src))
      ensures code == EncodeFail ==> Pos() == old(Pos()) && Mem() == old(Mem())
    {
      hide NatBits, BytesBits, Overlay, OverlayBit, PadLen;
      ghost var mem0, p0 := Mem(), Pos();
      OverlayAt(mem0, p0, []);
      if |src| == 0 { return Success; }
      if ptr + |src| >= max { return EncodeFail; }
      if offset == 0 {
        forall i | 0 <= i < |src| { buf[ptr + i] := src[i]; }
        CopyOverlay(old(buf[..]), ptr, src);
        assert buf[..] == old(buf[..])[..ptr] + src + old(buf[..])[ptr + |src|..];
        ptr := ptr + |src|;
      } else {
        var i := 0;
        while i < |src|
          invariant 0 <= i <= |src| && Valid()
          invariant Pos() == p0 + 8 * i
          invariant Mem() == Overlay(mem0, p0, BytesBits(src[..i]))
        {
          BytesBitsSnoc(src, i);
          OverlayCompose(mem0, p0, BytesBits(src[..i]), NatBits(src[i], 8));
          var stored := Pack(src[i], 8);
          assert stored == Success;
          i := i + 1;
        }
        assert src[..|src|] == src;
      }
      return Success;
    }

    /** Copies whole octets out, with the same reserve. */
    method UnpackBytes(dst: array<byte>, nBytes: nat) returns (code: Code)
      requires Valid() && dst != buf && nBytes <= dst.Length
      modifies this`ptr, this`offset, dst
      ensures Valid()
      ensures code == if nBytes == 0 || old(ptr) + nBytes < max then Success else DecodeFail
      ensures code == Success ==>
        Pos() == old(Pos()) + 8 * nBytes && BytesBits(dst[..nBytes]) == Mem()[old(Pos())..Pos()]
      ensures code == DecodeFail ==> Pos() == old(Pos()) && dst[..] == old(dst[..])
      ensures dst[nBytes..] == old(dst[nBytes..])
    {
      hide NatBits, BytesBits, BitsNat, PadLen;
      if nBytes == 0 { return Success; }
      if ptr + nBytes >= max { return DecodeFail; }
      ghost var p0 := Pos();
      if offset == 0 {
        forall i | 0 <= i < nBytes { dst[i] := buf[ptr + i]; }
        CopyOut(buf[..], ptr, nBytes);
        assert dst[..nBytes] == buf[..][ptr..ptr + nBytes];
        ptr := ptr + nBytes;
      } else {
        var i := 0;
        while i < nBytes
          invariant 0 <= i <= nBytes && Valid()
          invariant Pos() == p0 + 8 * i
          invariant BytesBits(dst[..i]) == Mem()[p0..Pos()]
          invariant dst[nBytes..] == old(dst[nBytes..])
        {
          var r := Unpack(8);
          assert r.code == Success;
          ReadOctet(dst[..i], r.val, Mem(), p0, Pos());
          dst[i] := r.val;
          assert dst[..i + 1] == dst[..i] + [dst[i]];
          i := i + 1;
        }
      }
      return Success;
    }

    /** Moves to the next octet boundary. */
    method AlignBytes() returns (code: Code)
      requires Valid()
      modifies this`ptr, this`offset
      ensures Valid() && code == Success
      ensures Pos() == old(Pos()) + PadLen(old(Pos()))
    {
      if offset == 0 { return Success; }
      if ptr >= max { return DecodeFail; }
      offset := 0;
      ptr := ptr + 1;
      return Success;
    }

    /** Moves to the next octet boundary, clearing the bits skipped. */
    method AlignBytesZero() returns (code: Code)
      requires Valid()
      modifies this`ptr, this`offset, buf
      ensures Valid() && code == Success
      ensures Pos() == old(Pos()) + PadLen(old(Pos()))
      ensures Mem() == Overlay(old(Mem()), old(Pos()), Zeros(PadLen(old(Pos()))))
    {
      hide NatBits, BytesBits, Overlay, OverlayBit, Shr, Shl, Pow2;
      if offset == 0 {
        OverlayAt(Mem(), Pos(), []);
        assert Zeros(PadLen(Pos())) == [];
        return Success;
      }
      if ptr >= max { return EncodeFail; }
      NatBitsZero(8 - offset);
      StoreOverlay(buf[..], ptr, offset, 0, 8 - offset);
      ShlOfZero(0);
      ghost var s := buf[..];
      buf[ptr] := Shl(Shr(buf[ptr], 8 - offset), 8 - offset);
      assert buf[..] == s[ptr := buf[ptr]];
      offset := 0;
      ptr := ptr + 1;
      return Success;
    }

    /** Skips n bits, with the same one-octet reserve as the block copies. */
    method AdvanceBits(nBits: nat) returns (code: Code)
      requires Valid()
      modifies this`ptr, this`offset
      ensures Valid()
      ensures code == if old(Pos()) + nBits + PadLen(old(Pos()) + nBits) < 8 * max then Success else DecodeFail
      ensures Pos() == if code == Success then old(Pos()) + nBits else old(Pos())
    {
      hide PadLen;
      AdvanceFacts(ptr, offset, nBits, max);
      var extraBits := (offset + nBits) % 8;
      var bytesRequired := (offset + nBits + 7) / 8;
      var bytesOffset := (offset + nBits) / 8;
      if ptr + bytesRequired >= max { return DecodeFail; }
      ptr := ptr + bytesOffset;
      offset := extraBits;
      return Success;
    }
  }
}
