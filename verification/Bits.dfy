/** Bit strings, most significant bit first, and the numbers they spell. */
module Bits {

  type byte = x: int | 0 <= x < 256

  const TWO_TO_THE_32: nat := 0x1_0000_0000
  type uint32 = x: int | 0 <= x < 0x1_0000_0000

  function Pow2(n: nat): (p: nat)
    ensures p > 0
  {
    if n == 0 then 1 else 2 * Pow2(n - 1)
  }

  /** The n low bits of v. */
  function NatBits(v: nat, n: nat): (b: seq<bool>)
    ensures |b| == n
  {
    if n == 0 then [] else NatBits(v / 2, n - 1) + [v % 2 == 1]
  }

  /** The number a bit string spells. */
  function BitsNat(b: seq<bool>): nat {
    if b == [] then 0 else 2 * BitsNat(b[..|b| - 1]) + (if b[|b| - 1] then 1 else 0)
  }

  function Zeros(n: nat): (b: seq<bool>)
    ensures |b| == n
    ensures forall i :: 0 <= i < n ==> !b[i]
  {
    seq(n, _ => false)
  }

  /** Eight bits per byte, most significant first. */
  function BytesBits(s: seq<byte>): (b: seq<bool>)
    ensures |b| == 8 * |s|
  {
    if s == [] then [] else NatBits(s[0], 8) + BytesBits(s[1..])
  }

  // The source's shifts and masks on unsigned values, before any truncation to a width.

  /** v >> k */
  function Shr(v: nat, k: nat): (r: nat)
    ensures r <= v
  {
    DivBounds(v, Pow2(k));
    v / Pow2(k)
  }

  /** v << k */
  function Shl(v: nat, k: nat): nat {
    MulNonNegative(v, Pow2(k));
    v * Pow2(k)
  }

  /** v & ((1 << k) - 1) */
  function Low(v: nat, k: nat): (r: nat)
    ensures r < Pow2(k)
    ensures r <= v
  {
    DivBounds(v, Pow2(k));
    v % Pow2(k)
  }

  // ------------------------------------------------------------ powers of two

  lemma Pow2Values()
    ensures Pow2(0) == 1 && Pow2(1) == 2 && Pow2(2) == 4 && Pow2(3) == 8 && Pow2(4) == 16
    ensures Pow2(5) == 32 && Pow2(6) == 64 && Pow2(7) == 128 && Pow2(8) == 256
  {
    assert Pow2(4) == 16;
  }

  lemma Pow2Large()
    ensures Pow2(14) == 16384 && Pow2(16) == 65536 && Pow2(32) == TWO_TO_THE_32
  {
    Pow2Values();
    Pow2Add(8, 6);
    Pow2Add(8, 8);
    Pow2Add(16, 16);
  }

  lemma {:induction false} Pow2Add(m: nat, n: nat)
    ensures Pow2(m + n) == Pow2(m) * Pow2(n)
  {
    if m != 0 {
      Pow2Add(m - 1, n);
      assert 2 * (Pow2(m - 1) * Pow2(n)) == (2 * Pow2(m - 1)) * Pow2(n);
    }
  }

  lemma {:induction false} Pow2Monotone(m: nat, n: nat)
    requires m <= n
    ensures Pow2(m) <= Pow2(n)
    decreases n
  {
    if m < n { Pow2Monotone(m, n - 1); }
  }

  // ------------------------------------------------------------ division facts

  lemma DivUnique(a: int, d: int, q: int, r: int)
    requires d > 0 && a == q * d + r && 0 <= r < d
    ensures a / d == q && a % d == r
  {
    var q', r' := a / d, a % d;
    assert a == q' * d + r' && 0 <= r' < d;
    if q' < q {
      assert (q - q') * d >= d by { MulAtLeast(q - q', d); }
      assert false;
    } else if q' > q {
      assert (q' - q) * d >= d by { MulAtLeast(q' - q, d); }
      assert false;
    }
  }

  lemma MulAtLeast(k: int, d: int)
    requires k >= 1 && d > 0
    ensures k * d >= d
  {
    assert k * d == (k - 1) * d + d;
    assert (k - 1) * d >= 0;
  }

  lemma MulNonNegative(a: nat, b: nat)
    ensures a * b >= 0
  {
  }

  lemma DivBounds(v: nat, d: nat)
    requires d > 0
    ensures 0 <= v / d <= v && 0 <= v % d <= v
    ensures v == (v / d) * d + v % d
  {
    var q := v / d;
    if q >= 1 {
      assert q * d == q + q * (d - 1);
      MulNonNegative(q, d - 1);
    }
  }

  lemma ShrLow(v: nat, k: nat)
    ensures v == Shl(Shr(v, k), k) + Low(v, k)
  {
    DivBounds(v, Pow2(k));
  }

  lemma ShrLowUnique(hi: nat, lo: nat, k: nat)
    requires lo < Pow2(k)
    ensures Shr(Shl(hi, k) + lo, k) == hi && Low(Shl(hi, k) + lo, k) == lo
  {
    DivUnique(Shl(hi, k) + lo, Pow2(k), hi, lo);
  }

  lemma ShlAdd(v: nat, j: nat, k: nat)
    ensures Shl(Shl(v, j), k) == Shl(v, j + k)
  {
    hide *;
    Pow2Add(j, k);
    ShlIs(v, j);
    ShlIs(Shl(v, j), k);
    ShlIs(v, j + k);
    MulChain(v, Pow2(j), Pow2(k), Shl(v, j), Pow2(j + k));
  }

  lemma ShlIs(v: nat, k: nat)
    ensures Shl(v, k) == v * Pow2(k)
  {
    hide Pow2;
  }

  lemma MulChain(v: nat, a: nat, b: nat, w: nat, c: nat)
    requires w == v * a && c == a * b
    ensures w * b == v * c
  {
    hide *;
    assert w * b == (v * a) * b;
    assert v * c == v * (a * b);
  }

  lemma LowSmall(v: nat, k: nat)
    requires v < Pow2(k)
    ensures Low(v, k) == v && Shr(v, k) == 0
  {
    ShrLowUnique(0, v, k);
  }

  /** A value below 2^(m + k), less its k low bits, is below 2^m. */
  lemma ShrBound(v: nat, m: nat, k: nat)
    requires v < Pow2(m + k)
    ensures Shr(v, k) < Pow2(m)
  {
    hide *;
    Pow2Add(m, k);
    ShrLow(v, k);
    var h, p := Shr(v, k), Pow2(m);
    ShlIs(h, k);
    if h >= p {
      MulMonotone(p, h, Pow2(k));
      assert false;
    }
  }

  lemma MulMonotone(a: nat, b: nat, k: nat)
    requires a <= b
    ensures a * k <= b * k
  {
    assert b * k == a * k + (b - a) * k;
    MulNonNegative(b - a, k);
  }

  lemma ShlBound(v: nat, m: nat, k: nat)
    requires v < Pow2(m)
    ensures Shl(v, k) + Pow2(k) <= Pow2(m + k)
  {
    Pow2Add(m, k);
    assert (v + 1) * Pow2(k) + (Pow2(m) - v - 1) * Pow2(k) == Pow2(m) * Pow2(k);
    MulNonNegative(Pow2(m) - v - 1, Pow2(k));
    assert (v + 1) * Pow2(k) == Shl(v, k) + Pow2(k);
  }

  /** Halving commutes with dropping k low bits. */
  lemma ShrTwo(v: nat, k: nat)
    ensures Shr(v, k + 1) == Shr(v / 2, k)
    ensures Low(v, k + 1) == 2 * Low(v / 2, k) + v % 2
  {
    ShrLow(v / 2, k);
    var q := Shr(v / 2, k);
    assert q * (2 * Pow2(k)) == 2 * (q * Pow2(k));
    ShrLowUnique(q, 2 * Low(v / 2, k) + v % 2, k + 1);
  }

  // ------------------------------------------------------------ slices

  lemma SliceOfSlice<T>(s: seq<T>, p: nat, n: nat, i: nat, k: nat)
    requires p + n <= |s| && i + k <= n
    ensures s[p..p + n][i..i + k] == s[p + i..p + i + k]
    ensures k > 0 ==> s[p..p + n][i] == s[p + i]
  {
    var a, b := s[p..p + n][i..i + k], s[p + i..p + i + k];
    forall j | 0 <= j < k ensures a[j] == b[j] {
      assert a[j] == s[p..p + n][i + j] == s[p + i + j];
    }
  }

  lemma PrefixOfPrefix<T>(s: seq<T>, p: nat, q: nat)
    requires p <= q <= |s|
    ensures s[..q][..p] == s[..p]
  {
  }

  lemma TakeThenDrop<T>(s: seq<T>, i: nat, n: nat)
    requires i <= n <= |s|
    ensures s[..n][i..] == s[i..n]
  {
    var a, b := s[..n][i..], s[i..n];
    forall j | 0 <= j < |b| ensures a[j] == b[j] {
      assert a[j] == s[..n][i + j] == s[i + j];
    }
  }

  lemma DropThenTake<T>(s: seq<T>, i: nat, k: nat)
    requires i + k <= |s|
    ensures s[i..][..k] == s[i..i + k]
  {
    var a, b := s[i..][..k], s[i..i + k];
    forall j | 0 <= j < |b| ensures a[j] == b[j] {
      assert a[j] == s[i..][j] == s[i + j];
    }
  }

  lemma SplitSlice<T>(s: seq<T>, i: nat, j: nat, k: nat)
    requires i <= j <= k <= |s|
    ensures s[i..k] == s[i..j] + s[j..k]
  {
  }

  // ------------------------------------------------------------ numbers and bits

  /** Reading back the n low bits gives the number modulo 2^n. */
  lemma {:induction false} BitsNatOfNatBits(v: nat, n: nat)
    ensures BitsNat(NatBits(v, n)) == Low(v, n)
  {
    hide *;
    if n == 0 {
      LowOfNothing(v);
    } else {
      BitsNatOfNatBits(v / 2, n - 1);
      BitsNatStep(v, n - 1);
      ShrTwo(v, n - 1);
    }
  }

  lemma LowOfNothing(v: nat)
    ensures BitsNat(NatBits(v, 0)) == Low(v, 0) == 0
  {
  }

  lemma BitsNatStep(v: nat, n: nat)
    ensures BitsNat(NatBits(v, n + 1)) == 2 * BitsNat(NatBits(v / 2, n)) + v % 2
  {
    hide Low, Shr, Shl;
    var b := NatBits(v, n + 1);
    assert b[..|b| - 1] == NatBits(v / 2, n);
  }

  lemma {:induction false} BitsNatBound(b: seq<bool>)
    ensures BitsNat(b) < Pow2(|b|)
  {
    if b != [] { BitsNatBound(b[..|b| - 1]); }
  }

  /** ... and writing a bit string's number back gives the bit string. */
  lemma {:induction false} NatBitsOfBitsNat(b: seq<bool>)
    ensures NatBits(BitsNat(b), |b|) == b
  {
    if b != [] {
      var front, last := b[..|b| - 1], b[|b| - 1];
      NatBitsOfBitsNat(front);
      assert BitsNat(b) / 2 == BitsNat(front);
      assert b == front + [last];
    }
  }

  /** A field of m + k bits is its m high bits followed by its k low bits. */
  lemma {:induction false} NatBitsSplit(v: nat, m: nat, k: nat)
    ensures NatBits(v, m + k) == NatBits(Shr(v, k), m) + NatBits(v, k)
  {
    if k == 0 {
      assert Shr(v, 0) == v;
      assert NatBits(v, m) + [] == NatBits(v, m);
    } else {
      NatBitsSplit(v / 2, m, k - 1);
      ShrTwo(v, k - 1);
      var hi := NatBits(Shr(v, k), m);
      var bit := [v % 2 == 1];
      assert NatBits(v / 2, m + k - 1) + bit == hi + (NatBits(v / 2, k - 1) + bit);
    }
  }

  lemma {:induction false} BitsNatConcat(a: seq<bool>, b: seq<bool>)
    ensures BitsNat(a + b) == Shl(BitsNat(a), |b|) + BitsNat(b)
  {
    hide *;
    if b == [] {
      assert a + b == a;
      ShlNext(BitsNat(a), 0);
      BitsNatEnds(b);
    } else {
      var front := b[..|b| - 1];
      assert (a + b)[..|a + b| - 1] == a + front;
      BitsNatConcat(a, front);
      BitsNatEnds(a + b);
      BitsNatEnds(b);
      ShlNext(BitsNat(a), |front|);
    }
  }

  lemma BitsNatEnds(b: seq<bool>)
    ensures BitsNat(b) == if b == [] then 0 else 2 * BitsNat(b[..|b| - 1]) + (if b[|b| - 1] then 1 else 0)
  {
  }

  lemma ShlNext(v: nat, k: nat)
    ensures Shl(v, 0) == v && Shl(v, k + 1) == 2 * Shl(v, k)
  {
    hide Shl;
    ShlIs(v, 0);
    ShlIs(v, k);
    ShlIs(v, k + 1);
    MulChain(v, Pow2(k), 2, Shl(v, k), Pow2(k + 1));
  }

  /** Only the low n bits of a number matter to its n-bit field. */
  lemma {:induction false} NatBitsMod(v: nat, m: nat, n: nat)
    requires n <= m
    ensures NatBits(Low(v, m), n) == NatBits(v, n)
  {
    hide *;
    NatBitsEnds(v, n);
    NatBitsEnds(Low(v, m), n);
    if n != 0 {
      ShrTwo(v, m - 1);
      NatBitsMod(v / 2, m - 1, n - 1);
    }
  }

  lemma NatBitsEnds(v: nat, n: nat)
    ensures NatBits(v, n) == if n == 0 then [] else NatBits(v / 2, n - 1) + [v % 2 == 1]
  {
  }

  /** Bit m of a field, counted from its end, is bit m of the number. */
  lemma {:induction false} NatBitsAt(v: nat, n: nat, m: nat)
    requires m < n
    ensures NatBits(v, n)[n - 1 - m] == (Shr(v, m) % 2 == 1)
  {
    hide *;
    NatBitsEnds(v, n);
    if m == 0 {
      ShrNothing(v);
    } else {
      NatBitsAt(v / 2, n - 1, m - 1);
      ShrTwo(v, m - 1);
    }
  }

  lemma ShrNothing(v: nat)
    ensures Shr(v, 0) == v
  {
  }

  lemma {:induction false} NatBitsZero(n: nat)
    ensures NatBits(0, n) == Zeros(n)
  {
    if n != 0 { NatBitsZero(n - 1); }
  }

  lemma NatBitsInjective(v: nat, w: nat, n: nat)
    requires v < Pow2(n) && w < Pow2(n) && NatBits(v, n) == NatBits(w, n)
    ensures v == w
  {
    BitsNatOfNatBits(v, n);
    BitsNatOfNatBits(w, n);
    LowSmall(v, n);
    LowSmall(w, n);
  }

  /** hi * 2^k + lo, with lo below 2^k, spells hi then lo. */
  lemma NatBitsJoin(hi: nat, lo: nat, m: nat, k: nat)
    requires lo < Pow2(k)
    ensures NatBits(Shl(hi, k) + lo, m + k) == NatBits(hi, m) + NatBits(lo, k)
  {
    var v := Shl(hi, k) + lo;
    NatBitsSplit(v, m, k);
    ShrLowUnique(hi, lo, k);
    NatBitsMod(v, k, k);
  }

  // ------------------------------------------------------------ bytes and bits

  lemma {:induction false} BytesBitsConcat(a: seq<byte>, b: seq<byte>)
    ensures BytesBits(a + b) == BytesBits(a) + BytesBits(b)
  {
    if a == [] {
      assert a + b == b;
    } else {
      assert (a + b)[1..] == a[1..] + b;
      BytesBitsConcat(a[1..], b);
    }
  }

  lemma BytesBitsSplit(s: seq<byte>, i: nat)
    requires i <= |s|
    ensures BytesBits(s[..i]) == BytesBits(s)[..8 * i]
    ensures BytesBits(s[i..]) == BytesBits(s)[8 * i..]
  {
    hide *;
    BytesBitsConcat(s[..i], s[i..]);
    JoinedAgain(s, i);
    SplitOfConcat(BytesBits(s), BytesBits(s[..i]), BytesBits(s[i..]), 8 * i);
  }

  lemma JoinedAgain<T>(s: seq<T>, i: nat)
    requires i <= |s|
    ensures s[..i] + s[i..] == s && |s[..i]| == i
  {
  }

  lemma SplitOfConcat<T>(s: seq<T>, a: seq<T>, b: seq<T>, n: nat)
    requires s == a + b && |a| == n
    ensures s[..n] == a && s[n..] == b
  {
  }

  lemma BytesBitsTake(s: seq<byte>, i: nat)
    requires i <= |s|
    ensures BytesBits(s[..i]) == BytesBits(s)[..8 * i]
  {
    BytesBitsSplit(s, i);
  }

  lemma BytesBitsDrop(s: seq<byte>, i: nat)
    requires i <= |s|
    ensures BytesBits(s[i..]) == BytesBits(s)[8 * i..]
  {
    BytesBitsSplit(s, i);
  }

  lemma BytesBitsAt(s: seq<byte>, i: nat)
    requires i < |s|
    ensures BytesBits(s)[8 * i..8 * i + 8] == NatBits(s[i], 8)
  {
    BytesBitsSplit(s, i);
    var t := s[i..];
    assert BytesBits(t) == NatBits(t[0], 8) + BytesBits(t[1..]);
    hide *;
    DropThenTake(BytesBits(s), 8 * i, 8);
  }

  /** Storing one byte replaces its eight bits. */
  lemma BytesBitsUpdate(s: seq<byte>, i: nat, v: byte)
    requires i < |s|
    ensures BytesBits(s[i := v]) == BytesBits(s)[..8 * i] + NatBits(v, 8) + BytesBits(s)[8 * i + 8..]
  {
    BytesBitsSplit(s, i);
    BytesBitsSplit(s, i + 1);
    assert s[i := v] == s[..i] + ([v] + s[i + 1..]);
    BytesBitsConcat(s[..i], [v] + s[i + 1..]);
    BytesBitsConcat([v], s[i + 1..]);
    assert BytesBits([v]) == NatBits(v, 8) + BytesBits([]);
  }

  lemma {:induction false} BytesBitsInjective(a: seq<byte>, b: seq<byte>)
    requires |a| == |b| && BytesBits(a) == BytesBits(b)
    ensures a == b
  {
    if a != [] {
      assert NatBits(a[0], 8) == BytesBits(a)[..8] == NatBits(b[0], 8);
      Pow2Values();
      NatBitsInjective(a[0], b[0], 8);
      assert BytesBits(a[1..]) == BytesBits(a)[8..];
      assert BytesBits(b[1..]) == BytesBits(b)[8..];
      BytesBitsInjective(a[1..], b[1..]);
      assert a == [a[0]] + a[1..] && b == [b[0]] + b[1..];
    }
  }
}
