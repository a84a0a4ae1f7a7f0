/** Bytes as polynomials over GF(2) reduced modulo x^8 + c: multiplication by powers of x,
    and the column mixing built on it. The constant c is a parameter, because the ciphers use
    more than one. */
module GfBytes {
  import opened XorWords

  /** MULx, also s3g_mul_x: multiplication by x. */
  function MulX(v: bv8, c: bv8): bv8 {
    if v & 0x80 != 0 then (v << 1) ^ c else v << 1
  }

  /** MULxPOW, also s3g_mul_x_pow: multiplication by x^i. */
  function MulXPow(v: bv8, i: nat, c: bv8): bv8 {
    if i == 0 then v else MulX(MulXPow(v, i - 1, c), c)
  }

  lemma {:induction false} MulXPowAdds(v: bv8, i: nat, j: nat, c: bv8)
    ensures MulXPow(MulXPow(v, j, c), i, c) == MulXPow(v, i + j, c)
  {
    hide MulX;
    if i > 0 {
      MulXPowAdds(v, i - 1, j, c);
    }
  }

  predicate Top(v: bv8) {
    v & 0x80 != 0
  }

  function Doubled(v: bv8): bv8 {
    v << 1
  }

  lemma MulXIs(v: bv8, c: bv8)
    ensures MulX(v, c) == Xor8(Doubled(v), if Top(v) then c else 0)
  {
    Xor8Unit(v << 1);
  }

  lemma DoubledLinear(a: bv8, b: bv8)
    ensures Doubled(Xor8(a, b)) == Xor8(Doubled(a), Doubled(b))
    ensures Top(Xor8(a, b)) == (Top(a) != Top(b))
  {
  }

  lemma MulXLinear(a: bv8, b: bv8, c: bv8)
    ensures MulX(Xor8(a, b), c) == Xor8(MulX(a, c), MulX(b, c))
  {
    hide *;
    MulXIs(a, c);
    MulXIs(b, c);
    MulXIs(Xor8(a, b), c);
    DoubledLinear(a, b);
    Xor8Unit(c);
    Xor8Unit(0);
    Xor8SwapsMiddle(Doubled(a), Doubled(b), if Top(a) then c else 0, if Top(b) then c else 0);
  }

  lemma MulXLowBit(v: bv8, c: bv8)
    requires c & 1 == 1
    ensures (MulX(v, c) & 1 == 1) == Top(v)
  {
  }

  lemma DoubledTop(a: bv8, b: bv8)
    requires Doubled(a) == Doubled(b) && Top(a) == Top(b)
    ensures a == b
  {
  }

  /** Multiplication by x loses nothing when the reduction has a constant term. */
  lemma MulXInjective(a: bv8, b: bv8, c: bv8)
    requires c & 1 == 1 && MulX(a, c) == MulX(b, c)
    ensures a == b
  {
    hide *;
    MulXLowBit(a, c);
    MulXLowBit(b, c);
    MulXIs(a, c);
    MulXIs(b, c);
    Xor8Cancels(Doubled(a), Doubled(b), if Top(a) then c else 0);
    DoubledTop(a, b);
  }

  // --- x has order dividing 255 modulo x^8 + 0xa9 ---

  /** The linear map that takes x^i to the i-th column. */
  function Linear(v: bv8, c0: bv8, c1: bv8, c2: bv8, c3: bv8, c4: bv8, c5: bv8, c6: bv8, c7: bv8): bv8 {
    (if v & 1 != 0 then c0 else 0) ^ (if v & 2 != 0 then c1 else 0) ^ (if v & 4 != 0 then c2 else 0)
    ^ (if v & 8 != 0 then c3 else 0) ^ (if v & 16 != 0 then c4 else 0) ^ (if v & 32 != 0 then c5 else 0)
    ^ (if v & 64 != 0 then c6 else 0) ^ (if v & 128 != 0 then c7 else 0)
  }

  lemma TimesX1(v: bv8)
    ensures MulXPow(v, 1, 0xa9) == Linear(v, 0x02, 0x04, 0x08, 0x10, 0x20, 0x40, 0x80, 0xa9)
  {
    assert MulXPow(v, 1, 0xa9) == MulX(MulXPow(v, 0, 0xa9), 0xa9);
  }

  lemma TimesX2(v: bv8)
    ensures MulXPow(v, 2, 0xa9) == Linear(v, 0x04, 0x08, 0x10, 0x20, 0x40, 0x80, 0xa9, 0xfb)
  {
    hide MulXPow, MulX;
    MulXPowAdds(v, 1, 1, 0xa9);
    TimesX1(v);
    TimesX1(MulXPow(v, 1, 0xa9));
  }

  lemma TimesX4(v: bv8)
    ensures MulXPow(v, 4, 0xa9) == Linear(v, 0x10, 0x20, 0x40, 0x80, 0xa9, 0xfb, 0x5f, 0xbe)
  {
    hide MulXPow, MulX;
    MulXPowAdds(v, 2, 2, 0xa9);
    TimesX2(v);
    TimesX2(MulXPow(v, 2, 0xa9));
  }

  lemma TimesX8(v: bv8)
    ensures MulXPow(v, 8, 0xa9) == Linear(v, 0xa9, 0xfb, 0x5f, 0xbe, 0xd5, 0x03, 0x06, 0x0c)
  {
    hide MulXPow, MulX;
    MulXPowAdds(v, 4, 4, 0xa9);
    TimesX4(v);
    TimesX4(MulXPow(v, 4, 0xa9));
  }

  lemma TimesX16(v: bv8)
    ensures MulXPow(v, 16, 0xa9) == Linear(v, 0x18, 0x30, 0x60, 0xc0, 0x29, 0x52, 0xa4, 0xe1)
  {
    hide MulXPow, MulX;
    MulXPowAdds(v, 8, 8, 0xa9);
    TimesX8(v);
    TimesX8(MulXPow(v, 8, 0xa9));
  }

  lemma TimesX32(v: bv8)
    ensures MulXPow(v, 32, 0xa9) == Linear(v, 0xe9, 0x7b, 0xf6, 0x45, 0x8a, 0xbd, 0xd3, 0x0f)
  {
    hide MulXPow, MulX;
    MulXPowAdds(v, 16, 16, 0xa9);
    TimesX16(v);
    TimesX16(MulXPow(v, 16, 0xa9));
  }

  lemma TimesX64(v: bv8)
    ensures MulXPow(v, 64, 0xa9) == Linear(v, 0xcd, 0x33, 0x66, 0xcc, 0x31, 0x62, 0xc4, 0x21)
  {
    hide MulXPow, MulX;
    MulXPowAdds(v, 32, 32, 0xa9);
    TimesX32(v);
    TimesX32(MulXPow(v, 32, 0xa9));
  }

  lemma TimesX128(v: bv8)
    ensures MulXPow(v, 128, 0xa9) == Linear(v, 0x82, 0xad, 0xf3, 0x4f, 0x9e, 0x95, 0x83, 0xaf)
  {
    hide MulXPow, MulX;
    MulXPowAdds(v, 64, 64, 0xa9);
    TimesX64(v);
    TimesX64(MulXPow(v, 64, 0xa9));
  }

  lemma TimesX256(v: bv8)
    ensures MulXPow(v, 256, 0xa9) == MulX(v, 0xa9)
  {
    hide MulXPow;
    MulXPowAdds(v, 128, 128, 0xa9);
    TimesX128(v);
    TimesX128(MulXPow(v, 128, 0xa9));
  }

  /** MULxPOW(c, 255, 0xa9) == c. */
  lemma MulXPowPeriod(v: bv8)
    ensures MulXPow(v, 255, 0xa9) == v
  {
    hide MulX;
    TimesX256(v);
    MulXInjective(MulXPow(v, 255, 0xa9), v, 0xa9);
  }

  /** Exponents count modulo 255. */
  lemma MulXPowWraps(v: bv8, i: nat, j: nat, k: nat)
    requires i + j == k + 255
    ensures MulXPow(MulXPow(v, j, 0xa9), i, 0xa9) == MulXPow(v, k, 0xa9)
  {
    hide *;
    MulXPowAdds(v, i, j, 0xa9);
    MulXPowAdds(v, 255, k, 0xa9);
    MulXPowPeriod(MulXPow(v, k, 0xa9));
  }

  // --- mixing the four bytes of a column ---

  datatype Column = Column(a0: bv8, a1: bv8, a2: bv8, a3: bv8)

  function Xor5(p: bv8, q: bv8, r: bv8, s: bv8, t: bv8): bv8 {
    p ^ q ^ r ^ s ^ t
  }

  /** The circulant matrix with first row x, x + 1, 1, 1. */
  function Mixed(u: Column, c: bv8): Column {
    Column(
      Xor5(MulX(u.a0, c), MulX(u.a1, c), u.a1, u.a2, u.a3),
      Xor5(MulX(u.a1, c), MulX(u.a2, c), u.a2, u.a3, u.a0),
      Xor5(MulX(u.a2, c), MulX(u.a3, c), u.a3, u.a0, u.a1),
      Xor5(MulX(u.a3, c), MulX(u.a0, c), u.a0, u.a1, u.a2)
    )
  }

  lemma Xor5Is(p: bv8, q: bv8, r: bv8, s: bv8, t: bv8)
    ensures Xor5(p, q, r, s, t) == Xor8(Xor8(Xor8(Xor8(p, q), r), s), t)
  {
  }

  lemma MulXOfFive(p: bv8, q: bv8, r: bv8, s: bv8, t: bv8, c: bv8)
    ensures MulX(Xor5(p, q, r, s, t), c) == Xor5(MulX(p, c), MulX(q, c), MulX(r, c), MulX(s, c), MulX(t, c))
  {
    hide *;
    Xor5Is(p, q, r, s, t);
    Xor5Is(MulX(p, c), MulX(q, c), MulX(r, c), MulX(s, c), MulX(t, c));
    MulXLinear(Xor8(Xor8(Xor8(p, q), r), s), t, c);
    MulXLinear(Xor8(Xor8(p, q), r), s, c);
    MulXLinear(Xor8(p, q), r, c);
    MulXLinear(p, q, c);
  }

  lemma TwoTerms(y0: bv8, y1: bv8, y2: bv8, x0: bv8, x1: bv8, x2: bv8, x3: bv8)
    ensures Xor8(Xor5(y0, y1, x1, x2, x3), Xor5(y1, y2, x2, x3, x0)) == Xor8(Xor8(y0, y2), Xor8(x1, x0))
  {
    assert Xor8(y0 ^ y1 ^ x1 ^ x2 ^ x3, y1 ^ y2 ^ x2 ^ x3 ^ x0) == Xor8(y0 ^ y2, x1 ^ x0);
  }

  lemma TwoOfThreeTerms(a0: bv8, a1: bv8, a2: bv8, a3: bv8, x1: bv8, x2: bv8, x3: bv8)
    ensures Xor8(Xor5(x1, x2, a2, a3, a0), Xor5(x2, x3, a3, a0, a1)) == Xor8(Xor8(x1, x3), Xor8(a2, a1))
  {
    assert Xor8(x1 ^ x2 ^ a2 ^ a3 ^ a0, x2 ^ x3 ^ a3 ^ a0 ^ a1) == Xor8(x1 ^ x3, a2 ^ a1);
  }

  lemma ThirdTerm(a0: bv8, a1: bv8, a2: bv8, x0: bv8, x1: bv8, x3: bv8)
    ensures Xor8(Xor8(Xor8(x1, x3), Xor8(a2, a1)), Xor5(x3, x0, a0, a1, a2)) == Xor8(Xor8(x1, x0), a0)
  {
    assert Xor8(x1 ^ x3, a2 ^ a1) == x1 ^ x3 ^ a2 ^ a1;
    assert Xor8(x1 ^ x3 ^ a2 ^ a1, x3 ^ x0 ^ a0 ^ a1 ^ a2) == Xor8(x1 ^ x0, a0);
  }

  lemma ThreeTerms(a0: bv8, a1: bv8, a2: bv8, a3: bv8, x0: bv8, x1: bv8, x2: bv8, x3: bv8)
    ensures Xor8(Xor8(Xor5(x1, x2, a2, a3, a0), Xor5(x2, x3, a3, a0, a1)), Xor5(x3, x0, a0, a1, a2))
            == Xor8(Xor8(x1, x0), a0)
  {
    hide *;
    TwoOfThreeTerms(a0, a1, a2, a3, x1, x2, x3);
    ThirdTerm(a0, a1, a2, x0, x1, x3);
  }

  /** One output byte of two mixings, in terms of the products by 1, x and x^2. */
  lemma TwoMixesSum(a0: bv8, a1: bv8, a2: bv8, a3: bv8, x0: bv8, x1: bv8, x2: bv8, x3: bv8,
                    y0: bv8, y1: bv8, y2: bv8)
    ensures Xor5(Xor5(y0, y1, x1, x2, x3), Xor5(y1, y2, x2, x3, x0), Xor5(x1, x2, a2, a3, a0),
                 Xor5(x2, x3, a3, a0, a1), Xor5(x3, x0, a0, a1, a2))
            == Xor8(Xor8(y0, y2), a0)
  {
    hide *;
    var m0, m1 := Xor5(y0, y1, x1, x2, x3), Xor5(y1, y2, x2, x3, x0);
    var m2, m3, m4 := Xor5(x1, x2, a2, a3, a0), Xor5(x2, x3, a3, a0, a1), Xor5(x3, x0, a0, a1, a2);
    Xor5Groups(m0, m1, m2, m3, m4);
    TwoTerms(y0, y1, y2, x0, x1, x2, x3);
    ThreeTerms(a0, a1, a2, a3, x0, x1, x2, x3);
    Xor8Regroup(Xor8(y0, y2), Xor8(x1, x0), a0);
  }

  lemma Xor5Groups(p: bv8, q: bv8, r: bv8, s: bv8, t: bv8)
    ensures Xor5(p, q, r, s, t) == Xor8(Xor8(p, q), Xor8(Xor8(r, s), t))
  {
    assert Xor8(r ^ s, t) == r ^ s ^ t;
    assert Xor8(p ^ q, r ^ s ^ t) == p ^ q ^ r ^ s ^ t;
  }

  lemma MixedIs(u: Column, c: bv8)
    ensures Mixed(u, c).a0 == Xor5(MulX(u.a0, c), MulX(u.a1, c), u.a1, u.a2, u.a3)
    ensures Mixed(u, c).a1 == Xor5(MulX(u.a1, c), MulX(u.a2, c), u.a2, u.a3, u.a0)
    ensures Mixed(u, c).a2 == Xor5(MulX(u.a2, c), MulX(u.a3, c), u.a3, u.a0, u.a1)
    ensures Mixed(u, c).a3 == Xor5(MulX(u.a3, c), MulX(u.a0, c), u.a0, u.a1, u.a2)
  {
  }

  /** (x^2 + 1) p + x^2 q. */
  function Half(p: bv8, q: bv8, c: bv8): bv8 {
    Xor8(Xor8(MulX(MulX(p, c), c), MulX(MulX(q, c), c)), p)
  }

  lemma TwoMixesFirst(u: Column, c: bv8)
    ensures Mixed(Mixed(u, c), c).a0 == Half(u.a0, u.a2, c)
  {
    hide MulX, Mixed, Xor5, Xor8;
    MixedIs(u, c);
    MixedIs(Mixed(u, c), c);
    var x0, x1, x2, x3 := MulX(u.a0, c), MulX(u.a1, c), MulX(u.a2, c), MulX(u.a3, c);
    MulXOfFive(x0, x1, u.a1, u.a2, u.a3, c);
    MulXOfFive(x1, x2, u.a2, u.a3, u.a0, c);
    TwoMixesSum(u.a0, u.a1, u.a2, u.a3, x0, x1, x2, x3, MulX(x0, c), MulX(x1, c), MulX(x2, c));
  }

  function Turned(u: Column): Column {
    Column(u.a1, u.a2, u.a3, u.a0)
  }

  lemma MixTurns(u: Column, c: bv8)
    ensures Mixed(Turned(u), c) == Turned(Mixed(u, c))
  {
    hide MulX, Xor5;
  }

  lemma TurnedBytes(u: Column)
    ensures Turned(u).a0 == u.a1 && Turned(u).a1 == u.a2 && Turned(u).a2 == u.a3 && Turned(u).a3 == u.a0
  {
  }

  lemma TwoMixesTurn(u: Column, c: bv8)
    ensures Mixed(Mixed(Turned(u), c), c) == Turned(Mixed(Mixed(u, c), c))
  {
    hide *;
    MixTurns(u, c);
    MixTurns(Mixed(u, c), c);
  }

  lemma TwoMixes(u: Column, c: bv8)
    ensures var v := Mixed(Mixed(u, c), c);
            v.a0 == Half(u.a0, u.a2, c) && v.a1 == Half(u.a1, u.a3, c)
            && v.a2 == Half(u.a2, u.a0, c) && v.a3 == Half(u.a3, u.a1, c)
  {
    hide *;
    var v := Turned(u);
    var w := Turned(v);
    var z := Turned(w);
    var m := Mixed(Mixed(u, c), c);
    TwoMixesTurn(u, c);
    TwoMixesTurn(v, c);
    TwoMixesTurn(w, c);
    TwoMixesFirst(u, c);
    TwoMixesFirst(v, c);
    TwoMixesFirst(w, c);
    TwoMixesFirst(z, c);
    TurnedBytes(u);
    TurnedBytes(v);
    TurnedBytes(w);
    TurnedBytes(m);
    TurnedBytes(Turned(m));
    TurnedBytes(Turned(Turned(m)));
  }

  lemma HalvesDirect(x: bv8, y: bv8, p: bv8, q: bv8)
    ensures ((x ^ y) ^ p) ^ ((y ^ x) ^ q) == p ^ q
    ensures (x ^ y) ^ ((x ^ y) ^ p) == p
  {
  }

  lemma HalvesSum(x: bv8, y: bv8, p: bv8, q: bv8)
    ensures Xor8(Xor8(Xor8(x, y), p), Xor8(Xor8(y, x), q)) == Xor8(p, q)
    ensures Xor8(Xor8(x, y), Xor8(Xor8(x, y), p)) == p
  {
    HalvesDirect(x, y, p, q);
  }

  lemma TwoHalves(p: bv8, q: bv8, c: bv8)
    ensures Half(Half(p, q, c), Half(q, p, c), c) == p
  {
    hide MulX, Xor8;
    var x, y := MulX(MulX(p, c), c), MulX(MulX(q, c), c);
    var r, s := Half(p, q, c), Half(q, p, c);
    MulXLinear(r, s, c);
    MulXLinear(MulX(r, c), MulX(s, c), c);
    MulXLinear(p, q, c);
    MulXLinear(MulX(p, c), MulX(q, c), c);
    HalvesSum(x, y, p, q);
  }

  /** Mixing four times is the identity, whatever the reduction. */
  lemma MixedFourTimes(u: Column, c: bv8)
    ensures Mixed(Mixed(Mixed(Mixed(u, c), c), c), c) == u
  {
    hide *;
    TwoMixes(u, c);
    TwoMixes(Mixed(Mixed(u, c), c), c);
    TwoHalves(u.a0, u.a2, c);
    TwoHalves(u.a1, u.a3, c);
    TwoHalves(u.a2, u.a0, c);
    TwoHalves(u.a3, u.a1, c);
  }

  lemma MixedInjective(u: Column, v: Column, c: bv8)
    requires Mixed(u, c) == Mixed(v, c)
    ensures u == v
  {
    hide *;
    MixedFourTimes(u, c);
    MixedFourTimes(v, c);
  }
}
