/** The 64-bit arithmetic under the integrity algorithm: words are polynomials over GF(2)
    reduced modulo x^64 + c, and MUL64 multiplies them. Everything holds for any c. */
module Gf64 {
  import opened ByteNumbers
  import opened XorWords

  /** Whether the coefficient of x^i is set. */
  predicate Bit(p: bv64, i: nat)
    requires i < 64
  {
    (p >> (i as bv8)) & 1 == 1
  }

  /** MUL64x: multiplication by x. */
  function Mul64x(v: bv64, c: bv64): bv64 {
    if v & 0x8000000000000000 != 0 then (v << 1) ^ c else v << 1
  }

  /** MUL64xPOW: multiplication by x^i. */
  function Mul64xPow(v: bv64, i: nat, c: bv64): bv64 {
    if i == 0 then v else Mul64x(Mul64xPow(v, i - 1, c), c)
  }

  /** The sum of v * x^i over the coefficients i < n of p. */
  ghost function Partial(v: bv64, p: bv64, n: nat, c: bv64): bv64
    requires n <= 64
  {
    if n == 0 then 0
    else Xor64(Partial(v, p, n - 1, c), if Bit(p, n - 1) then Mul64xPow(v, n - 1, c) else 0)
  }

  /** The product of two polynomials modulo x^64 + c. */
  ghost function Product(v: bv64, p: bv64, c: bv64): bv64 {
    Partial(v, p, 64, c)
  }

  /** Whether MUL64x has to reduce. */
  predicate Top(v: bv64) {
    v & 0x8000000000000000 != 0
  }

  function Doubled(v: bv64): bv64 {
    v << 1
  }

  method Mul64(v: bv64, p: bv64, c: bv64) returns (result: bv64)
    ensures result == Product(v, p, c)
  {
    hide *;
    result := 0;
    var i := 0;
    PartialStep(v, p, 0, c);
    while i < 64
      invariant 0 <= i <= 64
      invariant result == Partial(v, p, i, c)
    {
      PartialStep(v, p, i, c);
      TermIs(v, i, c);
      Xor64Unit(result);
      if Bit(p, i) {
        result := Xor64(result, Mul64xPow(v, i, c));
      }
      i := i + 1;
    }
    ProductIs(v, p, c);
  }

  // --- multiplication by powers of x is linear and additive in the exponent ---

  lemma DoubledLinear(a: bv64, b: bv64)
    ensures Doubled(Xor64(a, b)) == Xor64(Doubled(a), Doubled(b))
  {
    assert (a ^ b) << 1 == (a << 1) ^ (b << 1);
  }

  lemma TopLinear(a: bv64, b: bv64)
    ensures Top(Xor64(a, b)) == (Top(a) != Top(b))
  {
    assert (a ^ b) & 0x8000000000000000 == (a & 0x8000000000000000) ^ (b & 0x8000000000000000);
  }

  lemma Mul64xIs(v: bv64, c: bv64)
    ensures Mul64x(v, c) == Xor64(Doubled(v), if Top(v) then c else 0)
  {
    Xor64Unit(v << 1);
  }

  lemma TimesXLinear(a: bv64, b: bv64, c: bv64)
    ensures Mul64x(Xor64(a, b), c) == Xor64(Mul64x(a, c), Mul64x(b, c))
  {
    hide *;
    Mul64xIs(a, c);
    Mul64xIs(b, c);
    Mul64xIs(Xor64(a, b), c);
    DoubledLinear(a, b);
    TopLinear(a, b);
    Xor64Unit(c);
    Xor64Unit(0);
    Xor64SwapsMiddle(Doubled(a), Doubled(b), if Top(a) then c else 0, if Top(b) then c else 0);
  }

  lemma TimesXZero(c: bv64)
    ensures Mul64x(0, c) == 0
  {
  }

  lemma PowStep(v: bv64, i: nat, c: bv64)
    ensures Mul64xPow(v, 0, c) == v
    ensures Mul64xPow(v, i + 1, c) == Mul64x(Mul64xPow(v, i, c), c)
  {
  }

  lemma {:induction false} PowLinear(a: bv64, b: bv64, i: nat, c: bv64)
    ensures Mul64xPow(Xor64(a, b), i, c) == Xor64(Mul64xPow(a, i, c), Mul64xPow(b, i, c))
    ensures Mul64xPow(0, i, c) == 0
  {
    hide *;
    if i == 0 {
      PowStep(Xor64(a, b), 0, c);
      PowStep(a, 0, c);
      PowStep(b, 0, c);
      PowStep(0, 0, c);
    } else {
      PowLinear(a, b, i - 1, c);
      PowStep(Xor64(a, b), i - 1, c);
      PowStep(a, i - 1, c);
      PowStep(b, i - 1, c);
      PowStep(0, i - 1, c);
      TimesXLinear(Mul64xPow(a, i - 1, c), Mul64xPow(b, i - 1, c), c);
      TimesXZero(c);
    }
  }

  lemma {:induction false} PowAdds(v: bv64, i: nat, j: nat, c: bv64)
    ensures Mul64xPow(Mul64xPow(v, j, c), i, c) == Mul64xPow(v, i + j, c)
  {
    hide *;
    PowStep(Mul64xPow(v, j, c), 0, c);
    if i > 0 {
      PowAdds(v, i - 1, j, c);
      PowStep(Mul64xPow(v, j, c), i - 1, c);
      PowStep(v, i - 1 + j, c);
    }
  }

  // --- the product ---

  /** One term of a sum: v * x^i, or nothing. */
  ghost function Term(v: bv64, on: bool, i: nat, c: bv64): bv64 {
    if on then Mul64xPow(v, i, c) else 0
  }

  lemma PartialStep(v: bv64, p: bv64, n: nat, c: bv64)
    requires n < 64
    ensures Partial(v, p, 0, c) == 0
    ensures Partial(v, p, n + 1, c) == Xor64(Partial(v, p, n, c), Term(v, Bit(p, n), n, c))
  {
  }

  lemma TermLinear(a: bv64, b: bv64, on: bool, i: nat, c: bv64)
    ensures Term(Xor64(a, b), on, i, c) == Xor64(Term(a, on, i, c), Term(b, on, i, c))
    ensures Term(0, on, i, c) == 0
  {
    hide Xor64, Mul64xPow, Mul64x;
    PowLinear(a, b, i, c);
    Xor64Unit(0);
  }

  lemma TermOfBits(v: bv64, s: bool, t: bool, i: nat, c: bv64)
    ensures Term(v, s != t, i, c) == Xor64(Term(v, s, i, c), Term(v, t, i, c))
  {
    hide Xor64, Mul64xPow, Mul64x;
    Xor64Unit(Mul64xPow(v, i, c));
    Xor64Unit(0);
  }

  lemma TermShift(v: bv64, on: bool, i: nat, j: nat, c: bv64)
    ensures Term(Mul64xPow(v, j, c), on, i, c) == Mul64xPow(Term(v, on, i, c), j, c)
  {
    hide Xor64, Mul64xPow, Mul64x;
    PowAdds(v, i, j, c);
    PowAdds(v, j, i, c);
    PowLinear(0, 0, j, c);
  }

  lemma {:induction false} PartialLinearLeft(a: bv64, b: bv64, p: bv64, n: nat, c: bv64)
    requires n <= 64
    ensures Partial(Xor64(a, b), p, n, c) == Xor64(Partial(a, p, n, c), Partial(b, p, n, c))
    ensures Partial(0, p, n, c) == 0
  {
    hide *;
    if n == 0 {
      PartialStep(Xor64(a, b), p, 0, c);
      PartialStep(a, p, 0, c);
      PartialStep(b, p, 0, c);
      PartialStep(0, p, 0, c);
      Xor64Unit(0);
    } else {
      var m := n - 1;
      PartialLinearLeft(a, b, p, m, c);
      PartialStep(Xor64(a, b), p, m, c);
      PartialStep(a, p, m, c);
      PartialStep(b, p, m, c);
      PartialStep(0, p, m, c);
      TermLinear(a, b, Bit(p, m), m, c);
      Xor64SwapsMiddle(Partial(a, p, m, c), Partial(b, p, m, c), Term(a, Bit(p, m), m, c), Term(b, Bit(p, m), m, c));
      Xor64Unit(0);
    }
  }

  lemma BitDirect(p: bv64, q: bv64, i: bv8)
    requires i < 64
    ensures ((p ^ q) >> i) & 1 == ((p >> i) & 1) ^ ((q >> i) & 1)
  {
  }

  lemma BitIsBinary(p: bv64)
    ensures p & 1 == 0 || p & 1 == 1
  {
  }

  lemma BitLinear(p: bv64, q: bv64, i: nat)
    requires i < 64
    ensures Bit(Xor64(p, q), i) == (Bit(p, i) != Bit(q, i))
    ensures !Bit(0, i)
  {
    BitDirect(p, q, i as bv8);
    BitIsBinary(p >> (i as bv8));
    BitIsBinary(q >> (i as bv8));
  }

  lemma {:induction false} PartialLinearRight(v: bv64, p: bv64, q: bv64, n: nat, c: bv64)
    requires n <= 64
    ensures Partial(v, Xor64(p, q), n, c) == Xor64(Partial(v, p, n, c), Partial(v, q, n, c))
    ensures Partial(v, 0, n, c) == 0
  {
    hide *;
    if n == 0 {
      PartialStep(v, Xor64(p, q), 0, c);
      PartialStep(v, p, 0, c);
      PartialStep(v, q, 0, c);
      PartialStep(v, 0, 0, c);
      Xor64Unit(0);
    } else {
      var m := n - 1;
      PartialLinearRight(v, p, q, m, c);
      PartialStep(v, Xor64(p, q), m, c);
      PartialStep(v, p, m, c);
      PartialStep(v, q, m, c);
      PartialStep(v, 0, m, c);
      BitLinear(p, q, m);
      TermOfBits(v, Bit(p, m), Bit(q, m), m, c);
      TermIs(v, m, c);
      Xor64SwapsMiddle(Partial(v, p, m, c), Partial(v, q, m, c), Term(v, Bit(p, m), m, c), Term(v, Bit(q, m), m, c));
      Xor64Unit(0);
    }
  }

  lemma TermIs(v: bv64, i: nat, c: bv64)
    ensures Term(v, true, i, c) == Mul64xPow(v, i, c)
    ensures Term(v, false, i, c) == 0
  {
  }

  lemma {:induction false} PartialShift(v: bv64, p: bv64, n: nat, j: nat, c: bv64)
    requires n <= 64
    ensures Partial(Mul64xPow(v, j, c), p, n, c) == Mul64xPow(Partial(v, p, n, c), j, c)
  {
    hide *;
    if n == 0 {
      PartialStep(Mul64xPow(v, j, c), p, 0, c);
      PartialStep(v, p, 0, c);
      PowLinear(0, 0, j, c);
    } else {
      var m := n - 1;
      PartialShift(v, p, m, j, c);
      PartialStep(Mul64xPow(v, j, c), p, m, c);
      PartialStep(v, p, m, c);
      TermShift(v, Bit(p, m), m, j, c);
      PowLinear(Partial(v, p, m, c), Term(v, Bit(p, m), m, c), j, c);
    }
  }

  lemma ProductIs(v: bv64, p: bv64, c: bv64)
    ensures Product(v, p, c) == Partial(v, p, 64, c)
  {
  }

  lemma ProductLinearLeft(a: bv64, b: bv64, p: bv64, c: bv64)
    ensures Product(Xor64(a, b), p, c) == Xor64(Product(a, p, c), Product(b, p, c))
    ensures Product(0, p, c) == 0
  {
    hide Partial, Xor64;
    PartialLinearLeft(a, b, p, 64, c);
  }

  lemma ProductLinearRight(v: bv64, p: bv64, q: bv64, c: bv64)
    ensures Product(v, Xor64(p, q), c) == Xor64(Product(v, p, c), Product(v, q, c))
    ensures Product(v, 0, c) == 0
  {
    hide Partial, Xor64;
    PartialLinearRight(v, p, q, 64, c);
  }

  /** A term of a * d, multiplied by b, is the same term of (a * b) * d. */
  lemma TermTimes(a: bv64, b: bv64, on: bool, i: nat, c: bv64)
    ensures Partial(Term(a, on, i, c), b, 64, c) == Term(Partial(a, b, 64, c), on, i, c)
  {
    hide Partial, Mul64xPow, Mul64x, Xor64;
    PartialShift(a, b, 64, i, c);
    PartialLinearLeft(0, 0, b, 64, c);
  }

  lemma {:induction false} PartialTimes(a: bv64, b: bv64, d: bv64, n: nat, c: bv64)
    requires n <= 64
    ensures Partial(Partial(a, b, 64, c), d, n, c) == Partial(Partial(a, d, n, c), b, 64, c)
  {
    hide *;
    var ab := Partial(a, b, 64, c);
    if n == 0 {
      PartialStep(ab, d, 0, c);
      PartialStep(a, d, 0, c);
      PartialLinearLeft(0, 0, b, 64, c);
    } else {
      var m := n - 1;
      PartialTimes(a, b, d, m, c);
      PartialStep(ab, d, m, c);
      PartialStep(a, d, m, c);
      TermTimes(a, b, Bit(d, m), m, c);
      PartialLinearLeft(Partial(a, d, m, c), Term(a, Bit(d, m), m, c), b, 64, c);
    }
  }

  /** (a * b) * d == (a * d) * b. */
  lemma ProductExchange(a: bv64, b: bv64, d: bv64, c: bv64)
    ensures Product(Product(a, b, c), d, c) == Product(Product(a, d, c), b, c)
  {
    hide Partial;
    PartialTimes(a, b, d, 64, c);
  }

  // --- one is a unit: x^i below x^64 is the word with bit i set ---

  /** The word x^n. */
  function Single(n: bv8): bv64
    requires n < 64
  {
    (1 as bv64) << n
  }

  /** All coefficients from x^n on. */
  function From(n: bv8): bv64
    requires n <= 64
  {
    (0xFFFFFFFFFFFFFFFF as bv64) << n
  }

  /** The n low coefficients of p. */
  function LowPart(p: bv64, n: bv8): bv64
    requires n <= 64
  {
    Without(p, From(n))
  }

  function Without(p: bv64, m: bv64): bv64 {
    p & !m
  }

  function And(p: bv64, m: bv64): bv64 {
    p & m
  }

  lemma SingleStep(i: bv8)
    requires i < 63
    ensures !Top(Single(i)) && Doubled(Single(i)) == Single(i + 1)
  {
  }

  lemma FromStep(n: bv8)
    requires n < 64
    ensures From(n + 1) == Xor64(From(n), Single(n))
    ensures And(From(n), Single(n)) == Single(n)
  {
  }

  lemma MaskDirect(p: bv64, m: bv64, s: bv64)
    requires m & s == s
    ensures p & !(m ^ s) == (p & !m) ^ (p & s)
  {
  }

  lemma MaskSplits(p: bv64, m: bv64, s: bv64)
    requires And(m, s) == s
    ensures Without(p, Xor64(m, s)) == Xor64(Without(p, m), And(p, s))
  {
    calc {
      Without(p, Xor64(m, s));
      p & !(m ^ s);
      { MaskDirect(p, m, s); }
      (p & !m) ^ (p & s);
      Xor64(Without(p, m), And(p, s));
    }
  }

  lemma BitMasked(p: bv64, n: bv8)
    requires n < 64
    ensures And(p, Single(n)) == if (p >> n) & 1 == 1 then Single(n) else 0
  {
  }

  lemma LowPartEnds(p: bv64)
    ensures LowPart(p, 0) == 0 && LowPart(p, 64) == p
  {
  }

  lemma LowPartIs(p: bv64, n: bv8)
    requires n <= 64
    ensures LowPart(p, n) == Without(p, From(n))
  {
  }

  lemma LowPartStep(p: bv64, n: bv8)
    requires n < 64
    ensures LowPart(p, n + 1) == Xor64(LowPart(p, n), if (p >> n) & 1 == 1 then Single(n) else 0)
  {
    hide *;
    LowPartIs(p, n);
    LowPartIs(p, n + 1);
    FromStep(n);
    MaskSplits(p, From(n), Single(n));
    BitMasked(p, n);
  }

  lemma SmallNumber(n: nat)
    requires n <= 64
    ensures n as bv8 <= 64 && (n < 64 ==> n as bv8 < 64) && (n < 63 ==> n as bv8 < 63)
    ensures (n as bv8) as nat == n
  {
    RoundTrip(n);
    Below(n, 64, 64);
    Below(n, 63, 63);
  }

  lemma SingleTimesX(n: bv8, c: bv64)
    requires n < 63
    ensures Mul64x(Single(n), c) == Single(n + 1)
  {
    hide *;
    SingleStep(n);
    Mul64xIs(Single(n), c);
    Xor64Unit(Single(n + 1));
  }

  lemma {:induction false} PowOfOne(i: nat, c: bv64)
    requires i < 64
    ensures i as bv8 < 64 && Mul64xPow(1, i, c) == Single(i as bv8)
  {
    hide *;
    SmallNumber(i);
    if i == 0 {
      PowStep(1, 0, c);
      FirstSingle();
    } else {
      var m := i - 1;
      PowOfOne(m, c);
      PowStep(1, m, c);
      SmallNumber(m);
      Next(m);
      SingleTimesX(m as bv8, c);
    }
  }

  lemma FirstSingle()
    ensures Single(0) == 1
  {
  }

  lemma BitIs(p: bv64, i: nat)
    requires i < 64
    ensures Bit(p, i) == ((p >> (i as bv8)) & 1 == 1)
  {
  }

  lemma {:induction false} PartialOfOne(p: bv64, n: nat, c: bv64)
    requires n <= 64
    ensures n as bv8 <= 64 && Partial(1, p, n, c) == LowPart(p, n as bv8)
  {
    hide *;
    SmallNumber(n);
    if n == 0 {
      PartialStep(1, p, 0, c);
      LowPartEnds(p);
    } else {
      var m := n - 1;
      PartialOfOne(p, m, c);
      PartialStep(1, p, m, c);
      SmallNumber(m);
      Next(m);
      LowPartStep(p, m as bv8);
      PowOfOne(m, c);
      TermIs(1, m, c);
      BitIs(p, m);
    }
  }

  lemma ProductOfOne(p: bv64, c: bv64)
    ensures Product(1, p, c) == p
  {
    hide *;
    ProductIs(1, p, c);
    PartialOfOne(p, 64, c);
    LowPartEnds(p);
  }

  lemma ProductCommutes(a: bv64, b: bv64, c: bv64)
    ensures Product(a, b, c) == Product(b, a, c)
  {
    hide *;
    ProductOfOne(a, c);
    ProductOfOne(b, c);
    ProductExchange(1, a, b, c);
  }

  lemma ProductAssociates(a: bv64, b: bv64, d: bv64, c: bv64)
    ensures Product(Product(a, b, c), d, c) == Product(a, Product(b, d, c), c)
  {
    hide *;
    ProductCommutes(a, b, c);
    ProductExchange(b, a, d, c);
    ProductCommutes(Product(b, d, c), a, c);
  }

  /** The reference definition of the product: the sum of x^(i+j) over the set coefficients
      i < n of p and j < 64 of v. */
  ghost function Convolution(v: bv64, p: bv64, n: nat, c: bv64): bv64
    requires n <= 64
  {
    if n == 0 then 0
    else Xor64(Convolution(v, p, n - 1, c), if Bit(p, n - 1) then Row(v, n - 1, 64, c) else 0)
  }

  /** The sum of x^(i+j) over the set coefficients j < n of v. */
  ghost function Row(v: bv64, i: nat, n: nat, c: bv64): bv64
    requires n <= 64
  {
    if n == 0 then 0
    else Xor64(Row(v, i, n - 1, c), if Bit(v, n - 1) then Mul64xPow(1, i + n - 1, c) else 0)
  }

  lemma RowStep(v: bv64, i: nat, n: nat, c: bv64)
    requires n < 64
    ensures Row(v, i, 0, c) == 0
    ensures Row(v, i, n + 1, c) == Xor64(Row(v, i, n, c), if Bit(v, n) then Mul64xPow(1, i + n, c) else 0)
  {
  }

  lemma {:induction false} RowIsShift(v: bv64, i: nat, n: nat, c: bv64)
    requires n <= 64
    ensures Row(v, i, n, c) == Mul64xPow(Partial(1, v, n, c), i, c)
  {
    hide *;
    if n == 0 {
      RowStep(v, i, 0, c);
      PartialStep(1, v, 0, c);
      PowLinear(0, 0, i, c);
    } else {
      var m := n - 1;
      RowIsShift(v, i, m, c);
      RowStep(v, i, m, c);
      PartialStep(1, v, m, c);
      TermIs(1, m, c);
      PowAdds(1, i, m, c);
      PowLinear(Partial(1, v, m, c), Term(1, Bit(v, m), m, c), i, c);
    }
  }

  lemma ConvolutionStep(v: bv64, p: bv64, n: nat, c: bv64)
    requires n < 64
    ensures Convolution(v, p, 0, c) == 0
    ensures Convolution(v, p, n + 1, c) == Xor64(Convolution(v, p, n, c), if Bit(p, n) then Row(v, n, 64, c) else 0)
  {
  }

  lemma {:induction false} PartialIsConvolution(v: bv64, p: bv64, n: nat, c: bv64)
    requires n <= 64
    ensures Partial(v, p, n, c) == Convolution(v, p, n, c)
  {
    hide *;
    if n == 0 {
      PartialStep(v, p, 0, c);
      ConvolutionStep(v, p, 0, c);
    } else {
      var m := n - 1;
      PartialIsConvolution(v, p, m, c);
      PartialStep(v, p, m, c);
      ConvolutionStep(v, p, m, c);
      TermIs(v, m, c);
      RowIsShift(v, m, 64, c);
      ProductOfOne(v, c);
      ProductIs(1, v, c);
    }
  }

  lemma ProductIsConvolution(v: bv64, p: bv64, c: bv64)
    ensures Product(v, p, c) == Convolution(v, p, 64, c)
  {
    hide *;
    ProductIs(v, p, c);
    PartialIsConvolution(v, p, 64, c);
  }
}
