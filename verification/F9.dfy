/** The f9 integrity algorithm: a polynomial in P over the blocks of the message, times Q,
    exclusive-ored with a keystream word. */
module F9 {
  import opened OctetBits
  import opened Snow3g
  import opened Snow3gGenerators
  import Eea1
  import G = Gf64
  import opened WordBits
  import opened XorWords

  /** The reduction constant of the 64-bit field. */
  const C: bv64 := 0x1b

  // --- blocks ---

  /** Eight octets as a word, first octet on top. */
  function Eight(o0: bv8, o1: bv8, o2: bv8, o3: bv8, o4: bv8, o5: bv8, o6: bv8, o7: bv8): bv64 {
    ((o0 as bv64) << 56) | ((o1 as bv64) << 48) | ((o2 as bv64) << 40) | ((o3 as bv64) << 32)
    | ((o4 as bv64) << 24) | ((o5 as bv64) << 16) | ((o6 as bv64) << 8) | (o7 as bv64)
  }

  lemma EightDirect(o0: bv8, o1: bv8, o2: bv8, o3: bv8, o4: bv8, o5: bv8, o6: bv8, o7: bv8,
                    p0: bv8, p1: bv8, p2: bv8, p3: bv8, p4: bv8, p5: bv8, p6: bv8, p7: bv8)
    ensures (((o0 ^ p0) as bv64) << 56) | (((o1 ^ p1) as bv64) << 48) | (((o2 ^ p2) as bv64) << 40) | (((o3 ^ p3) as bv64) << 32)
            | (((o4 ^ p4) as bv64) << 24) | (((o5 ^ p5) as bv64) << 16) | (((o6 ^ p6) as bv64) << 8) | ((o7 ^ p7) as bv64)
            == (((o0 as bv64) << 56) | ((o1 as bv64) << 48) | ((o2 as bv64) << 40) | ((o3 as bv64) << 32)
               | ((o4 as bv64) << 24) | ((o5 as bv64) << 16) | ((o6 as bv64) << 8) | (o7 as bv64))
               ^ (((p0 as bv64) << 56) | ((p1 as bv64) << 48) | ((p2 as bv64) << 40) | ((p3 as bv64) << 32)
                 | ((p4 as bv64) << 24) | ((p5 as bv64) << 16) | ((p6 as bv64) << 8) | (p7 as bv64))
  {
  }

  lemma EightXor(o0: bv8, o1: bv8, o2: bv8, o3: bv8, o4: bv8, o5: bv8, o6: bv8, o7: bv8,
                 p0: bv8, p1: bv8, p2: bv8, p3: bv8, p4: bv8, p5: bv8, p6: bv8, p7: bv8)
    ensures Eight(Xor8(o0, p0), Xor8(o1, p1), Xor8(o2, p2), Xor8(o3, p3), Xor8(o4, p4), Xor8(o5, p5), Xor8(o6, p6), Xor8(o7, p7))
            == Xor64(Eight(o0, o1, o2, o3, o4, o5, o6, o7), Eight(p0, p1, p2, p3, p4, p5, p6, p7))
  {
    EightDirect(o0, o1, o2, o3, o4, o5, o6, o7, p0, p1, p2, p3, p4, p5, p6, p7);
  }

  /** Octet k of a message, zero after its end. */
  function OctetAt(t: seq<bv8>, k: nat): bv8 {
    if k < |t| then t[k] else 0
  }

  /** Block i of a message: eight octets, zero after its end. */
  function Block(t: seq<bv8>, i: nat): bv64 {
    Eight(OctetAt(t, 8 * i), OctetAt(t, 8 * i + 1), OctetAt(t, 8 * i + 2), OctetAt(t, 8 * i + 3),
          OctetAt(t, 8 * i + 4), OctetAt(t, 8 * i + 5), OctetAt(t, 8 * i + 6), OctetAt(t, 8 * i + 7))
  }

  /** The blocks that hold len bits. */
  function Blocks(len: nat): nat {
    (len + 63) / 64
  }

  // --- the polynomial ---

  ghost function Power(p: bv64, k: nat): bv64 {
    if k == 0 then 1 else G.Product(Power(p, k - 1), p, C)
  }

  /** The sum of M_i * P^(n-i) over the first k blocks. */
  ghost function Polynomial(t: seq<bv8>, p: bv64, n: nat, k: nat): bv64
    requires k <= n
  {
    if k == 0 then 0
    else Xor64(Polynomial(t, p, n, k - 1), G.Product(Block(t, k - 1), Power(p, n - (k - 1)), C))
  }

  lemma PowerStep(p: bv64, k: nat)
    ensures Power(p, 0) == 1 && Power(p, k + 1) == G.Product(Power(p, k), p, C)
  {
    hide G.Product;
  }

  lemma PolynomialStep(t: seq<bv8>, p: bv64, n: nat, k: nat)
    requires k < n
    ensures Polynomial(t, p, n, 0) == 0
    ensures Polynomial(t, p, n, k + 1) == Xor64(Polynomial(t, p, n, k), G.Product(Block(t, k), Power(p, n - k), C))
  {
    hide Xor64, G.Product, Block, Power;
  }

  lemma PolynomialOfNothing(t: seq<bv8>, p: bv64, n: nat)
    ensures Polynomial(t, p, n, 0) == 0
  {
  }

  /** Multiplying the polynomial by P raises every exponent. */
  lemma {:induction false} PolynomialTimesP(t: seq<bv8>, p: bv64, n: nat, k: nat)
    requires k <= n
    ensures G.Product(Polynomial(t, p, n, k), p, C) == Polynomial(t, p, n + 1, k)
  {
    hide *;
    PolynomialOfNothing(t, p, n);
    PolynomialOfNothing(t, p, n + 1);
    G.ProductLinearLeft(0, 0, p, C);
    if k > 0 {
      PolynomialTimesP(t, p, n, k - 1);
      PolynomialStep(t, p, n, k - 1);
      PolynomialStep(t, p, n + 1, k - 1);
      var e := n - (k - 1);
      var m := Block(t, k - 1);
      G.ProductLinearLeft(Polynomial(t, p, n, k - 1), G.Product(m, Power(p, e), C), p, C);
      G.ProductAssociates(m, Power(p, e), p, C);
      PowerStep(p, e);
    }
  }

  lemma PowerOne(p: bv64)
    ensures Power(p, 1) == p
  {
    hide *;
    PowerStep(p, 0);
    G.ProductOfOne(p, C);
  }

  /** One round of the evaluation loop adds the next block and multiplies by P. */
  lemma HornerStep(t: seq<bv8>, p: bv64, n: nat)
    ensures G.Product(Xor64(Polynomial(t, p, n, n), Block(t, n)), p, C) == Polynomial(t, p, n + 1, n + 1)
  {
    hide *;
    G.ProductLinearLeft(Polynomial(t, p, n, n), Block(t, n), p, C);
    PolynomialTimesP(t, p, n, n);
    PolynomialStep(t, p, n + 1, n);
    PowerOne(p);
  }

  // --- the tag ---

  function Octet56(w: bv64): bv8 {
    ((w >> 56) & 0xFF) as bv8
  }

  function Octet48(w: bv64): bv8 {
    ((w >> 48) & 0xFF) as bv8
  }

  function Octet40(w: bv64): bv8 {
    ((w >> 40) & 0xFF) as bv8
  }

  function Octet32Of64(w: bv64): bv8 {
    ((w >> 32) & 0xFF) as bv8
  }

  /** Octet i of a word, octet 0 on top. */
  function Octet64(w: bv64, i: nat): bv8
    requires i < 4
  {
    if i == 0 then Octet56(w) else if i == 1 then Octet48(w) else if i == 2 then Octet40(w) else Octet32Of64(w)
  }

  /** The first four octets of the evaluated word, each added to the octet of z5. */
  function Tag(eval: bv64, z5: bv32): (m: seq<bv8>)
    ensures |m| == 4
  {
    seq(4, i requires 0 <= i < 4 => Xor8(Octet64(eval, i), WordOctet(z5, i)))
  }

  /** Q * (LENGTH + the sum of M_i * P^(D-1-i)). */
  ghost function Evaluated(t: seq<bv8>, p: bv64, q: bv64, len: nat): bv64
    requires len < 0x1_0000_0000_0000_0000
  {
    G.Product(Xor64(Polynomial(t, p, Blocks(len), Blocks(len)), len as bv64), q, C)
  }

  /** The authentication code of the first len bits of a message, from five keystream words. */
  ghost function Mac(s: seq<bv8>, z: seq<bv32>, len: nat): (m: seq<bv8>)
    requires |z| == 5 && 1 <= len <= 8 * |s| && len < 0x1_0000_0000_0000_0000
    ensures |m| == 4
  {
    Tag(Evaluated(Trimmed(s, len), Pair(z[0], z[1]), Pair(z[2], z[3]), len), z[4])
  }

  function Pair(a: bv32, b: bv32): bv64 {
    ((a as bv64) << 32) | (b as bv64)
  }

  /** The code ignores every bit past the length. */
  lemma MacIgnoresRest(s: seq<bv8>, t: seq<bv8>, z: seq<bv32>, len: nat)
    requires |z| == 5 && 1 <= len <= 8 * |s| && len <= 8 * |t| && len < 0x1_0000_0000_0000_0000
    requires forall j :: 0 <= j < len ==> BitAt(s, j) == BitAt(t, j)
    ensures Mac(s, z, len) == Mac(t, z, len)
  {
    hide BitAt, Trimmed, Evaluated, Tag, Pair;
    TrimmedSame(s, t, len);
  }

  // --- the code is affine ---

  /** The octet-wise sum of two messages of the same size. */
  function Sum(s: seq<bv8>, t: seq<bv8>): (u: seq<bv8>)
    requires |s| == |t|
    ensures |u| == |s|
  {
    seq(|s|, i requires 0 <= i < |s| => Xor8(s[i], t[i]))
  }

  function Zero(n: nat): (u: seq<bv8>)
    ensures |u| == n
  {
    seq(n, i => 0)
  }

  lemma ClearedXor(a: bv8, b: bv8, n: nat)
    requires n < 8
    ensures Cleared(Xor8(a, b), n) == Xor8(Cleared(a, n), Cleared(b, n))
    ensures Cleared(0, n) == 0
  {
    AndXor(a, b, 0xFF << n);
  }

  lemma TrimmedSum(s: seq<bv8>, t: seq<bv8>, len: nat)
    requires |s| == |t| && 1 <= len <= 8 * |s|
    ensures Trimmed(Sum(s, t), len) == Sum(Trimmed(s, len), Trimmed(t, len))
    ensures Trimmed(Zero(|s|), len) == Zero(Octets(len))
  {
    hide Xor8, Cleared;
    OctetsRoom(len, |s|);
    var last := Octets(len) - 1;
    ClearedXor(s[last], t[last], Spare(len));
  }

  lemma OctetAtSum(s: seq<bv8>, t: seq<bv8>, k: nat)
    requires |s| == |t|
    ensures OctetAt(Sum(s, t), k) == Xor8(OctetAt(s, k), OctetAt(t, k))
    ensures OctetAt(Zero(|s|), k) == 0
  {
  }

  lemma BlockSum(s: seq<bv8>, t: seq<bv8>, i: nat)
    requires |s| == |t|
    ensures Block(Sum(s, t), i) == Xor64(Block(s, i), Block(t, i))
  {
    hide OctetAt, Sum, Xor8, Eight, Xor64;
    var k := 8 * i;
    OctetAtSum(s, t, k);
    OctetAtSum(s, t, k + 1);
    OctetAtSum(s, t, k + 2);
    OctetAtSum(s, t, k + 3);
    OctetAtSum(s, t, k + 4);
    OctetAtSum(s, t, k + 5);
    OctetAtSum(s, t, k + 6);
    OctetAtSum(s, t, k + 7);
    EightXor(OctetAt(s, k), OctetAt(s, k + 1), OctetAt(s, k + 2), OctetAt(s, k + 3),
             OctetAt(s, k + 4), OctetAt(s, k + 5), OctetAt(s, k + 6), OctetAt(s, k + 7),
             OctetAt(t, k), OctetAt(t, k + 1), OctetAt(t, k + 2), OctetAt(t, k + 3),
             OctetAt(t, k + 4), OctetAt(t, k + 5), OctetAt(t, k + 6), OctetAt(t, k + 7));
  }

  lemma BlockOfZero(n: nat, i: nat)
    ensures Block(Zero(n), i) == 0
  {
    var t := Zero(n);
    assert forall k: nat :: OctetAt(t, k) == 0;
    assert Block(t, i) == Eight(0, 0, 0, 0, 0, 0, 0, 0);
  }

  lemma {:induction false} PolynomialSum(s: seq<bv8>, t: seq<bv8>, p: bv64, n: nat, k: nat)
    requires |s| == |t| && k <= n
    ensures Polynomial(Sum(s, t), p, n, k) == Xor64(Polynomial(s, p, n, k), Polynomial(t, p, n, k))
    ensures Polynomial(Zero(|s|), p, n, k) == 0
  {
    hide *;
    PolynomialOfNothing(Sum(s, t), p, n);
    PolynomialOfNothing(Zero(|s|), p, n);
    PolynomialOfNothing(s, p, n);
    PolynomialOfNothing(t, p, n);
    Xor64Unit(0);
    if k > 0 {
      var e := Power(p, n - (k - 1));
      PolynomialSum(s, t, p, n, k - 1);
      PolynomialStep(Sum(s, t), p, n, k - 1);
      PolynomialStep(Zero(|s|), p, n, k - 1);
      PolynomialStep(s, p, n, k - 1);
      PolynomialStep(t, p, n, k - 1);
      BlockSum(s, t, k - 1);
      BlockOfZero(|s|, k - 1);
      G.ProductLinearLeft(Block(s, k - 1), Block(t, k - 1), e, C);
      Xor64SwapsMiddle(Polynomial(s, p, n, k - 1), Polynomial(t, p, n, k - 1),
                       G.Product(Block(s, k - 1), e, C), G.Product(Block(t, k - 1), e, C));
    }
  }

  lemma EvaluatedIs(t: seq<bv8>, p: bv64, q: bv64, len: nat)
    requires len < 0x1_0000_0000_0000_0000
    ensures Evaluated(t, p, q, len) == Xor64(G.Product(Polynomial(t, p, Blocks(len), Blocks(len)), q, C), G.Product(len as bv64, q, C))
  {
    hide G.Product, Xor64, Polynomial;
    G.ProductLinearLeft(Polynomial(t, p, Blocks(len), Blocks(len)), len as bv64, q, C);
  }

  lemma EvaluatedAffine(s: seq<bv8>, t: seq<bv8>, p: bv64, q: bv64, len: nat)
    requires |s| == |t| && len < 0x1_0000_0000_0000_0000
    ensures Xor64(Evaluated(s, p, q, len), Evaluated(t, p, q, len))
            == Xor64(Evaluated(Sum(s, t), p, q, len), Evaluated(Zero(|s|), p, q, len))
  {
    hide *;
    var n := Blocks(len);
    var a, b := Polynomial(s, p, n, n), Polynomial(t, p, n, n);
    var l := G.Product(len as bv64, q, C);
    EvaluatedIs(s, p, q, len);
    EvaluatedIs(t, p, q, len);
    EvaluatedIs(Sum(s, t), p, q, len);
    EvaluatedIs(Zero(|s|), p, q, len);
    PolynomialSum(s, t, p, n, n);
    G.ProductLinearLeft(a, b, q, C);
    Xor64SwapsMiddle(G.Product(a, q, C), l, G.Product(b, q, C), l);
    Xor64SwapsMiddle(Xor64(G.Product(a, q, C), G.Product(b, q, C)), l, 0, l);
    Xor64Unit(Xor64(G.Product(a, q, C), G.Product(b, q, C)));
  }

  lemma TagOctets(a: bv64, b: bv64, c: bv64, d: bv64, z5: bv32)
    requires Xor64(a, b) == Xor64(c, d)
    ensures Sum(Tag(a, z5), Tag(b, z5)) == Sum(Tag(c, z5), Tag(d, z5))
  {
    hide Xor8, Octet64, WordOctet, Xor64;
    forall i | 0 <= i < 4
      ensures Sum(Tag(a, z5), Tag(b, z5))[i] == Sum(Tag(c, z5), Tag(d, z5))[i]
    {
      OctetXor(a, b, i);
      OctetXor(c, d, i);
      SameOffset(Octet64(a, i), Octet64(b, i), WordOctet(z5, i));
      SameOffset(Octet64(c, i), Octet64(d, i), WordOctet(z5, i));
    }
  }

  lemma Octet56Xor(a: bv64, b: bv64)
    ensures Octet56(Xor64(a, b)) == Xor8(Octet56(a), Octet56(b))
  {
  }

  lemma Octet48Xor(a: bv64, b: bv64)
    ensures Octet48(Xor64(a, b)) == Xor8(Octet48(a), Octet48(b))
  {
  }

  lemma Octet40Xor(a: bv64, b: bv64)
    ensures Octet40(Xor64(a, b)) == Xor8(Octet40(a), Octet40(b))
  {
  }

  lemma Octet32Of64Xor(a: bv64, b: bv64)
    ensures Octet32Of64(Xor64(a, b)) == Xor8(Octet32Of64(a), Octet32Of64(b))
  {
  }

  lemma OctetXor(a: bv64, b: bv64, i: nat)
    requires i < 4
    ensures Octet64(Xor64(a, b), i) == Xor8(Octet64(a, i), Octet64(b, i))
  {
    hide Octet56, Octet48, Octet40, Octet32Of64, Xor8, Xor64;
    Octet56Xor(a, b);
    Octet48Xor(a, b);
    Octet40Xor(a, b);
    Octet32Of64Xor(a, b);
  }

  lemma SameOffset(x: bv8, y: bv8, o: bv8)
    ensures Xor8(Xor8(x, o), Xor8(y, o)) == Xor8(x, y)
  {
  }

  /** For messages of one length under one key the sum of two codes is the code of the sum
      plus the code of the zero message. */
  lemma MacAffine(s: seq<bv8>, t: seq<bv8>, z: seq<bv32>, len: nat)
    requires |z| == 5 && |s| == |t| && 1 <= len <= 8 * |s| && len < 0x1_0000_0000_0000_0000
    ensures Sum(Mac(s, z, len), Mac(t, z, len)) == Sum(Mac(Sum(s, t), z, len), Mac(Zero(|s|), z, len))
  {
    hide Trimmed, Evaluated, Tag, Pair, Sum, Zero, Xor64;
    var p, q := Pair(z[0], z[1]), Pair(z[2], z[3]);
    var u, v := Trimmed(s, len), Trimmed(t, len);
    TrimmedSum(s, t, len);
    EvaluatedAffine(u, v, p, q, len);
    TagOctets(Evaluated(u, p, q, len), Evaluated(v, p, q, len), Evaluated(Sum(u, v), p, q, len), Evaluated(Zero(|u|), p, q, len), z[4]);
  }

  // --- the operation ---

  /** Octet x as octet i of a word: moved up by 8 (7 - i) bits. */
  function Placed(x: bv8, i: nat): bv64
    requires i < 8
  {
    var w := x as bv64;
    if i == 0 then w << 56 else if i == 1 then w << 48 else if i == 2 then w << 40 else if i == 3 then w << 32
    else if i == 4 then w << 24 else if i == 5 then w << 16 else if i == 6 then w << 8 else w
  }

  /** The first i octets of a block, the others zero. */
  function FirstOctets(t: seq<bv8>, k: nat, i: nat): bv64 {
    Eight(if 0 < i then OctetAt(t, 8 * k) else 0, if 1 < i then OctetAt(t, 8 * k + 1) else 0,
          if 2 < i then OctetAt(t, 8 * k + 2) else 0, if 3 < i then OctetAt(t, 8 * k + 3) else 0,
          if 4 < i then OctetAt(t, 8 * k + 4) else 0, if 5 < i then OctetAt(t, 8 * k + 5) else 0,
          if 6 < i then OctetAt(t, 8 * k + 6) else 0, if 7 < i then OctetAt(t, 8 * k + 7) else 0)
  }

  function Or(a: bv64, b: bv64): bv64 {
    a | b
  }

  lemma OrChain(a: bv64, b: bv64, c: bv64, d: bv64, e: bv64, f: bv64, g: bv64, h: bv64)
    ensures Or(Or(Or(Or(Or(Or(Or(a, b), c), d), e), f), g), h) == a | b | c | d | e | f | g | h
  {
  }

  lemma EightIs(o0: bv8, o1: bv8, o2: bv8, o3: bv8, o4: bv8, o5: bv8, o6: bv8, o7: bv8)
    ensures Eight(o0, o1, o2, o3, o4, o5, o6, o7)
            == Or(Or(Or(Or(Or(Or(Or(Placed(o0, 0), Placed(o1, 1)), Placed(o2, 2)), Placed(o3, 3)),
                            Placed(o4, 4)), Placed(o5, 5)), Placed(o6, 6)), Placed(o7, 7))
  {
    OrChain(Placed(o0, 0), Placed(o1, 1), Placed(o2, 2), Placed(o3, 3),
            Placed(o4, 4), Placed(o5, 5), Placed(o6, 6), Placed(o7, 7));
  }

  lemma NothingAdded()
    ensures forall a :: Or(a, 0) == a
    ensures forall a :: Or(0, a) == a
    ensures forall i: nat | i < 8 :: Placed(0, i) == 0
  {
  }

  lemma Place0(o0: bv8)
    ensures Or(Eight(0, 0, 0, 0, 0, 0, 0, 0), Placed(o0, 0)) == Eight(o0, 0, 0, 0, 0, 0, 0, 0)
  {
    hide *;
    EightIs(0, 0, 0, 0, 0, 0, 0, 0);
    EightIs(o0, 0, 0, 0, 0, 0, 0, 0);
    NothingAdded();
  }

  lemma Place1(o0: bv8, o1: bv8)
    ensures Or(Eight(o0, 0, 0, 0, 0, 0, 0, 0), Placed(o1, 1)) == Eight(o0, o1, 0, 0, 0, 0, 0, 0)
  {
    hide *;
    EightIs(o0, 0, 0, 0, 0, 0, 0, 0);
    EightIs(o0, o1, 0, 0, 0, 0, 0, 0);
    NothingAdded();
  }

  lemma Place2(o0: bv8, o1: bv8, o2: bv8)
    ensures Or(Eight(o0, o1, 0, 0, 0, 0, 0, 0), Placed(o2, 2)) == Eight(o0, o1, o2, 0, 0, 0, 0, 0)
  {
    hide *;
    EightIs(o0, o1, 0, 0, 0, 0, 0, 0);
    EightIs(o0, o1, o2, 0, 0, 0, 0, 0);
    NothingAdded();
  }

  lemma Place3(o0: bv8, o1: bv8, o2: bv8, o3: bv8)
    ensures Or(Eight(o0, o1, o2, 0, 0, 0, 0, 0), Placed(o3, 3)) == Eight(o0, o1, o2, o3, 0, 0, 0, 0)
  {
    hide *;
    EightIs(o0, o1, o2, 0, 0, 0, 0, 0);
    EightIs(o0, o1, o2, o3, 0, 0, 0, 0);
    NothingAdded();
  }

  lemma Place4(o0: bv8, o1: bv8, o2: bv8, o3: bv8, o4: bv8)
    ensures Or(Eight(o0, o1, o2, o3, 0, 0, 0, 0), Placed(o4, 4)) == Eight(o0, o1, o2, o3, o4, 0, 0, 0)
  {
    hide *;
    EightIs(o0, o1, o2, o3, 0, 0, 0, 0);
    EightIs(o0, o1, o2, o3, o4, 0, 0, 0);
    NothingAdded();
  }

  lemma Place5(o0: bv8, o1: bv8, o2: bv8, o3: bv8, o4: bv8, o5: bv8)
    ensures Or(Eight(o0, o1, o2, o3, o4, 0, 0, 0), Placed(o5, 5)) == Eight(o0, o1, o2, o3, o4, o5, 0, 0)
  {
    hide *;
    EightIs(o0, o1, o2, o3, o4, 0, 0, 0);
    EightIs(o0, o1, o2, o3, o4, o5, 0, 0);
    NothingAdded();
  }

  lemma Place6(o0: bv8, o1: bv8, o2: bv8, o3: bv8, o4: bv8, o5: bv8, o6: bv8)
    ensures Or(Eight(o0, o1, o2, o3, o4, o5, 0, 0), Placed(o6, 6)) == Eight(o0, o1, o2, o3, o4, o5, o6, 0)
  {
    hide *;
    EightIs(o0, o1, o2, o3, o4, o5, 0, 0);
    EightIs(o0, o1, o2, o3, o4, o5, o6, 0);
    NothingAdded();
  }

  lemma Place7(o0: bv8, o1: bv8, o2: bv8, o3: bv8, o4: bv8, o5: bv8, o6: bv8, o7: bv8)
    ensures Or(Eight(o0, o1, o2, o3, o4, o5, o6, 0), Placed(o7, 7)) == Eight(o0, o1, o2, o3, o4, o5, o6, o7)
  {
    hide *;
    EightIs(o0, o1, o2, o3, o4, o5, o6, 0);
    EightIs(o0, o1, o2, o3, o4, o5, o6, o7);
    NothingAdded();
  }

  lemma FirstOctetsStep(t: seq<bv8>, k: nat, i: nat)
    requires i < 8
    ensures Or(FirstOctets(t, k, i), Placed(OctetAt(t, 8 * k + i), i)) == FirstOctets(t, k, i + 1)
  {
    hide Or, Placed, Eight, OctetAt;
    var b := 8 * k;
    var o0, o1, o2, o3 := OctetAt(t, b), OctetAt(t, b + 1), OctetAt(t, b + 2), OctetAt(t, b + 3);
    var o4, o5, o6, o7 := OctetAt(t, b + 4), OctetAt(t, b + 5), OctetAt(t, b + 6), OctetAt(t, b + 7);
    Place0(o0);
    Place1(o0, o1);
    Place2(o0, o1, o2);
    Place3(o0, o1, o2, o3);
    Place4(o0, o1, o2, o3, o4);
    Place5(o0, o1, o2, o3, o4, o5);
    Place6(o0, o1, o2, o3, o4, o5, o6);
    Place7(o0, o1, o2, o3, o4, o5, o6, o7);
  }

  lemma FirstOctetsOfNone(t: seq<bv8>, k: nat)
    ensures FirstOctets(t, k, 0) == 0
  {
    hide OctetAt;
  }

  /** Octets after the end of the message add nothing. */
  lemma FirstOctetsWhole(t: seq<bv8>, k: nat, i: nat)
    requires |t| <= 8 * k + i
    ensures FirstOctets(t, k, i) == Block(t, k)
  {
    hide Eight;
  }

  /** The mask of the n top bits of an octet. */
  function Mask8Bit(n: nat): (m: bv8)
    requires 1 <= n <= 7
  {
    (0xFF ^ ((1 << (8 - n)) - 1)) & 0xFF
  }

  lemma Mask8BitIs(n: nat)
    requires 1 <= n <= 7
    ensures Mask8Bit(n) == 0xFF << (8 - n)
  {
  }

  /** The octets of a trimmed message, before and at its end. */
  lemma TrimmedOctets(s: seq<bv8>, len: nat, k: nat)
    requires 1 <= len <= 8 * |s|
    ensures Octets(len) <= |s|
    ensures 8 * k + 8 <= len ==> OctetAt(Trimmed(s, len), k) == s[k]
    ensures 8 * k < len < 8 * k + 8 ==> OctetAt(Trimmed(s, len), k) == s[k] & Mask8Bit(len - 8 * k)
  {
    hide Mask8Bit;
    OctetsRoom(len, |s|);
    if 8 * k + 8 <= len {
      if k == Octets(len) - 1 {
        assert Spare(len) == 0;
        NothingCleared(s[k]);
      }
    } else if 8 * k < len {
      assert k == Octets(len) - 1 && Spare(len) == 8 - (len - 8 * k);
      Mask8BitIs(len - 8 * k);
    }
  }

  lemma BlockIs(t: seq<bv8>, i: nat, o0: bv8, o1: bv8, o2: bv8, o3: bv8, o4: bv8, o5: bv8, o6: bv8, o7: bv8)
    requires OctetAt(t, 8 * i) == o0 && OctetAt(t, 8 * i + 1) == o1 && OctetAt(t, 8 * i + 2) == o2
    requires OctetAt(t, 8 * i + 3) == o3 && OctetAt(t, 8 * i + 4) == o4 && OctetAt(t, 8 * i + 5) == o5
    requires OctetAt(t, 8 * i + 6) == o6 && OctetAt(t, 8 * i + 7) == o7
    ensures Block(t, i) == Eight(o0, o1, o2, o3, o4, o5, o6, o7)
  {
    hide Eight, OctetAt;
  }

  /** Reads the whole block i. */
  method WholeBlock(data: array<bv8>, i: nat, len: nat) returns (m: bv64)
    requires 1 <= len <= 8 * data.Length && 64 * i + 64 <= len
    ensures m == Block(Trimmed(data[..], len), i)
  {
    hide Eight, OctetAt, Trimmed, Block, Octets;
    ghost var t := Trimmed(data[..], len);
    TrimmedOctets(data[..], len, 8 * i);
    TrimmedOctets(data[..], len, 8 * i + 1);
    TrimmedOctets(data[..], len, 8 * i + 2);
    TrimmedOctets(data[..], len, 8 * i + 3);
    TrimmedOctets(data[..], len, 8 * i + 4);
    TrimmedOctets(data[..], len, 8 * i + 5);
    TrimmedOctets(data[..], len, 8 * i + 6);
    TrimmedOctets(data[..], len, 8 * i + 7);
    m := Eight(data[8 * i], data[8 * i + 1], data[8 * i + 2], data[8 * i + 3],
               data[8 * i + 4], data[8 * i + 5], data[8 * i + 6], data[8 * i + 7]);
    BlockIs(t, i, data[8 * i], data[8 * i + 1], data[8 * i + 2], data[8 * i + 3],
            data[8 * i + 4], data[8 * i + 5], data[8 * i + 6], data[8 * i + 7]);
  }

  /** Gathers the last block octet by octet, masking an octet that is only partly message. */
  method LastBlock(data: array<bv8>, k: nat, len: nat) returns (m: bv64)
    requires 1 <= len <= 8 * data.Length && 64 * k < len <= 64 * k + 64
    ensures m == Block(Trimmed(data[..], len), k)
  {
    hide Eight, OctetAt, Trimmed, Block, Octets, FirstOctets, Or, Placed, Mask8Bit;
    ghost var t := Trimmed(data[..], len);
    m := 0;
    FirstOctetsOfNone(t, k);
    var rem := len - 64 * k;
    var i := 0;
    while rem > 7
      invariant 0 <= i <= 8 && 0 <= rem && 8 * i + rem == len - 64 * k
      invariant m == FirstOctets(t, k, i)
    {
      TrimmedOctets(data[..], len, 8 * k + i);
      FirstOctetsStep(t, k, i);
      m := Or(m, Placed(data[8 * k + i], i));
      rem := rem - 8;
      i := i + 1;
    }
    if rem > 0 {
      TrimmedOctets(data[..], len, 8 * k + i);
      FirstOctetsStep(t, k, i);
      m := Or(m, Placed(data[8 * k + i] & Mask8Bit(rem), i));
      i := i + 1;
    }
    OctetsRoom(len, data.Length);
    TrimmedLength(data[..], len);
    OctetsOf(len, k, i, rem);
    FirstOctetsWhole(t, k, i);
  }

  lemma TrimmedLength(s: seq<bv8>, len: nat)
    requires 1 <= len <= 8 * |s|
    ensures |Trimmed(s, len)| == Octets(len)
  {
  }

  lemma OctetsOf(len: nat, k: nat, i: nat, rem: nat)
    requires rem < 8 && (if rem == 0 then len == 64 * k + 8 * i else i >= 1 && len == 64 * k + 8 * (i - 1) + rem)
    ensures Octets(len) == 8 * k + i
  {
  }

  lemma BlocksOf(length: nat)
    requires length >= 1
    ensures Blocks(length) == if length % 64 == 0 then length / 64 else length / 64 + 1
    ensures Blocks(length) >= 1 && 64 * (Blocks(length) - 1) < length <= 64 * Blocks(length)
  {
  }

  /** The initialisation vector of f9. */
  function MacIv(count: bv32, fresh_: bv32, direction: bv32): (iv: seq<bv32>)
    ensures |iv| == 4
  {
    [fresh_ ^ (direction << 15), count ^ (direction << 31), fresh_, count]
  }

  /** The five keystream words f9 uses. */
  function MacStream(key: seq<bv8>, count: bv32, fresh_: bv32, direction: bv32): (z: seq<bv32>)
    requires |key| == 16
    ensures |z| == 5
  {
    Keystream(Initialized(Eea1.KeyWords(key), MacIv(count, fresh_, direction)), 5)
  }

  method Stream(registers: GlobalRegisters, key: array<bv8>, count: bv32, fresh_: bv32, direction: bv32) returns (z: array<bv32>)
    requires key.Length == 16
    modifies registers
    ensures fresh(z) && z[..] == MacStream(key[..], count, fresh_, direction)
  {
    hide *;
    var k := Eea1.KeyF8(key);
    var iv := [fresh_ ^ (direction << 15), count ^ (direction << 31), fresh_, count];
    registers.Initialize(k, iv);
    z := new bv32[5];
    registers.GenerateKeystream(5, z);
    assert z[..5] == z[..];
    MacStreamIs(key[..], count, fresh_, direction);
  }

  lemma MacStreamIs(key: seq<bv8>, count: bv32, fresh_: bv32, direction: bv32)
    requires |key| == 16
    ensures MacStream(key, count, fresh_, direction)
            == Keystream(Initialized(Eea1.KeyWords(key), [fresh_ ^ (direction << 15), count ^ (direction << 31), fresh_, count]), 5)
  {
    hide Keystream, Initialized, Eea1.KeyWords;
  }

  /** The evaluation loop over all blocks, then the length and the multiplication by Q. */
  method Evaluate(data: array<bv8>, p: bv64, q: bv64, length: nat) returns (eval: bv64)
    requires 1 <= length <= 8 * data.Length && length < 0x8_0000_0000
    ensures eval == Evaluated(Trimmed(data[..], length), p, q, length)
  {
    hide *;
    ghost var t := Trimmed(data[..], length);
    BlocksOf(length);
    var d := if length % 64 == 0 then length / 64 + 1 else length / 64 + 2;
    eval := 0;
    PolynomialOfNothing(t, p, 0);
    var i := 0;
    while i < d - 2
      invariant 0 <= i <= d - 2
      invariant eval == Polynomial(t, p, i, i)
    {
      var m := WholeBlock(data, i, length);
      HornerStep(t, p, i);
      eval := G.Mul64(Xor64(eval, m), p, C);
      i := i + 1;
    }
    var last := LastBlock(data, d - 2, length);
    HornerStep(t, p, d - 2);
    eval := G.Mul64(Xor64(eval, last), p, C);
    EvaluatedDef(t, p, q, length);
    eval := Xor64(eval, length as bv64);
    eval := G.Mul64(eval, q, C);
  }

  lemma EvaluatedDef(t: seq<bv8>, p: bv64, q: bv64, len: nat)
    requires len < 0x1_0000_0000_0000_0000
    ensures Evaluated(t, p, q, len) == G.Product(Xor64(Polynomial(t, p, Blocks(len), Blocks(len)), len as bv64), q, C)
  {
    hide G.Product, Xor64, Polynomial, Blocks;
  }

  /** snow3g_f9: writes the code into the static buffer that it returns. */
  method Snow3gF9(registers: GlobalRegisters, key: array<bv8>, count: bv32, fresh_: bv32, direction: bv32,
                  data: array<bv8>, length: nat, macI: array<bv8>)
    requires key.Length == 16 && macI.Length == 4
    requires 1 <= length <= 8 * data.Length && length < 0x8_0000_0000
    modifies registers, macI
    ensures macI[..] == Mac(old(data[..]), MacStream(old(key[..]), count, fresh_, direction), length)
  {
    hide MacStream, Evaluated, Trimmed, Octet64, WordOctet, Xor8;
    var z := Stream(registers, key, count, fresh_, direction);
    var eval := Evaluate(data, Pair(z[0], z[1]), Pair(z[2], z[3]), length);
    var z5 := z[4];
    ghost var tag := Tag(eval, z5);
    assert tag == Mac(data[..], z[..], length);
    var i := 0;
    while i < 4
      invariant 0 <= i <= 4
      invariant forall j :: 0 <= j < i ==> macI[j] == tag[j]
    {
      macI[i] := Xor8(Octet64(eval, i), WordOctet(z5, i));
      i := i + 1;
    }
    assert macI[..] == tag;
  }
}
