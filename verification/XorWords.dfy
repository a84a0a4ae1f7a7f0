/** Exclusive or on the words of the ciphers, as a function for each width, and its laws: sums in
    another order are the same sum, and a word added twice is gone. The proofs elsewhere hide the
    functions and use the laws alone. */
module XorWords {
  function Xor8(a: bv8, b: bv8): bv8 {
    a ^ b
  }

  function Xor32(a: bv32, b: bv32): bv32 {
    a ^ b
  }

  function Xor64(a: bv64, b: bv64): bv64 {
    a ^ b
  }

  lemma Xor8Unit(a: bv8)
    ensures Xor8(a, 0) == a && Xor8(0, a) == a && Xor8(a, a) == 0
  {
  }

  lemma Xor32Unit(a: bv32)
    ensures Xor32(a, 0) == a && Xor32(0, a) == a && Xor32(a, a) == 0
  {
  }

  lemma Xor64Unit(a: bv64)
    ensures Xor64(a, 0) == a && Xor64(0, a) == a && Xor64(a, a) == 0
  {
  }

  lemma Xor8SwapsMiddle(a: bv8, b: bv8, c: bv8, d: bv8)
    ensures Xor8(Xor8(a, b), Xor8(c, d)) == Xor8(Xor8(a, c), Xor8(b, d))
  {
    assert Xor8(a ^ b, c ^ d) == Xor8(a ^ c, b ^ d);
  }

  lemma Xor32SwapsMiddle(a: bv32, b: bv32, c: bv32, d: bv32)
    ensures Xor32(Xor32(a, b), Xor32(c, d)) == Xor32(Xor32(a, c), Xor32(b, d))
  {
    assert Xor32(a ^ b, c ^ d) == Xor32(a ^ c, b ^ d);
  }

  lemma Xor64SwapsMiddle(a: bv64, b: bv64, c: bv64, d: bv64)
    ensures Xor64(Xor64(a, b), Xor64(c, d)) == Xor64(Xor64(a, c), Xor64(b, d))
  {
    assert Xor64(a ^ b, c ^ d) == Xor64(a ^ c, b ^ d);
  }

  lemma Xor32Associates(a: bv32, b: bv32, c: bv32)
    ensures Xor32(Xor32(a, b), c) == Xor32(a, Xor32(b, c))
  {
    assert Xor32(a ^ b, c) == Xor32(a, b ^ c);
  }

  lemma Xor8Twice(a: bv8, b: bv8)
    ensures Xor8(Xor8(a, b), b) == a
  {
    assert Xor8(a ^ b, b) == a;
  }

  lemma Xor32Twice(a: bv32, b: bv32)
    ensures Xor32(Xor32(a, b), b) == a && Xor32(b, Xor32(b, a)) == a
  {
    assert Xor32(a ^ b, b) == a && Xor32(b, b ^ a) == a;
  }

  lemma Xor8Cancels(a: bv8, b: bv8, c: bv8)
    ensures Xor8(a, c) == Xor8(b, c) ==> a == b
  {
    Xor8Twice(a, c);
    Xor8Twice(b, c);
  }

  lemma Xor32Cancels(a: bv32, b: bv32, c: bv32)
    ensures Xor32(a, c) == Xor32(b, c) ==> a == b
    ensures Xor32(c, a) == Xor32(c, b) ==> a == b
  {
    hide *;
    Xor32Twice(a, c);
    Xor32Twice(b, c);
  }

  /** A middle term that occurs twice drops out. */
  lemma Xor8Regroup(a: bv8, b: bv8, c: bv8)
    ensures Xor8(Xor8(a, b), Xor8(b, c)) == Xor8(a, c)
  {
    assert Xor8(a ^ b, b ^ c) == Xor8(a, c);
  }
}
