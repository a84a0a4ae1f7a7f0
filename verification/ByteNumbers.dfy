/** Small numbers as bytes and back, kept apart from every other fact about bit vectors because
    a proof that mixes numbers and bit vectors is slow. Whoever needs the value of a byte calls
    these lemmas. */
module ByteNumbers {
  lemma RoundTrip(n: nat)
    requires n < 256
    ensures (n as bv8) as nat == n
  {
    assert n % 256 == n;
  }

  lemma NumberBack(x: bv8)
    ensures (x as nat) as bv8 == x
  {
  }

  lemma ByteOrder(x: bv8, y: bv8)
    ensures x as nat <= y as nat <==> x <= y
    ensures x as nat < y as nat <==> x < y
  {
  }

  lemma Follows(x: bv8, y: bv8)
    requires y as nat == x as nat + 1
    ensures y == x + 1
  {
  }

  lemma Next(n: nat)
    requires n < 255
    ensures (n + 1) as bv8 == (n as bv8) + 1
  {
    hide *;
    RoundTrip(n);
    RoundTrip(n + 1);
    Follows(n as bv8, (n + 1) as bv8);
  }

  /** The order of a small number and a byte. */
  lemma Below(n: nat, k: nat, y: bv8)
    requires n < 256 && y as nat == k
    ensures n < k <==> n as bv8 < y
    ensures n <= k <==> n as bv8 <= y
    ensures k <= n <==> y <= n as bv8
  {
    RoundTrip(n);
    ByteOrder(n as bv8, y);
    ByteOrder(y, n as bv8);
  }
}
