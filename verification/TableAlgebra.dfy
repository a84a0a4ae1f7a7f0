/** What the byte tables compute: the Rijndael S-box is an affine map of the inverse in its field,
    the second S-box of SNOW 3G a polynomial in its own. The tables are evaluated once, eight
    entries to a lemma. */
module TableAlgebra {
  import opened ByteTables
  import GF = GfBytes
  import opened OctetBits
  import opened XorWords

  /** Multiplication by x moves every coefficient up and adds the reduction when the top one
      leaves. */
  lemma MulXBits(v: bv8, c: bv8, r: nat)
    requires r < 8
    ensures BitOf(GF.MulX(v, c), r) == ((r < 7 && BitOf(v, r + 1)) != (BitOf(v, 0) && BitOf(c, r)))
  {
    hide *;
    GF.MulXIs(v, c);
    BitOfXor(GF.Doubled(v), if GF.Top(v) then c else 0, r);
    DoubledBit(v, r);
    ZeroBit(r);
  }

  lemma DoubledBit(v: bv8, r: nat)
    requires r < 8
    ensures BitOf(GF.Doubled(v), r) == (r < 7 && BitOf(v, r + 1)) && GF.Top(v) == BitOf(v, 0)
  {
  }

  lemma ZeroBit(r: nat)
    requires r < 8
    ensures !BitOf(0, r)
  {
  }

  /** The product modulo x^8 + c: the sum of a times x^i over the set bits i of b. */
  function Times(a: bv8, b: bv8, c: bv8): bv8 {
    var a1 := GF.MulX(a, c);
    var a2 := GF.MulX(a1, c);
    var a3 := GF.MulX(a2, c);
    var a4 := GF.MulX(a3, c);
    var a5 := GF.MulX(a4, c);
    var a6 := GF.MulX(a5, c);
    var a7 := GF.MulX(a6, c);
    GF.Linear(b, a, a1, a2, a3, a4, a5, a6, a7)
  }

  // --- the Rijndael table ---

  function Turned(x: bv8, n: bv8): bv8
    requires n < 8
  {
    (x << n) | (x >> (8 - n))
  }

  /** The affine map of section 5.1.1 of FIPS 197. */
  function Affine(y: bv8): bv8 {
    y ^ Turned(y, 1) ^ Turned(y, 2) ^ Turned(y, 3) ^ Turned(y, 4) ^ 0x63
  }

  function Unaffine(z: bv8): bv8 {
    Turned(z, 1) ^ Turned(z, 3) ^ Turned(z, 6) ^ 0x05
  }

  lemma AffineBack(z: bv8)
    ensures Affine(Unaffine(z)) == z
  {
  }

  lemma InverseLow(x: bv8)
    requires x & 0x80 == 0
    ensures if x == 0 then Unaffine(SBox(x)) == 0 else Times(x, Unaffine(SBox(x)), 0x1b) == 1
  {
  }

  lemma InverseHigh(x: bv8)
    requires x & 0x80 != 0
    ensures x != 0 && Times(x, Unaffine(SBox(x)), 0x1b) == 1
  {
  }

  /** Every entry of the table is the affine image of the inverse of its index, zero counting as
      its own inverse. */
  lemma SBoxIsAffineInverse(x: bv8) returns (y: bv8)
    ensures if x == 0 then y == 0 else Times(x, y, 0x1b) == 1
    ensures SBox(x) == Affine(y)
  {
    hide *;
    y := Unaffine(SBox(x));
    AffineBack(SBox(x));
    if x & 0x80 == 0 {
      InverseLow(x);
    } else {
      InverseHigh(x);
    }
  }

  // --- the table of S2 ---

  /** x + x^9 + x^13 + x^15 + x^33 + x^41 + x^45 + x^47 + x^49 + 0x25 modulo x^8 + 0x69, the
      polynomial by which the table is defined. */
  function Dickson(x: bv8): bv8 {
    var x2 := Times(x, x, 0x69);
    var x4 := Times(x2, x2, 0x69);
    var x8 := Times(x4, x4, 0x69);
    var x16 := Times(x8, x8, 0x69);
    var x9 := Times(x8, x, 0x69);
    var x13 := Times(x9, x4, 0x69);
    var x15 := Times(x13, x2, 0x69);
    var x33 := Times(Times(x16, x16, 0x69), x, 0x69);
    var x41 := Times(x33, x8, 0x69);
    var x45 := Times(x41, x4, 0x69);
    var x47 := Times(x45, x2, 0x69);
    var x49 := Times(x33, x16, 0x69);
    x ^ x9 ^ x13 ^ x15 ^ x33 ^ x41 ^ x45 ^ x47 ^ x49 ^ 0x25
  }

  predicate Fits(x: bv8) {
    SQBox(x) == Dickson(x)
  }

  lemma Fits00()
    ensures Fits(0x00) && Fits(0x01) && Fits(0x02) && Fits(0x03)
    ensures Fits(0x04) && Fits(0x05) && Fits(0x06) && Fits(0x07)
  {
  }

  lemma Fits08()
    ensures Fits(0x08) && Fits(0x09) && Fits(0x0a) && Fits(0x0b)
    ensures Fits(0x0c) && Fits(0x0d) && Fits(0x0e) && Fits(0x0f)
  {
  }

  lemma Fits10()
    ensures Fits(0x10) && Fits(0x11) && Fits(0x12) && Fits(0x13)
    ensures Fits(0x14) && Fits(0x15) && Fits(0x16) && Fits(0x17)
  {
  }

  lemma Fits18()
    ensures Fits(0x18) && Fits(0x19) && Fits(0x1a) && Fits(0x1b)
    ensures Fits(0x1c) && Fits(0x1d) && Fits(0x1e) && Fits(0x1f)
  {
  }

  lemma Fits20()
    ensures Fits(0x20) && Fits(0x21) && Fits(0x22) && Fits(0x23)
    ensures Fits(0x24) && Fits(0x25) && Fits(0x26) && Fits(0x27)
  {
  }

  lemma Fits28()
    ensures Fits(0x28) && Fits(0x29) && Fits(0x2a) && Fits(0x2b)
    ensures Fits(0x2c) && Fits(0x2d) && Fits(0x2e) && Fits(0x2f)
  {
  }

  lemma Fits30()
    ensures Fits(0x30) && Fits(0x31) && Fits(0x32) && Fits(0x33)
    ensures Fits(0x34) && Fits(0x35) && Fits(0x36) && Fits(0x37)
  {
  }

  lemma Fits38()
    ensures Fits(0x38) && Fits(0x39) && Fits(0x3a) && Fits(0x3b)
    ensures Fits(0x3c) && Fits(0x3d) && Fits(0x3e) && Fits(0x3f)
  {
  }

  lemma Fits40()
    ensures Fits(0x40) && Fits(0x41) && Fits(0x42) && Fits(0x43)
    ensures Fits(0x44) && Fits(0x45) && Fits(0x46) && Fits(0x47)
  {
  }

  lemma Fits48()
    ensures Fits(0x48) && Fits(0x49) && Fits(0x4a) && Fits(0x4b)
    ensures Fits(0x4c) && Fits(0x4d) && Fits(0x4e) && Fits(0x4f)
  {
  }

  lemma Fits50()
    ensures Fits(0x50) && Fits(0x51) && Fits(0x52) && Fits(0x53)
    ensures Fits(0x54) && Fits(0x55) && Fits(0x56) && Fits(0x57)
  {
  }

  lemma Fits58()
    ensures Fits(0x58) && Fits(0x59) && Fits(0x5a) && Fits(0x5b)
    ensures Fits(0x5c) && Fits(0x5d) && Fits(0x5e) && Fits(0x5f)
  {
  }

  lemma Fits60()
    ensures Fits(0x60) && Fits(0x61) && Fits(0x62) && Fits(0x63)
    ensures Fits(0x64) && Fits(0x65) && Fits(0x66) && Fits(0x67)
  {
  }

  lemma Fits68()
    ensures Fits(0x68) && Fits(0x69) && Fits(0x6a) && Fits(0x6b)
    ensures Fits(0x6c) && Fits(0x6d) && Fits(0x6e) && Fits(0x6f)
  {
  }

  lemma Fits70()
    ensures Fits(0x70) && Fits(0x71) && Fits(0x72) && Fits(0x73)
    ensures Fits(0x74) && Fits(0x75) && Fits(0x76) && Fits(0x77)
  {
  }

  lemma Fits78()
    ensures Fits(0x78) && Fits(0x79) && Fits(0x7a) && Fits(0x7b)
    ensures Fits(0x7c) && Fits(0x7d) && Fits(0x7e) && Fits(0x7f)
  {
  }

  lemma Fits80()
    ensures Fits(0x80) && Fits(0x81) && Fits(0x82) && Fits(0x83)
    ensures Fits(0x84) && Fits(0x85) && Fits(0x86) && Fits(0x87)
  {
  }

  lemma Fits88()
    ensures Fits(0x88) && Fits(0x89) && Fits(0x8a) && Fits(0x8b)
    ensures Fits(0x8c) && Fits(0x8d) && Fits(0x8e) && Fits(0x8f)
  {
  }

  lemma Fits90()
    ensures Fits(0x90) && Fits(0x91) && Fits(0x92) && Fits(0x93)
    ensures Fits(0x94) && Fits(0x95) && Fits(0x96) && Fits(0x97)
  {
  }

  lemma Fits98()
    ensures Fits(0x98) && Fits(0x99) && Fits(0x9a) && Fits(0x9b)
    ensures Fits(0x9c) && Fits(0x9d) && Fits(0x9e) && Fits(0x9f)
  {
  }

  lemma FitsA0()
    ensures Fits(0xa0) && Fits(0xa1) && Fits(0xa2) && Fits(0xa3)
    ensures Fits(0xa4) && Fits(0xa5) && Fits(0xa6) && Fits(0xa7)
  {
  }

  lemma FitsA8()
    ensures Fits(0xa8) && Fits(0xa9) && Fits(0xaa) && Fits(0xab)
    ensures Fits(0xac) && Fits(0xad) && Fits(0xae) && Fits(0xaf)
  {
  }

  lemma FitsB0()
    ensures Fits(0xb0) && Fits(0xb1) && Fits(0xb2) && Fits(0xb3)
    ensures Fits(0xb4) && Fits(0xb5) && Fits(0xb6) && Fits(0xb7)
  {
  }

  lemma FitsB8()
    ensures Fits(0xb8) && Fits(0xb9) && Fits(0xba) && Fits(0xbb)
    ensures Fits(0xbc) && Fits(0xbd) && Fits(0xbe) && Fits(0xbf)
  {
  }

  lemma FitsC0()
    ensures Fits(0xc0) && Fits(0xc1) && Fits(0xc2) && Fits(0xc3)
    ensures Fits(0xc4) && Fits(0xc5) && Fits(0xc6) && Fits(0xc7)
  {
  }

  lemma FitsC8()
    ensures Fits(0xc8) && Fits(0xc9) && Fits(0xca) && Fits(0xcb)
    ensures Fits(0xcc) && Fits(0xcd) && Fits(0xce) && Fits(0xcf)
  {
  }

  lemma FitsD0()
    ensures Fits(0xd0) && Fits(0xd1) && Fits(0xd2) && Fits(0xd3)
    ensures Fits(0xd4) && Fits(0xd5) && Fits(0xd6) && Fits(0xd7)
  {
  }

  lemma FitsD8()
    ensures Fits(0xd8) && Fits(0xd9) && Fits(0xda) && Fits(0xdb)
    ensures Fits(0xdc) && Fits(0xdd) && Fits(0xde) && Fits(0xdf)
  {
  }

  lemma FitsE0()
    ensures Fits(0xe0) && Fits(0xe1) && Fits(0xe2) && Fits(0xe3)
    ensures Fits(0xe4) && Fits(0xe5) && Fits(0xe6) && Fits(0xe7)
  {
  }

  lemma FitsE8()
    ensures Fits(0xe8) && Fits(0xe9) && Fits(0xea) && Fits(0xeb)
    ensures Fits(0xec) && Fits(0xed) && Fits(0xee) && Fits(0xef)
  {
  }

  lemma FitsF0()
    ensures Fits(0xf0) && Fits(0xf1) && Fits(0xf2) && Fits(0xf3)
    ensures Fits(0xf4) && Fits(0xf5) && Fits(0xf6) && Fits(0xf7)
  {
  }

  lemma FitsF8()
    ensures Fits(0xf8) && Fits(0xf9) && Fits(0xfa) && Fits(0xfb)
    ensures Fits(0xfc) && Fits(0xfd) && Fits(0xfe) && Fits(0xff)
  {
  }

  lemma Quarter00(x: bv8)
    requires x & 0xC0 == 0x00
    ensures Fits(x)
  {
    hide *;
    LowPart(x);
    if x & 0x20 == 0 {
      if x & 0x10 == 0 {
        if x & 0x08 == 0 {
          Fits00();
        } else {
          Fits08();
        }
      } else {
        if x & 0x08 == 0 {
          Fits10();
        } else {
          Fits18();
        }
      }
    } else {
      if x & 0x10 == 0 {
        if x & 0x08 == 0 {
          Fits20();
        } else {
          Fits28();
        }
      } else {
        if x & 0x08 == 0 {
          Fits30();
        } else {
          Fits38();
        }
      }
    }
  }

  lemma Quarter40(x: bv8)
    requires x & 0xC0 == 0x40
    ensures Fits(x)
  {
    hide *;
    LowPart(x);
    if x & 0x20 == 0 {
      if x & 0x10 == 0 {
        if x & 0x08 == 0 {
          Fits40();
        } else {
          Fits48();
        }
      } else {
        if x & 0x08 == 0 {
          Fits50();
        } else {
          Fits58();
        }
      }
    } else {
      if x & 0x10 == 0 {
        if x & 0x08 == 0 {
          Fits60();
        } else {
          Fits68();
        }
      } else {
        if x & 0x08 == 0 {
          Fits70();
        } else {
          Fits78();
        }
      }
    }
  }

  lemma Quarter80(x: bv8)
    requires x & 0xC0 == 0x80
    ensures Fits(x)
  {
    hide *;
    LowPart(x);
    if x & 0x20 == 0 {
      if x & 0x10 == 0 {
        if x & 0x08 == 0 {
          Fits80();
        } else {
          Fits88();
        }
      } else {
        if x & 0x08 == 0 {
          Fits90();
        } else {
          Fits98();
        }
      }
    } else {
      if x & 0x10 == 0 {
        if x & 0x08 == 0 {
          FitsA0();
        } else {
          FitsA8();
        }
      } else {
        if x & 0x08 == 0 {
          FitsB0();
        } else {
          FitsB8();
        }
      }
    }
  }

  lemma QuarterC0(x: bv8)
    requires x & 0xC0 == 0xc0
    ensures Fits(x)
  {
    hide *;
    LowPart(x);
    if x & 0x20 == 0 {
      if x & 0x10 == 0 {
        if x & 0x08 == 0 {
          FitsC0();
        } else {
          FitsC8();
        }
      } else {
        if x & 0x08 == 0 {
          FitsD0();
        } else {
          FitsD8();
        }
      }
    } else {
      if x & 0x10 == 0 {
        if x & 0x08 == 0 {
          FitsE0();
        } else {
          FitsE8();
        }
      } else {
        if x & 0x08 == 0 {
          FitsF0();
        } else {
          FitsF8();
        }
      }
    }
  }

  /** A byte is one of the eight with its five upper bits. */
  lemma LowPart(x: bv8)
    ensures var k := x & 0xF8; x == k || x == k | 1 || x == k | 2 || x == k | 3 || x == k | 4 || x == k | 5 || x == k | 6 || x == k | 7
  {
  }

  /** Every entry of the table is that polynomial at its index. */
  lemma SQBoxIsDickson(x: bv8)
    ensures SQBox(x) == Dickson(x)
  {
    hide SQBox, Dickson;
    if x & 0xC0 == 0x00 {
      Quarter00(x);
    } else if x & 0xC0 == 0x40 {
      Quarter40(x);
    } else if x & 0xC0 == 0x80 {
      Quarter80(x);
    } else {
      QuarterC0(x);
    }
  }
}
