/** Buffer status reports: the quantisation of a buffer size to a table index and what a
    receiver of the short report makes of it (section 6.1.3.1 of TS 36.321). */
module Bsr {
  import opened Bits

  /** The buffer size levels. */
  function BTable(i: nat): nat
    requires i < 64
  {
    match i
    case 0 => 0 case 1 => 1 case 2 => 10 case 3 => 12
    case 4 => 14 case 5 => 17 case 6 => 19 case 7 => 22
    case 8 => 26 case 9 => 31 case 10 => 36 case 11 => 42
    case 12 => 49 case 13 => 57 case 14 => 67 case 15 => 78
    case 16 => 91 case 17 => 107 case 18 => 125 case 19 => 146
    case 20 => 171 case 21 => 200 case 22 => 234 case 23 => 274
    case 24 => 321 case 25 => 376 case 26 => 440 case 27 => 515
    case 28 => 603 case 29 => 706 case 30 => 826 case 31 => 967
    case 32 => 1132 case 33 => 1326 case 34 => 1552 case 35 => 1817
    case 36 => 2127 case 37 => 2490 case 38 => 2915 case 39 => 3413
    case 40 => 3995 case 41 => 4667 case 42 => 5476 case 43 => 6411
    case 44 => 7505 case 45 => 8787 case 46 => 10287 case 47 => 12043
    case 48 => 14099 case 49 => 16507 case 50 => 19325 case 51 => 22624
    case 52 => 26487 case 53 => 31009 case 54 => 36304 case 55 => 42502
    case 56 => 49759 case 57 => 58255 case 58 => 68201 case 59 => 79846
    case 60 => 93479 case 61 => 109439 case 62 => 128125 case _ => 150000
  }

  lemma TableRises(i: nat)
    requires i < 63
    ensures BTable(i) < BTable(i + 1)
    ensures BTable(0) == 0 && BTable(1) == 1 && BTable(62) == 128125 && BTable(63) == 150000
  {
  }

  lemma {:induction false} TableSorted(i: nat, j: nat)
    requires i < j < 64
    ensures BTable(i) < BTable(j)
    decreases j - i
  {
    hide BTable;
    TableRises(i);
    if i + 1 < j {
      TableSorted(i + 1, j);
    }
  }

  // --- where the levels come from ---

  const UNIT: nat := 100000000
  const RATIO: nat := 117074014

  /** 10 after k steps of the ratio 1.17074014, in units of 10^-8. */
  function Grown(k: nat): nat {
    if k == 0 then 10 * UNIT else Grown(k - 1) * RATIO / UNIT
  }

  /** The least whole number that is not below. */
  function Above(x: nat): nat {
    (x + (UNIT - 1)) / UNIT
  }

  lemma GrownStart()
    ensures Grown(0) == 1000000000
  {
  }

  lemma Next(k: nat, x: nat, y: nat)
    requires Grown(k) == x && y * 100000000 <= x * 117074014 < y * 100000000 + 100000000
    ensures Grown(k + 1) == y
  {
    DivUnique(x * RATIO, UNIT, y, x * RATIO - y * UNIT);
  }

  lemma Steps0To8()
    ensures Grown(0) == 1000000000 && Grown(1) == 1170740140 && Grown(2) == 1370632475
    ensures Grown(3) == 1604654455 && Grown(4) == 1878633381 && Grown(5) == 2199391507
    ensures Grown(6) == 2574915920 && Grown(7) == 3014557424 && Grown(8) == 3529263380
  {
    hide Grown;
    GrownStart();
    Next(0, 1000000000, 1170740140);
    Next(1, 1170740140, 1370632475);
    Next(2, 1370632475, 1604654455);
    Next(3, 1604654455, 1878633381);
    Next(4, 1878633381, 2199391507);
    Next(5, 2199391507, 2574915920);
    Next(6, 2574915920, 3014557424);
    Next(7, 3014557424, 3529263380);
  }

  lemma Steps8To16()
    ensures Grown(8) == 3529263380 && Grown(9) == 4131850303 && Grown(10) == 4837323002
    ensures Grown(11) == 5663248208 && Grown(12) == 6630191999 && Grown(13) == 7762231909
    ensures Grown(14) == 9087556471 && Grown(15) == 10639167135 && Grown(16) == 12455700021
  {
    hide Grown;
    Steps0To8();
    Next(8, 3529263380, 4131850303);
    Next(9, 4131850303, 4837323002);
    Next(10, 4837323002, 5663248208);
    Next(11, 5663248208, 6630191999);
    Next(12, 6630191999, 7762231909);
    Next(13, 7762231909, 9087556471);
    Next(14, 9087556471, 10639167135);
    Next(15, 10639167135, 12455700021);
  }

  lemma Steps16To24()
    ensures Grown(16) == 12455700021 && Grown(17) == 14582387986 && Grown(18) == 17072186952
    ensures Grown(19) == 19987094542 && Grown(20) == 23399693862 && Grown(21) == 27394960867
    ensures Grown(22) == 32072380320 && Grown(23) == 37548423025 && Grown(24) == 43959446029
  {
    hide Grown;
    Steps8To16();
    Next(16, 12455700021, 14582387986);
    Next(17, 14582387986, 17072186952);
    Next(18, 17072186952, 19987094542);
    Next(19, 19987094542, 23399693862);
    Next(20, 23399693862, 27394960867);
    Next(21, 27394960867, 32072380320);
    Next(22, 32072380320, 37548423025);
    Next(23, 37548423025, 43959446029);
  }

  lemma Steps24To32()
    ensures Grown(24) == 43959446029 && Grown(25) == 51465087998 && Grown(26) == 60252244327
    ensures Grown(27) == 70539720958 && Grown(28) == 82583682789 && Grown(29) == 96684032350
    ensures Grown(30) == 113191877569 && Grown(31) == 132518274591 && Grown(32) == 155144463347
  {
    hide Grown;
    Steps16To24();
    Next(24, 43959446029, 51465087998);
    Next(25, 51465087998, 60252244327);
    Next(26, 60252244327, 70539720958);
    Next(27, 70539720958, 82583682789);
    Next(28, 82583682789, 96684032350);
    Next(29, 96684032350, 113191877569);
    Next(30, 113191877569, 132518274591);
    Next(31, 132518274591, 155144463347);
  }

  lemma Steps32To40()
    ensures Grown(32) == 155144463347 && Grown(33) == 181633850739 && Grown(34) == 212646039842
    ensures Grown(35) == 248953254455 && Grown(36) == 291459567974 && Grown(37) == 341223415414
    ensures Grown(38) == 399483949133 && Grown(39) == 467691894535 && Grown(40) == 547545674084
  {
    hide Grown;
    Steps24To32();
    Next(32, 155144463347, 181633850739);
    Next(33, 181633850739, 212646039842);
    Next(34, 212646039842, 248953254455);
    Next(35, 248953254455, 291459567974);
    Next(36, 291459567974, 341223415414);
    Next(37, 341223415414, 399483949133);
    Next(38, 399483949133, 467691894535);
    Next(39, 467691894535, 547545674084);
  }

  lemma Steps40To48()
    ensures Grown(40) == 547545674084 && Grown(41) == 641033699133 && Grown(42) == 750483882667
    ensures Grown(43) == 878621605861 && Grown(44) == 1028637581852 && Grown(45) == 1204267306586
    ensures Grown(46) == 1409884075109 && Grown(47) == 1650607879476 && Grown(48) == 1932432899902
  {
    hide Grown;
    Steps32To40();
    Next(40, 547545674084, 641033699133);
    Next(41, 641033699133, 750483882667);
    Next(42, 750483882667, 878621605861);
    Next(43, 878621605861, 1028637581852);
    Next(44, 1028637581852, 1204267306586);
    Next(45, 1204267306586, 1409884075109);
    Next(46, 1409884075109, 1650607879476);
    Next(47, 1650607879476, 1932432899902);
  }

  lemma Steps48To56()
    ensures Grown(48) == 1932432899902 && Grown(49) == 2262376763771 && Grown(50) == 2648655289150
    ensures Grown(51) == 3100887064031 && Grown(52) == 3630332955467 && Grown(53) == 4250176512530
    ensures Grown(54) == 4975852245304 && Grown(55) == 5825429954286 && Grown(56) == 6820064680240
  {
    hide Grown;
    Steps40To48();
    Next(48, 1932432899902, 2262376763771);
    Next(49, 2262376763771, 2648655289150);
    Next(50, 2648655289150, 3100887064031);
    Next(51, 3100887064031, 3630332955467);
    Next(52, 3630332955467, 4250176512530);
    Next(53, 4250176512530, 4975852245304);
    Next(54, 4975852245304, 5825429954286);
    Next(55, 5825429954286, 6820064680240);
  }

  lemma Steps56To61()
    ensures Grown(56) == 6820064680240 && Grown(57) == 7984523478553 && Grown(58) == 9347802135114
    ensures Grown(59) == 10943847180355 && Grown(60) == 12812401180067 && Grown(61) == 14999992351287
  {
    hide Grown;
    Steps48To56();
    Next(56, 6820064680240, 7984523478553);
    Next(57, 7984523478553, 9347802135114);
    Next(58, 9347802135114, 10943847180355);
    Next(59, 10943847180355, 12812401180067);
    Next(60, 12812401180067, 14999992351287);
  }

  /** Sixty-one steps of one ratio lead from 10 to 150000, and every level but one is the least
      number not below its step: entry 41 is 4667, where the rule gives 4677. */
  lemma TableGeometric(i: nat)
    requires 2 <= i < 64
    ensures BTable(i) == Above(Grown(i - 2)) <==> i != 41
    ensures BTable(41) == 4667 && Above(Grown(39)) == 4677
  {
    hide Grown;
    Steps32To40();
    if i <= 10 { Steps0To8(); } else if i <= 18 { Steps8To16(); } else if i <= 26 { Steps16To24(); } else if i <= 34 { Steps24To32(); } else if i <= 42 { Steps32To40(); } else if i <= 50 { Steps40To48(); } else if i <= 58 { Steps48To56(); } else { Steps56To61(); }
  }

  /** buff_size_table: the index reported for a buffer size. Sizes of a level or more, and less
      than the next level, share an index; sizes above the top level have an index of their own. */
  method BuffSizeTable(bufferSize: nat) returns (k: byte)
    ensures k == Index(bufferSize)
  {
    if bufferSize == 0 {
      IndexIs(0, 0);
      return 0;
    } else if bufferSize > 150000 {
      IndexIs(bufferSize, 63);
      return 63;
    } else {
      hide BTable;
      TableRises(0);
      var i := 0;
      while i < 61
        invariant 0 <= i <= 61
        invariant BTable(i + 1) <= bufferSize
      {
        if bufferSize < BTable(i + 2) {
          IndexIs(bufferSize, 1 + i);
          return 1 + i;
        }
        i := i + 1;
      }
      IndexIs(bufferSize, 62);
      return 62;
    }
  }

  /** Whether an index is right for a buffer size. */
  predicate Brackets(s: nat, k: nat) {
    k < 64 && if s == 0 then k == 0 else if s > 150000 then k == 63
              else 1 <= k <= 62 && BTable(k) <= s && (k < 62 ==> s < BTable(k + 1))
  }

  lemma BracketsUnique(s: nat, k: nat, l: nat)
    requires Brackets(s, k) && Brackets(s, l)
    ensures k == l
  {
    hide BTable;
    if k < l {
      if k + 1 < l {
        TableSorted(k + 1, l);
      }
    } else if l < k {
      if l + 1 < k {
        TableSorted(l + 1, k);
      }
    }
  }

  lemma {:induction false} BracketsExists(s: nat, k: nat)
    requires 1 <= k <= 62 && 1 <= s <= 150000 && BTable(k) <= s
    ensures exists l :: Brackets(s, l)
    decreases 62 - k
  {
    hide BTable;
    if k < 62 && BTable(k + 1) <= s {
      BracketsExists(s, k + 1);
    } else {
      assert Brackets(s, k);
    }
  }

  /** The index of a buffer size. */
  ghost function Index(s: nat): (k: nat)
    ensures Brackets(s, k)
  {
    if s == 0 then 0 else if s > 150000 then 63
    else
      TableRises(0);
      BracketsExists(s, 1);
      var k: nat :| Brackets(s, k);
      k
  }

  lemma IndexIs(s: nat, k: nat)
    requires Brackets(s, k)
    ensures Index(s) == k
  {
    hide BTable, Index;
    BracketsUnique(s, k, Index(s));
  }

  /** Larger buffers never get smaller indices. */
  lemma IndexMonotone(s: nat, t: nat)
    requires s <= t
    ensures Index(s) <= Index(t)
  {
    hide BTable, Index;
    var k, l := Index(s), Index(t);
    if l < k {
      TableRises(0);
      if 1 <= l && l + 1 < k < 63 {
        TableSorted(l + 1, k);
      }
    }
  }

  /** What get_bsr reports for an index. */
  function Decoded(k: nat): nat
    requires k < 64
  {
    if k == 0 then 0 else if k < 63 then BTable(1 + k) else BTable(63)
  }

  /** A reported size is the least table level above the true size while there is one, so it
      never falls short; from the top level on it stays there. */
  lemma ReportNeverShort(s: nat)
    ensures s == 0 ==> Decoded(Index(s)) == 0
    ensures 0 < s < 150000 ==> Decoded(Index(s)) > s && forall j :: 0 <= j < 64 && BTable(j) > s ==> BTable(j) >= Decoded(Index(s))
    ensures s >= 150000 ==> Decoded(Index(s)) == 150000
    ensures s <= 150000 <==> Decoded(Index(s)) >= s
  {
    hide BTable, Index;
    var k := Index(s);
    TableRises(0);
    if s == 150000 && k < 61 {
      TableSorted(k + 1, 62);
    }
    if 0 < s < 150000 {
      forall j | 0 <= j < 64 && BTable(j) > s
        ensures BTable(j) >= Decoded(k)
      {
        if j <= k {
          if j < k {
            TableSorted(j, k);
          }
        } else if k + 1 < j {
          TableSorted(k + 1, j);
        }
      }
    }
  }

  // --- the short report ---

  /** The last logical channel group with data, or 0. */
  function LastGroup(sizes: seq<nat>): (g: nat)
    requires |sizes| == 4
    ensures g < 4 && (sizes[g] > 0 || (g == 0 && forall i :: 0 <= i < 4 ==> sizes[i] == 0))
    ensures forall i :: g < i < 4 ==> sizes[i] == 0
  {
    if sizes[3] > 0 then 3 else if sizes[2] > 0 then 2 else if sizes[1] > 0 then 1 else 0
  }

  /** set_bsr in the short format: group and index in one byte. */
  method ShortBsr(sizes: seq<nat>) returns (b: byte)
    requires |sizes| == 4
    ensures b == LastGroup(sizes) * 64 + Index(sizes[LastGroup(sizes)])
  {
    var nonzeroLcg := 0;
    var i := 0;
    while i < 4
      invariant 0 <= i <= 4 && 0 <= nonzeroLcg < 4
      invariant nonzeroLcg == 0 || sizes[nonzeroLcg] > 0
      invariant forall j :: nonzeroLcg < j < i ==> sizes[j] == 0
      invariant nonzeroLcg < i || nonzeroLcg == 0
    {
      if sizes[i] > 0 {
        nonzeroLcg := i;
      }
      i := i + 1;
    }
    var k := BuffSizeTable(sizes[nonzeroLcg]);
    b := nonzeroLcg * 64 + k;
  }

  /** get_bsr on a short report, into an array that held zeros. */
  method GetShortBsr(b: byte, sizes: array<nat>) returns (lcg: nat)
    requires sizes.Length == 4 && forall i :: 0 <= i < 4 ==> sizes[i] == 0
    modifies sizes
    ensures lcg == b / 64
    ensures forall i :: 0 <= i < 4 ==> sizes[i] == if i == b / 64 then Decoded(b % 64) else 0
  {
    hide BTable;
    lcg := b / 64;
    sizes[lcg % 4] := b % 64;
    var i := 0;
    while i < 4
      invariant 0 <= i <= 4
      invariant forall j :: 0 <= j < i ==> sizes[j] == if j == b / 64 then Decoded(b % 64) else 0
      invariant forall j :: i <= j < 4 ==> sizes[j] == if j == b / 64 then b % 64 else 0
    {
      if sizes[i] > 0 {
        if sizes[i] < 63 {
          sizes[i] := BTable(1 + sizes[i]);
        } else {
          sizes[i] := BTable(63);
        }
      }
      i := i + 1;
    }
  }

  /** The receiver of a short report learns the last group with data and a size that never
      falls short of its buffer up to the top level, and nothing of the other groups. */
  method ShortBsrReported(sizes: seq<nat>, out: array<nat>) returns (lcg: nat)
    requires |sizes| == 4 && out.Length == 4 && forall i :: 0 <= i < 4 ==> out[i] == 0
    modifies out
    ensures lcg == LastGroup(sizes)
    ensures out[lcg] == Decoded(Index(sizes[lcg])) && (sizes[lcg] <= 150000 ==> out[lcg] >= sizes[lcg])
    ensures forall i :: 0 <= i < 4 && i != lcg ==> out[i] == 0
  {
    hide BTable, Index, Decoded, LastGroup;
    var b := ShortBsr(sizes);
    GroupAndIndex(LastGroup(sizes), Index(sizes[LastGroup(sizes)]));
    lcg := GetShortBsr(b, out);
    ReportNeverShort(sizes[lcg]);
  }

  lemma GroupAndIndex(g: nat, k: nat)
    requires k < 64
    ensures (g * 64 + k) / 64 == g && (g * 64 + k) % 64 == k
  {
  }
}
