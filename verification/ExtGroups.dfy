/** Extension addition groups: a small number that counts the presence flags up to the last one
    set, and the flags. */
module ExtGroups {
  import opened Bits
  import opened BitRefs
  import opened PerSpec
  import opened PerCodec

  /** The number of groups up to the last one present. */
  function NofGroups(g: seq<bool>): (n: nat)
    ensures n <= |g| && (n > 0 ==> g[n - 1]) && forall i :: n <= i < |g| ==> !g[i]
  {
    if g == [] then 0 else if g[|g| - 1] then |g| else NofGroups(g[..|g| - 1])
  }

  /** On the wire: the number of flags less one as a normally small number, six bits behind a
      clear one (section 10.6 of X.691), and the flags up to the last group present. */
  lemma GroupFields(g: seq<bool>)
    requires 1 <= NofGroups(g) <= 64
    ensures !GroupBits(g)[0] && BitsNat(GroupBits(g)[1..7]) == NofGroups(g) - 1 && GroupBits(g)[7..] == g[..NofGroups(g)]
  {
    hide *;
    var w := NofGroups(g) - 1;
    GroupBitsIs(g);
    Pow2Values();
    NatBitsSplit(w, 1, 6);
    LowSmall(w, 6);
    BitsNatOfNatBits(w, 6);
    NatBitsEnds(0, 1);
    NatBitsEnds(0, 0);
    assert NatBits(0, 1) == [false] && NatBits(w, 7) == [false] + NatBits(w, 6);
    assert GroupBits(g)[1..7] == NatBits(w, 6);
  }

  /** What is written for a list of flags with at least one set. */
  function GroupBits(g: seq<bool>): (b: seq<bool>)
    requires NofGroups(g) >= 1
    ensures |b| == 7 + NofGroups(g)
  {
    NatBits(NofGroups(g) - 1, 7) + g[..NofGroups(g)]
  }

  lemma BitOfFlag(f: bool)
    ensures NatBits(if f then 1 else 0, 1) == [f]
  {
    assert NatBits(0, 0) == [];
  }

  lemma FlagWritten(mem: seq<bool>, p: nat, head: seq<bool>, f: bool)
    requires p + |head| < |mem|
    ensures Overlay(Overlay(mem, p, head), p + |head|, [f]) == Overlay(mem, p, head + [f])
  {
    OverlayCompose(mem, p, head, [f]);
  }

  class ExtGroupsPackerGuard {
    var groups: seq<bool>

    constructor ()
      ensures groups == []
    {
      groups := [];
    }

    /** Marks a group, growing the list with groups that are absent. */
    method Set(idx: nat, present: bool)
      modifies this
      ensures |groups| == if idx < |old(groups)| then |old(groups)| else idx + 1
      ensures groups[idx] == present
      ensures forall i :: 0 <= i < |groups| && i != idx ==> groups[i] == (i < |old(groups)| && old(groups)[i])
    {
      if idx >= |groups| {
        groups := groups + seq(idx + 1 - |groups|, i => false);
      }
      groups := groups[idx := present];
    }

    /** Fails without a group, with more than 64, and without room. */
    method Pack(bref: BitRef) returns (code: Code)
      requires bref.Valid()
      modifies bref`ptr, bref`offset, bref.buf
      ensures bref.Valid()
      ensures code == if 1 <= NofGroups(groups) <= 64 && old(bref.Pos()) + 7 + NofGroups(groups) <= 8 * bref.max then Success else EncodeFail
      ensures code == Success ==>
                bref.Pos() == old(bref.Pos()) + 7 + NofGroups(groups)
                && bref.Mem() == Overlay(old(bref.Mem()), old(bref.Pos()), GroupBits(groups))
    {
      hide NatBits, Overlay, OverlayBit, BytesBits;
      var i := |groups| - 1;
      while i >= 0 && !groups[i]
        invariant -1 <= i < |groups|
        invariant forall j :: i < j < |groups| ==> !groups[j]
        decreases i
      {
        i := i - 1;
      }
      var nofGroups := i + 1;
      assert nofGroups == NofGroups(groups);
      var count: uint32 := if nofGroups == 0 then TWO_TO_THE_32 - 1 else if nofGroups - 1 < TWO_TO_THE_32 then nofGroups - 1 else 64;
      ghost var mem0, p0 := bref.Mem(), bref.Pos();
      code := PackSmall(bref, count);
      if code != Success {
        return;
      }
      code := PackFlags(bref, nofGroups, mem0, p0, NatBits(nofGroups - 1, 7));
    }

    /** Writes the first n flags behind the count. */
    method PackFlags(bref: BitRef, n: nat, ghost mem0: seq<bool>, ghost p0: nat, ghost head: seq<bool>) returns (code: Code)
      requires bref.Valid() && n <= |groups| && bref.Pos() == p0 + |head| <= 8 * bref.max <= |mem0| && bref.Mem() == Overlay(mem0, p0, head)
      modifies bref`ptr, bref`offset, bref.buf
      ensures bref.Valid()
      ensures code == if p0 + |head| + n <= 8 * bref.max then Success else EncodeFail
      ensures code == Success ==> bref.Pos() == p0 + |head| + n && bref.Mem() == Overlay(mem0, p0, head + groups[..n])
    {
      hide *;
      assert head + groups[..0] == head;
      code := Success;
      var j := 0;
      while j < n
        invariant 0 <= j <= n && bref.Valid() && code == Success
        invariant bref.Pos() == p0 + |head| + j <= 8 * bref.max <= |mem0|
        invariant bref.Mem() == Overlay(mem0, p0, head + groups[..j])
      {
        BitOfFlag(groups[j]);
        code := bref.Pack(if groups[j] then 1 else 0, 1);
        if code != Success {
          return;
        }
        FlagWritten(mem0, p0, head + groups[..j], groups[j]);
        assert head + groups[..j] + [groups[j]] == head + groups[..j + 1];
        j := j + 1;
      }
    }
  }

  /** Flags with absent groups added up to a size. */
  function Grown(g: seq<bool>, n: nat): (r: seq<bool>)
    ensures |r| == if |g| < n then n else |g|
  {
    if |g| < n then g + seq(n - |g|, i => false) else g
  }

  class ExtGroupsUnpackerGuard {
    var groups: seq<bool>
    const nofSupportedGroups: nat
    var nofUnpackedGroups: nat

    constructor (supported: nat)
      ensures nofSupportedGroups == supported && groups == seq(supported, i => false) && nofUnpackedGroups == 0
    {
      nofSupportedGroups := supported;
      groups := seq(supported, i => false);
      nofUnpackedGroups := 0;
    }

    method Resize(newSize: nat)
      modifies this`groups
      ensures groups == Grown(old(groups), if newSize > nofSupportedGroups then newSize else nofSupportedGroups)
    {
      var n := if newSize > nofSupportedGroups then newSize else nofSupportedGroups;
      if |groups| < n {
        groups := groups + seq(n - |groups|, i => false);
      }
    }

    /** Reads the count and as many flags; the list has at least the supported groups. */
    method Unpack(bref: BitRef) returns (code: Code)
      requires bref.Valid() && groups == seq(nofSupportedGroups, i => false)
      modifies this`groups, this`nofUnpackedGroups, bref`ptr, bref`offset
      ensures bref.Valid() && bref.Mem() == old(bref.Mem())
      ensures var d := ReadSmall(bref.Mem(), 8 * bref.max, old(bref.Pos()));
              code == if d.Decoded? && d.next + d.val + 1 <= 8 * bref.max then Success else DecodeFail
      ensures code == Success ==>
                var d := ReadSmall(bref.Mem(), 8 * bref.max, old(bref.Pos()));
                d.val >= 0 && nofUnpackedGroups == d.val + 1 && bref.Pos() == d.next + nofUnpackedGroups <= |bref.Mem()|
                && groups == Grown(bref.Mem()[d.next..bref.Pos()], nofSupportedGroups)
    {
      hide ReadSmall, BytesBits, BitsNat;
      ghost var mem := bref.Mem();
      ghost var d := ReadSmall(mem, 8 * bref.max, bref.Pos());
      SmallIsSmall(mem, 8 * bref.max, bref.Pos());
      var r := UnpackSmall(bref);
      if r.code != Success {
        return DecodeFail;
      }
      assert d == Decoded(r.val, bref.Pos());
      nofUnpackedGroups := r.val + 1;
      Resize(nofUnpackedGroups);
      code := ReadFlags(bref);
    }

    method ReadFlags(bref: BitRef) returns (code: Code)
      requires bref.Valid() && nofUnpackedGroups <= |groups| && forall j :: 0 <= j < |groups| ==> !groups[j]
      modifies this`groups, bref`ptr, bref`offset
      ensures bref.Valid() && bref.Mem() == old(bref.Mem())
      ensures code == if old(bref.Pos()) + nofUnpackedGroups <= 8 * bref.max then Success else DecodeFail
      ensures |groups| == |old(groups)|
      ensures code == Success ==>
                var q := old(bref.Pos());
                bref.Pos() == q + nofUnpackedGroups <= |bref.Mem()|
                && groups == Grown(bref.Mem()[q..bref.Pos()], |groups|)
    {
      hide BytesBits, BitsNat;
      ghost var mem, q := bref.Mem(), bref.Pos();
      var i := 0;
      code := Success;
      while i < nofUnpackedGroups
        invariant 0 <= i <= nofUnpackedGroups <= |groups| == |old(groups)| && bref.Valid() && bref.Mem() == mem
        invariant bref.Pos() == q + i <= 8 * bref.max <= |mem|
        invariant forall j :: 0 <= j < i ==> groups[j] == mem[q + j]
        invariant forall j :: i <= j < |groups| ==> !groups[j]
      {
        var u := bref.Unpack(1);
        if u.code != Success {
          return DecodeFail;
        }
        OneBit(mem, q + i);
        groups := groups[i := u.val != 0];
        i := i + 1;
      }
    }
  }

  lemma SmallIsSmall(mem: seq<bool>, limit: nat, p: nat)
    requires limit <= |mem|
    ensures ReadSmall(mem, limit, p).Decoded? ==> 0 <= ReadSmall(mem, limit, p).val < 64
  {
    Pow2Values();
    if p + 7 <= limit {
      BitsNatBound(mem[p + 1..p + 7]);
    }
  }

  /** The flags that were packed are read back, absent groups filling up to the supported number;
      the reader ends where the packer ended. */
  lemma GroupsReadBack(mem: seq<bool>, p: nat, limit: nat, g: seq<bool>, supported: nat)
    requires 1 <= NofGroups(g) <= 64 && p + 7 + NofGroups(g) <= limit <= |mem|
    ensures var after := Overlay(mem, p, GroupBits(g));
            var d := ReadSmall(after, limit, p);
            |after| == |mem| && d == Decoded(NofGroups(g) - 1, p + 7)
            && Grown(after[p + 7..p + 7 + NofGroups(g)], supported) == Grown(g[..NofGroups(g)], supported)
            && after[..p] == mem[..p]
  {
    hide *;
    var n := NofGroups(g);
    var after := Overlay(mem, p, GroupBits(g));
    OverlayAt(mem, p, GroupBits(g));
    GroupBitsIs(g);
    TwoParts(after, p, NatBits(n - 1, 7), 7, g[..n], n);
    ReadSmallAt(after, limit, p, n - 1);
  }

  lemma GroupBitsIs(g: seq<bool>)
    requires NofGroups(g) >= 1
    ensures GroupBits(g) == NatBits(NofGroups(g) - 1, 7) + g[..NofGroups(g)]
  {
    hide NatBits, NofGroups;
  }

  lemma TwoParts(s: seq<bool>, p: nat, a: seq<bool>, m: nat, b: seq<bool>, n: nat)
    requires |a| == m && |b| == n && p + m + n <= |s| && s[p..p + |a + b|] == a + b
    ensures s[p..p + m] == a && s[p + m..p + m + n] == b
  {
    SliceOfSlice(s, p, m + n, 0, m);
    SliceOfSlice(s, p, m + n, m, n);
    assert (a + b)[0..m] == a && (a + b)[m..m + n] == b;
  }

  // --- the flags as part of a message ---

  /** What a decoder takes from memory at p for the flags of a type with so many groups. */
  datatype GotFlags = GotFlags(groups: seq<bool>, next: nat) | NoFlags

  function ReadGroups(supported: nat, mem: seq<bool>, limit: nat, p: nat): (g: GotFlags)
    requires limit <= |mem|
    ensures g.GotFlags? ==> p <= g.next <= limit
  {
    var d := ReadSmall(mem, limit, p);
    if d.Malformed? || d.val < 0 || d.next + d.val + 1 > limit then NoFlags
    else GotFlags(Grown(mem[d.next..d.next + d.val + 1], supported), d.next + d.val + 1)
  }

  /** Flags that the packer takes and the reader gives back unchanged: at least one of at most
      64 groups is present, and the list has the supported groups but no absent group more. */
  predicate Sendable(g: seq<bool>, supported: nat) {
    1 <= NofGroups(g) <= 64 && Grown(g[..NofGroups(g)], supported) == g
  }

  /** Flags packed at p are read back. */
  lemma GroupsRead(g: seq<bool>, supported: nat, mem: seq<bool>, p: nat, mem': seq<bool>, limit: nat)
    requires Sendable(g, supported) && p + 7 + NofGroups(g) <= limit <= |mem| && mem' == Overlay(mem, p, GroupBits(g))
    ensures |mem'| == |mem| && mem'[..p] == mem[..p]
    ensures ReadGroups(supported, mem', limit, p) == GotFlags(g, p + 7 + NofGroups(g))
  {
    hide ReadSmall, Grown, Overlay, GroupBits, NofGroups;
    GroupsReadBack(mem, p, limit, g, supported);
  }

  /** Flags are decoded from their bits alone. */
  lemma GroupsRelocated(supported: nat, mem: seq<bool>, limit: nat, p: nat, other: seq<bool>, limit': nat, p': nat)
    requires limit <= |mem| && limit' <= |other|
    requires var g := ReadGroups(supported, mem, limit, p);
      g.GotFlags? && p' + (g.next - p) <= limit' && SameBits(mem, p, other, p', g.next - p)
    ensures var g := ReadGroups(supported, mem, limit, p);
      ReadGroups(supported, other, limit', p') == GotFlags(g.groups, p' + (g.next - p))
  {
    hide *;
    GroupsCases(supported, mem, limit, p);
    GroupsCases(supported, other, limit', p');
    var d := ReadSmall(mem, limit, p);
    var n := d.val + 1;
    SameBitsSlice(mem, p, other, p', 7 + n, 0, 7);
    SmallRelocated(mem, limit, p, other, limit', p');
    SameBitsSlice(mem, p, other, p', 7 + n, 7, n);
    SameBitsHolds(mem, p + 7, other, p' + 7, n);
  }

  lemma GroupsCases(supported: nat, mem: seq<bool>, limit: nat, p: nat)
    requires limit <= |mem|
    ensures var d, g := ReadSmall(mem, limit, p), ReadGroups(supported, mem, limit, p);
            && (d.Decoded? ==> d.next == p + 7 && 0 <= d.val)
            && (g.GotFlags? <==> d.Decoded? && d.next + d.val + 1 <= limit)
            && (g.GotFlags? ==> g == GotFlags(Grown(mem[d.next..d.next + d.val + 1], supported), d.next + d.val + 1))
  {
    SmallIsSmall(mem, limit, p);
    hide Grown, BitsNat;
  }

  lemma SmallRelocated(mem: seq<bool>, limit: nat, p: nat, other: seq<bool>, limit': nat, p': nat)
    requires limit <= |mem| && limit' <= |other| && p' + 7 <= limit' && SameBits(mem, p, other, p', 7)
    requires ReadSmall(mem, limit, p).Decoded?
    ensures ReadSmall(other, limit', p') == Decoded(ReadSmall(mem, limit, p).val, p' + 7)
  {
    hide BitsNat, SameBits;
    SameBitsSlice(mem, p, other, p', 7, 0, 1);
    SameBitsSlice(mem, p, other, p', 7, 1, 6);
    SameBitsHolds(mem, p + 1, other, p' + 1, 6);
  }

  /** Marks the groups one after the other and packs them. */
  method PackGroups(bref: BitRef, g: seq<bool>) returns (code: Code)
    requires bref.Valid()
    modifies bref`ptr, bref`offset, bref.buf
    ensures bref.Valid()
    ensures code == if 1 <= NofGroups(g) <= 64 && old(bref.Pos()) + 7 + NofGroups(g) <= 8 * bref.max then Success else EncodeFail
    ensures code == Success ==>
              bref.Pos() == old(bref.Pos()) + 7 + NofGroups(g)
              && bref.Mem() == Overlay(old(bref.Mem()), old(bref.Pos()), GroupBits(g))
  {
    hide *;
    var guard := new ExtGroupsPackerGuard();
    var i := 0;
    while i < |g|
      invariant 0 <= i <= |g| && guard.groups == g[..i] && fresh(guard)
      invariant bref.Valid() && bref.Pos() == old(bref.Pos()) && bref.Mem() == old(bref.Mem())
    {
      guard.Set(i, g[i]);
      i := i + 1;
    }
    assert g[..|g|] == g;
    code := guard.Pack(bref);
  }

  /** Returns exactly what the decoder specification reads at the cursor. */
  method UnpackGroups(bref: BitRef, supported: nat) returns (groups: seq<bool>, code: Code)
    requires bref.Valid()
    modifies bref`ptr, bref`offset
    ensures bref.Valid()
    ensures var g := ReadGroups(supported, bref.Mem(), 8 * bref.max, old(bref.Pos()));
            (code == Success <==> g.GotFlags?) && (g.GotFlags? ==> groups == g.groups && bref.Pos() == g.next)
  {
    hide *;
    Room(bref);
    GroupsCases(supported, bref.Mem(), 8 * bref.max, bref.Pos());
    var guard := new ExtGroupsUnpackerGuard(supported);
    code := guard.Unpack(bref);
    groups := guard.groups;
  }
}
