/** Byte strings at a place of a longer one, and copying them there. */
module ByteSpans {
  import opened Bits

  function ZeroBytes(n: nat): (s: seq<byte>)
    ensures |s| == n && forall i :: 0 <= i < n ==> s[i] == 0
  {
    seq(n, i => 0)
  }

  /** Whether the bytes of a list start at a place. */
  predicate Holds(m: seq<byte>, at: nat, s: seq<byte>) {
    at + |s| <= |m| && m[at..at + |s|] == s
  }

  lemma HoldsIs(m: seq<byte>, at: nat, s: seq<byte>)
    requires Holds(m, at, s)
    ensures at + |s| <= |m| && m[at..at + |s|] == s
  {
  }

  lemma HoldsBytes(m: seq<byte>, at: nat, s: seq<byte>)
    requires Holds(m, at, s)
    ensures forall i :: 0 <= i < |s| ==> m[at + i] == s[i]
  {
    forall i | 0 <= i < |s|
      ensures m[at + i] == s[i]
    {
      assert m[at..at + |s|][i] == m[at + i];
    }
  }

  lemma HoldsSplit(m: seq<byte>, at: nat, s: seq<byte>, t: seq<byte>)
    ensures Holds(m, at, s + t) <==> Holds(m, at, s) && Holds(m, at + |s|, t)
  {
    if Holds(m, at, s + t) {
      assert m[at..at + |s + t|] == m[at..at + |s|] + m[at + |s|..at + |s| + |t|];
      assert m[at..at + |s|] == (s + t)[..|s|];
      assert m[at + |s|..at + |s| + |t|] == (s + t)[|s|..];
    }
    if Holds(m, at, s) && Holds(m, at + |s|, t) {
      assert m[at..at + |s + t|] == m[at..at + |s|] + m[at + |s|..at + |s| + |t|];
    }
  }

  lemma HoldsSame(m: seq<byte>, w: seq<byte>, at: nat, s: seq<byte>)
    requires Holds(m, at, s) && |m| == |w|
    requires forall i :: at <= i < at + |s| ==> w[i] == m[i]
    ensures Holds(w, at, s)
  {
    assert w[at..at + |s|] == m[at..at + |s|];
  }

  /** Bytes added behind what was there before. */
  lemma HoldsMore(m: seq<byte>, w: seq<byte>, at: nat, s: seq<byte>, t: seq<byte>)
    requires Holds(m, at, s) && |m| == |w| && at + |s| + |t| <= |w|
    requires forall i :: at <= i < at + |s| ==> w[i] == m[i]
    requires w[at + |s|..at + |s| + |t|] == t
    ensures Holds(w, at, s + t)
  {
    hide *;
    HoldsSame(m, w, at, s);
    HoldsSlice(w, at + |s|, at + |s| + |t|, t);
    HoldsSplit(w, at, s, t);
  }

  lemma HoldsSlice(m: seq<byte>, at: nat, to: nat, s: seq<byte>)
    requires at <= to <= |m| && m[at..to] == s
    ensures Holds(m, at, s)
  {
  }

  lemma HoldsNothing(m: seq<byte>, at: nat)
    requires at <= |m|
    ensures Holds(m, at, [])
  {
  }

  lemma HoldsStart(s: seq<byte>, tail: seq<byte>)
    ensures Holds(s + tail, 0, s)
  {
  }

  lemma HoldsCut(w: seq<byte>, n: nat, tail: seq<byte>, at: nat, s: seq<byte>)
    requires Holds(w, at, s) && at + |s| <= n <= |w|
    ensures Holds(w[..n] + tail, at, s)
  {
    assert (w[..n] + tail)[at..at + |s|] == w[at..at + |s|];
  }

  /** Copies bytes to a place of an array. */
  method CopyBytes(data: array<byte>, at: nat, bytes: seq<byte>)
    requires at + |bytes| <= data.Length
    modifies data
    ensures data[at..at + |bytes|] == bytes
    ensures forall i :: 0 <= i < data.Length && !(at <= i < at + |bytes|) ==> data[i] == old(data[i])
  {
    var i := 0;
    while i < |bytes|
      invariant 0 <= i <= |bytes|
      invariant forall j :: 0 <= j < i ==> data[at + j] == bytes[j]
      invariant forall j :: 0 <= j < data.Length && !(at <= j < at + i) ==> data[j] == old(data[j])
    {
      data[at + i] := bytes[i];
      i := i + 1;
    }
  }
}
