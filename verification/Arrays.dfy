/** Go's copy between parts of one array. */
module Arrays {
  import opened Utf8

  /** copy(b[dst:dst+n], b[src:src+n]), with the overlap handled as Go does. */
  method CopyWithin(b: array<byte>, dst: nat, src: nat, n: nat)
    requires dst <= src && src + n <= b.Length
    modifies b
    ensures b[dst..dst + n] == old(b[src..src + n])
    ensures b[..dst] == old(b[..dst]) && b[src + n..] == old(b[src + n..])
  {
    forall k | 0 <= k < n { b[dst + k] := b[src + k]; }
  }

  /** copy(to[dst:], from[src:src+n]) for two different arrays. */
  method CopyBetween(to: array<byte>, dst: nat, from: array<byte>, src: nat, n: nat)
    requires to != from && dst + n <= to.Length && src + n <= from.Length
    modifies to
    ensures to[dst..dst + n] == from[src..src + n]
    ensures to[..dst] == old(to[..dst]) && to[dst + n..] == old(to[dst + n..])
  {
    forall k | 0 <= k < n { to[dst + k] := from[src + k]; }
  }

  /** copy(to[dst:], v), returning how much was copied. */
  method Put(to: array<byte>, dst: nat, v: seq<byte>) returns (n: nat)
    requires dst + |v| <= to.Length
    modifies to
    ensures n == |v| && to[..dst + n] == old(to[..dst]) + v
  {
    ghost var before := to[..dst];
    forall k | 0 <= k < |v| { to[dst + k] := v[k]; }
    n := |v|;
    assert to[..dst] == before && to[dst..dst + n] == v;
    assert to[..dst + n] == to[..dst] + to[dst..dst + n];
  }

  /** A part of an array cut in two. */
  lemma CutSlice(b: array<byte>, lo: nat, mid: nat, hi: nat)
    requires lo <= mid <= hi <= b.Length
    ensures b[lo..mid] == b[lo..hi][..mid - lo] && b[mid..hi] == b[lo..hi][mid - lo..] && b[lo..hi] == b[lo..mid] + b[mid..hi]
  {
  }

  /** A front that is known to be made of two parts. */
  lemma FrontParts(b: array<byte>, first: seq<byte>, second: seq<byte>)
    requires |first| + |second| <= b.Length && b[..|first| + |second|] == first + second
    ensures b[..|first|] == first && b[|first|..|first| + |second|] == second
  {
    var n := |first| + |second|;
    assert b[..|first|] == b[..n][..|first|] && b[|first|..n] == b[..n][|first|..];
  }

  lemma Assoc(a: seq<byte>, b: seq<byte>, c: seq<byte>)
    ensures (a + b) + c == a + (b + c)
  {
  }

  lemma DropTwice(s: seq<byte>, a: nat, b: nat)
    requires a + b <= |s|
    ensures s[a..][b..] == s[a + b..]
  {
  }
}
