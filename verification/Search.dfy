/** Substring search of go/src/bytes/bytes.go: whichever byte-skipping loop or fallback runs, Index
    finds the first match. */
module Search {
  import opened Utf8
  import opened Split

  /** What depends on the processor: bytealg.MaxLen, MaxBruteForce and Cutover. */
  datatype Arch = Arch(maxLen: int, maxBruteForce: int, cutover: int -> int)

  predicate MatchAt(s: seq<byte>, sep: seq<byte>, i: int) {
    0 <= i <= |s| - |sep| && s[i..i + |sep|] == sep
  }

  /** r is the least index of a match, or -1 when there is none. */
  ghost predicate IsIndex(s: seq<byte>, sep: seq<byte>, r: int) {
    if r < 0 then r == -1 && forall i :: !MatchAt(s, sep, i)
    else MatchAt(s, sep, r) && forall i :: 0 <= i < r ==> !MatchAt(s, sep, i)
  }

  /** The first match, found by trying every index: bytealg.Index and bytealg.IndexRabinKarp. */
  function IndexOf(s: seq<byte>, sep: seq<byte>): (r: int)
    ensures -1 <= r <= |s| - |sep| || r == -1
    decreases |s|
  {
    if |sep| > |s| then -1
    else if s[..|sep|] == sep then 0
    else var r := IndexOf(s[1..], sep); if r < 0 then -1 else r + 1
  }

  lemma MatchShift(s: seq<byte>, sep: seq<byte>, k: nat, i: int)
    requires k <= |s| && i >= k
    ensures MatchAt(s, sep, i) <==> MatchAt(s[k..], sep, i - k)
  {
    if i <= |s| - |sep| { assert s[k..][i - k..i - k + |sep|] == s[i..i + |sep|]; }
  }

  lemma {:induction false} IndexOfLeast(s: seq<byte>, sep: seq<byte>)
    ensures IsIndex(s, sep, IndexOf(s, sep))
    decreases |s|
  {
    if |sep| > |s| {
    } else {
      assert s[0..0 + |sep|] == s[..|sep|];
      if s[..|sep|] != sep {
        IndexOfLeast(s[1..], sep);
        forall i | 1 <= i ensures MatchAt(s, sep, i) <==> MatchAt(s[1..], sep, i - 1) { MatchShift(s, sep, 1, i); }
        assert !MatchAt(s, sep, 0);
        var r := IndexOf(s[1..], sep);
        hide MatchAt;
        forall i | 0 <= i && (r < 0 || i <= r) ensures !MatchAt(s, sep, i) {
          if i > 0 { assert !MatchAt(s[1..], sep, i - 1); }
        }
        OutOfRange(s, sep);
      }
    }
  }

  lemma OutOfRange(s: seq<byte>, sep: seq<byte>)
    ensures forall i :: i < 0 ==> !MatchAt(s, sep, i)
  {
  }

  lemma IndexUnique(s: seq<byte>, sep: seq<byte>, r: int)
    requires IsIndex(s, sep, r)
    ensures r == IndexOf(s, sep)
  {
    IndexOfLeast(s, sep);
    hide MatchAt;
  }

  /** No match before i, so the search can go on from there. */
  ghost predicate NoneBefore(s: seq<byte>, sep: seq<byte>, i: int) {
    forall j :: 0 <= j < i ==> !MatchAt(s, sep, j)
  }

  /** Falling back on another search from i on. */
  lemma SearchFrom(s: seq<byte>, sep: seq<byte>, i: nat)
    requires NoneBefore(s, sep, i) && i <= |s|
    ensures var r := IndexOf(s[i..], sep); IndexOf(s, sep) == if r >= 0 then r + i else -1
  {
    IndexOfLeast(s[i..], sep);
    var r := IndexOf(s[i..], sep);
    forall j | j >= i ensures MatchAt(s, sep, j) <==> MatchAt(s[i..], sep, j - i) { MatchShift(s, sep, i, j); }
    var q := if r >= 0 then r + i else -1;
    OutOfRange(s, sep);
    hide MatchAt;
    forall j | r < 0 || 0 <= j < q ensures !MatchAt(s, sep, j) {
      if j >= i { assert !MatchAt(s[i..], sep, j - i); }
    }
    IndexUnique(s, sep, q);
  }

  /** Once no index before the last possible one matches, nothing does. */
  lemma NothingLeft(s: seq<byte>, sep: seq<byte>, i: int)
    requires NoneBefore(s, sep, i) && i >= |s| - |sep| + 1
    ensures IndexOf(s, sep) == -1
  {
    forall j ensures !MatchAt(s, sep, j) { if 0 <= j < i { assert !MatchAt(s, sep, j); } }
    IndexUnique(s, sep, -1);
  }

  /** A match starts with the first two bytes of sep. */
  lemma MatchStart(s: seq<byte>, sep: seq<byte>, i: int)
    requires |sep| >= 2 && MatchAt(s, sep, i)
    ensures s[i] == sep[0] && s[i + 1] == sep[1]
  {
    var t := s[i..i + |sep|];
    assert t[0] == s[i] && t[1] == s[i + 1];
  }

  /** bytes.IndexByte. */
  function IndexByte(s: seq<byte>, c: byte): (r: int)
    ensures r == -1 ==> forall j :: 0 <= j < |s| ==> s[j] != c
    ensures r != -1 ==> 0 <= r < |s| && s[r] == c && forall j :: 0 <= j < r ==> s[j] != c
  {
    if Find(s, c) < |s| then Find(s, c) else -1
  }

  /** The skip of both loops: i moves on to the next candidate, or past the last one. */
  method NextCandidate(s: seq<byte>, sep: seq<byte>, i0: nat, t: nat) returns (i: nat)
    requires |sep| >= 2 && t == |s| - |sep| + 1 && i0 < t && NoneBefore(s, sep, i0)
    ensures i0 <= i <= t && NoneBefore(s, sep, i) && (i < t ==> s[i] == sep[0])
  {
    hide MatchAt, Find;
    i := i0;
    if s[i] != sep[0] {
      var o := IndexByte(s[i + 1..t], sep[0]);
      var n := if o < 0 then t else i + o + 1;
      forall j | i <= j < n ensures !MatchAt(s, sep, j) {
        if j > i { assert s[i + 1..t][j - (i + 1)] == s[j]; }
        assert s[j] != sep[0];
        if MatchAt(s, sep, j) { MatchStart(s, sep, j); }
      }
      return n;
    }
  }

  method Index(s: seq<byte>, sep: seq<byte>, arch: Arch) returns (r: int)
    ensures r == IndexOf(s, sep)
  {
    hide IndexOf, MatchAt, Find;
    var n := |sep|;
    if n == 0 {
      EmptySep(s);
      return 0;
    } else if n == 1 {
      ByteSep(s, sep);
      return IndexByte(s, sep[0]);
    } else if n == |s| {
      SameLength(s, sep);
      return if sep == s then 0 else -1;
    } else if n > |s| {
      NothingLeft(s, sep, 0);
      return -1;
    } else if n <= arch.maxLen {
      if |s| <= arch.maxBruteForce { return IndexOf(s, sep); }
      r := IndexShort(s, sep, arch);
    } else {
      r := IndexLong(s, sep);
    }
  }

  /** The loop for short separators, falling back on bytealg.Index. */
  method IndexShort(s: seq<byte>, sep: seq<byte>, arch: Arch) returns (r: int)
    requires 2 <= |sep| < |s|
    ensures r == IndexOf(s, sep)
  {
    hide IndexOf, MatchAt, Find;
    var i, fails: nat, t := 0, 0, |s| - |sep| + 1;
    while i < t
      invariant 0 <= i <= t && NoneBefore(s, sep, i)
    {
      i := NextCandidate(s, sep, i, t);
      if i == t { break; }
      var hit := s[i + 1] == sep[1] && s[i..i + |sep|] == sep;
      Candidate(s, sep, i);
      if hit { return i; }
      fails := fails + 1;
      i := i + 1;
      if fails > arch.cutover(i) {
        SearchFrom(s, sep, i);
        r := IndexOf(s[i..], sep);
        return if r >= 0 then r + i else -1;
      }
    }
    NothingLeft(s, sep, i);
    return -1;
  }

  /** The loop for long separators, falling back on Rabin-Karp. */
  method IndexLong(s: seq<byte>, sep: seq<byte>) returns (r: int)
    requires 2 <= |sep| < |s|
    ensures r == IndexOf(s, sep)
  {
    hide IndexOf, MatchAt, Find;
    var i, fails: nat, t := 0, 0, |s| - |sep| + 1;
    while i < t
      invariant 0 <= i <= t && NoneBefore(s, sep, i)
    {
      i := NextCandidate(s, sep, i, t);
      if i == t { break; }
      var hit := s[i + 1] == sep[1] && s[i..i + |sep|] == sep;
      Candidate(s, sep, i);
      if hit { return i; }
      i := i + 1;
      fails := fails + 1;
      if fails >= 4 + i / 16 && i < t {
        SearchFrom(s, sep, i);
        var j := IndexOf(s[i..], sep);
        return if j < 0 then -1 else i + j;
      }
    }
    NothingLeft(s, sep, i);
    return -1;
  }

  /** Testing the candidate i decides whether it is the first match. */
  lemma Candidate(s: seq<byte>, sep: seq<byte>, i: nat)
    requires 2 <= |sep| && i <= |s| - |sep| && NoneBefore(s, sep, i)
    ensures if s[i + 1] == sep[1] && s[i..i + |sep|] == sep then IndexOf(s, sep) == i else NoneBefore(s, sep, i + 1)
  {
    if s[i + 1] == sep[1] && s[i..i + |sep|] == sep {
      assert MatchAt(s, sep, i);
      hide MatchAt;
      IndexUnique(s, sep, i);
    } else if MatchAt(s, sep, i) {
      MatchStart(s, sep, i);
    }
  }

  lemma EmptySep(s: seq<byte>)
    ensures IndexOf(s, []) == 0
  {
    assert s[..0] == [];
  }

  lemma SameLength(s: seq<byte>, sep: seq<byte>)
    requires |s| == |sep| > 0
    ensures IndexOf(s, sep) == if sep == s then 0 else -1
  {
    assert s[0..|s|] == s;
    hide IndexOf;
    IndexUnique(s, sep, if sep == s then 0 else -1);
  }

  lemma ByteSep(s: seq<byte>, sep: seq<byte>)
    requires |sep| == 1
    ensures IndexOf(s, sep) == IndexByte(s, sep[0])
  {
    hide Find, IndexOf;
    forall i | 0 <= i < |s| ensures MatchAt(s, sep, i) <==> s[i] == sep[0] { assert s[i..i + 1] == [s[i]] && sep == [sep[0]]; }
    IndexUnique(s, sep, IndexByte(s, sep[0]));
  }
}
