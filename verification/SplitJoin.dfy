/** Split, SplitSeq, Join and Replace of go/src/bytes/bytes.go and iter.go. */
module SplitJoin {
  import Bits
  import opened Arrays
  import opened Utf8
  import opened Search

  // ---- what splitting and joining mean ----

  /** How many separators a scan from the left finds. */
  function CountOf(s: seq<byte>, sep: seq<byte>): nat
    requires sep != []
    decreases |s|
  {
    var m := IndexOf(s, sep);
    if m < 0 then 0 else 1 + CountOf(s[m + |sep|..], sep)
  }

  /** At most n pieces, cut at the first separators; save bytes of each separator stay. */
  function Pieces(s: seq<byte>, sep: seq<byte>, save: nat, n: nat): (p: seq<seq<byte>>)
    requires sep != [] && save <= |sep|
    ensures |p| >= 1
    decreases |s|
  {
    var m := IndexOf(s, sep);
    if n <= 1 || m < 0 then [s] else [s[..m + save]] + Pieces(s[m + |sep|..], sep, save, n - 1)
  }

  /** All the pieces. */
  function AllPieces(s: seq<byte>, sep: seq<byte>, save: nat): seq<seq<byte>>
    requires sep != [] && save <= |sep|
    decreases |s|
  {
    var m := IndexOf(s, sep);
    if m < 0 then [s] else [s[..m + save]] + AllPieces(s[m + |sep|..], sep, save)
  }

  /** One piece for each rune, but not more than n: the last one takes the rest. */
  function RunePieces(s: seq<byte>, n: nat): seq<seq<byte>>
    decreases |s|
  {
    if s == [] then [] else if n <= 1 then [s] else [s[..DecodeRune(s).w]] + RunePieces(s[DecodeRune(s).w..], n - 1)
  }

  /** What genSplit returns for any arguments. */
  function SplitOf(s: seq<byte>, sep: seq<byte>, save: nat, n: int): seq<seq<byte>>
    requires save <= |sep|
  {
    if n == 0 then []
    else if sep == [] then RunePieces(s, if n < 0 || n > |s| then |s| else n)
    else if n < 0 then AllPieces(s, sep, save)
    else Pieces(s, sep, save, n)
  }

  function JoinOf(ps: seq<seq<byte>>, sep: seq<byte>): seq<byte> {
    if ps == [] then [] else if |ps| == 1 then ps[0] else ps[0] + sep + JoinOf(ps[1..], sep)
  }

  // ---- what the operations have to do with each other ----

  /** Joining what was split gives the text back, whatever the limit. */
  lemma {:induction false} JoinPieces(s: seq<byte>, sep: seq<byte>, n: nat)
    requires sep != []
    ensures JoinOf(Pieces(s, sep, 0, n), sep) == s
    decreases |s|
  {
    hide IndexOf, Pieces, JoinOf;
    var m := IndexOf(s, sep);
    PiecesStep(s, sep, 0, n);
    if n <= 1 || m < 0 {
      JoinFew([s], sep);
    } else {
      var rest := s[m + |sep|..];
      JoinPieces(rest, sep, n - 1);
      JoinFirst(s[..m], Pieces(rest, sep, 0, n - 1), sep);
      AroundMatch(s, sep);
    }
  }

  lemma PiecesStep(s: seq<byte>, sep: seq<byte>, save: nat, n: nat)
    requires sep != [] && save <= |sep|
    ensures var m := IndexOf(s, sep);
      Pieces(s, sep, save, n) == if n <= 1 || m < 0 then [s] else [s[..m + save]] + Pieces(s[m + |sep|..], sep, save, n - 1)
  {
    hide IndexOf;
  }

  lemma JoinFirst(p: seq<byte>, ps: seq<seq<byte>>, sep: seq<byte>)
    requires ps != []
    ensures JoinOf([p] + ps, sep) == p + sep + JoinOf(ps, sep)
  {
    JoinFew([p] + ps, sep);
    hide JoinOf;
    assert ([p] + ps)[1..] == ps;
  }

  lemma AroundMatch(s: seq<byte>, sep: seq<byte>)
    requires IndexOf(s, sep) >= 0
    ensures var m := IndexOf(s, sep); s == s[..m] + sep + s[m + |sep|..]
  {
    IndexOfLeast(s, sep);
    hide IndexOf;
    CutAt(s, IndexOf(s, sep), |sep|);
  }

  lemma CutAt(s: seq<byte>, m: nat, n: nat)
    requires m + n <= |s|
    ensures s == s[..m] + s[m..m + n] + s[m + n..]
  {
    assert s[..m] + s[m..m + n] == s[..m + n];
  }

  /** With the separators kept, the pieces are the text itself. */
  lemma {:induction false} JoinAfterPieces(s: seq<byte>, sep: seq<byte>, n: nat)
    requires sep != []
    ensures JoinOf(Pieces(s, sep, |sep|, n), []) == s
    decreases |s|
  {
    hide IndexOf, Pieces, JoinOf;
    var m := IndexOf(s, sep);
    PiecesStep(s, sep, |sep|, n);
    if n <= 1 || m < 0 {
      JoinFew([s], []);
    } else {
      var rest := s[m + |sep|..];
      JoinAfterPieces(rest, sep, n - 1);
      JoinFirst(s[..m + |sep|], Pieces(rest, sep, |sep|, n - 1), []);
      assert s == s[..m + |sep|] + [] + rest;
    }
  }

  lemma {:induction false} JoinRunePieces(s: seq<byte>, n: nat)
    ensures JoinOf(RunePieces(s, n), []) == s
    decreases |s|
  {
    hide DecodeRune;
    if s == [] || n <= 1 {
    } else {
      var w := DecodeRune(s).w;
      JoinRunePieces(s[w..], n - 1);
      var ps := RunePieces(s, n);
      assert ps[1..] == RunePieces(s[w..], n - 1) && ps[0] == s[..w];
      assert s == s[..w] + [] + s[w..];
      if s[w..] == [] { assert s[..w] == s; }
    }
  }

  /** No piece holds a separator, and there is one more piece than separators. */
  lemma {:induction false} PiecesFree(s: seq<byte>, sep: seq<byte>)
    requires sep != []
    ensures |AllPieces(s, sep, 0)| == CountOf(s, sep) + 1
    ensures forall p :: p in AllPieces(s, sep, 0) ==> IndexOf(p, sep) == -1
    decreases |s|
  {
    var m := IndexOf(s, sep);
    if m < 0 {
    } else {
      PiecesFree(s[m + |sep|..], sep);
      FreeBefore(s, sep, m);
    }
    hide IndexOf;
  }

  lemma FreeBefore(s: seq<byte>, sep: seq<byte>, m: nat)
    requires sep != [] && m == IndexOf(s, sep)
    ensures IndexOf(s[..m], sep) == -1
  {
    IndexOfLeast(s, sep);
    hide IndexOf, MatchAt;
    forall i ensures !MatchAt(s[..m], sep, i) { MatchInPrefix(s, sep, m, i); }
    IndexUnique(s[..m], sep, -1);
  }

  lemma MatchInPrefix(s: seq<byte>, sep: seq<byte>, m: nat, i: int)
    requires m <= |s| && sep != []
    ensures MatchAt(s[..m], sep, i) ==> MatchAt(s, sep, i) && i < m
  {
    if 0 <= i <= m - |sep| { assert s[..m][i..i + |sep|] == s[i..i + |sep|]; }
  }

  lemma {:induction false} CountBound(s: seq<byte>, sep: seq<byte>)
    requires sep != []
    ensures CountOf(s, sep) <= |s|
    decreases |s|
  {
    var m := IndexOf(s, sep);
    if m < 0 {
    } else {
      CountBound(s[m + |sep|..], sep);
    }
    hide IndexOf;
  }

  /** A limit above the number of separators is no limit. */
  lemma {:induction false} NoLimit(s: seq<byte>, sep: seq<byte>, save: nat, n: nat)
    requires sep != [] && save <= |sep| && n > CountOf(s, sep)
    ensures Pieces(s, sep, save, n) == AllPieces(s, sep, save)
    decreases |s|
  {
    hide IndexOf, Pieces;
    var m := IndexOf(s, sep);
    PiecesStep(s, sep, save, n);
    if m < 0 {
    } else {
      NoLimit(s[m + |sep|..], sep, save, n - 1);
    }
  }

  lemma CountStep(s: seq<byte>, sep: seq<byte>)
    requires sep != [] && CountOf(s, sep) > 0
    ensures var m := IndexOf(s, sep); m >= 0 && CountOf(s[m + |sep|..], sep) == CountOf(s, sep) - 1
  {
    hide IndexOf;
  }

  /** The length of a text in which k separators are replaced. */
  lemma {:induction false} ReplacedLength(s: seq<byte>, target: seq<byte>, repl: seq<byte>, k: nat)
    requires target != [] && k <= CountOf(s, target)
    ensures |JoinOf(Pieces(s, target, 0, k + 1), repl)| == |s| + k * (|repl| - |target|)
    decreases |s|
  {
    hide IndexOf, Pieces, JoinOf, CountOf;
    PiecesStep(s, target, 0, k + 1);
    if k == 0 {
      JoinFew([s], repl);
    } else {
      CountStep(s, target);
      var m := IndexOf(s, target);
      var rest := s[m + |target|..];
      ReplacedLength(rest, target, repl, k - 1);
      JoinFirst(s[..m], Pieces(rest, target, 0, k), repl);
      Distribute(k, |repl| - |target|);
    }
  }

  lemma Distribute(k: nat, d: int)
    requires k > 0
    ensures k * d == (k - 1) * d + d
  {
  }

  /** new before the first rune and after each of the first n - 1 runes. */
  function Interleaved(s: seq<byte>, repl: seq<byte>, n: nat): seq<byte>
    requires n >= 1
    decreases n
  {
    if n == 1 || s == [] then repl + s
    else repl + s[..DecodeRune(s).w] + Interleaved(s[DecodeRune(s).w..], repl, n - 1)
  }

  lemma {:induction false} InterleavedLength(s: seq<byte>, repl: seq<byte>, n: nat)
    requires 1 <= n <= |Runes(s)| + 1
    ensures |Interleaved(s, repl, n)| == |s| + n * |repl|
    decreases n
  {
    hide DecodeRune;
    if n <= 1 {
    } else {
      InterleavedLength(s[DecodeRune(s).w..], repl, n - 1);
      Distribute(n, |repl|);
    }
  }

  /** Replacing nothing, without a limit: new around every rune. */
  lemma {:induction false} InterleavedJoin(s: seq<byte>, repl: seq<byte>)
    ensures Interleaved(s, repl, |Runes(s)| + 1) == repl + JoinOf(RunePieces(s, |s|) + [[]], repl)
    decreases |s|
  {
    hide DecodeRune;
    if s == [] {
      assert RunePieces(s, 0) + [[]] == [[]];
    } else {
      var w := DecodeRune(s).w;
      var rest := s[w..];
      InterleavedJoin(rest, repl);
      var ps := RunePieces(s, |s|) + [[]];
      RunePiecesStep(s);
      assert ps[1..] == RunePieces(rest, |rest|) + [[]] && ps[0] == s[..w];
      JoinFew(ps, repl);
      InterleavedMore(s, repl);
      hide JoinOf, Interleaved, Runes, RunePieces;
      assert repl + s[..w] + (repl + JoinOf(ps[1..], repl)) == repl + (s[..w] + repl + JoinOf(ps[1..], repl));
    }
  }

  lemma InterleavedMore(s: seq<byte>, repl: seq<byte>)
    requires s != []
    ensures var w := DecodeRune(s).w;
      Interleaved(s, repl, |Runes(s)| + 1) == repl + s[..w] + Interleaved(s[w..], repl, |Runes(s[w..])| + 1)
  {
    hide DecodeRune;
  }

  lemma RunePiecesStep(s: seq<byte>)
    requires s != []
    ensures var w := DecodeRune(s).w; RunePieces(s, |s|) == [s[..w]] + RunePieces(s[w..], |s[w..]|)
  {
    hide DecodeRune, RunePieces;
    var w := DecodeRune(s).w;
    RunesEnough(s, |s|, |s| + 1);
    RunePiecesMore(s, |s| + 1);
    RunesEnough(s[w..], |s|, |s| - w);
  }

  lemma RunePiecesMore(s: seq<byte>, n: nat)
    requires s != [] && n > 1
    ensures var w := DecodeRune(s).w; RunePieces(s, n) == [s[..w]] + RunePieces(s[w..], n - 1)
  {
    hide DecodeRune;
  }

  lemma {:induction false} RunesEnough(s: seq<byte>, n: nat, m: nat)
    requires n >= |s| && m >= |s|
    ensures RunePieces(s, n) == RunePieces(s, m)
    decreases |s|
  {
    hide DecodeRune;
    if s == [] {
    } else {
      var w := DecodeRune(s).w;
      if n > 1 && m > 1 { RunesEnough(s[w..], n - 1, m - 1); }
      else { assert |s| == 1; assert s[..w] == s && s[w..] == []; }
    }
  }

  /** What Replace returns for any arguments. */
  function ReplaceOf(s: seq<byte>, target: seq<byte>, repl: seq<byte>, n: int): seq<byte> {
    var m := if target == [] then |Runes(s)| + 1 else CountOf(s, target);
    var k := if n < 0 || m < n then m else n;
    if k == 0 then s
    else if target == [] then Interleaved(s, repl, k)
    else JoinOf(Pieces(s, target, 0, k + 1), repl)
  }

  /** Replacing all is splitting and joining with the new separator. */
  lemma ReplaceAllIsSplitJoin(s: seq<byte>, target: seq<byte>, repl: seq<byte>)
    requires target != []
    ensures ReplaceOf(s, target, repl, -1) == JoinOf(AllPieces(s, target, 0), repl)
  {
    NoLimit(s, target, 0, CountOf(s, target) + 1);
    hide IndexOf;
  }

  // ---- the operations ----

  /** Count. */
  method Count(s: seq<byte>, sep: seq<byte>, arch: Arch) returns (n: nat)
    ensures n == if sep == [] then |Runes(s)| + 1 else CountOf(s, sep)
  {
    hide IndexOf, Runes;
    if |sep| == 0 { return |Runes(s)| + 1; }
    if |sep| == 1 { return CountOf(s, sep); }
    n := 0;
    var rest := s;
    while true
      invariant CountOf(s, sep) == n + CountOf(rest, sep)
      decreases |rest|
    {
      var i := Index(rest, sep, arch);
      if i == -1 { return; }
      n := n + 1;
      rest := rest[i + |sep|..];
    }
  }

  /** explode. */
  method Explode(s: seq<byte>, limit: int) returns (p: seq<seq<byte>>)
    ensures p == RunePieces(s, if limit <= 0 || limit > |s| then |s| else limit)
  {
    hide DecodeRune, RunePieces;
    var n := if limit <= 0 || limit > |s| then |s| else limit;
    var a := new seq<byte>[n](_ => []);
    var na, rest := 0, s;
    while |rest| > 0
      invariant na <= n && (rest != [] ==> na < n)
      invariant a[..na] + RunePieces(rest, n - na) == RunePieces(s, n)
      decreases |rest|
    {
      ghost var done := a[..na];
      if na + 1 >= n {
        RunePiecesRest(rest, n - na);
        a[na] := rest;
        na := na + 1;
        assert a[..na] == done + [rest];
        return a[..na];
      }
      var size := DecodeRune(rest).w;
      RunePiecesMore(rest, n - na);
      a[na] := rest[..size];
      Shift(done, rest[..size], RunePieces(rest[size..], n - na - 1));
      rest := rest[size..];
      na := na + 1;
      assert a[..na] == done + [a[na - 1]];
    }
    NoRunePieces(n - na);
    return a[..na];
  }

  /** genSplit. */
  method GenSplit(s0: seq<byte>, sep: seq<byte>, sepSave: nat, limit: int, arch: Arch) returns (p: seq<seq<byte>>)
    requires sepSave <= |sep|
    ensures p == SplitOf(s0, sep, sepSave, limit)
  {
    hide IndexOf, RunePieces, Pieces, AllPieces, CountOf;
    if limit == 0 { return []; }
    if |sep| == 0 {
      p := Explode(s0, limit);
      return;
    }
    var n := limit;
    if n < 0 {
      n := Count(s0, sep, arch);
      n := n + 1;
      NoLimit(s0, sep, sepSave, n);
    }
    CountBound(s0, sep);
    if n > |s0| + 1 {
      NoLimit(s0, sep, sepSave, n);
      n := |s0| + 1;
      NoLimit(s0, sep, sepSave, n);
    }
    p := Fill(s0, sep, sepSave, n, arch);
  }

  /** The loop of genSplit, over a slice of n pieces. */
  method Fill(s0: seq<byte>, sep: seq<byte>, sepSave: nat, n0: nat, arch: Arch) returns (p: seq<seq<byte>>)
    requires sep != [] && sepSave <= |sep| && n0 >= 1
    ensures p == Pieces(s0, sep, sepSave, n0)
  {
    hide IndexOf, Pieces;
    var a := new seq<byte>[n0](_ => []);
    var n, i, s := n0 - 1, 0, s0;
    while i < n
      invariant i <= n && a[..i] + Pieces(s, sep, sepSave, n - i + 1) == Pieces(s0, sep, sepSave, n0)
    {
      ghost var done := a[..i];
      var m := Index(s, sep, arch);
      if m < 0 { break; }
      PiecesMore(s, sep, sepSave, n - i + 1);
      a[i] := s[..m + sepSave];
      Shift(done, s[..m + sepSave], Pieces(s[m + |sep|..], sep, sepSave, n - i));
      s := s[m + |sep|..];
      i := i + 1;
      assert a[..i] == done + [a[i - 1]];
    }
    PiecesLast(s, sep, sepSave, n - i + 1);
    ghost var done := a[..i];
    a[i] := s;
    assert a[..i + 1] == done + [s];
    return a[..i + 1];
  }

  lemma PiecesMore(s: seq<byte>, sep: seq<byte>, save: nat, n: nat)
    requires sep != [] && save <= |sep| && n > 1 && IndexOf(s, sep) >= 0
    ensures var m := IndexOf(s, sep); Pieces(s, sep, save, n) == [s[..m + save]] + Pieces(s[m + |sep|..], sep, save, n - 1)
  {
    hide IndexOf;
  }

  lemma PiecesLast(s: seq<byte>, sep: seq<byte>, save: nat, n: nat)
    requires sep != [] && save <= |sep| && (n <= 1 || IndexOf(s, sep) < 0)
    ensures Pieces(s, sep, save, n) == [s]
  {
    hide IndexOf;
  }

  /** splitSeq, consumed by a loop that stops after take pieces. */
  method SplitSeq(s: seq<byte>, sep: seq<byte>, sepSave: nat, take: nat, arch: Arch) returns (yielded: seq<seq<byte>>)
    requires sepSave <= |sep| && take >= 1
    ensures var all := SplitOf(s, sep, sepSave, -1); yielded <= all && |yielded| == if take < |all| then take else |all|
  {
    if |sep| == 0 { yielded := RuneSeq(s, take); } else { yielded := PieceSeq(s, sep, sepSave, take, arch); }
  }

  function First(all: seq<seq<byte>>, take: nat): seq<seq<byte>> {
    if take < |all| then all[..take] else all
  }

  /** The loop of splitSeq for an empty separator. */
  method RuneSeq(s0: seq<byte>, take: nat) returns (yielded: seq<seq<byte>>)
    requires take >= 1
    ensures yielded == First(RunePieces(s0, |s0|), take)
  {
    hide DecodeRune, RunePieces;
    yielded := [];
    var s := s0;
    ghost var all := RunePieces(s0, |s0|);
    while |s| > 0
      invariant yielded + RunePieces(s, |s|) == all && |yielded| < take
      decreases |s|
    {
      var size := DecodeRune(s).w;
      RunePiecesStep(s);
      Shift(yielded, s[..size], RunePieces(s[size..], |s[size..]|));
      yielded := yielded + [s[..size]];
      s := s[size..];
      if |yielded| >= take {
        Cut(all, yielded, RunePieces(s, |s|));
        return;
      }
    }
    NoRunePieces(0);
    Cut(all, yielded, []);
  }

  /** The loop of splitSeq for any other. */
  method PieceSeq(s0: seq<byte>, sep: seq<byte>, sepSave: nat, take: nat, arch: Arch) returns (yielded: seq<seq<byte>>)
    requires sep != [] && sepSave <= |sep| && take >= 1
    ensures yielded == First(AllPieces(s0, sep, sepSave), take)
  {
    hide IndexOf, AllPieces;
    yielded := [];
    var s := s0;
    ghost var all := AllPieces(s0, sep, sepSave);
    while true
      invariant yielded + AllPieces(s, sep, sepSave) == all && |yielded| < take
      decreases |s|
    {
      var i := Index(s, sep, arch);
      AllPiecesStep(s, sep, sepSave);
      if i < 0 { break; }
      ghost var rest := s[i + |sep|..];
      Shift(yielded, s[..i + sepSave], AllPieces(rest, sep, sepSave));
      yielded := yielded + [s[..i + sepSave]];
      s := s[i + |sep|..];
      if |yielded| >= take {
        Cut(all, yielded, AllPieces(s, sep, sepSave));
        return;
      }
    }
    yielded := yielded + [s];
    Cut(all, yielded, []);
  }

  lemma Shift(front: seq<seq<byte>>, p: seq<byte>, rest: seq<seq<byte>>)
    ensures front + ([p] + rest) == (front + [p]) + rest
  {
  }

  lemma NoRunePieces(n: nat)
    ensures RunePieces([], n) == []
  {
  }

  lemma RunePiecesRest(s: seq<byte>, n: nat)
    requires s != [] && n <= 1
    ensures RunePieces(s, n) == [s]
  {
  }

  lemma AllPiecesStep(s: seq<byte>, sep: seq<byte>, save: nat)
    requires sep != [] && save <= |sep|
    ensures var m := IndexOf(s, sep);
      AllPieces(s, sep, save) == if m < 0 then [s] else [s[..m + save]] + AllPieces(s[m + |sep|..], sep, save)
  {
    hide IndexOf;
  }

  lemma Cut(all: seq<seq<byte>>, front: seq<seq<byte>>, rest: seq<seq<byte>>)
    requires front + rest == all
    ensures all[..|front|] == front && (rest == [] ==> front == all)
  {
  }

  // ---- joining and replacing ----

  function TotalLength(ps: seq<seq<byte>>): nat {
    if ps == [] then 0 else |ps[0]| + TotalLength(ps[1..])
  }

  lemma {:induction false} JoinLength(ps: seq<seq<byte>>, sep: seq<byte>)
    requires ps != []
    ensures |JoinOf(ps, sep)| == TotalLength(ps) + |sep| * (|ps| - 1)
  {
    if |ps| <= 1 {
    } else {
      JoinLength(ps[1..], sep);
      Distribute(|ps| - 1, |sep|);
    }
  }

  /** Join panics if the length overflows, and for a separator of the length of that one quotient,
      where it need not overflow. */
  predicate JoinPanics(ps: seq<seq<byte>>, sep: seq<byte>) {
    |ps| > 1 && (|JoinOf(ps, sep)| > Bits.MAX_INT || (sep != [] && |sep| == Bits.MAX_INT / (|ps| - 1)))
  }

  /** Join. */
  method Join(ps: seq<seq<byte>>, sep: seq<byte>) returns (r: seq<byte>, panics: bool)
    ensures !panics ==> r == JoinOf(ps, sep)
    ensures panics <==> JoinPanics(ps, sep)
  {
    hide JoinOf;
    if |ps| == 0 { JoinFew(ps, sep); return [], false; }
    if |ps| == 1 { JoinFew(ps, sep); return ps[0], false; }
    var n;
    n, panics := JoinSize(ps, sep);
    if panics { return [], true; }
    var b := new byte[n](_ => 0);
    r := JoinInto(b, ps, sep);
  }

  lemma JoinFew(ps: seq<seq<byte>>, sep: seq<byte>)
    ensures |ps| == 0 ==> JoinOf(ps, sep) == []
    ensures |ps| == 1 ==> JoinOf(ps, sep) == ps[0]
    ensures |ps| > 1 ==> JoinOf(ps, sep) == ps[0] + sep + JoinOf(ps[1..], sep)
  {
  }

  lemma Quotient(x: nat, k: nat)
    requires k > 0
    ensures x == 0 ==> x * k == 0
    ensures x <= Bits.MAX_INT / k ==> x * k <= Bits.MAX_INT
    ensures x > Bits.MAX_INT / k ==> x * k > Bits.MAX_INT
  {
    var q, r := Bits.MAX_INT / k, Bits.MAX_INT % k;
    assert Bits.MAX_INT == q * k + r;
    if x <= q { Times(x, q, k); } else { Times(q + 1, x, k); Distribute(q + 1, k); }
  }

  lemma Times(x: nat, y: nat, k: nat)
    requires x <= y
    ensures x * k <= y * k
  {
  }

  /** The two tests that Join makes, the first of them before any length has been added. */
  lemma PanicsExactly(ps: seq<seq<byte>>, sep: seq<byte>)
    requires |ps| > 1
    ensures JoinPanics(ps, sep) <==> |JoinOf(ps, sep)| > Bits.MAX_INT || (sep != [] && |sep| >= Bits.MAX_INT / (|ps| - 1))
  {
    hide JoinOf;
    JoinLength(ps, sep);
    Quotient(|sep|, |ps| - 1);
  }

  /** Two empty pieces around a separator of the greatest length: the result would fit. */
  lemma PanicsEarly(sep: seq<byte>)
    requires |sep| == Bits.MAX_INT
    ensures JoinPanics([[], []], sep) && |JoinOf([[], []], sep)| == Bits.MAX_INT
  {
    var ps: seq<seq<byte>> := [[], []];
    assert ps[1..] == [[]] && JoinOf(ps[1..], sep) == [] && JoinOf(ps, sep) == [] + sep + [] == sep;
    PanicsExactly(ps, sep);
  }

  /** The first pass of Join. */
  method JoinSize(ps: seq<seq<byte>>, sep: seq<byte>) returns (n: nat, panics: bool)
    requires |ps| > 1
    ensures !panics ==> n == |JoinOf(ps, sep)|
    ensures panics <==> JoinPanics(ps, sep)
  {
    hide JoinOf;
    JoinLength(ps, sep);
    Quotient(|sep|, |ps| - 1);
    PanicsExactly(ps, sep);
    ghost var total, sepsLen := |JoinOf(ps, sep)|, |sep| * (|ps| - 1);
    n, panics := 0, false;
    if |sep| > 0 {
      if |sep| >= Bits.MAX_INT / (|ps| - 1) { return 0, true; }
      n := |sep| * (|ps| - 1);
    }
    var i := 0;
    assert ps[0..] == ps;
    while i < |ps|
      invariant 0 <= i <= |ps| && n + TotalLength(ps[i..]) == total && n <= Bits.MAX_INT
    {
      var v := ps[i];
      assert ps[i..][1..] == ps[i + 1..];
      if |v| > Bits.MAX_INT - n { return 0, true; }
      n := n + |v|;
      i := i + 1;
    }
  }

  method PutTwo(to: array<byte>, w: nat, a: seq<byte>, b: seq<byte>) returns (w1: nat)
    requires w + |a| + |b| <= to.Length
    modifies to
    ensures w1 == w + |a| + |b| && to[..w1] == old(to[..w]) + a + b
  {
    var m := Put(to, w, a);
    w1 := w + m;
    m := Put(to, w1, b);
    w1 := w1 + m;
  }

  /** The second pass of Join: the buffer is filled exactly. */
  method JoinInto(b: array<byte>, ps: seq<seq<byte>>, sep: seq<byte>) returns (r: seq<byte>)
    requires |ps| > 1 && b.Length == |JoinOf(ps, sep)|
    modifies b
    ensures r == JoinOf(ps, sep)
  {
    hide JoinOf;
    JoinFew(ps, sep);
    var bp := Put(b, 0, ps[0]);
    ghost var done := ps[0];
    assert b[..bp] == [] + done == done;
    var i := 1;
    ghost var all := JoinOf(ps, sep);
    while i < |ps|
      invariant 1 <= i <= |ps| && bp == |done| <= b.Length && b[..bp] == done
      invariant all == done + if i < |ps| then sep + JoinOf(ps[i..], sep) else []
    {
      JoinFew(ps[i..], sep);
      assert ps[i..][1..] == ps[i + 1..];
      ghost var tail := if i + 1 < |ps| then sep + JoinOf(ps[i + 1..], sep) else [];
      JoinGroup(done, sep, ps[i], tail);
      bp := PutTwo(b, bp, sep, ps[i]);
      done := done + sep + ps[i];
      i := i + 1;
    }
    assert b[..bp] == b[..];
    return b[..];
  }

  lemma JoinGroup(a: seq<byte>, b: seq<byte>, c: seq<byte>, d: seq<byte>)
    ensures a + (b + (c + d)) == (a + b + c) + d && c + [] == c
  {
  }

  /** Replace: the preallocated buffer is filled exactly. */
  method Replace(s: seq<byte>, target: seq<byte>, repl: seq<byte>, limit: int, arch: Arch) returns (r: seq<byte>)
    ensures r == ReplaceOf(s, target, repl, limit)
  {
    hide IndexOf, Runes, CountOf, Pieces, JoinOf, Interleaved;
    var m := 0;
    if limit != 0 { m := Count(s, target, arch); }
    if m == 0 { return s; }
    var n := if limit < 0 || m < limit then m else limit;
    if |target| > 0 {
      ReplacedLength(s, target, repl, n);
      var t := new byte[|s| + n * (|repl| - |target|)](_ => 0);
      r := ReplaceInto(t, s, target, repl, n, arch);
    } else {
      InterleavedLength(s, repl, n);
      var t := new byte[|s| + n * (|repl| - |target|)](_ => 0);
      r := InterleaveInto(t, s, repl, n);
    }
  }

  lemma ReplaceStep(rest: seq<byte>, target: seq<byte>, repl: seq<byte>, q: nat)
    requires target != [] && 1 <= q <= CountOf(rest, target)
    ensures var m := IndexOf(rest, target);
      && m >= 0 && CountOf(rest[m + |target|..], target) >= q - 1
      && JoinOf(Pieces(rest, target, 0, q + 1), repl) == rest[..m] + repl + JoinOf(Pieces(rest[m + |target|..], target, 0, q), repl)
  {
    hide IndexOf;
    var m := IndexOf(rest, target);
    var ps := Pieces(rest, target, 0, q + 1);
    assert ps[1..] == Pieces(rest[m + |target|..], target, 0, q) && ps[0] == rest[..m];
  }

  /** The loop over the n first instances of old. */
  method ReplaceInto(t: array<byte>, s: seq<byte>, target: seq<byte>, repl: seq<byte>, n: nat, arch: Arch) returns (r: seq<byte>)
    requires target != [] && n <= CountOf(s, target) && t.Length == |JoinOf(Pieces(s, target, 0, n + 1), repl)|
    modifies t
    ensures r == JoinOf(Pieces(s, target, 0, n + 1), repl)
  {
    hide IndexOf, CountOf, Pieces, JoinOf;
    ghost var all, done := JoinOf(Pieces(s, target, 0, n + 1), repl), [];
    var w: nat, start: nat, k: nat := 0, 0, 0;
    assert s[0..] == s && t[..0] == [];
    while k < n
      invariant k <= n && start <= |s| && CountOf(s[start..], target) >= n - k
      invariant w == |done| <= t.Length && t[..w] == done
      invariant all == done + JoinOf(Pieces(s[start..], target, 0, n - k + 1), repl)
    {
      var i := Index(s[start..], target, arch);
      var j := start + i;
      ReplaceStep(s[start..], target, repl, n - k);
      assert s[start..][..i] == s[start..j];
      DropTwice(s, start, i + |target|);
      JoinGroup(done, s[start..j], repl, JoinOf(Pieces(s[j + |target|..], target, 0, n - k), repl));
      JoinGroup2(done, s[start..j], repl, JoinOf(Pieces(s[j + |target|..], target, 0, n - k), repl));
      w := PutTwo(t, w, s[start..j], repl);
      done := done + s[start..j] + repl;
      start := j + |target|;
      k := k + 1;
    }
    OnePiece(s[start..], target, repl);
    var m := Put(t, w, s[start..]);
    w := w + m;
    assert w == t.Length && t[..w] == all;
    return t[..w];
  }

  lemma OnePiece(s: seq<byte>, target: seq<byte>, repl: seq<byte>)
    requires target != []
    ensures JoinOf(Pieces(s, target, 0, 1), repl) == s
  {
  }

  lemma JoinGroup2(a: seq<byte>, b: seq<byte>, c: seq<byte>, d: seq<byte>)
    ensures a + (b + c + d) == (a + b + c) + d
  {
  }

  /** The loop for an empty old. */
  method InterleaveInto(t: array<byte>, s: seq<byte>, repl: seq<byte>, n: nat) returns (r: seq<byte>)
    requires 1 <= n <= |Runes(s)| + 1 && t.Length == |Interleaved(s, repl, n)|
    modifies t
    ensures r == Interleaved(s, repl, n)
  {
    hide DecodeRune, Runes, Interleaved;
    hide AfterNew;
    ghost var all := Interleaved(s, repl, n);
    InterleavedStart(s, repl, n);
    var w := Put(t, 0, repl);
    ghost var done := repl;
    assert t[..w] == [] + done == done;
    var start: nat, k: nat := 0, 1;
    assert s[0..] == s;
    while k < n
      invariant 1 <= k <= n && start <= |s| && |Runes(s[start..])| >= n - k
      invariant w == |done| <= t.Length && t[..w] == done
      invariant all == done + AfterNew(s[start..], repl, n - k + 1)
    {
      InterleavedStep(s[start..], repl, n - k + 1);
      var wid := DecodeRune(s[start..]).w;
      var j := start + wid;
      DropTwice(s, start, wid);
      assert s[start..][..wid] == s[start..j];
      JoinGroup2(done, s[start..j], repl, AfterNew(s[j..], repl, n - k));
      w := PutTwo(t, w, s[start..j], repl);
      done := done + s[start..j] + repl;
      start := j;
      k := k + 1;
    }
    NothingAfter(s[start..], repl);
    var m := Put(t, w, s[start..]);
    w := w + m;
    assert w == t.Length && t[..w] == all;
    return t[..w];
  }

  lemma NothingAfter(s: seq<byte>, repl: seq<byte>)
    ensures AfterNew(s, repl, 1) == s
  {
  }

  /** What follows the first new. */
  function AfterNew(s: seq<byte>, repl: seq<byte>, n: nat): seq<byte>
    requires n >= 1
  {
    if n == 1 || s == [] then s else s[..DecodeRune(s).w] + Interleaved(s[DecodeRune(s).w..], repl, n - 1)
  }

  lemma InterleavedStart(s: seq<byte>, repl: seq<byte>, n: nat)
    requires n >= 1
    ensures Interleaved(s, repl, n) == repl + AfterNew(s, repl, n)
  {
    hide DecodeRune;
    if n > 1 && s != [] { Assoc(repl, s[..DecodeRune(s).w], Interleaved(s[DecodeRune(s).w..], repl, n - 1)); }
  }

  lemma InterleavedStep(s: seq<byte>, repl: seq<byte>, n: nat)
    requires n > 1 && |Runes(s)| >= n - 1
    ensures s != [] && |Runes(s[DecodeRune(s).w..])| >= n - 2
    ensures AfterNew(s, repl, n) == s[..DecodeRune(s).w] + repl + AfterNew(s[DecodeRune(s).w..], repl, n - 1)
  {
    hide DecodeRune, Interleaved;
    InterleavedStart(s[DecodeRune(s).w..], repl, n - 1);
    assert s != [] && |Runes(s)| == 1 + |Runes(s[DecodeRune(s).w..])|;
  }
}
