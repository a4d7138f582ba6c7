/** How many pieces splitting gives and where it cuts, and what replacing does one match at a time,
    for every limit. */
module SplitLaws {
  import opened Arrays
  import opened Utf8
  import opened Search
  import opened SplitJoin

  function Min(a: nat, b: nat): nat { if a < b then a else b }

  /** How many separators a limit of n pieces leaves to cut at; a negative limit is none. */
  function Cuts(s: seq<byte>, sep: seq<byte>, n: int): nat
    requires sep != [] && n != 0
  {
    if n < 0 then CountOf(s, sep) else Min(n - 1, CountOf(s, sep))
  }

  /** What p is followed by is the first sep. */
  predicate EndsAtFirst(p: seq<byte>, sep: seq<byte>) { IndexOf(p + sep, sep) == |p| }

  // ---- splitting ----

  lemma FirstEnds(s: seq<byte>, sep: seq<byte>)
    requires sep != [] && IndexOf(s, sep) >= 0
    ensures EndsAtFirst(s[..IndexOf(s, sep)], sep)
  {
    IndexOfLeast(s, sep);
    hide IndexOf;
    var m := IndexOf(s, sep);
    var p := s[..m] + sep;
    assert p == s[..m + |sep|];
    assert p[m..m + |sep|] == sep;
    forall i | 0 <= i < m ensures !MatchAt(p, sep, i) {
      assert !MatchAt(s, sep, i) && p[i..i + |sep|] == s[i..i + |sep|];
    }
    IndexUnique(p, sep, m);
  }

  /** The pieces of ps before the last, without the saved bytes, are qs, and each ends at the first
      separator; the last pieces agree. */
  predicate CutAtFirst(ps: seq<seq<byte>>, qs: seq<seq<byte>>, sep: seq<byte>, save: nat)
    requires save <= |sep|
  {
    |ps| == |qs| > 0 && ps[|ps| - 1] == qs[|qs| - 1]
    && forall i | 0 <= i < |ps| - 1 :: ps[i] == qs[i] + sep[..save] && EndsAtFirst(qs[i], sep)
  }

  lemma {:induction false} PiecesCut(s: seq<byte>, sep: seq<byte>, save: nat, n: nat)
    requires sep != [] && save <= |sep| && n >= 1
    ensures CutAtFirst(Pieces(s, sep, save, n), Pieces(s, sep, 0, n), sep, save)
    ensures var ps := Pieces(s, sep, save, n);
      |ps| == Min(n - 1, CountOf(s, sep)) + 1 && (CountOf(s, sep) < n ==> IndexOf(ps[|ps| - 1], sep) == -1)
    decreases |s|
  {
    hide IndexOf, Pieces, CountOf, EndsAtFirst, CutAtFirst;
    var m := IndexOf(s, sep);
    PiecesStep(s, sep, save, n);
    PiecesStep(s, sep, 0, n);
    CountCase(s, sep);
    if n == 1 || m < 0 {
      LastCut(s, sep, save);
    } else {
      var rest := s[m + |sep|..];
      PiecesCut(rest, sep, save, n - 1);
      FirstEnds(s, sep);
      SavedBytes(s, sep, save);
      FirstCut(s[..m + save], s[..m + 0], Pieces(rest, sep, save, n - 1), Pieces(rest, sep, 0, n - 1), sep, save);
    }
  }

  lemma LastCut(s: seq<byte>, sep: seq<byte>, save: nat)
    requires save <= |sep|
    ensures CutAtFirst([s], [s], sep, save)
  {
  }

  lemma FirstCut(p: seq<byte>, q: seq<byte>, ps: seq<seq<byte>>, qs: seq<seq<byte>>, sep: seq<byte>, save: nat)
    requires save <= |sep| && CutAtFirst(ps, qs, sep, save) && p == q + sep[..save] && EndsAtFirst(q, sep)
    ensures CutAtFirst([p] + ps, [q] + qs, sep, save)
  {
    hide EndsAtFirst;
  }

  lemma CountCase(s: seq<byte>, sep: seq<byte>)
    requires sep != []
    ensures var m := IndexOf(s, sep);
      if m < 0 then m == -1 && CountOf(s, sep) == 0 else CountOf(s, sep) == 1 + CountOf(s[m + |sep|..], sep)
  {
    IndexOfLeast(s, sep);
    hide IndexOf;
  }

  lemma SavedBytes(s: seq<byte>, sep: seq<byte>, save: nat)
    requires IndexOf(s, sep) >= 0 && save <= |sep|
    ensures var m := IndexOf(s, sep); s[..m + save] == s[..m + 0] + sep[..save]
  {
    IndexOfLeast(s, sep);
    hide IndexOf;
    var m := IndexOf(s, sep);
    assert s[m..m + |sep|] == sep && sep[..save] == s[m..m + save];
  }

  /** Split, SplitN, SplitAfter and SplitAfterN with a separator: one piece more than there are cuts,
      each cut at the first separator there is (which stays with the piece before it as far as it is
      saved), the last piece with no separator unless the limit was reached; and together with the
      separators the pieces are the text. A limit of 0 gives no pieces. */
  lemma SplitCuts(s: seq<byte>, sep: seq<byte>, save: nat, n: int)
    requires sep != [] && save <= |sep|
    ensures SplitOf(s, sep, save, 0) == []
    ensures n != 0 ==>
      var ps, qs := SplitOf(s, sep, save, n), SplitOf(s, sep, 0, n);
      |ps| == Cuts(s, sep, n) + 1 && CutAtFirst(ps, qs, sep, save) && JoinOf(qs, sep) == s
      && (n < 0 || CountOf(s, sep) < n ==> IndexOf(ps[|ps| - 1], sep) == -1)
  {
    hide IndexOf, Pieces, AllPieces, CountOf, CutAtFirst, JoinOf;
    if n != 0 {
      var k := if n < 0 then CountOf(s, sep) + 1 else n;
      if n < 0 {
        NoLimit(s, sep, save, k);
        NoLimit(s, sep, 0, k);
      }
      PiecesCut(s, sep, save, k);
      JoinPieces(s, sep, k);
    }
  }

  /** A first rune is the same without what follows it. */
  lemma FirstRuneAlone(s: seq<byte>)
    requires s != []
    ensures Runes(s[..DecodeRune(s).w]) == [DecodeRune(s).r]
  {
    var t := s[..DecodeRune(s).w];
    assert DecodeRune(t) == DecodeRune(s);
    hide DecodeRune;
    assert t[|t|..] == [];
  }

  lemma {:induction false} RunePiecesCut(s: seq<byte>, n: nat)
    requires n >= 1
    ensures var ps := RunePieces(s, n);
      |ps| == Min(n, |Runes(s)|)
      && forall i | 0 <= i < |ps| && (i + 1 < |ps| || |Runes(s)| <= n) :: Runes(ps[i]) == [Runes(s)[i]]
    decreases |s|
  {
    hide DecodeRune;
    if s == [] {
    } else {
      var w := DecodeRune(s).w;
      FirstRuneAlone(s);
      RunesFrom(s);
      if n == 1 {
        if s[w..] == [] { assert s[..w] == s; } else { RunesFrom(s[w..]); }
      } else {
        RunePiecesCut(s[w..], n - 1);
      }
    }
  }

  lemma RunesFrom(s: seq<byte>)
    requires s != []
    ensures Runes(s) == [DecodeRune(s).r] + Runes(s[DecodeRune(s).w..])
  {
    hide DecodeRune;
  }

  lemma {:induction false} RunesFewer(s: seq<byte>)
    ensures |Runes(s)| <= |s|
    decreases |s|
  {
    hide DecodeRune;
    if s == [] {
    } else {
      RunesFewer(s[DecodeRune(s).w..]);
    }
  }

  /** Without a separator: as many pieces as there are runes, but not more than the limit, each but
      the last of a limited split one rune; together they are the text. */
  lemma SplitRunesCut(s: seq<byte>, n: int)
    requires n != 0
    ensures var ps, k := SplitOf(s, [], 0, n), |Runes(s)|;
      |ps| == (if n < 0 then k else Min(n, k)) && JoinOf(ps, []) == s
      && forall i | 0 <= i < |ps| && (i + 1 < |ps| || n < 0 || k <= n) :: Runes(ps[i]) == [Runes(s)[i]]
  {
    hide DecodeRune, RunePieces, JoinOf, Runes;
    RunesFewer(s);
    var k := if n < 0 || n > |s| then |s| else n;
    JoinRunePieces(s, k);
    if s != [] { RunePiecesCut(s, k); } else { NoRunePieces(k); NoRunesIn(); }
  }

  lemma NoRunesIn()
    ensures Runes([]) == []
  {
  }

  // ---- replacing ----

  /** Replace works on the first match and then on what follows it, n times at most; a negative n is
      no limit. */
  lemma ReplaceFirst(s: seq<byte>, target: seq<byte>, repl: seq<byte>, n: int)
    requires target != []
    ensures var m := IndexOf(s, target);
      ReplaceOf(s, target, repl, n) ==
        if n == 0 || m < 0 then s else s[..m] + repl + ReplaceOf(s[m + |target|..], target, repl, n - 1)
  {
    hide IndexOf, Pieces, CountOf, JoinOf;
    CountCase(s, target);
    var m := IndexOf(s, target);
    if n != 0 && m >= 0 {
      var rest := s[m + |target|..];
      var q := if n < 0 || CountOf(s, target) < n then CountOf(s, target) else n;
      PiecesStep(s, target, 0, q + 1);
      JoinFirst(s[..m], Pieces(rest, target, 0, q), repl);
      if q == 1 { OnePiece(rest, target, repl); }
    }
  }

  /** For an empty old text: new, then one rune, then the rest likewise with one replacement less. */
  lemma ReplaceNothing(s: seq<byte>, repl: seq<byte>, n: int)
    ensures ReplaceOf(s, [], repl, n) ==
      if n == 0 then s
      else if n == 1 || s == [] then repl + s
      else repl + s[..DecodeRune(s).w] + ReplaceOf(s[DecodeRune(s).w..], [], repl, n - 1)
  {
    hide DecodeRune;
    if s != [] { RunesFrom(s); } else { NoRunesIn(); }
    hide Runes;
  }

  /** How many replacements there are. */
  lemma ReplaceLength(s: seq<byte>, target: seq<byte>, repl: seq<byte>, n: int)
    ensures var all := if target == [] then |Runes(s)| + 1 else CountOf(s, target);
      var k := if n < 0 then all else Min(n, all);
      |ReplaceOf(s, target, repl, n)| == |s| + k * (|repl| - |target|)
  {
    hide IndexOf, Pieces, CountOf, JoinOf, Runes, Interleaved;
    var all := if target == [] then |Runes(s)| + 1 else CountOf(s, target);
    var k := if n < 0 then all else Min(n, all);
    if k > 0 {
      if target == [] { InterleavedLength(s, repl, k); } else { ReplacedLength(s, target, repl, k); }
    }
  }
}
