/** When a buffer of a given size is large enough for the tokens of an input. */
module SplitFits {
  import opened Arrays
  import opened Utf8
  import opened Split

  /** From every rune of s on, the next max bytes (if there are that many) let the split function
      get on. So no token with its terminator is longer than max. */
  predicate Fits(split: SplitFunc, s: seq<byte>, max: nat)
    decreases |s|
  {
    s == []
    || ((|s| >= max > 0 ==> SplitWith(split, s[..max], false).advance > 0) && Fits(split, s[DecodeRune(s).w..], max))
  }

  /** Decoding s from the start arrives at index a. */
  predicate Boundary(s: seq<byte>, a: nat)
    decreases |s|
  {
    a == 0 || (s != [] && DecodeRune(s).w <= a && Boundary(s[DecodeRune(s).w..], a - DecodeRune(s).w))
  }

  lemma {:induction false} FitsAfter(split: SplitFunc, s: seq<byte>, a: nat, max: nat)
    requires Fits(split, s, max) && Boundary(s, a) && a <= |s|
    ensures Fits(split, s[a..], max)
    decreases |s|
  {
    hide DecodeRune, SplitWith;
    if a == 0 {
      assert s[0..] == s;
    } else {
      var w := DecodeRune(s).w;
      FitsAfter(split, s[w..], a - w, max);
      DropTwice(s, w, a - w);
    }
  }

  lemma {:induction false} BoundaryTwice(s: seq<byte>, a: nat, b: nat)
    requires a <= |s| && Boundary(s, a) && Boundary(s[a..], b)
    ensures Boundary(s, a + b)
    decreases |s|
  {
    hide DecodeRune;
    if a == 0 {
      assert s[0..] == s;
    } else {
      var w := DecodeRune(s).w;
      DropTwice(s, w, a - w);
      BoundaryTwice(s[w..], a - w, b);
    }
  }

  /** An ASCII byte is a rune of its own. */
  lemma {:induction false} AsciiBoundary(s: seq<byte>, i: nat)
    requires i < |s| && s[i] < RUNE_SELF
    ensures Boundary(s, i) && Boundary(s, i + 1)
    decreases |s|
  {
    NotAcross(s, i);
    var w := DecodeRune(s).w;
    if i == 0 {
      assert w == 1;
      hide DecodeRune;
    } else {
      hide DecodeRune;
      assert s[w..][i - w] == s[i];
      AsciiBoundary(s[w..], i - w);
    }
  }

  /** A rune of several bytes holds no ASCII byte. */
  lemma NotAcross(s: seq<byte>, i: nat)
    requires i < |s| && s[i] < RUNE_SELF
    ensures i == 0 || DecodeRune(s).w <= i
  {
  }

  lemma {:induction false} SpacesBoundary(d: seq<byte>, e: seq<byte>)
    ensures Boundary(d + e, Spaces(d))
    decreases |d|
  {
    hide IsSpace, DecodeRune, FullRune;
    if d == [] || !IsSpace(DecodeRune(d).r) {
    } else {
      SpaceFull(d);
      DecodeStable(d, e);
      var w := DecodeRune(d).w;
      SpacesBoundary(d[w..], e);
      assert (d + e)[w..] == d[w..] + e;
    }
  }

  /** A word that ends inside d ends at a rune boundary, and so does the space after it. */
  lemma {:induction false} WordBoundary(d: seq<byte>, e: seq<byte>)
    requires Word(d) < |d|
    ensures Boundary(d + e, Word(d)) && Boundary(d + e, Word(d) + DecodeRune(d[Word(d)..]).w)
    decreases |d|
  {
    hide IsSpace, DecodeRune, FullRune;
    assert d[0..] == d;
    if FullRune(d) {
      DecodeStable(d, e);
      var w := DecodeRune(d).w;
      assert (d + e)[w..] == d[w..] + e;
      if !IsSpace(DecodeRune(d).r) {
        WordBoundary(d[w..], e);
        DropTwice(d, w, Word(d[w..]));
      }
    } else {
      WordPartial(d, 0);
      assert false;
    }
  }

  lemma WordsAdvance(d: seq<byte>, e: seq<byte>)
    ensures var a := SplitWords(d, false).advance; 0 <= a <= |d| && Boundary(d + e, a)
  {
    hide IsSpace, DecodeRune, FullRune, Word, Spaces, Boundary;
    var n := Spaces(d);
    SpacesBoundary(d, e);
    var rest := d[n..];
    if Word(rest) < |rest| {
      WordBoundary(rest, e);
      assert (d + e)[n..] == rest + e;
      BoundaryTwice(d + e, n, Word(rest) + DecodeRune(rest[Word(rest)..]).w);
    }
  }

  lemma RunesAdvance(d: seq<byte>, e: seq<byte>)
    requires d != []
    ensures var a := SplitRunes(d, false).advance; 0 <= a <= |d| && Boundary(d + e, a)
  {
    if FullRune(d) {
      DecodeStable(d, e);
      hide DecodeRune, FullRune;
      var w := DecodeRune(d).w;
      assert Boundary((d + e)[w..], 0);
    } else {
      DecodePartial(d, 0);
      assert d[0..] == d;
    }
  }

  lemma {:induction false} BytesFit(s: seq<byte>, max: nat)
    ensures Fits(ScanBytes, s, max)
    decreases |s|
  {
    hide DecodeRune;
    if s == [] {
    } else {
      BytesFit(s[DecodeRune(s).w..], max);
    }
  }

  /** What is left after a split still fits. */
  lemma FitsKept(split: SplitFunc, d: seq<byte>, e: seq<byte>, max: nat)
    requires !split.Custom? && d != [] && Fits(split, d + e, max)
    ensures var a := SplitWith(split, d, false).advance; 0 <= a <= |d| && Fits(split, (d + e)[a..], max)
  {
    hide Fits, Boundary, DecodeRune, SplitWords, SplitRunes;
    var a := SplitWith(split, d, false).advance;
    if split.ScanBytes? {
      BytesFit((d + e)[a..], max);
    } else {
      if split.ScanLines? {
        if Find(d, NL) < |d| { AsciiBoundary(d + e, Find(d, NL)); } else { assert Boundary(d + e, 0) by { ZeroBoundary(d + e); } }
      } else if split.ScanRunes? { RunesAdvance(d, e); } else { WordsAdvance(d, e); }
      FitsAfter(split, d + e, a, max);
    }
  }

  lemma ZeroBoundary(s: seq<byte>)
    ensures Boundary(s, 0)
  {
  }

  /** Every line of s, its '\n' not counted, is shorter than max. */
  predicate ShortLines(s: seq<byte>, max: nat)
    decreases |s|
  {
    Find(s, NL) < max && (Find(s, NL) < |s| ==> ShortLines(AfterLine(s), max))
  }

  /** For lines, fitting is exactly having no line of max bytes or more. */
  lemma LinesFit(s: seq<byte>, max: nat)
    requires max > 0
    ensures Fits(ScanLines, s, max) <==> ShortLines(s, max)
  {
    if ShortLines(s, max) { ShortFit(s, max); }
    if Fits(ScanLines, s, max) { FitShort(s, max); }
  }

  lemma {:induction false} FindDrop(s: seq<byte>, w: nat)
    requires w <= Find(s, NL)
    ensures Find(s[w..], NL) == Find(s, NL) - w
    decreases w
  {
    if w == 0 {
      assert s[0..] == s;
    } else {
      FindDrop(s[1..], w - 1);
      DropTwice(s, 1, w - 1);
    }
  }

  lemma LineFound(s: seq<byte>, max: nat)
    requires Find(s, NL) < max <= |s|
    ensures SplitLines(s[..max], false).advance > 0
  {
    assert s[..max][Find(s, NL)] == NL;
    hide DropCR;
  }

  lemma {:induction false} ShortFit(s: seq<byte>, max: nat)
    requires max > 0 && ShortLines(s, max)
    ensures Fits(ScanLines, s, max)
    decreases |s|
  {
    hide DecodeRune, Find, SplitLines, SplitWords, SplitRunes, ShortLines;
    if s == [] {
    } else {
      ShortStep(s, max);
      if |s| >= max { LineFound(s, max); }
      ShortDrop(s, max);
      ShortFit(s[DecodeRune(s).w..], max);
    }
  }

  lemma ShortStep(s: seq<byte>, max: nat)
    ensures ShortLines(s, max) <==> Find(s, NL) < max && (Find(s, NL) < |s| ==> ShortLines(AfterLine(s), max))
  {
    hide Find, AfterLine;
  }

  /** Past its first rune, a text still has short lines only. */
  lemma ShortDrop(s: seq<byte>, max: nat)
    requires s != [] && ShortLines(s, max)
    ensures ShortLines(s[DecodeRune(s).w..], max)
  {
    hide DecodeRune, Find, ShortLines;
    var w, i := DecodeRune(s).w, Find(s, NL);
    ShortStep(s, max);
    ShortStep(s[w..], max);
    if i < |s| { NotAcross(s, i); }
    if i >= w {
      FindDrop(s, w);
      if i < |s| { DropTwice(s, w, i - w + 1); }
    } else {
      NewlineWidth(s);
    }
  }

  lemma NewlineWidth(s: seq<byte>)
    requires s != [] && Find(s, NL) == 0
    ensures DecodeRune(s).w == 1
  {
  }

  lemma {:induction false} FitShort(s: seq<byte>, max: nat)
    requires max > 0 && Fits(ScanLines, s, max)
    ensures ShortLines(s, max)
    decreases |s|
  {
    hide Find, Fits, Boundary, ShortLines;
    var i := Find(s, NL);
    FirstShort(s, max);
    if i == |s| {
    } else {
      AsciiBoundary(s, i);
      FitsAfter(ScanLines, s, i + 1, max);
      FitShort(s[i + 1..], max);
    }
    ShortStep(s, max);
  }

  lemma FirstShort(s: seq<byte>, max: nat)
    requires max > 0 && Fits(ScanLines, s, max)
    ensures Find(s, NL) < max
  {
    hide DecodeRune, Find, SplitLines;
    if s != [] && Find(s, NL) >= max { NoneFound(s, max); }
  }

  lemma NoneFound(s: seq<byte>, max: nat)
    requires max <= Find(s, NL)
    ensures SplitLines(s[..max], false).advance == 0
  {
    hide DropCR;
    assert Find(s[..max], NL) == max;
  }

  /** From every rune of s on, what is left of the word there, with the white space that ends it,
      has at most max bytes; a last word that nothing ends is shorter than max. */
  predicate ShortWords(s: seq<byte>, max: nat)
    decreases |s|
  {
    s == [] || (ShortWord(s, max) && ShortWords(s[DecodeRune(s).w..], max))
  }

  predicate ShortWord(s: seq<byte>, max: nat) {
    var i := Word(s);
    if i < |s| then i + DecodeRune(s[i..]).w <= max else i < max
  }

  /** For words, fitting is exactly having no longer words. */
  lemma {:induction false} WordsFit(s: seq<byte>, max: nat)
    requires max > 0
    ensures Fits(ScanWords, s, max) <==> ShortWords(s, max)
    decreases |s|
  {
    hide DecodeRune, ShortWord, SplitWords;
    if s == [] {
    } else {
      WordsFit(s[DecodeRune(s).w..], max);
      if |s| >= max { WordWindow(s, max); } else { WordInside(s, max); }
    }
  }

  lemma WordInside(s: seq<byte>, max: nat)
    requires |s| < max
    ensures ShortWord(s, max)
  {
    hide DecodeRune, Word;
  }

  /** The first max bytes hold white space at the front, or the word and what ends it, exactly if
      the word is short. */
  lemma WordWindow(s: seq<byte>, max: nat)
    requires 0 < max <= |s|
    ensures SplitWords(s[..max], false).advance > 0 <==> ShortWord(s, max)
  {
    hide DecodeRune, IsSpace, Word, Spaces, FullRune;
    var d, e := s[..max], s[max..];
    assert d + e == s && d[0..] == d && s[0..] == s;
    var i := Word(s);
    if ShortWord(s, max) {
      WordPrefix(s, max);
      WindowFound(s, max);
    } else {
      WindowEmpty(d, e, max);
    }
  }

  lemma DecodePrefix(s: seq<byte>, m: nat)
    requires 1 <= m <= |s| && DecodeRune(s).w <= m
    ensures DecodeRune(s[..m]) == DecodeRune(s)
  {
  }

  lemma {:induction false} WordPrefix(s: seq<byte>, m: nat)
    requires m <= |s| && Word(s) < |s| && Word(s) + DecodeRune(s[Word(s)..]).w <= m
    ensures Word(s) < m && Word(s[..m]) == Word(s) && DecodeRune(s[..m][Word(s)..]) == DecodeRune(s[Word(s)..])
    ensures IsSpace(DecodeRune(s[Word(s)..]).r)
    decreases |s|
  {
    hide DecodeRune, IsSpace;
    var d, w := s[..m], DecodeRune(s).w;
    assert s[0..] == s && d[0..] == d;
    if IsSpace(DecodeRune(s).r) {
      DecodePrefix(s, m);
    } else {
      var rest := s[w..];
      DropTwice(s, w, Word(rest));
      WordPrefix(rest, m - w);
      DecodePrefix(s, m);
      assert rest[..m - w] == d[w..];
      DropTwice(d, w, Word(rest));
    }
  }

  /** The window starts with white space, or holds a word and its end. */
  lemma WindowFound(s: seq<byte>, m: nat)
    requires 0 < m <= |s| && Word(s) < m && Word(s[..m]) == Word(s)
    requires IsSpace(DecodeRune(s[..m][Word(s)..]).r)
    ensures SplitWords(s[..m], false).advance > 0
  {
    var d := s[..m];
    assert d[0..] == d;
    hide DecodeRune, IsSpace, Word;
    if Spaces(d) == 0 {
      hide Spaces;
      assert d[Spaces(d)..] == d;
    }
  }

  /** A long word fills the window. */
  lemma WindowEmpty(d: seq<byte>, e: seq<byte>, max: nat)
    requires |d| == max > 0 && !ShortWord(d + e, max)
    ensures SplitWords(d, false).advance == 0
  {
    hide DecodeRune, IsSpace, FullRune;
    assert d[0..] == d;
    if IsSpace(DecodeRune(d).r) {
      SpaceFull(d);
      DecodeStable(d, e);
      assert false;
    }
    assert Spaces(d) == 0;
    if Word(d) < |d| {
      WordAppend(d, e);
      assert false;
    }
  }

  /** Four bytes are enough for any rune. */
  lemma {:induction false} RunesFit(s: seq<byte>, max: nat)
    requires max >= UTF_MAX
    ensures Fits(ScanRunes, s, max)
    decreases |s|
  {
    if s == [] {
    } else {
      if |s| >= max { assert FullRune(s[..max]); }
      hide DecodeRune, FullRune;
      RunesFit(s[DecodeRune(s).w..], max);
    }
  }
}
