/** What the tokens and lines of a given text are, spelled out without the split functions. */
module Tokens {
  import opened Arrays
  import opened Utf8
  import opened Split
  import opened BufReader

  // ---- lines ----

  /** The text has no newline, and no '\r' at its end. */
  predicate Bare(l: seq<byte>) { NL !in l && (l != [] ==> l[|l| - 1] != CR) }

  lemma FirstNewline(l: seq<byte>, q: seq<byte>)
    requires NL !in l
    ensures var s := l + [NL] + q; Find(s, NL) == |l| < |s| && s[..|l|] == l && s[|l| + 1..] == q
  {
    var s := l + [NL] + q;
    forall j | 0 <= j < |l| ensures s[j] != NL { assert s[j] == l[j]; }
    FindAt(s, NL, |l|);
  }

  lemma NoNewline(l: seq<byte>)
    requires NL !in l
    ensures Find(l, NL) == |l|
  {
    FindAt(l, NL, |l|);
  }

  /** ScanLines: a line ends with "\n" or "\r\n", and neither is part of the token. */
  lemma LineTokens(l: seq<byte>, q: seq<byte>)
    requires NL !in l
    ensures Lines(l + [CR, NL] + q) == [l] + Lines(q)
    ensures Bare(l) ==> Lines(l + [NL] + q) == [l] + Lines(q)
  {
    assert l + [CR, NL] + q == (l + [CR]) + [NL] + q;
    FirstNewline(l + [CR], q);
    FirstNewline(l, q);
    assert (l + [CR])[..|l|] == l;
    hide Find;
  }

  /** The last line needs no newline; a '\r' at its end is dropped all the same. */
  lemma LastLineToken(l: seq<byte>)
    requires NL !in l
    ensures Lines([]) == [] && Lines(l + [CR]) == [l]
    ensures Bare(l) && l != [] ==> Lines(l) == [l]
  {
    NoNewline(l + [CR]);
    NoNewline(l);
    assert (l + [CR])[..|l|] == l;
    hide Find;
  }

  /** ReadLine drops the same line ends. */
  lemma LinesRead(l: seq<byte>, q: seq<byte>)
    requires NL !in l
    ensures TextLines(l + [CR, NL] + q) == [l] + TextLines(q)
    ensures Bare(l) ==> TextLines(l + [NL] + q) == [l] + TextLines(q)
  {
    assert l + [CR, NL] + q == (l + [CR]) + [NL] + q;
    FirstNewline(l + [CR], q);
    FirstNewline(l, q);
    assert (l + [CR])[..|l|] == l;
    hide Find;
  }

  /** But it returns an unterminated last line as it is, with a '\r' that it ends in. */
  lemma LastLineRead(l: seq<byte>)
    requires NL !in l
    ensures TextLines(l) == if l == [] then [] else [l]
  {
    NoNewline(l);
    hide Find;
    if l != [] { assert AfterLine(l) == [] && TextLines([]) == []; }
  }

  // ---- bytes and runes ----

  /** ScanBytes: each byte is a token. */
  lemma {:induction false} ByteTokens(s: seq<byte>)
    ensures |Singles(s)| == |s| && forall i | 0 <= i < |s| :: Singles(s)[i] == [s[i]]
  {
    if s == [] {
    } else {
      ByteTokens(s[1..]);
    }
  }

  lemma {:induction false} EncodedAt(rs: seq<int>)
    ensures |Encoded(rs)| == |rs| && forall i | 0 <= i < |rs| :: Encoded(rs)[i] == EncodeRune(rs[i])
  {
    if rs == [] {
    } else {
      EncodedAt(rs[1..]);
    }
  }

  /** ScanRunes: each rune of a text is a token. */
  lemma RuneTokens(rs: seq<int>)
    requires forall i | 0 <= i < |rs| :: IsRune(rs[i])
    ensures var ts := Whole(ScanRunes, TextOf(rs)); |ts| == |rs| && forall i | 0 <= i < |rs| :: ts[i] == EncodeRune(rs[i])
  {
    RunesOfText(rs);
    EncodedAt(rs);
  }

  /** ... and each byte that is not part of one is U+FFFD. */
  lemma BadByteToken(b: byte, q: seq<byte>)
    requires 0x80 <= b && (b < 0xC2 || b > 0xF4)
    ensures Whole(ScanRunes, [b] + q) == [[0xEF, 0xBF, 0xBD]] + Whole(ScanRunes, q)
  {
    var s := [b] + q;
    assert DecodeRune(s) == Decoded(RUNE_ERROR, 1) && s[1..] == q;
    hide DecodeRune;
    assert Runes(s) == [RUNE_ERROR] + Runes(q);
    assert EncodeRune(RUNE_ERROR) == [0xEF, 0xBF, 0xBD];
    hide EncodeRune, Runes;
  }

  // ---- words ----

  /** The runes with the Unicode property White_Space. */
  const WHITE: set<int> := {
    0x09, 0x0A, 0x0B, 0x0C, 0x0D, 0x20, 0x85, 0xA0, 0x1680,
    0x2000, 0x2001, 0x2002, 0x2003, 0x2004, 0x2005, 0x2006, 0x2007, 0x2008, 0x2009, 0x200A,
    0x2028, 0x2029, 0x202F, 0x205F, 0x3000
  }

  lemma SpaceIsWhite(r: int)
    ensures IsSpace(r) <==> r in WHITE
  {
  }

  /** The runes of a word: at least one, and none of them white space. */
  predicate IsWord(rs: seq<int>) {
    rs != [] && forall i | 0 <= i < |rs| :: IsRune(rs[i]) && rs[i] !in WHITE
  }

  lemma {:induction false} WordLength(rs: seq<int>, q: seq<byte>)
    requires forall i | 0 <= i < |rs| :: IsRune(rs[i]) && rs[i] !in WHITE
    requires q == [] || IsSpace(DecodeRune(q).r)
    ensures Word(TextOf(rs) + q) == |TextOf(rs)|
  {
    hide DecodeRune, IsSpace, EncodeRune, FullRune;
    if rs == [] {
      assert TextOf(rs) + q == q;
    } else {
      var e, rest := EncodeRune(rs[0]), TextOf(rs[1..]) + q;
      WordLength(rs[1..], q);
      EncodeDecode(rs[0], rest);
      SpaceIsWhite(rs[0]);
      Assoc(e, TextOf(rs[1..]), q);
      assert (e + rest)[|e|..] == rest;
    }
  }

  lemma TextStarts(rs: seq<int>, q: seq<byte>)
    requires rs != [] && IsRune(rs[0])
    ensures TextOf(rs) + q != [] && DecodeRune(TextOf(rs) + q).r == rs[0]
  {
    EncodeDecode(rs[0], TextOf(rs[1..]) + q);
    hide DecodeRune, EncodeRune, FullRune;
    Assoc(EncodeRune(rs[0]), TextOf(rs[1..]), q);
  }

  /** ScanWords: a word ends at white space, which is in no token. */
  lemma WordTokens(rs: seq<int>, c: int, q: seq<byte>)
    requires IsWord(rs) && c in WHITE
    ensures Words(TextOf(rs) + (EncodeRune(c) + q)) == [TextOf(rs)] + Words(q)
  {
    hide IsSpace, DecodeRune, EncodeRune, FullRune, Words, Word, Spaces, TextOf, IsRune;
    var u := EncodeRune(c) + q;
    var s := TextOf(rs) + u;
    WhiteRune(c, q);
    WordLength(rs, u);
    TextStarts(rs, u);
    SpaceIsWhite(rs[0]);
    CutText(TextOf(rs), u);
    WordFollowed(s);
  }

  lemma CutText(a: seq<byte>, b: seq<byte>)
    ensures (a + b)[..|a|] == a && (a + b)[|a|..] == b
  {
  }

  lemma WhiteRune(c: int, q: seq<byte>)
    requires c in WHITE
    ensures var u := EncodeRune(c) + q;
      u != [] && IsSpace(DecodeRune(u).r) && DecodeRune(u).w == |EncodeRune(c)| && u[DecodeRune(u).w..] == q
  {
    SpaceIsWhite(c);
    EncodeDecode(c, q);
    hide DecodeRune, EncodeRune, FullRune;
  }

  /** White space in front of a word, or with no word after it, gives no token. */
  lemma WhiteSkipped(c: int, q: seq<byte>)
    requires c in WHITE
    ensures Words(EncodeRune(c) + q) == Words(q) && Words([]) == []
  {
    hide *;
    var u := EncodeRune(c) + q;
    WhiteRune(c, q);
    SpacesStep(u);
    WordsSkip(u, DecodeRune(u).w);
    NothingLeft();
  }

  lemma NothingLeft()
    ensures Words([]) == []
  {
  }

  /** The last word needs no white space after it. */
  lemma LastWordToken(rs: seq<int>)
    requires IsWord(rs)
    ensures Words(TextOf(rs)) == [TextOf(rs)]
  {
    hide IsSpace, DecodeRune, EncodeRune, FullRune, Words, Word, Spaces, TextOf, IsRune;
    var s := TextOf(rs);
    assert s + [] == s;
    WordLength(rs, []);
    TextStarts(rs, []);
    SpaceIsWhite(rs[0]);
    NoSpaces(s);
    assert s[0..] == s;
    WordsEnd(s);
  }
}
