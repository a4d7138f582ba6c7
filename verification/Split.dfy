/** The split functions of go/src/bufio/scan.go, what they find in a whole input, and that what
    they find does not depend on how much of the input they have seen. */
module Split {
  import opened Arrays
  import opened Wrappers
  import opened Utf8
  import opened Source

  datatype Splitted = Splitted(advance: int, token: Option<seq<byte>>, err: Option<Err>)

  datatype SplitFunc = ScanBytes | ScanLines | ScanRunes | ScanWords | Custom(f: (seq<byte>, bool) -> Splitted)

  const NL: byte := 10
  const CR: byte := 13

  /** bytes.IndexByte: the first index of c, or |s|. */
  function Find(s: seq<byte>, c: byte): (i: nat)
    ensures i <= |s| && (forall j :: 0 <= j < i ==> s[j] != c) && (i < |s| ==> s[i] == c)
  {
    if s == [] || s[0] == c then 0 else 1 + Find(s[1..], c)
  }

  lemma FindAt(s: seq<byte>, c: byte, i: nat)
    requires i <= |s| && (forall j :: 0 <= j < i ==> s[j] != c) && (i < |s| ==> s[i] == c)
    ensures Find(s, c) == i
  {
    hide Find;
  }

  function DropCR(s: seq<byte>): seq<byte> {
    if s != [] && s[|s| - 1] == CR then s[..|s| - 1] else s
  }

  predicate IsSpace(r: int) {
    r == 32 || 9 <= r <= 13 || r == 0x85 || r == 0xA0 || 0x2000 <= r <= 0x200A
    || r in {0x1680, 0x2028, 0x2029, 0x202F, 0x205F, 0x3000}
  }

  /** The length of the white space that s starts with. */
  function Spaces(s: seq<byte>): (n: nat)
    ensures n <= |s|
    decreases |s|
  {
    if s == [] || !IsSpace(DecodeRune(s).r) then 0 else DecodeRune(s).w + Spaces(s[DecodeRune(s).w..])
  }

  /** The length of the run of other runes that s starts with. */
  function Word(s: seq<byte>): (n: nat)
    ensures n <= |s|
    decreases |s|
  {
    if s == [] || IsSpace(DecodeRune(s).r) then 0 else DecodeRune(s).w + Word(s[DecodeRune(s).w..])
  }

  const More := Splitted(0, None, None)

  function SplitLines(data: seq<byte>, atEOF: bool): Splitted {
    var i := Find(data, NL);
    if i < |data| then Splitted(i + 1, Some(DropCR(data[..i])), None)
    else if atEOF && data != [] then Splitted(|data|, Some(DropCR(data)), None)
    else More
  }

  function SplitRunes(data: seq<byte>, atEOF: bool): Splitted {
    if data == [] then More
    else if DecodeRune(data).w == 1 && data[0] >= RUNE_SELF then
      if atEOF || FullRune(data) then Splitted(1, Some(EncodeRune(RUNE_ERROR)), None) else More
    else Splitted(DecodeRune(data).w, Some(data[..DecodeRune(data).w]), None)
  }

  function SplitWords(data: seq<byte>, atEOF: bool): Splitted {
    var start := Spaces(data);
    var rest := data[start..];
    var i := Word(rest);
    if i < |rest| then Splitted(start + i + DecodeRune(rest[i..]).w, Some(rest[..i]), None)
    else if atEOF && rest != [] then Splitted(|data|, Some(rest), None)
    else Splitted(start, None, None)
  }

  function SplitWith(split: SplitFunc, data: seq<byte>, atEOF: bool): Splitted {
    match split
    case ScanBytes => if data == [] then More else Splitted(1, Some(data[..1]), None)
    case ScanLines => SplitLines(data, atEOF)
    case ScanRunes => SplitRunes(data, atEOF)
    case ScanWords => SplitWords(data, atEOF)
    case Custom(f) => f(data, atEOF)
  }

  // ---- what the tokens of a whole input are ----

  /** What follows the first line. */
  function AfterLine(s: seq<byte>): (t: seq<byte>)
    ensures s != [] ==> |t| < |s|
  {
    var i := Find(s, NL);
    if i < |s| then s[i + 1..] else []
  }

  /** The pieces between newlines, a last one only if it is not empty, each without its '\r'. */
  function Lines(s: seq<byte>): seq<seq<byte>>
    decreases |s|
  {
    var i := Find(s, NL);
    if s == [] then []
    else if i < |s| then [DropCR(s[..i])] + Lines(s[i + 1..])
    else [DropCR(s)]
  }

  /** The maximal runs of runes that are not white space. */
  function Words(s: seq<byte>): seq<seq<byte>>
    decreases |s|
  {
    var t := s[Spaces(s)..];
    if t == [] then [] else
      NotSpace(s);
      [t[..Word(t)]] + Words(t[Word(t)..])
  }

  /** What follows the leading white space does not start with white space. */
  lemma {:induction false} NotSpace(s: seq<byte>)
    ensures s[Spaces(s)..] != [] ==> !IsSpace(DecodeRune(s[Spaces(s)..]).r) && Word(s[Spaces(s)..]) > 0
    decreases |s|
  {
    if s != [] && IsSpace(DecodeRune(s).r) {
      var w := DecodeRune(s).w;
      NotSpace(s[w..]);
      assert s[w..][Spaces(s[w..])..] == s[Spaces(s)..];
    } else {
      assert s[0..] == s;
    }
  }

  /** Each rune of the text in UTF-8. */
  function Encoded(rs: seq<int>): seq<seq<byte>> {
    if rs == [] then [] else [EncodeRune(rs[0])] + Encoded(rs[1..])
  }

  function Singles(s: seq<byte>): seq<seq<byte>> {
    if s == [] then [] else [s[..1]] + Singles(s[1..])
  }

  function Whole(split: SplitFunc, s: seq<byte>): seq<seq<byte>>
    requires !split.Custom?
  {
    match split
    case ScanBytes => Singles(s)
    case ScanLines => Lines(s)
    case ScanRunes => Encoded(Runes(s))
    case ScanWords => Words(s)
  }

  // ---- the tokens do not depend on how much has been seen ----

  predicate SplitOk(split: SplitFunc, d: seq<byte>, e: seq<byte>)
    requires !split.Custom?
  {
    var r := SplitWith(split, d, false);
    && r.err.None? && 0 <= r.advance <= |d| && (r.token.Some? ==> r.advance > 0)
    && var rest := Whole(split, (d + e)[r.advance..]);
      Whole(split, d + e) == if r.token.Some? then [r.token.value] + rest else rest
  }

  predicate SplitLastOk(split: SplitFunc, d: seq<byte>)
    requires !split.Custom?
  {
    var r := SplitWith(split, d, true);
    && r.err.None? && 0 <= r.advance <= |d| && (r.token.Some? ==> r.advance > 0)
    && Whole(split, d) == if r.token.Some? then [r.token.value] + Whole(split, d[r.advance..]) else []
  }

  lemma {:induction false} FindAppend(d: seq<byte>, e: seq<byte>, c: byte)
    requires Find(d, c) < |d|
    ensures Find(d + e, c) == Find(d, c)
  {
    if d[0] == c {
    } else {
      assert (d + e)[1..] == d[1..] + e;
      FindAppend(d[1..], e, c);
    }
  }

  lemma LinesStable(d: seq<byte>, e: seq<byte>)
    requires d != []
    ensures SplitOk(ScanLines, d, e)
  {
    var i, s := Find(d, NL), d + e;
    if i < |d| {
      hide Find, DropCR;
      FindAppend(d, e, NL);
      assert s[..i] == d[..i];
      LinesFirst(s);
    } else {
      assert s[0..] == s;
      hide Find, Lines;
    }
  }

  lemma LinesFirst(s: seq<byte>)
    requires Find(s, NL) < |s|
    ensures Lines(s) == [DropCR(s[..Find(s, NL)])] + Lines(s[Find(s, NL) + 1..])
  {
    hide Find, DropCR;
  }

  lemma LinesLast(d: seq<byte>)
    ensures SplitLastOk(ScanLines, d)
  {
    hide Find, DropCR;
    assert d[|d|..] == [];
  }

  lemma RunesStable(d: seq<byte>, e: seq<byte>)
    requires d != []
    ensures SplitOk(ScanRunes, d, e)
  {
    var s := d + e;
    if FullRune(d) {
      DecodeStable(d, e);
      RuneToken(d, e);
    } else {
      DecodePartial(d, 0);
      assert d[0..] == d && s[0..] == s;
      hide Runes, DecodeRune, FullRune;
    }
  }

  lemma RuneToken(d: seq<byte>, e: seq<byte>)
    requires d != [] && DecodeRune(d + e) == DecodeRune(d)
    ensures var w := DecodeRune(d).w;
      Encoded(Runes(d + e)) ==
        [if w == 1 && d[0] >= RUNE_SELF then EncodeRune(RUNE_ERROR) else d[..w]] + Encoded(Runes((d + e)[w..]))
  {
    var s, x := d + e, DecodeRune(d);
    if x != Decoded(RUNE_ERROR, 1) {
      DecodeEncode(d);
      if x.w == 1 { AsciiWidth(d); }
    } else {
      ErrorByte(d);
    }
    hide DecodeRune, EncodeRune;
    assert Runes(s) == [x.r] + Runes(s[x.w..]);
    assert Runes(s)[1..] == Runes(s[x.w..]);
  }

  lemma AsciiWidth(d: seq<byte>)
    requires d != [] && DecodeRune(d).w == 1 && DecodeRune(d) != Decoded(RUNE_ERROR, 1)
    ensures d[0] < RUNE_SELF
  {
  }

  lemma ErrorByte(d: seq<byte>)
    requires d != [] && DecodeRune(d) == Decoded(RUNE_ERROR, 1)
    ensures d[0] >= RUNE_SELF
  {
  }

  lemma RunesLast(d: seq<byte>)
    ensures SplitLastOk(ScanRunes, d)
  {
    if d != [] {
      assert d + [] == d;
      RuneToken(d, []);
      hide DecodeRune, EncodeRune, FullRune, Runes, Encoded;
    }
  }

  /** White space found in a prefix is the white space of the whole, as far as it goes. */
  lemma {:induction false} SpacesAppend(d: seq<byte>, e: seq<byte>)
    ensures Spaces(d + e) == Spaces(d) + Spaces((d + e)[Spaces(d)..])
    decreases |d|
  {
    hide *;
    var s := d + e;
    if d != [] && IsSpace(DecodeRune(d).r) {
      SpaceFull(d);
      DecodeStable(d, e);
      var w := DecodeRune(d).w;
      SpacesAppend(d[w..], e);
      assert s[w..] == d[w..] + e;
      SpacesStep(d);
      SpacesStep(s);
      DropTwice(s, w, Spaces(d[w..]));
    } else {
      NoSpaces(d);
      assert s[0..] == s;
    }
  }

  lemma SpacesStep(d: seq<byte>)
    requires d != [] && IsSpace(DecodeRune(d).r)
    ensures Spaces(d) == DecodeRune(d).w + Spaces(d[DecodeRune(d).w..])
  {
    hide IsSpace, DecodeRune;
  }

  lemma NoSpaces(d: seq<byte>)
    requires d == [] || !IsSpace(DecodeRune(d).r)
    ensures Spaces(d) == 0
  {
    hide IsSpace, DecodeRune;
  }

  /** The beginning of a rune is not taken for a space. */
  lemma SpaceFull(d: seq<byte>)
    requires d != [] && IsSpace(DecodeRune(d).r)
    ensures FullRune(d)
  {
    assert d[0..] == d;
    if !FullRune(d) { DecodePartial(d, 0); }
  }

  /** A word that ends before the end of a prefix ends there in the whole. */
  lemma {:induction false} WordAppend(d: seq<byte>, e: seq<byte>)
    requires Word(d) < |d|
    ensures Word(d + e) == Word(d) && DecodeRune((d + e)[Word(d)..]) == DecodeRune(d[Word(d)..]) && IsSpace(DecodeRune(d[Word(d)..]).r)
    decreases |d|
  {
    hide DecodeRune, IsSpace, FullRune;
    assert d[0..] == d;
    if FullRune(d) {
      DecodeStable(d, e);
      var s, w := d + e, DecodeRune(d).w;
      if IsSpace(DecodeRune(d).r) {
        assert s[0..] == s;
      } else {
        WordAppend(d[w..], e);
        assert s[w..] == d[w..] + e;
        var n := Word(d[w..]);
        assert s[w..][n..] == s[Word(d)..] && d[w..][n..] == d[Word(d)..];
      }
    } else {
      WordPartial(d, 0);
      assert false;
    }
  }

  /** The beginning of a rune is all word. */
  lemma {:induction false} WordPartial(d: seq<byte>, j: nat)
    requires j <= |d| && (j < |d| ==> !FullRune(d))
    ensures Word(d[j..]) == |d| - j
    decreases |d| - j
  {
    if j == |d| {
    } else {
      DecodePartial(d, j);
      WordPartial(d, j + 1);
      assert d[j..][1..] == d[j + 1..];
      hide DecodeRune, FullRune;
    }
  }

  /** Skipping some of the leading white space changes nothing. */
  lemma WordsSkip(s: seq<byte>, n: nat)
    requires n <= |s| && Spaces(s) == n + Spaces(s[n..])
    ensures Words(s) == Words(s[n..])
  {
    hide DecodeRune, IsSpace, Word, Spaces;
    assert s[n..][Spaces(s[n..])..] == s[Spaces(s)..];
  }

  lemma WordsStable(d: seq<byte>, e: seq<byte>)
    ensures SplitOk(ScanWords, d, e)
  {
    hide *;
    var n := Spaces(d);
    SpacesAppend(d, e);
    WordsSkip(d + e, n);
    if Word(d[n..]) < |d[n..]| { WordFound(d, e); }
    WordsSplitOk(d, e);
  }

  lemma WordsSplitOk(d: seq<byte>, e: seq<byte>)
    requires var n := Spaces(d); var rest := d[n..]; var i := Word(rest);
      var w := if i < |rest| then DecodeRune(rest[i..]).w else 0;
      Words(d + e) == Words((d + e)[n..])
      && (i < |rest| ==> i > 0 && n + i + w <= |d| && Words((d + e)[n..]) == [rest[..i]] + Words((d + e)[n + i + w..]))
    ensures SplitOk(ScanWords, d, e)
  {
    hide DecodeRune, IsSpace, Word, Spaces, Words, SplitLines, SplitRunes, Lines, Runes, Encoded, Singles;
  }

  /** The prefix d holds a word and the white space that ends it. */
  lemma WordFound(d: seq<byte>, e: seq<byte>)
    requires var rest := d[Spaces(d)..]; Word(rest) < |rest|
    ensures var n := Spaces(d); var rest := d[n..]; var i := Word(rest); var w := DecodeRune(rest[i..]).w;
      && i > 0 && n + i + w <= |d|
      && Words((d + e)[n..]) == [rest[..i]] + Words((d + e)[n + i + w..])
  {
    hide *;
    var n := Spaces(d);
    var rest, t := d[n..], (d + e)[n..];
    var i := Word(rest);
    NotSpace(d);
    WordAppend(rest, e);
    DropAppend(d, e, n, i);
    SameStart(rest, e);
    WordFollowed(t);
    var w := DecodeRune(rest[i..]).w;
    DropTwice(t, i, w);
    DropTwice(d + e, n, i + w);
  }

  lemma DropAppend(d: seq<byte>, e: seq<byte>, n: nat, i: nat)
    requires n + i <= |d|
    ensures (d + e)[n..] == d[n..] + e && (d + e)[n..][..i] == d[n..][..i]
  {
  }

  /** A word begins with the same rune however much follows its end. */
  lemma SameStart(d: seq<byte>, e: seq<byte>)
    requires d != [] && Word(d) < |d| && !IsSpace(DecodeRune(d).r)
    ensures !IsSpace(DecodeRune(d + e).r)
  {
    assert d[0..] == d;
    if FullRune(d) { DecodeStable(d, e); } else { WordPartial(d, 0); }
    hide DecodeRune, FullRune, IsSpace;
  }

  /** The white space after a word does not matter to the words after it. */
  lemma WordFollowed(t: seq<byte>)
    requires Word(t) < |t| && !IsSpace(DecodeRune(t).r) && IsSpace(DecodeRune(t[Word(t)..]).r)
    ensures Words(t) == [t[..Word(t)]] + Words(t[Word(t)..][DecodeRune(t[Word(t)..]).w..])
  {
    assert t[0..] == t;
    var u := t[Word(t)..];
    hide DecodeRune, IsSpace, Word, Words;
    assert Spaces(t) == 0 && Spaces(u) == DecodeRune(u).w + Spaces(u[DecodeRune(u).w..]);
    WordsSkip(u, DecodeRune(u).w);
    WordsFrom(t);
  }

  lemma WordsFrom(t: seq<byte>)
    requires t != [] && Spaces(t) == 0
    ensures Words(t) == [t[..Word(t)]] + Words(t[Word(t)..])
  {
    hide DecodeRune, IsSpace, Word, Spaces;
    assert t[0..] == t;
  }

  lemma WordsLast(d: seq<byte>)
    ensures SplitLastOk(ScanWords, d)
  {
    hide DecodeRune, IsSpace, Word, Spaces, Words;
    assert d + [] == d;
    var n := Spaces(d);
    var t := d[n..];
    NotSpace(d);
    if Word(t) < |t| {
      WordsStable(d, []);
    } else if t != [] {
      WordsEnd(d);
      assert d[|d|..] == [];
    } else {
      WordsEnd(d);
    }
  }

  lemma WordsEnd(d: seq<byte>)
    requires var t := d[Spaces(d)..]; Word(t) == |t|
    ensures Words(d) == (if d[Spaces(d)..] == [] then [] else [d[Spaces(d)..]]) && Words([]) == []
  {
    hide DecodeRune, IsSpace, Word;
    var t := d[Spaces(d)..];
    assert t[..|t|] == t && t[|t|..] == [];
  }

  lemma SplitStable(split: SplitFunc, d: seq<byte>, e: seq<byte>)
    requires !split.Custom? && d != []
    ensures SplitOk(split, d, e)
  {
    match split
    case ScanBytes => assert (d + e)[..1] == d[..1];
    case ScanLines => LinesStable(d, e);
    case ScanRunes => RunesStable(d, e);
    case ScanWords => WordsStable(d, e);
  }

  lemma SplitLast(split: SplitFunc, d: seq<byte>)
    requires !split.Custom?
    ensures SplitLastOk(split, d)
  {
    match split
    case ScanBytes =>
    case ScanLines => LinesLast(d);
    case ScanRunes => RunesLast(d);
    case ScanWords => WordsLast(d);
  }
}
