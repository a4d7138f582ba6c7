/** Escaping and unescaping, and references written out as numbers. */
module HtmlTheorems {
  import opened Arrays
  import opened Utf8
  import opened Html

  /** strings.NewReplacer with five single-byte patterns replaces byte by byte. */
  function EscapeByte(c: byte): (r: seq<byte>)
    ensures |r| >= 1
  {
    if c == 38 then [38, 97, 109, 112, 59]       // &amp;
    else if c == 39 then [38, 35, 51, 57, 59]    // &#39;
    else if c == 60 then [38, 108, 116, 59]      // &lt;
    else if c == 62 then [38, 103, 116, 59]      // &gt;
    else if c == 34 then [38, 35, 51, 52, 59]    // &#34;
    else [c]
  }

  function EscapeString(s: seq<byte>): seq<byte> {
    if s == [] then [] else EscapeByte(s[0]) + EscapeString(s[1..])
  }

  /** The table knows the three names that escaping uses. */
  predicate KnowsEscapes(entity: Entities) {
    Get(entity, [97, 109, 112, 59]) == 38 && Get(entity, [108, 116, 59]) == 60 && Get(entity, [103, 116, 59]) == 62
  }

  /** Each of the five references is read back as its character, whatever text follows. */
  lemma EscapeRead(c: byte, rest: seq<byte>, entity: Entities, entity2: Entities2)
    requires KnowsEscapes(entity) && EscapeByte(c) != [c]
    ensures (EscapeByte(c) + rest)[0] == AMP
    ensures Reference(EscapeByte(c) + rest, entity, entity2) == Ref([c], |EscapeByte(c)|)
  {
    if c == 38 || c == 60 || c == 62 { NameRead(c, rest, entity, entity2); } else { QuoteRead(c, rest, entity, entity2); }
  }

  lemma NameRead(c: byte, rest: seq<byte>, entity: Entities, entity2: Entities2)
    requires KnowsEscapes(entity) && (c == 38 || c == 60 || c == 62)
    ensures (EscapeByte(c) + rest)[0] == AMP
    ensures Reference(EscapeByte(c) + rest, entity, entity2) == Ref([c], |EscapeByte(c)|)
  {
    var e := EscapeByte(c);
    var s, n := e + rest, |e| - 1;
    assert s[1] == e[1] && s[2] == e[2] && s[3] == e[3] && s[n] == e[n] == SEMI;
    assert AlnumEnd(s, n) == n;
    assert AlnumEnd(s, n - 1) == n;
    assert AlnumEnd(s, n - 2) == n;
    assert AlnumEnd(s, 1) == n;
    assert s[1..n + 1] == e[1..];
    assert EncodeRune(c) == [c];
    hide EncodeRune, AlnumEnd;
  }

  lemma QuoteRead(c: byte, rest: seq<byte>, entity: Entities, entity2: Entities2)
    requires c == 39 || c == 34
    ensures (EscapeByte(c) + rest)[0] == AMP
    ensures Reference(EscapeByte(c) + rest, entity, entity2) == Ref([c], |EscapeByte(c)|)
  {
    hide EscapeByte, EncodeRune, DigitEnd, Number, Int32, Repaired, Reference;
    var s := EscapeByte(c) + rest;
    QuoteShape(c, rest);
    DigitRun(s, 2, 4, false);
    TwoDigits(s[2..4]);
    NumericForm(s, false, 2, 4, entity, entity2);
    QuoteValue(c);
  }

  lemma QuoteShape(c: byte, rest: seq<byte>)
    requires c == 39 || c == 34
    ensures var s := EscapeByte(c) + rest;
      |EscapeByte(c)| == 5 && s[0] == AMP && s[1] == HASH && 48 <= s[2] <= 57 && 48 <= s[3] <= 57 && s[4] == SEMI
      && 10 * (s[2] - 48) + (s[3] - 48) == c
  {
    var e := EscapeByte(c);
    var s := e + rest;
    assert s[0] == e[0] && s[1] == e[1] && s[2] == e[2] && s[3] == e[3] && s[4] == e[4];
  }

  lemma QuoteValue(c: byte)
    requires c == 39 || c == 34
    ensures EncodeRune(Repaired(Int32(c))) == [c]
  {
  }

  lemma TwoDigits(d: seq<byte>)
    requires |d| == 2 && 48 <= d[0] <= 57 && 48 <= d[1] <= 57
    ensures Number(d, false) == 10 * (d[0] - 48) + (d[1] - 48)
  {
    var d0 := d[..1];
    assert d0[..0] == [];
    assert Number(d0, false) == d[0] - 48;
  }

  /** UnescapeString(EscapeString(s)) is s, for every s. */
  lemma {:induction false} EscapeRoundTrip(s: seq<byte>, entity: Entities, entity2: Entities2)
    requires KnowsEscapes(entity)
    ensures Unescape(EscapeString(s), entity, entity2) == s
  {
    hide KnowsEscapes, Reference;
    if s == [] {
    } else {
      hide Unescape, EscapeByte;
      EscapeRoundTrip(s[1..], entity, entity2);
      EscapedFirst(s[0], EscapeString(s[1..]), entity, entity2);
    }
  }

  /** An escaped byte in front is unescaped first. */
  lemma EscapedFirst(c: byte, rest: seq<byte>, entity: Entities, entity2: Entities2)
    requires KnowsEscapes(entity)
    ensures Unescape(EscapeByte(c) + rest, entity, entity2) == [c] + Unescape(rest, entity, entity2)
  {
    hide KnowsEscapes, Reference;
    var e := EscapeByte(c);
    if e != [c] {
      EscapeRead(c, rest, entity, entity2);
      assert (e + rest)[|e|..] == rest;
    } else {
      assert (e + rest)[1..] == rest;
    }
  }

  /** v written with decimal or lower-case hexadecimal digits. */
  function Digits(v: nat, hex: bool): (d: seq<byte>)
    ensures |d| >= 1 && forall i :: 0 <= i < |d| ==> DigitValue(d[i], hex) >= 0
  {
    if hex then
      if v < 16 then [Digit(v)] else Digits(v / 16, hex) + [Digit(v % 16)]
    else
      if v < 10 then [Digit(v)] else Digits(v / 10, hex) + [Digit(v % 10)]
  }

  function Digit(v: nat): (d: byte)
    requires v < 16
    ensures DigitValue(d, true) == v && (v < 10 ==> DigitValue(d, false) == v)
  {
    if v < 10 then 48 + v else 87 + v
  }

  lemma {:induction false} DigitsSpell(v: nat, hex: bool)
    ensures Number(Digits(v, hex), hex) == v
  {
    var d, base := Digits(v, hex), if hex then 16 else 10;
    if v < base {
      assert d[..|d| - 1] == [];
    } else if hex {
      DigitsSpell(v / 16, hex);
      assert d[..|d| - 1] == Digits(v / 16, hex);
    } else {
      DigitsSpell(v / 10, hex);
      assert d[..|d| - 1] == Digits(v / 10, hex);
    }
  }

  lemma {:induction false} DigitRun(s: seq<byte>, i: nat, e: nat, hex: bool)
    requires i <= e < |s| && (forall j :: i <= j < e ==> DigitValue(s[j], hex) >= 0) && s[e] == SEMI
    ensures DigitEnd(s, i, hex) == e
    decreases e - i
  {
    if i == e {
    } else {
      DigitRun(s, i + 1, e, hex);
    }
  }

  /** The reference "&#N;" or "&#xN;". */
  function NumberReference(v: nat, hex: bool): seq<byte> {
    (if hex then [AMP, HASH, LOWER_X] else [AMP, HASH]) + Digits(v, hex) + [SEMI]
  }

  /** Every rune written as a number is decoded to its UTF-8 bytes, whatever follows; 0 and the
      Windows-1252 range are the only runes that come out as something else. */
  lemma NumberRead(v: nat, hex: bool, rest: seq<byte>, entity: Entities, entity2: Entities2)
    requires IsRune(v)
    ensures (NumberReference(v, hex) + rest)[0] == AMP
    ensures Reference(NumberReference(v, hex) + rest, entity, entity2) == Ref(EncodeRune(Repaired(v)), |NumberReference(v, hex)|)
    ensures Repaired(v) == v <==> (v != 0 && !(0x80 <= v <= 0x9F && v !in {0x81, 0x8D, 0x8F, 0x90, 0x9D}))
  {
    hide *;
    var d, start := Digits(v, hex), if hex then 3 else 2;
    var s, e := NumberReference(v, hex) + rest, start + |d|;
    NumberLayout(v, hex, rest);
    DigitsSpell(v, hex);
    DigitRun(s, start, e, hex);
    assert s[start..e] == d;
    NumericForm(s, hex, start, e, entity, entity2);
    Int32Same(v);
    RepairedSame(v);
  }

  lemma NumericForm(s: seq<byte>, hex: bool, start: nat, e: nat, entity: Entities, entity2: Entities2)
    requires |s| > 3 && s[0] == AMP && s[1] == HASH && start == (if hex then 3 else 2) && hex == (s[2] == LOWER_X || s[2] == UPPER_X)
    requires start < e < |s| && DigitEnd(s, start, hex) == e && s[e] == SEMI
    ensures Reference(s, entity, entity2) == Ref(EncodeRune(Repaired(Int32(Number(s[start..e], hex)))), e + 1)
  {
    hide Number, DigitEnd, Int32, Repaired, EncodeRune;
  }

  lemma Int32Same(v: nat)
    requires IsRune(v)
    ensures Int32(v) == v
  {
  }

  lemma NumberLayout(v: nat, hex: bool, rest: seq<byte>)
    ensures var s, d, start := NumberReference(v, hex) + rest, Digits(v, hex), if hex then 3 else 2;
      && |s| == start + |d| + 1 + |rest| && |NumberReference(v, hex)| == start + |d| + 1
      && s[0] == AMP && s[1] == HASH && s[start + |d|] == SEMI
      && hex == (s[2] == LOWER_X || s[2] == UPPER_X)
      && (forall j :: start <= j < start + |d| ==> DigitValue(s[j], hex) >= 0)
      && (forall j :: start <= j < start + |d| ==> s[j] == d[j - start])
  {
  }

  lemma RepairedSame(v: nat)
    requires IsRune(v)
    ensures Repaired(v) == v <==> (v != 0 && !(0x80 <= v <= 0x9F && v !in {0x81, 0x8D, 0x8F, 0x90, 0x9D}))
  {
  }

  // ---- which "&#" is taken for a reference ----

  /** A text that starts with "&#". */
  predicate Numeric(s: seq<byte>) { |s| >= 2 && s[0] == AMP && s[1] == HASH }

  predicate IsHex(s: seq<byte>) { |s| > 2 && (s[2] == LOWER_X || s[2] == UPPER_X) }

  /** How many digits follow "&#" or "&#x". */
  function DigitCount(s: seq<byte>): nat
    requires Numeric(s)
  {
    var start := if IsHex(s) then 3 else 2;
    DigitEnd(s, start, IsHex(s)) - start
  }

  /** The digits are followed by ';'. */
  predicate Terminated(s: seq<byte>)
    requires Numeric(s)
  {
    var e := (if IsHex(s) then 3 else 2) + DigitCount(s);
    e < |s| && s[e] == SEMI
  }

  /** "&#" stays text exactly if no digit follows it, or a single decimal one that nothing ends;
      but "&#x;" without a digit is a reference. */
  lemma NumericKept(s: seq<byte>, entity: Entities, entity2: Entities2)
    requires Numeric(s)
    ensures Reference(s, entity, entity2) == Literal <==>
      (DigitCount(s) == 0 && !(IsHex(s) && Terminated(s))) || (DigitCount(s) == 1 && !IsHex(s) && !Terminated(s))
  {
    hide EncodeRune, Number, Int32, Repaired, DigitEnd;
  }

  /** The rule that the code's comment gives, to keep the text when no characters matched, is what
      the code does unless the text is "&#x;" or a single decimal digit without ';'. */
  lemma KeptWithoutDigits(s: seq<byte>, entity: Entities, entity2: Entities2)
    requires Numeric(s)
    ensures (Reference(s, entity, entity2) == Literal <==> DigitCount(s) == 0) <==>
      !(IsHex(s) && DigitCount(s) == 0 && Terminated(s)) && !(!IsHex(s) && DigitCount(s) == 1 && !Terminated(s))
  {
    NumericKept(s, entity, entity2);
  }

  /** A single decimal digit without its ';', also at the end of the text, is not taken for a
      reference. */
  lemma LoneDigitKept(d: byte, rest: seq<byte>, entity: Entities, entity2: Entities2)
    requires 48 <= d <= 57 && (rest == [] || (DigitValue(rest[0], false) < 0 && rest[0] != SEMI))
    ensures Reference([AMP, HASH, d] + rest, entity, entity2) == Literal
  {
    var s := [AMP, HASH, d] + rest;
    assert s[2] == d && (rest != [] ==> s[3] == rest[0]);
    assert DigitEnd(s, 3, false) == 3;
    assert DigitEnd(s, 2, false) == 3;
    hide EncodeRune, Number, Int32, Repaired, DigitEnd;
    NumericKept(s, entity, entity2);
  }

  /** "&#x;" and "&#X;" hold no digit and are decoded all the same, to U+FFFD. */
  lemma NoDigitDecoded(x: byte, rest: seq<byte>, entity: Entities, entity2: Entities2)
    requires x == LOWER_X || x == UPPER_X
    ensures Reference([AMP, HASH, x, SEMI] + rest, entity, entity2) == Ref(EncodeRune(RUNE_ERROR), 4)
  {
    var s := [AMP, HASH, x, SEMI] + rest;
    assert s[2] == x && s[3] == SEMI;
    assert DigitEnd(s, 3, true) == 3 && s[3..3] == [];
    assert Repaired(Int32(0)) == RUNE_ERROR;
    hide EncodeRune, Int32, Repaired, DigitEnd;
  }

  // ---- what numbers and names stand for ----

  /** What WHATWG lists for 0x80 to 0x9F; the five values that are not here stand for themselves. */
  const WINDOWS_1252: map<int, int> := map[
    0x80 := 0x20AC, 0x82 := 0x201A, 0x83 := 0x0192, 0x84 := 0x201E, 0x85 := 0x2026, 0x86 := 0x2020, 0x87 := 0x2021,
    0x88 := 0x02C6, 0x89 := 0x2030, 0x8A := 0x0160, 0x8B := 0x2039, 0x8C := 0x0152, 0x8E := 0x017D,
    0x91 := 0x2018, 0x92 := 0x2019, 0x93 := 0x201C, 0x94 := 0x201D, 0x95 := 0x2022, 0x96 := 0x2013, 0x97 := 0x2014,
    0x98 := 0x02DC, 0x99 := 0x2122, 0x9A := 0x0161, 0x9B := 0x203A, 0x9C := 0x0153, 0x9E := 0x017E, 0x9F := 0x0178]

  /** The rune for a number: modulo 2^32, U+FFFD for what is no rune and for 0. */
  function Meant(v: nat): int {
    var w := v % 0x1_0000_0000;
    if w in WINDOWS_1252 then WINDOWS_1252[w] else if IsRune(w) && w != 0 then w else 0xFFFD
  }

  lemma RepairedMeans(v: nat)
    ensures EncodeRune(Repaired(Int32(v))) == EncodeRune(Meant(v))
  {
    var w := v % 0x1_0000_0000;
    hide WINDOWS_1252, REPLACEMENTS, EncodeRune;
    ListedOnly(w);
    if 0x80 <= w <= 0x9F { ReplacementListed(w); }
    if w >= 0x8000_0000 { EncodeInvalid(w - 0x1_0000_0000); }
  }

  lemma ListedOnly(w: int)
    ensures w in WINDOWS_1252 ==> 0x80 <= w <= 0x9F
  {
  }

  lemma ReplacementListed(w: int)
    requires 0x80 <= w <= 0x9F
    ensures Listed(w)
  {
    hide Listed;
    if w < 0x88 { Listed80(w); } else if w < 0x90 { Listed88(w); } else if w < 0x98 { Listed90(w); } else { Listed98(w); }
  }

  predicate Listed(w: int)
    requires 0x80 <= w <= 0x9F
  {
    REPLACEMENTS[w - 0x80] == if w in WINDOWS_1252 then WINDOWS_1252[w] else w
  }

  lemma Listed80(w: int)
    requires 0x80 <= w < 0x88
    ensures Listed(w)
  {
  }

  lemma Listed88(w: int)
    requires 0x88 <= w < 0x90
    ensures Listed(w)
  {
  }

  lemma Listed90(w: int)
    requires 0x90 <= w < 0x98
    ensures Listed(w)
  {
  }

  lemma Listed98(w: int)
    requires 0x98 <= w <= 0x9F
    ensures Listed(w)
  {
  }

  lemma {:induction false} DigitsEnd(s: seq<byte>, i: nat, e: nat, hex: bool)
    requires i <= e <= |s| && (forall j | i <= j < e :: DigitValue(s[j], hex) >= 0)
    requires e < |s| ==> DigitValue(s[e], hex) < 0
    ensures DigitEnd(s, i, hex) == e
    decreases e - i
  {
    if i == e {
    } else {
      DigitsEnd(s, i + 1, e, hex);
    }
  }

  /** Any digits after "&#" or "&#x", with or without a ';': the rune they spell, if at least four
      bytes belong to the reference. */
  lemma NumberDecoded(hex: bool, x: byte, d: seq<byte>, semi: bool, rest: seq<byte>, entity: Entities, entity2: Entities2)
    requires d != [] && (forall i | 0 <= i < |d| :: DigitValue(d[i], hex) >= 0) && (x == LOWER_X || x == UPPER_X)
    requires semi || rest == [] || (DigitValue(rest[0], hex) < 0 && rest[0] != SEMI)
    ensures var r := (if hex then [AMP, HASH, x] else [AMP, HASH]) + d + (if semi then [SEMI] else []);
      Reference(r + rest, entity, entity2) ==
        if |r| > 3 then Ref(EncodeRune(Meant(Spelled(d, hex))), |r|) else Literal
  {
    hide EncodeRune, Number, Int32, Repaired, Meant, DigitEnd;
    var start := if hex then 3 else 2;
    var r := (if hex then [AMP, HASH, x] else [AMP, HASH]) + d + (if semi then [SEMI] else []);
    var s, e := r + rest, start + |d|;
    assert forall j | start <= j < e :: s[j] == d[j - start];
    assert e < |s| ==> s[e] == if semi then SEMI else rest[0];
    DigitsEnd(s, start, e, hex);
    assert s[start..e] == d;
    RepairedMeans(Spelled(d, hex));
    assert s[0] == AMP && s[1] == HASH && (hex ==> s[2] == x) && (!hex ==> s[2] == d[0]);
  }

  /** The number of a run of digits. */
  function Spelled(d: seq<byte>, hex: bool): nat
    requires forall i | 0 <= i < |d| :: DigitValue(d[i], hex) >= 0
  {
    NumberNatural(d, hex);
    Number(d, hex)
  }

  lemma {:induction false} NumberNatural(d: seq<byte>, hex: bool)
    requires forall i | 0 <= i < |d| :: DigitValue(d[i], hex) >= 0
    ensures Number(d, hex) >= 0
  {
    if d == [] {
    } else {
      NumberNatural(d[..|d| - 1], hex);
    }
  }

  /** The table has the name, with something in it. */
  predicate Knows(entity: Entities, name: seq<byte>) { name in entity && entity[name] != 0 }

  lemma {:induction false} NameEnd(s: seq<byte>, i: nat, e: nat)
    requires i <= e <= |s| && (forall j | i <= j < e :: IsAlnum(s[j])) && (e < |s| ==> !IsAlnum(s[e]))
    ensures AlnumEnd(s, i) == e
    decreases e - i
  {
    if i == e {
    } else {
      NameEnd(s, i + 1, e);
    }
  }

  /** A '&' and a name, with or without a ';': what the first table has for it; else the two runes the
      second table has, in order; else what the first table has for the longest part of the name, of
      two to six bytes and not all of it (k bytes, then); else nothing is decoded. */
  lemma NameDecoded(word: seq<byte>, semi: bool, rest: seq<byte>, entity: Entities, entity2: Entities2) returns (k: nat)
    requires forall i | 0 <= i < |word| :: IsAlnum(word[i])
    requires semi || rest == [] || (!IsAlnum(rest[0]) && rest[0] != SEMI)
    requires word == [] && !semi && rest != [] ==> rest[0] != HASH
    ensures var name := word + (if semi then [SEMI] else []);
      && k < |name| + 1 && k <= 6
      && (k != 0 ==> 1 < k < |name| && Knows(entity, name[..k]))
      && (forall l | k < l < |name| && 1 < l <= 6 :: !Knows(entity, name[..l]))
      && Reference([AMP] + name + rest, entity, entity2) ==
           if name == [] then Literal
           else if Knows(entity, name) then Ref(EncodeRune(entity[name]), |name| + 1)
           else if name in entity2 && entity2[name].0 != 0 then
             Ref(EncodeRune(entity2[name].0) + EncodeRune(entity2[name].1), |name| + 1)
           else if k != 0 then Ref(EncodeRune(entity[name[..k]]), k + 1)
           else Ref([AMP] + name, |name| + 1)
  {
    hide EncodeRune, LongestPrefix, AlnumEnd;
    var name := word + (if semi then [SEMI] else []);
    var s, e := [AMP] + name + rest, 1 + |word|;
    assert forall j | 1 <= j < e :: s[j] == word[j - 1];
    assert e < |s| ==> s[e] == if semi then SEMI else rest[0];
    NameEnd(s, 1, e);
    assert s[..1 + |name|] == [AMP] + name && s[1..1 + |name|] == name;
    NotNumeric(s, name, word, semi, rest);
    var most := if |name| - 1 > 6 then 6 else |name| - 1;
    k := if name == [] then 0 else LongestPrefix(name, most, entity);
  }

  lemma NotNumeric(s: seq<byte>, name: seq<byte>, word: seq<byte>, semi: bool, rest: seq<byte>)
    requires name == word + (if semi then [SEMI] else []) && s == [AMP] + name + rest
    requires forall i | 0 <= i < |word| :: IsAlnum(word[i])
    requires word == [] && !semi && rest != [] ==> rest[0] != HASH
    ensures s[0] == AMP && (|s| > 1 ==> s[1] != HASH)
  {
    if word != [] { assert s[1] == word[0]; } else if semi { assert s[1] == SEMI; } else if rest != [] { assert s[1] == rest[0]; }
  }

  // ---- escaping ----

  predicate Special(c: byte) { c == 38 || c == 39 || c == 60 || c == 62 || c == 34 }

  /** Escaped text has no '<', '>', ''' or '"', and a '&' only as the start of one of five references. */
  lemma {:induction false} EscapedSafe(s: seq<byte>, i: nat)
    requires i < |EscapeString(s)| && Special(EscapeString(s)[i])
    ensures exists c: byte :: Special(c) && EscapeByte(c) != [c] && EscapeByte(c) <= EscapeString(s)[i..]
    ensures EscapeString(s)[i] == AMP
  {
    hide EscapeByte;
    var e, rest := EscapeByte(s[0]), EscapeString(s[1..]);
    EscapeForm(s[0]);
    if i < |e| {
      assert (e + rest)[i..] == e[i..] + rest;
      assert e <= EscapeString(s)[i..];
    } else {
      EscapedSafe(s[1..], i - |e|);
      assert (e + rest)[i..] == rest[i - |e|..];
    }
  }

  lemma EscapeForm(c: byte)
    ensures if Special(c) then EscapeByte(c) != [c] && EscapeByte(c)[0] == AMP else EscapeByte(c) == [c]
    ensures forall i | 0 < i < |EscapeByte(c)| :: !Special(EscapeByte(c)[i])
  {
  }

  /** Text without the five characters is not changed. */
  lemma {:induction false} PlainKept(s: seq<byte>)
    requires forall i | 0 <= i < |s| :: !Special(s[i])
    ensures EscapeString(s) == s
  {
    if s == [] {
    } else {
      PlainKept(s[1..]);
    }
  }
}
