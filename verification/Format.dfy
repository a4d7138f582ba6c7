/** The integer formatter of go/src/fmt/format.go: digits written right to left into a buffer that
    is never too small. */
module Format {
  import opened Arrays
  import opened Bits
  import opened Utf8

  const TWO63 := 0x8000_0000_0000_0000
  const INTBUF := 68

  const LDIGITS: seq<byte> := [48, 49, 50, 51, 52, 53, 54, 55, 56, 57, 97, 98, 99, 100, 101, 102, 120]
  const UDIGITS: seq<byte> := [48, 49, 50, 51, 52, 53, 54, 55, 56, 57, 65, 66, 67, 68, 69, 70, 88]

  const ZERO: byte := 48
  const SPACE: byte := 32

  datatype Flags = Flags(widPresent: bool, precPresent: bool, minus: bool, plus: bool, sharp: bool, space: bool, zero: bool)

  predicate IsBase(base: int) { base == 2 || base == 8 || base == 10 || base == 16 }

  // ---- what the text is ----

  /** v in the given base, without leading zeros. */
  function Numeral(v: nat, base: nat, digits: seq<byte>): (t: seq<byte>)
    requires IsBase(base) && |digits| == 17
    ensures |t| >= 1
    decreases v
  {
    if v < base then [digits[v]] else
      Smaller(v, base);
      Numeral(v / base, base, digits) + [digits[v % base]]
  }

  lemma Smaller(v: nat, base: nat)
    requires IsBase(base) && v >= base
    ensures v / base < v && 0 <= v % base < base
  {
  }

  function Repeat(c: byte, n: int): (t: seq<byte>)
    ensures |t| == (if n > 0 then n else 0) && forall i :: 0 <= i < |t| ==> t[i] == c
  {
    if n <= 0 then [] else [c] + Repeat(c, n - 1)
  }

  /** The digits wanted at least: the precision, or the width if it is to be filled with zeros. */
  function MinDigits(f: Flags, wid: nat, prec: nat, negative: bool): int {
    if f.precPresent then prec
    else if f.zero && !f.minus && f.widPresent then (if negative || f.plus || f.space then wid - 1 else wid)
    else 0
  }

  /** The number with its leading zeros. */
  function Padded(v: nat, base: nat, digits: seq<byte>, min: int): (t: seq<byte>)
    requires IsBase(base) && |digits| == 17
    ensures |t| >= 1
  {
    Repeat(ZERO, min - |Numeral(v, base, digits)|) + Numeral(v, base, digits)
  }

  /** "0b", "0x" or "0X"; for base 8 a 0 only if none is there. */
  function SharpPrefix(base: nat, digits: seq<byte>, number: seq<byte>): seq<byte>
    requires |digits| == 17 && |number| >= 1
  {
    if base == 2 then [ZERO, 98]
    else if base == 8 then (if number[0] != ZERO then [ZERO] else [])
    else if base == 16 then [ZERO, digits[16]]
    else []
  }

  function Sign(f: Flags, negative: bool): seq<byte> {
    if negative then [45] else if f.plus then [43] else if f.space then [SPACE] else []
  }

  /** Sign, prefixes, zeros and digits. */
  function Body(v: nat, base: nat, digits: seq<byte>, f: Flags, min: int, bigO: bool, negative: bool): seq<byte>
    requires IsBase(base) && |digits| == 17
  {
    var number := Padded(v, base, digits, min);
    Sign(f, negative) + (if bigO then [ZERO, 111] else []) + (if f.sharp then SharpPrefix(base, digits, number) else []) + number
  }

  /** Zeros are padded only on the left. */
  function PadByte(f: Flags): byte {
    if f.zero && !f.minus then ZERO else SPACE
  }

  /** Padded to the width, counted in runes, on the left or on the right. */
  function Filled(f: Flags, wid: nat, text: seq<byte>): seq<byte> {
    if !f.widPresent then text
    else if f.minus then text + Repeat(PadByte(f), wid - |Runes(text)|)
    else Repeat(PadByte(f), wid - |Runes(text)|) + text
  }

  /** Two's complement. */
  predicate Negative(u: nat, isSigned: bool) { isSigned && u >= TWO63 }

  function Magnitude(u: nat, isSigned: bool): nat
    requires u < TWO64
  {
    if Negative(u, isSigned) then TWO64 - u else u
  }

  /** What fmtInteger appends. */
  function IntegerText(u: nat, base: nat, isSigned: bool, bigO: bool, digits: seq<byte>, f: Flags, wid: nat, prec: nat): seq<byte>
    requires u < TWO64 && IsBase(base) && |digits| == 17
  {
    if f.precPresent && prec == 0 && u == 0 then Repeat(SPACE, wid)
    else
      var negative := Negative(u, isSigned);
      Filled(f.(zero := false), wid, Body(Magnitude(u, isSigned), base, digits, f, MinDigits(f, wid, prec, negative), bigO, negative))
  }

  // ---- the number can be read back ----

  /** The value of one digit. */
  function DigitOf(c: byte): int {
    if 48 <= c <= 57 then c - 48 else if 97 <= c <= 102 then c - 87 else if 65 <= c <= 70 then c - 55 else -1
  }

  function ValueOf(t: seq<byte>, base: nat): int {
    if t == [] then 0 else base * ValueOf(t[..|t| - 1], base) + DigitOf(t[|t| - 1])
  }

  predicate IsDigits(digits: seq<byte>) { digits == LDIGITS || digits == UDIGITS }

  lemma {:induction false} NumeralValue(v: nat, base: nat, digits: seq<byte>)
    requires IsBase(base) && IsDigits(digits)
    ensures ValueOf(Numeral(v, base, digits), base) == v
    decreases v
  {
    var t := Numeral(v, base, digits);
    if v < base {
      DigitBack(v, digits);
      ValueStep([], digits[v], base);
      assert [] + [digits[v]] == t && ValueOf([], base) == 0;
      TimesZero(base);
    } else {
      Smaller(v, base);
      NumeralValue(v / base, base, digits);
      DigitBack(v % base, digits);
      ValueStep(Numeral(v / base, base, digits), digits[v % base], base);
      DivMod(v, base);
    }
    hide DigitOf, ValueOf, Numeral;
  }

  lemma ValueStep(t: seq<byte>, c: byte, base: nat)
    ensures ValueOf(t + [c], base) == base * ValueOf(t, base) + DigitOf(c)
  {
    var all := t + [c];
    assert all[..|all| - 1] == t && all[|all| - 1] == c;
    hide DigitOf;
  }

  lemma DigitBack(d: nat, digits: seq<byte>)
    requires d < 16 && IsDigits(digits)
    ensures DigitOf(digits[d]) == d
  {
  }

  lemma DivMod(v: nat, base: nat)
    requires IsBase(base)
    ensures base * (v / base) + v % base == v
  {
  }

  lemma {:induction false} ZerosValue(n: int, t: seq<byte>, base: nat)
    ensures ValueOf(Repeat(ZERO, n) + t, base) == ValueOf(t, base)
    decreases |t|, n
  {
    var all := Repeat(ZERO, n) + t;
    if t != [] {
      ZerosValue(n, t[..|t| - 1], base);
      assert all[..|all| - 1] == Repeat(ZERO, n) + t[..|t| - 1];
    } else if n > 0 {
      ZerosValue(n - 1, t, base);
      assert all[..|all| - 1] == Repeat(ZERO, n - 1) + t;
      assert ValueOf(all[..|all| - 1], base) == 0;
      TimesZero(base);
    }
  }

  lemma TimesZero(base: nat)
    ensures base * 0 == 0
  {
  }

  /** The zeros and digits of the text spell the magnitude, and there are as many as wanted. */
  lemma PaddedValue(v: nat, base: nat, digits: seq<byte>, min: int)
    requires IsBase(base) && IsDigits(digits)
    ensures ValueOf(Padded(v, base, digits, min), base) == v && |Padded(v, base, digits, min)| >= min
  {
    NumeralValue(v, base, digits);
    ZerosValue(min - |Numeral(v, base, digits)|, Numeral(v, base, digits), base);
  }

  /** Padding is spaces on the right under '-'; else it is on the left, zeros under '0' and else spaces. */
  lemma FilledBytes(f: Flags, wid: nat, text: seq<byte>)
    ensures var n := if f.widPresent then wid - |Runes(text)| else 0;
      Filled(f, wid, text) == if f.minus then text + Repeat(32, n) else Repeat(if f.zero then 48 else 32, n) + text
  {
    hide Runes;
    if !f.widPresent {
      NoRepeat(32, 0);
      NoRepeat(48, 0);
      hide Repeat;
      assert [] + text == text == text + [];
    }
  }

  /** Padding brings any bytes, also those that are not UTF-8, to the width in runes. */
  lemma FilledRunes(f: Flags, wid: nat, text: seq<byte>)
    ensures |Runes(Filled(f, wid, text))| == if f.widPresent && wid > |Runes(text)| then wid else |Runes(text)|
  {
    var n := wid - |Runes(text)|;
    if f.widPresent {
      if f.minus { RunesThenFill(text, PadByte(f), n); } else { FillThenRunes(PadByte(f), n, text); }
    }
    hide Runes, Repeat;
  }

  lemma {:induction false} FillThenRunes(c: byte, n: int, text: seq<byte>)
    requires c < RUNE_SELF
    ensures Runes(Repeat(c, n) + text) == Repeat(c, n) + Runes(text)
    decreases n
  {
    var all := Repeat(c, n) + text;
    if n <= 0 {
      assert all == text;
    } else {
      hide Runes, Repeat;
      FillThenRunes(c, n - 1, text);
      OneMore(c, n, text);
      OneMore(c, n, Runes(text));
      AsciiFirst(c, Repeat(c, n - 1) + text);
    }
  }

  lemma AsciiFirst(c: byte, rest: seq<byte>)
    requires c < RUNE_SELF
    ensures Runes([c] + rest) == [c] + Runes(rest)
  {
    RunesStep([c] + rest);
    hide Runes;
    assert DecodeRune([c] + rest) == Decoded(c, 1) && ([c] + rest)[1..] == rest;
  }

  lemma {:induction false} RunesThenFill(text: seq<byte>, c: byte, n: int)
    requires c < RUNE_SELF
    ensures Runes(text + Repeat(c, n)) == Runes(text) + Repeat(c, n)
    decreases |text|
  {
    if text == [] {
      FillThenRunes(c, n, text);
      assert [] + Repeat(c, n) == Repeat(c, n) + [];
    } else {
      hide *;
      DecodeFilled(text, c, Repeat(c, n));
      RunesThenFill(text[DecodeRune(text).w..], c, n);
      RunesThen(text, Repeat(c, n));
    }
  }

  lemma RunesThen(text: seq<byte>, fill: seq<byte>)
    requires text != [] && DecodeRune(text + fill) == DecodeRune(text)
    requires var w := DecodeRune(text).w; Runes(text[w..] + fill) == Runes(text[w..]) + fill
    ensures Runes(text + fill) == Runes(text) + fill
  {
    hide *;
    var r, w := DecodeRune(text).r, DecodeRune(text).w;
    RunesStep(text + fill);
    RunesStep(text);
    assert (text + fill)[w..] == text[w..] + fill;
    assert ([r] + Runes(text[w..])) + fill == [r] + (Runes(text[w..]) + fill);
  }

  lemma RunesStep(s: seq<byte>)
    requires s != []
    ensures Runes(s) == [DecodeRune(s).r] + Runes(s[DecodeRune(s).w..])
  {
    hide DecodeRune;
  }

  /** ASCII bytes complete no rune. */
  lemma DecodeFilled(text: seq<byte>, c: byte, fill: seq<byte>)
    requires text != [] && c < RUNE_SELF && forall i :: 0 <= i < |fill| ==> fill[i] == c
    ensures DecodeRune(text + fill) == DecodeRune(text)
  {
    var s := text + fill;
    assert s[0] == text[0] && forall i :: 0 <= i < |text| ==> s[i] == text[i];
    assert forall i :: |text| <= i < |s| ==> s[i] == fill[i - |text|];
  }

  lemma {:induction false} RunesAtMost(s: seq<byte>)
    ensures |Runes(s)| <= |s|
    decreases |s|
  {
    if s == [] {
    } else {
      RunesAtMost(s[DecodeRune(s).w..]);
    }
    hide DecodeRune;
  }

  /** The text has at least as many runes, and so bytes, as the width asks for. */
  lemma TextWidth(u: nat, base: nat, isSigned: bool, bigO: bool, digits: seq<byte>, f: Flags, wid: nat, prec: nat)
    requires u < TWO64 && IsBase(base) && |digits| == 17 && f.widPresent
    ensures var t := IntegerText(u, base, isSigned, bigO, digits, f, wid, prec); wid <= |Runes(t)| <= |t|
  {
    hide Body, Runes, Repeat, Filled;
    RunesAtMost(IntegerText(u, base, isSigned, bigO, digits, f, wid, prec));
    if f.precPresent && prec == 0 && u == 0 {
      NoRunes();
      FillThenRunes(SPACE, wid, []);
      assert Repeat(SPACE, wid) + [] == Repeat(SPACE, wid);
    } else {
      var negative := Negative(u, isSigned);
      FilledRunes(f.(zero := false), wid, Body(Magnitude(u, isSigned), base, digits, f, MinDigits(f, wid, prec, negative), bigO, negative));
    }
  }

  lemma NoRunes()
    ensures Runes([]) == []
  {
  }

  /** x is the argument u: as an int64, or as a uint64. */
  predicate Means(u: nat, isSigned: bool, x: int) {
    if isSigned then -0x8000_0000_0000_0000 <= x < 0x8000_0000_0000_0000 && u == (if x < 0 then x + 0x1_0000_0000_0000_0000 else x)
    else x == u < 0x1_0000_0000_0000_0000
  }

  /** '-' in front of a negative argument; else what the flags ask for. */
  predicate SignBytes(sign: seq<byte>, f: Flags, x: int) {
    if x < 0 then sign == [45] else if f.plus then sign == [43] else if f.space then sign == [32] else sign == []
  }

  /** "0o" for the verb %O, then what the '#' flag adds: 0b, 0x or 0X, and for base 8 a 0 where the
      number does not start with one. */
  predicate PrefixBytes(prefix: seq<byte>, base: nat, bigO: bool, upper: bool, sharp: bool, number: seq<byte>)
    requires number != []
  {
    prefix == (if bigO then [48, 111] else [])
              + (if !sharp || base == 10 || (base == 8 && number[0] == 48) then []
                 else if base == 8 then [48]
                 else if base == 2 then [48, 98]
                 else if upper then [48, 88] else [48, 120])
  }

  /** One of the first base digits, with lower-case or upper-case letters. */
  predicate DigitByte(c: byte, base: nat, upper: bool) {
    (48 <= c <= 57 && c < 48 + base) || (if upper then 65 <= c < 55 + base else 97 <= c < 87 + base)
  }

  predicate DigitBytes(t: seq<byte>, base: nat, upper: bool) {
    forall i | 0 <= i < |t| :: DigitByte(t[i], base, upper)
  }

  /** The text of an integer is spaces, sign, prefixes, a number, spaces. The number is the magnitude
      of the argument in the digits of the base. It starts with zeros only to reach the precision,
      or without one, under the '0' flag and not '-', the width less one for a sign. The spaces are
      on the right under '-' and else on the left, and only fill the width. */
  lemma TextSpelled(u: nat, x: int, base: nat, isSigned: bool, bigO: bool, upper: bool, f: Flags, wid: nat, prec: nat)
      returns (left: nat, sign: seq<byte>, prefix: seq<byte>, number: seq<byte>, right: nat)
    requires Means(u, isSigned, x) && IsBase(base) && !(f.precPresent && prec == 0 && x == 0)
    ensures IntegerText(u, base, isSigned, bigO, if upper then UDIGITS else LDIGITS, f, wid, prec)
            == Repeat(32, left) + (sign + prefix) + number + Repeat(32, right)
    ensures number != [] && ValueOf(number, base) == (if x < 0 then -x else x)
    ensures DigitBytes(number, base, upper)
    ensures SignBytes(sign, f, x) && PrefixBytes(prefix, base, bigO, upper, f.sharp, number)
    ensures var min := if f.precPresent then prec
                       else if f.zero && !f.minus && f.widPresent then (if x < 0 || f.plus || f.space then wid - 1 else wid)
                       else 0;
      |number| >= min && (|number| > min && |number| > 1 ==> number[0] != 48)
    ensures if f.minus then left == 0 else right == 0
    ensures var used := |sign| + |prefix| + |number|; left + right == if f.widPresent && wid > used then wid - used else 0
  {
    var digits := if upper then UDIGITS else LDIGITS;
    ArgumentParts(u, isSigned, x);
    hide IntegerText, Repeat, ValueOf, DigitBytes, Sign, SharpPrefix, SignBytes, PrefixBytes, Negative, Magnitude, Means, IsDigits;
    hide LDIGITS, UDIGITS;
    var negative := Negative(u, isSigned);
    sign := Sign(f, negative);
    SignIs(f, x);
    CaseOf(upper);
    var head;
    left, head, number, right := TextParts(u, base, isSigned, bigO, digits, f, wid, prec);
    prefix := (if bigO then [ZERO, 111] else []) + (if f.sharp then SharpPrefix(base, digits, number) else []);
    PrefixIs(base, bigO, upper, f.sharp, number);
    Assoc(sign, if bigO then [ZERO, 111] else [], if f.sharp then SharpPrefix(base, digits, number) else []);
  }

  lemma ArgumentParts(u: nat, isSigned: bool, x: int)
    requires Means(u, isSigned, x)
    ensures u < TWO64 && (u == 0 <==> x == 0)
    ensures Negative(u, isSigned) == (x < 0) && Magnitude(u, isSigned) == if x < 0 then -x else x
  {
  }

  lemma SignIs(f: Flags, x: int)
    ensures SignBytes(Sign(f, x < 0), f, x)
  {
  }

  lemma CaseOf(upper: bool)
    ensures var digits := if upper then UDIGITS else LDIGITS; IsDigits(digits) && (digits[10] == 65 <==> upper)
  {
  }

  lemma PrefixIs(base: nat, bigO: bool, upper: bool, sharp: bool, number: seq<byte>)
    requires IsBase(base) && number != []
    ensures PrefixBytes((if bigO then [ZERO, 111] else [])
                        + (if sharp then SharpPrefix(base, if upper then UDIGITS else LDIGITS, number) else []),
                        base, bigO, upper, sharp, number)
  {
  }

  /** Only 0 with precision 0 has no number: its text is as many spaces as the width. */
  lemma TextBlank(base: nat, isSigned: bool, bigO: bool, digits: seq<byte>, f: Flags, wid: nat)
    requires IsBase(base) && |digits| == 17 && f.precPresent
    ensures var t := IntegerText(0, base, isSigned, bigO, digits, f, wid, 0);
      |t| == wid && forall i | 0 <= i < wid :: t[i] == 32
  {
  }

  /** The same in terms of the functions that describe the text. */
  lemma TextParts(u: nat, base: nat, isSigned: bool, bigO: bool, digits: seq<byte>, f: Flags, wid: nat, prec: nat)
      returns (left: nat, head: seq<byte>, number: seq<byte>, right: nat)
    requires u < TWO64 && IsBase(base) && IsDigits(digits) && !(f.precPresent && prec == 0 && u == 0)
    ensures DigitBytes(number, base, digits[10] == 65)
    ensures IntegerText(u, base, isSigned, bigO, digits, f, wid, prec) == Repeat(SPACE, left) + head + number + Repeat(SPACE, right)
    ensures number != [] && ValueOf(number, base) == Magnitude(u, isSigned)
    ensures var min := MinDigits(f, wid, prec, Negative(u, isSigned));
      |number| >= min && (|number| > min && |number| > 1 ==> number[0] != ZERO)
    ensures head == Sign(f, Negative(u, isSigned)) + (if bigO then [ZERO, 111] else [])
                    + (if f.sharp then SharpPrefix(base, digits, number) else [])
    ensures if f.minus then left == 0 else right == 0
    ensures var used := |head| + |number|; left + right == if f.widPresent && wid > used then wid - used else 0
  {
    var v, negative := Magnitude(u, isSigned), Negative(u, isSigned);
    var min := MinDigits(f, wid, prec, negative);
    number := Padded(v, base, digits, min);
    PaddedValue(v, base, digits, min);
    PaddedFirst(v, base, digits, min);
    PaddedDigits(v, base, digits, min);
    head := Sign(f, negative) + (if bigO then [ZERO, 111] else []) + (if f.sharp then SharpPrefix(base, digits, number) else []);
    var body := Body(v, base, digits, f, min, bigO, negative);
    assert body == head + number;
    BodyAscii(v, base, digits, f, min, bigO, negative);
    AsciiCount(body);
    hide Numeral, Padded, Sign, SharpPrefix, ValueOf, Body, Repeat, MinDigits, IsDigits, Filled, Runes, DigitByte;
    left, right := FilledParts(f.(zero := false), wid, body);
    Regrouped(Repeat(SPACE, left), head, number, Repeat(SPACE, right));
  }

  lemma PaddedDigits(v: nat, base: nat, digits: seq<byte>, min: int)
    requires IsBase(base) && IsDigits(digits)
    ensures DigitBytes(Padded(v, base, digits, min), base, digits[10] == 65)
  {
    NumeralDigits(v, base, digits);
    DigitIn(0, base, digits);
    assert digits[0] == ZERO;
    hide Numeral, Repeat, IsDigits, DigitByte;
    var n := Numeral(v, base, digits);
    var t, zeros := Padded(v, base, digits, min), Repeat(ZERO, min - |n|);
    forall i | 0 <= i < |t| ensures DigitByte(t[i], base, digits[10] == 65) {
      assert t[i] == if i < |zeros| then zeros[i] else n[i - |zeros|];
    }
  }

  lemma {:induction false} NumeralDigits(v: nat, base: nat, digits: seq<byte>)
    requires IsBase(base) && IsDigits(digits)
    ensures DigitBytes(Numeral(v, base, digits), base, digits[10] == 65)
    decreases v
  {
    if v < base {
      DigitIn(v, base, digits);
    } else {
      Smaller(v, base);
      NumeralDigits(v / base, base, digits);
      DigitIn(v % base, base, digits);
    }
  }

  lemma DigitIn(d: nat, base: nat, digits: seq<byte>)
    requires d < base && IsBase(base) && IsDigits(digits)
    ensures DigitByte(digits[d], base, digits[10] == 65)
  {
    if digits == LDIGITS { assert digits[10] == 97; } else { assert digits[10] == 65; }
    DigitBack(d, digits);
  }

  /** A leading zero is there only to reach the digits wanted. */
  lemma PaddedFirst(v: nat, base: nat, digits: seq<byte>, min: int)
    requires IsBase(base) && IsDigits(digits)
    ensures var t := Padded(v, base, digits, min); |t| > min && |t| > 1 ==> t[0] != ZERO
  {
    NumeralFirst(v, base, digits);
    hide Numeral;
  }

  lemma {:induction false} NumeralFirst(v: nat, base: nat, digits: seq<byte>)
    requires IsBase(base) && IsDigits(digits)
    ensures v > 0 ==> Numeral(v, base, digits)[0] != ZERO
    ensures v == 0 ==> |Numeral(v, base, digits)| == 1
    decreases v
  {
    if v < base {
      if v > 0 { DigitBack(v, digits); }
    } else {
      Smaller(v, base);
      HalfOrMore(v, base);
      NumeralFirst(v / base, base, digits);
    }
  }

  lemma HalfOrMore(v: nat, base: nat)
    requires IsBase(base) && v >= base
    ensures v / base > 0
  {
  }

  lemma FilledParts(f: Flags, wid: nat, body: seq<byte>) returns (left: nat, right: nat)
    requires !f.zero
    ensures Filled(f, wid, body) == Repeat(SPACE, left) + body + Repeat(SPACE, right)
    ensures if f.minus then left == 0 else right == 0
    ensures left + right == if f.widPresent && wid > |Runes(body)| then wid - |Runes(body)| else 0
  {
    hide Runes;
    var n := wid - |Runes(body)|;
    left, right := 0, 0;
    if f.widPresent && n > 0 { if f.minus { right := n; } else { left := n; } }
    NoRepeat(SPACE, 0);
    NoRepeat(SPACE, n);
    hide Repeat;
    assert [] + body == body && body + [] == body;
    assert Repeat(SPACE, left) + body + [] == Repeat(SPACE, left) + body;
  }

  lemma Regrouped(a: seq<byte>, b: seq<byte>, c: seq<byte>, d: seq<byte>)
    ensures a + (b + c) + d == a + b + c + d
  {
  }

  // ---- how much room it takes ----

  lemma {:induction false} NumeralLength(v: nat, base: nat, digits: seq<byte>, k: nat)
    requires IsBase(base) && |digits| == 17 && k >= 1 && v < Pow2(k)
    ensures |Numeral(v, base, digits)| <= k
    decreases k
  {
    if v < base {
    } else {
      assert k >= 2;
      HalfOrLess(v, base, k);
      NumeralLength(v / base, base, digits, k - 1);
    }
  }

  lemma HalfOrLess(v: nat, base: nat, k: nat)
    requires IsBase(base) && k >= 1 && v < Pow2(k)
    ensures v / base < Pow2(k - 1)
  {
    assert v / base <= v / 2;
  }

  /** A 64-bit number has at most 64 digits. */
  lemma AtMost64(v: nat, base: nat, digits: seq<byte>)
    requires v < TWO64 && IsBase(base) && |digits| == 17
    ensures |Numeral(v, base, digits)| <= 64
  {
    Pow2Constants();
    NumeralLength(v, base, digits, 64);
  }

  // ---- the formatter ----

  class Fmt {
    /** The bytes of the output buffer. */
    var buf: seq<byte>
    var flags: Flags
    var wid: nat
    var prec: nat
    const intbuf: array<byte>

    constructor ()
      ensures buf == [] && intbuf.Length == INTBUF && fresh(intbuf) && wid == prec == 0
      ensures flags == Flags(false, false, false, false, false, false, false)
    {
      buf, flags, wid, prec := [], Flags(false, false, false, false, false, false, false), 0, 0;
      intbuf := new byte[INTBUF](_ => 0);
    }

    /** writePadding. */
    method WritePadding(n: int)
      modifies `buf
      ensures buf == old(buf) + Repeat(if flags.zero && !flags.minus then 48 else 32, n)
    {
      if n <= 0 {
        assert buf + [] == buf;
        return;
      }
      var padByte := SPACE;
      if flags.zero && !flags.minus { padByte := ZERO; }
      var padding := new byte[n](_ => padByte);
      RepeatAll(padding[..], padByte, n);
      buf := buf + padding[..];
    }

    /** pad. */
    method Pad(b: seq<byte>)
      modifies `buf
      ensures buf == old(buf) + Filled(flags, wid, b)
    {
      hide Repeat, Runes;
      if !flags.widPresent || wid == 0 {
        Unpadded(flags, wid, b);
        buf := buf + b;
        return;
      }
      var width := wid - |Runes(b)|;
      ghost var before, fill := buf, Repeat(PadByte(flags), width);
      if !flags.minus {
        WritePadding(width);
        buf := buf + b;
        Assoc(before, fill, b);
      } else {
        buf := buf + b;
        WritePadding(width);
        Assoc(before, b, fill);
      }
    }

    /** fmtInteger. verb 'O' only comes with base 8, and digits is ldigits or udigits. */
    method FmtInteger(u: nat, base: nat, isSigned: bool, bigO: bool, digits: seq<byte>)
      requires u < TWO64 && IsBase(base) && IsDigits(digits) && (bigO ==> base == 8) && intbuf.Length == INTBUF
      modifies `buf, `flags, intbuf
      ensures flags == old(flags) && buf == old(buf) + IntegerText(u, base, isSigned, bigO, digits, flags, wid, prec)
    {
      hide Repeat, Body, Filled, MinDigits;
      var negative := isSigned && u >= TWO63;
      var v := if negative then TWO64 - u else u;
      var b := intbuf;
      if flags.widPresent || flags.precPresent {
        var width := 3 + wid + prec;
        if width > b.Length { b := new byte[width](_ => 0); }
      }
      var oldZero := flags.zero;
      if flags.precPresent && prec == 0 && u == 0 {
        flags := flags.(zero := false);
        WritePadding(wid);
        flags := flags.(zero := oldZero);
        return;
      }
      AppendNumber(b, v, base, digits, bigO, negative);
    }

    /** The rest of fmtInteger, from the choice of the precision on. */
    method AppendNumber(b: array<byte>, v: nat, base: nat, digits: seq<byte>, bigO: bool, negative: bool)
      requires v < TWO64 && IsBase(base) && IsDigits(digits) && (bigO ==> base == 8)
      requires b.Length >= INTBUF && (flags.widPresent || flags.precPresent ==> b.Length >= 3 + wid + prec)
      modifies `buf, `flags, b
      ensures flags == old(flags)
      ensures buf == old(buf) + Filled(flags.(zero := false), wid, Body(v, base, digits, flags, MinDigits(flags, wid, prec, negative), bigO, negative))
    {
      hide Repeat, Body, Filled, MinDigits;
      var oldZero := flags.zero;
      var min: int := 0;
      if flags.precPresent {
        min := prec;
      } else if flags.zero && !flags.minus && flags.widPresent {
        min := wid;
        if negative || flags.plus || flags.space { min := min - 1; }
      }
      Wanted(flags, wid, prec, negative, min, b.Length);
      var i := WriteBody(b, v, base, digits, flags, min, bigO, negative);
      flags := flags.(zero := false);
      Pad(b[i..]);
      flags := flags.(zero := oldZero);
    }
  }

  lemma Unpadded(f: Flags, wid: nat, b: seq<byte>)
    requires !f.widPresent || wid == 0
    ensures Filled(f, wid, b) == b
  {
    assert b + [] == b == [] + b;
  }

  lemma Wanted(f: Flags, wid: nat, prec: nat, negative: bool, min: int, room: nat)
    requires room >= INTBUF && (f.widPresent || f.precPresent ==> room >= 3 + wid + prec)
    requires min == if f.precPresent then prec else if f.zero && !f.minus && f.widPresent
                    then (if negative || f.plus || f.space then wid - 1 else wid) else 0
    ensures min == MinDigits(f, wid, prec, negative) && min <= room - 3
  {
  }

  // ---- writing right to left ----

  /** b from i on holds all but the first digits of u0, which u still has. */
  ghost predicate DigitsDone(b: array<byte>, u0: nat, base: nat, digits: seq<byte>, u: nat, i: int)
    requires IsBase(base) && |digits| == 17
    reads b
  {
    0 <= i <= b.Length && Numeral(u0, base, digits) == Numeral(u, base, digits) + b[i..] && |Numeral(u0, base, digits)| <= b.Length
  }

  lemma NumeralStep(u: nat, base: nat, digits: seq<byte>)
    requires IsBase(base) && |digits| == 17 && u >= base
    ensures Numeral(u, base, digits) == Numeral(u / base, base, digits) + [digits[u % base]]
  {
  }

  lemma DecimalDigit(d: nat, digits: seq<byte>)
    requires d < 10 && IsDigits(digits)
    ensures digits[d] == 48 + d
  {
  }

  lemma Prepend(a: seq<byte>, d: byte, t: seq<byte>)
    ensures (a + [d]) + t == a + ([d] + t)
  {
  }

  /** case 10. */
  method Digits10(b: array<byte>, u0: nat, digits: seq<byte>) returns (u: nat, i: nat)
    requires IsDigits(digits) && |Numeral(u0, 10, digits)| <= b.Length
    modifies b
    ensures u < 10 && DigitsDone(b, u0, 10, digits, u, i)
  {
    hide Numeral;
    u, i := u0, b.Length;
    assert b[i..] == [] && Numeral(u, 10, digits) + [] == Numeral(u, 10, digits);
    while u >= 10
      invariant DigitsDone(b, u0, 10, digits, u, i)
      decreases u
    {
      NumeralStep(u, 10, digits);
      Smaller(u, 10);
      ghost var d, done := digits[u % 10], b[i..];
      i := i - 1;
      var next := u / 10;
      DecimalDigit(u % 10, digits);
      b[i] := 48 + (u - next * 10);
      u := next;
      assert b[i..] == [d] + done;
      Prepend(Numeral(u, 10, digits), d, done);
    }
  }

  /** case 16. */
  method Digits16(b: array<byte>, u0: nat, digits: seq<byte>) returns (u: nat, i: nat)
    requires IsDigits(digits) && |Numeral(u0, 16, digits)| <= b.Length
    modifies b
    ensures u < 16 && DigitsDone(b, u0, 16, digits, u, i)
  {
    hide Numeral;
    u, i := u0, b.Length;
    assert b[i..] == [] && Numeral(u, 16, digits) + [] == Numeral(u, 16, digits);
    while u >= 16
      invariant DigitsDone(b, u0, 16, digits, u, i)
      decreases u
    {
      NumeralStep(u, 16, digits);
      Smaller(u, 16);
      ghost var d, done := digits[u % 16], b[i..];
      i := i - 1;
      b[i] := digits[u % 16];
      u := u / 16;
      assert b[i..] == [d] + done;
      Prepend(Numeral(u, 16, digits), d, done);
    }
  }

  /** case 8. */
  method Digits8(b: array<byte>, u0: nat, digits: seq<byte>) returns (u: nat, i: nat)
    requires IsDigits(digits) && |Numeral(u0, 8, digits)| <= b.Length
    modifies b
    ensures u < 8 && DigitsDone(b, u0, 8, digits, u, i)
  {
    hide Numeral;
    u, i := u0, b.Length;
    assert b[i..] == [] && Numeral(u, 8, digits) + [] == Numeral(u, 8, digits);
    while u >= 8
      invariant DigitsDone(b, u0, 8, digits, u, i)
      decreases u
    {
      NumeralStep(u, 8, digits);
      Smaller(u, 8);
      ghost var d, done := digits[u % 8], b[i..];
      i := i - 1;
      DecimalDigit(u % 8, digits);
      b[i] := 48 + u % 8;
      u := u / 8;
      assert b[i..] == [d] + done;
      Prepend(Numeral(u, 8, digits), d, done);
    }
  }

  /** case 2. */
  method Digits2(b: array<byte>, u0: nat, digits: seq<byte>) returns (u: nat, i: nat)
    requires IsDigits(digits) && |Numeral(u0, 2, digits)| <= b.Length
    modifies b
    ensures u < 2 && DigitsDone(b, u0, 2, digits, u, i)
  {
    hide Numeral;
    u, i := u0, b.Length;
    assert b[i..] == [] && Numeral(u, 2, digits) + [] == Numeral(u, 2, digits);
    while u >= 2
      invariant DigitsDone(b, u0, 2, digits, u, i)
      decreases u
    {
      NumeralStep(u, 2, digits);
      Smaller(u, 2);
      ghost var d, done := digits[u % 2], b[i..];
      i := i - 1;
      DecimalDigit(u % 2, digits);
      b[i] := 48 + u % 2;
      u := u / 2;
      assert b[i..] == [d] + done;
      Prepend(Numeral(u, 2, digits), d, done);
    }
  }

  /** The switch on the base, and the last digit. */
  method WriteDigits(b: array<byte>, v: nat, base: nat, digits: seq<byte>) returns (i: nat)
    requires IsBase(base) && IsDigits(digits) && |Numeral(v, base, digits)| <= b.Length
    modifies b
    ensures i <= b.Length && b[i..] == Numeral(v, base, digits)
  {
    var u: nat;
    if base == 10 { u, i := Digits10(b, v, digits); }
    else if base == 16 { u, i := Digits16(b, v, digits); }
    else if base == 8 { u, i := Digits8(b, v, digits); }
    else { u, i := Digits2(b, v, digits); }
    i := Push(b, i, digits[u]);
    hide Numeral;
  }

  /** i--; buf[i] = c. */
  method Push(b: array<byte>, i: nat, c: byte) returns (j: nat)
    requires 0 < i <= b.Length
    modifies b
    ensures j == i - 1 && b[j..] == [c] + old(b[i..])
  {
    j := i - 1;
    ghost var t := b[i..];
    b[j] := c;
    assert b[j..] == [c] + t;
  }

  /** The digits and the zeros in front of them. */
  method WriteNumber(b: array<byte>, v: nat, base: nat, digits: seq<byte>, min: int) returns (i: nat)
    requires IsBase(base) && IsDigits(digits) && |Numeral(v, base, digits)| <= b.Length && min <= b.Length
    modifies b
    ensures i <= b.Length && b[i..] == Padded(v, base, digits, min)
  {
    hide Numeral, Repeat;
    i := WriteDigits(b, v, base, digits);
    i := WriteZeros(b, i, min);
  }

  /** The loop that adds zeros up to the precision. */
  method WriteZeros(b: array<byte>, i0: nat, min: int) returns (i: nat)
    requires i0 <= b.Length && min <= b.Length
    modifies b
    ensures i <= b.Length && b[i..] == Repeat(ZERO, min - (b.Length - i0)) + old(b[i0..])
  {
    hide *;
    i := i0;
    ghost var t := b[i0..];
    NoZeros(0, t);
    while i > 0 && min > b.Length - i
      invariant i <= i0 && b[i..] == Zeros(i0 - i, t)
      invariant i == i0 || i0 - i <= min - (b.Length - i0)
    {
      i := Push(b, i, ZERO);
      OneZero(i0 - i, t);
    }
    NoZeros(min - (b.Length - i0), t);
    ZerosAre(min - (b.Length - i0), t);
  }

  /** t with n zeros in front. */
  function Zeros(n: int, t: seq<byte>): seq<byte> {
    Repeat(ZERO, n) + t
  }

  lemma ZerosAre(n: int, t: seq<byte>)
    ensures Zeros(n, t) == Repeat(ZERO, n) + t
  {
  }

  lemma NoZeros(n: int, t: seq<byte>)
    ensures n <= 0 ==> Zeros(n, t) == Zeros(0, t) == t
  {
    NoRepeat(ZERO, n);
    NoRepeat(ZERO, 0);
    assert [] + t == t;
  }

  lemma OneZero(n: nat, t: seq<byte>)
    requires n > 0
    ensures Zeros(n, t) == [ZERO] + Zeros(n - 1, t)
  {
    OneMore(ZERO, n, t);
  }

  lemma OneMore(c: byte, n: nat, t: seq<int>)
    requires n > 0
    ensures Repeat(c, n) + t == [c] + (Repeat(c, n - 1) + t)
  {
  }

  /** Everything but the padding, ending at the end of the buffer. */
  method WriteBody(b: array<byte>, v: nat, base: nat, digits: seq<byte>, f: Flags, min: int, bigO: bool, negative: bool)
    returns (i: nat)
    requires v < TWO64 && IsBase(base) && IsDigits(digits) && (bigO ==> base == 8) && b.Length >= INTBUF && min <= b.Length - 3
    modifies b
    ensures i <= b.Length && b[i..] == Body(v, base, digits, f, min, bigO, negative)
  {
    hide Padded, Repeat, Numeral, SharpPrefix, Sign;
    AtMost64(v, base, digits);
    BodyFits(v, base, digits, f, min, bigO, negative, b.Length);
    i := WriteNumber(b, v, base, digits, min);
    ghost var number := Padded(v, base, digits, min);
    ghost var sharp := if f.sharp then SharpPrefix(base, digits, number) else [];
    if f.sharp { i := WriteSharp(b, i, base, digits, number); } else { assert [] + number == number; }
    ghost var t := b[i..];
    if bigO { i := WriteTwo(b, i, 111); }
    ghost var t2 := b[i..];
    i := WriteSign(b, i, f, negative);
    BodyParts(f, negative, bigO, sharp, number, t, t2, b[i..]);
  }

  /** A prefix of '0' and a letter. */
  method WriteTwo(b: array<byte>, i0: nat, letter: byte) returns (i: nat)
    requires 2 <= i0 <= b.Length
    modifies b
    ensures i == i0 - 2 && b[i..] == [ZERO, letter] + old(b[i0..])
  {
    ghost var t := b[i0..];
    i := Push(b, i0, letter);
    i := Push(b, i, ZERO);
    assert [ZERO] + ([letter] + t) == [ZERO, letter] + t;
  }

  method WriteSign(b: array<byte>, i0: nat, f: Flags, negative: bool) returns (i: nat)
    requires |Sign(f, negative)| <= i0 <= b.Length
    modifies b
    ensures i == i0 - |Sign(f, negative)| && b[i..] == Sign(f, negative) + old(b[i0..])
  {
    i := i0;
    ghost var t := b[i0..];
    assert [] + t == t;
    if negative { i := Push(b, i, 45); }
    else if f.plus { i := Push(b, i, 43); }
    else if f.space { i := Push(b, i, SPACE); }
  }

  /** The switch under f.sharp. */
  method WriteSharp(b: array<byte>, i0: nat, base: nat, digits: seq<byte>, ghost number: seq<byte>) returns (i: nat)
    requires IsBase(base) && |digits| == 17 && |number| >= 1 && i0 <= b.Length && b[i0..] == number
    requires i0 >= |SharpPrefix(base, digits, number)|
    modifies b
    ensures i <= b.Length && b[i..] == SharpPrefix(base, digits, number) + number
  {
    i := i0;
    assert b[i] == number[0];
    if base == 2 {
      i := WriteTwo(b, i, 98);
    } else if base == 8 {
      if b[i] != ZERO { i := Push(b, i, ZERO); }
    } else if base == 16 {
      i := WriteTwo(b, i, digits[16]);
    }
    assert [] + number == number;
  }

  lemma BodyParts(f: Flags, negative: bool, bigO: bool, sharp: seq<byte>, number: seq<byte>, t: seq<byte>, t2: seq<byte>, all: seq<byte>)
    requires t == sharp + number
    requires t2 == (if bigO then [ZERO, 111] + t else t)
    requires all == Sign(f, negative) + t2
    ensures all == Sign(f, negative) + (if bigO then [ZERO, 111] else []) + sharp + number
  {
    hide Sign;
    var sign, o := Sign(f, negative), if bigO then [ZERO, 111] else [];
    assert t2 == o + t;
    hide *;
    Grouped(sign, o, sharp, number);
  }

  lemma Grouped(a: seq<byte>, b: seq<byte>, c: seq<byte>, d: seq<byte>)
    ensures a + (b + (c + d)) == a + b + c + d
  {
    assert a + b + c + d == a + b + (c + d);
  }

  /** The buffer is never too small: 68 bytes, or three more than the digits asked for. */
  lemma BodyFits(v: nat, base: nat, digits: seq<byte>, f: Flags, min: int, bigO: bool, negative: bool, room: nat)
    requires v < TWO64 && IsBase(base) && |digits| == 17 && (bigO ==> base == 8) && room >= INTBUF && min <= room - 3
    ensures |Body(v, base, digits, f, min, bigO, negative)| <= room
  {
    AtMost64(v, base, digits);
    hide Numeral;
    var number := Padded(v, base, digits, min);
    if min > |Numeral(v, base, digits)| { assert number[0] == ZERO; }
  }

  lemma BodyAscii(v: nat, base: nat, digits: seq<byte>, f: Flags, min: int, bigO: bool, negative: bool)
    requires IsBase(base) && IsDigits(digits)
    ensures var t := Body(v, base, digits, f, min, bigO, negative); forall i :: 0 <= i < |t| ==> t[i] < RUNE_SELF
  {
    NumeralAscii(v, base, digits);
    hide Numeral, Repeat;
  }

  lemma {:induction false} NumeralAscii(v: nat, base: nat, digits: seq<byte>)
    requires IsBase(base) && IsDigits(digits)
    ensures forall i :: 0 <= i < |Numeral(v, base, digits)| ==> Numeral(v, base, digits)[i] < RUNE_SELF
    decreases v
  {
    assert forall d :: 0 <= d < 17 ==> digits[d] < RUNE_SELF;
    if v < base {
    } else {
      Smaller(v, base);
      NumeralAscii(v / base, base, digits);
    }
  }

  lemma {:induction false} RepeatAll(t: seq<byte>, c: byte, n: int)
    requires n >= 0 && |t| == n && forall i :: 0 <= i < n ==> t[i] == c
    ensures t == Repeat(c, n)
  {
  }

  lemma NoRepeat(c: byte, n: int)
    ensures n <= 0 ==> Repeat(c, n) == []
  {
  }

  /** ASCII text has as many runes as bytes. */
  lemma {:induction false} AsciiCount(b: seq<byte>)
    requires forall i :: 0 <= i < |b| ==> b[i] < RUNE_SELF
    ensures |Runes(b)| == |b|
    decreases |b|
  {
    if b == [] {
    } else {
      AsciiCount(b[1..]);
    }
  }
}
