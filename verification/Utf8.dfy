/** UTF-8 as the buffered readers and the HTML package use it (sections 3 and 4 of RFC 3629). */
module Utf8 {
  type byte = x: int | 0 <= x < 256

  const RUNE_ERROR := 0xFFFD
  const MAX_RUNE := 0x10FFFF
  const RUNE_SELF := 0x80
  const UTF_MAX := 4

  predicate IsRune(r: int) {
    0 <= r <= MAX_RUNE && !(0xD800 <= r <= 0xDFFF)
  }

  /** The bytes of a rune; anything that is not one is encoded as U+FFFD. */
  function EncodeRune(r: int): (s: seq<byte>)
    ensures 1 <= |s| <= 4
    ensures !IsRune(r) ==> |s| == 3
  {
    if !IsRune(r) then [0xEF, 0xBF, 0xBD]
    else if r < 0x80 then [r]
    else if r < 0x800 then [0xC0 + r / 0x40, 0x80 + r % 0x40]
    else if r < 0x10000 then [0xE0 + r / 0x1000, 0x80 + r / 0x40 % 0x40, 0x80 + r % 0x40]
    else [0xF0 + r / 0x40000, 0x80 + r / 0x1000 % 0x40, 0x80 + r / 0x40 % 0x40, 0x80 + r % 0x40]
  }

  /** The length that a first byte announces: 1 also for a byte that starts nothing. */
  function Announced(b: byte): (n: nat)
    ensures 1 <= n <= 4
  {
    if 0xC2 <= b <= 0xDF then 2 else if 0xE0 <= b <= 0xEF then 3 else if 0xF0 <= b <= 0xF4 then 4 else 1
  }

  predicate IsContinuation(b: byte) { 0x80 <= b <= 0xBF }

  /** The second bytes a first byte allows: no overlong form, no surrogate, nothing past U+10FFFF. */
  predicate Second(b0: byte, b1: byte) {
    IsContinuation(b1)
    && (b0 == 0xE0 ==> b1 >= 0xA0) && (b0 == 0xED ==> b1 <= 0x9F)
    && (b0 == 0xF0 ==> b1 >= 0x90) && (b0 == 0xF4 ==> b1 <= 0x8F)
  }

  datatype Decoded = Decoded(r: int, w: nat)

  /** What a byte carries besides its marker bits. */
  function Payload(b: byte, marker: int): int { var v: int := b; v - marker }

  /** The first rune of s and its width: U+FFFD and 1 for a byte that starts no rune. */
  function DecodeRune(s: seq<byte>): (d: Decoded)
    ensures s != [] ==> 1 <= d.w <= |s| && d.w <= 4
    ensures s == [] ==> d == Decoded(RUNE_ERROR, 0)
    ensures IsRune(d.r)
  {
    if s == [] then Decoded(RUNE_ERROR, 0)
    else if s[0] < RUNE_SELF then Decoded(s[0], 1)
    else
      var n := Announced(s[0]);
      if n == 1 || |s| < n || !Second(s[0], s[1]) then Decoded(RUNE_ERROR, 1)
      else if n == 2 then Decoded(Payload(s[0], 0xC0) * 0x40 + Payload(s[1], 0x80), 2)
      else if !IsContinuation(s[2]) then Decoded(RUNE_ERROR, 1)
      else if n == 3 then Decoded(Payload(s[0], 0xE0) * 0x1000 + Payload(s[1], 0x80) * 0x40 + Payload(s[2], 0x80), 3)
      else if !IsContinuation(s[3]) then Decoded(RUNE_ERROR, 1)
      else Decoded(Payload(s[0], 0xF0) * 0x40000 + Payload(s[1], 0x80) * 0x1000 + Payload(s[2], 0x80) * 0x40 + Payload(s[3], 0x80), 4)
  }

  /** s starts with a whole rune, or with a byte that more input cannot turn into one. */
  predicate FullRune(s: seq<byte>) {
    |s| > 0
    && (|s| >= Announced(s[0]) || (|s| > 1 && !Second(s[0], s[1])) || (|s| > 2 && !IsContinuation(s[2])))
  }

  /** The runes of a text, as a range loop sees them. */
  function Runes(s: seq<byte>): seq<int>
    decreases |s|
  {
    if s == [] then [] else [DecodeRune(s).r] + Runes(s[DecodeRune(s).w..])
  }

  /** The UTF-8 form in literals: the marker of the first byte says how many bytes there are, and the
      payload bits, six from each later byte, spell the rune. */
  lemma EncodeForm(r: int)
    requires IsRune(r)
    ensures var s := EncodeRune(r);
      if r < 0x80 then s == [r]
      else if r < 0x800 then
        |s| == 2 && 0xC2 <= s[0] <= 0xDF && IsContinuation(s[1]) && r == Payload(s[0], 0xC0) * 0x40 + Payload(s[1], 0x80)
      else if r < 0x10000 then
        |s| == 3 && 0xE0 <= s[0] <= 0xEF && Second(s[0], s[1]) && IsContinuation(s[2])
        && r == Payload(s[0], 0xE0) * 0x1000 + Payload(s[1], 0x80) * 0x40 + Payload(s[2], 0x80)
      else
        |s| == 4 && 0xF0 <= s[0] <= 0xF4 && Second(s[0], s[1]) && IsContinuation(s[2]) && IsContinuation(s[3])
        && r == Payload(s[0], 0xF0) * 0x40000 + Payload(s[1], 0x80) * 0x1000 + Payload(s[2], 0x80) * 0x40 + Payload(s[3], 0x80)
  {
    if r < 0x800 { Sixes(r, 0, 0, r / 0x40); } else if r < 0x10000 { ThreeBytes(r); } else { FourBytes(r); }
  }

  /** What is no rune is encoded as U+FFFD. */
  lemma EncodeInvalid(r: int)
    requires !IsRune(r)
    ensures EncodeRune(r) == EncodeRune(0xFFFD)
  {
  }

  lemma ThreeBytes(r: int)
    requires IsRune(r) && 0x800 <= r < 0x10000
    ensures 0xE0 + r / 0x1000 < 0xF0 && Second(0xE0 + r / 0x1000, 0x80 + r / 0x40 % 0x40)
    ensures r == r / 0x1000 * 0x1000 + r / 0x40 % 0x40 * 0x40 + r % 0x40
  {
    Sixes(r, 0, r / 0x1000, r / 0x40);
  }

  lemma FourBytes(r: int)
    requires 0x10000 <= r <= MAX_RUNE
    ensures 0xF0 + r / 0x40000 <= 0xF4 && Second(0xF0 + r / 0x40000, 0x80 + r / 0x1000 % 0x40)
    ensures r == r / 0x40000 * 0x40000 + r / 0x1000 % 0x40 * 0x1000 + r / 0x40 % 0x40 * 0x40 + r % 0x40
  {
    Sixes(r, r / 0x40000, r / 0x1000, r / 0x40);
  }

  /** A rune in groups of six bits. */
  lemma Sixes(r: int, a: int, b: int, c: int)
    requires 0 <= r && c == r / 0x40
    ensures r == c * 0x40 + r % 0x40
    ensures b == r / 0x1000 ==> c == b * 0x40 + c % 0x40
    ensures b == r / 0x1000 && a == r / 0x40000 ==> b == a * 0x40 + b % 0x40
  {
  }

  /** An encoded rune is decoded to itself, whatever follows, and never before its last byte. */
  lemma EncodeDecode(r: int, rest: seq<byte>)
    requires IsRune(r)
    ensures DecodeRune(EncodeRune(r) + rest) == Decoded(r, |EncodeRune(r)|)
    ensures FullRune(EncodeRune(r)) && forall k | 0 <= k < |EncodeRune(r)| :: !FullRune(EncodeRune(r)[..k])
  {
    EncodeForm(r);
    var e := EncodeRune(r);
    hide EncodeRune;
    var s := e + rest;
    assert forall i | 0 <= i < |e| :: s[i] == e[i];
  }

  /** A sequence is full exactly if more bytes cannot change its first rune. */
  lemma FullRuneExactly(d: seq<byte>) returns (e: seq<byte>)
    requires d != []
    ensures !FullRune(d) ==> DecodeRune(d + e) != DecodeRune(d)
    ensures FullRune(d) ==> forall f :: DecodeRune(d + f) == DecodeRune(d)
  {
    e := [];
    if FullRune(d) {
      forall f ensures DecodeRune(d + f) == DecodeRune(d) { DecodeStable(d, f); }
    } else {
      var second: byte := if d[0] == 0xE0 then 0xA0 else if d[0] == 0xF0 then 0x90 else 0x80;
      e := [second, 0x80, 0x80][|d| - 1..Announced(d[0]) - 1];
      DecodePartial(d, 0);
      assert d[0..] == d;
      Completed(d, e, d + e);
    }
  }

  lemma Completed(d: seq<byte>, e: seq<byte>, s: seq<byte>)
    requires d != [] && !FullRune(d) && s == d + e
    requires e == [if d[0] == 0xE0 then 0xA0 else if d[0] == 0xF0 then 0x90 else 0x80, 0x80, 0x80][|d| - 1..Announced(d[0]) - 1]
    ensures DecodeRune(s).w == Announced(d[0]) > 1
  {
    hide DecodeRune;
    var n, second: byte := Announced(d[0]), if d[0] == 0xE0 then 0xA0 else if d[0] == 0xF0 then 0x90 else 0x80;
    var tail := [second, 0x80, 0x80];
    assert n > 1 && |d| < n && |s| == n && s[0] == d[0];
    assert s[1] == if |d| > 1 then d[1] else tail[0];
    if n > 2 { assert s[2] == if |d| > 2 then d[2] else tail[1]; }
    if n > 3 { assert s[3] == tail[2]; }
    WholeDecodes(s);
  }

  lemma WholeDecodes(s: seq<byte>)
    requires s != [] && |s| == Announced(s[0]) > 1 && Second(s[0], s[1])
    requires (|s| > 2 ==> IsContinuation(s[2])) && (|s| > 3 ==> IsContinuation(s[3]))
    ensures DecodeRune(s).w == |s|
  {
  }

  /** A text made of runes. */
  function TextOf(rs: seq<int>): seq<byte> {
    if rs == [] then [] else EncodeRune(rs[0]) + TextOf(rs[1..])
  }

  /** Decoding gives back the runes a text was made of. */
  lemma {:induction false} RunesOfText(rs: seq<int>)
    requires forall i | 0 <= i < |rs| :: IsRune(rs[i])
    ensures Runes(TextOf(rs)) == rs
  {
    if rs == [] {
    } else {
      var e, rest := EncodeRune(rs[0]), TextOf(rs[1..]);
      RunesOfText(rs[1..]);
      EncodeDecode(rs[0], rest);
      hide EncodeRune, DecodeRune, FullRune;
      assert (e + rest)[|e|..] == rest;
    }
  }

  /** A full rune does not depend on what follows. */
  lemma DecodeStable(d: seq<byte>, e: seq<byte>)
    requires FullRune(d)
    ensures DecodeRune(d + e) == DecodeRune(d) && FullRune(d + e)
  {
    var s := d + e;
    assert s[0] == d[0] && (|d| > 1 ==> s[1] == d[1]) && (|d| > 2 ==> s[2] == d[2]) && (|d| > 3 ==> s[3] == d[3]);
  }

  /** The beginning of a rune decodes to nothing but one error per byte. */
  lemma DecodePartial(d: seq<byte>, j: nat)
    requires j < |d| && !FullRune(d)
    ensures DecodeRune(d[j..]) == Decoded(RUNE_ERROR, 1) && |d| < 4 && d[0] >= RUNE_SELF
    ensures j > 0 ==> IsContinuation(d[j])
  {
    assert d[j..][0] == d[j];
  }

  /** Decoding and encoding again gives the same bytes, unless the input was in error. */
  lemma DecodeEncode(s: seq<byte>)
    requires s != [] && DecodeRune(s) != Decoded(RUNE_ERROR, 1)
    ensures EncodeRune(DecodeRune(s).r) == s[..DecodeRune(s).w]
  {
    var d := DecodeRune(s);
    if d.w == 2 {
      Digits2(Payload(s[0], 0xC0), Payload(s[1], 0x80));
    } else if d.w == 3 {
      Digits3(Payload(s[0], 0xE0), Payload(s[1], 0x80), Payload(s[2], 0x80));
    } else if d.w == 4 {
      Digits4(Payload(s[0], 0xF0), Payload(s[1], 0x80), Payload(s[2], 0x80), Payload(s[3], 0x80));
    }
  }

  lemma Digits2(a: int, b: int)
    requires 0 <= b < 0x40
    ensures (a * 0x40 + b) / 0x40 == a && (a * 0x40 + b) % 0x40 == b
  {
  }

  lemma Digits3(a: int, b: int, c: int)
    requires 0 <= b < 0x40 && 0 <= c < 0x40
    ensures var r := a * 0x1000 + b * 0x40 + c;
      r / 0x1000 == a && r / 0x40 % 0x40 == b && r % 0x40 == c
  {
    Digits2(a * 0x40 + b, c);
    Digits2(a, b);
  }

  lemma Digits4(a: int, b: int, c: int, d: int)
    requires 0 <= b < 0x40 && 0 <= c < 0x40 && 0 <= d < 0x40
    ensures var r := a * 0x40000 + b * 0x1000 + c * 0x40 + d;
      r / 0x40000 == a && r / 0x1000 % 0x40 == b && r / 0x40 % 0x40 == c && r % 0x40 == d
  {
    Digits2(a * 0x1000 + b * 0x40 + c, d);
    Digits3(a, b, c);
    var r := a * 0x40000 + b * 0x1000 + c * 0x40 + d;
    assert r / 0x1000 == a * 0x40 + b;
  }
}
