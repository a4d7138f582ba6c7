/** Character references of go/src/html/escape.go: the in-place pass of UnescapeString beside a
    decoder that reads left to right and writes to a fresh buffer. */
module Html {
  import opened Arrays
  import opened Utf8

  const AMP: byte := 38
  const HASH: byte := 35
  const SEMI: byte := 59
  const LOWER_X: byte := 120
  const UPPER_X: byte := 88

  /** What 0x80 to 0x9F stand for in Windows-1252. */
  const REPLACEMENTS: seq<int> := [
    0x20AC, 0x0081, 0x201A, 0x0192, 0x201E, 0x2026, 0x2020, 0x2021,
    0x02C6, 0x2030, 0x0160, 0x2039, 0x0152, 0x008D, 0x017D, 0x008F,
    0x0090, 0x2018, 0x2019, 0x201C, 0x201D, 0x2022, 0x2013, 0x2014,
    0x02DC, 0x2122, 0x0161, 0x203A, 0x0153, 0x009D, 0x017E, 0x0178]

  const LONGEST_WITHOUT_SEMICOLON := 6

  type Entities = map<seq<byte>, int>
  type Entities2 = map<seq<byte>, (int, int)>

  /** A Go map lookup: 0 for a name that is not there. */
  function Get(entity: Entities, name: seq<byte>): int {
    if name in entity then entity[name] else 0
  }

  function Get2(entity2: Entities2, name: seq<byte>): (int, int) {
    if name in entity2 then entity2[name] else (0, 0)
  }

  /** No replacement is wider than the reference it replaces, '&' included. */
  ghost predicate Narrow(entity: Entities, entity2: Entities2) {
    && (forall name :: Get(entity, name) != 0 ==> |EncodeRune(Get(entity, name))| <= |name| + 1)
    && (forall name :: Get2(entity2, name).0 != 0 ==>
          |EncodeRune(Get2(entity2, name).0)| + |EncodeRune(Get2(entity2, name).1)| <= |name| + 1)
  }

  // ---- what a character reference means ----

  function DigitValue(c: byte, hex: bool): int {
    if 48 <= c <= 57 then c - 48
    else if hex && 97 <= c <= 102 then c - 97 + 10
    else if hex && 65 <= c <= 70 then c - 65 + 10
    else -1
  }

  predicate IsAlnum(c: byte) {
    97 <= c <= 122 || 65 <= c <= 90 || 48 <= c <= 57
  }

  /** The end of the run of digits from i. */
  function DigitEnd(s: seq<byte>, i: nat, hex: bool): (e: nat)
    requires i <= |s|
    ensures i <= e <= |s|
    decreases |s| - i
  {
    if i < |s| && DigitValue(s[i], hex) >= 0 then DigitEnd(s, i + 1, hex) else i
  }

  function AlnumEnd(s: seq<byte>, i: nat): (e: nat)
    requires i <= |s|
    ensures i <= e <= |s|
    decreases |s| - i
  {
    if i < |s| && IsAlnum(s[i]) then AlnumEnd(s, i + 1) else i
  }

  /** The number that digits spell, however large. */
  function Number(digits: seq<byte>, hex: bool): int {
    if digits == [] then 0
    else (if hex then 16 else 10) * Number(digits[..|digits| - 1], hex) + DigitValue(digits[|digits| - 1], hex)
  }

  /** Conversion to a 32-bit rune, wrapping around. */
  function Int32(v: int): (x: int)
    ensures -0x8000_0000 <= x < 0x8000_0000
  {
    var m := v % 0x1_0000_0000;
    if m >= 0x8000_0000 then m - 0x1_0000_0000 else m
  }

  function Repaired(x: int): int {
    if 0x80 <= x <= 0x9F then REPLACEMENTS[x - 0x80]
    else if x == 0 || 0xD800 <= x <= 0xDFFF || x > 0x10FFFF then RUNE_ERROR
    else x
  }

  /** One optional ';' belongs to the reference. */
  function WithSemi(s: seq<byte>, e: nat): (n: nat)
    requires e <= |s|
    ensures e <= n <= |s|
  {
    if e < |s| && s[e] == SEMI then e + 1 else e
  }

  /** What a reference decodes to and how much text it takes. */
  datatype Ref = Ref(text: seq<byte>, len: nat)

  const Literal := Ref([AMP], 1)

  /** "&#" and a number: kept as text unless at least four bytes of it belong to the reference. */
  function NumericRef(s: seq<byte>): (r: Ref)
    requires |s| >= 2
  {
    if |s| <= 3 then Literal
    else
      var hex := s[2] == LOWER_X || s[2] == UPPER_X;
      var start := if hex then 3 else 2;
      var e := DigitEnd(s, start, hex);
      var n := WithSemi(s, e);
      if n <= 3 then Literal
      else Ref(EncodeRune(Repaired(Int32(Number(s[start..e], hex)))), n)
  }

  /** The longest proper prefix of at most j bytes (and at least two) that is a name; 0 if none. */
  function LongestPrefix(name: seq<byte>, j: nat, entity: Entities): (k: nat)
    requires j <= |name|
    ensures k <= j && (k != 0 ==> k > 1 && Get(entity, name[..k]) != 0)
    ensures forall l :: 1 < l <= j && Get(entity, name[..l]) != 0 ==> l <= k
  {
    if j <= 1 then 0
    else if Get(entity, name[..j]) != 0 then j
    else LongestPrefix(name, j - 1, entity)
  }

  function NamedRef(s: seq<byte>, entity: Entities, entity2: Entities2): Ref
    requires |s| >= 1
  {
    var n := WithSemi(s, AlnumEnd(s, 1));
    var name := s[1..n];
    if name == [] then Ref(s[..n], n)
    else if Get(entity, name) != 0 then Ref(EncodeRune(Get(entity, name)), n)
    else if Get2(entity2, name).0 != 0 then
      Ref(EncodeRune(Get2(entity2, name).0) + EncodeRune(Get2(entity2, name).1), n)
    else
      var maxLen := if |name| - 1 > LONGEST_WITHOUT_SEMICOLON then LONGEST_WITHOUT_SEMICOLON else |name| - 1;
      var k := LongestPrefix(name, maxLen, entity);
      if k != 0 then Ref(EncodeRune(Get(entity, name[..k])), k + 1) else Ref(s[..n], n)
  }

  function Reference(s: seq<byte>, entity: Entities, entity2: Entities2): (r: Ref)
    requires |s| >= 1 && s[0] == AMP
    ensures 1 <= r.len <= |s|
  {
    if |s| <= 1 then Literal
    else if s[1] == HASH then NumericRef(s)
    else NamedRef(s, entity, entity2)
  }

  /** The whole text decoded. */
  function Unescape(s: seq<byte>, entity: Entities, entity2: Entities2): seq<byte>
    decreases |s|
  {
    if s == [] then []
    else if s[0] == AMP then
      var r := Reference(s, entity, entity2);
      r.text + Unescape(s[r.len..], entity, entity2)
    else [s[0]] + Unescape(s[1..], entity, entity2)
  }

  // ---- the width argument ----

  /** A decoded reference is never longer than the text it replaces. */
  lemma ReferenceNarrow(s: seq<byte>, entity: Entities, entity2: Entities2)
    requires |s| >= 1 && s[0] == AMP && Narrow(entity, entity2)
    ensures |Reference(s, entity, entity2).text| <= Reference(s, entity, entity2).len
  {
    hide Int32, Repaired, Number, DigitEnd, AlnumEnd, NamedRef, Narrow;
    NamedRefNarrow(s, entity, entity2);
  }

  lemma NamedRefNarrow(s: seq<byte>, entity: Entities, entity2: Entities2)
    requires |s| >= 1 && Narrow(entity, entity2)
    ensures |NamedRef(s, entity, entity2).text| <= NamedRef(s, entity, entity2).len
  {
    hide EncodeRune, AlnumEnd, WithSemi, LongestPrefix, Get, Get2;
  }

  /** Wrapping at every digit is wrapping once. */
  lemma Int32Step(v: int, d: int, hex: bool)
    ensures Int32((if hex then 16 else 10) * Int32(v) + d) == Int32((if hex then 16 else 10) * v + d)
  {
    var q := Int32Quotient(v);
    hide Int32;
    if hex { Int32Shift(16 * Int32(v) + d, 16 * q); } else { Int32Shift(10 * Int32(v) + d, 10 * q); }
  }

  lemma Int32Quotient(v: int) returns (q: int)
    ensures v == Int32(v) + 0x1_0000_0000 * q
  {
    q := if Int32(v) < 0 then v / 0x1_0000_0000 + 1 else v / 0x1_0000_0000;
  }

  lemma Int32Shift(a: int, q: int)
    ensures Int32(a + 0x1_0000_0000 * q) == Int32(a)
  {
  }

  // ---- the in-place pass ----

  /** utf8.EncodeRune(b[dst:], x); the text from keep on is out of its way. */
  method PutRune(b: array<byte>, dst: nat, x: int, ghost keep: nat) returns (n: nat)
    requires dst + |EncodeRune(x)| <= keep <= b.Length
    modifies b
    ensures n == |EncodeRune(x)| && b[..dst + n] == old(b[..dst]) + EncodeRune(x) && b[keep..] == old(b[keep..])
  {
    hide EncodeRune;
    var e := EncodeRune(x);
    ghost var before := b[..dst];
    n := |e|;
    forall k | 0 <= k < n { b[dst + k] := e[k]; }
    assert b[..dst] == before && b[dst..dst + n] == e;
    assert b[..dst + n] == b[..dst] + b[dst..dst + n];
  }

  /** The two runes of a two-rune reference, one after the other. */
  method PutRunes(b: array<byte>, dst: nat, x0: int, x1: int, ghost keep: nat) returns (n: nat)
    requires dst + |EncodeRune(x0)| + |EncodeRune(x1)| <= keep <= b.Length
    modifies b
    ensures n == |EncodeRune(x0)| + |EncodeRune(x1)|
    ensures b[..dst + n] == old(b[..dst]) + (EncodeRune(x0) + EncodeRune(x1)) && b[keep..] == old(b[keep..])
  {
    hide EncodeRune;
    ghost var before := b[..dst];
    var n0 := PutRune(b, dst, x0, keep);
    var n1 := PutRune(b, dst + n0, x1, keep);
    n := n0 + n1;
    Assoc(before, EncodeRune(x0), EncodeRune(x1));
  }

  /** The digit loop: the rune, and the index in s = b[src:] after the reference. */
  method ScanNumber(b: array<byte>, src: nat, start: nat, hex: bool) returns (x: int, i: nat)
    requires src + start <= b.Length
    ensures var s := b[src..]; var e := DigitEnd(s, start, hex);
      x == Int32(Number(s[start..e], hex)) && i == WithSemi(s, e)
  {
    hide Int32, Number;
    ghost var s := b[src..];
    x, i := 0, start;
    assert s[start..start] == [];
    NoNumber(hex);
    while i < b.Length - src
      invariant start <= i <= |s|
      invariant DigitEnd(s, start, hex) == DigitEnd(s, i, hex)
      invariant x == Int32(Number(s[start..i], hex))
    {
      var c := b[src + i];
      assert c == s[i];
      i := i + 1;
      NumberStep(s, start, i - 1, hex);
      if hex {
        if 48 <= c <= 57 {
          x := Int32(16 * x + c - 48);
          continue;
        } else if 97 <= c <= 102 {
          x := Int32(16 * x + c - 97 + 10);
          continue;
        } else if 65 <= c <= 70 {
          x := Int32(16 * x + c - 65 + 10);
          continue;
        }
      } else if 48 <= c <= 57 {
        x := Int32(10 * x + c - 48);
        continue;
      }
      if c != SEMI { i := i - 1; }
      break;
    }
  }

  lemma NoNumber(hex: bool)
    ensures Int32(Number([], hex)) == 0
  {
  }

  lemma NumberStep(s: seq<byte>, start: nat, i: nat, hex: bool)
    requires start <= i < |s|
    ensures var v, d := Number(s[start..i], hex), DigitValue(s[i], hex);
      Int32(Number(s[start..i + 1], hex)) == Int32((if hex then 16 else 10) * Int32(v) + d)
  {
    var t := s[start..i + 1];
    assert t[..|t| - 1] == s[start..i] && t[|t| - 1] == s[i];
    Int32Step(Number(s[start..i], hex), DigitValue(s[i], hex), hex);
  }

  /** The name loop: the index in s = b[src:] after the longest possible name. */
  method ScanName(b: array<byte>, src: nat) returns (i: nat)
    requires src < b.Length
    ensures i == WithSemi(b[src..], AlnumEnd(b[src..], 1))
  {
    ghost var s := b[src..];
    i := 1;
    while i < b.Length - src
      invariant 1 <= i <= |s| && AlnumEnd(s, 1) == AlnumEnd(s, i)
    {
      var c := b[src + i];
      assert c == s[i];
      i := i + 1;
      if 97 <= c <= 122 || 65 <= c <= 90 || 48 <= c <= 57 { continue; }
      if c != SEMI { i := i - 1; }
      break;
    }
  }

  /** What unescapeEntity promises of the text in the array: what is before dst stays, the
      decoded reference follows, and everything from the new src on is still as it was. */
  ghost predicate Placed(was: seq<byte>, now: seq<byte>, dst: nat, src: nat, dst1: nat, src1: nat, r: Ref) {
    dst <= dst1 <= src1 <= |now| == |was| && src <= src1
    && src1 == src + r.len && dst1 == dst + |r.text|
    && now[..dst] == was[..dst] && now[dst..dst1] == r.text && now[src1..] == was[src1..]
  }

  method UnescapeEntity(b: array<byte>, dst: nat, src: nat, entity: Entities, entity2: Entities2)
    returns (dst1: nat, src1: nat)
    requires dst <= src < b.Length && b[src] == AMP && Narrow(entity, entity2)
    modifies b
    ensures Placed(old(b[..]), b[..], dst, src, dst1, src1, Reference(old(b[src..]), entity, entity2))
  {
    hide Placed, NumericRef, NamedRef, Narrow;
    if b.Length - src <= 1 {
      dst1, src1 := KeepAmp(b, dst, src);
    } else if b[src + 1] == HASH {
      dst1, src1 := UnescapeNumber(b, dst, src);
    } else {
      dst1, src1 := UnescapeName(b, dst, src, entity, entity2);
    }
  }

  /** b[dst] = b[src]; return dst + 1, src + 1. */
  method KeepAmp(b: array<byte>, dst: nat, src: nat) returns (dst1: nat, src1: nat)
    requires dst <= src < b.Length && b[src] == AMP
    modifies b
    ensures Placed(old(b[..]), b[..], dst, src, dst1, src1, Literal)
  {
    b[dst] := b[src];
    return dst + 1, src + 1;
  }

  /** The part of unescapeEntity for "&#". */
  method UnescapeNumber(b: array<byte>, dst: nat, src: nat) returns (dst1: nat, src1: nat)
    requires dst <= src && src + 2 <= b.Length && b[src] == AMP
    modifies b
    ensures Placed(old(b[..]), b[..], dst, src, dst1, src1, NumericRef(old(b[src..])))
  {
    hide EncodeRune, Number, Int32, DigitEnd, WithSemi, Repaired, Placed;
    ghost var s := b[src..];
    var i, x := 0, 0;
    if b.Length - src > 3 {
      var c := b[src + 2];
      assert c == s[2];
      var hex := c == LOWER_X || c == UPPER_X;
      x, i := ScanNumber(b, src, if hex then 3 else 2, hex);
    }
    assert NumericRef(s) == if i <= 3 then Literal else Ref(EncodeRune(Repaired(x)), i);
    hide NumericRef;
    if i <= 3 {
      dst1, src1 := KeepAmp(b, dst, src);
    } else {
      var rune := RepairRune(x);
      dst1, src1 := PutReference(b, dst, src, rune, i);
    }
  }

  /** The replacement of invalid and Windows-1252 values. */
  method RepairRune(x0: int) returns (x: int)
    ensures x == Repaired(x0)
  {
    x := x0;
    if 0x80 <= x <= 0x9F {
      x := REPLACEMENTS[x - 0x80];
    } else if x == 0 || 0xD800 <= x <= 0xDFFF || x > 0x10FFFF {
      x := RUNE_ERROR;
    }
  }

  /** The part of unescapeEntity for a name. */
  method UnescapeName(b: array<byte>, dst: nat, src: nat, entity: Entities, entity2: Entities2)
    returns (dst1: nat, src1: nat)
    requires dst <= src < b.Length && b[src] == AMP && Narrow(entity, entity2)
    modifies b
    ensures Placed(old(b[..]), b[..], dst, src, dst1, src1, NamedRef(old(b[src..]), entity, entity2))
  {
    hide EncodeRune, AlnumEnd, WithSemi, LongestPrefix, Get, Get2, Narrow, Placed;
    ghost var s := b[src..];
    var i := ScanName(b, src);
    var entityName := b[src + 1..src + i];
    assert entityName == s[1..i] && s[..i] == b[src..src + i];
    NamedRefNarrow(s, entity, entity2);
    ghost var r := NamedRef(s, entity, entity2);
    if |entityName| == 0 {
      dst1, src1 := KeepText(b, dst, src, i);
    } else if Get(entity, entityName) != 0 {
      dst1, src1 := PutReference(b, dst, src, Get(entity, entityName), i);
    } else if Get2(entity2, entityName).0 != 0 {
      var x := Get2(entity2, entityName);
      dst1, src1 := PutPair(b, dst, src, x.0, x.1, i);
    } else {
      dst1, src1 := UnescapePrefix(b, dst, src, i, entity, r);
    }
  }

  /** copy(b[dst:], b[src:src+i]), for text that is no reference. */
  method KeepText(b: array<byte>, dst: nat, src: nat, i: nat) returns (dst1: nat, src1: nat)
    requires dst <= src && src + i <= b.Length
    modifies b
    ensures Placed(old(b[..]), b[..], dst, src, dst1, src1, Ref(old(b[src..src + i]), i))
  {
    dst1, src1 := dst + i, src + i;
    CopyWithin(b, dst, src, i);
  }

  /** One rune for a reference of len bytes. */
  method PutReference(b: array<byte>, dst: nat, src: nat, x: int, len: nat) returns (dst1: nat, src1: nat)
    requires dst <= src && src + len <= b.Length && |EncodeRune(x)| <= len
    modifies b
    ensures Placed(old(b[..]), b[..], dst, src, dst1, src1, Ref(EncodeRune(x), len))
  {
    hide EncodeRune;
    ghost var before := b[..dst];
    var n := PutRune(b, dst, x, src + len);
    FrontParts(b, before, EncodeRune(x));
    dst1, src1 := dst + n, src + len;
  }

  /** Two runes for a reference of len bytes. */
  method PutPair(b: array<byte>, dst: nat, src: nat, x0: int, x1: int, len: nat) returns (dst1: nat, src1: nat)
    requires dst <= src && src + len <= b.Length && |EncodeRune(x0)| + |EncodeRune(x1)| <= len
    modifies b
    ensures Placed(old(b[..]), b[..], dst, src, dst1, src1, Ref(EncodeRune(x0) + EncodeRune(x1), len))
  {
    hide EncodeRune;
    ghost var before := b[..dst];
    var n := PutRunes(b, dst, x0, x1, src + len);
    FrontParts(b, before, EncodeRune(x0) + EncodeRune(x1));
    dst1, src1 := dst + n, src + len;
  }

  /** No name matches as a whole: the longest prefix that does, or the text as it is. */
  method UnescapePrefix(b: array<byte>, dst: nat, src: nat, i: nat, entity: Entities, ghost r: Ref)
    returns (dst1: nat, src1: nat)
    requires dst <= src && 1 < i && src + i <= b.Length && |r.text| <= r.len
    requires var name := b[src + 1..src + i];
      var k := LongestPrefix(name, if |name| - 1 > LONGEST_WITHOUT_SEMICOLON then LONGEST_WITHOUT_SEMICOLON else |name| - 1, entity);
      r == if k != 0 then Ref(EncodeRune(Get(entity, name[..k])), k + 1) else Ref(b[src..src + i], i)
    modifies b
    ensures Placed(old(b[..]), b[..], dst, src, dst1, src1, r)
  {
    hide EncodeRune, LongestPrefix, Get, Placed;
    var entityName := b[src + 1..src + i];
    var maxLen := |entityName| - 1;
    if maxLen > LONGEST_WITHOUT_SEMICOLON { maxLen := LONGEST_WITHOUT_SEMICOLON; }
    var j := FindPrefix(entityName, maxLen, entity);
    if j > 1 {
      dst1, src1 := PutReference(b, dst, src, Get(entity, entityName[..j]), j + 1);
    } else {
      dst1, src1 := KeepText(b, dst, src, i);
    }
  }

  /** The loop over ever shorter prefixes of the name. */
  method FindPrefix(entityName: seq<byte>, maxLen: nat, entity: Entities) returns (j: nat)
    requires maxLen <= |entityName|
    ensures j == LongestPrefix(entityName, maxLen, entity)
  {
    j := maxLen;
    while j > 1
      invariant j <= maxLen && LongestPrefix(entityName, maxLen, entity) == LongestPrefix(entityName, j, entity)
    {
      if Get(entity, entityName[..j]) != 0 { return; }
      j := j - 1;
    }
    j := 0;
  }

  /** strings.IndexByte(s[from:], '&'), as an index into s; |s| when there is none. */
  method IndexAmp(s: seq<byte>, from: nat) returns (k: nat)
    requires from <= |s|
    ensures from <= k <= |s| && (k < |s| ==> s[k] == AMP) && forall j :: from <= j < k ==> s[j] != AMP
  {
    k := from;
    while k < |s| && s[k] != AMP
      invariant from <= k <= |s| && forall j :: from <= j < k ==> s[j] != AMP
    {
      k := k + 1;
    }
  }

  /** Text up to the next '&' decodes to itself. */
  lemma {:induction false} PlainRun(s: seq<byte>, i: nat, k: nat, entity: Entities, entity2: Entities2)
    requires i <= k <= |s| && forall j :: i <= j < k ==> s[j] != AMP
    ensures Unescape(s[i..], entity, entity2) == s[i..k] + Unescape(s[k..], entity, entity2)
    decreases k - i
  {
    hide Unescape;
    if i == k {
    } else {
      PlainRun(s, i + 1, k, entity, entity2);
      PlainByte(s[i..], entity, entity2);
      DropTwice(s, i, 1);
      assert s[i..k] == [s[i]] + s[i + 1..k];
      Assoc([s[i]], s[i + 1..k], Unescape(s[k..], entity, entity2));
    }
  }

  lemma PlainByte(s: seq<byte>, entity: Entities, entity2: Entities2)
    requires s != [] && s[0] != AMP
    ensures Unescape(s, entity, entity2) == [s[0]] + Unescape(s[1..], entity, entity2)
  {
    hide Reference;
  }

  /** One round of the loop: the text up to k as it is, then the reference at k. */
  lemma Round(s: seq<byte>, done: seq<byte>, src: nat, k: nat, r: Ref, entity: Entities, entity2: Entities2)
    requires src <= k < |s| && s[k] == AMP && forall j :: src <= j < k ==> s[j] != AMP
    requires r == Reference(s[k..], entity, entity2)
    requires Unescape(s, entity, entity2) == done + Unescape(s[src..], entity, entity2)
    ensures k + r.len <= |s|
    ensures Unescape(s, entity, entity2) == done + s[src..k] + r.text + Unescape(s[k + r.len..], entity, entity2)
  {
    hide Reference;
    PlainRun(s, src, k, entity, entity2);
    assert s[k..][r.len..] == s[k + r.len..];
    hide Unescape;
  }

  /** What the loop keeps: the output so far, and the original text still unread in place. */
  ghost predicate Unescaping(b: array<byte>, s: seq<byte>, dst: nat, src: nat, entity: Entities, entity2: Entities2)
    reads b
  {
    dst <= src <= |s| == b.Length && b[src..] == s[src..]
    && Unescape(s, entity, entity2) == b[..dst] + Unescape(s[src..], entity, entity2)
  }

  /** unescapeEntity at the '&' at index k, after the plain text before it has been moved. */
  method UnescapeAt(b: array<byte>, ghost s: seq<byte>, dst: nat, src: nat, k: nat, ghost done: seq<byte>,
                    entity: Entities, entity2: Entities2)
    returns (dst1: nat, src1: nat)
    requires dst <= src <= k < |s| == b.Length && b[k..] == s[k..] && s[k] == AMP && Narrow(entity, entity2)
    requires forall j :: src <= j < k ==> s[j] != AMP
    requires b[..dst + (k - src)] == done + s[src..k]
    requires Unescape(s, entity, entity2) == done + Unescape(s[src..], entity, entity2)
    modifies b
    ensures Unescaping(b, s, dst1, src1, entity, entity2) && src < src1
  {
    hide Reference, Unescape, Narrow;
    assert b[k] == b[k..][0] == s[k];
    ghost var r := Reference(s[k..], entity, entity2);
    Round(s, done, src, k, r, entity, entity2);
    dst1, src1 := UnescapeEntity(b, dst + (k - src), k, entity, entity2);
    assert b[..dst1] == b[..dst + (k - src)] + b[dst + (k - src)..dst1];
    assert b[src1..] == s[k..][src1 - k..] == s[src1..];
  }

  method UnescapeString(s: seq<byte>, entity: Entities, entity2: Entities2) returns (r: seq<byte>)
    requires Narrow(entity, entity2)
    ensures r == Unescape(s, entity, entity2)
  {
    hide Reference, Narrow, Unescape;
    assert s[0..] == s && Unescape(s, entity, entity2) == [] + Unescape(s[0..], entity, entity2);
    var i := IndexAmp(s, 0);
    if i == |s| {
      Finish(s, [], 0, entity, entity2);
      return s;
    }
    var b := new byte[|s|](k requires 0 <= k < |s| => s[k]);
    assert b[..] == s && b[i..] == s[i..] && b[..i] == [] + s[0..i];
    var dst, src := UnescapeAt(b, s, 0, 0, i, [], entity, entity2);
    dst := UnescapeLoop(b, s, dst, src, entity, entity2);
    return b[..dst];
  }

  /** The loop of UnescapeString; returns the final dst. */
  method UnescapeLoop(b: array<byte>, s: seq<byte>, dst0: nat, src0: nat, entity: Entities, entity2: Entities2)
    returns (dst: nat)
    requires Unescaping(b, s, dst0, src0, entity, entity2) && Narrow(entity, entity2)
    modifies b
    ensures dst <= b.Length && b[..dst] == Unescape(s, entity, entity2)
  {
    hide Narrow, Unescape;
    dst := dst0;
    var src := src0;
    while src < |s|
      invariant Unescaping(b, s, dst, src, entity, entity2)
      decreases |s| - src
    {
      ghost var done := b[..dst];
      var i := IndexAmp(s, src);
      if i == |s| {
        Finish(s, done, src, entity, entity2);
        MoveText(b, s, dst, src, i);
        assert s[src..i] == s[src..];
        dst := dst + (|s| - src);
        return;
      }
      if i > src { MoveText(b, s, dst, src, i); } else { assert s[src..i] == []; }
      dst, src := UnescapeAt(b, s, dst, src, i, done, entity, entity2);
    }
    Finish(s, b[..dst], src, entity, entity2);
    assert s[src..] == [];
  }

  /** copy(b[dst:], s[src:i]). */
  method MoveText(b: array<byte>, s: seq<byte>, dst: nat, src: nat, i: nat)
    requires dst <= src <= i <= |s| == b.Length && b[src..] == s[src..]
    modifies b
    ensures b[..dst + (i - src)] == old(b[..dst]) + s[src..i] && b[i..] == s[i..]
  {
    assert b[src..i] == b[src..][..i - src] == s[src..i] && b[i..] == b[src..][i - src..] == s[i..];
    CopyWithin(b, dst, src, i - src);
    assert b[..dst + (i - src)] == b[..dst] + b[dst..dst + (i - src)];
  }

  /** No '&' is left. */
  lemma Finish(s: seq<byte>, done: seq<byte>, src: nat, entity: Entities, entity2: Entities2)
    requires src <= |s| && forall j :: src <= j < |s| ==> s[j] != AMP
    requires Unescape(s, entity, entity2) == done + Unescape(s[src..], entity, entity2)
    ensures Unescape(s, entity, entity2) == done + s[src..]
  {
    hide Reference;
    PlainRun(s, src, |s|, entity, entity2);
    assert s[|s|..] == [] && s[src..|s|] == s[src..];
    assert Unescape([], entity, entity2) == [];
  }
}
