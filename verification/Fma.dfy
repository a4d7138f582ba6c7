/** The software fused multiply-add of go/src/math/fma.go. */
module Fma {
  import opened Bits
  import opened Float64

  function Zero(x: nat): nat { if x == 0 then 1 else 0 }
  function Nonzero(x: nat): nat { if x != 0 then 1 else 0 }

  /** Subtraction of machine unsigned counts; a negative result becomes a count of 64 or more. */
  function CountSub(a: nat, b: nat): nat
    requires b < 0x1_0000_0000
  {
    if a >= b then a - b else a + 0x1_0000_0000 - b
  }

  function ShlPair(u1: Word, u2: Word, n: nat): (Word, Word)
    requires n < 0x1_0000_0000
  {
    (WordOr(WordOr(Shl(u1, n), Shr(u2, CountSub(64, n))), Shl(u2, CountSub(n, 64))), Shl(u2, n))
  }

  function ShrPair(u1: Word, u2: Word, n: nat): (Word, Word)
    requires n < 0x1_0000_0000
  {
    (Shr(u1, n), WordOr(WordOr(Shr(u2, n), Shl(u1, CountSub(64, n))), Shr(u1, CountSub(n, 64))))
  }

  function ShrCompress(u1: Word, u2: Word, n: nat): (Word, Word)
    requires n < 0x1_0000_0000
  {
    if n == 0 then (u1, u2)
    else if n == 64 then (0, WordOr(u1, Nonzero(u2)))
    else if n >= 128 then (0, Nonzero(WordOr(u1, u2)))
    else
      var (r1, r2) := ShrPair(u1, u2, n);
      if n < 64 then
        (r1, WordOr(r2, Nonzero(And(u2, Pow2(n) - 1))))
      else
        AndLe(u1, Pow2(n - 64) - 1);
        (r1, WordOr(r2, Nonzero(WordOr(And(u1, Pow2(n - 64) - 1), u2))))
  }

  /** The number a pair of words holds. */
  function Pair(u1: nat, u2: nat): nat { u1 * TWO64 + u2 }

  /** Shifting right by n with every lost bit folded into bit 0. */
  function Compress(v: nat, n: nat): nat {
    if Low(v, n) != 0 && Down(v, n) % 2 == 0 then Down(v, n) + 1 else Down(v, n)
  }

  lemma {:induction false} UpTwo64(x: nat, n: nat)
    ensures Up(x * TWO64, n) == Up(x, n) * TWO64
  {
    if n == 0 {
    } else {
      UpTwo64(x, n - 1);
    }
  }

  /** Shifting a pair right by n < 64 halves the number it holds n times. */
  lemma ShrPairLow(u1: Word, u2: Word, n: nat)
    requires 0 < n < 64
    ensures var (r1, r2) := ShrPair(u1, u2, n);
      Pair(r1, r2) == Down(Pair(u1, u2), n) && Low(Pair(u1, u2), n) == Low(u2, n)
  {
    var q1, l1, q2 := Down(u1, n), Low(u1, n), Down(u2, n);
    ShrPairLowWords(u1, u2, n);
    UpDown(u1, n);
    UpDown(u2, n);
    UpTwo64(q1, n);
    UpUp(l1, 64 - n, n);
    Up64(l1);
    UpAdd(q1 * TWO64 + Up(l1, 64 - n), q2, n);
    UpAdd(q1 * TWO64, Up(l1, 64 - n), n);
    DownUnique(Pair(u1, u2), n, q1 * TWO64 + (Up(l1, 64 - n) + q2), Low(u2, n));
  }

  lemma ShrPairLowWords(u1: Word, u2: Word, n: nat)
    requires 0 < n < 64
    ensures ShrPair(u1, u2, n) == (Down(u1, n), Up(Low(u1, n), 64 - n) + Down(u2, n))
  {
    hide Up, Down, Low, Or, Pow2, Shl;
    UpDown(u1, n);
    DownBound(u2, n);
    ShlBits(u1, 64 - n);
    ShiftedOut(u1, CountSub(n, 64));
    OrDisjoint(Low(u1, n), Down(u2, n), 64 - n);
    OrBit(Up(Low(u1, n), 64 - n) + Down(u2, n), 0);
  }

  lemma DownBound(x: Word, n: nat)
    requires n <= 64
    ensures Down(x, n) < Pow2(64 - n)
  {
    Pow2Constants();
    UpDown(x, n);
    if Down(x, n) >= Pow2(64 - n) {
      UpMono(Pow2(64 - n), Down(x, n), n);
      Pow2Up(64 - n, n);
    }
  }

  /** Shifting by more than 64 leaves the high word, shifted. */
  lemma ShrPairHigh(u1: Word, u2: Word, n: nat)
    requires 64 < n < 128
    ensures ShrPair(u1, u2, n) == (0, Down(u1, n - 64))
    ensures Down(Pair(u1, u2), n) == Down(u1, n - 64)
    ensures Low(Pair(u1, u2), n) == Low(u1, n - 64) * TWO64 + u2
  {
    ShiftedOut(u1, n);
    ShiftedOut(u2, n);
    ShiftedOut(u1, CountSub(64, n));
    var q, l := Down(u1, n - 64), Low(u1, n - 64);
    UpDown(u1, n - 64);
    UpUp(q, n - 64, 64);
    Up64(Up(q, n - 64));
    Pow2Up(n - 64, 64);
    Up64(Pow2(n - 64));
    DownUnique(Pair(u1, u2), n, q, l * TWO64 + u2);
  }

  /** What the comment on shrcompress promises, for every count. */
  lemma ShrCompressValue(u1: Word, u2: Word, n: nat)
    requires n < 0x1_0000_0000
    ensures var (r1, r2) := ShrCompress(u1, u2, n);
      Pair(r1, r2) == Compress(Pair(u1, u2), n)
  {
    if n == 0 {
    } else if n == 64 {
      Pow2Constants();
      Up64(u1);
      DownUnique(Pair(u1, u2), 64, u1, u2);
      OrBit(u1, Nonzero(u2));
    } else if n >= 128 {
      OrZero(u1, u2);
      PairBelow(u1, u2, n);
    } else if n < 64 {
      ShrCompressLow(u1, u2, n);
    } else {
      ShrCompressHigh(u1, u2, n);
    }
  }

  lemma ShrCompressLow(u1: Word, u2: Word, n: nat)
    requires 0 < n < 64
    ensures var (r1, r2) := ShrCompress(u1, u2, n);
      Pair(r1, r2) == Compress(Pair(u1, u2), n)
  {
    hide ShrPair, Or, And, Low, Down, Pow2;
    var (r1, r2) := ShrPair(u1, u2, n);
    ShrPairLow(u1, u2, n);
    Mask(u2, n);
    OrBit(r2, Nonzero(Low(u2, n)));
    PairCompressed(r1, r2, WordOr(r2, Nonzero(Low(u2, n))), Pair(u1, u2), n);
  }

  lemma PairCompressed(r1: Word, r2: Word, r2': Word, v: nat, n: nat)
    requires Pair(r1, r2) == Down(v, n)
    requires r2' == if Low(v, n) != 0 && r2 % 2 == 0 then r2 + 1 else r2
    ensures Pair(r1, r2') == Compress(v, n)
  {
    hide Low, Down;
  }

  lemma ShrCompressHigh(u1: Word, u2: Word, n: nat)
    requires 64 < n < 128
    ensures var (r1, r2) := ShrCompress(u1, u2, n);
      Pair(r1, r2) == Compress(Pair(u1, u2), n)
  {
    ShrPairHigh(u1, u2, n);
    Mask(u1, n - 64);
    OrZero(Low(u1, n - 64), u2);
    DownLe(u1, n - 64);
    OrBit(Down(u1, n - 64), Nonzero(Or(Low(u1, n - 64), u2)));
  }

  lemma PairBelow(u1: Word, u2: Word, n: nat)
    requires n >= 128
    ensures Down(Pair(u1, u2), n) == 0 && Low(Pair(u1, u2), n) == Pair(u1, u2)
  {
    Pow2Constants();
    Pow2Up(64, 64);
    Up64(Pow2(64));
    Pow2Mono(128, n);
    UpOne(n);
    DownUnique(Pair(u1, u2), n, 0, Pair(u1, u2));
  }

  /** Shifting a pair left without overflow doubles the number it holds n times. */
  lemma ShlPairValue(u1: Word, u2: Word, n: nat)
    requires n < 128 && Up(Pair(u1, u2), n) < TWO64 * TWO64
    ensures var (r1, r2) := ShlPair(u1, u2, n);
      Pair(r1, r2) == Up(Pair(u1, u2), n)
  {
    hide ShlPair, Up;
    UpAdd(u1 * TWO64, u2, n);
    UpTwo64(u1, n);
    if n == 0 {
      ShlPairNone(u1, u2);
    } else if n < 64 {
      ShlPairLow(u1, u2, n);
    } else {
      ShlPairHigh(u1, u2, n);
    }
  }

  lemma ShlPairNone(u1: Word, u2: Word)
    ensures ShlPair(u1, u2, 0) == (u1, u2) && Up(Pair(u1, u2), 0) == Pair(u1, u2)
  {
    ShiftedOut(u2, 64);
    ShiftedOut(u2, CountSub(0, 64));
    OrBit(u1, 0);
    hide Shr, Or;
  }

  lemma ShlPairLow(u1: Word, u2: Word, n: nat)
    requires 0 < n < 64 && Up(u1, n) * TWO64 + Up(u2, n) < TWO64 * TWO64
    ensures var (r1, r2) := ShlPair(u1, u2, n);
      Pair(r1, r2) == Up(u1, n) * TWO64 + Up(u2, n)
  {
    var q2, l2 := Down(u2, 64 - n), Low(u2, 64 - n);
    assert Up(u2, n) == q2 * TWO64 + Up(l2, n) by {
      UpDown(u2, 64 - n);
      UpAdd(Up(q2, 64 - n), l2, n);
      UpUp(q2, 64 - n, n);
      Up64(q2);
    }
    ShlPairLowWords(u1, u2, n);
  }

  lemma ShlPairLowWords(u1: Word, u2: Word, n: nat)
    requires 0 < n < 64 && Up(u1, n) < TWO64
    ensures ShlPair(u1, u2, n) == (Up(u1, n) + Down(u2, 64 - n), Up(Low(u2, 64 - n), n))
  {
    hide Up, Down, Low, Or, Pow2, Shr;
    ShlFits(u1, n);
    ShrIs(u2, 64 - n);
    ShlBits(u2, n);
    ShiftedOut(u2, CountSub(n, 64));
    DownBound(u2, 64 - n);
    OrDisjoint(u1, Down(u2, 64 - n), n);
    OrBit(Up(u1, n) + Down(u2, 64 - n), 0);
  }

  lemma ShlPairHigh(u1: Word, u2: Word, n: nat)
    requires 64 <= n < 128 && Up(u1, n) * TWO64 + Up(u2, n) < TWO64 * TWO64
    ensures var (r1, r2) := ShlPair(u1, u2, n);
      Pair(r1, r2) == Up(u1, n) * TWO64 + Up(u2, n)
  {
    assert u1 == 0 by {
      Pow2Constants();
      Pow2Mono(64, n);
      UpOne(n);
      if u1 > 0 { UpMono(1, u1, n); }
    }
    UpOne(n);
    UpUp(u2, n - 64, 64);
    Up64(Up(u2, n - 64));
    ShlPairHighWords(u2, n);
  }

  lemma ShlPairHighWords(u2: Word, n: nat)
    requires 64 <= n < 128 && Up(u2, n - 64) < TWO64
    ensures ShlPair(0, u2, n) == (Up(u2, n - 64), 0)
  {
    hide Up, Down, Shl, Shr, Or, Pow2;
    ShiftedOut(0, n);
    ShiftedOut(u2, n);
    OrBit(Up(u2, n - 64), 0);
    ShlFits(u2, n - 64);
    if n == 64 {
      ShrZero(u2);
      OrSelf(u2);
      OrZeroLeft(u2);
    } else {
      ShiftedOut(u2, CountSub(64, n));
      OrZeroLeft(Up(u2, n - 64));
    }
    OrZeroLeft(0);
  }

  lemma ShrIs(u: Word, n: nat)
    ensures Shr(u, n) == Down(u, n)
  {
  }

  lemma ShlFits(u: Word, n: nat)
    requires Up(u, n) < TWO64
    ensures Shl(u, n) == Up(u, n)
  {
  }

  /** The place of the sign bit. */
  lemma UpSign(sign: nat)
    requires sign <= 1
    ensures Up(sign, 63) == sign * SIGNMASK
  {
    Pow2Constants();
    UpOne(63);
  }

  lemma OrZeroLeft(x: nat)
    ensures Or(0, x) == x
  {
  }

  lemma ShrZero(u: Word)
    ensures Shr(u, 0) == u && Up(u, 0) == u
  {
  }

  /** Sign, biased exponent and 53-bit mantissa of a finite operand. */
  datatype Parts = Parts(sign: nat, exp: int, mant: Word)

  function Split(b: Word): Parts {
    FieldsOf(b);
    var sign := Shr(b, 63);
    var exp := And(Shr(b, 52), EXPMASK);
    var mant := And(b, FRACMASK);
    if exp == 0 then
      LeadingZerosOfFrac(mant);
      var shift := LeadingZeros(mant) - 11;
      Parts(sign, 1 - shift, Shl(mant, shift))
    else
      Parts(sign, exp, Or(mant, HIDDEN))
  }

  lemma FieldsOf(b: Word)
    ensures Shr(b, 63) == Sign(b) && And(Shr(b, 52), EXPMASK) == Expo(b) && And(b, FRACMASK) == Frac(b)
    ensures Or(Frac(b), HIDDEN) == HIDDEN + Frac(b)
  {
    Pow2Constants();
    DownConst(b);
    LowConst(b / HIDDEN);
    Mask(Shr(b, 52), 11);
    Mask(b, 52);
    OrHidden(Frac(b), HIDDEN);
  }

  lemma OrHidden(f: nat, h: nat)
    requires f < h == HIDDEN
    ensures Or(f, h) == h + f
  {
    Pow2Constants();
    UpOne(52);
    OrDisjoint(1, f, 52);
  }

  lemma DownConst(b: Word)
    ensures Down(b, 63) == b / SIGNMASK && Down(b, 52) == b / HIDDEN && Low(b, 52) == b % HIDDEN
  {
    Pow2Constants();
    UpFrac(b / HIDDEN);
    DownUnique(b, 52, b / HIDDEN, b % HIDDEN);
    UpFrac(b / SIGNMASK);
    UpUp(b / SIGNMASK, 52, 11);
    Up11(Up(b / SIGNMASK, 52));
    DownUnique(b, 63, b / SIGNMASK, b % SIGNMASK);
  }

  lemma LowConst(e: nat)
    ensures Low(e, 11) == e % 0x800
  {
    Pow2Constants();
    Up11(e / 0x800);
    DownUnique(e, 11, e / 0x800, e % 0x800);
  }

  lemma Up10(x: nat)
    ensures Up(x, 10) == x * 0x400
  {
    Up8(x);
    Up2(x, 8);
  }

  lemma Up11(x: nat)
    ensures Up(x, 11) == x * 0x800
  {
    Up10(x);
  }

  lemma UpFrac(x: nat)
    ensures Up(x, 52) == x * HIDDEN
  {
    Up64(x);
    Up10(Up(x, 52));
    UpUp(x, 52, 10);
    Up2(x, 62);
  }

  lemma LeadingZerosOfFrac(m: Word)
    requires m < HIDDEN
    ensures 12 <= LeadingZeros(m) <= 64
    ensures m > 0 ==> LeadingZeros(m) <= 63
  {
    Pow2Constants();
    LenBounds(m, 52);
  }

  /** An addend: sign, exponent and two-word significand, worth hi:lo * 2^(exp - 1149). */
  datatype Num = Num(sign: nat, exp: int, hi: Word, lo: Word)

  /** The full 128-bit product, as math/bits.Mul64. */
  function Mul64(a: Word, b: Word): (Word, Word) {
    TimesIsProduct(a, b);
    MulMono(a, TWO64 - 1, b);
    (Times(a, b) / TWO64, Times(a, b) % TWO64)
  }

  /** Multiplication by repeated addition. */
  function Times(a: nat, b: nat): nat {
    if b == 0 then 0 else Times(a, b - 1) + a
  }

  lemma {:induction false} TimesIsProduct(a: nat, b: nat)
    ensures Times(a, b) == a * b
  {
    if b == 0 {
    } else {
      TimesIsProduct(a, b - 1);
      assert a * b == a * (b - 1) + a;
    }
  }

  lemma MulMono(a: int, b: int, c: int)
    requires a <= b && c >= 0
    ensures a * c <= b * c
  {
    assert (b - a) * c >= 0;
  }

  function Product(x: Parts, y: Parts): Num {
    var (pm1, pm2) := Mul64(Shl(x.mant, 10), Shl(y.mant, 11));
    Normalize62(Xor(x.sign, y.sign), x.exp + y.exp - BIAS + 1, pm1, pm2)
  }

  function Normalize62(sign: nat, exp: int, pm1: Word, pm2: Word): Num {
    Mask(Shr(Not(pm1), 62), 1);
    var is62zero := And(Shr(Not(pm1), 62), 1);
    var (hi, lo) := ShlPair(pm1, pm2, is62zero);
    Num(sign, exp - is62zero, hi, lo)
  }

  function Addend(z: Parts): Num {
    Num(z.sign, z.exp, Shl(z.mant, 10), 0)
  }

  /** The rounded-to-be sum: sign, exponent and a 63-bit significand with its sticky bit. */
  datatype Total = Total(sign: nat, exp: int, m: Word)

  /** Adds z to p, where |p| >= |z| and the sum is not zero. */
  function Sum(p: Num, z: Num): Total {
    var (zm1, zm2) := ShrCompress(z.hi, z.lo, (p.exp - z.exp) % 0x1_0000_0000);
    if p.sign == z.sign then AddPairs(p, zm1, zm2) else SubPairs(p, zm1, zm2)
  }

  function AddPairs(p: Num, zm1: Word, zm2: Word): Total {
    var lo, c := (p.lo + zm2) % TWO64, (p.lo + zm2) / TWO64;
    var hi := (p.hi + zm1 + c) % TWO64;
    TopBit(hi);
    var (_, m) := ShrCompress(hi, lo, 64 + Shr(hi, 63));
    Total(p.sign, p.exp - Shr(Not(hi), 63), m)
  }

  function SubPairs(p: Num, zm1: Word, zm2: Word): Total {
    var lo, c := (p.lo - zm2) % TWO64, if p.lo < zm2 then 1 else 0;
    var hi := (p.hi - zm1 - c) % TWO64;
    var nz := LeadingZerosPair(hi, lo);
    var (m, rest) := ShlPair(hi, lo, CountSub(nz, 1));
    Total(p.sign, p.exp - nz, WordOr(m, Nonzero(rest)))
  }

  function LeadingZerosPair(u1: Word, u2: Word): (l: nat)
    ensures l <= 128
  {
    var l := LeadingZeros(u1);
    if l == 64 then l + LeadingZeros(u2) else l
  }

  lemma TopBit(x: Word)
    ensures Shr(x, 63) == if x >= SIGNMASK then 1 else 0
    ensures Shr(Not(x), 63) == if x >= SIGNMASK then 0 else 1
  {
    DownConst(x);
    DownConst(Not(x));
  }

  datatype Outcome = Bits(word: Word) | HardwareMulAdd | HardwareMul

  /** FMA. The three early returns that leave the arithmetic to the processor are named, not modelled. */
  function FMA(x: Word, y: Word, z: Word): Outcome {
    if Abs(x) == 0 || Abs(y) == 0 || And(x, UVINF) == UVINF || And(y, UVINF) == UVINF then HardwareMulAdd
    else if Abs(z) == 0 then HardwareMul
    else if And(z, UVINF) == UVINF then Bits(z)
    else
      var p, a := Product(Split(x), Split(y)), Addend(Split(z));
      if p.exp < a.exp || (p.exp == a.exp && p.hi < a.hi) then Bits(Finish(a, p)) else Bits(Finish(p, a))
  }

  function Finish(p: Num, z: Num): Word {
    if p.sign != z.sign && p.exp == z.exp && p.hi == z.hi && p.lo == z.lo then 0
    else
      var t := Sum(p, z);
      Pack(t.sign, t.exp, t.m)
  }

  /** Rounds and encodes; the arithmetic of the words wraps. */
  function Pack(sign: nat, exp: int, m: Word): Word {
    if exp > 1022 + BIAS || (exp == 1022 + BIAS && Shr((m + 0x200) % TWO64, 63) == 1) then
      (Up(sign, 63) + UVINF) % TWO64
    else
      var m, pe := if exp < 0 then ShrSticky(m, -exp) else m, if exp < 0 then 0 else exp;
      var f := And(Shr((m + 0x200) % TWO64, 10), Not(Zero(Xor(And(m, 0x3FF), 0x200))));
      (Up(sign, 63) + Up(if f == 0 then 0 else pe, 52) + f) % TWO64
  }

  function ShrSticky(m: Word, n: nat): Word {
    WordOr(Shr(m, n), Nonzero(And(m, Pow2(n) - 1)))
  }
}
