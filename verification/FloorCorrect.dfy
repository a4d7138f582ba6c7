/** Truncation and rounding on raw bits return the integer their comments define, for every
    bit pattern (IEEE 754-2008 section 5.9). */
module FloorCorrect {
  import opened Bits
  import opened Float64
  import opened Fma
  import opened Floor

  /** The magnitude-level definitions of the comments: drop the fraction, then add one when
      the fraction reaches a half, or passes it, or meets it on an odd integer. */
  function Away(v: real): int {
    if v - v.Floor as real >= 0.5 then v.Floor + 1 else v.Floor
  }

  function ToEven(v: real): int {
    var d := v - v.Floor as real;
    if d > 0.5 || (d == 0.5 && v.Floor % 2 == 1) then v.Floor + 1 else v.Floor
  }

  /** Both are nearest integers; they differ in what they do with a tie. */
  lemma NearestInteger(v: real, n: int)
    ensures AbsReal(Away(v) as real - v) <= AbsReal(n as real - v)
    ensures AbsReal(ToEven(v) as real - v) <= AbsReal(n as real - v)
    ensures AbsReal(n as real - v) == 0.5 ==> Away(v) >= n && (ToEven(v) == n <==> n % 2 == 0)
  {
    hide Away, ToEven;
    FloorSplit(v);
  }

  lemma FloorSplit(v: real)
    ensures var f := v.Floor; var d := v - f as real;
      0.0 <= d < 1.0
      && Away(v) == (if d < 0.5 then f else f + 1)
      && ToEven(v) == (if d < 0.5 || (d == 0.5 && f % 2 == 0) then f else f + 1)
  {
  }

  /** r is the pattern of the integer n with the sign of b. */
  ghost predicate IsInteger(r: Word, b: Word, n: int) {
    Finite(r) && Sign(r) == Sign(b) && Mag(Abs(r)) == n as real
  }

  /** Bits of a finite pattern with magnitude at least one and below 2^52: the significand f
      stands for f / 2^s. */
  lemma Significand(b: Word, s: nat)
    requires BIAS <= Expo(b) < BIAS + 52 && s == BIAS + 52 - Expo(b)
    ensures var f := HIDDEN + Frac(b);
      Mag(Abs(b)) == Scale(f as real, 0 - s) && Low(b, s) == Low(f, s) && 1 <= s <= 52
      && Abs(b) == (Expo(b) - 1) * HIDDEN + f
      && b == Sign(b) * SIGNMASK + Abs(b) && Sign(b) <= 1
  {
    var f := HIDDEN + Frac(b);
    WordFields(b);
    EncodeMag(Expo(b) - 1, f);
    LowAbove(Sign(b) * 0x800 + Expo(b) - 1, f, s);
  }

  lemma WordFields(b: Word)
    ensures b == Sign(b) * SIGNMASK + Abs(b) && Abs(b) == Expo(b) * HIDDEN + Frac(b) && Sign(b) <= 1
    ensures Expo(b) <= 2047 && Frac(b) < HIDDEN
  {
  }

  /** The low s <= 52 bits do not see what is above them. */
  lemma LowAbove(h: nat, f: nat, s: nat)
    requires s <= 52
    ensures Low(h * HIDDEN + f, s) == Low(f, s)
    ensures Down(h * HIDDEN + f, s) == Up(h, 52 - s) + Down(f, s)
  {
    hide *;
    UpDown(f, s);
    UpFrac(h);
    UpUp(h, 52 - s, s);
    UpAdd(Up(h, 52 - s), Down(f, s), s);
    DownUnique(h * HIDDEN + f, s, Up(h, 52 - s) + Down(f, s), Low(f, s));
  }

  /** Clearing the low s bits of a pattern near b leaves the pattern of the quotient. */
  lemma Cleared(b: Word, s: nat, x: nat, w: Word)
    requires BIAS <= Expo(b) < BIAS + 52 && s == BIAS + 52 - Expo(b)
    requires x <= Pow2(s - 1) && w == b + x
    ensures AndNot(w, Pow2(s) - 1) < TWO64
    ensures IsInteger(AndNot(w, Pow2(s) - 1), b, Down(HIDDEN + Frac(b) + x, s))
  {
    hide Up, Down, Low, Mag, Scale, Sign, Expo, Frac, Abs, IsInteger, AndNot, Pow2;
    var f := HIDDEN + Frac(b);
    var q := Down(f + x, s);
    WordFields(b);
    Significand(b, s);
    Mask(w, s);
    RoundedSignificand(f, s, x);
    LowAbove(Sign(b) * 0x800 + Expo(b) - 1, f + x, s);
    PatternSum(Sign(b), Expo(b), Frac(b), b, x);
    ClearedValue(Sign(b), Expo(b) - 1, Up(q, s), q, s, AndNot(w, Pow2(s) - 1), b);
  }

  lemma PatternSum(sign: nat, e: nat, frac: nat, b: Word, x: nat)
    requires e >= 1 && b == sign * SIGNMASK + (e * HIDDEN + frac)
    ensures b + x == (sign * 0x800 + e - 1) * HIDDEN + (HIDDEN + frac + x)
  {
  }

  lemma RoundedSignificand(f: nat, s: nat, x: nat)
    requires HIDDEN <= f < 2 * HIDDEN && 1 <= s <= 52 && x <= Pow2(s - 1)
    ensures var q := Down(f + x, s);
      f + x - Low(f + x, s) == Up(q, s) && HIDDEN <= Up(q, s) <= 2 * HIDDEN
  {
    hide Up, Down, Low;
    var q := Down(f + x, s);
    UpDown(f + x, s);
    Pow2Up(52 - s, s);
    Pow2Constants();
    Pow2Up(53 - s, s);
    assert Pow2(s) == 2 * Pow2(s - 1);
    if q < Pow2(52 - s) { UpMono(q, Pow2(52 - s), s); }
    else if q > Pow2(53 - s) { UpMono(Pow2(53 - s), q, s); }
    else { UpMono(q, Pow2(53 - s), s); UpMono(Pow2(52 - s), q, s); }
  }

  lemma ClearedValue(sign: nat, pe: nat, f: nat, q: nat, s: nat, r: nat, b: Word)
    requires sign == Sign(b) <= 1 && pe <= 2045 && s == BIAS + 51 - pe && f == Up(q, s) && HIDDEN <= f <= 2 * HIDDEN
    requires r == (sign * 0x800 + pe) * HIDDEN + f && pe < BIAS + 51
    ensures r < TWO64 && IsInteger(r, b, q)
  {
    EncodeMag(pe, f);
    UpCompare(q, s);
    assert r == sign * SIGNMASK + (pe * HIDDEN + f);
    assert Abs(r) == pe * HIDDEN + f && Sign(r) == sign;
  }

  lemma UpCompare(q: nat, s: nat)
    ensures Scale(Up(q, s) as real, 0 - s) == q as real
  {
    UpScale(q, s, 0 - s);
    assert Scale(q as real, 0) == q as real;
  }

  /** The integer part of f / 2^s, and where its fraction lies. */
  lemma FractionOf(f: nat, s: nat)
    requires s >= 1
    ensures var v, q, l := Scale(f as real, 0 - s), Down(f, s), Low(f, s);
      v.Floor == q && l < Pow2(s)
      && (v - q as real < 0.5) == (l < Pow2(s - 1)) && (v - q as real == 0.5) == (l == Pow2(s - 1))
  {
    var v, q, l := Scale(f as real, 0 - s), Down(f, s), Low(f, s);
    hide Up, Down, Low, Scale, Pow2;
    UpDown(f, s);
    UpCompare(q, s);
    ScaleAdd(Up(q, s) as real, l as real, 0 - s);
    assert v == q as real + Scale(l as real, 0 - s);
    PowerCompare(l, s, s);
    PowerCompare(l, s - 1, s);
    PowerValue(s);
    ScaleNonneg(l, 0 - s);
    FloorIs(v, q);
  }

  lemma FloorIs(v: real, q: int)
    requires q as real <= v < q as real + 1.0
    ensures v.Floor == q
  {
  }

  lemma ScaleNonneg(l: nat, e: int)
    ensures Scale(l as real, e) >= 0.0
  {
    ScalePos(l as real, e);
  }

  lemma PowerCompare(l: nat, k: nat, s: nat)
    ensures (Scale(l as real, 0 - s) < Scale(Pow2(k) as real, 0 - s)) == (l < Pow2(k))
    ensures (Scale(l as real, 0 - s) == Scale(Pow2(k) as real, 0 - s)) == (l == Pow2(k))
  {
    ScaleMono(l as real, Pow2(k) as real, 0 - s);
  }

  lemma PowerValue(s: nat)
    requires s >= 1
    ensures Scale(Pow2(s) as real, 0 - s) == 1.0 && Scale(Pow2(s - 1) as real, 0 - s) == 0.5
  {
    UpOne(s);
    UpCompare(1, s);
    UpOne(s - 1);
    UpScale(1, s - 1, 0 - s);
    assert Scale(1.0, -1) == Scale(1.0, 0) / 2.0;
  }

  /** Adding x carries into the quotient exactly when the low bits and x reach 2^s. */
  lemma Carry(f: nat, s: nat, x: nat)
    requires x < Pow2(s)
    ensures Down(f + x, s) == if Low(f, s) + x >= Pow2(s) then Down(f, s) + 1 else Down(f, s)
  {
    hide *;
    UpDown(f, s);
    var q, l := Down(f, s), Low(f, s);
    if l + x >= Pow2(s) {
      UpAdd(q, 1, s);
      UpOne(s);
      DownUnique(f + x, s, q + 1, l + x - Pow2(s));
    } else {
      DownUnique(f + x, s, q, l + x);
    }
  }

  /** The constants the code shifts right by e. */
  lemma ShiftedConstants(e: nat)
    requires e <= 51
    ensures Shr(0x8_0000_0000_0000, e) == Pow2(51 - e) && Shr(0x7_FFFF_FFFF_FFFF, e) == Pow2(51 - e) - 1
    ensures Shr(FRACMASK, e) == Pow2(52 - e) - 1
  {
    Pow2Constants();
    ShiftedOnes(51, e);
    ShiftedOnes(52, e);
    Pow2Up(51 - e, e);
    hide Up, Down, Low, Pow2;
    DownUnique(Pow2(51), e, Pow2(51 - e), 0);
  }

  lemma ShiftedOnes(n: nat, e: nat)
    requires e <= n
    ensures Down(Pow2(n) - 1, e) == Pow2(n - e) - 1
  {
    hide *;
    Pow2Up(n - e, e);
    UpAdd(Pow2(n - e) - 1, 1, e);
    UpOne(e);
    DownUnique(Pow2(n) - 1, e, Pow2(n - e) - 1, Pow2(e) - 1);
  }

  /** Below one, by the exponent field. */
  lemma SmallMagnitude(b: Word)
    requires Expo(b) < BIAS
    ensures var v := Mag(Abs(b));
      Finite(b) && 0.0 <= v < 1.0 && v.Floor == 0
      && (v < 0.5) == (Expo(b) < BIAS - 1) && (v == 0.5) == (Expo(b) == BIAS - 1 && Frac(b) == 0)
      && Abs(b) < UVONE
  {
    var k := Abs(b);
    WordFields(b);
    Landmarks();
    hide Mag;
    if k < UVONE { MagMono(k, UVONE); }
    var h := (BIAS - 1) * HIDDEN;
    if k < h { MagMono(k, h); } else if h < k { MagMono(h, k); }
    if 0 < k { MagMono(0, k); }
    FloorIs(Mag(k), 0);
  }

  lemma Landmarks()
    ensures Mag(0) == 0.0 && Mag((BIAS - 1) * HIDDEN) == 0.5 && Mag(UVONE) == 1.0
  {
    ScaleZeroReal(-1074);
    EncodeMag(BIAS - 2, HIDDEN);
    EncodeMag(BIAS - 1, HIDDEN);
    Pow2Constants();
    PowerValue(53);
    PowerValue(52);
  }

  lemma {:induction false} ScaleZeroReal(e: int)
    ensures Scale(0.0, e) == 0.0
    decreases if e < 0 then -e else e
  {
    if e > 0 { ScaleZeroReal(e - 1); } else if e < 0 { ScaleZeroReal(e + 1); }
  }

  lemma SignBit(b: Word, mask: nat, one: nat)
    requires mask == SIGNMASK && one == UVONE
    ensures And(b, mask) == Sign(b) * SIGNMASK
    ensures Sign(b) <= 1 && Or(Sign(b) * SIGNMASK, one) == Sign(b) * SIGNMASK + one
  {
    hide And, Or, Up, Down, Low, Pow2;
    Pow2Constants();
    UpOne(63);
    AndShifted(b, 1, 63);
    DownConst(b);
    Mask(Sign(b), 1);
    Pow2One();
    LowParity(Sign(b));
    UpSign(Sign(b));
    OrDisjoint(Sign(b), one, 63);
  }

  lemma SignedSmall(b: Word)
    ensures IsInteger(Sign(b) * SIGNMASK, b, 0) && IsInteger(Sign(b) * SIGNMASK + UVONE, b, 1)
  {
    Landmarks();
    WordFields(b);
    hide Mag;
    assert Abs(Sign(b) * SIGNMASK) == 0 && Abs(Sign(b) * SIGNMASK + UVONE) == UVONE;
  }

  /** From 2^52 on every finite value is an integer. */
  lemma LargeMagnitude(b: Word)
    requires Finite(b) && Expo(b) >= BIAS + 52
    ensures var v := Mag(Abs(b)); v == v.Floor as real && IsInteger(b, b, v.Floor)
  {
    WordFields(b);
    var n := Expo(b) - 1075;
    EncodeMag(Expo(b) - 1, HIDDEN + Frac(b));
    ScaleUp(HIDDEN + Frac(b), n);
    FloorIs(Mag(Abs(b)), Up(HIDDEN + Frac(b), n));
  }

  /** Trunc: the integer part, with the sign kept; infinities and NaNs unchanged. */
  lemma TruncCorrect(b: Word)
    ensures if Finite(b) then IsInteger(Trunc(b), b, Mag(Abs(b)).Floor) else Trunc(b) == b
  {
    WordFields(b);
    FieldsOf(b);
    if Expo(b) < BIAS {
      SmallMagnitude(b);
      SignBit(b, SIGNMASK, UVONE);
      SignedSmall(b);
    } else if Expo(b) < BIAS + 52 {
      TruncMiddle(b, BIAS + 52 - Expo(b));
    } else if Finite(b) {
      LargeMagnitude(b);
    }
  }

  lemma TruncMiddle(b: Word, s: nat)
    requires BIAS <= Expo(b) < BIAS + 52 && s == BIAS + 52 - Expo(b)
    ensures Finite(b) && IsInteger(Trunc(b), b, Mag(Abs(b)).Floor)
  {
    hide Trunc, AndNot, IsInteger, Mag, Scale, Down, Low, Pow2, Frac, Abs, Expo, Sign, Finite;
    FiniteMiddle(b);
    TruncMiddleWord(b, s);
    Significand(b, s);
    Cleared(b, s, 0, b);
    FractionOf(HIDDEN + Frac(b), s);
  }

  lemma TruncMiddleWord(b: Word, s: nat)
    requires BIAS <= Expo(b) < BIAS + 52 && s == BIAS + 52 - Expo(b)
    ensures Trunc(b) == AndNot(b, Pow2(s) - 1)
  {
    hide And, AndNot, Shr, Pow2;
    FieldsOf(b);
    WordFields(b);
  }

  /** Round: to the nearest integer, ties away from zero. */
  lemma RoundCorrect(b: Word)
    ensures if Finite(b) then IsInteger(Round(b), b, Away(Mag(Abs(b)))) else Round(b) == b
  {
    WordFields(b);
    FieldsOf(b);
    if Expo(b) < BIAS {
      SmallMagnitude(b);
      SignBit(b, SIGNMASK, UVONE);
      SignedSmall(b);
    } else if Expo(b) < BIAS + 52 {
      RoundMiddle(b, BIAS + 52 - Expo(b));
    } else if Finite(b) {
      LargeMagnitude(b);
    }
  }

  /** Adding half before dropping the low bits rounds half away from zero. */
  lemma AwayQuotient(f: nat, s: nat)
    requires s >= 1
    ensures Away(Scale(f as real, 0 - s)) == Down(f + Pow2(s - 1), s)
  {
    FractionOf(f, s);
    PowerHalf(s);
    hide Away, Scale, Down, Low, Pow2;
    Carry(f, s, Pow2(s - 1));
    FloorSplit(Scale(f as real, 0 - s));
  }

  /** Adding half, less one unit when the quotient is even, rounds half to even. */
  lemma EvenQuotient(f: nat, s: nat)
    requires s >= 1
    ensures ToEven(Scale(f as real, 0 - s)) == Down(f + (Pow2(s - 1) - 1 + Down(f, s) % 2), s)
  {
    FractionOf(f, s);
    PowerHalf(s);
    hide ToEven, Scale, Down, Low, Pow2;
    Carry(f, s, Pow2(s - 1) - 1 + Down(f, s) % 2);
    FloorSplit(Scale(f as real, 0 - s));
  }

  lemma RoundMiddle(b: Word, s: nat)
    requires BIAS <= Expo(b) < BIAS + 52 && s == BIAS + 52 - Expo(b)
    ensures Finite(b) && IsInteger(Round(b), b, Away(Mag(Abs(b))))
  {
    hide Round, AndNot, IsInteger, Mag, Scale, Down, Low, Pow2, Away, Frac, Abs, Expo, Sign, WordAdd, Finite;
    FiniteMiddle(b);
    NoWrap(b, s, Pow2(s - 1));
    RoundMiddleWord(b, s);
    Significand(b, s);
    Cleared(b, s, Pow2(s - 1), b + Pow2(s - 1));
    AwayQuotient(HIDDEN + Frac(b), s);
  }

  lemma FiniteMiddle(b: Word)
    requires Expo(b) < BIAS + 52
    ensures Finite(b)
  {
    WordFields(b);
  }

  lemma RoundMiddleWord(b: Word, s: nat)
    requires BIAS <= Expo(b) < BIAS + 52 && s == BIAS + 52 - Expo(b)
    ensures Round(b) == AndNot(b + Pow2(s - 1), Pow2(s) - 1)
  {
    hide Round, And, AndNot, Shr, Down, Low, Pow2, WordAdd, Expo, Frac;
    FieldsOf(b);
    RoundIs(b, Expo(b));
    ShiftedConstants(52 - s);
    NoWrap(b, s, Pow2(s - 1));
  }

  /** The branch of Round with a fraction, unfolded. */
  lemma RoundIs(b: Word, e: nat)
    requires e == And(Shr(b, SHIFT), EXPMASK) && BIAS <= e < BIAS + 52
    ensures Round(b) == AndNot(WordAdd(b, Shr(0x8_0000_0000_0000, e - BIAS)), Shr(FRACMASK, e - BIAS))
  {
    hide And, AndNot, Shr, WordAdd, WordOr;
  }

  lemma NoWrap(b: Word, s: nat, x: nat)
    requires BIAS <= Expo(b) < BIAS + 52 && 1 <= s <= 52 && x <= Pow2(s - 1)
    ensures WordAdd(b, x) == b + x < TWO64
  {
    WordFields(b);
    Pow2Constants();
    Pow2Mono(s - 1, 51);
    hide Pow2;
  }

  lemma PowerHalf(s: nat)
    requires s >= 1
    ensures Pow2(s) == 2 * Pow2(s - 1)
  {
  }

  /** RoundToEven: to the nearest integer, ties to the even one. */
  lemma RoundToEvenCorrect(b: Word)
    ensures if Finite(b) then IsInteger(RoundToEven(b), b, ToEven(Mag(Abs(b)))) else RoundToEven(b) == b
  {
    WordFields(b);
    FieldsOf(b);
    if Expo(b) < BIAS {
      SmallMagnitude(b);
      SignBit(b, SIGNMASK, UVONE);
      SignedSmall(b);
    } else if Expo(b) < BIAS + 52 {
      EvenMiddle(b, BIAS + 52 - Expo(b));
    } else {
      EvenLarge(b);
      if Finite(b) { LargeMagnitude(b); }
    }
  }

  /** The bit that decides ties: bit s of the pattern is the low bit of the integer part, and
      for 1 <= |x| < 2 it is the low bit of the (odd) exponent field. */
  lemma OddBit(b: Word, s: nat)
    requires BIAS <= Expo(b) < BIAS + 52 && s == BIAS + 52 - Expo(b)
    ensures And(Shr(b, s), 1) == Down(HIDDEN + Frac(b), s) % 2
  {
    hide And, Up, Down, Low, Pow2, Mag, Scale;
    Significand(b, s);
    LowAbove(Sign(b) * 0x800 + Expo(b) - 1, HIDDEN + Frac(b), s);
    PatternSum(Sign(b), Expo(b), Frac(b), b, 0);
    WordFields(b);
    Mask(Shr(b, s), 1);
    Pow2One();
    ShrIs(b, s);
    LowParity(Shr(b, s));
    UpParity(Sign(b) * 0x800 + Expo(b) - 1, 52 - s);
  }

  lemma UpParity(h: nat, n: nat)
    requires n == 0 ==> h % 2 == 0
    ensures Up(h, n) % 2 == 0
  {
    hide Up;
    UpNone(h);
    if n > 0 { UpStep(h, n); }
  }

  lemma EvenMiddle(b: Word, s: nat)
    requires BIAS <= Expo(b) < BIAS + 52 && s == BIAS + 52 - Expo(b)
    ensures Finite(b) && IsInteger(RoundToEven(b), b, ToEven(Mag(Abs(b))))
  {
    hide RoundToEven, AndNot, IsInteger, Mag, Scale, Down, Low, Pow2, ToEven, Frac, Abs, Expo, Sign, WordAdd, Finite;
    var odd := Down(HIDDEN + Frac(b), s) % 2;
    var x := Pow2(s - 1) - 1 + odd;
    FiniteMiddle(b);
    NoWrap(b, s, x);
    EvenMiddleWord(b, s, odd);
    Significand(b, s);
    Cleared(b, s, x, b + x);
    EvenQuotient(HIDDEN + Frac(b), s);
  }

  lemma EvenMiddleWord(b: Word, s: nat, odd: nat)
    requires BIAS <= Expo(b) < BIAS + 52 && s == BIAS + 52 - Expo(b)
    requires odd == Down(HIDDEN + Frac(b), s) % 2
    ensures RoundToEven(b) == AndNot(b + (Pow2(s - 1) - 1 + odd), Pow2(s) - 1)
  {
    hide RoundToEven, And, AndNot, Shr, Down, Low, Pow2, WordAdd, Expo, Frac;
    FieldsOf(b);
    OddBit(b, s);
    EvenSum(b, s, odd);
    EvenIs(b, Expo(b), odd);
  }

  /** The branch of RoundToEven with a fraction, unfolded. */
  lemma EvenIs(b: Word, e: nat, odd: nat)
    requires e == And(Shr(b, SHIFT), EXPMASK) && BIAS <= e < BIAS + 52 && odd == And(Shr(b, BIAS + 52 - e), 1)
    ensures RoundToEven(b) == AndNot(WordAdd(b, Shr(WordAdd(0x7_FFFF_FFFF_FFFF, odd), e - BIAS)), Shr(FRACMASK, e - BIAS))
  {
    hide And, AndNot, Shr, WordAdd, WordOr;
  }

  lemma EvenSum(b: Word, s: nat, odd: nat)
    requires BIAS <= Expo(b) < BIAS + 52 && s == BIAS + 52 - Expo(b) && odd <= 1
    ensures Shr(WordAdd(0x7_FFFF_FFFF_FFFF, odd), Expo(b) - BIAS) == Pow2(s - 1) - 1 + odd
    ensures WordAdd(b, Pow2(s - 1) - 1 + odd) == b + (Pow2(s - 1) - 1 + odd)
    ensures Shr(FRACMASK, Expo(b) - BIAS) == Pow2(s) - 1
  {
    hide Shr, Pow2, WordAdd;
    ShiftedConstants(52 - s);
    SmallAdd(0x7_FFFF_FFFF_FFFF, odd);
    NoWrap(b, s, Pow2(s - 1) - 1 + odd);
  }

  lemma EvenLarge(b: Word)
    requires Expo(b) >= BIAS + 52
    ensures RoundToEven(b) == b
  {
    hide And, AndNot, Shr, Down, Low, Pow2, WordAdd;
    FieldsOf(b);
    var e := Expo(b) - BIAS;
    var odd := And(Shr(b, CountSub(52, e)), 1);
    BitBound(Shr(b, CountSub(52, e)));
    SmallAdd(0x7_FFFF_FFFF_FFFF, odd);
    Vanishes(WordAdd(0x7_FFFF_FFFF_FFFF, odd), e);
    SmallAdd(b, 0);
    Vanishes(FRACMASK, e);
    AndNotZero(b);
  }

  lemma SmallAdd(a: Word, b: nat)
    requires a + b < TWO64
    ensures WordAdd(a, b) == a + b
  {
  }

  lemma BitBound(x: nat)
    ensures And(x, 1) <= 1
  {
    Mask(x, 1);
    Pow2One();
    UpDown(x, 1);
  }

  lemma Vanishes(x: Word, e: nat)
    requires x < HIDDEN && e >= 52
    ensures Shr(x, e) == 0
  {
    hide Up, Down, Low, Pow2;
    Pow2Constants();
    Pow2Mono(52, e);
    UpOne(e);
    DownUnique(x, e, 0, x);
    ShrIs(x, e);
  }

  lemma AndNotZero(x: nat)
    ensures AndNot(x, 0) == x
  {
  }
}
