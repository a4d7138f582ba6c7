/** Truncation and the two roundings of go/src/math/floor.go, on raw bits. */
module Floor {
  import opened Bits
  import opened Float64
  import opened Fma

  function Trunc(b: Word): Word {
    AndLe(b, SIGNMASK);
    if Abs(b) < UVONE then And(b, SIGNMASK)
    else
      var e := CountSub(And(Shr(b, SHIFT), EXPMASK), BIAS);
      if e < 52 then ClearLow(b, 52 - e) else b
  }

  /** b &^ (1<<n - 1). */
  function ClearLow(b: Word, n: nat): Word {
    AndNotLe(b, Pow2(n) - 1);
    AndNot(b, Pow2(n) - 1)
  }

  function Round(b: Word): Word {
    AndLe(b, SIGNMASK);
    var e := And(Shr(b, SHIFT), EXPMASK);
    if e < BIAS then
      if e == BIAS - 1 then WordOr(And(b, SIGNMASK), UVONE) else And(b, SIGNMASK)
    else if e < BIAS + SHIFT then
      var half := 0x8_0000_0000_0000;
      var sum := WordAdd(b, Shr(half, e - BIAS));
      AndNotLe(sum, Shr(FRACMASK, e - BIAS));
      AndNot(sum, Shr(FRACMASK, e - BIAS))
    else b
  }

  function RoundToEven(b: Word): Word {
    AndLe(b, SIGNMASK);
    var e := And(Shr(b, SHIFT), EXPMASK);
    if e >= BIAS then
      FieldsOf(b);
      var halfMinusUlp := 0x7_FFFF_FFFF_FFFF;
      var odd := And(Shr(b, CountSub(SHIFT, e - BIAS)), 1);
      var sum := WordAdd(b, Shr(WordAdd(halfMinusUlp, odd), e - BIAS));
      AndNotLe(sum, Shr(FRACMASK, e - BIAS));
      AndNot(sum, Shr(FRACMASK, e - BIAS))
    else if e == BIAS - 1 && And(b, FRACMASK) != 0 then WordOr(And(b, SIGNMASK), UVONE)
    else And(b, SIGNMASK)
  }

  /** Addition of 64-bit words, which wraps. */
  function WordAdd(a: Word, b: nat): Word {
    (a + b) % TWO64
  }

  lemma {:induction false} AndNotLe(x: nat, y: nat)
    ensures AndNot(x, y) <= x
    decreases x
  {
    if x == 0 || y == 0 {
    } else {
      AndNotLe(x / 2, y / 2);
    }
  }
}
