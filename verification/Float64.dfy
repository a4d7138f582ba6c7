/** The binary64 format (IEEE 754-2008 section 3.4): what a bit pattern stands for, and what it
    means for a pattern to be the correctly rounded image of an exact real number. */
module Float64 {
  import opened Bits

  // Constants of go/src/math/bits.go.
  const UVINF: nat := 0x7FF0_0000_0000_0000
  const UVONE: nat := 0x3FF0_0000_0000_0000
  const EXPMASK: nat := 0x7FF
  const SHIFT: nat := 52
  const BIAS: nat := 1023
  const SIGNMASK: nat := 0x8000_0000_0000_0000
  const FRACMASK: nat := 0xF_FFFF_FFFF_FFFF
  const HIDDEN: nat := 0x10_0000_0000_0000

  /** x times two to the e, for any integer e (math.Ldexp without rounding). */
  function Scale(x: real, e: int): real
    decreases if e < 0 then -e else e
  {
    if e == 0 then x
    else if e > 0 then 2.0 * Scale(x, e - 1)
    else Scale(x, e + 1) / 2.0
  }

  lemma ScaleSucc(x: real, e: int)
    ensures Scale(x, e + 1) == 2.0 * Scale(x, e)
  {
  }

  lemma {:induction false} ScaleScale(x: real, a: int, b: int)
    ensures Scale(Scale(x, a), b) == Scale(x, a + b)
    decreases if b < 0 then -b else b
  {
    if b > 0 {
      ScaleScale(x, a, b - 1);
      ScaleSucc(x, a + b - 1);
    } else if b < 0 {
      ScaleScale(x, a, b + 1);
      ScaleSucc(x, a + b);
    }
  }

  lemma {:induction false} ScaleAdd(x: real, y: real, e: int)
    ensures Scale(x + y, e) == Scale(x, e) + Scale(y, e)
    decreases if e < 0 then -e else e
  {
    if e > 0 { ScaleAdd(x, y, e - 1); } else if e < 0 { ScaleAdd(x, y, e + 1); }
  }

  lemma {:induction false} ScalePos(x: real, e: int)
    ensures (x > 0.0) == (Scale(x, e) > 0.0) && (x < 0.0) == (Scale(x, e) < 0.0)
    decreases if e < 0 then -e else e
  {
    if e > 0 { ScalePos(x, e - 1); } else if e < 0 { ScalePos(x, e + 1); }
  }

  /** Scaling keeps the order. */
  lemma ScaleMono(x: real, y: real, e: int)
    ensures (x < y) == (Scale(x, e) < Scale(y, e)) && (x == y) == (Scale(x, e) == Scale(y, e))
  {
    ScaleAdd(x, y - x, e);
    ScalePos(y - x, e);
  }

  lemma {:induction false} ScaleUp(x: nat, n: nat)
    ensures Scale(x as real, n) == Up(x, n) as real
  {
    if n == 0 {
    } else {
      ScaleUp(x, n - 1);
    }
  }

  /** Doubling the significand n times is worth n in the exponent. */
  lemma UpScale(x: nat, n: nat, e: int)
    ensures Scale(Up(x, n) as real, e) == Scale(x as real, e + n)
  {
    ScaleUp(x, n);
    ScaleScale(x as real, n, e);
  }

  lemma ScaleStep(x: real, a: int)
    requires a != 0
    ensures a > 0 ==> Scale(x, a) == 2.0 * Scale(x, a - 1)
    ensures a < 0 ==> Scale(x, a + 1) == 2.0 * Scale(x, a)
  {
  }

  lemma {:induction false} ScaleProduct(x: real, y: real, a: int, b: int)
    ensures Scale(x, a) * Scale(y, b) == Scale(x * y, a + b)
    decreases (if a < 0 then -a else a) + (if b < 0 then -b else b)
  {
    hide *;
    if a != 0 {
      ScaleProductLeft(x, y, a, b);
    } else if b != 0 {
      ScaleProductLeft(y, x, b, a);
    } else {
      ScaleZero(x);
      ScaleZero(y);
      ScaleZero(x * y);
    }
  }

  lemma ScaleZero(x: real)
    ensures Scale(x, 0) == x
  {
  }

  lemma ScaleProductLeft(x: real, y: real, a: int, b: int)
    requires a != 0
    ensures Scale(x, a) * Scale(y, b) == Scale(x * y, a + b) && x * y == y * x
    decreases (if a < 0 then -a else a) + (if b < 0 then -b else b), 0
  {
    hide *;
    ScaleStep(x, a);
    if a > 0 {
      ScaleProduct(x, y, a - 1, b);
      ScaleSucc(x * y, a - 1 + b);
      HalfProduct(Scale(x, a), Scale(x, a - 1), Scale(y, b), Scale(x * y, a - 1 + b));
    } else {
      ScaleProduct(x, y, a + 1, b);
      ScaleSucc(x * y, a + b);
      DoubleProduct(Scale(x, a), Scale(x, a + 1), Scale(y, b), Scale(x * y, a + b));
    }
  }

  lemma HalfProduct(u: real, u': real, w: real, p: real)
    requires u == 2.0 * u' && u' * w == p
    ensures u * w == 2.0 * p
  {
  }

  lemma DoubleProduct(u: real, u': real, w: real, p: real)
    requires u' == 2.0 * u && u' * w == 2.0 * p
    ensures u * w == p
  {
  }

  function Sign(b: Word): nat { b / SIGNMASK }
  function Expo(b: Word): nat { b / HIDDEN % (EXPMASK + 1) }
  function Frac(b: Word): nat { b % HIDDEN }
  /** The pattern with its sign bit dropped. */
  function Abs(b: Word): nat { b % SIGNMASK }

  predicate Finite(b: Word) { Abs(b) < UVINF }

  /** The magnitude of pattern k, 0 <= k <= UVINF. At UVINF it is the power of two that the
      next binade would start at, so that overflow is one more rounding to the nearest. */
  function Mag(k: nat): real {
    if k / HIDDEN == 0 then Scale((k % HIDDEN) as real, -1074)
    else Scale((HIDDEN + k % HIDDEN) as real, k / HIDDEN - 1075)
  }

  /** The real number a finite pattern stands for. */
  function Value(b: Word): real
    requires Finite(b)
  {
    if Sign(b) == 1 then -Mag(Abs(b)) else Mag(Abs(b))
  }

  function AbsReal(x: real): real { if x < 0.0 then -x else x }

  /** IEEE 754-2008 section 4.3.1 on magnitudes: k is a nearest pattern to v, and an even one
      when another is equally near. */
  ghost predicate RoundsTo(v: real, k: nat) {
    k <= UVINF &&
    forall j: nat :: j <= UVINF && j != k ==>
      AbsReal(Mag(k) - v) < AbsReal(Mag(j) - v) || (AbsReal(Mag(k) - v) == AbsReal(Mag(j) - v) && k % 2 == 0)
  }

  /** The pattern for significand f at biased-by-one exponent pe: a significand that reached
      2^53 carries into the exponent field and still stands for f * 2^pe. */
  lemma EncodeMag(pe: nat, f: nat)
    requires f <= 2 * HIDDEN && (pe == 0 || f >= HIDDEN)
    ensures Mag(pe * HIDDEN + f) == Scale(f as real, pe - 1074)
  {
    var k := pe * HIDDEN + f;
    if f < HIDDEN {
      assert k / HIDDEN == 0 && k % HIDDEN == f;
    } else if f < 2 * HIDDEN {
      assert k / HIDDEN == pe + 1 && k % HIDDEN == f - HIDDEN;
    } else {
      assert k / HIDDEN == pe + 2 && k % HIDDEN == 0;
      UpScale(HIDDEN, 1, pe - 1074);
    }
  }

  /** Neighbouring patterns are one unit of the lower one's binade apart. */
  lemma MagStep(k: nat)
    ensures Mag(k) < Mag(k + 1)
  {
    var e, f := k / HIDDEN, k % HIDDEN;
    var pe := if e == 0 then 0 else e - 1;
    var g := k - pe * HIDDEN;
    EncodeMag(pe, g);
    EncodeMag(pe, g + 1);
    ScaleMono(g as real, (g + 1) as real, pe - 1074);
  }

  lemma {:induction false} MagMono(j: nat, k: nat)
    requires j < k
    ensures Mag(j) < Mag(k)
    decreases k
  {
    hide Mag;
    MagStep(k - 1);
    if j == k - 1 {
    } else {
      MagMono(j, k - 1);
    }
  }

  /** Beating both neighbours, or tying with an even pattern, beats every pattern. */
  lemma NearestByNeighbours(v: real, k: nat)
    requires k <= UVINF
    requires k > 0 ==> Mag(k - 1) + Mag(k) < 2.0 * v || (Mag(k - 1) + Mag(k) == 2.0 * v && k % 2 == 0)
    requires k < UVINF ==> 2.0 * v < Mag(k) + Mag(k + 1) || (2.0 * v == Mag(k) + Mag(k + 1) && k % 2 == 0)
    ensures RoundsTo(v, k)
  {
    hide Mag;
    forall j: nat | j <= UVINF && j != k
      ensures AbsReal(Mag(k) - v) < AbsReal(Mag(j) - v) || (AbsReal(Mag(k) - v) == AbsReal(Mag(j) - v) && k % 2 == 0)
    {
      if j < k {
        if j < k - 1 { MagMono(j, k - 1); }
        MagMono(j, k);
      } else {
        if k + 1 < j { MagMono(k + 1, j); }
        MagMono(k, j);
      }
    }
  }

  /** Correct rounding leaves no choice. */
  lemma RoundsToUnique(v: real, k: nat, l: nat)
    requires RoundsTo(v, k) && RoundsTo(v, l)
    ensures k == l
  {
    hide Mag;
    if k != l {
      var a, b := if k < l then k else l, if k < l then l else k;
      MagMono(a, b);
      assert AbsReal(Mag(a) - v) == AbsReal(Mag(b) - v);
      assert a % 2 == 0 && b % 2 == 0;
      MagStep(a);
      MagMono(a + 1, b);
      assert false;
    }
  }
}
