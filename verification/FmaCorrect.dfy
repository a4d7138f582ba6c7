/** FMA is correctly rounded: its result is the nearest binary64 value to the exact real
    x*y+z, ties to the even pattern, with overflow and gradual underflow. */
module FmaCorrect {
  import opened Bits
  import opened Float64
  import opened Fma

  /** What an addend is worth. */
  function Worth(p: Num): real {
    Scale(Pair(p.hi, p.lo) as real, p.exp - 1149)
  }

  /** Top bit of the significand at place 126, bottom bit clear. */
  predicate Normal(p: Num) {
    0x4000_0000_0000_0000 <= p.hi < SIGNMASK && p.lo % 2 == 0 && p.sign <= 1 && -0x1000 <= p.exp <= 0x2000
  }

  lemma SplitValue(b: Word)
    requires Finite(b) && Abs(b) != 0
    ensures var s := Split(b);
      HIDDEN <= s.mant < 2 * HIDDEN && -51 <= s.exp <= 2046 && s.sign == Sign(b) <= 1
      && Mag(Abs(b)) == Scale(s.mant as real, s.exp - 1075)
  {
    FieldsOf(b);
    AbsFields(b);
    if Expo(b) == 0 {
      LeadingZerosOfFrac(Frac(b));
      NormalizeFrac(Frac(b));
    }
  }

  lemma AbsFields(b: Word)
    ensures Abs(b) / HIDDEN == Expo(b) && Abs(b) % HIDDEN == Frac(b)
    ensures b == Sign(b) * SIGNMASK + Abs(b) && Sign(b) <= 1
  {
  }

  /** A subnormal fraction moved up until its top bit is at place 52. */
  lemma NormalizeFrac(f: Word)
    requires 0 < f < HIDDEN && 12 <= LeadingZeros(f) <= 63
    ensures var shift := LeadingZeros(f) - 11;
      HIDDEN <= Shl(f, shift) < 2 * HIDDEN && Scale(f as real, -1074) == Scale(Shl(f, shift) as real, -1074 - shift)
  {
    var l, shift := Len(f), LeadingZeros(f) - 11;
    hide Scale, Up, Pow2, Len;
    Pow2Constants();
    UpMono(Pow2(l - 1), f, shift);
    UpMono(f, Pow2(l), shift);
    Pow2Up(l - 1, shift);
    Pow2Up(l, shift);
    UpScale(f, shift, -1074 - shift);
  }

  lemma ShlMantissa(m: Word)
    requires HIDDEN <= m < 2 * HIDDEN
    ensures Shl(m, 10) == m * 0x400 && Shl(m, 11) == m * 0x800
  {
    Up10(m);
    Up11(m);
  }

  lemma AddendValue(z: Parts)
    requires HIDDEN <= z.mant < 2 * HIDDEN && -51 <= z.exp <= 2046 && z.sign <= 1
    ensures var a := Addend(z);
      Normal(a) && a.sign == z.sign && a.exp == z.exp && Worth(a) == Scale(z.mant as real, z.exp - 1075)
  {
    ShlMantissa(z.mant);
    Up10(z.mant);
    UpUp(z.mant, 10, 64);
    Up64(Up(z.mant, 10));
    UpScale(z.mant, 74, z.exp - 1149);
  }

  /** Bounds of the 106-bit product and its place in the two words. */
  lemma ProductBounds(a: nat, b: nat)
    requires HIDDEN <= a < 2 * HIDDEN && HIDDEN <= b < 2 * HIDDEN
    ensures HIDDEN * HIDDEN <= a * b < 4 * HIDDEN * HIDDEN
  {
    MulMono(HIDDEN, a, b);
    MulMono(a, 2 * HIDDEN - 1, b);
  }

  lemma ShiftedProduct(a: nat, b: nat)
    ensures (a * 0x400) * (b * 0x800) == a * b * 0x20_0000
  {
  }

  lemma Is62Zero(h: Word)
    requires 0x2000_0000_0000_0000 <= h < SIGNMASK
    ensures And(Shr(Not(h), 62), 1) == if h < 0x4000_0000_0000_0000 then 1 else 0
  {
    hide Up, Down, Low, Pow2, And;
    var q := if h < 0x4000_0000_0000_0000 then 3 else 2;
    Pow2Constants();
    ShrIs(Not(h), 62);
    LowParity(q);
    Pow2One();
    UpOne(62);
    UpAdd(1, 1, 62);
    UpAdd(2, 1, 62);
    DownUnique(Not(h), 62, q, Not(h) - Up(q, 62));
    Mask(q, 1);
  }

  lemma Normalize62Value(sign: nat, exp: int, h: Word, l: Word)
    requires 0x2000_0000_0000_0000 <= h < SIGNMASK && l % 2 == 0 && sign <= 1 && -0x800 <= exp <= 0x1000
    ensures var p := Normalize62(sign, exp, h, l);
      Normal(p) && p.sign == sign && Worth(p) == Scale(Pair(h, l) as real, exp - 1149)
  {
    var i := if h < 0x4000_0000_0000_0000 then 1 else 0;
    Normalize62Words(sign, exp, h, l, i);
    hide Normalize62, Scale;
    UpScale(Pair(h, l), i, exp - i - 1149);
  }

  lemma Normalize62Words(sign: nat, exp: int, h: Word, l: Word, i: nat)
    requires 0x2000_0000_0000_0000 <= h < SIGNMASK && l % 2 == 0 && i == if h < 0x4000_0000_0000_0000 then 1 else 0
    ensures var p := Normalize62(sign, exp, h, l);
      Pair(p.hi, p.lo) == Up(Pair(h, l), i) && 0x4000_0000_0000_0000 <= p.hi < SIGNMASK && p.lo % 2 == 0
      && p.exp == exp - i && p.sign == sign
  {
    hide ShlPair, And, Not, Shr, Up;
    Is62Zero(h);
    Doubled(h, l, i);
    ShlPairValue(h, l, i);
    var (hi, lo) := ShlPair(h, l, i);
    DoubledWords(h, l, i, hi, lo);
  }

  lemma Doubled(h: Word, l: Word, i: nat)
    requires i <= 1 && h < SIGNMASK
    ensures Up(Pair(h, l), i) == if i == 1 then 2 * Pair(h, l) else Pair(h, l)
  {
  }

  lemma DoubledWords(h: Word, l: Word, i: nat, hi: Word, lo: Word)
    requires 0x2000_0000_0000_0000 <= h < SIGNMASK && l % 2 == 0 && i == if h < 0x4000_0000_0000_0000 then 1 else 0
    requires Pair(hi, lo) == if i == 1 then 2 * Pair(h, l) else Pair(h, l)
    ensures 0x4000_0000_0000_0000 <= hi < SIGNMASK && lo % 2 == 0
  {
    if i == 1 { assert lo == 2 * (Pair(h, l) - hi * 0x8000_0000_0000_0000); }
  }

  lemma XorBits(a: nat, b: nat)
    requires a <= 1 && b <= 1
    ensures Xor(a, b) == if a == b then 0 else 1
  {
    XorZero(a, b);
  }

  /** The product's addend is worth the exact product r of the two operands. */
  lemma ProductValue(x: Parts, y: Parts, r: real)
    requires HIDDEN <= x.mant < 2 * HIDDEN && -51 <= x.exp <= 2046 && x.sign <= 1
    requires HIDDEN <= y.mant < 2 * HIDDEN && -51 <= y.exp <= 2046 && y.sign <= 1
    requires r == Scale(x.mant as real, x.exp - 1075) * Scale(y.mant as real, y.exp - 1075)
    ensures var p := Product(x, y);
      Normal(p) && p.sign == (if x.sign == y.sign then 0 else 1) && Worth(p) == r
  {
    hide *;
    var h, l := ProductWords(x.mant, y.mant, x.exp - 1075, y.exp - 1075, r);
    XorBits(x.sign, y.sign);
    ProductNormalized(x, y, h, l);
    Normalize62Value(Xor(x.sign, y.sign), x.exp + y.exp - 1022, h, l);
  }

  lemma ProductNormalized(x: Parts, y: Parts, h: Word, l: Word)
    requires (h, l) == Mul64(Shl(x.mant, 10), Shl(y.mant, 11))
    ensures Product(x, y) == Normalize62(Xor(x.sign, y.sign), x.exp + y.exp - 1022, h, l)
  {
  }

  lemma ProductWords(a: Word, b: Word, e: int, f: int, r: real) returns (h: Word, l: Word)
    requires HIDDEN <= a < 2 * HIDDEN && HIDDEN <= b < 2 * HIDDEN
    requires r == Scale(a as real, e) * Scale(b as real, f)
    ensures (h, l) == Mul64(Shl(a, 10), Shl(b, 11))
    ensures 0x2000_0000_0000_0000 <= h < SIGNMASK && l % 2 == 0
    ensures Scale(Pair(h, l) as real, e + f - 21) == r
  {
    var n := a * b;
    var w := Mul64(Shl(a, 10), Shl(b, 11));
    h, l := w.0, w.1;
    ProductShifted(a, b, n);
    ProductBounds(a, b);
    ProductPlace(n, h, l);
    ProductWorth(a, b, n, e, f);
    ShiftedWorth(n, e + f - 21);
  }

  lemma ProductShifted(a: Word, b: Word, n: nat)
    requires HIDDEN <= a < 2 * HIDDEN && HIDDEN <= b < 2 * HIDDEN && n == a * b
    ensures var w := Mul64(Shl(a, 10), Shl(b, 11)); Pair(w.0, w.1) == n * 0x20_0000
  {
    ShlMantissa(a);
    ShlMantissa(b);
    ShiftedProduct(a, b);
    TimesIsProduct(a * 0x400, b * 0x800);
  }

  lemma ProductPlace(n: nat, h: Word, l: Word)
    requires HIDDEN * HIDDEN <= n < 4 * HIDDEN * HIDDEN && Pair(h, l) == n * 0x20_0000
    ensures 0x2000_0000_0000_0000 <= h < SIGNMASK && l % 2 == 0
  {
    assert l == 2 * (n * 0x10_0000 - h * 0x8000_0000_0000_0000);
  }

  lemma ProductWorth(a: nat, b: nat, n: nat, e: int, f: int)
    requires n == a * b
    ensures Scale(n as real, e + f) == Scale(a as real, e) * Scale(b as real, f)
  {
    ProductReal(a, b);
    ScaleProduct(a as real, b as real, e, f);
  }

  lemma ShiftedWorth(n: nat, g: int)
    ensures Scale((n * 0x20_0000) as real, g) == Scale(n as real, g + 21)
  {
    Up10(n);
    Up11(Up(n, 10));
    UpUp(n, 10, 11);
    UpScale(n, 21, g);
  }

  lemma ProductReal(a: nat, b: nat)
    ensures (a * b) as real == a as real * b as real
  {
  }

  /** m stands for the real v: exactly when m is even, within one of it when m is odd. */
  ghost predicate Sticky(m: nat, v: real) {
    if m % 2 == 0 then v == m as real else (m - 1) as real < v < (m + 1) as real
  }

  /** Folding the lost bits into bit 0 keeps standing for the same real: compressing loses
      nothing that a later rounding can see. */
  lemma CompressSticky(m: nat, n: nat, v: real)
    requires Sticky(m, v)
    ensures Sticky(Compress(m, n), Scale(v, 0 - n))
  {
    if n > 0 {
      hide Scale, Up, Down, Low, Sticky, SeenAt;
      var q, l, w := Down(m, n), Low(m, n), Scale(v, 0 - n);
      CompressBounds(m, n);
      PlaceBelow(q, n);
      UpCompare(q, n, v);
      UpCompare(q + 1, n, v);
      if q > 0 { UpCompare(q - 1, n, v); }
      FoldedSticky(m, v, q, l, w, Up(q, n), Up(q + 1, n), if q > 0 then Up(q - 1, n) else 0);
    }
  }

  /** m is l above lo, the place of q; w is v as seen from the places of q - 1, q and q + 1. */
  lemma FoldedSticky(m: nat, v: real, q: nat, l: nat, w: real, lo: nat, hi: nat, below: nat)
    requires Sticky(m, v) && lo + l == m < hi && lo % 2 == 0 && hi % 2 == 0
    requires SeenAt(q, lo, v, w) && SeenAt(q + 1, hi, v, w) && (q > 0 ==> below < lo && below % 2 == 0 && SeenAt(q - 1, below, v, w))
    ensures Sticky(if q % 2 == 1 || l == 0 then q else q + 1, w)
  {
  }

  lemma CompressBounds(m: nat, n: nat)
    requires n > 0
    ensures var q, l := Down(m, n), Low(m, n);
      Up(q, n) + l == m && m < Up(q + 1, n) && Up(q, n) % 2 == 0 && Up(q + 1, n) % 2 == 0
  {
    hide *;
    var q := Down(m, n);
    UpDown(m, n);
    UpMono(q, q + 1, n);
    UpStep(q, n);
    UpStep(q + 1, n);
  }

  lemma PlaceBelow(q: nat, n: nat)
    requires n > 0
    ensures q > 0 ==> Up(q - 1, n) < Up(q, n) && Up(q - 1, n) % 2 == 0
  {
    hide *;
    if q > 0 {
      UpMono(q - 1, q, n);
      UpStep(q - 1, n);
    }
  }

  /** w compares with q as v does with place. */
  predicate SeenAt(q: nat, place: nat, v: real, w: real) {
    (w < q as real) == (v < place as real) && (w == q as real) == (v == place as real)
  }

  lemma UpCompare(q: nat, n: nat, v: real)
    ensures SeenAt(q, Up(q, n), v, Scale(v, 0 - n))
  {
    UpScale(q, n, 0 - n);
    ScaleMono(v, Up(q, n) as real, 0 - n);
    assert Scale(q as real, 0) == q as real;
  }

  lemma StickyAdd(p: nat, m: nat, v: real)
    requires p % 2 == 0 && Sticky(m, v)
    ensures Sticky(p + m, p as real + v)
    ensures m <= p ==> Sticky(p - m, p as real - v)
  {
  }

  lemma DownPair(h: nat, l: Word)
    ensures Down(Pair(h, l), 64) == h && Low(Pair(h, l), 64) == l
    ensures Down(Pair(h, l), 65) == h / 2
  {
    Pow2Constants();
    Up64(h);
    DownUnique(Pair(h, l), 64, h, l);
    DownDown(Pair(h, l), 64, 1);
  }

  /** The result of an addition stands for the exact sum, normalised to 63 bits. */
  ghost predicate Stands(t: Total, sign: nat, r: real) {
    t.sign == sign && 0x4000_0000_0000_0000 <= t.m < SIGNMASK && -0x2000 <= t.exp <= 0x4000
    && Sticky(t.m, Scale(r, 1084 - t.exp))
  }

  lemma AddStands(p: Num, zm1: Word, zm2: Word, v: real)
    requires Normal(p) && zm1 < SIGNMASK && Sticky(Pair(zm1, zm2), v)
    ensures Stands(AddPairs(p, zm1, zm2), p.sign, Scale(Pair(p.hi, p.lo) as real + v, p.exp - 1149))
  {
    var s := Pair(p.hi, p.lo) + Pair(zm1, zm2);
    var n := if s / TWO64 >= SIGNMASK then 65 else 64;
    AddPairsWords(p, zm1, zm2, s / TWO64, s % TWO64);
    SumStands(p, Pair(zm1, zm2), v, n);
  }

  lemma SumStands(p: Num, z: nat, v: real, n: nat)
    requires Normal(p) && Sticky(z, v) && 64 <= n <= 65
    requires 0x4000_0000_0000_0000 <= Compress(Pair(p.hi, p.lo) + z, n) < SIGNMASK
    ensures Stands(Total(p.sign, p.exp + n - 65, Compress(Pair(p.hi, p.lo) + z, n)), p.sign,
              Scale(Pair(p.hi, p.lo) as real + v, p.exp - 1149))
  {
    hide Sticky, Scale, Compress, Pair;
    PairEven(p);
    StickyAdd(Pair(p.hi, p.lo), z, v);
    CompressedStands(Pair(p.hi, p.lo) + z, n, Pair(p.hi, p.lo) as real + v, p.exp);
  }

  lemma AddPairsWords(p: Num, zm1: Word, zm2: Word, hi: Word, lo: Word)
    requires Normal(p) && zm1 < SIGNMASK && Pair(hi, lo) == Pair(p.hi, p.lo) + Pair(zm1, zm2)
    ensures var n := if hi >= SIGNMASK then 65 else 64;
      0x4000_0000_0000_0000 <= Compress(Pair(hi, lo), n) < SIGNMASK
      && AddPairs(p, zm1, zm2) == Total(p.sign, p.exp + n - 65, Compress(Pair(hi, lo), n))
  {
    hide Compress, ShrCompress, Shr, Not, Pair, AddPairs;
    AddPairsIs(p, zm1, zm2, hi, lo);
    SumHigh(p, zm1, zm2, hi, lo);
    TopBit(hi);
    CompressHigh(hi, lo, if hi >= SIGNMASK then 65 else 64);
  }

  lemma AddPairsIs(p: Num, zm1: Word, zm2: Word, hi: Word, lo: Word)
    requires Normal(p) && zm1 < SIGNMASK && Pair(hi, lo) == Pair(p.hi, p.lo) + Pair(zm1, zm2)
    ensures Shr(hi, 63) <= 1
    ensures AddPairs(p, zm1, zm2) == Total(p.sign, p.exp - Shr(Not(hi), 63), ShrCompress(hi, lo, 64 + Shr(hi, 63)).1)
  {
    hide ShrCompress, Shr, Not;
    TopBit(hi);
    Carried(p.hi, p.lo, zm1, zm2, hi, lo);
  }

  lemma Carried(p1: Word, p2: Word, z1: Word, z2: Word, hi: Word, lo: Word)
    requires Pair(hi, lo) == Pair(p1, p2) + Pair(z1, z2)
    ensures lo == (p2 + z2) % TWO64 && hi == (p1 + z1 + (p2 + z2) / TWO64) % TWO64
  {
  }

  lemma SumHigh(p: Num, zm1: Word, zm2: Word, hi: Word, lo: Word)
    requires Normal(p) && Pair(hi, lo) == Pair(p.hi, p.lo) + Pair(zm1, zm2)
    ensures hi >= 0x4000_0000_0000_0000
  {
  }

  /** A significand s standing for u, compressed by n places, at the exponent that makes up for them. */
  lemma CompressedStands(s: nat, n: nat, u: real, e: int)
    requires Sticky(s, u)
    ensures Sticky(Compress(s, n), Scale(Scale(u, e - 1149), 1084 - (e + n - 65)))
  {
    CompressSticky(s, n, u);
    ScaleScale(u, e - 1149, 1084 - (e + n - 65));
  }

  lemma CompressHigh(h: Word, l: Word, n: nat)
    requires (n == 64 && 0x4000_0000_0000_0000 <= h < SIGNMASK) || (n == 65 && h >= SIGNMASK)
    ensures 0x4000_0000_0000_0000 <= Compress(Pair(h, l), n) < SIGNMASK
    ensures ShrCompress(h, l, n) == (0, Compress(Pair(h, l), n))
  {
    hide ShrCompress, Down, Low;
    DownPair(h, l);
    ShrCompressValue(h, l, n);
  }

  lemma LenOfZero()
    ensures Len(0) == 0
  {
  }

  lemma LeadingZerosPairBounds(u1: Word, u2: Word)
    requires Pair(u1, u2) > 0
    ensures var nz := LeadingZerosPair(u1, u2);
      nz <= 127 && Pow2(127 - nz) <= Pair(u1, u2) < Pow2(128 - nz)
  {
    Pow2Constants();
    LenOfZero();
    hide Pow2, Up, Len;
    if u1 > 0 {
      LenBounds(u1, 64);
      var l := Len(u1);
      Pow2Up(l - 1, 64); Up64(Pow2(l - 1));
      Pow2Up(l, 64); Up64(Pow2(l));
    } else {
      LenBounds(u2, 64);
    }
  }

  /** Moving the difference up to the top of the words. */
  lemma NormalizedDifference(hi: Word, lo: Word)
    requires hi < SIGNMASK && Pair(hi, lo) > 0
    ensures var nz := LeadingZerosPair(hi, lo);
      1 <= nz <= 127 && 0x4000_0000_0000_0000 * TWO64 <= Up(Pair(hi, lo), nz - 1) < SIGNMASK * TWO64
  {
    var nz := LeadingZerosPair(hi, lo);
    LeadingZerosPairBounds(hi, lo);
    TopPlaces();
    assert Pair(hi, lo) < SIGNMASK * TWO64;
    UpMono(Pow2(127 - nz), Pair(hi, lo), nz - 1);
    UpMono(Pair(hi, lo), Pow2(128 - nz), nz - 1);
    Pow2Up(127 - nz, nz - 1);
    Pow2Up(128 - nz, nz - 1);
  }

  lemma TopPlaces()
    ensures Pow2(126) == 0x4000_0000_0000_0000 * TWO64 && Pow2(127) == SIGNMASK * TWO64
  {
    Pow2Constants();
    Pow2Up(62, 64); Up64(Pow2(62));
    Pow2Up(63, 64); Up64(Pow2(63));
  }

  lemma SubPairsWords(p: Num, zm1: Word, zm2: Word, hi: Word, lo: Word)
    requires Normal(p) && hi < SIGNMASK && Pair(hi, lo) > 0 && Pair(hi, lo) + Pair(zm1, zm2) == Pair(p.hi, p.lo)
    ensures var nz := LeadingZerosPair(hi, lo);
      1 <= nz <= 127 && 0x4000_0000_0000_0000 <= Compress(Up(Pair(hi, lo), nz - 1), 64) < SIGNMASK
      && SubPairs(p, zm1, zm2) == Total(p.sign, p.exp - nz, Compress(Up(Pair(hi, lo), nz - 1), 64))
  {
    hide SubPairs, Compress, ShlPair, LeadingZerosPair, WordOr, Up;
    NormalizedDifference(hi, lo);
    ShlCompressed(hi, lo, LeadingZerosPair(hi, lo) - 1);
    SubPairsIs(p, zm1, zm2, hi, lo);
  }

  lemma SubPairsIs(p: Num, zm1: Word, zm2: Word, hi: Word, lo: Word)
    requires Pair(hi, lo) + Pair(zm1, zm2) == Pair(p.hi, p.lo)
    ensures var nz := LeadingZerosPair(hi, lo);
      var (m, rest) := ShlPair(hi, lo, CountSub(nz, 1));
      SubPairs(p, zm1, zm2) == Total(p.sign, p.exp - nz, WordOr(m, Nonzero(rest)))
  {
    hide ShlPair, LeadingZerosPair, WordOr;
    Borrow(p.hi, p.lo, zm1, zm2, hi, lo);
  }

  lemma Borrow(p1: Word, p2: Word, z1: Word, z2: Word, hi: Word, lo: Word)
    requires Pair(hi, lo) + Pair(z1, z2) == Pair(p1, p2)
    ensures lo == (p2 - z2) % TWO64 && hi == (p1 - z1 - if p2 < z2 then 1 else 0) % TWO64
  {
  }

  lemma ShlCompressed(hi: Word, lo: Word, k: nat)
    requires k < 128 && 0x4000_0000_0000_0000 * TWO64 <= Up(Pair(hi, lo), k) < SIGNMASK * TWO64
    ensures var (m, rest) := ShlPair(hi, lo, k);
      WordOr(m, Nonzero(rest)) == Compress(Up(Pair(hi, lo), k), 64)
      && 0x4000_0000_0000_0000 <= Compress(Up(Pair(hi, lo), k), 64) < SIGNMASK
  {
    ShlPairValue(hi, lo, k);
    var (m, rest) := ShlPair(hi, lo, k);
    DownPair(m, rest);
    OrBit(m, Nonzero(rest));
  }

  /** The difference stands for the exact one: either nothing was lost aligning z, or at most
      one leading place cancelled and the lost bits are still below the kept ones. */
  lemma DifferenceStands(d: nat, v: real, nz: nat, e: int)
    requires 1 <= nz && Sticky(d, v) && (v == d as real || nz <= 2)
    ensures Sticky(Compress(Up(d, nz - 1), 64), Scale(Scale(v, e - 1149), 1084 - (e - nz)))
  {
    hide Sticky, Scale, Up, Compress;
    ScaleScale(v, e - 1149, 1084 - (e - nz));
    if v == d as real {
      ExactSticky(Up(d, nz - 1));
      ScaleUp(d, nz - 1);
      CompressSticky(Up(d, nz - 1), 64, Up(d, nz - 1) as real);
      ScaleScale(v, nz - 1, -64);
    } else if nz == 1 {
      UpNone(d);
      CompressSticky(d, 64, v);
    } else {
      CompressSticky(d, 63, v);
      CompressDouble(d, 63);
    }
  }

  lemma ExactSticky(m: nat)
    ensures Sticky(m, m as real)
  {
  }

  lemma CompressDouble(d: nat, n: nat)
    ensures Compress(Up(d, 1), n + 1) == Compress(d, n)
  {
    hide Up, Low, Down;
    UpNone(d);
    UpStep(d, 1);
    DownDouble(d, n);
  }

  /** Aligning z by d places: what it then stands for, and how much smaller it has become. */
  lemma Aligned(z: Num, d: nat)
    requires Normal(z) && d <= 0x4000
    ensures var (zm1, zm2) := ShrCompress(z.hi, z.lo, d);
      var c := Pair(zm1, zm2);
      zm1 < SIGNMASK && Sticky(c, Scale(Pair(z.hi, z.lo) as real, 0 - d))
      && (d == 0 ==> c == Pair(z.hi, z.lo))
      && (d >= 1 ==> c < 0x4000_0000_0000_0000 * TWO64)
      && (d >= 2 ==> c <= 0x2000_0000_0000_0000 * TWO64)
      && (d <= 1 ==> Scale(Pair(z.hi, z.lo) as real, 0 - d) == c as real)
  {
    var v := Pair(z.hi, z.lo);
    hide ShrCompress, Compress, Scale;
    ShrCompressValue(z.hi, z.lo, d);
    PairEven(z);
    AlignedExact(v, d);
    CompressSticky(v, d, v as real);
    CompressBound(v, d);
    var (zm1, zm2) := ShrCompress(z.hi, z.lo, d);
    assert Pair(zm1, zm2) == Compress(v, d);
    assert d == 0 ==> Pair(zm1, zm2) == v;
  }

  lemma PairEven(z: Num)
    requires Normal(z)
    ensures Pair(z.hi, z.lo) % 2 == 0 && Pair(z.hi, z.lo) < SIGNMASK * TWO64
  {
  }

  lemma DownOne(v: nat)
    ensures Low(v, 1) == v % 2 && Down(v, 1) == v / 2
  {
    assert Low(v / 2, 0) == 0 && Down(v / 2, 0) == v / 2;
  }

  lemma AlignedExact(v: nat, d: nat)
    requires v % 2 == 0
    ensures d <= 1 ==> Compress(v, d) as real == Scale(v as real, 0 - d)
    ensures d == 0 ==> Compress(v, d) == v
  {
    if d == 1 {
      DownOne(v);
      assert Scale(v as real, -1) == Scale(v as real, 0) / 2.0;
    }
  }

  lemma CompressBound(v: nat, d: nat)
    requires v % 2 == 0 && v < SIGNMASK * TWO64
    ensures d == 1 ==> Compress(v, d) == v / 2
    ensures d >= 2 ==> Compress(v, d) <= 0x2000_0000_0000_0000 * TWO64
  {
    if d == 1 {
      DownOne(v);
    } else if d >= 2 {
      DownDown(v, 2, d - 2);
      DownLe(Down(v, 2), d - 2);
      UpDown(v, 2);
      Up2(Down(v, 2), 0);
    }
  }

  lemma SubStands(p: Num, zm1: Word, zm2: Word, v: real, exact: bool)
    requires Normal(p) && zm1 < SIGNMASK && Sticky(Pair(zm1, zm2), v) && Pair(zm1, zm2) < Pair(p.hi, p.lo)
    requires if exact then v == Pair(zm1, zm2) as real else Pair(zm1, zm2) <= 0x2000_0000_0000_0000 * TWO64
    ensures Stands(SubPairs(p, zm1, zm2), p.sign, Scale(Pair(p.hi, p.lo) as real - v, p.exp - 1149))
  {
    var d := Pair(p.hi, p.lo) - Pair(zm1, zm2);
    var hi, lo := d / TWO64, d % TWO64;
    var nz := LeadingZerosPair(hi, lo);
    hide Scale, SubPairs, LeadingZerosPair, Sticky, Stands, Compress, Up;
    SubPairsWords(p, zm1, zm2, hi, lo);
    if !exact { FewLeadingZeros(hi, lo); }
    DifferenceTotal(p, Pair(zm1, zm2), v, d, nz);
  }

  lemma FewLeadingZeros(hi: Word, lo: Word)
    requires Pair(hi, lo) >= 0x2000_0000_0000_0000 * TWO64
    ensures LeadingZerosPair(hi, lo) <= 2
  {
    Pow2Constants();
    LenBounds(hi, 61);
    assert Pow2(62) == 2 * Pow2(61);
  }

  lemma DifferenceTotal(p: Num, z: nat, v: real, d: nat, nz: nat)
    requires Normal(p) && Sticky(z, v) && d + z == Pair(p.hi, p.lo) && 1 <= nz <= 127 && (v == z as real || nz <= 2)
    requires 0x4000_0000_0000_0000 <= Compress(Up(d, nz - 1), 64) < SIGNMASK
    ensures Stands(Total(p.sign, p.exp - nz, Compress(Up(d, nz - 1), 64)), p.sign,
              Scale(Pair(p.hi, p.lo) as real - v, p.exp - 1149))
  {
    hide Compress, Up, Scale, Pair, Sticky;
    PairEven(p);
    StickyAdd(Pair(p.hi, p.lo), z, v);
    DifferenceStands(d, Pair(p.hi, p.lo) as real - v, nz, p.exp);
  }

  function Signed(sign: nat, r: real): real { if sign == 1 then -r else r }

  /** p is at least z in magnitude, read off exponents first. */
  predicate Dominates(p: Num, z: Num) {
    p.exp > z.exp || (p.exp == z.exp && Pair(p.hi, p.lo) >= Pair(z.hi, z.lo))
  }

  predicate Opposite(p: Num, z: Num) {
    p.sign != z.sign && p.exp == z.exp && p.hi == z.hi && p.lo == z.lo
  }

  lemma WorthPositive(p: Num)
    requires Normal(p)
    ensures Worth(p) > 0.0
  {
    ScalePos(Pair(p.hi, p.lo) as real, p.exp - 1149);
  }

  /** The words z is aligned to, when it is added to p. */
  lemma AlignedTo(p: Num, z: Num) returns (zm1: Word, zm2: Word)
    requires Normal(p) && Normal(z) && Dominates(p, z)
    ensures Sum(p, z) == if p.sign == z.sign then AddPairs(p, zm1, zm2) else SubPairs(p, zm1, zm2)
    ensures zm1 < SIGNMASK && Sticky(Pair(zm1, zm2), Scale(Pair(z.hi, z.lo) as real, z.exp - p.exp))
    ensures p.exp == z.exp ==> zm1 == z.hi && zm2 == z.lo
    ensures p.exp > z.exp ==> Pair(zm1, zm2) < 0x4000_0000_0000_0000 * TWO64
    ensures p.exp - z.exp >= 2 ==> Pair(zm1, zm2) <= 0x2000_0000_0000_0000 * TWO64
    ensures p.exp - z.exp <= 1 ==> Scale(Pair(z.hi, z.lo) as real, z.exp - p.exp) == Pair(zm1, zm2) as real
  {
    var d := p.exp - z.exp;
    Aligned(z, d);
    var w := ShrCompress(z.hi, z.lo, d);
    zm1, zm2 := w.0, w.1;
    assert d % 0x1_0000_0000 == d;
  }

  lemma SumSame(p: Num, z: Num)
    requires Normal(p) && Normal(z) && Dominates(p, z) && p.sign == z.sign
    ensures Stands(Sum(p, z), p.sign, Worth(p) + Worth(z))
  {
    hide Scale, Sum, AddPairs, SubPairs, Pair, Stands, Sticky, Normal, Dominates;
    var zm1, zm2 := AlignedTo(p, z);
    var v := Scale(Pair(z.hi, z.lo) as real, z.exp - p.exp);
    AddStands(p, zm1, zm2, v);
    ScaleScale(Pair(z.hi, z.lo) as real, z.exp - p.exp, p.exp - 1149);
    ScaleAdd(Pair(p.hi, p.lo) as real, v, p.exp - 1149);
  }

  lemma SumOpposite(p: Num, z: Num)
    requires Normal(p) && Normal(z) && Dominates(p, z) && p.sign != z.sign && !Opposite(p, z)
    ensures Worth(p) > Worth(z) && Stands(Sum(p, z), p.sign, Worth(p) - Worth(z))
  {
    var zm1, zm2 := AlignedTo(p, z);
    var v := Scale(Pair(z.hi, z.lo) as real, z.exp - p.exp);
    AlignedBelow(p, z, zm1, zm2);
    SubStands(p, zm1, zm2, v, p.exp - z.exp <= 1);
    DifferenceWorth(p, z, v, Pair(zm1, zm2));
  }

  lemma AlignedBelow(p: Num, z: Num, zm1: Word, zm2: Word)
    requires Normal(p) && Dominates(p, z) && p.sign != z.sign && !Opposite(p, z)
    requires p.exp == z.exp ==> zm1 == z.hi && zm2 == z.lo
    requires p.exp > z.exp ==> Pair(zm1, zm2) < 0x4000_0000_0000_0000 * TWO64
    ensures Pair(zm1, zm2) < Pair(p.hi, p.lo)
  {
  }

  lemma DifferenceWorth(p: Num, z: Num, v: real, c: nat)
    requires v == Scale(Pair(z.hi, z.lo) as real, z.exp - p.exp)
    requires Normal(p) && Sticky(c, v) && c < Pair(p.hi, p.lo)
    ensures Worth(p) > Worth(z) && Scale(Pair(p.hi, p.lo) as real - v, p.exp - 1149) == Worth(p) - Worth(z)
  {
    ScaleScale(Pair(z.hi, z.lo) as real, z.exp - p.exp, p.exp - 1149);
    ScaleAdd(Pair(p.hi, p.lo) as real - v, v, p.exp - 1149);
    ScalePos(Pair(p.hi, p.lo) as real - v, p.exp - 1149);
  }

  /** The sum of two addends stands for the exact sum of what they are worth. */
  lemma SumStandsFor(p: Num, z: Num)
    requires Normal(p) && Normal(z) && Dominates(p, z) && !Opposite(p, z)
    ensures var r := Signed(p.sign, Worth(p)) + Signed(z.sign, Worth(z));
      r != 0.0 && (r < 0.0) == (p.sign == 1) && Stands(Sum(p, z), p.sign, AbsReal(r))
  {
    WorthPositive(p);
    WorthPositive(z);
    if p.sign == z.sign { SumSame(p, z); } else { SumOpposite(p, z); }
  }

  /** What rounding the kept bits does: nearest, ties to even, in units of 2^10. */
  function HalfEven(m: nat): nat {
    var q, t := m / 0x400, m % 0x400;
    if t < 0x200 || (t == 0x200 && q % 2 == 0) then q else q + 1
  }

  lemma FinalBits(m: Word, mask: nat, half: nat)
    requires m < SIGNMASK && mask == 0x3FF && half == 0x200
    ensures And(Shr((m + half) % TWO64, 10), Not(Zero(Xor(And(m, mask), half)))) == HalfEven(m)
  {
    FinalShift(m, half);
    FinalTie(m, mask, half);
    AndNotBit((m + half) / 0x400, Zero(Xor(And(m, mask), half)));
    HalfEvenByAdding(m);
  }

  lemma FinalShift(m: Word, half: nat)
    requires m < SIGNMASK && half == 0x200
    ensures Shr((m + half) % TWO64, 10) == (m + half) / 0x400
  {
    var x: Word := m + half;
    assert (m + half) % TWO64 == x;
    ShrTen(x);
  }

  lemma ShrTen(x: Word)
    ensures Shr(x, 10) == x / 0x400
  {
    DownTen(x);
  }

  lemma FinalTie(m: Word, mask: nat, half: nat)
    requires mask == 0x3FF && half == 0x200
    ensures Zero(Xor(And(m, mask), half)) == if m % 0x400 == 0x200 then 1 else 0
  {
    DownTen(m);
    Mask(m, 10);
    Pow2Constants();
    TieBit(And(m, mask), half);
  }

  lemma HalfEvenByAdding(m: nat)
    ensures var x := (m + 0x200) / 0x400;
      HalfEven(m) == if m % 0x400 == 0x200 then x - x % 2 else x
  {
    var q, t := m / 0x400, m % 0x400;
    assert m == 0x400 * q + t;
    assert (m + 0x200) / 0x400 == if t < 0x200 then q else q + 1;
  }

  lemma TieBit(t: nat, h: nat)
    ensures Zero(Xor(t, h)) == if t == h then 1 else 0
  {
    XorZero(t, h);
  }

  lemma DownTen(m: nat)
    ensures Down(m, 10) == m / 0x400 && Low(m, 10) == m % 0x400
  {
    Pow2Constants();
    Up10(m / 0x400);
    DownUnique(m, 10, m / 0x400, m % 0x400);
  }

  /** Rounding what m stands for gives the same integer as rounding m, ties included. */
  lemma HalfEvenSticky(m: nat, v: real)
    requires Sticky(m, v)
    ensures var f := HalfEven(m);
      2.0 * v < (2048 * f + 1024) as real || (2.0 * v == (2048 * f + 1024) as real && f % 2 == 0)
    ensures var f := HalfEven(m);
      2.0 * v > (2048 * f - 1024) as real || (2.0 * v == (2048 * f - 1024) as real && f % 2 == 0)
  {
    HalfEvenBounds(m);
    hide HalfEven;
  }

  lemma HalfEvenBounds(m: nat)
    ensures var f := HalfEven(m);
      m % 2 == 1 ==> 2048 * f - 1024 <= 2 * m - 2 && 2 * m + 2 <= 2048 * f + 1024
    ensures var f := HalfEven(m);
      (2 * m < 2048 * f + 1024 || (2 * m == 2048 * f + 1024 && f % 2 == 0))
      && (2 * m > 2048 * f - 1024 || (2 * m == 2048 * f - 1024 && f % 2 == 0))
  {
    var q, t := m / 0x400, m % 0x400;
    assert m == 1024 * q + t;
  }

  lemma ScaleTwice(v: real, e: int)
    ensures Scale(2.0 * v, e) == 2.0 * Scale(v, e)
  {
    ScaleAdd(v, v, e);
  }

  lemma EncodeScaled(pe: nat, f: nat)
    requires f <= 2 * HIDDEN && (pe == 0 || f >= HIDDEN)
    ensures Mag(pe * HIDDEN + f) == Scale((1024 * f) as real, pe - 1084)
  {
    EncodeMag(pe, f);
    Up10(f);
    UpScale(f, 10, pe - 1084);
  }

  /** The heart of the rounding: with exponent and significand in range, the encoded HalfEven(m)
      is the correctly rounded image of what m stands for. */
  lemma RoundFinal(pe: nat, m: nat, r: real)
    requires pe <= 2045 && m < SIGNMASK && (pe > 0 ==> m >= 0x4000_0000_0000_0000)
    requires Sticky(m, Scale(r, 1084 - pe))
    ensures (pe > 0 ==> HalfEven(m) >= HIDDEN) && HalfEven(m) <= 2 * HIDDEN
    ensures RoundsTo(r, pe * HIDDEN + HalfEven(m))
  {
    hide Scale, Sticky, RoundsTo, Mag;
    var v, f, e := Scale(r, 1084 - pe), HalfEven(m), pe - 1084;
    var k := pe * HIDDEN + f;
    assert (pe > 0 ==> f >= HIDDEN) && f <= 2 * HIDDEN;
    Unscale(r, 1084 - pe);
    assert r == Scale(v, e);
    HalfEvenSticky(m, v);
    EncodeScaled(pe, f);
    if k > 0 { BelowRounded(pe, m, f, v, r); }
    if k < UVINF { AboveRounded(pe, m, f, v, r); }
    NearestByNeighbours(r, k);
  }

  lemma Unscale(r: real, e: int)
    ensures Scale(Scale(r, e), 0 - e) == r
  {
    ScaleScale(r, e, 0 - e);
  }

  lemma EncodedParity(pe: nat, f: nat)
    ensures (pe * HIDDEN + f) % 2 == f % 2
  {
  }

  lemma AboveRounded(pe: nat, m: nat, f: nat, v: real, r: real)
    requires f <= 2 * HIDDEN && (pe == 0 || f >= HIDDEN) && r == Scale(v, pe - 1084)
    requires m < SIGNMASK && Sticky(m, v) && Mag(pe * HIDDEN + f) == Scale((1024 * f) as real, pe - 1084)
    requires 2.0 * v < (2048 * f + 1024) as real || (2.0 * v == (2048 * f + 1024) as real && f % 2 == 0)
    ensures var k := pe * HIDDEN + f;
      2.0 * r < Mag(k) + Mag(k + 1) || (2.0 * r == Mag(k) + Mag(k + 1) && k % 2 == 0)
  {
    var e, k := pe - 1084, pe * HIDDEN + f;
    EncodedParity(pe, f);
    hide Mag, Scale;
    if f == 2 * HIDDEN {
      ScaleMono(v, (1024 * f) as real, e);
      MagStep(k);
    } else {
      EncodeScaled(pe, f + 1);
      HalfwayCompare(f, v, e);
    }
  }

  /** Comparing the real behind v with the midpoint of two multiples of 1024. */
  lemma HalfwayCompare(f: nat, v: real, e: int)
    ensures var s := Scale((1024 * f) as real, e) + Scale((1024 * (f + 1)) as real, e);
      (2.0 * Scale(v, e) < s) == (2.0 * v < (2048 * f + 1024) as real) && (2.0 * Scale(v, e) == s) == (2.0 * v == (2048 * f + 1024) as real)
  {
    hide *;
    ScaleAdd((1024 * f) as real, (1024 * (f + 1)) as real, e);
    ScaleTwice(v, e);
    ScaleMono(2.0 * v, (1024 * f) as real + (1024 * (f + 1)) as real, e);
  }

  lemma BelowRounded(pe: nat, m: nat, f: nat, v: real, r: real)
    requires f <= 2 * HIDDEN && (pe == 0 || f >= HIDDEN) && r == Scale(v, pe - 1084) && pe * HIDDEN + f > 0
    requires (pe > 0 ==> m >= 0x4000_0000_0000_0000) && Sticky(m, v)
    requires Mag(pe * HIDDEN + f) == Scale((1024 * f) as real, pe - 1084)
    requires 2.0 * v > (2048 * f - 1024) as real || (2.0 * v == (2048 * f - 1024) as real && f % 2 == 0)
    ensures var k := pe * HIDDEN + f;
      Mag(k - 1) + Mag(k) < 2.0 * r || (Mag(k - 1) + Mag(k) == 2.0 * r && k % 2 == 0)
  {
    var e, k := pe - 1084, pe * HIDDEN + f;
    EncodedParity(pe, f);
    hide Mag, Scale;
    if f == HIDDEN && pe > 0 {
      ScaleMono((1024 * f) as real, v, e);
      MagStep(k - 1);
    } else {
      EncodeScaled(pe, f - 1);
      HalfwayCompare(f - 1, v, e);
    }
  }

  lemma OverflowTest(m: Word)
    requires m < SIGNMASK
    ensures (Shr((m + 0x200) % TWO64, 63) == 1) == (m + 0x200 >= SIGNMASK)
  {
    var x: Word := m + 0x200;
    assert (m + 0x200) % TWO64 == x;
    TopBit(x);
  }

  lemma ShrStickyValue(m: Word, n: nat)
    ensures ShrSticky(m, n) == Compress(m, n)
  {
    Mask(m, n);
    OrBit(Down(m, n), Nonzero(Low(m, n)));
  }

  /** Assembling a word from sign and magnitude. */
  lemma Assembled(sign: nat, k: nat)
    requires sign <= 1 && k < SIGNMASK
    ensures var w := (Up(sign, 63) + k) % TWO64; Sign(w) == sign && Abs(w) == k
  {
    UpSign(sign);
  }

  /** At or above two to the 1024 everything rounds to infinity. */
  lemma RoundOverflow(exp: int, m: nat, r: real)
    requires exp >= 2046 && m >= 0x4000_0000_0000_0000 && Sticky(m, Scale(r, 1084 - exp))
    ensures RoundsTo(r, UVINF)
  {
    var v, big := Scale(r, 1084 - exp), 0x4000_0000_0000_0000;
    ScaleScale(r, 1084 - exp, exp - 1084);
    EncodeScaled(2046, HIDDEN);
    UpScale(big, exp - 2046, 962);
    UpGrows(big, exp - 2046);
    ScaleMono(big as real, Up(big, exp - 2046) as real, 962);
    ScaleMono(big as real, v, exp - 1084);
    MagStep(UVINF - 1);
    NearestByNeighbours(r, UVINF);
  }

  lemma {:induction false} UpGrows(x: nat, n: nat)
    ensures x <= Up(x, n)
  {
    if n == 0 {
    } else {
      UpGrows(x, n - 1);
    }
  }

  /** Packing what an addition stands for gives its correctly rounded image. */
  lemma PackRounds(t: Total, sign: nat, r: real)
    requires sign <= 1 && Stands(t, sign, r)
    ensures var w := Pack(t.sign, t.exp, t.m);
      Sign(w) == sign && RoundsTo(r, Abs(w))
  {
    hide Pack, RoundsTo, HalfEven, ShrSticky, Sticky, Scale;
    if t.exp > 2045 || (t.exp == 2045 && t.m + 0x200 >= SIGNMASK) {
      PackInfinity(t, r);
    } else if t.exp >= 0 {
      OverflowTest(t.m);
      RoundFinal(t.exp, t.m, r);
      PackWord(sign, t.exp, t.exp, t.m, t.m);
    } else {
      var c := PackGradual(t, r);
      PackWord(sign, t.exp, 0, t.m, c);
    }
  }

  lemma PackInfinity(t: Total, r: real)
    requires t.sign <= 1 && Stands(t, t.sign, r)
    requires t.exp > 2045 || (t.exp == 2045 && t.m + 0x200 >= SIGNMASK)
    ensures var w := Pack(t.sign, t.exp, t.m);
      Sign(w) == t.sign && Abs(w) == UVINF && RoundsTo(r, UVINF)
  {
    OverflowTest(t.m);
    Assembled(t.sign, UVINF);
    if t.exp > 2045 {
      RoundOverflow(t.exp, t.m, r);
    } else {
      RoundFinal(2045, t.m, r);
      HalfEvenByAdding(t.m);
    }
  }

  /** Below the normal range the significand is compressed once more before rounding. */
  lemma PackGradual(t: Total, r: real) returns (c: Word)
    requires Stands(t, t.sign, r) && t.exp < 0
    ensures c == ShrSticky(t.m, -t.exp) && c < SIGNMASK
    ensures HalfEven(c) <= 2 * HIDDEN && RoundsTo(r, HalfEven(c))
  {
    c := ShrSticky(t.m, -t.exp);
    ShrStickyValue(t.m, -t.exp);
    CompressSticky(t.m, -t.exp, Scale(r, 1084 - t.exp));
    ScaleScale(r, 1084 - t.exp, t.exp);
    CompressSmaller(t.m, -t.exp);
    RoundFinal(0, c, r);
  }

  lemma CompressSmaller(m: Word, n: nat)
    requires m < SIGNMASK && n > 0
    ensures Compress(m, n) < SIGNMASK
  {
    DownLe(m / 2, n - 1);
  }

  lemma PackWord(sign: nat, exp: int, pe: nat, m: Word, c: Word)
    requires sign <= 1 && c < SIGNMASK && pe <= 2045 && (pe > 0 ==> HalfEven(c) >= HIDDEN) && HalfEven(c) <= 2 * HIDDEN
    requires !(exp > 2045 || (exp == 2045 && Shr((m + 0x200) % TWO64, 63) == 1))
    requires if exp < 0 then pe == 0 && c == ShrSticky(m, -exp) else pe == exp && c == m
    ensures var w := Pack(sign, exp, m); Sign(w) == sign && Abs(w) == pe * HIDDEN + HalfEven(c)
  {
    hide Pack, And, Shr, Xor, Not, Zero, ShrSticky, Up, HalfEven, Sign, Abs;
    PackIs(sign, exp, pe, m, c);
    FinalBits(c, 0x3FF, 0x200);
    UpFrac(pe);
    UpFrac(0);
    Assembled(sign, pe * HIDDEN + HalfEven(c));
  }

  /** The unfolded end of Pack, for a significand c whose exponent field is pe. */
  lemma PackIs(sign: nat, exp: int, pe: nat, m: Word, c: Word)
    requires !(exp > 2045 || (exp == 2045 && Shr((m + 0x200) % TWO64, 63) == 1))
    requires if exp < 0 then pe == 0 && c == ShrSticky(m, -exp) else pe == exp && c == m
    ensures var f := And(Shr((c + 0x200) % TWO64, 10), Not(Zero(Xor(And(c, 0x3FF), 0x200))));
      Pack(sign, exp, m) == (Up(sign, 63) + Up(if f == 0 then 0 else pe, 52) + f) % TWO64
  {
    hide And, Shr, Xor, Not, Zero, ShrSticky, Up;
  }

  lemma FinishCorrect(p: Num, z: Num)
    requires Normal(p) && Normal(z) && Dominates(p, z)
    ensures var r := Signed(p.sign, Worth(p)) + Signed(z.sign, Worth(z));
      var w := Finish(p, z);
      if r == 0.0 then w == 0 else (Sign(w) == 1) == (r < 0.0) && RoundsTo(AbsReal(r), Abs(w))
  {
    if !Opposite(p, z) {
      SumStandsFor(p, z);
      PackRounds(Sum(p, z), p.sign, AbsReal(Signed(p.sign, Worth(p)) + Signed(z.sign, Worth(z))));
    }
  }

  lemma ExponentField(b: Word)
    ensures (And(b, UVINF) == UVINF) == (Abs(b) >= UVINF)
  {
    ExponentMasked(b, EXPMASK, UVINF);
    AbsFields(b);
  }

  lemma ExponentMasked(b: Word, mask: nat, shifted: nat)
    requires mask == EXPMASK && shifted == UVINF
    ensures And(b, shifted) == Expo(b) * HIDDEN
  {
    hide And, Up, Down, Low, Pow2;
    UpFrac(mask);
    AndShifted(b, mask, 52);
    DownConst(b);
    LowConst(b / HIDDEN);
    Pow2Constants();
    Mask(b / HIDDEN, 11);
    UpFrac(b / HIDDEN % 0x800);
  }

  /** The two addends of a multiply-add are worth the exact product and the third operand. */
  lemma Addends(x: Word, y: Word, z: Word, p: Num, a: Num, r: real)
    requires Finite(x) && Finite(y) && Finite(z) && Abs(x) != 0 && Abs(y) != 0 && Abs(z) != 0
    requires p == Product(Split(x), Split(y)) && a == Addend(Split(z)) && r == Value(x) * Value(y) + Value(z)
    ensures Normal(p) && Normal(a) && r == Signed(p.sign, Worth(p)) + Signed(a.sign, Worth(a))
  {
    ProductAddend(x, y, p, Value(x) * Value(y));
    SplitValue(z);
    AddendValue(Split(z));
  }

  lemma ProductAddend(x: Word, y: Word, p: Num, r: real)
    requires Finite(x) && Finite(y) && Abs(x) != 0 && Abs(y) != 0
    requires p == Product(Split(x), Split(y)) && r == Value(x) * Value(y)
    ensures Normal(p) && r == Signed(p.sign, Worth(p))
  {
    hide *;
    SplitValue(x);
    SplitValue(y);
    ProductMagnitude(Split(x), Split(y), Mag(Abs(x)), Mag(Abs(y)));
    ProductSign(x, y, Worth(p), p.sign);
  }

  lemma ProductMagnitude(x: Parts, y: Parts, a: real, b: real)
    requires HIDDEN <= x.mant < 2 * HIDDEN && -51 <= x.exp <= 2046 && x.sign <= 1
    requires HIDDEN <= y.mant < 2 * HIDDEN && -51 <= y.exp <= 2046 && y.sign <= 1
    requires a == Scale(x.mant as real, x.exp - 1075) && b == Scale(y.mant as real, y.exp - 1075)
    ensures var p := Product(x, y);
      Normal(p) && p.sign == (if x.sign == y.sign then 0 else 1) && Worth(p) == a * b
  {
    ProductValue(x, y, a * b);
  }

  lemma FmaFinishes(x: Word, y: Word, z: Word, p: Num, a: Num)
    requires Finite(x) && Finite(y) && Finite(z) && Abs(x) != 0 && Abs(y) != 0 && Abs(z) != 0
    requires p == Product(Split(x), Split(y)) && a == Addend(Split(z))
    ensures FMA(x, y, z) == Bits(if Dominates(p, a) then Finish(p, a) else Finish(a, p))
  {
    ExponentField(x);
    ExponentField(y);
    ExponentField(z);
    assert a.lo == 0;
  }

  /** FMA(x, y, z) for finite non-zero operands is the exact real x*y + z rounded once: the
      nearest pattern, ties to even, infinity past the range, +0 when the sum cancels. */
  lemma FmaCorrectlyRounded(x: Word, y: Word, z: Word)
    requires Finite(x) && Finite(y) && Finite(z) && Abs(x) != 0 && Abs(y) != 0 && Abs(z) != 0
    ensures FMA(x, y, z).Bits?
    ensures var r := Value(x) * Value(y) + Value(z);
      var w := FMA(x, y, z).word;
      if r == 0.0 then w == 0 else (Sign(w) == 1) == (r < 0.0) && RoundsTo(AbsReal(r), Abs(w))
  {
    var p, a := Product(Split(x), Split(y)), Addend(Split(z));
    hide FMA, Product, Addend, Split, Worth, Normal, Value, RoundsTo, Finish;
    FmaFinishes(x, y, z, p, a);
    Addends(x, y, z, p, a, Value(x) * Value(y) + Value(z));
    if Dominates(p, a) { FinishCorrect(p, a); } else { FinishCorrect(a, p); }
  }

  /** The other operands: a factor that is zero, infinite or NaN leaves x*y + z to the processor, a zero
      addend x*y; with finite non-zero factors an infinite or NaN addend is the result, unchanged. */
  lemma FmaOtherwise(x: Word, y: Word, z: Word)
    ensures var finite := Finite(x) && Finite(y) && Abs(x) != 0 && Abs(y) != 0;
      && (FMA(x, y, z).HardwareMulAdd? <==> !finite)
      && (FMA(x, y, z).HardwareMul? <==> finite && Abs(z) == 0)
      && (finite && !Finite(z) ==> FMA(x, y, z) == Bits(z))
  {
    hide Product, Addend, Split, Finish, And;
    ExponentField(x);
    ExponentField(y);
    ExponentField(z);
  }

  lemma ProductSign(x: Word, y: Word, u: real, sign: nat)
    requires Finite(x) && Finite(y) && u == Mag(Abs(x)) * Mag(Abs(y))
    requires Sign(x) <= 1 && Sign(y) <= 1 && sign == if Sign(x) == Sign(y) then 0 else 1
    ensures Value(x) * Value(y) == Signed(sign, u)
  {
    var a, b := Mag(Abs(x)), Mag(Abs(y));
    assert (-a) * b == -(a * b) && a * (-b) == -(a * b) && (-a) * (-b) == a * b;
  }
}
