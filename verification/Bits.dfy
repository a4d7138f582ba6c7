/** Machine words as bounded naturals. Shifts double and halve, the bitwise operators are
    defined one bit at a time, and lemmas give the arithmetic reading of each use. */
module Bits {

  const TWO64: nat := 0x1_0000_0000_0000_0000

  /** The largest int. */
  const MAX_INT: nat := 0x7FFF_FFFF_FFFF_FFFF

  /** A 64-bit unsigned word. */
  type Word = x: nat | x < TWO64

  function Pow2(n: nat): (p: nat)
    ensures p >= 1
  {
    if n == 0 then 1 else 2 * Pow2(n - 1)
  }

  /** x doubled n times, x halved n times, and the n low bits that halving drops. */
  function Up(x: nat, n: nat): nat {
    if n == 0 then x else 2 * Up(x, n - 1)
  }

  function Down(x: nat, n: nat): nat {
    if n == 0 then x else Down(x / 2, n - 1)
  }

  function Low(x: nat, n: nat): nat {
    if n == 0 then 0 else 2 * Low(x / 2, n - 1) + x % 2
  }

  lemma UpNone(x: nat)
    ensures Up(x, 0) == x
  {
  }

  /** One step, for proofs that hide the definition. */
  lemma UpStep(x: nat, n: nat)
    requires n > 0
    ensures Up(x, n) == 2 * Up(x, n - 1)
  {
  }

  lemma {:induction false} UpAdd(x: nat, y: nat, n: nat)
    ensures Up(x + y, n) == Up(x, n) + Up(y, n)
  {
    if n == 0 {
    } else {
      UpAdd(x, y, n - 1);
    }
  }

  lemma {:induction false} UpUp(x: nat, a: nat, b: nat)
    ensures Up(Up(x, a), b) == Up(x, a + b)
  {
    if b == 0 {
    } else {
      UpUp(x, a, b - 1);
    }
  }

  lemma {:induction false} UpMono(x: nat, y: nat, n: nat)
    requires x <= y
    ensures Up(x, n) <= Up(y, n)
    ensures x < y ==> Up(x, n) + Pow2(n) <= Up(y, n)
  {
    if n == 0 {
    } else {
      UpMono(x, y, n - 1);
    }
  }

  lemma {:induction false} UpOne(n: nat)
    ensures Up(1, n) == Pow2(n)
    ensures Up(0, n) == 0
  {
    if n == 0 {
    } else {
      UpOne(n - 1);
    }
  }

  lemma {:induction false} UpDouble(x: nat, n: nat)
    requires n > 0
    ensures Up(x, n) == Up(2 * x, n - 1)
  {
    if n <= 1 {
    } else {
      UpDouble(x, n - 1);
    }
  }

  lemma {:induction false} Pow2Mono(a: nat, b: nat)
    requires a <= b
    ensures Pow2(a) <= Pow2(b)
    decreases b
  {
    if a == b {
    } else {
      Pow2Mono(a, b - 1);
    }
  }

  lemma Pow2Up(a: nat, b: nat)
    ensures Up(Pow2(a), b) == Pow2(a + b)
  {
    UpOne(a);
    UpOne(a + b);
    UpUp(1, a, b);
  }

  /** A number is its quotient shifted back plus the low bits. */
  lemma {:induction false} UpDown(x: nat, n: nat)
    ensures x == Up(Down(x, n), n) + Low(x, n)
    ensures Low(x, n) < Pow2(n)
    decreases n
  {
    if n == 0 {
    } else {
      UpDown(x / 2, n - 1);
    }
  }

  /** ... and that is the only way to write it so. */
  lemma {:induction false} DownUnique(x: nat, n: nat, q: nat, r: nat)
    requires x == Up(q, n) + r && r < Pow2(n)
    ensures Down(x, n) == q && Low(x, n) == r
    decreases n
  {
    if n == 0 {
    } else {
      assert x / 2 == Up(q, n - 1) + r / 2;
      DownUnique(x / 2, n - 1, q, r / 2);
    }
  }

  lemma DownLe(x: nat, n: nat)
    ensures Down(x, n) <= x
    decreases n
  {
    if n > 0 { DownLe(x / 2, n - 1); }
  }

  lemma {:induction false} DownDown(x: nat, a: nat, b: nat)
    ensures Down(Down(x, a), b) == Down(x, a + b)
    decreases a
  {
    if a == 0 {
    } else {
      DownDown(x / 2, a - 1, b);
    }
  }

  lemma Pow2One()
    ensures Pow2(1) == 2
  {
  }

  lemma LowParity(x: nat)
    ensures Low(x, 1) == x % 2
  {
    assert Low(x / 2, 0) == 0;
  }

  lemma DownDouble(x: nat, n: nat)
    ensures Low(2 * x, n + 1) == 2 * Low(x, n) && Down(2 * x, n + 1) == Down(x, n)
  {
    assert 2 * x / 2 == x;
  }

  /** Constants of the two word sizes and of the format. */
  lemma Pow2Constants()
    ensures Pow2(9) == 0x200 && Pow2(10) == 0x400 && Pow2(11) == 0x800
    ensures Pow2(51) == 0x8_0000_0000_0000 && Pow2(52) == 0x10_0000_0000_0000 && Pow2(53) == 0x20_0000_0000_0000
    ensures Pow2(62) == 0x4000_0000_0000_0000 && Pow2(63) == 0x8000_0000_0000_0000 && Pow2(64) == TWO64
  {
    Pow2Ten(0); Pow2Ten(10); Pow2Ten(20); Pow2Ten(30); Pow2Ten(40); Pow2Ten(50);
    assert Pow2(50) == 0x4_0000_0000_0000;
    assert Pow2(60) == 0x1000_0000_0000_0000;
    assert Pow2(63) == 2 * Pow2(62);
  }

  lemma Pow2Ten(n: nat)
    ensures Pow2(n + 10) == 1024 * Pow2(n) && Pow2(n + 10) == 2 * Pow2(n + 9)
  {
    assert Pow2(n + 2) == 4 * Pow2(n);
    assert Pow2(n + 4) == 4 * Pow2(n + 2);
    assert Pow2(n + 6) == 4 * Pow2(n + 4);
    assert Pow2(n + 8) == 4 * Pow2(n + 6);
  }

  lemma Up64(x: nat)
    ensures Up(x, 64) == x * TWO64
  {
    UpUp(x, 8, 8); UpUp(x, 16, 16); UpUp(x, 32, 32);
    Up8(x); Up8(Up(x, 8)); Up8(Up(x, 16)); Up8(Up(x, 24));
    Up8(Up(x, 32)); Up8(Up(x, 40)); Up8(Up(x, 48)); Up8(Up(x, 56));
    UpUp(x, 16, 8); UpUp(x, 24, 8); UpUp(x, 32, 8); UpUp(x, 40, 8); UpUp(x, 48, 8); UpUp(x, 56, 8);
  }

  lemma Up8(x: nat)
    ensures Up(x, 8) == x * 256
  {
    Up2(x, 0); Up2(x, 2); Up2(x, 4); Up2(x, 6);
  }

  lemma Up2(x: nat, n: nat)
    ensures Up(x, n + 2) == 4 * Up(x, n)
  {
    assert Up(x, n + 2) == 2 * Up(x, n + 1);
  }

  /** Bitwise or, and, exclusive or, and and-not of naturals. */
  function Or(x: nat, y: nat): nat {
    if x == 0 then y else if y == 0 then x
    else 2 * Or(x / 2, y / 2) + (if x % 2 == 1 || y % 2 == 1 then 1 else 0)
  }

  function And(x: nat, y: nat): nat {
    if x == 0 || y == 0 then 0
    else 2 * And(x / 2, y / 2) + (if x % 2 == 1 && y % 2 == 1 then 1 else 0)
  }

  function Xor(x: nat, y: nat): nat {
    if x == 0 then y else if y == 0 then x
    else 2 * Xor(x / 2, y / 2) + (if x % 2 != y % 2 then 1 else 0)
  }

  function AndNot(x: nat, y: nat): nat {
    if x == 0 then 0 else if y == 0 then x
    else 2 * AndNot(x / 2, y / 2) + (if x % 2 == 1 && y % 2 == 0 then 1 else 0)
  }

  /** Shifts of a 64-bit word; a count of 64 or more leaves zero. */
  function Shl(x: Word, n: nat): Word {
    Up(x, n) % TWO64
  }

  function Shr(x: Word, n: nat): Word {
    DownLe(x, n);
    Down(x, n)
  }

  /** Complement of a 64-bit word. */
  function Not(x: Word): Word {
    TWO64 - 1 - x
  }

  /** Masking with 2^n - 1 keeps the low bits; clearing with it drops them. */
  lemma {:induction false} Mask(x: nat, n: nat)
    ensures And(x, Pow2(n) - 1) == Low(x, n)
    ensures AndNot(x, Pow2(n) - 1) == x - Low(x, n)
    decreases n
  {
    if n == 0 {
    } else {
      Mask(x / 2, n - 1);
      assert (Pow2(n) - 1) / 2 == Pow2(n - 1) - 1;
      AndStep(x, Pow2(n) - 1);
      if x == 0 { LowOfZero(n); }
    }
  }

  lemma {:induction false} LowOfZero(n: nat)
    ensures Low(0, n) == 0
  {
    if n == 0 {
    } else {
      LowOfZero(n - 1);
    }
  }

  lemma AndStep(x: nat, y: nat)
    ensures And(x, y) == 2 * And(x / 2, y / 2) + (if x % 2 == 1 && y % 2 == 1 then 1 else 0)
  {
  }

  lemma {:induction false} AndLe(x: nat, y: nat)
    ensures And(x, y) <= x
    decreases x
  {
    if x == 0 || y == 0 {
    } else {
      AndLe(x / 2, y / 2);
    }
  }

  /** Words whose bits do not meet are added by the or. */
  lemma {:induction false} OrDisjoint(hi: nat, lo: nat, n: nat)
    requires lo < Pow2(n)
    ensures Or(Up(hi, n), lo) == Up(hi, n) + lo
    ensures Or(lo, Up(hi, n)) == Up(hi, n) + lo
    decreases n
  {
    if n == 0 || lo == 0 {
    } else {
      OrDisjoint(hi, lo / 2, n - 1);
    }
  }

  lemma OrBit(x: nat, b: nat)
    requires b <= 1
    ensures Or(x, b) == if b == 1 && x % 2 == 0 then x + 1 else x
  {
    if x > 0 && b == 1 { assert Or(x / 2, 0) == x / 2; }
  }

  lemma {:induction false} OrZero(x: nat, y: nat)
    ensures (Or(x, y) == 0) == (x == 0 && y == 0)
    decreases x
  {
    if x == 0 || y == 0 {
    } else {
      OrZero(x / 2, y / 2);
    }
  }

  lemma {:induction false} OrBound(x: nat, y: nat, n: nat)
    requires x < Pow2(n) && y < Pow2(n)
    ensures Or(x, y) < Pow2(n)
  {
    if n == 0 {
    } else {
      OrBound(x / 2, y / 2, n - 1);
    }
  }

  function WordOr(x: Word, y: Word): Word {
    Pow2Constants();
    OrBound(x, y, 64);
    Or(x, y)
  }

  lemma {:induction false} OrSelf(x: nat)
    ensures Or(x, x) == x
  {
    if x == 0 {
    } else {
      OrSelf(x / 2);
    }
  }

  lemma {:induction false} XorZero(x: nat, y: nat)
    ensures (Xor(x, y) == 0) == (x == y)
    decreases x
  {
    if x == 0 || y == 0 {
    } else {
      XorZero(x / 2, y / 2);
    }
  }

  /** Anding with the complement of a single bit value. */
  lemma AndNotBit(x: Word, b: nat)
    requires b <= 1
    ensures And(x, Not(b)) == if b == 1 then x - x % 2 else x
  {
    hide And, Pow2;
    Pow2Constants();
    AndAllOnes(x, 64);
    if b == 1 {
      AndAllOnes(x / 2, 63);
      AndStep(x, Not(1));
      assert Not(1) / 2 == Pow2(63) - 1;
    }
  }

  lemma AndAllOnes(x: nat, n: nat)
    requires x < Pow2(n)
    ensures And(x, Pow2(n) - 1) == x
  {
    hide *;
    UpOne(n);
    Mask(x, n);
    DownUnique(x, n, 0, x);
  }

  /** A mask that is shifted up looks at the shifted word. */
  lemma {:induction false} AndShifted(x: nat, h: nat, n: nat)
    ensures And(x, Up(h, n)) == Up(And(Down(x, n), h), n)
    decreases n
  {
    if n == 0 {
    } else {
      AndShifted(x / 2, h, n - 1);
      AndStep(x, Up(h, n));
    }
  }

  /** Number of significant bits, as math/bits.Len64. */
  function Len(x: nat): (l: nat)
    ensures x < Pow2(l) && (x > 0 ==> l > 0 && Pow2(l - 1) <= x)
  {
    if x == 0 then 0 else 1 + Len(x / 2)
  }

  lemma LenBounds(x: nat, n: nat)
    ensures x < Pow2(n) <==> Len(x) <= n
  {
    if Len(x) <= n { Pow2Mono(Len(x), n); }
    else { Pow2Mono(n, Len(x) - 1); }
  }

  function LeadingZeros(x: Word): nat {
    Pow2Constants();
    LenBounds(x, 64);
    64 - Len(x)
  }

  /** Shifts by 64 or more leave nothing. */
  lemma ShiftedOut(x: Word, n: nat)
    requires n >= 64
    ensures Shl(x, n) == 0 && Shr(x, n) == 0
  {
    ShiftedUpOut(x, n);
    hide Up, Down, Low, Pow2;
    Pow2Constants();
    Pow2Mono(64, n);
    UpOne(n);
    DownUnique(x, n, 0, x);
  }

  lemma ShiftedUpOut(x: Word, n: nat)
    requires n >= 64
    ensures Shl(x, n) == 0
  {
    hide Up;
    UpUp(x, n - 64, 64);
    Up64(Up(x, n - 64));
    assert Up(x, n) == Up(x, n - 64) * TWO64;
  }

  /** A left shift by n <= 64 moves the low 64 - n bits up and drops the rest. */
  lemma ShlBits(x: Word, n: nat)
    requires n <= 64
    ensures Shl(x, n) == Up(Low(x, 64 - n), n)
  {
    hide *;
    var q, r := Down(x, 64 - n), Low(x, 64 - n);
    UpDown(x, 64 - n);
    UpAdd(Up(q, 64 - n), r, n);
    UpUp(q, 64 - n, n);
    Up64(q);
    UpMono(r, Pow2(64 - n), n);
    Pow2Up(64 - n, n);
    Pow2Constants();
    ShlRemainder(x, n, q, Up(r, n));
  }

  lemma ShlRemainder(x: Word, n: nat, q: nat, r: nat)
    requires Up(x, n) == q * TWO64 + r && r < TWO64
    ensures Shl(x, n) == r
  {
    hide Up;
  }
}
