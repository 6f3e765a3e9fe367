/**
 * The parts of Swift's 64-bit `Int` arithmetic that give a result different
 * from plain mathematical integers: division and remainder truncate toward
 * zero, and the "smart" shift operators discard the bits that leave the
 * 64-bit word (or fill with the sign) instead of trapping.
 */
module SwiftInt {

  const MinInt: int := -0x8000_0000_0000_0000
  const MaxInt: int := 0x7fff_ffff_ffff_ffff
  const WordModulus: int := 0x1_0000_0000_0000_0000
  const BitWidth: nat := 64

  /** The values a Swift `Int` can hold. */
  predicate IsInt(x: int) {
    MinInt <= x <= MaxInt
  }

  function Abs(x: int): (r: nat)
    ensures r == x || r == -x
  {
    if x < 0 then -x else x
  }

  /** Keeps the low 64 bits of `x` and reads them as a two's-complement number. */
  function Wrap(x: int): (r: int)
    ensures IsInt(r)
    ensures IsInt(x) ==> r == x
  {
    var u := x % WordModulus;
    if u <= MaxInt then u else u - WordModulus
  }

  function Pow2(n: nat): (r: nat)
    ensures r >= 1
  {
    if n == 0 then 1 else 2 * Pow2(n - 1)
  }

  /** Swift's `/` on integers: the quotient truncated toward zero. */
  function Quot(a: int, b: int): (q: int)
    requires b != 0
    ensures Abs(q) == Abs(a) / Abs(b)
    ensures (a >= 0) == (b > 0) ==> q >= 0
    ensures (a >= 0) != (b > 0) ==> q <= 0
  {
    DivNonNegative(Abs(a), Abs(b));
    if (a >= 0) == (b > 0) then Abs(a) / Abs(b) else -(Abs(a) / Abs(b))
  }

  lemma DivNonNegative(n: nat, d: nat)
    requires d > 0
    ensures n / d >= 0
  {
  }

  /** Swift's `%` on integers: the remainder of the truncating division. */
  function Rem(a: int, b: int): (r: int)
    requires b != 0
  {
    a - b * Quot(a, b)
  }

  /** Truncating division and its remainder reconstruct the dividend, the
    * remainder is smaller than the divisor and takes the dividend's sign. */
  lemma QuotRem(a: int, b: int)
    requires b != 0
    ensures a == b * Quot(a, b) + Rem(a, b)
    ensures Abs(Rem(a, b)) < Abs(b)
    ensures Rem(a, b) == 0 || ((Rem(a, b) > 0) <==> (a > 0))
  {
    var q, m := Abs(a) / Abs(b), Abs(a) % Abs(b);
    assert Abs(a) == Abs(b) * q + m;
    QuotTimesDivisor(b, Quot(a, b), q, a >= 0);
    if a >= 0 {
      assert Rem(a, b) == m;
    } else {
      assert Rem(a, b) == -m;
    }
  }

  /** The divisor times the truncated quotient carries the dividend's sign. */
  lemma QuotTimesDivisor(b: int, quot: int, q: nat, nonNegative: bool)
    requires b != 0
    requires quot == if nonNegative == (b > 0) then q as int else -(q as int)
    ensures b * quot == if nonNegative then Abs(b) * q else -(Abs(b) * q)
  {
    if b > 0 {
      assert Abs(b) == b;
    } else {
      assert Abs(b) == -b;
      assert b * -(q as int) == Abs(b) * q;
      assert b * q == -(Abs(b) * q);
    }
  }

  /** Swift's `<<` on `Int`: a negative amount shifts right, an amount of 64
    * or more clears every bit, and bits shifted out of the word are lost. */
  function ShiftLeft(x: int, n: int): (r: int)
    decreases if n < 0 then 1 else 0
  {
    if n >= BitWidth as int then 0
    else if n >= 0 then Wrap(x * Pow2(n))
    else ShiftRight(x, -n)
  }

  /** Swift's `>>` on `Int`: an arithmetic shift; a negative amount shifts
    * left, an amount of 64 or more leaves only copies of the sign bit. */
  function ShiftRight(x: int, n: int): (r: int)
    decreases if n < 0 then 1 else 0
  {
    if n >= BitWidth as int then (if x < 0 then -1 else 0)
    else if n >= 0 then x / Pow2(n)
    else ShiftLeft(x, -n)
  }

  /** A right shift by a non-negative amount below the width rounds toward
    * negative infinity, and the two shifts undo each other on small values. */
  lemma ShiftRightUndoesShiftLeft(x: int, n: nat)
    requires n < BitWidth
    requires IsInt(x * Pow2(n))
    ensures ShiftRight(ShiftLeft(x, n), n) == x
    ensures ShiftLeft(x, -(n as int)) == ShiftRight(x, n)
  {
    var p := Pow2(n);
    MulDivCancel(x, p);
  }

  lemma MulDivCancel(x: int, p: int)
    requires p > 0
    ensures (x * p) / p == x
  {
    var q := (x * p) / p;
    var r := (x * p) % p;
    assert x * p == p * q + r;
    assert p * (x - q) == r by { assert p * (x - q) == p * x - p * q; }
    if x - q >= 1 {
      MulAtLeast(p, x - q);
    } else if x - q <= -1 {
      MulAtLeast(p, q - x);
    }
  }

  lemma MulAtLeast(p: int, k: int)
    requires p > 0 && k >= 1
    ensures p * k >= p
  {
  }


  /** The powers of two multiply by adding exponents and grow with them. */
  lemma {:induction false} Pow2Monotonic(a: nat, b: nat)
    requires a <= b
    ensures Pow2(a) <= Pow2(b)
    decreases b
  {
    if a < b {
      Pow2Monotonic(a, b - 1);
    }
  }

  lemma {:induction false} Pow2Sum(a: nat, b: nat)
    ensures Pow2(a + b) == Pow2(a) * Pow2(b)
    decreases a
  {
    if a > 0 {
      Pow2Sum(a - 1, b);
    }
  }

  lemma Pow2Top()
    ensures Pow2(62) == 0x4000_0000_0000_0000
    ensures Pow2(63) == 0x8000_0000_0000_0000
    ensures Pow2(64) == WordModulus
  {
    Pow2Half();
    Pow2Sum(32, 32);
    assert Pow2(64) == 2 * Pow2(63);
    assert Pow2(63) == 2 * Pow2(62);
  }

  /** 2 to the 32nd power. */
  lemma Pow2Half()
    ensures Pow2(32) == 0x1_0000_0000
  {
    assert Pow2(8) == 0x100;
    Pow2Sum(8, 8);
    Pow2Sum(16, 16);
  }

  /** The 64-bit pattern of an `Int`, read as an unsigned number. */
  function Unsigned(x: int): (u: nat)
    ensures u < WordModulus
  {
    x % WordModulus
  }

  /** An `Int` survives the trip to its pattern and back. */
  lemma UnsignedRoundTrip(x: int)
    requires IsInt(x)
    ensures Wrap(Unsigned(x)) == x
  {
    if x < 0 {
      assert x % WordModulus == x + WordModulus;
    }
  }

  /** Bit by bit over the low `n` bits of `a` and `b`. */
  function AndBits(a: nat, b: nat, n: nat): (r: nat)
    ensures r < Pow2(n)
  {
    if n == 0 then 0
    else (if a % 2 == 1 && b % 2 == 1 then 1 else 0) + 2 * AndBits(a / 2, b / 2, n - 1)
  }

  function OrBits(a: nat, b: nat, n: nat): (r: nat)
    ensures r < Pow2(n)
  {
    if n == 0 then 0
    else (if a % 2 == 1 || b % 2 == 1 then 1 else 0) + 2 * OrBits(a / 2, b / 2, n - 1)
  }

  function XorBits(a: nat, b: nat, n: nat): (r: nat)
    ensures r < Pow2(n)
  {
    if n == 0 then 0
    else (if a % 2 != b % 2 then 1 else 0) + 2 * XorBits(a / 2, b / 2, n - 1)
  }

  /** Swift's `&`, `|` and `^` on `Int`: bit by bit on the 64-bit patterns. */
  function BitAnd(x: int, y: int): (r: int)
    ensures IsInt(r)
  {
    Wrap(AndBits(Unsigned(x), Unsigned(y), BitWidth))
  }

  function BitOr(x: int, y: int): (r: int)
    ensures IsInt(r)
  {
    Wrap(OrBits(Unsigned(x), Unsigned(y), BitWidth))
  }

  function BitXor(x: int, y: int): (r: int)
    ensures IsInt(r)
  {
    Wrap(XorBits(Unsigned(x), Unsigned(y), BitWidth))
  }

  /** A low bit and the number above it determine the whole number. */
  lemma Halves(bit: nat, rest: nat)
    requires bit < 2
    ensures (bit + 2 * rest) % 2 == bit && (bit + 2 * rest) / 2 == rest
  {
  }

  /** On `n`-bit numbers all ones is neutral for and. */
  lemma {:induction false} AndOnes(a: nat, n: nat)
    requires a < Pow2(n)
    ensures AndBits(a, Pow2(n) - 1, n) == a
    decreases n
  {
    if n > 0 {
      AndOnes(a / 2, n - 1);
      Halves(1, Pow2(n - 1) - 1);
    }
  }

  /** Zero is neutral for or and xor. */
  lemma {:induction false} ZeroNeutral(a: nat, n: nat)
    requires a < Pow2(n)
    ensures OrBits(a, 0, n) == a && XorBits(a, 0, n) == a
    decreases n
  {
    if n > 0 {
      ZeroNeutral(a / 2, n - 1);
    }
  }

  /** Xor twice with the same operand cancels. */
  lemma {:induction false} XorTwice(a: nat, c: nat, n: nat)
    requires a < Pow2(n)
    ensures XorBits(XorBits(a, c, n), c, n) == a
    decreases n
  {
    if n > 0 {
      XorTwice(a / 2, c / 2, n - 1);
      Halves(if a % 2 != c % 2 then 1 else 0, XorBits(a / 2, c / 2, n - 1));
    }
  }

  /** And and or absorb each other. */
  lemma {:induction false} Absorption(a: nat, c: nat, n: nat)
    requires a < Pow2(n)
    ensures AndBits(a, OrBits(a, c, n), n) == a
    ensures OrBits(a, AndBits(a, c, n), n) == a
    decreases n
  {
    if n > 0 {
      Absorption(a / 2, c / 2, n - 1);
      Halves(if a % 2 == 1 || c % 2 == 1 then 1 else 0, OrBits(a / 2, c / 2, n - 1));
      Halves(if a % 2 == 1 && c % 2 == 1 then 1 else 0, AndBits(a / 2, c / 2, n - 1));
    }
  }

  /** With 0 as left operand, and gives 0 and or and xor give the right one. */
  lemma {:induction false} ZeroLeft(x: nat, n: nat)
    requires x < Pow2(n)
    ensures AndBits(0, x, n) == 0
    ensures OrBits(0, x, n) == x && XorBits(0, x, n) == x
    decreases n
  {
    if n > 0 {
      ZeroLeft(x / 2, n - 1);
    }
  }

  /** With 0 or 1 as left operand only the lowest bit of the right one is
    * involved: and keeps that bit alone, or sets it, xor flips it. */
  lemma LowOperand(m: nat, u: nat, n: nat)
    requires m < 2 && 0 < n && u < Pow2(n)
    ensures AndBits(m, u, n) == if m == 1 && u % 2 == 1 then 1 else 0
    ensures OrBits(m, u, n) == if m == 1 && u % 2 == 0 then u + 1 else u
    ensures XorBits(m, u, n) == if m == 0 then u else if u % 2 == 0 then u + 1 else u - 1
  {
    ZeroLeft(u / 2, n - 1);
  }

  /** Adding to an `Int` or to its pattern wraps to the same `Int`. */
  lemma WrapShift(x: int, d: int)
    ensures Wrap(Unsigned(x) + d) == Wrap(x + d)
  {
    var q := x / WordModulus;
    assert x == WordModulus * q + Unsigned(x);
    assert (Unsigned(x) + d) % WordModulus == (x + d) % WordModulus by {
      ModShift(Unsigned(x) + d, q);
    }
  }

  lemma ModShift(y: int, q: int)
    ensures (y + WordModulus * q) % WordModulus == y % WordModulus
  {
    var r := y % WordModulus;
    var k := y / WordModulus;
    assert y + WordModulus * q == WordModulus * (k + q) + r;
  }

  /** A 64-bit pattern survives the trip to an `Int` and back. */
  lemma WrapRoundTrip(w: nat)
    requires w < WordModulus
    ensures Unsigned(Wrap(w)) == w
  {
    if w > MaxInt {
      assert (w - WordModulus) % WordModulus == w;
    }
  }

  /** The same laws for Swift's `&`, `|` and `^` on `Int`: `x & -1`,
    * `x | 0` and `x ^ 0` are `x`. */
  lemma NeutralOperands(x: int)
    requires IsInt(x)
    ensures BitAnd(x, -1) == x
    ensures BitOr(x, 0) == x && BitXor(x, 0) == x
  {
    Pow2Top();
    var u := Unsigned(x);
    AndOnes(u, BitWidth);
    ZeroNeutral(u, BitWidth);
    UnsignedRoundTrip(x);
    assert Unsigned(-1) == Pow2(BitWidth) - 1;
    assert Unsigned(0) == 0;
  }

  /** `(x ^ c) ^ c` is `x`. */
  lemma XorCancels(x: int, c: int)
    requires IsInt(x)
    ensures BitXor(BitXor(x, c), c) == x
  {
    Pow2Top();
    var u := Unsigned(x);
    XorTwice(u, Unsigned(c), BitWidth);
    WrapRoundTrip(XorBits(u, Unsigned(c), BitWidth));
    UnsignedRoundTrip(x);
  }

  /** `x & (x | c)` and `x | (x & c)` are `x`. */
  lemma AndOrAbsorb(x: int, c: int)
    requires IsInt(x)
    ensures BitAnd(x, BitOr(x, c)) == x
    ensures BitOr(x, BitAnd(x, c)) == x
  {
    Pow2Top();
    var u := Unsigned(x);
    Absorption(u, Unsigned(c), BitWidth);
    WrapRoundTrip(OrBits(u, Unsigned(c), BitWidth));
    WrapRoundTrip(AndBits(u, Unsigned(c), BitWidth));
    UnsignedRoundTrip(x);
  }
}
