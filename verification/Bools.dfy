/**
 * Booleans used as numbers. Every operator reduces a `Bool` operand to its
 * `magnitude` (1 for `true`, 0 for `false`) and applies the integer operator;
 * a result that has to be a `Bool` again is read back as "non-zero".
 *
 * The integer operand is a Swift `Int`. Division and remainder truncate
 * toward zero, the shifts are Swift's 64-bit "smart" shifts, and the bitwise
 * operators work on the two's-complement representation; because one
 * operand of `&`, `|` and `^` is always a magnitude (0 or 1), only the lowest
 * bit of the other operand is ever involved.
 */
module Bools {
  import opened SwiftInt

  /** `magnitude`: 1 for `true`, 0 for `false`. */
  function Magnitude(b: bool): (m: nat)
    ensures m <= 1
    ensures FromInteger(m) == b
  {
    if b then 1 else 0
  }

  /** `readable`: a word for the truth value. */
  function Readable(b: bool): (s: string)
    ensures |s| > 0
    ensures s == "Yes" <==> b
    ensures s == "No" <==> !b
  {
    if b then "Yes" else "No"
  }

  /** `Bool(exactly:)` of an integer, and every integer literal used as a Bool. */
  function FromInteger(n: int): (b: bool)
    ensures b <==> n != 0
    ensures n == 0 || n == 1 ==> (if b then 1 else 0) == n
  {
    n != 0
  }

  // ---------------------------------------------------------------------
  // The lowest bit of a two's-complement integer
  // ---------------------------------------------------------------------

  /** `m & n` for `m` in {0, 1}: the lowest bit of `n`, kept when `m` is 1. */
  function LowBitAnd(m: int, n: int): (r: int)
    requires m == 0 || m == 1
  {
    if m == 0 then 0 else n % 2
  }

  /** `m | n` for `m` in {0, 1}: `n` with its lowest bit set when `m` is 1. */
  function LowBitOr(m: int, n: int): (r: int)
    requires m == 0 || m == 1
  {
    if m == 0 || n % 2 == 1 then n else n + 1
  }

  /** `m ^ n` for `m` in {0, 1}: `n` with its lowest bit flipped when `m` is 1. */
  function LowBitXor(m: int, n: int): (r: int)
    requires m == 0 || m == 1
  {
    if m == 0 then n else if n % 2 == 0 then n + 1 else n - 1
  }

  /** The helpers are Swift's 64-bit `&`, `|` and `^` with 0 or 1 on the
    * left: only the lowest bit of `n` is involved. */
  lemma LowBitsAgree(m: int, n: int)
    requires m == 0 || m == 1
    requires IsInt(n)
    ensures LowBitAnd(m, n) == BitAnd(m, n)
    ensures LowBitOr(m, n) == BitOr(m, n)
    ensures LowBitXor(m, n) == BitXor(m, n)
  {
    Pow2Top();
    UnsignedParity(n);
    LowOperand(m, Unsigned(n), BitWidth);
    LowAndAgrees(m, n);
    LowOrAgrees(m, n);
    LowXorAgrees(m, n);
  }

  lemma UnsignedParity(n: int)
    ensures Unsigned(n) % 2 == n % 2
  {
    assert n == WordModulus * (n / WordModulus) + Unsigned(n);
    assert WordModulus == 2 * 0x8000_0000_0000_0000;
  }

  lemma LowAndAgrees(m: int, n: int)
    requires m == 0 || m == 1
    requires Unsigned(n) % 2 == n % 2
    requires AndBits(m, Unsigned(n), BitWidth) == if m == 1 && Unsigned(n) % 2 == 1 then 1 else 0
    ensures LowBitAnd(m, n) == BitAnd(m, n)
  {
    BitUnsigned(m);
    var u := Unsigned(n);
    assert BitAnd(m, n) == Wrap(AndBits(m, u, BitWidth));
    assert AndBits(m, u, BitWidth) == LowBitAnd(m, n);
  }

  lemma LowOrAgrees(m: int, n: int)
    requires m == 0 || m == 1
    requires IsInt(n)
    requires Unsigned(n) % 2 == n % 2
    requires OrBits(m, Unsigned(n), BitWidth) == if m == 1 && Unsigned(n) % 2 == 0 then Unsigned(n) + 1 else Unsigned(n)
    ensures LowBitOr(m, n) == BitOr(m, n)
  {
    BitUnsigned(m);
    var u := Unsigned(n);
    assert BitOr(m, n) == Wrap(OrBits(m, u, BitWidth));
    if m == 1 && n % 2 == 0 {
      assert BitOr(m, n) == Wrap(u + 1);
      FlipLowBit(n);
    } else {
      assert BitOr(m, n) == Wrap(u);
      UnsignedRoundTrip(n);
    }
  }

  lemma SmallQuotient(a: nat, d: nat)
    requires a < d
    ensures a / d == 0
  {
  }

  /** A 0 or 1 is its own bit pattern. */
  lemma BitUnsigned(m: int)
    requires m == 0 || m == 1
    ensures Unsigned(m) == m
  {
  }

  lemma LowXorAgrees(m: int, n: int)
    requires m == 0 || m == 1
    requires IsInt(n)
    requires Unsigned(n) % 2 == n % 2
    requires XorBits(m, Unsigned(n), BitWidth) ==
               if m == 0 then Unsigned(n) else if Unsigned(n) % 2 == 0 then Unsigned(n) + 1 else Unsigned(n) - 1
    ensures LowBitXor(m, n) == BitXor(m, n)
  {
    assert BitXor(m, n) == Wrap(XorBits(m, Unsigned(n), BitWidth)) by {
      assert Unsigned(m) == m;
    }
    UnsignedRoundTrip(n);
    FlipLowBit(n);
  }

  /** Adding or removing the lowest bit of the pattern of `n` gives `n + 1`
    * or `n - 1` back as an `Int`. */
  lemma FlipLowBit(n: int)
    requires IsInt(n)
    ensures n % 2 == 0 ==> Wrap(Unsigned(n) + 1) == n + 1
    ensures n % 2 == 1 ==> Wrap(Unsigned(n) - 1) == n - 1
  {
    WrapShift(n, 1);
    WrapShift(n, -1);
    WrapNeighbours(n);
  }

  /** Flipping the lowest bit of an `Int` never leaves the `Int` range. */
  lemma WrapNeighbours(n: int)
    requires IsInt(n)
    ensures n % 2 == 0 ==> Wrap(n + 1) == n + 1
    ensures n % 2 == 1 ==> Wrap(n + -1) == n - 1
  {
    assert n % 2 == 0 ==> n != MaxInt;
    assert n % 2 == 1 ==> n != MinInt;
  }

  // ---------------------------------------------------------------------
  // Arithmetic operators
  // ---------------------------------------------------------------------

  /** `a + b` on two Booleans: the sum of the magnitudes, read back. */
  function AddBools(a: bool, b: bool): (r: bool)
    ensures r == (a || b)
  {
    FromInteger(Magnitude(a) + Magnitude(b))
  }

  /** `b + n`: the magnitude plus `n`. */
  function AddInt(b: bool, n: int): (r: int)
    ensures r == if b then n + 1 else n
  {
    Magnitude(b) + n
  }

  /** `n + b`: evaluated as `b + n`. */
  function IntAdd(n: int, b: bool): (r: int)
    ensures r == if b then n + 1 else n
  {
    AddInt(b, n)
  }

  /** `a - b` on two Booleans: the difference of the magnitudes, read back. */
  function SubtractBools(a: bool, b: bool): (r: bool)
    ensures r == (a != b)
  {
    FromInteger(Magnitude(a) - Magnitude(b))
  }

  /** `b - n`: the magnitude minus `n`. */
  function SubtractInt(b: bool, n: int): (r: int)
    ensures r == if b then 1 - n else -n
  {
    Magnitude(b) - n
  }

  /** `n - b`: the negated magnitude plus `n`. */
  function IntSubtract(n: int, b: bool): (r: int)
    ensures r == if b then n - 1 else n
  {
    -(Magnitude(b) as int) + n
  }

  /** Subtracting a Boolean undoes adding it, on either side. */
  lemma AddSubtractInverse(n: int, b: bool)
    ensures IntSubtract(IntAdd(n, b), b) == n
    ensures IntAdd(IntSubtract(n, b), b) == n
    ensures SubtractInt(b, n) == -IntSubtract(n, b)
  {
  }

  /** `a * b` on two Booleans: the product of the magnitudes, read back. */
  function MultiplyBools(a: bool, b: bool): (r: bool)
    ensures r == (a && b)
  {
    FromInteger(Magnitude(a) * Magnitude(b))
  }

  /** `b * n`: the magnitude times `n`. */
  function MultiplyInt(b: bool, n: int): (r: int)
    ensures r == if b then n else 0
  {
    Magnitude(b) * n
  }

  /** `n * b`: evaluated as `b * n`. */
  function IntMultiply(n: int, b: bool): (r: int)
    ensures r == if b then n else 0
  {
    MultiplyInt(b, n)
  }

  /** `a / b` on two Booleans: dividing by `false` gives `false` instead of
    * trapping; dividing by `true` gives `a`. */
  function DivideBools(a: bool, b: bool): (r: bool)
    ensures r == (a && b)
  {
    if !b then FromInteger(0) else FromInteger(Quot(Magnitude(a), Magnitude(b)))
  }

  /** `b / n`: the magnitude divided by `n`, truncated toward zero; dividing
    * by zero traps. */
  function DivideInt(b: bool, n: int): (r: int)
    requires n != 0
    ensures r == if b && n == 1 then 1 else if b && n == -1 then -1 else 0
  {
    Quot(Magnitude(b), n)
  }

  /** `n / b`: `n` divided by the magnitude; dividing by `false` traps. */
  function IntDivide(n: int, b: bool): (r: int)
    requires b
    ensures r == n
  {
    Quot(n, Magnitude(b))
  }

  /** `b % n`: the remainder of the magnitude by `n`. */
  function RemainderInt(b: bool, n: int): (r: int)
    requires n != 0
    ensures r == if b && Abs(n) > 1 then 1 else 0
  {
    Rem(Magnitude(b), n)
  }

  /** `n % b`: the remainder of `n` by the magnitude; by `false` it traps. */
  function IntRemainder(n: int, b: bool): (r: int)
    requires b
    ensures r == 0
  {
    Rem(n, Magnitude(b))
  }

  // ---------------------------------------------------------------------
  // Bitwise operators
  // ---------------------------------------------------------------------

  /** `~b`: logical negation. */
  function BitNot(b: bool): (r: bool)
    ensures r != b
    ensures Magnitude(r) == 1 - Magnitude(b)
  {
    !b
  }

  /** `b & n` and `n & b`: the lowest bit of `n` when `b` holds, else 0. */
  function AndInt(b: bool, n: int): (r: int)
    ensures r == if b && n % 2 == 1 then 1 else 0
  {
    LowBitAnd(Magnitude(b), n)
  }

  function IntAnd(n: int, b: bool): (r: int)
    ensures r == if b && n % 2 == 1 then 1 else 0
  {
    LowBitAnd(Magnitude(b), n)
  }

  /** `b | n` and `n | b`: `n`, made odd when `b` holds. */
  function OrInt(b: bool, n: int): (r: int)
    ensures r == if b && n % 2 == 0 then n + 1 else n
  {
    LowBitOr(Magnitude(b), n)
  }

  function IntOr(n: int, b: bool): (r: int)
    ensures r == if b && n % 2 == 0 then n + 1 else n
  {
    LowBitOr(Magnitude(b), n)
  }

  /** `b ^ n` and `n ^ b`: `n` with its lowest bit flipped when `b` holds. */
  function XorInt(b: bool, n: int): (r: int)
    ensures !b ==> r == n
    ensures b ==> r == if n % 2 == 0 then n + 1 else n - 1
  {
    LowBitXor(Magnitude(b), n)
  }

  function IntXor(n: int, b: bool): (r: int)
    ensures !b ==> r == n
    ensures b ==> r == if n % 2 == 0 then n + 1 else n - 1
  {
    LowBitXor(Magnitude(b), n)
  }

  /** `b & n`, `b | n` and `b ^ n` are Swift's 64-bit `&`, `|` and `^` of
    * the magnitude of `b` and `n`; so `b ^ (b ^ n)` gives `n` back, and
    * setting or flipping the low bit never leaves the 64-bit range. */
  lemma BitwiseOfMagnitude(b: bool, n: int)
    requires IsInt(n)
    ensures AndInt(b, n) == BitAnd(Magnitude(b), n)
    ensures OrInt(b, n) == BitOr(Magnitude(b), n)
    ensures XorInt(b, n) == BitXor(Magnitude(b), n)
    ensures XorInt(b, XorInt(b, n)) == n
    ensures IsInt(OrInt(b, n)) && IsInt(XorInt(b, n))
  {
    LowBitsAgree(Magnitude(b), n);
    FlipLowBitTwice(n);
  }

  /** Flipping the lowest bit twice restores the number. */
  lemma FlipLowBitTwice(n: int)
    ensures n % 2 == 0 ==> (n + 1) % 2 == 1
    ensures n % 2 == 1 ==> (n - 1) % 2 == 0
  {
  }

  /** Shifting 1 left by `n` bits in a 64-bit word. */
  lemma ShiftLeftOfOne(n: int)
    ensures ShiftLeft(1, n) == if 0 <= n < 63 then Pow2(n) as int
                               else if n == 63 then MinInt
                               else 0
    ensures ShiftLeft(0, n) == 0
  {
    if 0 <= n < 63 {
      OneInsideWord(n);
    } else if n == 63 {
      OneAtSignBit();
    } else if n < 0 {
      NegativeShiftOfBit(n);
    }
  }

  /** A negative left shift moves a 0 or a 1 out of the word. */
  lemma NegativeShiftOfBit(n: int)
    requires n < 0
    ensures ShiftLeft(1, n) == 0 && ShiftLeft(0, n) == 0
  {
    assert ShiftLeft(1, n) == ShiftRight(1, -n);
    if -n < BitWidth as int {
      Pow2Monotonic(1, -n);
      SmallQuotient(1, Pow2(-n));
      SmallQuotient(0, Pow2(-n));
    }
  }

  /** Below bit 63 the shifted bit is a positive `Int`. */
  lemma OneInsideWord(n: nat)
    requires n < 63
    ensures ShiftLeft(1, n) == Pow2(n)
  {
    Pow2Monotonic(n, 62);
    Pow2Top();
    assert IsInt(1 * Pow2(n));
  }

  /** At bit 63 the shifted bit is the sign bit. */
  lemma OneAtSignBit()
    ensures ShiftLeft(1, 63) == MinInt
  {
    Pow2Top();
    assert Wrap(1 * Pow2(63)) == Pow2(63) - WordModulus;
  }

  /** `b << n`: 2 to the power `n` when `b` holds and the bit stays inside
    * the 64-bit word (bit 63 is the sign bit); 0 otherwise, including every
    * negative amount, which shifts the magnitude right. */
  function ShiftLeftInt(b: bool, n: int): (r: int)
    ensures r == if b && 0 <= n < 63 then Pow2(n) as int
                 else if b && n == 63 then MinInt
                 else 0
  {
    ShiftLeftOfOne(n);
    ShiftLeft(Magnitude(b), n)
  }

  /** `b >> n`: the magnitude shifted right, which is shifting it left by `-n`. */
  function ShiftRightInt(b: bool, n: int): (r: int)
    ensures r == ShiftLeftInt(b, -n)
  {
    ShiftRight(Magnitude(b), n)
  }

  /** `n << b`: `n` doubled and truncated to 64 bits when `b` holds. */
  function IntShiftLeft(n: int, b: bool): (r: int)
    requires IsInt(n)
    ensures r == if b then Wrap(2 * n) else n
  {
    ShiftLeft(n, Magnitude(b))
  }

  /** `n >> b`: `n` halved, rounding toward negative infinity, when `b` holds. */
  function IntShiftRight(n: int, b: bool): (r: int)
    ensures r == if b then n / 2 else n
  {
    ShiftRight(n, Magnitude(b))
  }

  // ---------------------------------------------------------------------
  // Compound assignments: the integer result is stored back as "non-zero"
  // ---------------------------------------------------------------------

  /** `b += n` */
  function AddAssign(b: bool, n: int): (r: bool)
    ensures r == if b then n != -1 else n != 0
  {
    FromInteger(AddInt(b, n))
  }

  /** `b -= n` */
  function SubtractAssign(b: bool, n: int): (r: bool)
    ensures r == if b then n != 1 else n != 0
  {
    FromInteger(SubtractInt(b, n))
  }

  /** `b *= n` */
  function MultiplyAssign(b: bool, n: int): (r: bool)
    ensures r == (b && n != 0)
  {
    FromInteger(MultiplyInt(b, n))
  }

  /** `b /= n` */
  function DivideAssign(b: bool, n: int): (r: bool)
    requires n != 0
    ensures r == (b && Abs(n) == 1)
  {
    FromInteger(DivideInt(b, n))
  }

  /** `b %= n` */
  function RemainderAssign(b: bool, n: int): (r: bool)
    requires n != 0
    ensures r == (b && Abs(n) > 1)
  {
    FromInteger(RemainderInt(b, n))
  }

  /** `b &= n` */
  function AndAssign(b: bool, n: int): (r: bool)
    ensures r == (b && n % 2 == 1)
  {
    FromInteger(AndInt(b, n))
  }

  /** `b |= n` */
  function OrAssign(b: bool, n: int): (r: bool)
    ensures r == (b || n != 0)
  {
    FromInteger(OrInt(b, n))
  }

  /** `b ^= n` */
  function XorAssign(b: bool, n: int): (r: bool)
    ensures r == if b then n != 1 else n != 0
  {
    FromInteger(XorInt(b, n))
  }

  /** `b <<= n` */
  function ShiftLeftAssign(b: bool, n: int): (r: bool)
    ensures r == (b && 0 <= n < 64)
  {
    FromInteger(ShiftLeftInt(b, n))
  }

  /** `b >>= n` */
  function ShiftRightAssign(b: bool, n: int): (r: bool)
    ensures r == (b && -64 < n <= 0)
  {
    FromInteger(ShiftRightInt(b, n))
  }

  // ---------------------------------------------------------------------
  // The truth tables the unit tests pin down
  // ---------------------------------------------------------------------

  lemma ConversionTable()
    ensures FromInteger(1) && FromInteger(-1) && !FromInteger(0)
  {
  }

  lemma AdditionTable()
    ensures !AddBools(false, false) && AddBools(false, true)
    ensures AddBools(true, false) && AddBools(true, true)
    ensures AddInt(false, 1) == 1 && AddInt(true, -3) == -2
    ensures IntAdd(1, true) == 2 && IntAdd(-3, true) == -2
  {
  }

  lemma SubtractionTable()
    ensures !SubtractBools(false, false) && SubtractBools(false, true)
    ensures SubtractBools(true, false) && !SubtractBools(true, true)
    ensures SubtractInt(false, 1) == -1 && SubtractInt(true, -3) == 4
    ensures IntSubtract(1, true) == 0 && IntSubtract(-3, true) == -4
  {
  }

  lemma MultiplicationTable()
    ensures !MultiplyBools(false, false) && MultiplyBools(true, true)
    ensures MultiplyInt(true, 2) == 2 && MultiplyInt(true, -2) == -2
    ensures IntMultiply(2, true) == 2 && IntMultiply(-2, true) == -2
  {
  }

  lemma DivisionTable()
    ensures !DivideBools(false, true) && !DivideBools(true, false) && DivideBools(true, true)
    ensures DivideInt(true, 2) == 0 && DivideInt(true, -2) == 0
    ensures IntDivide(2, true) == 2 && IntDivide(-2, true) == -2
  {
  }
}
