/** The arithmetic of the constant evaluator: exact, and limited to 4096 bits. */
module ConstantArithmetic {
  import opened Util
  import opened Rationals

  datatype Token =
    | BitOr | BitXor | BitAnd | BitNot
    | Add | Sub | Mul | Div | Mod | Exp | SHL | SAR
    | Comparison | OtherToken

  const BITS_MAX: nat := 4096
  const UINT32_MAX: nat := 0xffff_ffff

  // -------------------------------------------------------- precision checks

  /** Whether base ** exp certainly fits into 4096 bits. */
  predicate FitsPrecisionExp(base: nat, exp: nat) {
    base == 0 || Msb(base) == 0 || (Msb(base) <= BITS_MAX && exp * (Msb(base) + 1) <= BITS_MAX)
  }

  /** fitsPrecisionBaseX for the base 2, whose logarithm is 1. */
  predicate FitsPrecisionBase2(mantissa: nat, exp: nat) {
    mantissa == 0 || (Msb(mantissa) <= BITS_MAX && Msb(mantissa) + exp + 1 <= BITS_MAX)
  }

  lemma MsbZero(x: nat)
    requires x > 0
    ensures Msb(x) == 0 <==> x == 1
  {
  }

  lemma {:induction false} PowOfOne(e: nat)
    ensures Pow(1, e) == 1
  {
    if e > 0 {
      PowOfOne(e - 1);
    }
  }

  lemma {:induction false} PowOfZero(e: nat)
    requires e > 0
    ensures Pow(0, e) == 0
  {
  }

  /** What passes the check is below 2 ** 4096. */
  lemma FitsIsBelowLimit(base: nat, exp: nat)
    requires exp > 0 && FitsPrecisionExp(base, exp)
    ensures Pow(base, exp) < Power2(BITS_MAX)
  {
    hide Power2, Pow;
    if base == 0 {
      PowOfZero(exp);
      OneBelowLimit();
    } else if Msb(base) == 0 {
      MsbZero(base);
      PowOfOne(exp);
      OneBelowLimit();
    } else {
      MsbBounds(base);
      PowBits(base, Msb(base), exp);
      assert (Msb(base) + 1) * exp <= BITS_MAX;
      Power2Monotone((Msb(base) + 1) * exp, BITS_MAX);
    }
  }

  lemma OneBelowLimit()
    ensures 1 < Power2(BITS_MAX)
  {
    Power2Monotone(1, BITS_MAX);
    assert Power2(1) == 2 * Power2(0);
  }

  /** What fails the check has at least half that many bits. */
  lemma NotFittingIsLarge(base: nat, exp: nat)
    requires exp > 0 && !FitsPrecisionExp(base, exp)
    ensures Pow(base, exp) >= Power2(BITS_MAX / 2)
  {
    hide Power2, Pow;
    MsbBounds(base);
    var m := Msb(base);
    PowBits(base, m, exp);
    if m > BITS_MAX {
      Multiply(m, m, 1, exp);
      Power2Monotone(BITS_MAX / 2, m * exp);
    } else {
      HalfTheBits(m, exp);
      Power2Monotone(BITS_MAX / 2, m * exp);
    }
  }

  lemma HalfTheBits(m: nat, exp: nat)
    requires m >= 1 && exp * (m + 1) > BITS_MAX
    ensures m * exp >= BITS_MAX / 2
  {
    Multiply(m + 1, 2 * m, exp, exp);
    assert 2 * m * exp == 2 * (m * exp);
  }

  /**
   * The bit length decides: by its upper estimate a power is accepted and fits,
   * by its lower estimate it is refused and does not fit.
   */
  lemma BitLengthDecides(base: nat, exp: nat)
    requires base >= 2 && exp > 0
    ensures FitsPrecisionExp(base, exp) <==> exp * (Msb(base) + 1) <= BITS_MAX
    ensures exp * (Msb(base) + 1) <= BITS_MAX ==> Pow(base, exp) < Power2(BITS_MAX)
    ensures exp * Msb(base) >= BITS_MAX ==> !FitsPrecisionExp(base, exp) && Pow(base, exp) >= Power2(BITS_MAX)
  {
    MsbZero(base);
    hide Power2, Pow, Msb;
    MsbBounds(base);
    var m := Msb(base);
    Multiply(1, exp, m + 1, m + 1);
    if exp * (m + 1) <= BITS_MAX {
      FitsIsBelowLimit(base, exp);
    }
    if exp * m >= BITS_MAX {
      PowBits(base, m, exp);
      assert m * exp == exp * m;
      Power2Monotone(BITS_MAX, m * exp);
      Multiply(exp, exp, m, m + 1);
      Distribute(m, 1, exp);
    }
  }

  /** For shifts the check is exact. */
  lemma FitsBase2Exactly(mantissa: nat, exp: nat)
    ensures FitsPrecisionBase2(mantissa, exp) <==> mantissa * Power2(exp) < Power2(BITS_MAX)
  {
    hide Power2;
    if mantissa > 0 {
      var m := Msb(mantissa);
      MsbBounds(mantissa);
      Power2Sum(m, exp);
      Power2Sum(m + 1, exp);
      Multiply(Power2(m), mantissa, Power2(exp), Power2(exp));
      StrictProduct(mantissa, Power2(m + 1), Power2(exp));
      if m + 1 + exp <= BITS_MAX {
        Power2Monotone(m + 1 + exp, BITS_MAX);
      } else {
        Power2Monotone(BITS_MAX, m + exp);
      }
    } else {
      OneBelowLimit();
    }
  }

  // ------------------------------------------------------ bitwise operations

  /** Bit `i` of the infinite two's complement of `x`. */
  function Bit(x: int, i: nat): bool
    decreases i
  {
    if i == 0 then x % 2 == 1 else Bit(x / 2, i - 1)
  }

  function Magnitude(x: int): nat {
    if x < 0 then -x - 1 else x
  }

  lemma HalvingShrinks(x: int)
    ensures Magnitude(x / 2) <= Magnitude(x)
    ensures x != 0 && x != -1 ==> Magnitude(x / 2) < Magnitude(x)
  {
  }

  function Bitwise(op: (bool, bool) -> bool, x: int, y: int): int
    decreases Magnitude(x) + Magnitude(y)
  {
    if (x == 0 || x == -1) && (y == 0 || y == -1) then
      if op(x == -1, y == -1) then -1 else 0
    else
      HalvingShrinks(x);
      HalvingShrinks(y);
      2 * Bitwise(op, x / 2, y / 2) + if op(x % 2 == 1, y % 2 == 1) then 1 else 0
  }

  /** Bitwise operators work on each bit alone, signs included. */
  lemma {:induction false} BitwiseMeaning(op: (bool, bool) -> bool, x: int, y: int, i: nat)
    ensures Bit(Bitwise(op, x, y), i) == op(Bit(x, i), Bit(y, i))
    decreases i
  {
    if (x == 0 || x == -1) && (y == 0 || y == -1) {
      SignBits(x, i);
      SignBits(y, i);
      SignBits(Bitwise(op, x, y), i);
    } else {
      var r := Bitwise(op, x / 2, y / 2);
      var low := if op(x % 2 == 1, y % 2 == 1) then 1 else 0;
      assert Bitwise(op, x, y) == 2 * r + low;
      assert (2 * r + low) % 2 == low && (2 * r + low) / 2 == r;
      if i > 0 {
        BitwiseMeaning(op, x / 2, y / 2, i - 1);
      }
    }
  }

  lemma {:induction false} SignBits(x: int, i: nat)
    requires x == 0 || x == -1
    ensures Bit(x, i) == (x == -1)
    decreases i
  {
    if i > 0 {
      SignBits(x / 2, i - 1);
    }
  }

  // --------------------------------------------------------------- operators

  function AddR(a: Rational, b: Rational): Rational {
    Positive(Denominator(a), Denominator(b));
    MakeRational(Numerator(a) * Denominator(b) + Numerator(b) * Denominator(a), Denominator(a) * Denominator(b))
  }

  function SubR(a: Rational, b: Rational): Rational {
    Positive(Denominator(a), Denominator(b));
    MakeRational(Numerator(a) * Denominator(b) - Numerator(b) * Denominator(a), Denominator(a) * Denominator(b))
  }

  function MulR(a: Rational, b: Rational): Rational {
    Positive(Denominator(a), Denominator(b));
    MakeRational(Numerator(a) * Numerator(b), Denominator(a) * Denominator(b))
  }

  function DivR(a: Rational, b: Rational): Rational
    requires Numerator(b) != 0
  {
    SignOfProduct(Denominator(a), Numerator(b));
    MakeRational(Numerator(a) * Denominator(b), Denominator(a) * Numerator(b))
  }

  lemma Positive(x: nat, y: nat)
    requires x > 0 && y > 0
    ensures x * y > 0
  {
    Multiply(1, x, 1, y);
  }

  predicate Fractional(left: Rational, right: Rational) {
    Denominator(left) != 1 || Denominator(right) != 1
  }

  function ModR(left: Rational, right: Rational): Rational
    requires Numerator(right) != 0
  {
    if Fractional(left, right) then
      var quotient := DivR(left, right);
      SubR(left, MulR(FromInt(Quot(Numerator(quotient), Denominator(quotient))), right))
    else FromInt(Rem(Numerator(left), Numerator(right)))
  }

  function ExpR(left: Rational, right: Rational): Option<Rational> {
    var exp := Numerator(right);
    if Denominator(right) != 1 then None
    else if exp == 0 then Some(FromInt(1))
    else if left == FromInt(0) || left == FromInt(1) then Some(left)
    else if left == FromInt(-1) then Some(FromInt(1 - 2 * (Abs(exp) % 2)))
    else if Abs(exp) > UINT32_MAX then None
    else if !FitsPrecisionExp(Abs(Numerator(left)), Abs(exp)) || !FitsPrecisionExp(Denominator(left), Abs(exp)) then
      None
    else
      var numerator, denominator := OptimizedPow(Numerator(left), Abs(exp)), OptimizedPow(Denominator(left), Abs(exp));
      PowNotZero(Denominator(left), Abs(exp));
      OnlyZeroHasNumeratorZero(left);
      PowNotZero(Numerator(left), Abs(exp));
      if exp >= 0 then Some(MakeRational(numerator, denominator)) else Some(MakeRational(denominator, numerator))
  }

  function OptimizedPow(base: int, exp: nat): (p: int)
    ensures p == Pow(base, exp)
  {
    if base == 1 then PowOfOne(exp); 1
    else if base == -1 then PowOfMinusOne(exp); 1 - 2 * (exp % 2)
    else Pow(base, exp)
  }

  lemma {:induction false} PowOfMinusOne(e: nat)
    ensures Pow(-1, e) == 1 - 2 * (e % 2)
  {
    if e > 0 {
      PowOfMinusOne(e - 1);
    }
  }

  lemma PowNotZero(b: int, e: nat)
    requires b != 0
    ensures Pow(b, e) != 0
  {
    PowPositive(Abs(b), e);
    AbsPow(b, e);
  }

  lemma OnlyZeroHasNumeratorZero(r: Rational)
    ensures Numerator(r) == 0 <==> r == FromInt(0)
  {
    if Numerator(r) == 0 {
      WholeHasDenominatorOne(r, 0);
    }
  }

  predicate IsShiftAmount(left: Rational, right: Rational) {
    !Fractional(left, right) && 0 <= Numerator(right) <= UINT32_MAX
  }

  function ShlR(left: Rational, right: Rational): Option<Rational> {
    if !IsShiftAmount(left, right) then None
    else if Numerator(left) == 0 then Some(FromInt(0))
    else if !FitsPrecisionBase2(Abs(Numerator(left)), Numerator(right)) then None
    else Some(FromInt(Numerator(left) * Power2(Numerator(right))))
  }

  function SarR(left: Rational, right: Rational): Option<Rational> {
    if !IsShiftAmount(left, right) then None
    else if Numerator(left) == 0 then Some(FromInt(0))
    else
      var n, exponent := Numerator(left), Numerator(right);
      if exponent > Msb(Abs(n)) then Some(FromInt(if n < 0 then -1 else 0))
      else if n < 0 then Some(FromInt(Quot(n + 1, Power2(exponent)) - 1))
      else Some(FromInt(Quot(n, Power2(exponent))))
  }

  function EvaluateBinaryOperator(op: Token, left: Rational, right: Rational): Option<Rational> {
    match op
    case BitOr => if Fractional(left, right) then None
                  else Some(FromInt(Bitwise((a, b) => a || b, Numerator(left), Numerator(right))))
    case BitXor => if Fractional(left, right) then None
                   else Some(FromInt(Bitwise((a, b) => a != b, Numerator(left), Numerator(right))))
    case BitAnd => if Fractional(left, right) then None
                   else Some(FromInt(Bitwise((a, b) => a && b, Numerator(left), Numerator(right))))
    case Add => Some(AddR(left, right))
    case Sub => Some(SubR(left, right))
    case Mul => Some(MulR(left, right))
    case Div => if Numerator(right) == 0 then None else Some(DivR(left, right))
    case Mod => if Numerator(right) == 0 then None else Some(ModR(left, right))
    case Exp => ExpR(left, right)
    case SHL => ShlR(left, right)
    case SAR => SarR(left, right)
    case _ => None
  }

  function EvaluateUnaryOperator(op: Token, input: Rational): Option<Rational> {
    match op
    case BitNot => if Denominator(input) != 1 then None else Some(FromInt(-Numerator(input) - 1))
    case Sub => Some(Negated(input))
    case _ => None
  }

  function Negated(r: Rational): Rational {
    (-Numerator(r), Denominator(r))
  }

  // -------------------------------------------------------------- properties

  /** Sums, differences and products are those of the fractions; no exception is made. */
  lemma SumsAndProductsAreExact(a: Rational, b: Rational)
    ensures var n, d, m, e := Numerator(a), Denominator(a), Numerator(b), Denominator(b);
            && d * e != 0
            && var sum, difference, product := EvaluateBinaryOperator(Add, a, b), EvaluateBinaryOperator(Sub, a, b),
                                               EvaluateBinaryOperator(Mul, a, b);
            && sum.Some? && Equals(sum.value, n * e + m * d, d * e)
            && difference.Some? && Equals(difference.value, n * e - m * d, d * e)
            && product.Some? && Equals(product.value, n * m, d * e)
  {
    hide Gcd, MakeRational;
    var n, d, m, e := Numerator(a), Denominator(a), Numerator(b), Denominator(b);
    Positive(d, e);
    MakeRationalIs(n * e + m * d, d * e);
    MakeRationalIs(n * e - m * d, d * e);
    MakeRationalIs(n * m, d * e);
  }

  /** Quotients are those of the fractions; only division by zero, and taking a remainder by it, is refused. */
  lemma QuotientsAreExact(a: Rational, b: Rational)
    ensures var n, d, m, e := Numerator(a), Denominator(a), Numerator(b), Denominator(b);
            && (EvaluateBinaryOperator(Div, a, b).Some? <==> m != 0)
            && (EvaluateBinaryOperator(Mod, a, b).Some? <==> m != 0)
            && (m != 0 ==> d * m != 0 && Equals(EvaluateBinaryOperator(Div, a, b).value, n * e, d * m))
  {
    hide Gcd, MakeRational;
    if Numerator(b) != 0 {
      SignOfProduct(Denominator(a), Numerator(b));
      MakeRationalIs(Numerator(a) * Denominator(b), Denominator(a) * Numerator(b));
    }
  }

  /** On whole numbers every bit of the result is the operation on the bits of the operands; fractions are refused. */
  lemma BitOperatorsAreBitwise(a: Rational, b: Rational, i: nat)
    ensures var x, y := Numerator(a), Numerator(b);
            var or, xor, and := EvaluateBinaryOperator(BitOr, a, b), EvaluateBinaryOperator(BitXor, a, b),
                                EvaluateBinaryOperator(BitAnd, a, b);
            if Denominator(a) == 1 && Denominator(b) == 1 then
              && or.Some? && Denominator(or.value) == 1 && (Bit(Numerator(or.value), i) <==> Bit(x, i) || Bit(y, i))
              && xor.Some? && Denominator(xor.value) == 1 && (Bit(Numerator(xor.value), i) <==> Bit(x, i) != Bit(y, i))
              && and.Some? && Denominator(and.value) == 1 && (Bit(Numerator(and.value), i) <==> Bit(x, i) && Bit(y, i))
            else
              or == None && xor == None && and == None
  {
    hide Bitwise, Bit;
    BitwiseMeaning((p, q) => p || q, Numerator(a), Numerator(b), i);
    BitwiseMeaning((p, q) => p != q, Numerator(a), Numerator(b), i);
    BitwiseMeaning((p, q) => p && q, Numerator(a), Numerator(b), i);
  }

  /** Negation gives the number that sums to zero. */
  lemma NegationIsExact(a: Rational)
    ensures var negated := EvaluateUnaryOperator(Sub, a);
            negated.Some? && EvaluateBinaryOperator(Add, a, negated.value) == Some(FromInt(0))
  {
    var n, d := Numerator(a), Denominator(a);
    Positive(d, d);
    NegatedProduct(n, d);
    ZeroFraction(d * d);
    hide Gcd, MakeRational;
  }

  lemma NegatedProduct(n: int, d: int)
    ensures n * d + (-n) * d == 0
  {
  }

  lemma ZeroFraction(d: nat)
    requires d > 0
    ensures MakeRational(0, d) == FromInt(0)
  {
    MakeRationalIs(0, d);
    hide Gcd, MakeRational;
    var r := MakeRational(0, d);
    assert Numerator(r) * d == 0;
    OnlyZeroHasNumeratorZero(r);
  }

  /** The complement of a whole number inverts every bit; fractions are refused. */
  lemma ComplementInvertsBits(a: Rational, i: nat)
    ensures var inverted := EvaluateUnaryOperator(BitNot, a);
            && (inverted.Some? <==> Denominator(a) == 1)
            && (inverted.Some? ==>
                 Denominator(inverted.value) == 1 && (Bit(Numerator(inverted.value), i) <==> !Bit(Numerator(a), i)))
  {
    hide Bit;
    InvertedBits(Numerator(a), i);
  }

  lemma {:induction false} InvertedBits(x: int, i: nat)
    ensures Bit(-x - 1, i) <==> !Bit(x, i)
    decreases i
  {
    if i > 0 {
      assert (-x - 1) / 2 == -(x / 2) - 1;
      InvertedBits(x / 2, i - 1);
    }
  }

  /** `r` is the power of `left` by the whole exponent `e`; zero has no negative powers. */
  predicate IsPower(r: Rational, left: Rational, e: int) {
    var n, d := Pow(Numerator(left), Abs(e)), Pow(Denominator(left), Abs(e));
    if e >= 0 then d != 0 && Equals(r, n, d) else n != 0 && Equals(r, d, n)
  }

  /**
   * What is accepted stays within 4096 bits, and is the mathematical power
   * except for negative powers of zero, which have none.
   */
  lemma ExpIsExactAndBounded(left: Rational, right: Rational)
    requires EvaluateBinaryOperator(Exp, left, right).Some?
    ensures Denominator(right) == 1
    ensures var r := EvaluateBinaryOperator(Exp, left, right).value;
            && (IsPower(r, left, Numerator(right)) <==> Numerator(left) != 0 || Numerator(right) >= 0)
            && Abs(Numerator(r)) < Power2(BITS_MAX) && Denominator(r) < Power2(BITS_MAX)
  {
    hide Pow, Power2, Gcd, FitsPrecisionExp;
    var e := Numerator(right);
    PowNotZero(Denominator(left), Abs(e));
    OneBelowLimit();
    if e == 0 {
      PowToZero(Numerator(left));
      PowToZero(Denominator(left));
    } else if Numerator(left) == 0 {
      OnlyZeroHasNumeratorZero(left);
      PowOfZero(Abs(e));
    } else if left == FromInt(1) || left == FromInt(-1) {
      PowOfOne(Abs(e));
      PowOfMinusOne(Abs(e));
    } else {
      var n, d := Pow(Numerator(left), Abs(e)), Pow(Denominator(left), Abs(e));
      PowNotZero(Numerator(left), Abs(e));
      MakeRationalIs(n, d);
      MakeRationalIs(d, n);
      AbsPow(Numerator(left), Abs(e));
      AbsPow(Denominator(left), Abs(e));
      OnlyZeroHasNumeratorZero(left);
      FitsIsBelowLimit(Abs(Numerator(left)), Abs(e));
      FitsIsBelowLimit(Denominator(left), Abs(e));
    }
  }

  lemma PowToZero(b: int)
    ensures Pow(b, 0) == 1
  {
  }

  /** The base zero is not checked: a negative power of it comes out as zero. */
  lemma NegativePowerOfZero(e: int)
    requires e < 0
    ensures EvaluateBinaryOperator(Exp, FromInt(0), FromInt(e)) == Some(FromInt(0))
  {
  }

  /** Whole exponents are refused only if the numerator or the denominator of the result has more than 2048 bits. */
  lemma ExpRefusedOnlyIfLarge(left: Rational, right: Rational)
    requires Denominator(right) == 1 && EvaluateBinaryOperator(Exp, left, right).None?
    ensures var e := Abs(Numerator(right));
            Abs(Pow(Numerator(left), e)) >= Power2(BITS_MAX / 2) || Pow(Denominator(left), e) >= Power2(BITS_MAX / 2)
  {
    hide Pow, Power2, Gcd, Msb;
    var e := Abs(Numerator(right));
    AbsPow(Numerator(left), e);
    if e <= UINT32_MAX {
      if !FitsPrecisionExp(Abs(Numerator(left)), e) {
        NotFittingIsLarge(Abs(Numerator(left)), e);
      } else {
        NotFittingIsLarge(Denominator(left), e);
      }
    } else if Denominator(left) >= 2 {
      LargeExponent(Denominator(left), e);
    } else {
      assert left == FromInt(Numerator(left));
      assert Abs(Numerator(left)) >= 2;
      LargeExponent(Abs(Numerator(left)), e);
    }
  }

  /** In between, a power that fits can be refused. */
  lemma FittingPowerRefused()
    ensures Pow(2, 2049) < Power2(BITS_MAX) && EvaluateBinaryOperator(Exp, FromInt(2), FromInt(2049)) == None
  {
    hide Pow, Power2;
    PowOfTwo(2049);
    Power2Monotone(2049 + 1, BITS_MAX);
    Power2Doubles(2049);
    assert Msb(2) == 1;
  }

  lemma {:induction false} PowOfTwo(e: nat)
    ensures Pow(2, e) == Power2(e)
  {
    if e > 0 {
      PowOfTwo(e - 1);
    }
  }

  lemma Power2Doubles(e: nat)
    ensures Power2(e + 1) == 2 * Power2(e)
  {
  }

  /** Bits that the check allows for a power. */
  function BitsNeeded(base: nat, exp: nat): nat {
    if base <= 1 then 0 else exp * (Msb(base) + 1)
  }

  /**
   * Whole exponents are accepted exactly if the bits needed stay within the
   * limit; the limit on the exponent itself never decides.
   */
  lemma ExpAcceptedExactly(left: Rational, right: Rational)
    requires Denominator(right) == 1
    ensures var e := Abs(Numerator(right));
            EvaluateBinaryOperator(Exp, left, right).Some? <==>
              BitsNeeded(Abs(Numerator(left)), e) <= 4096 && BitsNeeded(Denominator(left), e) <= 4096
  {
    hide Pow, Power2, Gcd;
    var n, d, e := Abs(Numerator(left)), Denominator(left), Abs(Numerator(right));
    if e > 0 {
      BitsAgree(n, e);
      BitsAgree(d, e);
      OnlyZeroHasNumeratorZero(left);
      if d == 1 {
        assert left == FromInt(Numerator(left));
      }
    }
  }

  lemma BitsAgree(base: nat, exp: nat)
    requires exp > 0
    ensures FitsPrecisionExp(base, exp) <==> BitsNeeded(base, exp) <= BITS_MAX
    ensures base >= 2 && exp > UINT32_MAX ==> BitsNeeded(base, exp) > BITS_MAX
  {
    hide Msb;
    if base >= 2 {
      BitLengthDecides(base, exp);
      Multiply(exp, exp, 1, Msb(base) + 1);
    } else if base == 1 {
      MsbZero(1);
    }
  }

  lemma LargeExponent(base: nat, e: nat)
    requires base >= 2 && e > UINT32_MAX
    ensures Pow(base, e) >= Power2(BITS_MAX / 2)
  {
    MsbBounds(base);
    MsbZero(base);
    hide Power2, Pow;
    PowBits(base, Msb(base), e);
    Multiply(1, Msb(base), e, e);
    Power2Monotone(BITS_MAX / 2, Msb(base) * e);
  }

  /** Left shifts by a 32-bit amount are accepted exactly if the result is below 2 ** 4096, and are then exact. */
  lemma ShlIsExactAndBounded(left: Rational, right: Rational)
    requires Denominator(left) == 1 && Denominator(right) == 1 && 0 <= Numerator(right) <= 0xffff_ffff
    ensures var shifted, result := EvaluateBinaryOperator(SHL, left, right), Numerator(left) * Power2(Numerator(right));
            && (shifted.Some? <==> Abs(result) < Power2(BITS_MAX))
            && (shifted.Some? ==> shifted.value == FromInt(result))
  {
    hide Power2;
    AbsProduct(Numerator(left), Power2(Numerator(right)));
    FitsBase2Exactly(Abs(Numerator(left)), Numerator(right));
    OneBelowLimit();
  }

  /** Right shifts round towards negative infinity, for either sign. */
  lemma SarIsFloor(left: Rational, right: Rational)
    requires Denominator(left) == 1 && Denominator(right) == 1 && 0 <= Numerator(right) <= 0xffff_ffff
    ensures EvaluateBinaryOperator(SAR, left, right) == Some(FromInt(Numerator(left) / Power2(Numerator(right))))
  {
    hide Power2, Msb;
    var n, e := Numerator(left), Numerator(right);
    var p := Power2(e);
    if n != 0 {
      MsbBounds(Abs(n));
      if e > Msb(Abs(n)) {
        Power2Monotone(Msb(Abs(n)) + 1, e);
        DivisionUnique(n, p, if n < 0 then -1 else 0, if n < 0 then n + p else n);
      } else {
        FloorOfNegative(n, p);
      }
    } else {
      DivisionUnique(0, p, 0, 0);
    }
  }

  /** Rounding n + 1 towards zero and subtracting one rounds a negative n down. */
  lemma FloorOfNegative(n: int, p: nat)
    requires p > 0
    ensures if n < 0 then Quot(n + 1, p) - 1 == n / p else Quot(n, p) == n / p
  {
    if n < 0 {
      var m: nat := -n - 1;
      var q, r := m / p, m % p;
      assert m == q * p + r;
      assert n == (-q - 1) * p + (p - 1 - r) by {
        Distribute(-q, 1, p);
        assert -q * p == -(q * p);
      }
      DivisionUnique(n, p, -q - 1, p - 1 - r);
    }
  }

  /** A right shift undoes a left shift that was accepted. */
  lemma SarUndoesShl(left: Rational, right: Rational)
    requires EvaluateBinaryOperator(SHL, left, right).Some?
    ensures EvaluateBinaryOperator(SAR, EvaluateBinaryOperator(SHL, left, right).value, right) == Some(left)
  {
    hide Power2;
    ShlIsExactAndBounded(left, right);
    var shifted := Numerator(left) * Power2(Numerator(right));
    SarIsFloor(FromInt(shifted), right);
    DivisionUnique(shifted, Power2(Numerator(right)), Numerator(left), 0);
    assert left == FromInt(Numerator(left));
  }

  /** With and without fractions, the remainder is the one of division towards zero over a common denominator. */
  lemma ModIsTruncatedRemainder(left: Rational, right: Rational)
    requires Numerator(right) != 0
    ensures var l, r := Numerator(left) * Denominator(right), Numerator(right) * Denominator(left);
            r != 0 && Denominator(left) * Denominator(right) != 0
            && EvaluateBinaryOperator(Mod, left, right).Some?
            && Equals(EvaluateBinaryOperator(Mod, left, right).value, Rem(l, r), Denominator(left) * Denominator(right))
  {
    hide Gcd;
    var l, r := Numerator(left) * Denominator(right), Numerator(right) * Denominator(left);
    SignOfProduct(Denominator(left), Numerator(right));
    Positive(Denominator(left), Denominator(right));
    if Fractional(left, right) {
      var quotient := DivR(left, right);
      MakeRationalIs(Numerator(left) * Denominator(right), Denominator(left) * Numerator(right));
      EqualFractionsEqualQuot(quotient, l, r);
      var q := Quot(l, r);
      var product := MulR(FromInt(q), right);
      MakeRationalIs(q * Numerator(right), 1 * Denominator(right));
      Subtracted(left, right, product, q);
    }
  }

  lemma EqualFractionsEqualQuot(f: Rational, n: int, d: int)
    requires d != 0 && Equals(f, n, d)
    ensures Quot(Numerator(f), Denominator(f)) == Quot(n, d)
  {
    var a, b := Numerator(f), Denominator(f);
    assert a * d == b * n;
    SignOfProduct(d, b);
    SignOfProduct(b, d);
    QuotScales(a, b, d);
    QuotScales(n, d, b);
    assert d * a == b * n && d * b == b * d;
  }

  /** left - q * right, over the common denominator. */
  lemma Subtracted(left: Rational, right: Rational, product: Rational, q: int)
    requires Equals(product, q * Numerator(right), Denominator(right))
    ensures Denominator(left) * Denominator(right) != 0
    ensures Equals(SubR(left, product),
                   Numerator(left) * Denominator(right) - q * (Numerator(right) * Denominator(left)),
                   Denominator(left) * Denominator(right))
  {
    hide Gcd;
    Positive(Denominator(left), Denominator(right));
    Positive(Denominator(left), Denominator(product));
    var a, b, c, d, x, y := Numerator(left), Denominator(left), Numerator(right), Denominator(right),
        Numerator(product), Denominator(product);
    MakeRationalIs(a * y - x * b, b * y);
    var r := SubR(left, product);
    CrossMultiply(Numerator(r), Denominator(r), a, b, c, d, x, y, q);
  }

  lemma CrossMultiply(m: int, n: int, a: int, b: int, c: int, d: int, x: int, y: int, q: int)
    requires m * (b * y) == (a * y - x * b) * n && x * d == q * c * y && y > 0
    ensures m * (b * d) == (a * d - q * (c * b)) * n
  {
    CrossLeft(m, b, d, y);
    CrossRight(a, b, d, n, x, y);
    CrossCommon(a, b, c, d, n, y, q);
    CancelFactor(m * (b * d), (a * d - q * (c * b)) * n, y);
  }

  lemma CrossLeft(m: int, b: int, d: int, y: int)
    ensures m * (b * d) * y == m * (b * y) * d
  {
    assert b * d * y == b * y * d;
  }

  lemma CrossRight(a: int, b: int, d: int, n: int, x: int, y: int)
    ensures (a * y - x * b) * n * d == (a * y * d - x * d * b) * n
  {
    assert (a * y - x * b) * d == a * y * d - x * d * b;
  }

  lemma CrossCommon(a: int, b: int, c: int, d: int, n: int, y: int, q: int)
    ensures (a * y * d - q * c * y * b) * n == (a * d - q * (c * b)) * n * y
  {
    assert a * y * d - q * c * y * b == (a * d - q * (c * b)) * y by {
      assert a * y * d == a * d * y && q * c * y * b == q * (c * b) * y;
    }
  }

  lemma CancelFactor(s: int, t: int, y: int)
    requires y > 0 && s * y == t * y
    ensures s == t
  {
    Distribute(s, t, y);
    SmallMultiple(s - t, y);
  }
}
