/** Powers, bit lengths and rationals in lowest terms, as the big-number library provides them. */
module Rationals {

  // ------------------------------------------------------------------ powers

  function Pow(b: int, e: nat): int {
    if e == 0 then 1 else b * Pow(b, e - 1)
  }

  function Power2(e: nat): (p: nat)
    ensures p >= 1
  {
    if e == 0 then 1 else 2 * Power2(e - 1)
  }

  function Abs(x: int): nat {
    if x < 0 then -x else x
  }

  /** Index of the most significant bit. */
  function Msb(x: nat): nat
    requires x > 0
  {
    if x == 1 then 0 else 1 + Msb(x / 2)
  }

  lemma {:induction false} MsbBounds(x: nat)
    requires x > 0
    ensures Power2(Msb(x)) <= x < Power2(Msb(x) + 1)
  {
    if x > 1 {
      MsbBounds(x / 2);
    }
  }

  lemma {:induction false} Power2Sum(m: nat, n: nat)
    ensures Power2(m + n) == Power2(m) * Power2(n)
  {
    if m > 0 {
      Power2Sum(m - 1, n);
    }
  }

  lemma {:induction false} Power2Monotone(m: nat, n: nat)
    requires m <= n
    ensures Power2(m) <= Power2(n)
    decreases n - m
  {
    if m < n {
      Power2Monotone(m, n - 1);
    }
  }

  lemma {:induction false} AbsPow(b: int, e: nat)
    ensures Abs(Pow(b, e)) == Pow(Abs(b), e)
  {
    if e > 0 {
      AbsPow(b, e - 1);
      AbsProduct(b, Pow(b, e - 1));
    }
  }

  lemma AbsProduct(x: int, y: int)
    ensures Abs(x * y) == Abs(x) * Abs(y)
  {
    if x < 0 {
      assert x * y == -(Abs(x) * y);
    }
    if y < 0 {
      assert x * y == -(x * Abs(y));
    }
    assert Abs(x) * Abs(y) >= 0;
  }

  lemma {:induction false} PowPositive(b: nat, e: nat)
    requires b > 0
    ensures Pow(b, e) > 0
  {
    if e > 0 {
      PowPositive(b, e - 1);
    }
  }

  lemma Multiply(a: nat, b: nat, c: nat, d: nat)
    requires a <= b && c <= d
    ensures a * c <= b * d
  {
    assert a * c <= b * c <= b * d;
  }

  /** A number of m + 1 bits to the power e has between m * e + 1 and (m + 1) * e bits. */
  lemma {:induction false} PowBits(b: nat, m: nat, e: nat)
    requires Power2(m) <= b < Power2(m + 1)
    ensures Power2(m * e) <= Pow(b, e) <= Power2((m + 1) * e)
    ensures e > 0 ==> Pow(b, e) < Power2((m + 1) * e)
  {
    if e > 0 {
      PowBits(b, m, e - 1);
      assert m * e == m + m * (e - 1) && (m + 1) * e == (m + 1) + (m + 1) * (e - 1);
      Power2Sum(m, m * (e - 1));
      Power2Sum(m + 1, (m + 1) * (e - 1));
      Multiply(Power2(m), b, Power2(m * (e - 1)), Pow(b, e - 1));
      Multiply(b, b, Pow(b, e - 1), Power2((m + 1) * (e - 1)));
      StrictProduct(b, Power2(m + 1), Power2((m + 1) * (e - 1)));
    }
  }

  lemma StrictProduct(a: nat, b: nat, c: nat)
    requires a < b && c > 0
    ensures a * c < b * c
  {
  }

  // ---------------------------------------------------------------- rationals

  /** Euclid's algorithm. */
  function Gcd(a: nat, b: nat): nat
    decreases b
  {
    if b == 0 then a else Gcd(b, a % b)
  }

  lemma {:induction false} GcdScales(k: nat, a: nat, b: nat)
    requires k > 0
    ensures Gcd(k * a, k * b) == k * Gcd(a, b)
    decreases b
  {
    if b > 0 {
      ModScales(k, a, b);
      GcdScales(k, b, a % b);
    }
  }

  lemma ModScales(k: nat, a: nat, b: nat)
    requires k > 0 && b > 0
    ensures k * b > 0 && (k * a) % (k * b) == k * (a % b)
  {
    var q, r := a / b, a % b;
    assert a == q * b + r;
    assert k * a == q * (k * b) + k * r by {
      calc { k * a; k * (q * b + r); k * (q * b) + k * r; q * (k * b) + k * r; }
    }
    assert 0 <= k * r < k * b by { StrictProduct(r, b, k); }
    DivisionUnique(k * a, k * b, q, k * r);
  }

  lemma DivisionUnique(x: int, d: int, q: int, r: int)
    requires d > 0 && x == q * d + r && 0 <= r < d
    ensures x / d == q && x % d == r
  {
    var p, s := x / d, x % d;
    assert x == p * d + s;
    Distribute(p, q, d);
    SmallMultiple(p - q, d);
  }

  lemma Distribute(p: int, q: int, d: int)
    ensures (p - q) * d == p * d - q * d
  {
  }

  lemma MultipleIsLarge(k: int, d: int)
    requires d > 0 && k != 0
    ensures k * d >= d || k * d <= -d
  {
    if k > 0 {
      Multiply(1, k, d, d);
    } else {
      Multiply(1, -k, d, d);
      assert -k * d == -(k * d);
    }
  }

  lemma SmallMultiple(k: int, d: int)
    requires d > 0 && -d < k * d < d
    ensures k == 0
  {
    if k != 0 {
      MultipleIsLarge(k, d);
    }
  }

  lemma {:induction false} GcdDivides(a: nat, b: nat) returns (p: nat, q: nat)
    requires a > 0 || b > 0
    ensures Gcd(a, b) > 0 && a == Gcd(a, b) * p && b == Gcd(a, b) * q
    decreases b
  {
    if b == 0 {
      p, q := 1, 0;
    } else {
      var r, s := GcdDivides(b, a % b);
      var g := Gcd(b, a % b);
      p, q := a / b * r + s, r;
      assert a == a / b * b + a % b;
      assert a / b * b == g * (a / b * r) by {
        calc { a / b * b; a / b * (g * r); g * (a / b * r); }
      }
    }
  }

  /** In lowest terms, with a positive denominator. */
  type Rational = r: (int, int) | r.1 > 0 && Gcd(Abs(r.0), r.1) == 1 witness (0, 1)

  function Numerator(r: Rational): int { r.0 }

  function Denominator(r: Rational): (d: nat)
    ensures d > 0
  {
    r.1
  }

  function FromInt(x: int): Rational {
    GcdWithOne(Abs(x));
    (x, 1)
  }

  lemma GcdWithOne(a: nat)
    ensures Gcd(a, 1) == 1
  {
    assert Gcd(a, 1) == Gcd(1, a % 1) == Gcd(1, 0);
  }

  /** Reduction to lowest terms. */
  function MakeRational(numerator: int, denominator: int): Rational
    requires denominator != 0
  {
    var g := Gcd(Abs(numerator), Abs(denominator));
    LowestTerms(Abs(numerator), Abs(denominator));
    DivisionOfNegative(numerator, g);
    if denominator < 0 then (-(numerator / g), Abs(denominator) / g) else (numerator / g, denominator / g)
  }

  lemma LowestTerms(a: nat, b: nat)
    requires b > 0
    ensures var g := Gcd(a, b);
            g > 0 && a % g == 0 && b % g == 0 && b / g > 0 && Gcd(a / g, b / g) == 1
  {
    hide Gcd;
    var p, q := GcdDivides(a, b);
    Quotients(a, b, Gcd(a, b), p, q);
  }

  /** Divided by their greatest common divisor, numbers have no common divisor left. */
  lemma Quotients(a: nat, b: nat, g: nat, p: nat, q: nat)
    requires b > 0 && g == Gcd(a, b) > 0 && a == g * p && b == g * q
    ensures a % g == 0 && b % g == 0 && b / g > 0 && Gcd(a / g, b / g) == 1
  {
    hide Gcd;
    Exact(a, g, p);
    Exact(b, g, q);
    GcdScales(g, p, q);
    FactorOne(g, Gcd(p, q));
  }

  lemma Exact(a: nat, g: nat, p: nat)
    requires g > 0 && a == g * p
    ensures a / g == p && a % g == 0
  {
    assert a == p * g + 0;
    DivisionUnique(a, g, p, 0);
  }

  lemma FactorOne(g: nat, k: nat)
    requires g > 0 && g == g * k
    ensures k == 1
  {
    Distribute(k, 1, g);
    SmallMultiple(k - 1, g);
  }

  lemma DivisionOfNegative(n: int, g: nat)
    requires g > 0 && Abs(n) % g == 0
    ensures Abs(n / g) == Abs(n) / g && n == n / g * g
  {
    if n < 0 {
      var q := Abs(n) / g;
      assert -n == q * g + 0;
      DivisionUnique(n, g, -q, 0);
    }
  }

  /** `r` is the fraction n / d. */
  predicate Equals(r: Rational, n: int, d: int)
    requires d != 0
  {
    Numerator(r) * d == n * Denominator(r)
  }

  /** Reduction keeps the value, and makes neither part larger. */
  lemma MakeRationalIs(n: int, d: int)
    requires d != 0
    ensures Equals(MakeRational(n, d), n, d)
    ensures Abs(Numerator(MakeRational(n, d))) <= Abs(n) && Denominator(MakeRational(n, d)) <= Abs(d)
  {
    var g, r := Gcd(Abs(n), Abs(d)), MakeRational(n, d);
    LowestTerms(Abs(n), Abs(d));
    hide Gcd;
    DivisionOfNegative(n, g);
    DivisionOfNegative(d, g);
    DivisionOfNegative(Abs(d), g);
    var p, q := n / g, d / g;
    assert n == p * g && d == q * g;
    assert Numerator(r) * d == n * Denominator(r) by {
      Swap(p, q, g);
      SignsCancel(p, q, g);
    }
    Shrinks(Abs(n), g);
    Shrinks(Abs(d), g);
  }

  lemma Swap(p: int, q: int, g: int)
    ensures p * (q * g) == (p * g) * q && (-p) * (q * g) == (p * g) * (-q)
  {
  }

  lemma SignsCancel(p: int, q: int, g: int)
    ensures -(q * g) == -q * g
  {
  }

  lemma Shrinks(a: nat, g: nat)
    requires g > 0 && a % g == 0
    ensures a / g <= a
  {
    if a / g > a {
      assert a == a / g * g;
      Multiply(a / g, a / g, 1, g);
    }
  }

  /** Fractions in lowest terms are whole numbers only if their denominator is one. */
  lemma WholeHasDenominatorOne(r: Rational, k: int)
    requires Equals(r, k, 1)
    ensures Denominator(r) == 1 && Numerator(r) == k
  {
    var d := Denominator(r);
    assert Numerator(r) == k * d;
    AbsProduct(k, d);
    assert Abs(Numerator(r)) == Abs(k) * d + 0;
    DivisionUnique(Abs(Numerator(r)), d, Abs(k), 0);
    assert Gcd(Abs(Numerator(r)), d) == Gcd(d, 0) == d;
  }

  // ------------------------------------------------------- machine division

  /** Division that rounds towards zero. */
  function Quot(a: int, b: int): int
    requires b != 0
  {
    var q: int := Abs(a) / Abs(b);
    if (a < 0) == (b < 0) then q else -q
  }

  function Rem(a: int, b: int): int
    requires b != 0
  {
    a - Quot(a, b) * b
  }

  lemma DivScales(k: nat, a: nat, b: nat)
    requires k > 0 && b > 0
    ensures k * b > 0 && (k * a) / (k * b) == a / b
  {
    var q, r := a / b, a % b;
    ModScales(k, a, b);
    assert a == q * b + r;
    assert k * a == q * (k * b) + k * r by {
      calc { k * a; k * (q * b + r); k * (q * b) + k * r; q * (k * b) + k * r; }
    }
    StrictProduct(r, b, k);
    DivisionUnique(k * a, k * b, q, k * r);
  }

  function Signed(negative: bool, q: int): int {
    if negative then -q else q
  }

  lemma QuotIs(a: int, b: int)
    requires b != 0
    ensures Quot(a, b) == Signed((a < 0) != (b < 0), Abs(a) / Abs(b))
    ensures a == 0 ==> Quot(a, b) == 0
  {
  }

  lemma QuotScales(a: int, b: int, k: int)
    requires b != 0 && k != 0 && k * b != 0
    ensures Quot(k * a, k * b) == Quot(a, b)
  {
    QuotIs(a, b);
    QuotIs(k * a, k * b);
    AbsProduct(k, a);
    AbsProduct(k, b);
    DivScales(Abs(k), Abs(a), Abs(b));
    SignOfProduct(k, a);
    SignOfProduct(k, b);
    hide Quot;
  }

  lemma SignOfProduct(k: int, a: int)
    requires k != 0
    ensures a > 0 ==> (k * a < 0 <==> k < 0)
    ensures a < 0 ==> (k * a < 0 <==> k > 0)
    ensures a == 0 ==> k * a == 0
    ensures a != 0 ==> k * a != 0
  {
    if a > 0 && k > 0 { Multiply(1, k, 1, a); }
    if a > 0 && k < 0 { Multiply(1, -k, 1, a); assert -k * a == -(k * a); }
    if a < 0 && k > 0 { Multiply(1, k, 1, -a); assert k * -a == -(k * a); }
    if a < 0 && k < 0 { Multiply(1, -k, 1, -a); assert -k * -a == k * a; }
  }
}
