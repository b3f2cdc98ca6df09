/**
 * `Rational` (src/Lesson11/Rational.kt): an immutable fraction kept in
 * lowest terms with a positive denominator. Every operation computes a raw
 * numerator and denominator and normalises them through `createNormalized`;
 * a zero denominator throws ArithmeticException. Fields hold Kotlin `Int`
 * values; the model computes them unbounded.
 */
module Rationals {
  import opened Arith
  import opened Text
  import opened Wrappers
  import Loop

  datatype Rational = Rational(numerator: int, denominator: int)

  /**
   * The gcd of two integers: Euclid on their absolute values, as the companion
   * `gcd` computes it. It divides both, every common divisor divides it, and it
   * is 0 only for two zeros.
   */
  function Gcd(a: int, b: int): (g: nat)
    ensures Divides(g, Abs(a)) && Divides(g, Abs(b))
    ensures forall d: nat :: Divides(d, Abs(a)) && Divides(d, Abs(b)) ==> Divides(d, g)
    ensures g == 0 <==> a == 0 && b == 0
  {
    CommonDivisorsDivideGcd(Abs(a), Abs(b));
    Loop.EuclidGcd(Abs(a), Abs(b))
  }

  lemma CommonDivisorsDivideGcd(x: nat, y: nat)
    ensures forall d: nat :: Divides(d, x) && Divides(d, y) ==> Divides(d, Loop.EuclidGcd(x, y))
  {
    forall d: nat | Divides(d, x) && Divides(d, y) ensures Divides(d, Loop.EuclidGcd(x, y)) {
      Loop.GcdGreatest(x, y, d);
    }
  }

  /** Lowest terms with a positive denominator: the form every constructor leaves behind. */
  predicate Normalized(r: Rational) {
    r.denominator > 0 && Gcd(r.numerator, r.denominator) == 1
  }

  /** `r` stands for the fraction `num / den`. */
  predicate HasValue(r: Rational, num: int, den: int) {
    r.numerator * den == num * r.denominator
  }

  // ------------------------------------------------------------ gcd facts

  /** Multiplying both arguments by `k` multiplies their gcd by `k`. */
  lemma {:induction false} GcdScale(x: nat, y: nat, k: nat)
    ensures Loop.EuclidGcd(x * k, y * k) == k * Loop.EuclidGcd(x, y)
    decreases y
  {
    if y > 0 && k > 0 {
      var q, r := x / y, x % y;
      MulPositive(y, k);
      MulDistributes(q * y, r, k);
      MulAssociates(q, y, k);
      assert x * k == q * (y * k) + r * k;
      MulMonotone(r, y - 1, k);
      MulDistributes(y - 1, 1, k);
      DivModOf(q, r * k, y * k);
      GcdScale(y, r, k);
    }
  }

  /** A common factor only cancels on a non-zero side. */
  lemma CancelLeft(g: int, a: int, b: int)
    requires g > 0 && g * a == g * b
    ensures a == b
  {
    MulDistributes(a, -b, g);
    if a - b >= 1 || a - b <= -1 {
      MulBound(a - b, g);
    }
  }

  /** Dividing two numbers by their gcd leaves a coprime pair. */
  lemma ReducedCoprime(x: nat, y: nat, g: nat, a: nat, b: nat)
    requires g == Loop.EuclidGcd(x, y) && g > 0 && x == a * g && y == b * g
    ensures Loop.EuclidGcd(a, b) == 1
  {
    GcdScale(a, b, g);
    CancelLeft(g, Loop.EuclidGcd(a, b), 1);
  }

  /** `d` divides `d * k`. */
  lemma DividesMultiple(d: nat, k: int)
    ensures Divides(d, d * k)
  {
    if d > 0 {
      DivModOf(k, 0, d);
    }
  }

  /** Euclid's lemma: a divisor of `n * k` coprime to `n` divides `k`. */
  lemma EuclidLemma(n: nat, d: nat, k: nat)
    requires Loop.EuclidGcd(n, d) == 1 && Divides(d, n * k)
    ensures Divides(d, k)
  {
    DividesMultiple(d, k);
    Loop.GcdGreatest(n * k, d * k, d);
    GcdScale(n, d, k);
  }

  /** Between positive numbers, a divisor is no larger than what it divides. */
  lemma DividesBound(a: int, b: int)
    requires a > 0 && b > 0 && Divides(a, b)
    ensures a <= b
  {
    DivModOf(b / a, 0, a);
    MulBound(b / a, a);
  }

  /** `Abs` distributes over a product with a positive factor. */
  lemma AbsTimes(a: int, d: int)
    requires d > 0
    ensures Abs(a * d) == Abs(a) * d
  {
    if a < 0 {
      MulNegates(-a, d);
      MulPositive(-a, d);
    } else if a > 0 {
      MulPositive(a, d);
    }
  }

  /** Truncating division is exact when the divisor's magnitude divides. */
  lemma QuotExact(a: int, b: int)
    requires b != 0 && Divides(Abs(b), Abs(a))
    ensures Quot(a, b) * b == a
  {
    QuotRem(a, b);
    if a >= 0 {
      assert Rem(a, b) == a % Abs(b) by {
        if b < 0 {
          assert Rem(a, b) == Rem(a, -b);
        }
      }
    } else {
      assert Rem(a, b) == -((-a) % Abs(b));
    }
  }

  // ------------------------------------------------------------ normalisation

  /** The quotients `createNormalized` computes: `num / g` and `den / g` with `g` carrying the sign of `den`. */
  lemma NormalizeFacts(num: int, den: int, s: int)
    requires den != 0
    requires s == if den < 0 then -(Gcd(num, den) as int) else Gcd(num, den)
    ensures s != 0
    ensures Normalized(Rational(Quot(num, s), Quot(den, s)))
    ensures HasValue(Rational(Quot(num, s), Quot(den, s)), num, den)
  {
    var g := Gcd(num, den);
    assert g > 0 && Abs(s) == g;
    QuotientsValue(num, den, s);
    QuotientsCoprime(num, den, s);
  }

  /** Exact division of both parts by a common divisor with the denominator's sign keeps the value. */
  lemma QuotientsValue(num: int, den: int, s: int)
    requires den != 0 && s != 0 && (den < 0 <==> s < 0)
    requires Divides(Abs(s), Abs(num)) && Divides(Abs(s), Abs(den))
    ensures Quot(den, s) > 0
    ensures HasValue(Rational(Quot(num, s), Quot(den, s)), num, den)
  {
    var qn, qd := Quot(num, s), Quot(den, s);
    QuotExact(num, s);
    QuotExact(den, s);
    MulAssociates(qn, qd, s);
  }

  /** Dividing by the gcd (with either sign) leaves coprime quotients. */
  lemma QuotientsCoprime(num: int, den: int, s: int)
    requires den != 0 && Abs(s) == Gcd(num, den)
    ensures Gcd(Quot(num, s), Quot(den, s)) == 1
  {
    var g := Abs(s);
    var a, b := Abs(num) / g, Abs(den) / g;
    assert Abs(num) == a * g;
    assert Abs(den) == b * g;
    ReducedCoprime(Abs(num), Abs(den), g, a, b);
  }

  /**
   * `createNormalized`: ArithmeticException for a zero denominator, otherwise
   * the lowest-terms fraction with a positive denominator equal to `num / den`.
   */
  function CreateNormalized(num: int, den: int): (r: Result<Rational>)
    ensures r.Fail? <==> den == 0
    ensures r.Fail? ==> r.error == Arithmetic
    ensures r.Ok? ==> Normalized(r.value) && HasValue(r.value, num, den)
  {
    if den == 0 then Fail(Arithmetic)
    else
      var g := Gcd(num, den);
      var s: int := if den < 0 then -(g as int) else g;
      NormalizeFacts(num, den, s);
      Ok(Rational(Quot(num, s), Quot(den, s)))
  }

  /**
   * The private tail-recursive `gcd` the public constructor uses: it computes
   * what Euclid's loop of the companion object computes.
   */
  function MemberGcd(a: nat, b: nat): (g: nat)
    ensures g == Loop.EuclidGcd(a, b)
    decreases a + b
  {
    if a == b || b == 0 then
      assert Loop.EuclidGcd(a, 0) == a;
      a
    else if a == 0 then
      assert Loop.EuclidGcd(b, 0) == b;
      b
    else if a > b then
      DivModOf(0, a % b, b);
      assert Loop.EuclidGcd(a % b, b) == Loop.EuclidGcd(b, a % b);
      MemberGcd(a % b, b)
    else
      DivModOf(0, a, b);
      assert Loop.EuclidGcd(a, b) == Loop.EuclidGcd(b, a);
      MemberGcd(a, b % a)
  }

  /**
   * The public constructor `Rational(numerator, denominator)`: the same
   * normalisation as `createNormalized`, with the private `gcd`.
   */
  function New(numerator: int, denominator: int): (r: Result<Rational>)
    ensures r == CreateNormalized(numerator, denominator)
  {
    if denominator == 0 then Fail(Arithmetic)
    else
      var g := MemberGcd(Abs(numerator), Abs(denominator));
      var s: int := if denominator < 0 then -(g as int) else g;
      Ok(Rational(Quot(numerator, s), Quot(denominator, s)))
  }

  /** The constructor from an `Int`: `i / 1`. */
  function FromInt(i: int): (r: Rational)
    ensures Normalized(r) && HasValue(r, i, 1)
  {
    assert Loop.EuclidGcd(Abs(i), 1) == Loop.EuclidGcd(1, 0);
    Rational(i, 1)
  }

  /** `ZERO` and `ONE`, built by the private constructor without normalisation. */
  const Zero := Rational(0, 1)
  const One := Rational(1, 1)

  // ------------------------------------------------------------ value and equality

  /** Cross-multiplied equality of fractions is transitive through a non-zero middle denominator. */
  lemma SameFractionTrans(a: int, b: int, c: int, d: int, e: int, f: int)
    requires d != 0 && a * d == c * b && c * f == e * d
    ensures a * f == e * b
  {
    assert (a * f) * d == (e * b) * d by {
      calc {
        (a * f) * d;
        (a * d) * f;
        (c * b) * f;
        (c * f) * b;
        (e * d) * b;
        (e * b) * d;
      }
    }
    if d > 0 {
      CancelLeft(d, a * f, e * b);
    } else {
      CancelLeft(-d, a * f, e * b);
    }
  }

  /** Two normalised fractions with the same value are the same pair: lowest terms are unique. */
  lemma SameValueSame(a: Rational, b: Rational)
    requires Normalized(a) && Normalized(b) && HasValue(a, b.numerator, b.denominator)
    ensures a == b
  {
    var n1, d1, n2, d2 := a.numerator, a.denominator, b.numerator, b.denominator;
    AbsTimes(n1, d2);
    AbsTimes(n2, d1);
    assert Abs(n1) * d2 == Abs(n2) * d1;
    DividesMultiple(d1, Abs(n2));
    DividesMultiple(d2, Abs(n1));
    EuclidLemma(Abs(n1), d1, d2);
    EuclidLemma(Abs(n2), d2, d1);
    DividesBound(d1, d2);
    DividesBound(d2, d1);
    CancelLeft(d1, n1, n2);
  }

  /** `equals` compares the fields; on normalised fractions that is equality of value. */
  lemma EqualsIffSameValue(a: Rational, b: Rational)
    requires Normalized(a) && Normalized(b)
    ensures a == b <==> HasValue(a, b.numerator, b.denominator)
  {
    if HasValue(a, b.numerator, b.denominator) {
      SameValueSame(a, b);
    }
  }

  /** `Rational(2, 4)` equals `Rational(1, 2)`: both normalise to `1/2`. */
  lemma TwoFourthsIsOneHalf()
    ensures New(2, 4) == New(1, 2) == Ok(Rational(1, 2))
  {
    assert Loop.EuclidGcd(2, 4) == Loop.EuclidGcd(4, 2) == Loop.EuclidGcd(2, 0);
    assert Loop.EuclidGcd(1, 2) == Loop.EuclidGcd(2, 1) == Loop.EuclidGcd(1, 0);
  }

  /** Normalising a normalised pair changes nothing. */
  lemma NormalizeIdentity(r: Rational)
    requires Normalized(r)
    ensures CreateNormalized(r.numerator, r.denominator) == Ok(r)
  {
    SameValueSame(CreateNormalized(r.numerator, r.denominator).value, r);
  }

  /** Zero has one representation, `0/1`. */
  lemma ZeroUnique(r: Rational)
    requires Normalized(r) && r.numerator == 0
    ensures r == Zero
  {
    assert Loop.EuclidGcd(0, r.denominator) == Loop.EuclidGcd(r.denominator, 0);
  }

  // ------------------------------------------------------------ arithmetic

  /** `abs()`: `|n| / d`, already in lowest terms. */
  function AbsoluteValue(r: Rational): (q: Rational)
    requires Normalized(r)
    ensures q == Rational(Abs(r.numerator), r.denominator)
  {
    var c := CreateNormalized(Abs(r.numerator), r.denominator);
    SameValueSame(c.value, Rational(Abs(r.numerator), r.denominator));
    c.value
  }

  /** `unaryMinus`: `-n / d`, already in lowest terms. */
  function Neg(r: Rational): (q: Rational)
    requires Normalized(r)
    ensures q == Rational(-r.numerator, r.denominator)
  {
    var c := CreateNormalized(-r.numerator, r.denominator);
    SameValueSame(c.value, Rational(-r.numerator, r.denominator));
    c.value
  }

  /** `reciprocal()`: ArithmeticException for zero, otherwise `d / n` normalised. */
  function Reciprocal(r: Rational): (q: Result<Rational>)
    requires Normalized(r)
    ensures q.Fail? <==> r.numerator == 0
    ensures q.Fail? ==> q.error == Arithmetic
    ensures q.Ok? ==> Normalized(q.value) && HasValue(q.value, r.denominator, r.numerator)
  {
    CreateNormalized(r.denominator, r.numerator)
  }

  /** Taking the reciprocal twice gives the fraction back. */
  lemma ReciprocalInvolution(r: Rational)
    requires Normalized(r) && r.numerator != 0
    ensures Reciprocal(r).Ok? && Reciprocal(Reciprocal(r).value) == Ok(r)
  {
    var q := Reciprocal(r).value;
    assert q.numerator != 0;
    var p := Reciprocal(q).value;
    SameFractionTrans(p.numerator, p.denominator, q.denominator, q.numerator, r.numerator, r.denominator);
    SameValueSame(p, r);
  }

  /** A product is zero only when a factor is. */
  lemma ProductNonZero(x: int, y: int)
    ensures x * y == 0 <==> x == 0 || y == 0
  {
    if x != 0 && y != 0 {
      MulPositive(Abs(x), Abs(y));
      if x < 0 { MulNegates(-x, y); }
      if y < 0 { MulNegatesRight(x, -y); }
    }
  }

  /** `plus`: the normalised `(n1 * d2 + d1 * n2) / (d1 * d2)`. */
  function Plus(a: Rational, b: Rational): (q: Rational)
    requires Normalized(a) && Normalized(b)
    ensures Normalized(q)
    ensures HasValue(q, a.numerator * b.denominator + a.denominator * b.numerator, a.denominator * b.denominator)
  {
    MulPositive(a.denominator, b.denominator);
    CreateNormalized(a.numerator * b.denominator + a.denominator * b.numerator, a.denominator * b.denominator).value
  }

  /** `minus`: `this + (-other)`. */
  function Minus(a: Rational, b: Rational): (q: Rational)
    requires Normalized(a) && Normalized(b)
    ensures Normalized(q)
    ensures HasValue(q, a.numerator * b.denominator - a.denominator * b.numerator, a.denominator * b.denominator)
  {
    MulNegatesRight(a.denominator, b.numerator);
    Plus(a, Neg(b))
  }

  /** `times`: the normalised `(n1 * n2) / (d1 * d2)`. */
  function Times(a: Rational, b: Rational): (q: Rational)
    requires Normalized(a) && Normalized(b)
    ensures Normalized(q)
    ensures HasValue(q, a.numerator * b.numerator, a.denominator * b.denominator)
  {
    MulPositive(a.denominator, b.denominator);
    CreateNormalized(a.numerator * b.numerator, a.denominator * b.denominator).value
  }

  /** `div`: ArithmeticException when dividing by zero, otherwise `(n1 * d2) / (d1 * n2)` normalised. */
  function Div(a: Rational, b: Rational): (q: Result<Rational>)
    requires Normalized(a) && Normalized(b)
    ensures q.Fail? <==> b.numerator == 0
    ensures q.Fail? ==> q.error == Arithmetic
    ensures q.Ok? ==> Normalized(q.value) && HasValue(q.value, a.numerator * b.denominator, a.denominator * b.numerator)
  {
    ProductNonZero(a.denominator, b.numerator);
    CreateNormalized(a.numerator * b.denominator, a.denominator * b.numerator)
  }

  /** Addition does not depend on the order of its operands. */
  lemma PlusCommutes(a: Rational, b: Rational)
    requires Normalized(a) && Normalized(b)
    ensures Plus(a, b) == Plus(b, a)
  {
    var p, q := Plus(a, b), Plus(b, a);
    SameFractionTrans(p.numerator, p.denominator,
      a.numerator * b.denominator + a.denominator * b.numerator, a.denominator * b.denominator,
      q.numerator, q.denominator);
    SameValueSame(p, q);
  }

  /** Zero is neutral for addition. */
  lemma PlusZero(a: Rational)
    requires Normalized(a)
    ensures Plus(a, Zero) == a
  {
    SameFractionTrans(Plus(a, Zero).numerator, Plus(a, Zero).denominator, a.numerator, a.denominator,
      a.numerator, a.denominator);
    SameValueSame(Plus(a, Zero), a);
  }

  /** `a - a` is `ZERO`. */
  lemma MinusSelf(a: Rational)
    requires Normalized(a)
    ensures Minus(a, a) == Zero
  {
    var m := Minus(a, a);
    var x := a.numerator * a.denominator - a.denominator * a.numerator;
    var dd := a.denominator * a.denominator;
    assert x == 0;
    assert m.numerator * dd == x * m.denominator;
    assert m.numerator * dd == 0;
    MulPositive(a.denominator, a.denominator);
    ProductNonZero(m.numerator, dd);
    ZeroUnique(m);
  }

  /** Multiplication does not depend on the order of its operands. */
  lemma TimesCommutes(a: Rational, b: Rational)
    requires Normalized(a) && Normalized(b)
    ensures Times(a, b) == Times(b, a)
  {
    var p, q := Times(a, b), Times(b, a);
    SameFractionTrans(p.numerator, p.denominator,
      a.numerator * b.numerator, a.denominator * b.denominator, q.numerator, q.denominator);
    SameValueSame(p, q);
  }

  /** Division undoes multiplication by a non-zero fraction. */
  lemma DivUndoesTimes(a: Rational, b: Rational)
    requires Normalized(a) && Normalized(b) && b.numerator != 0
    ensures Div(Times(a, b), b) == Ok(a)
  {
    var t := Times(a, b);
    var p := Div(t, b).value;
    var n1, d1, n2, d2 := a.numerator, a.denominator, b.numerator, b.denominator;
    var x, y := t.numerator * d2, t.denominator * n2;
    ProductNonZero(t.denominator, n2);
    assert x * d1 == n1 * y by {
      MulAssociates(t.numerator, d2, d1);
      MulAssociates(n1, n2, t.denominator);
    }
    SameFractionTrans(p.numerator, p.denominator, x, y, n1, d1);
    SameValueSame(p, a);
  }


  // ------------------------------------------------------------ powers

  /** `pow(exp)`: `ONE` for zero, `n^exp / d^exp` normalised for a positive exponent, `reciprocal().pow(-exp)` otherwise. */
  function PowerOf(r: Rational, exp: int): (p: Result<Rational>)
    requires Normalized(r)
    ensures p.Ok? ==> Normalized(p.value)
    ensures p.Fail? ==> p.error == Arithmetic
    decreases if exp < 0 then 1 else 0
  {
    if exp == 0 then Ok(One)
    else if exp > 0 then CreateNormalized(Pow(r.numerator, exp), Pow(r.denominator, exp))
    else
      match Reciprocal(r)
      case Fail(e) => Fail(e)
      case Ok(q) => PowerOf(q, -exp)
  }

  /** The repeat loop of `pow`, and the recursion through `reciprocal` for a negative exponent. */
  method Power(r: Rational, exp: int) returns (p: Result<Rational>)
    requires Normalized(r)
    ensures p == PowerOf(r, exp)
    decreases if exp < 0 then 1 else 0
  {
    if exp == 0 {
      p := Ok(One);
    } else if exp > 0 {
      var num, den := 1, 1;
      var i := 0;
      while i < exp
        invariant 0 <= i <= exp
        invariant num == Pow(r.numerator, i) && den == Pow(r.denominator, i)
      {
        num := r.numerator * num;
        den := r.denominator * den;
        i := i + 1;
      }
      p := CreateNormalized(num, den);
    } else {
      var q := Reciprocal(r);
      if q.Fail? {
        p := Fail(q.error);
      } else {
        p := Power(q.value, -exp);
      }
    }
  }

  /**
   * The value of `pow(exp)`: `(n/d)^exp`. A negative power of zero throws
   * ArithmeticException; every other power succeeds.
   */
  lemma PowerValue(r: Rational, exp: int)
    requires Normalized(r)
    ensures exp == 0 ==> PowerOf(r, exp) == Ok(One)
    ensures PowerOf(r, exp).Fail? <==> exp < 0 && r.numerator == 0
    ensures exp > 0 ==> HasValue(PowerOf(r, exp).value, Pow(r.numerator, exp), Pow(r.denominator, exp))
    ensures exp < 0 && r.numerator != 0 ==>
      HasValue(PowerOf(r, exp).value, Pow(r.denominator, -exp), Pow(r.numerator, -exp))
  {
    if exp < 0 && r.numerator != 0 {
      var q := Reciprocal(r).value;
      var k := -exp;
      var p := PowerOf(q, k);
      assert p.Ok?;
      PowMul(q.numerator, r.numerator, k);
      PowMul(r.denominator, q.denominator, k);
      assert Pow(q.numerator, k) * Pow(r.numerator, k) == Pow(r.denominator, k) * Pow(q.denominator, k);
      SameFractionTrans(p.value.numerator, p.value.denominator, Pow(q.numerator, k), Pow(q.denominator, k),
        Pow(r.denominator, k), Pow(r.numerator, k));
    }
  }

  // ------------------------------------------------------------ integers

  /**
   * `isInteger()`: the denominator is one, which for a fraction in lowest
   * terms is exactly when the denominator divides the numerator.
   */
  function IsInteger(r: Rational): (b: bool)
    ensures Normalized(r) ==> (b <==> Divides(r.denominator, r.numerator))
  {
    LowestTermsWhole(r.numerator, r.denominator);
    r.denominator == 1
  }

  /** In lowest terms with a positive denominator, the denominator divides the numerator only when it is 1. */
  lemma LowestTermsWhole(n: int, d: int)
    ensures d > 0 && Gcd(n, d) == 1 ==> (d == 1 <==> Divides(d, n))
  {
    if d > 0 && Gcd(n, d) == 1 && Divides(d, n) {
      if n < 0 {
        MulNegates(n / d, d);
        DivModOf(-(n / d), 0, d);
      }
      assert Divides(d, Abs(n));
      DividesMultiple(d, 1);
      DividesBound(d, 1);
    }
  }

  /** Truncating division splits `n` into `q * d + rem` with `q` rounded toward zero. */
  lemma TruncatedParts(n: int, d: int)
    requires d > 0
    ensures n >= 0 || Divides(d, n) ==> Quot(n, d) * d <= n < (Quot(n, d) + 1) * d
    ensures n < 0 && !Divides(d, n) ==> (Quot(n, d) - 1) * d < n < Quot(n, d) * d
  {
    var q := Quot(n, d);
    QuotRem(n, d);
    RemZero(n, d);
    MulDistributes(q, 1, d);
    MulDistributes(q, -1, d);
  }

  /**
   * `floor()` (and `toInt()`, the same expression): Kotlin's `n / d`, which
   * truncates. For a negative non-integer it gives the ceiling instead.
   */
  function Floor(r: Rational): (f: int)
    requires Normalized(r)
    ensures r.numerator >= 0 || IsInteger(r) ==> f * r.denominator <= r.numerator < (f + 1) * r.denominator
    ensures r.numerator < 0 && !IsInteger(r) ==> (f - 1) * r.denominator < r.numerator < f * r.denominator
  {
    TruncatedParts(r.numerator, r.denominator);
    Quot(r.numerator, r.denominator)
  }

  /** The floor the method's comment promises: the largest integer not above `n / d`. */
  function FloorFixed(r: Rational): (f: int)
    requires Normalized(r)
    ensures f * r.denominator <= r.numerator < (f + 1) * r.denominator
  {
    MulDistributes(r.numerator / r.denominator, 1, r.denominator);
    r.numerator / r.denominator
  }

  /** `Rational(-7, 3).floor()` is -2, above the value -7/3, where -3 is intended. */
  lemma FloorOfMinusSevenThirds()
    ensures New(-7, 3).Ok? && Floor(New(-7, 3).value) == -2 && FloorFixed(New(-7, 3).value) == -3
  {
    var r := Rational(-7, 3);
    assert Loop.EuclidGcd(7, 3) == 1 by {
      assert Loop.EuclidGcd(7, 3) == Loop.EuclidGcd(3, 1) == Loop.EuclidGcd(1, 0);
    }
    NormalizeIdentity(r);
  }

  /** `ceil()`: the smallest integer not below `n / d`. */
  function Ceil(r: Rational): (c: int)
    requires Normalized(r)
    ensures (c - 1) * r.denominator < r.numerator <= c * r.denominator
  {
    var n, d := r.numerator, r.denominator;
    TruncatedParts(n, d);
    RemZero(n, d);
    MulDistributes(Quot(n, d), 1, d);
    if Rem(n, d) == 0 then Quot(n, d)
    else Quot(n, d) + (if n > 0 then 1 else 0)
  }

  // ------------------------------------------------------------ comparison

  /** Equal products with positive factors have the same sign. */
  lemma SignMatch(x: int, dx: int, y: int, dy: int)
    requires dx > 0 && dy > 0 && x * dx == y * dy
    ensures (x > 0 <==> y > 0) && (x < 0 <==> y < 0)
  {
    if x > 0 { MulPositive(x, dx); }
    if x < 0 { MulBound(x, dx); }
    if y > 0 { MulPositive(y, dy); }
    if y < 0 { MulBound(y, dy); }
  }

  /**
   * `compareTo`: the numerator of `this - other`. Its sign orders the
   * fractions by value, and it is zero exactly for equal ones.
   */
  function CompareTo(a: Rational, b: Rational): (c: int)
    requires Normalized(a) && Normalized(b)
    ensures c < 0 <==> a.numerator * b.denominator < b.numerator * a.denominator
    ensures c > 0 <==> a.numerator * b.denominator > b.numerator * a.denominator
    ensures c == 0 <==> a == b
  {
    MinusSign(a, b);
    EqualsIffSameValue(a, b);
    Minus(a, b).numerator
  }

  /** The numerator of `a - b` has the sign of `n1 * d2 - n2 * d1`. */
  lemma MinusSign(a: Rational, b: Rational)
    requires Normalized(a) && Normalized(b)
    ensures var x := a.numerator * b.denominator - b.numerator * a.denominator;
      (Minus(a, b).numerator > 0 <==> x > 0) && (Minus(a, b).numerator < 0 <==> x < 0)
  {
    var m := Minus(a, b);
    var x := a.numerator * b.denominator - b.numerator * a.denominator;
    var dd := a.denominator * b.denominator;
    assert dd > 0 && m.numerator * dd == x * m.denominator by {
      MulPositive(a.denominator, b.denominator);
      assert b.numerator * a.denominator == a.denominator * b.numerator;
    }
    SignMatch(m.numerator, dd, x, m.denominator);
  }

  // ------------------------------------------------------------ text

  /**
   * `toString()`: `"n"` for an integer, `"n/d"` otherwise. A `/` appears
   * exactly when the denominator is not 1, and a leading `-` exactly for a
   * negative numerator.
   */
  function ToString(r: Rational): (s: string)
    ensures '/' in s <==> r.denominator != 1
    ensures |s| >= 1 && (s[0] == '-' <==> r.numerator < 0)
  {
    IntToStringShape(r.numerator);
    IntToStringShape(r.denominator);
    IntToStringSign(r.numerator);
    var n := IntToString(r.numerator);
    assert r.denominator != 1 ==> (n + "/" + IntToString(r.denominator))[|n|] == '/';
    if r.denominator == 1 then IntToString(r.numerator)
    else IntToString(r.numerator) + "/" + IntToString(r.denominator)
  }

  /**
   * `parse(s)`: the trimmed text split at `/` must be one or two `Int`s,
   * otherwise NumberFormatException; the pair is normalised, so a zero
   * denominator throws ArithmeticException. The `String` constructor is this.
   */
  function Parse(s: string): (r: Result<Rational>)
    ensures r.Ok? ==> Normalized(r.value)
    ensures r.Fail? ==> r.error == NumberFormat || r.error == Arithmetic
    ensures r == Fail(Arithmetic) ==> |Split(Trim(s), '/')| == 2
  {
    var parts := Split(Trim(s), '/');
    if |parts| == 1 then
      match ToIntOrNull(parts[0])
      case None => Fail(NumberFormat)
      case Some(num) => CreateNormalized(num, 1)
    else if |parts| == 2 then
      match (ToIntOrNull(parts[0]), ToIntOrNull(parts[1]))
      case (Some(num), Some(den)) => CreateNormalized(num, den)
      case _ => Fail(NumberFormat)
    else Fail(NumberFormat)
  }

  /** An `Int` rendering starts with `-` or a digit, ends with a digit and has no `/`. */
  lemma IntToStringShape(i: int)
    ensures var s := IntToString(i);
      !IsWhitespace(s[0]) && IsDigit(s[|s| - 1]) && '/' !in s
  {
    var s := IntToString(i);
    assert forall k :: 0 <= k < |s| ==> s[k] == '-' || IsDigit(s[k]);
  }

  /** `Int.toString()` starts with `-` exactly for a negative number. */
  lemma IntToStringSign(i: int)
    ensures IntToString(i)[0] == '-' <==> i < 0
  {
    if i >= 0 {
      assert IsDigit(NatToString(i)[0]);
    }
  }

  /** Parsing an `Int` rendering gives that integer. */
  lemma ParseWhole(n: int)
    requires IsInt(n)
    ensures Parse(IntToString(n)) == Ok(FromInt(n))
  {
    var s := IntToString(n);
    IntToStringShape(n);
    TrimUnchanged(s);
    SplitNoSep(s, '/');
    IntToStringRoundTrip(n);
    NormalizeIdentity(FromInt(n));
  }

  /** `"n/d"` trims to itself and splits into the two renderings. */
  lemma SplitFraction(n: int, d: int)
    ensures Split(Trim(IntToString(n) + "/" + IntToString(d)), '/') == [IntToString(n), IntToString(d)]
  {
    var a, b := IntToString(n), IntToString(d);
    var s := a + "/" + b;
    IntToStringShape(n);
    IntToStringShape(d);
    assert s[0] == a[0] && s[|s| - 1] == b[|b| - 1];
    TrimUnchanged(s);
    SplitNoSep(b, '/');
    SplitPrefix(a, b, '/');
    assert s == a + ['/'] + b;
  }

  /** Parsing `"n/d"` normalises the pair, failing for `d == 0`. */
  lemma ParseFraction(n: int, d: int)
    requires IsInt(n) && IsInt(d)
    ensures Parse(IntToString(n) + "/" + IntToString(d)) == CreateNormalized(n, d)
  {
    SplitFraction(n, d);
    IntToStringRoundTrip(n);
    IntToStringRoundTrip(d);
  }

  /** `parse` reads back what `toString` writes. */
  lemma ParseToString(r: Rational)
    requires Normalized(r) && IsInt(r.numerator) && IsInt(r.denominator)
    ensures Parse(ToString(r)) == Ok(r)
  {
    if r.denominator == 1 {
      ParseWhole(r.numerator);
    } else {
      ParseFraction(r.numerator, r.denominator);
      NormalizeIdentity(r);
    }
  }
}
