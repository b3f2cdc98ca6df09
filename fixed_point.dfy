/**
 * `FixedPointNumber` (src/Lesson11/FixedPointNumber.kt): a decimal number
 * stored as the integer `scaledValue = value * 10^precision`, with at most
 * nine fraction digits. Binary operations work at the larger precision of
 * their operands. `scaleFactor` is always `10^precision` and is not stored
 * separately. `Long` values are computed unbounded.
 */
module FixedPoint {
  import opened Arith
  import opened Text
  import opened Wrappers

  datatype FixedPointNumber = FixedPointNumber(scaled: int, precision: nat)

  /** Every constructor keeps the precision within what `pow10` supports. */
  predicate Valid(x: FixedPointNumber) {
    x.precision <= 9
  }

  /** `pow10`: the ten constants `10^0` to `10^9`; any other power throws IllegalArgumentException. */
  function Pow10(power: int): (r: Result<int>)
    ensures r.Ok? <==> 0 <= power <= 9
    ensures r.Ok? ==> r.value == Pow(10, power)
    ensures r.Fail? ==> r.error == IllegalArgument
  {
    match power
    case 0 => Ok(1)
    case 1 => Ok(10)
    case 2 => Ok(100)
    case 3 => Ok(1000)
    case 4 => Ok(10000)
    case 5 => Ok(100000)
    case 6 => Ok(1000000)
    case 7 => Ok(10000000)
    case 8 => Ok(100000000)
    case 9 => Ok(1000000000)
    case _ => Fail(IllegalArgument)
  }

  /** `pow10` where the caller guarantees a power in range. */
  function Scale(power: nat): (f: int)
    requires power <= 9
    ensures f == Pow(10, power) && f > 0
  {
    Pow10(power).value
  }

  /** The number times `10^q`, for `q` no smaller than its precision: its value at precision `q`. */
  function ScaledAt(x: FixedPointNumber, q: nat): int
    requires q >= x.precision
  {
    x.scaled * Pow(10, q - x.precision)
  }

  /** Going to a higher precision multiplies by the power of ten between them. */
  lemma ScaledAtLift(x: FixedPointNumber, q1: nat, q2: nat)
    requires x.precision <= q1 <= q2
    ensures ScaledAt(x, q2) == ScaledAt(x, q1) * Pow(10, q2 - q1)
  {
    PowAdd(10, q1 - x.precision, q2 - q1);
    MulAssociates(x.scaled, Pow(10, q1 - x.precision), Pow(10, q2 - q1));
  }

  /** A positive common factor cancels. */
  lemma Cancel(a: int, b: int, k: int)
    requires k > 0 && a * k == b * k
    ensures a == b
  {
    MulDistributes(a, -b, k);
    if a - b >= 1 || a - b <= -1 {
      MulBound(a - b, k);
    }
  }

  /** A positive factor keeps order. */
  lemma ScaleOrder(a: int, b: int, k: int)
    requires k > 0
    ensures a < b <==> a * k < b * k
  {
    if a < b {
      MulDistributes(b - a, a, k);
      MulPositive(b - a, k);
    } else {
      MulMonotone(b, a, k);
    }
  }

  // ------------------------------------------------------------ rescaling

  /** `r` is `v / f` rounded to the nearest integer, halves away from zero. */
  predicate RoundsHalfAway(v: int, f: int, r: int) {
    (v >= 0 ==> -f <= 2 * (v - r * f) < f) && (v < 0 ==> -f < 2 * (v - r * f) <= f)
  }

  /** Only one integer is `v / f` rounded. */
  lemma RoundingUnique(v: int, f: int, r1: int, r2: int)
    requires f > 0 && RoundsHalfAway(v, f, r1) && RoundsHalfAway(v, f, r2)
    ensures r1 == r2
  {
    if r1 < r2 {
      MulBound(r2 - r1, f);
      MulDistributes(r2, -r1, f);
    } else if r2 < r1 {
      MulBound(r1 - r2, f);
      MulDistributes(r1, -r2, f);
    }
  }

  /** Scaling dividend and divisor alike does not change the rounded quotient. */
  lemma RoundingScaled(v: int, f: int, r: int, k: int)
    requires f > 0 && k > 0 && RoundsHalfAway(v, f, r)
    ensures RoundsHalfAway(v * k, f * k, r)
  {
    var e := 2 * (v - r * f);
    assert 2 * (v * k - r * (f * k)) == e * k by {
      MulDistributes(v, -(r * f), k);
      MulAssociates(r, f, k);
    }
    MulNegates(f, k);
    ScaleOrder(-f, e, k);
    ScaleOrder(e, f, k);
    ScaleOrder(e, -f, k);
    ScaleOrder(f, e, k);
    if v >= 0 { MulMonotone(0, v, k); }
    if v < 0 {
      MulDistributes(v, -v, k);
      MulPositive(-v, k);
    }
  }

  /** Powers of ten from `10^1` on are even. */
  lemma PowTenEven(k: nat)
    requires k >= 1
    ensures Pow(10, k) % 2 == 0
  {
    DivModOf(5 * Pow(10, k - 1), 0, 2);
  }

  /**
   * `rescaleTo(newPrecision)`: exact multiplication to a higher precision;
   * to a lower one, `(scaledValue ± factor / 2) / factor` in Kotlin's
   * truncating division, which rounds half away from zero.
   */
  function RescaleTo(x: FixedPointNumber, newPrecision: nat): (r: int)
    requires Valid(x) && newPrecision <= 9
    ensures newPrecision >= x.precision ==> r == ScaledAt(x, newPrecision)
    ensures newPrecision < x.precision ==> RoundsHalfAway(x.scaled, Pow(10, x.precision - newPrecision), r)
  {
    if newPrecision > x.precision then x.scaled * Scale(newPrecision - x.precision)
    else if newPrecision < x.precision then
      var factor := Scale(x.precision - newPrecision);
      var half := if x.scaled >= 0 then factor / 2 else Quot(-factor, 2);
      RoundDown(x.scaled, factor, half, x.precision - newPrecision);
      Quot(x.scaled + half, factor)
    else x.scaled
  }

  /** The rounding step of `rescaleTo`. */
  lemma RoundDown(v: int, factor: int, half: int, k: nat)
    requires k >= 1 && factor == Pow(10, k)
    requires half == if v >= 0 then factor / 2 else Quot(-factor, 2)
    ensures RoundsHalfAway(v, factor, Quot(v + half, factor))
  {
    PowTenEven(k);
    var t := v + half;
    var q := Quot(t, factor);
    QuotRem(t, factor);
    if v < 0 {
      assert half == -(factor / 2);
    }
  }

  // ------------------------------------------------------------ constructors

  /** The constructor from an `Int`: precision zero. */
  function FromInt(i: int): (x: FixedPointNumber)
    ensures Valid(x) && x.precision == 0 && ScaledAt(x, 0) == i
  {
    FixedPointNumber(i, 0)
  }

  // ------------------------------------------------------------ arithmetic

  /** `plus`: exact, at the larger precision. */
  function Plus(a: FixedPointNumber, b: FixedPointNumber): (r: FixedPointNumber)
    requires Valid(a) && Valid(b)
    ensures Valid(r) && r.precision == Max(a.precision, b.precision)
    ensures r.scaled == ScaledAt(a, r.precision) + ScaledAt(b, r.precision)
  {
    var resultPrecision := Max(a.precision, b.precision);
    FixedPointNumber(RescaleTo(a, resultPrecision) + RescaleTo(b, resultPrecision), resultPrecision)
  }

  /** `unaryMinus`: the scaled value negated. */
  function Neg(x: FixedPointNumber): (r: FixedPointNumber)
    requires Valid(x)
    ensures Valid(r) && r.precision == x.precision
    ensures forall q: nat {:trigger ScaledAt(r, q)} :: q >= x.precision ==> ScaledAt(r, q) == -ScaledAt(x, q)
  {
    FixedPointNumber(-x.scaled, x.precision)
  }

  /** `minus`: exact, at the larger precision. */
  function Minus(a: FixedPointNumber, b: FixedPointNumber): (r: FixedPointNumber)
    requires Valid(a) && Valid(b)
    ensures Valid(r) && r.precision == Max(a.precision, b.precision)
    ensures r.scaled == ScaledAt(a, r.precision) - ScaledAt(b, r.precision)
  {
    var resultPrecision := Max(a.precision, b.precision);
    FixedPointNumber(RescaleTo(a, resultPrecision) - RescaleTo(b, resultPrecision), resultPrecision)
  }

  /** Subtraction is addition of the negation. */
  lemma MinusIsPlusNeg(a: FixedPointNumber, b: FixedPointNumber)
    requires Valid(a) && Valid(b)
    ensures Minus(a, b) == Plus(a, Neg(b))
  {
    var m := Max(a.precision, b.precision);
    assert ScaledAt(Neg(b), m) == -ScaledAt(b, m);
  }

  /** The sum holds the exact sum of the values at every precision from the result's on. */
  lemma PlusValue(a: FixedPointNumber, b: FixedPointNumber, q: nat)
    requires Valid(a) && Valid(b) && q >= Max(a.precision, b.precision)
    ensures ScaledAt(Plus(a, b), q) == ScaledAt(a, q) + ScaledAt(b, q)
  {
    var r, m := Plus(a, b), Max(a.precision, b.precision);
    ScaledAtLift(a, m, q);
    ScaledAtLift(b, m, q);
    MulDistributes(ScaledAt(a, m), ScaledAt(b, m), Pow(10, q - m));
  }

  /** Addition does not depend on the order of its operands. */
  lemma PlusCommutes(a: FixedPointNumber, b: FixedPointNumber)
    requires Valid(a) && Valid(b)
    ensures Plus(a, b) == Plus(b, a)
  {
  }

  /**
   * `times` for the precisions a `FixedPointNumber` can have: the exact
   * product at precision `p1 + p2`, cut to the larger precision by dividing
   * by `10^min(p1, p2)` with truncation toward zero. Its `Double` branch
   * needs `p1 + p2 > 18` and is never taken.
   */
  function Times(a: FixedPointNumber, b: FixedPointNumber): (r: FixedPointNumber)
    requires Valid(a) && Valid(b)
    ensures Valid(r) && r.precision == Max(a.precision, b.precision)
    ensures Abs(r.scaled) == Abs(a.scaled * b.scaled) / Pow(10, Min(a.precision, b.precision))
    ensures r.scaled == 0 || ((r.scaled > 0) <==> (a.scaled * b.scaled > 0))
  {
    var resultPrecision := Max(a.precision, b.precision);
    var multiplication := a.scaled * b.scaled;
    var divisor := Scale(a.precision + b.precision - resultPrecision);
    FixedPointNumber(Quot(multiplication, divisor), resultPrecision)
  }

  /** Multiplication does not depend on the order of its operands. */
  lemma TimesCommutes(a: FixedPointNumber, b: FixedPointNumber)
    requires Valid(a) && Valid(b)
    ensures Times(a, b) == Times(b, a)
  {
    assert a.scaled * b.scaled == b.scaled * a.scaled;
  }

  /** Multiplying by the integer one changes nothing. */
  lemma TimesOne(a: FixedPointNumber)
    requires Valid(a)
    ensures Times(a, FromInt(1)) == a
  {
    assert Quot(a.scaled, 1) == a.scaled;
  }

  // ------------------------------------------------------------ comparison

  /** Two numbers agree at a common precision exactly when they agree at any higher one. */
  lemma AgreeLifted(a: FixedPointNumber, b: FixedPointNumber, m: nat, q: nat)
    requires a.precision <= m && b.precision <= m && m <= q
    ensures ScaledAt(a, m) == ScaledAt(b, m) <==> ScaledAt(a, q) == ScaledAt(b, q)
  {
    ScaledAtLift(a, m, q);
    ScaledAtLift(b, m, q);
    if ScaledAt(a, q) == ScaledAt(b, q) {
      Cancel(ScaledAt(a, m), ScaledAt(b, m), Pow(10, q - m));
    }
  }

  /**
   * `equals`: the scaled values agree at the larger precision, which is to
   * say that the two numbers have the same value, compared at nine digits.
   */
  function Equals(a: FixedPointNumber, b: FixedPointNumber): (e: bool)
    requires Valid(a) && Valid(b)
    ensures e <==> ScaledAt(a, 9) == ScaledAt(b, 9)
  {
    var maxPrecision := Max(a.precision, b.precision);
    AgreeLifted(a, b, maxPrecision, 9);
    RescaleTo(a, maxPrecision) == RescaleTo(b, maxPrecision)
  }

  /** Two numbers are equal exactly when their values agree at any common precision. */
  lemma EqualsIffSameValue(a: FixedPointNumber, b: FixedPointNumber, q: nat)
    requires Valid(a) && Valid(b) && q >= Max(a.precision, b.precision)
    ensures Equals(a, b) <==> ScaledAt(a, q) == ScaledAt(b, q)
  {
    AgreeLifted(a, b, Max(a.precision, b.precision), q);
  }

  /** Equality of fixed-point numbers is transitive across precisions. */
  lemma EqualsTransitive(a: FixedPointNumber, b: FixedPointNumber, c: FixedPointNumber)
    requires Valid(a) && Valid(b) && Valid(c) && Equals(a, b) && Equals(b, c)
    ensures Equals(a, c)
  {
    var q := Max(Max(a.precision, b.precision), c.precision);
    EqualsIffSameValue(a, b, q);
    EqualsIffSameValue(b, c, q);
    EqualsIffSameValue(a, c, q);
  }

  /** `"1.5"` and `"1.50"` are equal numbers. */
  lemma OnePointFiveEqualsOnePointFifty()
    ensures Equals(FixedPointNumber(15, 1), FixedPointNumber(150, 2))
  {
  }

  /** `compareTo`: `Long.compareTo` of the scaled values at the larger precision, so -1, 0 or 1. */
  function CompareTo(a: FixedPointNumber, b: FixedPointNumber): (c: int)
    requires Valid(a) && Valid(b)
    ensures c == -1 || c == 0 || c == 1
    ensures c == 0 <==> Equals(a, b)
  {
    var maxPrecision := Max(a.precision, b.precision);
    var thisScaled := RescaleTo(a, maxPrecision);
    var otherScaled := RescaleTo(b, maxPrecision);
    if thisScaled < otherScaled then -1 else if thisScaled > otherScaled then 1 else 0
  }

  /** The comparison orders numbers by value, at any common precision. */
  lemma CompareToValue(a: FixedPointNumber, b: FixedPointNumber, q: nat)
    requires Valid(a) && Valid(b) && q >= Max(a.precision, b.precision)
    ensures CompareTo(a, b) < 0 <==> ScaledAt(a, q) < ScaledAt(b, q)
    ensures CompareTo(a, b) > 0 <==> ScaledAt(a, q) > ScaledAt(b, q)
  {
    var m := Max(a.precision, b.precision);
    ScaledAtLift(a, m, q);
    ScaledAtLift(b, m, q);
    ScaleOrder(ScaledAt(a, m), ScaledAt(b, m), Pow(10, q - m));
    ScaleOrder(ScaledAt(b, m), ScaledAt(a, m), Pow(10, q - m));
  }

  /** Swapping the operands negates the comparison. */
  lemma CompareToAntisymmetric(a: FixedPointNumber, b: FixedPointNumber)
    requires Valid(a) && Valid(b)
    ensures CompareTo(a, b) == -CompareTo(b, a)
  {
  }

  // ------------------------------------------------------------ hashing

  /**
   * The `Long` that `hashCode` hashes: the number rescaled to
   * `min(precision, 6)`. Up to six digits that is the scaled value itself,
   * whatever the precision; beyond six it is rounded to six digits.
   */
  function HashKey(x: FixedPointNumber): (k: int)
    requires Valid(x)
    ensures x.precision <= 6 ==> k == x.scaled
    ensures x.precision > 6 ==> RoundsHalfAway(x.scaled, Pow(10, x.precision - 6), k)
  {
    RescaleTo(x, Min(x.precision, 6))
  }

  /** Equal numbers can have different hash keys: `1.5` and `1.50` give 15 and 150. */
  lemma HashKeyBreaksEquals()
    ensures Equals(FixedPointNumber(15, 1), FixedPointNumber(150, 2))
    ensures HashKey(FixedPointNumber(15, 1)) == 15 && HashKey(FixedPointNumber(150, 2)) == 150
  {
  }

  /** The standard precision the hashing comment describes: every number rescaled to six digits. */
  function HashKeyFixed(x: FixedPointNumber): int
    requires Valid(x)
  {
    RescaleTo(x, 6)
  }

  /** Rescaled to six digits, a number's key is its value at any precision `q >= 6` rounded by `10^(q - 6)`. */
  lemma HashKeyFixedRounds(x: FixedPointNumber, q: nat)
    requires Valid(x) && q >= x.precision && q >= 6
    ensures RoundsHalfAway(ScaledAt(x, q), Pow(10, q - 6), HashKeyFixed(x))
  {
    var r := HashKeyFixed(x);
    if x.precision <= 6 {
      ScaledAtLift(x, 6, q);
      assert ScaledAt(x, q) - r * Pow(10, q - 6) == 0;
    } else {
      PowAdd(10, x.precision - 6, q - x.precision);
      RoundingScaled(x.scaled, Pow(10, x.precision - 6), r, Pow(10, q - x.precision));
    }
  }

  /** With the standard precision, equal numbers have equal hash keys. */
  lemma HashKeyFixedAgrees(a: FixedPointNumber, b: FixedPointNumber)
    requires Valid(a) && Valid(b) && Equals(a, b)
    ensures HashKeyFixed(a) == HashKeyFixed(b)
  {
    var q := Max(Max(a.precision, b.precision), 6);
    EqualsIffSameValue(a, b, q);
    HashKeyFixedRounds(a, q);
    HashKeyFixedRounds(b, q);
    RoundingUnique(ScaledAt(a, q), Pow(10, q - 6), HashKeyFixed(a), HashKeyFixed(b));
  }

  // ------------------------------------------------------------ text

  /** `-?\d+`: an optional minus sign, then at least one digit. */
  predicate IsSignedDigits(p: string) {
    var digits := if |p| > 0 && p[0] == '-' then p[1..] else p;
    |digits| >= 1 && AllDigits(digits)
  }

  /** `toLong()` of a text the pattern has accepted. */
  function SignedValue(p: string): int
    requires IsSignedDigits(p)
  {
    if p[0] == '-' then -(DigitsValue(p[1..]) as int) else DigitsValue(p)
  }

  /** `matches(Regex("-?\\d+(\\.\\d+)?"))`: signed digits, then optionally `.` and more digits. */
  predicate IsNumberText(t: string) {
    var parts := Split(t, '.');
    IsSignedDigits(parts[0]) && (|parts| == 1 || (|parts| == 2 && |parts[1]| >= 1 && AllDigits(parts[1])))
  }

  /** A text containing the separator splits into at least two parts. */
  lemma SplitHasSep(t: string, c: char)
    requires c in t
    ensures |Split(t, c)| >= 2
  {
    SplitJoin(t, c);
  }

  /**
   * The checks of the String constructor: the trimmed text must match the
   * pattern, have at most nine fraction digits and at most nine digits in
   * all. The result is the integer part and the fraction digits, empty when
   * there is no `.`.
   */
  function Scan(s: string): (r: Result<(string, string)>)
    ensures r.Fail? ==> r.error == NumberFormat
    ensures r.Ok? ==> IsSignedDigits(r.value.0) && AllDigits(r.value.1) && |r.value.1| <= 9
  {
    var trimmed := Trim(s);
    if !IsNumberText(trimmed) then Fail(NumberFormat)
    else if '.' in trimmed then
      SplitHasSep(trimmed, '.');
      var parts := Split(trimmed, '.');
      var integerPart, decimalPart := parts[0], parts[1];
      if |decimalPart| > 9 || |RemoveChar(integerPart, '-')| + |decimalPart| > 9 then Fail(NumberFormat)
      else Ok((integerPart, decimalPart))
    else
      SplitNoSep(trimmed, '.');
      if |RemoveChar(trimmed, '-')| > 9 then Fail(NumberFormat)
      else Ok((trimmed, ""))
  }

  /**
   * How the String constructor as written combines the parts: precision is
   * the number of fraction digits, and the fraction is added or subtracted
   * according to whether the integer part, read as a `Long`, is at least zero.
   */
  function Combine(integerPart: string, decimalPart: string): (x: FixedPointNumber)
    requires IsSignedDigits(integerPart) && AllDigits(decimalPart) && |decimalPart| <= 9
    ensures Valid(x) && x.precision == |decimalPart|
  {
    if decimalPart == [] then FixedPointNumber(SignedValue(integerPart), 0)
    else
      var precision := |decimalPart|;
      var scaleFactor := Scale(precision);
      var integer := SignedValue(integerPart);
      var decimal := DigitsValue(decimalPart);
      FixedPointNumber(if integer >= 0 then integer * scaleFactor + decimal else integer * scaleFactor - decimal,
        precision)
  }

  /** The parts combined with the sign taken from the text's minus sign. */
  function CombineFixed(integerPart: string, decimalPart: string): (x: FixedPointNumber)
    requires IsSignedDigits(integerPart) && AllDigits(decimalPart) && |decimalPart| <= 9
    ensures Valid(x) && x.precision == |decimalPart|
  {
    if decimalPart == [] then FixedPointNumber(SignedValue(integerPart), 0)
    else
      var precision := |decimalPart|;
      var scaleFactor := Scale(precision);
      var integer := SignedValue(integerPart);
      var decimal := DigitsValue(decimalPart);
      FixedPointNumber(if integerPart[0] == '-' then integer * scaleFactor - decimal else integer * scaleFactor + decimal,
        precision)
  }

  /** The String constructor as written. */
  function FromString(s: string): (r: Result<FixedPointNumber>)
    ensures r.Fail? <==> Scan(s).Fail?
    ensures r.Fail? ==> r.error == NumberFormat
    ensures r.Ok? ==> r.value == Combine(Scan(s).value.0, Scan(s).value.1)
  {
    match Scan(s)
    case Fail(e) => Fail(e)
    case Ok((integerPart, decimalPart)) => Ok(Combine(integerPart, decimalPart))
  }

  /** The String constructor with the sign taken from the text's minus sign. */
  function FromStringFixed(s: string): (r: Result<FixedPointNumber>)
    ensures r.Fail? <==> Scan(s).Fail?
    ensures r.Fail? ==> r.error == NumberFormat
    ensures r.Ok? ==> r.value == CombineFixed(Scan(s).value.0, Scan(s).value.1)
  {
    match Scan(s)
    case Fail(e) => Fail(e)
    case Ok((integerPart, decimalPart)) => Ok(CombineFixed(integerPart, decimalPart))
  }

  /**
   * The two combinations differ exactly for a negative zero integer part
   * with a non-zero fraction, such as `"-0.5"`.
   */
  lemma CombineDiffers(integerPart: string, decimalPart: string)
    requires IsSignedDigits(integerPart) && AllDigits(decimalPart) && |decimalPart| <= 9
    ensures Combine(integerPart, decimalPart) != CombineFixed(integerPart, decimalPart) <==>
      integerPart[0] == '-' && SignedValue(integerPart) == 0 && DigitsValue(decimalPart) > 0
  {
    if decimalPart != [] {
      var integer := SignedValue(integerPart);
      if integerPart[0] == '-' && integer == 0 {
        assert integer * Scale(|decimalPart|) == 0;
      }
      if integerPart[0] != '-' {
        assert integer >= 0;
      }
      if integerPart[0] == '-' && integer != 0 {
        assert integer < 0;
      }
    }
  }

  /** The two readings of a text differ exactly for a negative zero integer part with a non-zero fraction. */
  lemma FromStringDiffers(s: string)
    ensures FromString(s) != FromStringFixed(s) <==>
      Scan(s).Ok? && Scan(s).value.0[0] == '-' && SignedValue(Scan(s).value.0) == 0 && DigitsValue(Scan(s).value.1) > 0
  {
    if Scan(s).Ok? {
      CombineDiffers(Scan(s).value.0, Scan(s).value.1);
    }
  }

  /** The printed fraction: the digits of `decimalPart` padded to `precision` with zeros, trailing zeros trimmed. */
  function FractionText(decimalPart: nat, precision: nat): string {
    TrimEndChar(PadStart(NatToString(decimalPart), precision, '0'), '0')
  }

  /** The printed fraction is empty exactly when the remainder is zero. */
  lemma FractionTextEmpty(decimalPart: nat, precision: nat)
    requires 1 <= precision && decimalPart < Pow(10, precision)
    ensures FractionText(decimalPart, precision) == [] <==> decimalPart == 0
  {
    var f := FractionText(decimalPart, precision);
    FractionTextValue(decimalPart, precision);
    if f != [] {
      assert DigitsValue(f) >= 1 by {
        assert IsDigit(f[|f| - 1]) && f[|f| - 1] != '0';
      }
      MulPositive(DigitsValue(f), Pow(10, precision - |f|));
    }
  }

  /**
   * `toString()`: the integer at precision zero; otherwise sign, integer
   * part and the fraction without trailing zeros. It starts with `-`
   * exactly for a negative number.
   */
  function ToString(x: FixedPointNumber): (s: string)
    requires Valid(x)
    ensures |s| >= 1 && (s[0] == '-' <==> x.scaled < 0)
  {
    if x.precision == 0 then
      SignLeads(x.scaled < 0, NatToString(Abs(x.scaled)));
      IntToString(x.scaled)
    else
      var sign := if x.scaled < 0 then "-" else "";
      var absValue: nat := Abs(x.scaled);
      var scaleFactor := Scale(x.precision);
      var integerPart: nat, decimalPart: nat := absValue / scaleFactor, absValue % scaleFactor;
      var trimmedDecimal := FractionText(decimalPart, x.precision);
      var integerText := NatToString(integerPart);
      SignLeads(x.scaled < 0, integerText);
      if trimmedDecimal == [] then sign + integerText
      else sign + integerText + "." + trimmedDecimal
  }

  /** The printed text holds a `.` exactly when the number is not whole. */
  lemma ToStringPoint(x: FixedPointNumber)
    requires Valid(x)
    ensures '.' in ToString(x) <==> Abs(x.scaled) % Pow(10, x.precision) != 0
  {
    if x.precision == 0 {
      ToStringInteger(x);
      SignedTextShape(x.scaled < 0, NatToString(Abs(x.scaled)));
      assert Pow(10, 0) == 1;
    } else {
      var ip := SignedText(x.scaled < 0, NatToString(IntegerPart(x)));
      SignedTextShape(x.scaled < 0, NatToString(IntegerPart(x)));
      FractionTextEmpty(Abs(x.scaled) % Scale(x.precision), x.precision);
      if FractionDigits(x) == [] {
        ToStringWhole(x);
      } else {
        ToStringWithFraction(x);
        assert (ip + "." + FractionDigits(x))[|ip|] == '.';
      }
    }
  }

  /** A minus sign, or none, before digits: the text starts with `-` exactly when the sign is there. */
  lemma SignLeads(negative: bool, digits: string)
    requires |digits| >= 1 && AllDigits(digits)
    ensures var t := (if negative then "-" else "") + digits;
      |t| >= 1 && (t[0] == '-' <==> negative)
  {
    assert IsDigit(digits[0]);
  }

  /** A trimmed text that splits at `.` into signed digits and fraction digits, nine digits at most, passes the checks. */
  lemma ScanFraction(t: string, integerPart: string, decimalPart: string)
    requires Trim(t) == t && Split(t, '.') == [integerPart, decimalPart]
    requires IsSignedDigits(integerPart) && |decimalPart| >= 1 && AllDigits(decimalPart)
    requires |RemoveChar(integerPart, '-')| + |decimalPart| <= 9
    ensures Scan(t) == Ok((integerPart, decimalPart))
  {
    if '.' !in t {
      SplitNoSep(t, '.');
    }
  }

  /** A trimmed text of signed digits without `.`, nine digits at most, passes the checks. */
  lemma ScanWhole(t: string)
    requires Trim(t) == t && '.' !in t && IsSignedDigits(t) && |RemoveChar(t, '-')| <= 9
    ensures Scan(t) == Ok((t, ""))
  {
    SplitNoSep(t, '.');
  }

  /** `"-0.<digits>"` has nothing to trim. */
  lemma NegativeZeroTrimmed(d: string)
    requires 1 <= |d| && AllDigits(d)
    ensures Trim("-0." + d) == "-0." + d
  {
    var t := "-0." + d;
    assert IsDigit(t[|t| - 1]);
    TrimUnchanged(t);
  }

  /** `"-0.<digits>"` splits into `"-0"` and the digits. */
  lemma NegativeZeroSplit(d: string)
    requires AllDigits(d)
    ensures Split("-0." + d, '.') == ["-0", d]
  {
    assert "-0." + d == "-0" + ['.'] + d;
    SplitNoSep(d, '.');
    SplitPrefix("-0", d, '.');
  }

  /** `"-0.<digits>"` passes the checks with integer part `"-0"` and the digits as fraction. */
  lemma ScanNegativeZero(d: string)
    requires 1 <= |d| <= 8 && AllDigits(d)
    ensures Scan("-0." + d) == Ok(("-0", d))
  {
    NegativeZeroTrimmed(d);
    NegativeZeroSplit(d);
    assert RemoveChar("-0", '-') == "0";
    ScanFraction("-0." + d, "-0", d);
  }

  lemma MinusZeroValue()
    ensures IsSignedDigits("-0") && "-0"[0] == '-' && SignedValue("-0") == 0
  {
    assert "-0"[1..] == "0";
  }

  /** A negative zero integer part: the as-written combination adds the fraction, the fixed one subtracts it. */
  lemma MinusZeroCombined(ip: string, d: string)
    requires IsSignedDigits(ip) && ip[0] == '-' && SignedValue(ip) == 0
    requires 1 <= |d| <= 9 && AllDigits(d)
    ensures Combine(ip, d) == FixedPointNumber(DigitsValue(d), |d|)
    ensures CombineFixed(ip, d) == FixedPointNumber(-(DigitsValue(d) as int), |d|)
  {
    assert SignedValue(ip) * Scale(|d|) == 0;
  }

  /**
   * A negative number above -1, such as `"-0.5"`, is read as positive: its
   * integer part `-0` is a `Long` zero, so the fraction is added.
   */
  lemma NegativeZeroReadPositive(d: string)
    requires 1 <= |d| <= 8 && AllDigits(d) && DigitsValue(d) > 0
    ensures FromString("-0." + d) == Ok(FixedPointNumber(DigitsValue(d), |d|))
    ensures FromStringFixed("-0." + d) == Ok(FixedPointNumber(-(DigitsValue(d) as int), |d|))
  {
    ScanNegativeZero(d);
    MinusZeroValue();
    MinusZeroCombined("-0", d);
  }

  // ------------------------------------------------------------ printing and reading back

  /** The printed fraction is digits without a trailing zero whose value, scaled back to the precision, is the remainder. */
  lemma FractionTextValue(decimalPart: nat, precision: nat)
    requires 1 <= precision && decimalPart < Pow(10, precision)
    ensures var f := FractionText(decimalPart, precision);
      AllDigits(f) && |f| <= precision && (f == [] || f[|f| - 1] != '0') &&
      DigitsValue(f) * Pow(10, precision - |f|) == decimalPart
  {
    var d := NatToString(decimalPart);
    NatToStringShort(decimalPart, precision);
    NatToStringValue(decimalPart);
    var padded := PadStart(d, precision, '0');
    PadStartValue(d, precision);
    assert |padded| == precision && DigitsValue(padded) == decimalPart;
    var f := TrimEndChar(padded, '0');
    TrimZerosValue(padded);
    assert f == FractionText(decimalPart, precision);
  }

  /** An optional minus sign and then digits, as the integer part is printed. */
  function SignedText(negative: bool, digits: string): string {
    (if negative then "-" else "") + digits
  }

  /** Digits contain no sign and no `.`. */
  lemma DigitsNoSign(s: string)
    requires AllDigits(s)
    ensures '-' !in s && '.' !in s
  {
    forall i | 0 <= i < |s| ensures s[i] != '-' && s[i] != '.' {
      assert IsDigit(s[i]);
    }
  }

  /** A minus sign before digits gives signed digits, starting with the sign, without `.`, ending with a digit. */
  lemma MinusDigitsShape(digits: string)
    requires |digits| >= 1 && AllDigits(digits) && '.' !in digits
    ensures var ip := "-" + digits;
      IsSignedDigits(ip) && ip[0] == '-' && '.' !in ip && !IsWhitespace(ip[0]) && IsDigit(ip[|ip| - 1])
  {
    var ip := "-" + digits;
    assert ip[1..] == digits;
    assert ip[|ip| - 1] == digits[|digits| - 1];
  }

  /** Signed digits with a minus sign read as the negated value of the digits, and dropping the sign leaves the digits. */
  lemma MinusDigitsValue(digits: string)
    requires |digits| >= 1 && AllDigits(digits) && '-' !in digits
    ensures IsSignedDigits("-" + digits) && SignedValue("-" + digits) == -(DigitsValue(digits) as int)
    ensures RemoveChar("-" + digits, '-') == digits
  {
    var ip := "-" + digits;
    assert ip[1..] == digits;
    RemoveCharAbsent(digits, '-');
  }

  /** A printed integer part is signed digits that start with its sign, hold no `.` and end with a digit. */
  lemma SignedTextShape(negative: bool, digits: string)
    requires |digits| >= 1 && AllDigits(digits)
    ensures var ip := SignedText(negative, digits);
      IsSignedDigits(ip) && (ip[0] == '-' <==> negative) && '.' !in ip && !IsWhitespace(ip[0]) && IsDigit(ip[|ip| - 1])
  {
    DigitsNoSign(digits);
    if negative {
      MinusDigitsShape(digits);
      assert SignedText(negative, digits) == "-" + digits;
    } else {
      assert SignedText(negative, digits) == digits;
      assert IsDigit(digits[0]);
    }
  }

  /** A printed integer part reads back as the signed value of its digits, and it has the digits' length without the sign. */
  lemma SignedTextValue(negative: bool, digits: string)
    requires |digits| >= 1 && AllDigits(digits)
    ensures IsSignedDigits(SignedText(negative, digits))
    ensures SignedValue(SignedText(negative, digits)) == (if negative then -(DigitsValue(digits) as int) else DigitsValue(digits))
    ensures RemoveChar(SignedText(negative, digits), '-') == digits
  {
    DigitsNoSign(digits);
    if negative {
      NegativeTextValue(digits);
    } else {
      PositiveTextValue(digits);
    }
  }

  /** `SignedTextValue` for a negative number. */
  lemma NegativeTextValue(digits: string)
    requires |digits| >= 1 && AllDigits(digits) && '-' !in digits
    ensures IsSignedDigits(SignedText(true, digits))
    ensures SignedValue(SignedText(true, digits)) == -(DigitsValue(digits) as int)
    ensures RemoveChar(SignedText(true, digits), '-') == digits
  {
    assert SignedText(true, digits) == "-" + digits;
    MinusDigitsValue(digits);
  }

  /** `SignedTextValue` for a number that is not negative. */
  lemma PositiveTextValue(digits: string)
    requires |digits| >= 1 && AllDigits(digits) && '-' !in digits
    ensures IsSignedDigits(SignedText(false, digits))
    ensures SignedValue(SignedText(false, digits)) == DigitsValue(digits)
    ensures RemoveChar(SignedText(false, digits), '-') == digits
  {
    assert SignedText(false, digits) == digits;
    assert IsDigit(digits[0]);
    RemoveCharAbsent(digits, '-');
  }

  /** The printed integer part: the magnitude divided by the scale factor. */
  function IntegerPart(x: FixedPointNumber): nat
    requires Valid(x)
  {
    Abs(x.scaled) / Scale(x.precision)
  }

  lemma IntegerPartValue(x: FixedPointNumber)
    requires Valid(x)
    ensures IntegerPart(x) == Abs(x.scaled) / Pow(10, x.precision)
  {
  }

  /** The printed fraction: the remainder's digits without trailing zeros. */
  function FractionDigits(x: FixedPointNumber): string
    requires Valid(x)
  {
    FractionText(Abs(x.scaled) % Scale(x.precision), x.precision)
  }

  /** `toString()` at precision zero: the sign and the digits of the magnitude. */
  lemma ToStringInteger(x: FixedPointNumber)
    requires Valid(x) && x.precision == 0
    ensures ToString(x) == SignedText(x.scaled < 0, NatToString(Abs(x.scaled)))
  {
  }

  /** `toString()` at a positive precision when the fraction prints empty: the signed integer part alone. */
  lemma ToStringWhole(x: FixedPointNumber)
    requires Valid(x) && x.precision >= 1 && FractionDigits(x) == []
    ensures ToString(x) == SignedText(x.scaled < 0, NatToString(IntegerPart(x)))
  {
  }

  /** `toString()` at a positive precision otherwise: the signed integer part, `.` and the fraction. */
  lemma ToStringWithFraction(x: FixedPointNumber)
    requires Valid(x) && x.precision >= 1 && FractionDigits(x) != []
    ensures ToString(x) == SignedText(x.scaled < 0, NatToString(IntegerPart(x))) + "." + FractionDigits(x)
  {
  }

  /** The printed fraction is at most `precision` digits whose value, scaled back, is the remainder. */
  lemma FractionDigitsValue(x: FixedPointNumber)
    requires Valid(x) && x.precision >= 1
    ensures var fraction := FractionDigits(x);
      AllDigits(fraction) && |fraction| <= x.precision &&
      DigitsValue(fraction) * Pow(10, x.precision - |fraction|) == Abs(x.scaled) % Pow(10, x.precision)
  {
    var rest: nat := Abs(x.scaled) % Scale(x.precision);
    FractionTextValue(rest, x.precision);
  }

  /** The printed fraction is at most `precision` digits. */
  lemma FractionDigitsShape(x: FixedPointNumber)
    requires Valid(x) && x.precision >= 1
    ensures AllDigits(FractionDigits(x)) && |FractionDigits(x)| <= x.precision
  {
    FractionDigitsValue(x);
  }

  /** A text that is its own trim: it starts with no whitespace and ends with a digit. */
  lemma Untrimmed(t: string)
    requires |t| >= 1 && !IsWhitespace(t[0]) && IsDigit(t[|t| - 1])
    ensures Trim(t) == t
  {
    TrimUnchanged(t);
  }

  /** Signed digits without `.`, nine digits at most, are read by the fixed reading at precision zero. */
  lemma ReadSigned(ip: string)
    requires IsSignedDigits(ip) && '.' !in ip && !IsWhitespace(ip[0]) && IsDigit(ip[|ip| - 1])
    requires |RemoveChar(ip, '-')| <= 9
    ensures FromStringFixed(ip) == Ok(FixedPointNumber(SignedValue(ip), 0))
  {
    Untrimmed(ip);
    ScanWhole(ip);
  }

  /** A printed whole number passes the checks, and the fixed reading gives it back at precision zero. */
  lemma ReadWhole(negative: bool, digits: string)
    requires 1 <= |digits| <= 9 && AllDigits(digits)
    ensures FromStringFixed(SignedText(negative, digits)) ==
      Ok(FixedPointNumber(if negative then -(DigitsValue(digits) as int) else DigitsValue(digits), 0))
  {
    SignedTextShape(negative, digits);
    SignedTextValue(negative, digits);
    ReadSigned(SignedText(negative, digits));
  }

  /** A text without `.`, then `.`, then digits splits into those two parts. */
  lemma SplitAtPoint(ip: string, fraction: string)
    requires '.' !in ip && AllDigits(fraction)
    ensures Split(ip + "." + fraction, '.') == [ip, fraction]
  {
    DigitsNoSign(fraction);
    assert ip + "." + fraction == ip + ['.'] + fraction;
    SplitNoSep(fraction, '.');
    SplitPrefix(ip, fraction, '.');
  }

  /** Signed digits, `.` and fraction digits have nothing to trim and split at the `.`. */
  lemma SignedFractionText(ip: string, fraction: string)
    requires |ip| >= 1 && '.' !in ip && !IsWhitespace(ip[0]) && |fraction| >= 1 && AllDigits(fraction)
    ensures Trim(ip + "." + fraction) == ip + "." + fraction
    ensures Split(ip + "." + fraction, '.') == [ip, fraction]
  {
    var t := ip + "." + fraction;
    assert t[0] == ip[0] && t[|t| - 1] == fraction[|fraction| - 1];
    Untrimmed(t);
    SplitAtPoint(ip, fraction);
  }

  /** Signed digits, `.` and fraction digits, nine digits at most, pass the checks. */
  lemma ScanSigned(ip: string, fraction: string)
    requires IsSignedDigits(ip) && '.' !in ip && !IsWhitespace(ip[0])
    requires |fraction| >= 1 && AllDigits(fraction) && |RemoveChar(ip, '-')| + |fraction| <= 9
    ensures Scan(ip + "." + fraction) == Ok((ip, fraction))
  {
    var t := ip + "." + fraction;
    assert Trim(t) == t && Split(t, '.') == [ip, fraction] by {
      SignedFractionText(ip, fraction);
    }
    ScanFraction(t, ip, fraction);
  }

  /** The number a printed integer part and fraction stand for: the integer part shifted, plus the fraction, with the sign. */
  function Reading(negative: bool, whole: nat, fraction: string): FixedPointNumber
    requires AllDigits(fraction)
  {
    var magnitude := whole * Pow(10, |fraction|) + DigitsValue(fraction);
    FixedPointNumber(if negative then -magnitude else magnitude, |fraction|)
  }

  /** Without a fraction the number is the signed whole number at precision zero. */
  lemma ReadingWhole(negative: bool, whole: nat)
    ensures Reading(negative, whole, "") == FixedPointNumber(if negative then -(whole as int) else whole, 0)
  {
    assert Pow(10, 0) == 1;
  }

  /** The fixed combination of signed digits of value `n` or `-n` puts the fraction on the side of the sign. */
  lemma CombineSigned(ip: string, n: nat, fraction: string)
    requires IsSignedDigits(ip) && SignedValue(ip) == (if ip[0] == '-' then -(n as int) else n)
    requires 1 <= |fraction| <= 9 && AllDigits(fraction)
    ensures CombineFixed(ip, fraction) == Reading(ip[0] == '-', n, fraction)
  {
    var scale := Scale(|fraction|);
    MulNegates(n, scale);
  }

  /** Signed digits, `.` and fraction digits, nine digits at most, are read by the fixed combination of the two parts. */
  lemma ReadSignedFraction(ip: string, fraction: string)
    requires IsSignedDigits(ip) && '.' !in ip && !IsWhitespace(ip[0])
    requires |fraction| >= 1 && AllDigits(fraction) && |RemoveChar(ip, '-')| + |fraction| <= 9
    ensures FromStringFixed(ip + "." + fraction) == Ok(CombineFixed(ip, fraction))
  {
    ScanSigned(ip, fraction);
  }

  /** What a printed integer part of value `n` or `-n` satisfies when it is read back. */
  predicate PrintedInteger(ip: string, negative: bool, n: nat) {
    IsSignedDigits(ip) && '.' !in ip && !IsWhitespace(ip[0]) && (ip[0] == '-' <==> negative) &&
    SignedValue(ip) == (if negative then -(n as int) else n)
  }

  /** A printed integer part, `.` and fraction digits, nine digits at most, read back as the number they stand for. */
  lemma ReadIntegerAndFraction(ip: string, negative: bool, n: nat, fraction: string)
    requires PrintedInteger(ip, negative, n)
    requires |fraction| >= 1 && AllDigits(fraction) && |RemoveChar(ip, '-')| + |fraction| <= 9
    ensures FromStringFixed(ip + "." + fraction) == Ok(Reading(negative, n, fraction))
  {
    ReadSignedFraction(ip, fraction);
    CombineSigned(ip, n, fraction);
  }

  /** A printed text with a fraction reads back as the number it stands for. */
  lemma ReadPrintedFraction(negative: bool, digits: string, fraction: string)
    requires |digits| >= 1 && AllDigits(digits) && |fraction| >= 1 && AllDigits(fraction) && |digits| + |fraction| <= 9
    ensures FromStringFixed(SignedText(negative, digits) + "." + fraction) == Ok(Reading(negative, DigitsValue(digits), fraction))
  {
    SignedTextShape(negative, digits);
    SignedTextValue(negative, digits);
    ReadIntegerAndFraction(SignedText(negative, digits), negative, DigitsValue(digits), fraction);
  }

  /** At precision zero the text is the integer, which reads back as itself. */
  lemma RoundTripInteger(x: FixedPointNumber)
    requires Valid(x) && x.precision == 0 && |NatToString(Abs(x.scaled))| <= 9
    ensures FromStringFixed(ToString(x)) == Ok(x)
  {
    ToStringInteger(x);
    NatToStringValue(Abs(x.scaled));
    ReadWhole(x.scaled < 0, NatToString(Abs(x.scaled)));
  }

  /** The number a printed text stands for, brought to a precision `q`. */
  lemma ReadingScaled(negative: bool, whole: nat, fraction: string, q: nat)
    requires AllDigits(fraction) && |fraction| <= q
    ensures var magnitude := (whole * Pow(10, |fraction|) + DigitsValue(fraction)) * Pow(10, q - |fraction|);
      ScaledAt(Reading(negative, whole, fraction), q) == if negative then -magnitude else magnitude
  {
    MulNegates(whole * Pow(10, |fraction|) + DigitsValue(fraction), Pow(10, q - |fraction|));
  }

  /** Quotient and remainder of a magnitude put back together, the remainder given as a multiple of `high`, with the sign. */
  lemma Recombine(s: int, f: int, whole: int, v: int, low: int, high: int)
    requires f > 0 && f == low * high && whole == Abs(s) / f && v * high == Abs(s) % f
    ensures var magnitude := (whole * low + v) * high;
      (if s < 0 then -magnitude else magnitude) == s
  {
    MulDistributes(whole * low, v, high);
    MulAssociates(whole, low, high);
    DivModSplit(Abs(s), f);
  }

  /** The number a printed text stands for, brought to precision `p`, is `s` when the text holds the quotient and remainder of `s`. */
  lemma RecombineReading(s: int, p: nat, whole: nat, fraction: string)
    requires AllDigits(fraction) && |fraction| <= p && whole == Abs(s) / Pow(10, p)
    requires DigitsValue(fraction) * Pow(10, p - |fraction|) == Abs(s) % Pow(10, p)
    ensures ScaledAt(Reading(s < 0, whole, fraction), p) == s
  {
    var low, high := Pow(10, |fraction|), Pow(10, p - |fraction|);
    PowSplit(10, p, |fraction|);
    Recombine(s, Pow(10, p), whole, DigitsValue(fraction), low, high);
    ReadingScaled(s < 0, whole, fraction, p);
  }

  /** The number read back, brought to the original precision, is the original scaled value. */
  lemma RoundTripValue(x: FixedPointNumber)
    requires Valid(x) && x.precision >= 1
    ensures AllDigits(FractionDigits(x)) && |FractionDigits(x)| <= x.precision
    ensures ScaledAt(Reading(x.scaled < 0, IntegerPart(x), FractionDigits(x)), x.precision) == x.scaled
  {
    FractionDigitsValue(x);
    IntegerPartValue(x);
    RecombineReading(x.scaled, x.precision, IntegerPart(x), FractionDigits(x));
  }

  /** At a positive precision with an empty printed fraction the text is a whole number equal to `x`. */
  lemma RoundTripNoFraction(x: FixedPointNumber)
    requires Valid(x) && x.precision >= 1 && FractionDigits(x) == [] && |NatToString(IntegerPart(x))| + x.precision <= 9
    ensures FromStringFixed(ToString(x)).Ok? && Equals(FromStringFixed(ToString(x)).value, x)
  {
    var digits := NatToString(IntegerPart(x));
    ToStringWhole(x);
    NatToStringValue(IntegerPart(x));
    ReadWhole(x.scaled < 0, digits);
    ReadingWhole(x.scaled < 0, IntegerPart(x));
    RoundTripValue(x);
    EqualsIffSameValue(Reading(x.scaled < 0, IntegerPart(x), FractionDigits(x)), x, x.precision);
  }

  /** At a positive precision with a printed fraction the text reads back as an equal number at the fraction's precision. */
  lemma RoundTripWithFraction(x: FixedPointNumber)
    requires Valid(x) && x.precision >= 1 && FractionDigits(x) != [] && |NatToString(IntegerPart(x))| + x.precision <= 9
    ensures FromStringFixed(ToString(x)).Ok? && Equals(FromStringFixed(ToString(x)).value, x)
  {
    var digits, fraction := NatToString(IntegerPart(x)), FractionDigits(x);
    ToStringWithFraction(x);
    FractionDigitsShape(x);
    NatToStringValue(IntegerPart(x));
    ReadPrintedFraction(x.scaled < 0, digits, fraction);
    RoundTripValue(x);
    EqualsIffSameValue(Reading(x.scaled < 0, IntegerPart(x), fraction), x, x.precision);
  }

  /**
   * Printing a number and reading the text back with the fixed String
   * constructor gives an equal number, whenever the printed text has at
   * most nine digits (longer texts are refused).
   */
  lemma ToStringRoundTrip(x: FixedPointNumber)
    requires Valid(x) && |NatToString(Abs(x.scaled) / Pow(10, x.precision))| + x.precision <= 9
    ensures FromStringFixed(ToString(x)).Ok? && Equals(FromStringFixed(ToString(x)).value, x)
  {
    if x.precision == 0 {
      RoundTripInteger(x);
      EqualsIffSameValue(x, x, 0);
    } else {
      IntegerPartValue(x);
      if FractionDigits(x) == [] {
        RoundTripNoFraction(x);
      } else {
        RoundTripWithFraction(x);
      }
    }
  }
}
