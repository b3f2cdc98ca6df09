/**
 * List and number-base exercises (src/Lesson4/List.kt): dot product,
 * polynomial evaluation, prefix sums, prime factorisation, positional
 * notation, Roman and Russian numerals. Each Kotlin loop is a method proved
 * against a specification function.
 */
module Lists {
  import opened Arith
  import opened Text
  import opened Wrappers

  // ---------------------------------------------------------------- sums and products

  /** The sum of a sequence. */
  function Sum(s: seq<int>): int {
    if s == [] then 0 else Sum(s[..|s| - 1]) + s[|s| - 1]
  }

  /** The scalar product of `a` with the first `|a|` entries of `b`. */
  function Dot(a: seq<int>, b: seq<int>): int
    requires |a| <= |b|
  {
    if a == [] then 0 else Dot(a[..|a| - 1], b) + a[|a| - 1] * b[|a| - 1]
  }

  lemma {:induction false} DotPrefix(a: seq<int>, b: seq<int>)
    requires |a| <= |b|
    ensures Dot(a, b) == Dot(a, b[..|a|])
  {
    if a != [] {
      DotPrefix(a[..|a| - 1], b);
      DotPrefix(a[..|a| - 1], b[..|a|]);
      assert b[..|a|][..|a| - 1] == b[..|a| - 1];
    }
  }

  /** The scalar product of vectors of equal dimension is symmetric. */
  lemma {:induction false} DotSymmetric(a: seq<int>, b: seq<int>)
    requires |a| == |b|
    ensures Dot(a, b) == Dot(b, a)
  {
    if a != [] {
      var n := |a| - 1;
      DotPrefix(a[..n], b);
      DotPrefix(b[..n], a);
      DotSymmetric(a[..n], b[..n]);
    }
  }

  /**
   * `times`: the scalar product over the indices of `a`. Reading `b[i]` past
   * the end of a shorter `b` throws IndexOutOfBoundsException.
   */
  method Times(a: seq<int>, b: seq<int>) returns (r: Result<int>)
    ensures |a| <= |b| ==> r == Ok(Dot(a, b))
    ensures |a| > |b| ==> r == Fail(IndexOutOfBounds)
  {
    var result := 0;
    for i := 0 to |a|
      invariant i <= |b| ==> result == Dot(a[..i], b)
      invariant i <= |b|
    {
      if i >= |b| {
        return Fail(IndexOutOfBounds);
      }
      assert a[..i + 1][..i] == a[..i];
      result := result + a[i] * b[i];
    }
    assert a[..|a|] == a;
    return Ok(result);
  }

  /** The value of the polynomial with coefficients `p` (constant term first), by Horner's rule. */
  function Horner(p: seq<int>, x: int): int {
    if p == [] then 0 else p[0] + x * Horner(p[1..], x)
  }

  /** `polynom`: sums `p[i] * x^i`, keeping the running power of `x`. */
  method Polynom(p: seq<int>, x: int) returns (r: int)
    ensures r == Horner(p, x)
  {
    var result := 0;
    var power := 1;
    for i := 0 to |p|
      invariant power == Pow(x, i)
      invariant result + power * Horner(p[i..], x) == Horner(p, x)
    {
      assert p[i..][1..] == p[i + 1..];
      Distribute(power, p[i], x, Horner(p[i + 1..], x));
      result := result + p[i] * power;
      power := power * x;
    }
    return result;
  }

  lemma Distribute(power: int, c: int, x: int, h: int)
    ensures power * (c + x * h) == c * power + (power * x) * h
  {
  }

  /** Horner's rule is the sum of `p[i] * x^i`. */
  lemma {:induction false} HornerIsPowerSum(p: seq<int>, x: int)
    ensures Horner(p, x) == PowerSum(p, x, 0)
  {
    HornerShift(p, x, 0);
  }

  /** `p[0] * x^k + p[1] * x^(k+1) + ...`. */
  function PowerSum(p: seq<int>, x: int, k: nat): int {
    if p == [] then 0 else p[0] * Pow(x, k) + PowerSum(p[1..], x, k + 1)
  }

  lemma {:induction false} HornerShift(p: seq<int>, x: int, k: nat)
    ensures Pow(x, k) * Horner(p, x) == PowerSum(p, x, k)
  {
    if p != [] {
      HornerShift(p[1..], x, k + 1);
      calc {
        Pow(x, k) * Horner(p, x);
        Pow(x, k) * (p[0] + x * Horner(p[1..], x));
        p[0] * Pow(x, k) + (x * Pow(x, k)) * Horner(p[1..], x);
        p[0] * Pow(x, k) + Pow(x, k + 1) * Horner(p[1..], x);
      }
    }
  }

  /**
   * `accumulate`: every element except the first becomes the sum of itself
   * and all before it, in place; the first element and the length are kept.
   */
  method Accumulate(list: array<int>)
    modifies list
    ensures forall i :: 0 <= i < list.Length ==> list[i] == Sum(old(list[..])[..i + 1])
  {
    if list.Length > 0 {
      ghost var original := list[..];
      var sum := list[0];
      assert original[..1] == [original[0]];
      for i := 1 to list.Length
        invariant sum == Sum(original[..i])
        invariant forall j :: 0 <= j < i ==> list[j] == Sum(original[..j + 1])
        invariant list[i..] == original[i..]
      {
        assert original[..i + 1][..i] == original[..i];
        assert list[i] == original[i];
        sum := sum + list[i];
        list[i] := sum;
      }
    }
  }

  // ---------------------------------------------------------------- factorisation

  predicate IsPrime(p: int) {
    p >= 2 && forall d :: 2 <= d < p ==> !Divides(d, p)
  }

  function Product(s: seq<int>): int {
    if s == [] then 1 else Product(s[..|s| - 1]) * s[|s| - 1]
  }

  predicate NonDecreasing(s: seq<int>) {
    forall i, j :: 0 <= i < j < |s| ==> s[i] <= s[j]
  }

  /** A non-decreasing list of primes whose product is `n`. */
  predicate IsPrimeFactorization(factors: seq<int>, n: int) {
    NonDecreasing(factors) && (forall i :: 0 <= i < |factors| ==> IsPrime(factors[i])) && Product(factors) == n
  }

  /** `factorize`: trial division from 2 upwards; for `n > 1` a prime factorisation, and empty otherwise. */
  method Factorize(n: int) returns (result: seq<int>)
    ensures n > 1 ==> IsPrimeFactorization(result, n)
    ensures n <= 1 ==> result == []
  {
    result := [];
    var number := n;
    var divisor := 2;
    while number > 1
      invariant 2 <= divisor
      invariant n <= 1 ==> result == [] && number == n
      invariant n > 1 ==> Trial(n, result, number, divisor)
      decreases number, number - divisor
    {
      while number % divisor == 0
        invariant Trial(n, result, number, divisor)
        decreases number
      {
        DivideStep(n, result, number, divisor);
        result := result + [divisor];
        number := number / divisor;
      }
      if number > 1 {
        SmallestDivisorBound(number, divisor + 1);
      }
      divisor := divisor + 1;
    }
    if n > 1 {
      assert Product(result) * number == n;
    }
  }

  /** The state of trial division: `result * number == n`, no divisor below `divisor` is left in `number`. */
  predicate Trial(n: int, result: seq<int>, number: int, divisor: int) {
    && 2 <= divisor
    && number > 0
    && Product(result) * number == n
    && (forall d :: 2 <= d < divisor ==> !Divides(d, number))
    && (forall i :: 0 <= i < |result| ==> IsPrime(result[i]) && result[i] <= divisor)
    && NonDecreasing(result)
    && (number > 1 ==> divisor <= number)
  }

  /** One division of the inner loop keeps the trial-division state and takes a prime. */
  lemma DivideStep(n: int, result: seq<int>, number: int, divisor: int)
    requires Trial(n, result, number, divisor) && number % divisor == 0
    ensures Trial(n, result + [divisor], number / divisor, divisor) && number / divisor < number
  {
    var result', number' := result + [divisor], number / divisor;
    QuotientSmaller(number, divisor);
    SmallestIsPrime(number, divisor);
    QuotientKeepsNoSmallDivisor(number, divisor);
    assert result'[..|result'| - 1] == result;
    var p := Product(result);
    assert Product(result') == p * divisor;
    MulAssociates(p, divisor, number');
    assert Product(result') * number' == p * number;
    forall i | 0 <= i < |result'|
      ensures IsPrime(result'[i]) && result'[i] <= divisor
    {
      if i < |result| {
        assert result'[i] == result[i];
      }
    }
    forall i, j | 0 <= i < j < |result'|
      ensures result'[i] <= result'[j]
    {
      if j < |result| {
        assert result'[i] == result[i] && result'[j] == result[j];
      }
    }
    if number' > 1 {
      SmallestDivisorBound(number', divisor);
    }
  }

  /** Dividing by a factor of at least 2 leaves a smaller positive quotient. */
  lemma QuotientSmaller(number: int, divisor: int)
    requires number > 0 && divisor >= 2 && number % divisor == 0
    ensures number == (number / divisor) * divisor
    ensures 0 < number / divisor < number
  {
    var q := number / divisor;
    assert number == q * divisor;
    MulBound(q, divisor);
    MulBound(q, divisor - 1);
    MulDistributes(divisor - 1, 1, q);
    assert q * divisor == q * (divisor - 1) + q;
  }

  lemma SmallestIsPrime(number: int, divisor: int)
    requires number > 0 && divisor >= 2 && number % divisor == 0
    requires forall d :: 2 <= d < divisor ==> !Divides(d, number)
    ensures IsPrime(divisor)
  {
    forall d | 2 <= d < divisor
      ensures !Divides(d, divisor)
    {
      if Divides(d, divisor) {
        DividesTransitive(d, divisor, number);
      }
    }
  }

  /** Dividing out a factor introduces no new small divisor. */
  lemma QuotientKeepsNoSmallDivisor(number: int, divisor: int)
    requires number > 0 && divisor >= 2 && number % divisor == 0
    requires forall d :: 2 <= d < divisor ==> !Divides(d, number)
    ensures forall d :: 2 <= d < divisor ==> !Divides(d, number / divisor)
  {
    var q := number / divisor;
    assert divisor * q + 0 == number;
    forall d | 2 <= d < divisor
      ensures !Divides(d, q)
    {
      if Divides(d, q) {
        DividesCombination(d, q, 0, divisor);
      }
    }
  }

  /** A number above 1 with no divisor in `2..d - 1` is at least `d`. */
  lemma SmallestDivisorBound(number: int, d: int)
    requires number > 1 && d >= 2 && forall k :: 2 <= k < d ==> !Divides(k, number)
    ensures d <= number
  {
    DivModOf(1, 0, number);
    assert Divides(number, number);
  }

  /** `factorizeToString`: the factors of `factorize(n)` joined with "*". */
  method FactorizeToString(n: int) returns (s: string)
    ensures exists factors :: ((n > 1 ==> IsPrimeFactorization(factors, n)) && (n <= 1 ==> factors == []) &&
      s == Join(Numerals(factors), "*"))
  {
    var factors := Factorize(n);
    s := Join(Numerals(factors), "*");
  }

  /** `Int.toString()` of every element. */
  function Numerals(s: seq<int>): (r: seq<string>)
    ensures |r| == |s| && forall i :: 0 <= i < |s| ==> r[i] == IntToString(s[i])
  {
    if s == [] then [] else [IntToString(s[0])] + Numerals(s[1..])
  }

  // ---------------------------------------------------------------- positional notation

  /** The value of digits `ds`, most significant first, in base `base` (`decimal`). */
  function Value(ds: seq<int>, base: int): int {
    if ds == [] then 0 else Value(ds[..|ds| - 1], base) * base + ds[|ds| - 1]
  }

  /** The digits of `n` in base `base`, most significant first, without leading zeros (`[0]` for 0). */
  function BaseDigits(n: nat, base: int): (ds: seq<int>)
    requires base > 1
    ensures |ds| >= 1 && (forall i :: 0 <= i < |ds| ==> 0 <= ds[i] < base)
    ensures ds[0] == 0 ==> n == 0
    ensures Value(ds, base) == n
    decreases n
  {
    if n < base then [n]
    else
      DivStep(n, base);
      var ds := BaseDigits(n / base, base) + [n % base];
      assert ds[..|ds| - 1] == BaseDigits(n / base, base);
      ds
  }

  lemma DivStep(n: int, base: int)
    requires n >= base > 1
    ensures 1 <= n / base < n && n == (n / base) * base + n % base && 0 <= n % base < base
  {
    var q := n / base;
    assert n == q * base + n % base;
    MulBound(q, base - 1);
    assert q * base == q * (base - 1) + q;
  }

  /** One step of the conversion loop: the last digit of `number` is `number % base`. */
  lemma BaseDigitsStep(number: int, base: int)
    requires number > 0 && base > 1
    ensures 0 <= number / base < number
    ensures number / base > 0 ==> BaseDigits(number, base) == BaseDigits(number / base, base) + [number % base]
    ensures number / base == 0 ==> BaseDigits(number, base) == [number % base]
  {
    if number >= base {
      DivStep(number, base);
    } else {
      DivModOf(0, number, base);
    }
  }

  /**
   * The state of the conversion loop: the remainders collected so far,
   * least significant first, are the digits of `n` that `number` has lost.
   */
  predicate Converted(n: nat, base: int, number: nat, remainders: seq<int>)
    requires base > 1
  {
    && (forall i :: 0 <= i < |remainders| ==> 0 <= remainders[i] < base)
    && (number > 0 ==> BaseDigits(n, base) == BaseDigits(number, base) + Reverse(remainders))
    && (number == 0 ==> BaseDigits(n, base) == Reverse(remainders))
  }

  lemma ConvertStep(n: nat, base: int, number: nat, remainders: seq<int>)
    requires base > 1 && number > 0 && Converted(n, base, number, remainders)
    ensures 0 <= number / base < number && Converted(n, base, number / base, remainders + [number % base])
  {
    var q, d := number / base, number % base;
    var all, digits := BaseDigits(n, base), BaseDigits(number, base);
    BaseDigitsStep(number, base);
    ReverseSnoc(remainders, d);
    assert all == digits + Reverse(remainders);
    if q > 0 {
      assert digits == BaseDigits(q, base) + [d];
      assert all == BaseDigits(q, base) + ([d] + Reverse(remainders));
    } else {
      assert digits == [d];
    }
  }

  /** `convert`: remainders collected least significant first, then reversed; a negative `n` gives the empty list. */
  method Convert(n: int, base: int) returns (r: seq<int>)
    requires base > 1
    ensures n >= 0 ==> r == BaseDigits(n, base)
    ensures n < 0 ==> r == []
  {
    if n == 0 {
      return [0];
    }
    var result := [];
    var number := n;
    while number > 0
      invariant n > 0 ==> number >= 0 && Converted(n, base, number, result)
      invariant n < 0 ==> result == []
      decreases number
    {
      ConvertStep(n, base, number, result);
      result := result + [number % base];
      number := number / base;
    }
    return Reverse(result);
  }

  /** `decimal`: `result = result * base + digit` over the digits. */
  method Decimal(digits: seq<int>, base: int) returns (r: int)
    ensures r == Value(digits, base)
  {
    var result := 0;
    for i := 0 to |digits|
      invariant result == Value(digits[..i], base)
    {
      assert digits[..i + 1][..i] == digits[..i];
      result := result * base + digits[i];
    }
    assert digits[..|digits|] == digits;
    return result;
  }

  /** The digit `d` as the `d`-th character of "0123456789abcdefghijklmnopqrstuvwxyz". */
  function Alphabet(d: int): char
    requires 0 <= d < 36
  {
    if d < 10 then ('0' as int + d) as char else ('a' as int + d - 10) as char
  }

  /** `digits.indexOf(c)` on the alphabet "0123456789abcdefghijklmnopqrstuvwxyz", in closed form: the position of `c`, or -1. */
  function DigitIndex(c: char): (i: int)
    ensures -1 <= i < 36
    ensures i >= 0 ==> Alphabet(i) == c
    ensures i == -1 <==> forall d :: 0 <= d < 36 ==> Alphabet(d) != c
  {
    if '0' <= c <= '9' then c as int - '0' as int
    else if 'a' <= c <= 'z' then c as int - 'a' as int + 10
    else -1
  }

  /** The rendering of digits below 36 with the characters of `Alphabet`. */
  function Render(ds: seq<int>): (s: string)
    requires forall i :: 0 <= i < |ds| ==> 0 <= ds[i] < 36
    ensures |s| == |ds| && forall i :: 0 <= i < |ds| ==> s[i] == Alphabet(ds[i])
  {
    if ds == [] then "" else [Alphabet(ds[0])] + Render(ds[1..])
  }

  /** `DigitIndex` of every character. */
  function Indexes(s: string): (r: seq<int>)
    ensures |r| == |s| && forall i :: 0 <= i < |s| ==> r[i] == DigitIndex(s[i])
  {
    if s == [] then [] else [DigitIndex(s[0])] + Indexes(s[1..])
  }

  lemma {:induction false} RenderSnoc(ds: seq<int>, d: int)
    requires forall i :: 0 <= i < |ds| ==> 0 <= ds[i] < 36
    requires 0 <= d < 36
    ensures Render(ds + [d]) == Render(ds) + [Alphabet(d)]
  {
    if ds != [] {
      assert (ds + [d])[1..] == ds[1..] + [d];
      RenderSnoc(ds[1..], d);
    }
  }

  lemma {:induction false} RenderReverse(ds: seq<int>)
    requires forall i :: 0 <= i < |ds| ==> 0 <= ds[i] < 36
    ensures Render(Reverse(ds)) == Reverse(Render(ds))
  {
    if ds != [] {
      RenderReverse(ds[1..]);
      assert Reverse(ds) == Reverse(ds[1..]) + [ds[0]];
      RenderSnoc(Reverse(ds[1..]), ds[0]);
    }
  }

  /** `convertToString`: as `convert`, writing each digit with `Alphabet`. */
  method ConvertToString(n: int, base: int) returns (r: string)
    requires 1 < base < 37
    ensures n >= 0 ==> r == Render(BaseDigits(n, base))
    ensures n < 0 ==> r == ""
  {
    if n == 0 {
      return "0";
    }
    var result := "";
    var number := n;
    ghost var digits: seq<int> := [];
    while number > 0
      invariant n > 0 ==> number >= 0 && Converted(n, base, number, digits)
      invariant forall i :: 0 <= i < |digits| ==> 0 <= digits[i] < base
      invariant result == Render(digits)
      invariant n < 0 ==> result == "" && number == n
      decreases number
    {
      var digit := number % base;
      ConvertStep(n, base, number, digits);
      RenderSnoc(digits, digit);
      digits := digits + [digit];
      result := result + [Alphabet(digit)];
      number := number / base;
    }
    RenderReverse(digits);
    r := Reverse(result);
  }

  /** `decimalFromString`: `result = result * base + digits.indexOf(c)`; an unknown character counts as -1. */
  method DecimalFromString(str: string, base: int) returns (r: int)
    ensures r == Value(Indexes(str), base)
  {
    var result := 0;
    for i := 0 to |str|
      invariant result == Value(Indexes(str[..i]), base)
    {
      assert Indexes(str[..i + 1])[..i] == Indexes(str[..i]);
      result := result * base + DigitIndex(str[i]);
    }
    assert str[..|str|] == str;
    return result;
  }

  /** Reading back what `convertToString` wrote gives `n`, for `1 < base < 37`. */
  lemma ConvertToStringRoundTrip(n: nat, base: int)
    requires 1 < base < 37
    ensures Value(Indexes(Render(BaseDigits(n, base))), base) == n
  {
    var ds := BaseDigits(n, base);
    var s := Render(ds);
    forall i | 0 <= i < |ds|
      ensures Indexes(s)[i] == ds[i]
    {
      AlphabetIndex(ds[i]);
    }
    assert Indexes(s) == ds;
  }

  lemma AlphabetIndex(d: int)
    requires 0 <= d < 36
    ensures DigitIndex(Alphabet(d)) == d
  {
  }

  // ---------------------------------------------------------------- Roman numerals

  const RomanValues: seq<int> := [1000, 900, 500, 400, 100, 90, 50, 40, 10, 9, 5, 4, 1]
  const RomanSymbols: seq<string> := ["M", "CM", "D", "CD", "C", "XC", "L", "XL", "X", "IX", "V", "IV", "I"]

  /** The symbols, by index into `RomanValues`, that the greedy loop emits for `n` starting at index `i`. */
  function Greedy(n: int, i: nat): (ks: seq<nat>)
    requires i <= 13
    ensures forall j :: 0 <= j < |ks| ==> i <= ks[j] < 13
    decreases 13 - i, n
  {
    if i == 13 then []
    else if n >= RomanValues[i] then [i] + Greedy(n - RomanValues[i], i)
    else Greedy(n, i + 1)
  }

  /** The symbols with the given indices, concatenated. */
  function Spell(ks: seq<nat>): string
    requires forall j :: 0 <= j < |ks| ==> ks[j] < 13
  {
    if ks == [] then "" else RomanSymbols[ks[0]] + Spell(ks[1..])
  }

  /** The sum of the values of the symbols with the given indices. */
  function SymbolSum(ks: seq<nat>): int
    requires forall j :: 0 <= j < |ks| ==> ks[j] < 13
  {
    if ks == [] then 0 else RomanValues[ks[0]] + SymbolSum(ks[1..])
  }

  /** From any index before the last, the values of the greedy choice add up to `n`. */
  lemma {:induction false} GreedySum(n: int, i: nat)
    requires i < 13 && n >= 0
    ensures SymbolSum(Greedy(n, i)) == n
    decreases 13 - i, n
  {
    if n >= RomanValues[i] {
      var rest := Greedy(n - RomanValues[i], i);
      GreedySum(n - RomanValues[i], i);
      assert Greedy(n, i) == [i] + rest;
      assert ([i] + rest)[1..] == rest;
    } else if i < 12 {
      GreedySum(n, i + 1);
    } else {
      assert n == 0;
    }
  }

  /** Symbol indices in non-decreasing order, that is, values from the largest down. */
  predicate Descending(ks: seq<nat>) {
    forall a, b :: 0 <= a < b < |ks| ==> ks[a] <= ks[b]
  }

  /** The greedy choice takes symbols from the largest value down. */
  lemma {:induction false} GreedyDescending(n: int, i: nat)
    requires i <= 13
    ensures Descending(Greedy(n, i))
    decreases 13 - i, n
  {
    if i < 13 {
      if n >= RomanValues[i] {
        var rest := Greedy(n - RomanValues[i], i);
        GreedyDescending(n - RomanValues[i], i);
        assert Descending(rest);
        var ks := [i] + rest;
        assert Greedy(n, i) == ks;
        forall a, b | 0 <= a < b < |ks|
          ensures ks[a] <= ks[b]
        {
          assert ks[b] == rest[b - 1] && i <= rest[b - 1];
          if a > 0 {
            assert ks[a] == rest[a - 1] && rest[a - 1] <= rest[b - 1];
          }
        }
      } else {
        GreedyDescending(n, i + 1);
        assert Greedy(n, i) == Greedy(n, i + 1);
      }
    }
  }

  /** A number below 1 has the empty numeral. */
  lemma GreedyNonPositive(n: int)
    requires n <= 0
    ensures Greedy(n, 0) == []
  {
    assert forall i: nat :: i <= 13 ==> Greedy(n, i) == [] by {
      forall i: nat | i <= 13
        ensures Greedy(n, i) == []
      {
        GreedyEmpty(n, i);
      }
    }
  }

  lemma {:induction false} GreedyEmpty(n: int, i: nat)
    requires n <= 0 && i <= 13
    ensures Greedy(n, i) == []
    decreases 13 - i
  {
    if i < 13 {
      GreedyEmpty(n, i + 1);
    }
  }

  /** `roman`: for each value from 1000 down, the symbol is appended while the rest is at least that value. */
  method Roman(n: int) returns (r: string)
    ensures r == Spell(Greedy(n, 0))
  {
    var number := n;
    var result := "";
    for i := 0 to 13
      invariant Spell(Greedy(n, 0)) == result + Spell(Greedy(number, i))
    {
      while number >= RomanValues[i]
        invariant Spell(Greedy(n, 0)) == result + Spell(Greedy(number, i))
        decreases number
      {
        RomanStep(n, number, i, result);
        result := result + RomanSymbols[i];
        number := number - RomanValues[i];
      }
    }
    return result;
  }

  /** One pass of the inner loop of `roman`: the symbol moves from the rest to the result. */
  lemma RomanStep(n: int, number: int, i: nat, result: string)
    requires i < 13 && number >= RomanValues[i]
    requires Spell(Greedy(n, 0)) == result + Spell(Greedy(number, i))
    ensures Spell(Greedy(n, 0)) == (result + RomanSymbols[i]) + Spell(Greedy(number - RomanValues[i], i))
  {
    var rest := Greedy(number - RomanValues[i], i);
    assert Greedy(number, i) == [i] + rest;
    assert ([i] + rest)[1..] == rest;
    assert Spell(Greedy(number, i)) == RomanSymbols[i] + Spell(rest);
  }
}
