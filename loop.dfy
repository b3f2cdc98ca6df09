/**
 * Digit, divisor and sequence loops (src/Lesson3/Loop.kt). Each Kotlin loop
 * is a method proved against a specification function; the decimal
 * rendering `NatToString` is the reference for every digit-based loop.
 */
module Loop {
  import opened Arith
  import opened Text
  import opened Wrappers

  // ---------------------------------------------------------------- digits

  /** `digitNumber`: the number of decimal digits of `|n|`; zero has one digit. */
  method DigitNumber(n: int) returns (count: int)
    ensures count == |NatToString(Abs(n))|
    ensures count >= 1
  {
    count := 0;
    var number := Abs(n);
    if number == 0 {
      return 1;
    }
    while number > 0
      invariant number >= 0
      invariant number > 0 ==> count + |NatToString(number)| == |NatToString(Abs(n))|
      invariant number == 0 ==> count == |NatToString(Abs(n))|
      decreases number
    {
      count := count + 1;
      number := number / 10;
    }
  }

  /** The digits of a positive `DigitsValue(s[..k])`: its last digit is `s[k - 1]`, the rest are `s[..k - 1]`. */
  lemma LastDigitOfPrefix(s: string, k: nat)
    requires AllDigits(s) && 0 < k <= |s|
    ensures DigitsValue(s[..k]) % 10 == DigitValue(s[k - 1])
    ensures DigitsValue(s[..k]) / 10 == DigitsValue(s[..k - 1])
  {
    assert s[..k][..k - 1] == s[..k - 1];
    DivModOf(DigitsValue(s[..k - 1]), DigitValue(s[k - 1]), 10);
  }

  /** Prefixes of a rendering without a leading zero are positive exactly when non-empty. */
  lemma PrefixPositive(s: string, k: nat)
    requires AllDigits(s) && k <= |s| && |s| >= 1 && s[0] != '0'
    ensures DigitsValue(s[..k]) > 0 <==> k > 0
  {
    if k > 0 {
      DigitsValuePositive(s[..k]);
    }
  }

  /**
   * One pass of the digit loops of `revert` and `hasDifferentDigits`: `number % 10` is the
   * last digit of the prefix, and `number / 10` the value of the prefix one shorter,
   * positive while that prefix is not empty.
   */
  lemma DropLastDigit(s: string, k: nat, number: int)
    requires AllDigits(s) && |s| >= 1 && s[0] != '0' && 0 < k <= |s|
    requires number == DigitsValue(s[..k])
    ensures number % 10 == DigitValue(s[k - 1]) && number / 10 == DigitsValue(s[..k - 1])
    ensures number / 10 > 0 <==> k > 1
  {
    LastDigitOfPrefix(s, k);
    PrefixPositive(s, k - 1);
  }

  /** The reversed suffix grows by the digit in front of it. */
  lemma ReversedSuffixStep(s: string, k: nat)
    requires AllDigits(s) && 0 < k <= |s|
    ensures DigitsValue(Reverse(s[k - 1..])) == DigitsValue(Reverse(s[k..])) * 10 + DigitValue(s[k - 1])
  {
    assert s[k - 1..][1..] == s[k..];
    assert Reverse(s[k - 1..]) == Reverse(s[k..]) + [s[k - 1]];
    DigitsValueSnoc(Reverse(s[k..]), s[k - 1]);
  }

  /** One pass of the loop of `revert`: the last digit of the prefix moves to the reversed suffix. */
  lemma RevertStep(s: string, k: nat, number: int, reversed: int)
    requires AllDigits(s) && |s| >= 1 && s[0] != '0' && 0 < k <= |s|
    requires number == DigitsValue(s[..k]) && reversed == DigitsValue(Reverse(s[k..]))
    ensures number / 10 == DigitsValue(s[..k - 1])
    ensures reversed * 10 + number % 10 == DigitsValue(Reverse(s[k - 1..]))
    ensures number / 10 > 0 <==> k > 1
  {
    DropLastDigit(s, k, number);
    ReversedSuffixStep(s, k);
  }

  /** `|n|` with its decimal digits reversed and the sign of `n`; leading zeros of the reversal vanish. */
  function Reverted(n: int): int {
    var x: int := DigitsValue(Reverse(NatToString(Abs(n))));
    if n < 0 then -x else x
  }

  /** `revert`: the digits of `|n|` read backwards, negated for a negative `n` (so `revert(100) == 1`). */
  method Revert(n: int) returns (r: int)
    ensures r == Reverted(n)
  {
    var reversed := 0;
    var number := Abs(n);
    ghost var s := NatToString(Abs(n));
    NatToStringValue(Abs(n));
    reversed := ReverseDigits(number, s);
    r := if n < 0 then -reversed else reversed;
  }

  /** The loop of `revert`: the digits of `number`, whose rendering is `s`, read backwards. */
  method ReverseDigits(number: nat, ghost s: string) returns (reversed: int)
    requires AllDigits(s) && |s| >= 1 && (s[0] == '0' ==> number == 0)
    requires number == DigitsValue(s)
    requires number == 0 ==> s == "0"
    ensures reversed == DigitsValue(Reverse(s))
  {
    reversed := 0;
    var rest := number;
    ghost var k := |s|;
    assert s[..k] == s;
    if s[0] == '0' {
      assert rest == 0;
    }
    while rest > 0
      invariant 0 <= k <= |s|
      invariant rest == DigitsValue(s[..k])
      invariant reversed == DigitsValue(Reverse(s[k..]))
      invariant s[0] == '0' ==> rest == 0
      invariant rest > 0 ==> k > 0
      invariant rest == 0 ==> k == 0 || s == "0"
      decreases rest
    {
      RevertStep(s, k, rest, reversed);
      var digit := rest % 10;
      reversed := reversed * 10 + digit;
      rest := rest / 10;
      k := k - 1;
    }
    if k == 0 {
      assert s[k..] == s;
    } else {
      assert Reverse(s) == "0" && s[k..] == [];
    }
  }

  /** `isPalindrome`: `n == revert(n)`, which holds exactly when the decimal rendering of `|n|` reads the same backwards. */
  function IsPalindrome(n: int): (p: bool)
    ensures p <==> Reverse(NatToString(Abs(n))) == NatToString(Abs(n))
  {
    PalindromeDigits(n);
    n == Reverted(n)
  }

  lemma PalindromeDigits(n: int)
    ensures n == Reverted(n) <==> Reverse(NatToString(Abs(n))) == NatToString(Abs(n))
  {
    var s := NatToString(Abs(n));
    NatToStringValue(Abs(n));
    var t := Reverse(s);
    assert AllDigits(t);
    if DigitsValue(t) == DigitsValue(s) {
      DigitsValueUnique(t, s);
    }
  }

  /** `hasDifferentDigits`: some decimal digit of `|n|` differs from the last one (false for 0). */
  method HasDifferentDigits(n: int) returns (different: bool)
    ensures var s := NatToString(Abs(n));
      different <==> exists i :: 0 <= i < |s| && s[i] != s[|s| - 1]
  {
    ghost var s := NatToString(Abs(n));
    if n == 0 {
      return false;
    }
    var number := Abs(n);
    NatToStringValue(Abs(n));
    different := DigitsDiffer(number, s);
  }

  /** The loop of `hasDifferentDigits` for a positive `number` rendered as `s`. */
  method DigitsDiffer(number: nat, ghost s: string) returns (different: bool)
    requires AllDigits(s) && |s| >= 1 && s[0] != '0' && number == DigitsValue(s)
    ensures different <==> exists i :: 0 <= i < |s| && s[i] != s[|s| - 1]
  {
    var rest := number;
    ghost var k := |s|;
    assert s[..k] == s;
    LastDigitOfPrefix(s, k);
    var firstDigit := rest % 10;
    PrefixPositive(s, k);
    while rest > 0
      invariant 0 <= k <= |s|
      invariant rest == DigitsValue(s[..k])
      invariant rest > 0 <==> k > 0
      invariant forall i :: k <= i < |s| ==> s[i] == s[|s| - 1]
      decreases rest
    {
      DropLastDigit(s, k, rest);
      if rest % 10 != firstDigit {
        assert s[k - 1] != s[|s| - 1];
        return true;
      }
      rest := rest / 10;
      k := k - 1;
    }
    return false;
  }

  // ---------------------------------------------------------------- Fibonacci

  /** The Fibonacci numbers with `fib(1) == fib(2) == 1`; Kotlin's `fib` also answers 1 for every `n <= 2`. */
  function Fibonacci(n: int): nat
    decreases n
  {
    if n <= 2 then 1 else Fibonacci(n - 1) + Fibonacci(n - 2)
  }

  /** `fib`: the iterative computation with two running predecessors. */
  method Fib(n: int) returns (r: int)
    ensures r == Fibonacci(n)
  {
    if n <= 2 {
      return 1;
    }
    var prev1, prev2, current := 1, 1, 0;
    for i := 3 to n + 1
      invariant prev1 == Fibonacci(i - 1) && prev2 == Fibonacci(i - 2)
      invariant i > 3 ==> current == prev1
    {
      current := prev1 + prev2;
      prev2 := prev1;
      prev1 := current;
    }
    return current;
  }

  lemma FibonacciRecurrence(n: nat)
    requires n >= 1
    ensures Fibonacci(n + 2) == Fibonacci(n) + Fibonacci(n + 1)
  {
  }

  // ---------------------------------------------------------------- divisors

  /** `minDivisor`: for `n > 1` the least divisor above 1; for smaller `n` the loop is empty and `n` is returned. */
  method MinDivisor(n: int) returns (r: int)
    ensures n >= 2 ==> 2 <= r <= n && Divides(r, n) && forall k :: 2 <= k < r ==> !Divides(k, n)
    ensures n < 2 ==> r == n
  {
    if n >= 2 {
      for i := 2 to n + 1
        invariant forall k :: 2 <= k < i ==> !Divides(k, n)
      {
        if n % i == 0 {
          return i;
        }
      }
    }
    return n;
  }

  /** `maxDivisor`: for `n > 1` the greatest divisor below `n`; for smaller `n` the loop is empty and 1 is returned. */
  method MaxDivisor(n: int) returns (r: int)
    ensures n >= 2 ==> 1 <= r < n && Divides(r, n) && forall k :: r < k < n ==> !Divides(k, n)
    ensures n < 2 ==> r == 1
  {
    var i := n - 1;
    while i >= 1
      invariant i <= n - 1
      invariant forall k :: i < k < n ==> !Divides(k, n)
      decreases i
    {
      if n % i == 0 {
        return i;
      }
      i := i - 1;
    }
    return 1;
  }

  // ---------------------------------------------------------------- gcd and lcm

  /** Euclid's algorithm on non-negative numbers; the result divides both arguments. */
  function EuclidGcd(x: nat, y: nat): (g: nat)
    ensures Divides(g, x) && Divides(g, y)
    ensures g == 0 <==> x == 0 && y == 0
    decreases y
  {
    if y == 0 then x
    else
      var g := EuclidGcd(y, x % y);
      DividesCombination(g, y, x % y, x / y);
      assert x == x / y * y + x % y;
      g
  }

  /** Every common divisor of `x` and `y` divides their gcd. */
  lemma {:induction false} GcdGreatest(x: nat, y: nat, d: nat)
    requires Divides(d, x) && Divides(d, y)
    ensures Divides(d, EuclidGcd(x, y))
    decreases y
  {
    if y > 0 {
      assert x % y == -(x / y) * y + x;
      DividesCombination(d, y, x, -(x / y));
      GcdGreatest(y, x % y, d);
    }
  }

  /** `gcd`: Euclid's loop on `|a|` and `|b|`. */
  method Gcd(a: int, b: int) returns (r: int)
    ensures r == EuclidGcd(Abs(a), Abs(b))
  {
    var x, y := Abs(a), Abs(b);
    while y != 0
      invariant x >= 0 && y >= 0
      invariant EuclidGcd(x, y) == EuclidGcd(Abs(a), Abs(b))
      decreases y
    {
      var temp := y;
      y := x % y;
      x := temp;
    }
    return x;
  }

  /**
   * `lcm`: `|m * n| / gcd(m, n)`, the least positive common multiple of `m`
   * and `n` when neither is zero, and 0 when one of them is; when both are
   * zero the gcd is zero and Kotlin's division throws ArithmeticException.
   */
  function Lcm(m: int, n: int): (r: Result<int>)
    ensures r.Fail? <==> m == 0 && n == 0
    ensures r.Fail? ==> r.error == Arithmetic
    ensures r.Ok? ==> r.value >= 0 && Divides(Abs(m), r.value) && Divides(Abs(n), r.value)
    ensures r.Ok? && m != 0 && n != 0 ==>
              r.value > 0 && forall k :: k > 0 && Divides(Abs(m), k) && Divides(Abs(n), k) ==> r.value <= k
    ensures r.Ok? && (m == 0 || n == 0) ==> r.value == 0
  {
    var g := EuclidGcd(Abs(m), Abs(n));
    if g == 0 then Fail(Arithmetic)
    else
      LcmMultiple(Abs(m), Abs(n), g);
      assert Abs(m * n) == Abs(m) * Abs(n);
      if m != 0 && n != 0 then
        LcmLeast(Abs(m), Abs(n));
        Ok(Abs(m * n) / g)
      else
        assert Abs(m * n) == 0;
        Ok(Abs(m * n) / g)
  }

  /** Extended Euclid: the gcd is an integer combination of the two numbers. */
  lemma {:induction false} Bezout(x: nat, y: nat) returns (s: int, t: int)
    ensures s * x + t * y == EuclidGcd(x, y)
    decreases y
  {
    if y == 0 {
      s, t := 1, 0;
    } else {
      var s', t' := Bezout(y, x % y);
      BezoutStep(x, y, x / y, x % y, s', t');
      s, t := t', s' - t' * (x / y);
    }
  }

  /** One step of Euclid carries an integer combination back to the previous pair. */
  lemma BezoutStep(x: int, y: int, q: int, r: int, s: int, t: int)
    requires x == q * y + r
    ensures t * x + (s - t * q) * y == s * y + t * r
  {
    assert t * x == t * (q * y) + t * r;
    MulDistributes(s, -(t * q), y);
    MulNegates(t * q, y);
  }

  /** `x * y / gcd(x, y)` divides every common multiple of positive `x` and `y`, so it is the least. */
  lemma LcmLeast(x: nat, y: nat)
    requires x > 0 && y > 0
    ensures x * y / EuclidGcd(x, y) > 0
    ensures forall k :: k > 0 && Divides(x, k) && Divides(y, k) ==> x * y / EuclidGcd(x, y) <= k
  {
    var g := EuclidGcd(x, y);
    var l := x * y / g;
    var i := x / g;
    assert x == i * g;
    assert x * y == (i * y) * g;
    DivModOf(i * y, 0, g);
    assert l == i * y;
    MulPositive(x, y);
    assert l > 0;
    forall k | k > 0 && Divides(x, k) && Divides(y, k) ensures l <= k {
      CommonMultiple(x, y, k);
    }
  }

  /** A positive common multiple `k` of `x` and `y` is a multiple of `x * y / gcd(x, y)`. */
  lemma CommonMultiple(x: nat, y: nat, k: int)
    requires x > 0 && y > 0 && k > 0 && Divides(x, k) && Divides(y, k)
    ensures x * y / EuclidGcd(x, y) <= k
  {
    var g := EuclidGcd(x, y);
    var s, t := Bezout(x, y);
    QuotientOfDivisor(x, k);
    QuotientOfDivisor(y, k);
    QuotientOfDivisor(g, x);
    LeastMultiple(x, y, k, g, s, t, k / x, k / y, x / g);
  }

  lemma QuotientOfDivisor(d: int, n: int)
    requires d > 0 && Divides(d, n)
    ensures n == (n / d) * d
  {
  }

  /**
   * With `s * x + t * y == g` and `x == i * g`, a positive common multiple
   * `k == a * x == b * y` is at least `i * y`, which is `x * y / g`.
   */
  lemma LeastMultiple(x: int, y: int, k: int, g: int, s: int, t: int, a: int, b: int, i: int)
    requires x > 0 && y > 0 && k > 0 && g > 0
    requires s * x + t * y == g && k == a * x && k == b * y && x == i * g
    ensures x * y / g == i * y <= k
  {
    ScaledCombination(k, x, y, s, t, a, b);
    assert x * y == (i * y) * g by {
      MulAssociates(i, g, y);
      MulAssociates(i, y, g);
    }
    if i <= 0 {
      MulMonotone(i, 0, g);
      assert false;
    }
    MulPositive(i, y);
    Cancel(k, s * b + t * a, i * y, g, x * y);
    DivModOf(i * y, 0, g);
  }

  /** From `k == a * x` and `k == b * y`: `k * (s * x + t * y) == (s * b + t * a) * (x * y)`. */
  lemma ScaledCombination(k: int, x: int, y: int, s: int, t: int, a: int, b: int)
    requires k == a * x && k == b * y
    ensures k * (s * x + t * y) == (s * b + t * a) * (x * y)
  {
    calc {
      k * (s * x + t * y);
      s * (k * x) + t * (k * y);
      s * ((b * y) * x) + t * ((a * x) * y);
      (s * b + t * a) * (x * y);
    }
  }

  /** `k * g == c * p` with `p == l * g`, `g`, `k`, `l` positive: `l <= k`. */
  lemma Cancel(k: int, c: int, l: int, g: int, p: int)
    requires g > 0 && k > 0 && l > 0 && p == l * g && k * g == c * p
    ensures l <= k
  {
    assert k * g == (c * l) * g;
    assert (k - c * l) * g == 0;
    assert k == c * l;
    if c <= 0 {
      MulMonotone(c, 0, l);
      assert false;
    }
    MulMonotone(1, c, l);
  }

  lemma LcmMultiple(x: nat, y: nat, g: nat)
    requires g > 0 && Divides(g, x) && Divides(g, y)
    ensures x * y / g >= 0 && Divides(x, x * y / g) && Divides(y, x * y / g)
  {
    var i, j := x / g, y / g;
    assert x == i * g && y == j * g;
    assert x * y == (x * j) * g;
    DivModOf(x * j, 0, g);
    assert x * y / g == x * j == j * x;
    assert x * y / g == y * i == i * y;
    if x > 0 {
      DivModOf(j, 0, x);
    }
    if y > 0 {
      DivModOf(i, 0, y);
    }
  }

  /** `isCoPrime`: the gcd is 1, that is, no number above 1 divides both. */
  function IsCoPrime(m: int, n: int): (coprime: bool)
    ensures coprime <==> forall d :: d > 1 ==> !(Divides(d, Abs(m)) && Divides(d, Abs(n)))
  {
    CoPrimeDivisors(Abs(m), Abs(n));
    EuclidGcd(Abs(m), Abs(n)) == 1
  }

  lemma CoPrimeDivisors(x: nat, y: nat)
    ensures EuclidGcd(x, y) == 1 <==> forall d :: d > 1 ==> !(Divides(d, x) && Divides(d, y))
  {
    var g := EuclidGcd(x, y);
    if g == 1 {
      forall d | d > 1 && Divides(d, x) && Divides(d, y)
        ensures false
      {
        GcdGreatest(x, y, d);
        DivModOf(0, 1, d);
      }
    } else {
      var w := if g == 0 then 2 else g;
      assert w > 1 && Divides(w, x) && Divides(w, y);
    }
  }

  // ---------------------------------------------------------------- digit sequences

  function Square(i: nat): nat { i * i }

  function FibNumber(i: nat): nat { Fibonacci(i) }

  /** The decimal renderings of `f(1)`, ..., `f(count)` written one after another. */
  function Digits(f: nat -> nat, count: nat): (s: string)
    ensures |s| >= count && AllDigits(s)
  {
    if count == 0 then "" else Digits(f, count - 1) + NatToString(f(count))
  }

  /** The last rendering in a chain occupies its tail. */
  lemma ChunkDigit(f: nat -> nat, k: nat, x: nat, t: nat)
    requires k >= 1 && x == f(k) && t < |NatToString(x)|
    ensures |Digits(f, k)| == |Digits(f, k - 1)| + |NatToString(x)|
    ensures Digits(f, k)[|Digits(f, k - 1)| + t] == NatToString(x)[t]
  {
  }

  /** A shorter chain is a prefix of a longer one. */
  lemma {:induction false} DigitsPrefix(f: nat -> nat, k: nat, m: nat)
    requires k <= m
    ensures |Digits(f, k)| <= |Digits(f, m)| && Digits(f, k) == Digits(f, m)[..|Digits(f, k)|]
    decreases m
  {
    if k < m {
      DigitsPrefix(f, k, m - 1);
    }
  }

  /** The digit `t` places from the left of `x`'s rendering is `x` with the digits after it dropped, mod 10. */
  lemma DigitAt(x: nat, t: nat)
    requires t < |NatToString(x)|
    ensures x / Pow(10, |NatToString(x)| - t - 1) % 10 == DigitValue(NatToString(x)[t])
  {
    var s := NatToString(x);
    NatToStringValue(x);
    DigitsValuePrefix(s, t + 1);
    LastDigitOfPrefix(s, t + 1);
  }

  /** Dividing by 10 `i` times divides by `10^i`. */
  lemma DivPow(x: nat, i: nat)
    ensures x / Pow(10, i) / 10 == x / Pow(10, i + 1)
  {
    DivDiv(x, Pow(10, i), 10);
    assert Pow(10, i + 1) == Pow(10, i) * 10;
  }

  /** Kotlin's `repeat(count) { x /= 10 }` on a non-negative number; nothing happens for `count <= 0`. */
  method DropRightDigits(x: int, count: int) returns (y: int)
    requires x >= 0
    ensures y == if count <= 0 then x else x / Pow(10, count)
  {
    y := x;
    var i := 0;
    assert Pow(10, 0) == 1;
    while i < count
      invariant 0 <= i <= Max(count, 0)
      invariant y == x / Pow(10, i)
    {
      DivPow(x, i);
      y := y / 10;
      i := i + 1;
    }
  }

  /** The digit at position `n` lies in the rendering of `f(k)` that covers it. */
  lemma Landing(f: nat -> nat, k: nat, n: int, position: nat, x: nat, count: nat, y: int)
    requires k >= 1 && x == f(k) && position == |Digits(f, k - 1)| && count == |NatToString(x)|
    requires position < n <= position + count
    requires y == if count - (n - position - 1) - 1 <= 0 then x else x / Pow(10, count - (n - position - 1) - 1)
    ensures y % 10 == DigitValue(Digits(f, n)[n - 1])
  {
    var t := n - position - 1;
    DigitAt(x, t);
    DigitsPrefix(f, k, n);
    ChunkDigit(f, k, x, t);
  }

  /** `fibSequenceDigit`'s landing step: dropping `n - position - 1` digits from the right of `FibNumber(k)`. */
  lemma FibLanding(k: nat, n: int, position: nat, x: nat, count: nat, y: int)
    requires k >= 1 && x == FibNumber(k) && position == |Digits(FibNumber, k - 1)| && count == |NatToString(x)|
    requires position < n <= position + count
    requires y == if n - position - 1 <= 0 then x else x / Pow(10, n - position - 1)
    ensures |Digits(FibNumber, k - 1)| < n <= |Digits(FibNumber, k)|
    ensures y % 10 == DigitValue(Digits(FibNumber, k)[|Digits(FibNumber, k - 1)| + |Digits(FibNumber, k)| - n])
  {
    var t := count - 1 - (n - position - 1);
    DigitAt(x, t);
    ChunkDigit(FibNumber, k, x, t);
  }

  /** Passing the rendering of `f(k)` brings the position to the end of `Digits(f, k)`. */
  lemma DigitsAdvance(f: nat -> nat, k: nat, x: nat, position: nat, count: int)
    requires k >= 1 && position == |Digits(f, k - 1)| && x == f(k) && count == |NatToString(Abs(x))|
    ensures position + count == |Digits(f, k)|
  {
    assert Abs(x) == x;
  }

  /** `squareSequenceDigit`: digit `n` (from 1) of 149162536...; 0 for `n <= 0`. */
  method SquareSequenceDigit(n: int) returns (r: int)
    ensures n >= 1 ==> r == DigitValue(Digits(Square, n)[n - 1])
    ensures n <= 0 ==> r == 0
  {
    var position := 0;
    var number := 1;
    while true
      invariant number >= 1 && position == |Digits(Square, number - 1)|
      invariant position < n || (position == 0 && number == 1)
      decreases n - position
    {
      var square := number * number;
      var digitsCount := DigitNumber(square);
      assert square == Square(number);
      if position + digitsCount >= n {
        r := SquareLanding(n, number, position, square, digitsCount);
        return;
      }
      DigitsAdvance(Square, number, square, position, digitsCount);
      position := position + digitsCount;
      number := number + 1;
    }
  }

  /** The digit `squareSequenceDigit` returns once the square of `number` covers position `n`. */
  method SquareLanding(n: int, number: nat, position: nat, square: nat, digitsCount: int) returns (r: int)
    requires number >= 1 && square == Square(number) && position == |Digits(Square, number - 1)|
    requires digitsCount == |NatToString(square)| && position + digitsCount >= n
    requires position < n || (position == 0 && number == 1)
    ensures n >= 1 ==> r == DigitValue(Digits(Square, n)[n - 1])
    ensures n <= 0 ==> r == 0
  {
    var targetPos := n - position - 1;
    var skip := digitsCount - targetPos - 1;
    var y := DropRightDigits(square, skip);
    if n >= 1 {
      Landing(Square, number, n, position, square, digitsCount, y);
    } else {
      DivModOf(0, 1, Pow(10, skip));
    }
    return y % 10;
  }

  /**
   * `fibSequenceDigit` as written: it finds the Fibonacci number whose
   * rendering covers position `n` of 1123581321..., but then drops
   * `targetPos` digits from the RIGHT, so it returns the digit mirrored
   * within that number (position 9 lies on the "2" of 21 and yields 1).
   * For `n <= 0` it returns the last digit of `fib(1)`, which is 1.
   */
  method FibSequenceDigit(n: int) returns (r: int)
    ensures n >= 1 ==> exists k :: (1 <= k <= n && |Digits(FibNumber, k - 1)| < n <= |Digits(FibNumber, k)| &&
      r == DigitValue(Digits(FibNumber, k)[|Digits(FibNumber, k - 1)| + |Digits(FibNumber, k)| - n]))
    ensures n <= 0 ==> r == 1
  {
    var position := 0;
    var fibIndex := 1;
    while true
      invariant fibIndex >= 1 && position == |Digits(FibNumber, fibIndex - 1)|
      invariant position < n || (position == 0 && fibIndex == 1)
      decreases n - position
    {
      var fibNumber := Fib(fibIndex);
      var temp := fibNumber;
      var digitsCount := DigitNumber(temp);
      if position + digitsCount >= n {
        var targetPos := n - position - 1;
        temp := DropRightDigits(fibNumber, targetPos);
        if n >= 1 {
          FibLanding(fibIndex, n, position, fibNumber, digitsCount, temp);
          assert 1 <= fibIndex <= n;
        }
        return temp % 10;
      }
      DigitsAdvance(FibNumber, fibIndex, fibNumber, position, digitsCount);
      position := position + digitsCount;
      fibIndex := fibIndex + 1;
    }
  }

  /**
   * `fibSequenceDigit` as its documentation describes it: digit `n` (from 1)
   * of 1123581321..., the Fibonacci numbers written one after another, found
   * by dropping the digits to the right of the target, as `squareSequenceDigit`
   * does; 0 for `n <= 0`, as `squareSequenceDigit` answers.
   */
  method FibSequenceDigitFixed(n: int) returns (r: int)
    ensures n >= 1 ==> r == DigitValue(Digits(FibNumber, n)[n - 1])
    ensures n <= 0 ==> r == 0
  {
    var position := 0;
    var fibIndex := 1;
    while true
      invariant fibIndex >= 1 && position == |Digits(FibNumber, fibIndex - 1)|
      invariant position < n || (position == 0 && fibIndex == 1)
      decreases n - position
    {
      var fibNumber := Fib(fibIndex);
      var digitsCount := DigitNumber(fibNumber);
      if position + digitsCount >= n {
        var targetPos := n - position - 1;
        var skip := digitsCount - targetPos - 1;
        var temp := DropRightDigits(fibNumber, skip);
        if n >= 1 {
          Landing(FibNumber, fibIndex, n, position, fibNumber, digitsCount, temp);
        } else {
          DivModOf(0, 1, Pow(10, skip));
        }
        return temp % 10;
      }
      DigitsAdvance(FibNumber, fibIndex, fibNumber, position, digitsCount);
      position := position + digitsCount;
      fibIndex := fibIndex + 1;
    }
  }

  /**
   * The documented example, position 9 of 1123581321...: the digit there is
   * 2, the first digit of 21, but the code as written answers 1, the digit
   * mirrored within 21.
   */
  lemma FibSequenceDigitNine()
    ensures DigitValue(Digits(FibNumber, 9)[8]) == 2
    ensures forall k :: 1 <= k <= 9 && |Digits(FibNumber, k - 1)| < 9 <= |Digits(FibNumber, k)| ==>
              DigitValue(Digits(FibNumber, k)[|Digits(FibNumber, k - 1)| + |Digits(FibNumber, k)| - 9]) == 1
  {
    FibDigitsNine();
    forall k | 1 <= k <= 9 && |Digits(FibNumber, k - 1)| < 9 <= |Digits(FibNumber, k)|
      ensures k == 8
    {
      if k < 8 {
        DigitsPrefix(FibNumber, k, 7);
      }
    }
  }

  /** The first nine Fibonacci numbers written one after another. */
  lemma FibDigitsNine()
    ensures |Digits(FibNumber, 7)| == 8 && Digits(FibNumber, 8) == "1123581321"
    ensures Digits(FibNumber, 9) == "112358132134"
  {
    FibDigitsSix();
    FibNumbersToNine();
    assert NatToString(13) == "13";
    assert NatToString(21) == "21";
    assert NatToString(34) == "34";
  }

  lemma FibDigitsSix()
    ensures Digits(FibNumber, 6) == "112358"
  {
    assert Fibonacci(3) == 2 && Fibonacci(4) == 3;
    assert Fibonacci(5) == 5 && Fibonacci(6) == 8;
    assert Digits(FibNumber, 2) == "11";
    assert Digits(FibNumber, 4) == "1123";
  }

  lemma FibNumbersToNine()
    ensures FibNumber(7) == 13 && FibNumber(8) == 21 && FibNumber(9) == 34
  {
    assert Fibonacci(5) == 5 && Fibonacci(6) == 8;
  }
}
