/**
 * Kotlin integer arithmetic on unbounded integers. Kotlin's `/` and `%`
 * truncate toward zero, unlike Dafny's Euclidean operators; `Quot` and `Rem`
 * are the Kotlin operators.
 */
module Arith {

  function Abs(a: int): (r: int)
    ensures r >= 0 && (r == a || r == -a)
  {
    if a < 0 then -a else a
  }

  function Max(a: int, b: int): (r: int)
    ensures r >= a && r >= b && (r == a || r == b)
  {
    if a >= b then a else b
  }

  function Min(a: int, b: int): (r: int)
    ensures r <= a && r <= b && (r == a || r == b)
  {
    if a <= b then a else b
  }

  /** Kotlin `a / b`: the quotient rounded toward zero. */
  function Quot(a: int, b: int): (q: int)
    requires b != 0
    ensures Abs(q) == Abs(a) / Abs(b)
    ensures q == 0 || ((q > 0) <==> ((a > 0) == (b > 0)))
    ensures a >= 0 && b > 0 ==> q == a / b
  {
    DivNonNegative(Abs(a), Abs(b));
    if (a >= 0) == (b > 0) then Abs(a) / Abs(b) else -(Abs(a) / Abs(b))
  }

  lemma DivNonNegative(x: int, y: int)
    requires x >= 0 && y > 0
    ensures 0 <= x / y
  {
  }

  /** Kotlin `a % b`: the remainder of `Quot`, carrying the sign of `a`. */
  function Rem(a: int, b: int): (r: int)
    requires b != 0
    ensures a >= 0 ==> 0 <= r < Abs(b)
    ensures a < 0 ==> -Abs(b) < r <= 0
    ensures a >= 0 && b > 0 ==> r == a % b
  {
    if a >= 0 then a % Abs(b) else -((-a) % Abs(b))
  }

  /** Kotlin's quotient and remainder recompose the dividend. */
  lemma QuotRem(a: int, b: int)
    requires b != 0
    ensures a == Quot(a, b) * b + Rem(a, b)
  {
    var x, y := Abs(a), Abs(b);
    var q := x / y;
    assert x == q * y + x % y;
    if a >= 0 && b > 0 {
      assert Quot(a, b) == q && Rem(a, b) == x % y;
    } else if a >= 0 {
      assert Quot(a, b) == -q && b == -y && Rem(a, b) == x % y;
      MulNegates(q, -y);
      MulNegatesRight(q, y);
    } else if b > 0 {
      assert Quot(a, b) == -q && b == y && Rem(a, b) == -(x % y);
      MulNegates(q, y);
    } else {
      assert Quot(a, b) == q && b == -y && Rem(a, b) == -(x % y);
      MulNegatesRight(q, y);
    }
  }

  /** A Kotlin remainder by a positive divisor is zero exactly when the Euclidean one is. */
  lemma RemZero(a: int, b: int)
    requires b > 0
    ensures Rem(a, b) == 0 <==> a % b == 0
  {
    if a < 0 {
      var q, r := (-a) / b, (-a) % b;
      assert -a == q * b + r;
      assert Rem(a, b) == -r;
      MulNegates(q, b);
      if r == 0 {
        assert a == (-q) * b + 0;
        DivModOf(-q, 0, b);
      } else {
        MulDistributes(-q, -1, b);
        assert a == (-q - 1) * b + (b - r);
        DivModOf(-q - 1, b - r, b);
      }
    }
  }

  /** `b` raised to the power `e`. */
  function Pow(b: int, e: nat): (r: int)
    ensures b > 0 ==> r > 0
    ensures b != 0 ==> r != 0
  {
    if e == 0 then 1 else b * Pow(b, e - 1)
  }

  lemma {:induction false} PowAdd(b: int, e1: nat, e2: nat)
    ensures Pow(b, e1 + e2) == Pow(b, e1) * Pow(b, e2)
  {
    if e1 > 0 {
      PowAdd(b, e1 - 1, e2);
      assert Pow(b, e1 + e2) == b * Pow(b, e1 - 1 + e2);
    }
  }

  /** `b^e` split at exponent `k`. */
  lemma PowSplit(b: int, e: nat, k: nat)
    requires k <= e
    ensures Pow(b, e) == Pow(b, k) * Pow(b, e - k)
  {
    PowAdd(b, k, e - k);
  }

  lemma {:induction false} PowMul(a: int, b: int, e: nat)
    ensures Pow(a * b, e) == Pow(a, e) * Pow(b, e)
  {
    if e > 0 {
      PowMul(a, b, e - 1);
      calc {
        Pow(a * b, e);
        a * b * Pow(a * b, e - 1);
        a * b * (Pow(a, e - 1) * Pow(b, e - 1));
        (a * Pow(a, e - 1)) * (b * Pow(b, e - 1));
      }
    }
  }

  lemma {:induction false} PowMonotone(b: int, e1: nat, e2: nat)
    requires b >= 1 && e1 <= e2
    ensures Pow(b, e1) <= Pow(b, e2)
  {
    if e1 < e2 {
      PowMonotone(b, e1, e2 - 1);
      assert Pow(b, e2) == b * Pow(b, e2 - 1);
    }
  }

  lemma MulBound(k: int, d: int)
    requires d > 0
    ensures k >= 1 ==> k * d >= d
    ensures k <= -1 ==> k * d <= -d
  {
    if k >= 1 { assert k * d - d == (k - 1) * d; }
    if k <= -1 { assert k * d + d == (k + 1) * d; }
  }

  /** Euclidean division of `q * d + r` recovers `q` and `r` when `0 <= r < d`. */
  lemma DivModOf(q: int, r: int, d: int)
    requires d > 0 && 0 <= r < d
    ensures (q * d + r) / d == q && (q * d + r) % d == r
  {
    var x := q * d + r;
    var k := x / d - q;
    assert x == (x / d) * d + x % d;
    assert k * d == r - x % d;
    MulBound(k, d);
  }

  /** Euclidean division splits `x` into quotient times divisor plus remainder. */
  lemma DivModSplit(x: int, d: int)
    requires d > 0
    ensures x == (x / d) * d + x % d && 0 <= x % d < d
  {
  }

  /** Dividing by `a` and then by `b` is dividing by `a * b`. */
  lemma DivDiv(x: int, a: int, b: int)
    requires a > 0 && b > 0
    ensures x / a / b == x / (a * b)
  {
    var q, r := x / a, x % a;
    var q2, r2 := q / b, q % b;
    assert x == q * a + r;
    assert q == q2 * b + r2;
    MulPositive(a, b);
    MulDistributes(q2 * b, r2, a);
    MulAssociates(q2, b, a);
    assert x == q2 * (a * b) + (r2 * a + r);
    MulMonotone(r2, b - 1, a);
    MulDistributes(b, -1, a);
    assert r2 * a + r < a * b;
    DivModOf(q2, r2 * a + r, a * b);
  }

  lemma MulOne(x: int)
    ensures x * 1 == x
  {
  }

  lemma MulPositive(a: int, b: int)
    requires a > 0 && b > 0
    ensures a * b > 0
  {
  }

  lemma MulDistributes(x: int, y: int, c: int)
    ensures (x + y) * c == x * c + y * c
  {
  }

  lemma MulNegates(x: int, c: int)
    ensures (-x) * c == -(x * c)
  {
  }

  lemma MulNegatesRight(x: int, c: int)
    ensures x * (-c) == -(x * c)
  {
  }

  lemma MulAssociates(x: int, y: int, c: int)
    ensures (x * y) * c == x * (c * y)
  {
  }

  lemma MulMonotone(x: int, y: int, c: int)
    requires x <= y && c >= 0
    ensures x * c <= y * c
  {
    MulDistributes(y - x, x, c);
    if y - x > 0 && c > 0 {
      MulPositive(y - x, c);
    }
  }

  /** `a` divides `b`. */
  predicate Divides(a: int, b: int) {
    if a == 0 then b == 0 else b % a == 0
  }

  /** A divisor of `a` and `b` divides `q * a + b`. */
  lemma DividesCombination(d: nat, a: int, b: int, q: int)
    requires Divides(d, a) && Divides(d, b)
    ensures Divides(d, q * a + b)
  {
    if d > 0 {
      var ka, kb := a / d, b / d;
      assert a == ka * d;
      assert b == kb * d;
      assert q * a + b == (q * ka + kb) * d;
      DivModOf(q * ka + kb, 0, d);
    }
  }

  lemma DividesTransitive(a: int, b: int, c: int)
    requires a > 0 && b > 0 && Divides(a, b) && Divides(b, c)
    ensures Divides(a, c)
  {
    var i, j := b / a, c / b;
    assert b == i * a && c == j * b;
    assert c == (j * i) * a;
    DivModOf(j * i, 0, a);
  }
}
