/** Boolean and calendar drills (src/Lesson2/Task2.kt). */
module Task2 {
  import opened Arith
  import opened Wrappers
  import opened Text

  /**
   * `isNumberHappy`: the first two digits of a four-digit number have the same
   * sum as the last two. For a four-digit number this is stated on its
   * decimal rendering.
   */
  function IsNumberHappy(number: int): (happy: bool)
    ensures 1000 <= number <= 9999 ==>
      var s := NatToString(number);
      |s| == 4 && (happy <==> DigitValue(s[0]) + DigitValue(s[1]) == DigitValue(s[2]) + DigitValue(s[3]))
  {
    var first := Quot(number, 1000);
    var second := Rem(Quot(number, 100), 10);
    var third := Rem(Quot(number, 10), 10);
    var fourth := Rem(number, 10);
    if 1000 <= number <= 9999 then
      FourDigits(number);
      first + second == third + fourth
    else first + second == third + fourth
  }

  /** The decimal rendering of a four-digit number, digit by digit. */
  lemma FourDigits(n: int)
    requires 1000 <= n <= 9999
    ensures var s := NatToString(n);
      |s| == 4 && DigitValue(s[0]) == n / 1000 && DigitValue(s[1]) == n / 100 % 10 &&
      DigitValue(s[2]) == n / 10 % 10 && DigitValue(s[3]) == n % 10
  {
    DivDiv(n, 10, 10);
    DivDiv(n, 100, 10);
    var s := NatToString(n);
    assert s == NatToString(n / 10) + [DigitChar(n % 10)];
    assert NatToString(n / 10) == NatToString(n / 100) + [DigitChar(n / 10 % 10)];
    assert NatToString(n / 100) == NatToString(n / 1000) + [DigitChar(n / 100 % 10)];
    assert NatToString(n / 1000) == [DigitChar(n / 1000)];
  }

  /** `queenThreatens`: the queens share a row, a column or a diagonal. */
  function QueenThreatens(x1: int, y1: int, x2: int, y2: int): (r: bool)
    ensures r <==> x1 == x2 || y1 == y2 || x1 - y1 == x2 - y2 || x1 + y1 == x2 + y2
  {
    var sameRowOrColumn := x1 == x2 || y1 == y2;
    var sameDiagonal := Abs(x1 - x2) == Abs(y1 - y2);
    sameRowOrColumn || sameDiagonal
  }

  lemma QueenThreatensSymmetric(x1: int, y1: int, x2: int, y2: int)
    ensures QueenThreatens(x1, y1, x2, y2) == QueenThreatens(x2, y2, x1, y1)
  {
  }

  /** `isLeapYear`: the Gregorian rule. */
  function IsLeapYear(year: int): (leap: bool)
    ensures leap <==> year % 4 == 0 && (year % 100 != 0 || year % 400 == 0)
  {
    LeapRule(year);
    Rem(year, 400) == 0 || (Rem(year, 4) == 0 && Rem(year, 100) != 0)
  }

  /** A multiple of 400 is a multiple of 4 and of 100. */
  lemma LeapRule(year: int)
    ensures (Rem(year, 400) == 0 || (Rem(year, 4) == 0 && Rem(year, 100) != 0))
      <==> year % 4 == 0 && (year % 100 != 0 || year % 400 == 0)
  {
    RemZero(year, 400);
    RemZero(year, 100);
    RemZero(year, 4);
    if year % 400 == 0 {
      var k := year / 400;
      assert year == (100 * k) * 4 + 0;
      DivModOf(100 * k, 0, 4);
      assert year == (4 * k) * 100 + 0;
      DivModOf(4 * k, 0, 100);
    }
  }

  /** The Gregorian calendar repeats every 400 years. */
  lemma LeapCycle(year: int)
    ensures IsLeapYear(year + 400) == IsLeapYear(year)
  {
    DivModOf(year / 4 + 100, year % 4, 4);
    DivModOf(year / 100 + 4, year % 100, 100);
    DivModOf(year / 400 + 1, year % 400, 400);
  }

  /** `daysInMonth`: the month's length; a month outside 1..12 throws IllegalArgumentException. */
  function DaysInMonth(month: int, year: int): (r: Result<int>)
    ensures r.Ok? <==> 1 <= month <= 12
    ensures r.Fail? ==> r.error == IllegalArgument
    ensures r.Ok? ==> 28 <= r.value <= 31
    ensures r.Ok? ==> (r.value == 29 <==> month == 2 && IsLeapYear(year))
    ensures r.Ok? ==> (r.value == 28 <==> month == 2 && !IsLeapYear(year))
    ensures r.Ok? ==> (r.value == 30 <==> month in {4, 6, 9, 11})
  {
    if month in {1, 3, 5, 7, 8, 10, 12} then Ok(31)
    else if month in {4, 6, 9, 11} then Ok(30)
    else if month == 2 then Ok(if IsLeapYear(year) then 29 else 28)
    else Fail(IllegalArgument)
  }

  /** Total length of the months `first..12`. */
  function DaysFrom(first: int, year: int): (n: int)
    requires 1 <= first <= 13
    decreases 13 - first
  {
    if first == 13 then 0 else DaysInMonth(first, year).value + DaysFrom(first + 1, year)
  }

  /** The twelve months add up to 365 days, or 366 in a leap year. */
  lemma YearLength(year: int)
    ensures DaysFrom(1, year) == if IsLeapYear(year) then 366 else 365
  {
    assert DaysFrom(13, year) == 0;
    assert DaysFrom(3, year) == 306;
  }

  /** A brick face p × q fits the r × s hole in one of its two orientations. */
  predicate FaceFits(p: int, q: int, r: int, s: int) {
    (p <= r && q <= s) || (p <= s && q <= r)
  }

  /** Three sides in ascending order; one of the six orderings of the input. */
  function Sort3(a: int, b: int, c: int): (t: (int, int, int))
    ensures t.0 <= t.1 <= t.2
    ensures t == (a, b, c) || t == (a, c, b) || t == (b, a, c) || t == (b, c, a) || t == (c, a, b) || t == (c, b, a)
  {
    if a <= b && a <= c then (a, Min(b, c), Max(b, c))
    else if b <= a && b <= c then (b, Min(a, c), Max(a, c))
    else (c, Min(a, b), Max(a, b))
  }

  /**
   * `brickPasses`: the two smallest sides of the brick against the sorted
   * hole sides. This holds exactly when some face of the brick fits the
   * hole with its edges parallel to the hole's.
   */
  function BrickPasses(a: int, b: int, c: int, r: int, s: int): (passes: bool)
    ensures passes <==> FaceFits(a, b, r, s) || FaceFits(a, c, r, s) || FaceFits(b, c, r, s)
  {
    var holeSide1 := Min(r, s);
    var holeSide2 := Max(r, s);
    var sides := Sort3(a, b, c);
    sides.0 <= holeSide1 && sides.1 <= holeSide2
  }

  /** Permuting the brick sides or turning the hole does not change the answer. */
  lemma BrickPassesSymmetric(a: int, b: int, c: int, r: int, s: int)
    ensures BrickPasses(a, b, c, r, s) == BrickPasses(b, a, c, r, s)
    ensures BrickPasses(a, b, c, r, s) == BrickPasses(a, c, b, r, s)
    ensures BrickPasses(a, b, c, r, s) == BrickPasses(a, b, c, s, r)
  {
  }
}
