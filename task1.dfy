/** Branching drills: Russian age words, rook and bishop threats, segment overlap (src/Lesson2/Task1.kt). */
module Task1 {
  import opened Arith
  import opened Text

  /**
   * The noun that follows an age in Russian: "год" after a last digit 1,
   * "года" after 2..4, "лет" otherwise, and "лет" for every number ending in
   * 11..14. Kotlin's `%` keeps the sign, so every negative number gets "лет".
   */
  function AgeWord(age: int): (w: string)
    ensures w == "год" <==> age >= 0 && age % 10 == 1 && age % 100 != 11
    ensures w == "года" <==> age >= 0 && 2 <= age % 10 <= 4 && !(12 <= age % 100 <= 14)
    ensures w == "лет" <==> age < 0 || !(age % 10 in {1, 2, 3, 4}) || 11 <= age % 100 <= 14
  {
    var lastDigit := Rem(age, 10);
    var lastTwoDigits := Rem(age, 100);
    LastDigits(age);
    if 11 <= lastTwoDigits <= 14 then "лет"
    else if lastDigit == 1 then "год"
    else if 2 <= lastDigit <= 4 then "года"
    else "лет"
  }

  /** The remainders `age % 10` and `age % 100` are negative for negative ages; the last digit is that of the tens pair. */
  lemma LastDigits(age: int)
    ensures age >= 0 ==> Rem(age, 10) == age % 10 && Rem(age, 100) == age % 100
    ensures age < 0 ==> Rem(age, 10) <= 0 && Rem(age, 100) <= 0
    ensures age >= 0 ==> age % 100 % 10 == age % 10
  {
    var x := Abs(age);
    DivModOf(x / 100 * 10 + x % 100 / 10, x % 100 % 10, 10);
    assert x == (x / 100 * 10 + x % 100 / 10) * 10 + x % 100 % 10;
  }

  /** `ageDescription`: the age in digits, a space and the noun the Russian plural rule asks for. */
  function AgeDescription(age: int): (r: string)
    ensures |r| > |IntToString(age)| + 1 && r[..|IntToString(age)| + 1] == IntToString(age) + " "
    ensures r[|IntToString(age)| + 1..] == "год" <==> age >= 0 && age % 10 == 1 && age % 100 != 11
    ensures r[|IntToString(age)| + 1..] == "года" <==> age >= 0 && 2 <= age % 10 <= 4 && !(12 <= age % 100 <= 14)
    ensures r[|IntToString(age)| + 1..] == "лет" <==> age < 0 || !(age % 10 in {1, 2, 3, 4}) || 11 <= age % 100 <= 14
  {
    IntToString(age) + " " + AgeWord(age)
  }

  /** A rook on (x, y) attacks along its row and column. */
  predicate RookAttacks(x: int, y: int, targetX: int, targetY: int) {
    x == targetX || y == targetY
  }

  /** A bishop on (x, y) attacks along both diagonals. */
  predicate BishopAttacks(x: int, y: int, targetX: int, targetY: int) {
    x - y == targetX - targetY || x + y == targetX + targetY
  }

  /** `whichRookThreatens`: bit 0 of the answer is rook 1's threat, bit 1 rook 2's. */
  function WhichRookThreatens(kingX: int, kingY: int, rookX1: int, rookY1: int, rookX2: int, rookY2: int): (r: int)
    ensures 0 <= r <= 3
    ensures r % 2 == 1 <==> RookAttacks(rookX1, rookY1, kingX, kingY)
    ensures r / 2 == 1 <==> RookAttacks(rookX2, rookY2, kingX, kingY)
  {
    var threatens1 := kingX == rookX1 || kingY == rookY1;
    var threatens2 := kingX == rookX2 || kingY == rookY2;
    if threatens1 && threatens2 then 3
    else if threatens1 then 1
    else if threatens2 then 2
    else 0
  }

  /** `rookOrBishopThreatens`: bit 0 is the rook's threat, bit 1 the bishop's (`|dx| == |dy|`). */
  function RookOrBishopThreatens(kingX: int, kingY: int, rookX: int, rookY: int, bishopX: int, bishopY: int): (r: int)
    ensures 0 <= r <= 3
    ensures r % 2 == 1 <==> RookAttacks(rookX, rookY, kingX, kingY)
    ensures r / 2 == 1 <==> BishopAttacks(bishopX, bishopY, kingX, kingY)
  {
    var rookThreatens := kingX == rookX || kingY == rookY;
    var bishopThreatens := Abs(kingX - bishopX) == Abs(kingY - bishopY);
    if rookThreatens && bishopThreatens then 3
    else if rookThreatens then 1
    else if bishopThreatens then 2
    else 0
  }

  /** x lies on the closed segment [a, b]. */
  predicate OnSegment(x: int, a: int, b: int) {
    a <= x <= b
  }

  /**
   * `segmentLength`: the length of the overlap of [a, b] and [c, d], or -1
   * when they share no point. When the result is non-negative, the common
   * points are exactly an interval of that length.
   */
  function SegmentLength(a: int, b: int, c: int, d: int): (r: int)
    ensures r >= -1
    ensures r == -1 <==> forall x :: !(OnSegment(x, a, b) && OnSegment(x, c, d))
    ensures r >= 0 ==> forall x :: OnSegment(x, a, b) && OnSegment(x, c, d) <==> OnSegment(x, Max(a, c), Max(a, c) + r)
  {
    var maxStart := Max(a, c);
    var minEnd := Min(b, d);
    if maxStart <= minEnd then
      assert OnSegment(maxStart, a, b) && OnSegment(maxStart, c, d);
      minEnd - maxStart
    else -1
  }

  /** The overlap does not depend on which segment is named first. */
  lemma SegmentLengthSymmetric(a: int, b: int, c: int, d: int)
    ensures SegmentLength(a, b, c, d) == SegmentLength(c, d, a, b)
  {
  }
}
