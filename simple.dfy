/** One-line integer drills on clock times and decimal digits (src/Lesson1/Simple.kt). */
module Simple {
  import opened Arith

  /** `seconds`: seconds since midnight of the clock time `hours:minutes:seconds`. */
  function Seconds(hours: int, minutes: int, seconds: int): (r: int)
    ensures hours >= 0 && 0 <= minutes < 60 && 0 <= seconds < 60 ==>
      r >= 0 && r / 3600 == hours && r % 3600 / 60 == minutes && r % 60 == seconds
  {
    var r := hours * 3600 + minutes * 60 + seconds;
    if hours >= 0 && 0 <= minutes < 60 && 0 <= seconds < 60 then
      DivModOf(hours, minutes * 60 + seconds, 3600);
      DivModOf(minutes, seconds, 60);
      DivModOf(hours * 60 + minutes, seconds, 60);
      assert r == (hours * 60 + minutes) * 60 + seconds;
      r
    else r
  }

  /** `thirdDigit`: the hundreds digit, negative for a negative number as Kotlin's `/` and `%` give it. */
  function ThirdDigit(number: int): (r: int)
    ensures -9 <= r <= 9
    ensures Abs(r) == Abs(number) / 100 % 10
    ensures number >= 0 ==> r >= 0
    ensures number < 0 ==> r <= 0
  {
    Rem(Quot(number, 100), 10)
  }

  /** `travelMinutes`: minutes from departure to arrival, negative when the arrival clock time is earlier. */
  function TravelMinutes(hoursDepart: int, minutesDepart: int, hoursArrive: int, minutesArrive: int): (r: int)
    ensures 0 <= minutesDepart < 60 && 0 <= minutesArrive < 60 ==>
      (r < 0 <==> hoursArrive < hoursDepart || (hoursArrive == hoursDepart && minutesArrive < minutesDepart))
    ensures r == Seconds(hoursArrive, minutesArrive, 0) / 60 - Seconds(hoursDepart, minutesDepart, 0) / 60
  {
    var departure := hoursDepart * 60 + minutesDepart;
    var arrival := hoursArrive * 60 + minutesArrive;
    assert Seconds(hoursArrive, minutesArrive, 0) == arrival * 60;
    assert Seconds(hoursDepart, minutesDepart, 0) == departure * 60;
    DivModOf(arrival, 0, 60);
    DivModOf(departure, 0, 60);
    arrival - departure
  }

  /** `numberRevert`: the three decimal digits in reverse order. */
  function NumberRevert(number: int): (r: int)
    ensures 0 <= number <= 999 ==>
      0 <= r <= 999 && r / 100 == number % 10 && r / 10 % 10 == number / 10 % 10 && r % 10 == number / 100
  {
    var hundreds := Quot(number, 100);
    var tens := Rem(Quot(number, 10), 10);
    var units := Rem(number, 10);
    var r := units * 100 + tens * 10 + hundreds;
    if 0 <= number <= 999 then
      DivModOf(units, tens * 10 + hundreds, 100);
      DivModOf(units * 10 + tens, hundreds, 10);
      DivModOf(units, tens, 10);
      assert r == (units * 10 + tens) * 10 + hundreds;
      r
    else r
  }

  /** A number below 1000 is determined by its three decimal digits. */
  lemma ThreeDigits(x: int)
    requires 0 <= x <= 999
    ensures x == x / 100 * 100 + x / 10 % 10 * 10 + x % 10
  {
    var a, y := x / 100, x % 100;
    assert x == a * 100 + y;
    assert y == y / 10 * 10 + y % 10;
    assert y / 10 < 10;
    assert x == (a * 10 + y / 10) * 10 + y % 10;
    DivModOf(a * 10 + y / 10, y % 10, 10);
    DivModOf(a, y / 10, 10);
  }

  /** On three-digit numbers (leading zeros allowed) reverting twice is the identity. */
  lemma NumberRevertInvolution(number: int)
    requires 0 <= number <= 999
    ensures NumberRevert(NumberRevert(number)) == number
  {
    var rr := NumberRevert(NumberRevert(number));
    ThreeDigits(number);
    ThreeDigits(rr);
  }
}
