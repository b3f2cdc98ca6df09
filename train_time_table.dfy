/**
 * `TrainTimeTable` (Lesson 12): trains leaving one base station, each with a
 * time-ordered list of stops. `Time`, `Stop` and `Train` are immutable
 * values; the timetable is a class whose map of trains the methods update.
 */
module TrainTimeTables {
  import opened Wrappers
  import opened Arith

  // ---------------------------------------------------------------- Time

  /** A time of day in hours and minutes. */
  datatype Time = Time(hour: int, minute: int)

  /** What `Time`'s `init` demands: hour 0..23 and minute 0..59. */
  predicate ValidTime(t: Time) {
    0 <= t.hour <= 23 && 0 <= t.minute <= 59
  }

  /** The `Time` constructor: IllegalArgumentException outside the ranges. */
  function MakeTime(hour: int, minute: int): (r: Result<Time>)
    ensures r.Ok? <==> 0 <= hour <= 23 && 0 <= minute <= 59
    ensures r.Ok? ==> r.value == Time(hour, minute) && ValidTime(r.value)
    ensures r.Fail? ==> r.error == IllegalArgument
  {
    if 0 <= hour <= 23 && 0 <= minute <= 59 then Ok(Time(hour, minute)) else Fail(IllegalArgument)
  }

  /** `totalMinutes`: minutes since midnight; a valid time is recovered from them. */
  function Minutes(t: Time): (m: int)
    ensures ValidTime(t) ==> 0 <= m < 1440 && t == Time(m / 60, m % 60)
  {
    ClockDigits(t.hour, t.minute);
    t.hour * 60 + t.minute
  }

  /** Minutes below 60 past a whole hour are split back into the hour and the minute. */
  lemma ClockDigits(h: int, m: int)
    ensures 0 <= m < 60 ==> (h * 60 + m) / 60 == h && (h * 60 + m) % 60 == m
  {
    if 0 <= m < 60 {
      DivModOf(h, m, 60);
    }
  }

  /** A valid time is a minute of the day, and no two valid times share one. */
  lemma MinutesOfDay(a: Time, b: Time)
    requires ValidTime(a) && ValidTime(b)
    ensures 0 <= Minutes(a) < 1440
    ensures Minutes(a) == Minutes(b) <==> a == b
  {
  }

  /** `compareTo`: the sign of the difference of the minute counts. */
  function Compare(a: Time, b: Time): (c: int)
    requires ValidTime(a) && ValidTime(b)
    ensures -1 <= c <= 1
    ensures c == 0 <==> a == b
    ensures c < 0 <==> Minutes(a) < Minutes(b)
  {
    MinutesOfDay(a, b);
    if Minutes(a) < Minutes(b) then -1 else if Minutes(a) > Minutes(b) then 1 else 0
  }

  /**
   * `plus(minutes)`: the hour is `(total / 60) % 24` and the minute
   * `total % 60`, truncating. A non-negative total wraps around midnight;
   * a negative one is left to `Time`'s `init` (see `PlusBackward`).
   */
  function Plus(t: Time, minutes: int): (r: Result<Time>)
    ensures r.Ok? ==> ValidTime(r.value)
    ensures r.Fail? ==> r.error == IllegalArgument
    ensures Minutes(t) + minutes >= 0 ==> r.Ok? && Minutes(r.value) == (Minutes(t) + minutes) % 1440
  {
    var total := Minutes(t) + minutes;
    if total >= 0 then DaySplit(total); MakeTime(Rem(Quot(total, 60), 24), Rem(total, 60))
    else MakeTime(Rem(Quot(total, 60), 24), Rem(total, 60))
  }

  /** `minus(other)`: the signed difference in minutes, less than a day either way, with the sign of `compareTo`. */
  function Difference(a: Time, b: Time): (d: int)
    requires ValidTime(a) && ValidTime(b)
    ensures -1440 < d < 1440
    ensures d < 0 <==> Compare(a, b) < 0
    ensures d == 0 <==> a == b
  {
    MinutesOfDay(a, b);
    MinutesOfDay(b, a);
    Minutes(a) - Minutes(b)
  }

  /**
   * `minus(minutes)`: `plus(-minutes)`. Going back within the day gives the
   * earlier time; going back past midnight fails unless the result is a
   * whole number of days before midnight.
   */
  function MinusMinutes(t: Time, minutes: int): (r: Result<Time>)
    requires ValidTime(t)
    ensures 0 <= minutes <= Minutes(t) ==> r.Ok? && Minutes(r.value) == Minutes(t) - minutes
    ensures minutes > Minutes(t) ==> (r.Ok? <==> (Minutes(t) - minutes) % 1440 == 0)
  {
    if minutes > Minutes(t) then PlusBackward(t, -minutes); Plus(t, -minutes)
    else Plus(t, -minutes)
  }

  /** The clock position of a non-negative minute count. */
  lemma DaySplit(a: int)
    requires a >= 0
    ensures a % 1440 == ((a / 60) % 24) * 60 + a % 60
  {
    var q, r := a / 60, a % 60;
    var q2, h := q / 24, q % 24;
    assert a == q * 60 + r;
    assert q == q2 * 24 + h;
    assert a == q2 * 1440 + (h * 60 + r);
    DivModOf(q2, h * 60 + r, 1440);
  }

  /**
   * A negative total gives a negative minute or hour, which `Time`'s `init`
   * rejects, unless it is a whole number of days: then the result is midnight.
   */
  lemma PlusBackward(t: Time, minutes: int)
    requires Minutes(t) + minutes < 0
    ensures Plus(t, minutes).Ok? <==> (Minutes(t) + minutes) % 1440 == 0
    ensures Plus(t, minutes).Ok? ==> Plus(t, minutes).value == Time(0, 0)
  {
    var total := Minutes(t) + minutes;
    var a := -total;
    DaySplit(a);
    assert Rem(total, 60) == -(a % 60);
    assert Quot(total, 60) == -(a / 60);
    assert Rem(total, 1440) == -(a % 1440);
    RemZero(total, 1440);
  }

  /** Within one day, `plus` splits the total into hours and minutes. */
  lemma PlusWithinDay(t: Time, minutes: int)
    requires 0 <= Minutes(t) + minutes < 1440
    ensures Plus(t, minutes) == Ok(Time((Minutes(t) + minutes) / 60, (Minutes(t) + minutes) % 60))
  {
    var total := Minutes(t) + minutes;
    DivModSplit(total, 60);
    assert Quot(total, 60) == total / 60 < 24;
    assert Rem(total / 60, 24) == total / 60;
    assert Rem(total, 60) == total % 60;
  }

  /** A valid time is recovered from its minute count. */
  lemma TimeOfMinutes(t: Time)
    requires ValidTime(t)
    ensures Time(Minutes(t) / 60, Minutes(t) % 60) == t
  {
    DivModOf(t.hour, t.minute, 60);
  }

  /** Adding the difference of two times to the second gives the first. */
  lemma DifferenceRoundTrip(a: Time, b: Time)
    requires ValidTime(a) && ValidTime(b)
    ensures Plus(b, Difference(a, b)) == Ok(a)
  {
    assert Minutes(b) + Difference(a, b) == Minutes(a);
    PlusWithinDay(b, Difference(a, b));
    TimeOfMinutes(a);
  }

  /** Within one day, subtracting the minutes just added restores the time. */
  lemma PlusMinusRoundTrip(t: Time, minutes: int)
    requires ValidTime(t) && 0 <= Minutes(t) + minutes < 1440
    ensures Plus(t, minutes).Ok? && MinusMinutes(Plus(t, minutes).value, minutes) == Ok(t)
  {
    var total := Minutes(t) + minutes;
    var u := Time(total / 60, total % 60);
    assert Plus(t, minutes) == Ok(u) by {
      PlusWithinDay(t, minutes);
    }
    assert Minutes(u) == total by {
      DivModSplit(total, 60);
    }
    assert Plus(u, -minutes) == Ok(t) by {
      PlusWithinDay(u, -minutes);
      TimeOfMinutes(t);
    }
  }

  // ---------------------------------------------------------------- stable sorting by a key

  ghost predicate SortedBy<T>(s: seq<T>, key: T -> int) {
    forall i, j :: 0 <= i < j < |s| ==> key(s[i]) <= key(s[j])
  }

  /** Each element's key is at most the next one's: the check in `Train`'s `init`. */
  predicate InOrder<T>(s: seq<T>, key: T -> int) {
    forall i :: 0 <= i < |s| - 1 ==> key(s[i]) <= key(s[i + 1])
  }

  lemma {:induction false} InOrderSorted<T>(s: seq<T>, key: T -> int)
    ensures InOrder(s, key) <==> SortedBy(s, key)
    decreases |s|
  {
    if InOrder(s, key) && |s| > 1 {
      var rest := s[1..];
      assert InOrder(rest, key) by {
        forall i | 0 <= i < |rest| - 1 ensures key(rest[i]) <= key(rest[i + 1]) {
          assert rest[i] == s[i + 1] && rest[i + 1] == s[i + 2];
        }
      }
      InOrderSorted(rest, key);
      forall i, j | 0 <= i < j < |s| ensures key(s[i]) <= key(s[j]) {
        if i == 0 {
          assert key(s[0]) <= key(s[1]);
          if j > 1 {
            assert s[1] == rest[0] && s[j] == rest[j - 1];
          }
        } else {
          assert s[i] == rest[i - 1] && s[j] == rest[j - 1];
        }
      }
    }
  }

  /** `indexOfFirst { key(it) > k }`, with `|s|` in place of -1. */
  function FirstAbove<T>(s: seq<T>, k: int, key: T -> int): (i: nat)
    ensures i <= |s|
    ensures forall j :: 0 <= j < i ==> key(s[j]) <= k
    ensures i < |s| ==> key(s[i]) > k
  {
    if s == [] || key(s[0]) > k then 0
    else
      var i := 1 + FirstAbove(s[1..], k, key);
      assert forall j :: 1 <= j < i ==> s[j] == s[1..][j - 1];
      i
  }

  /** Insertion before the first element with a larger key, or at the end when there is none. */
  function InsertBy<T>(s: seq<T>, x: T, key: T -> int): (r: seq<T>)
    ensures |r| == |s| + 1 && multiset(r) == multiset(s) + multiset{x}
  {
    var i := FirstAbove(s, key(x), key);
    assert s == s[..i] + s[i..];
    s[..i] + [x] + s[i..]
  }

  /** Insertion keeps a sorted sequence sorted. */
  lemma InsertSorted<T>(s: seq<T>, x: T, key: T -> int)
    requires SortedBy(s, key)
    ensures SortedBy(InsertBy(s, x, key), key)
  {
    var i := FirstAbove(s, key(x), key);
    var r := InsertBy(s, x, key);
    InsertAt(s, x, key);
    forall p, q | 0 <= p < q < |r| ensures key(r[p]) <= key(r[q]) {
      if q < i {
        assert r[p] == s[p] && r[q] == s[q];
      } else if q == i {
        assert r[q] == x;
      } else if p < i {
        assert r[p] == s[p] && r[q] == s[q - 1];
      } else if p == i {
        assert r[p] == x && r[q] == s[q - 1] && key(x) < key(s[i]);
      } else {
        assert r[p] == s[p - 1] && r[q] == s[q - 1];
      }
    }
  }

  /** Where each element of an insertion comes from. */
  lemma InsertAt<T>(s: seq<T>, x: T, key: T -> int)
    ensures var i := FirstAbove(s, key(x), key); var r := InsertBy(s, x, key);
      && (forall p :: 0 <= p < i ==> r[p] == s[p])
      && r[i] == x
      && (forall p :: i < p < |r| ==> r[p] == s[p - 1])
  {
    SpliceAt(s, x, FirstAbove(s, key(x), key));
  }

  lemma SpliceAt<T>(s: seq<T>, x: T, i: nat)
    requires i <= |s|
    ensures var r := s[..i] + [x] + s[i..];
      && (forall p :: 0 <= p < i ==> r[p] == s[p])
      && r[i] == x
      && (forall p :: i < p < |r| ==> r[p] == s[p - 1])
  {
  }

  /** `sortedBy(key)`: a stable insertion sort. */
  function SortBy<T>(s: seq<T>, key: T -> int): (r: seq<T>)
    ensures |r| == |s| && multiset(r) == multiset(s) && SortedBy(r, key)
    decreases |s|
  {
    if s == [] then []
    else
      var n := |s| - 1;
      var r := SortBy(s[..n], key);
      assert s == s[..n] + [s[n]];
      InsertSorted(r, s[n], key);
      InsertBy(r, s[n], key)
  }

  /** Sorting an already sorted sequence leaves it as it is. */
  lemma {:induction false} SortedUnchanged<T>(s: seq<T>, key: T -> int)
    requires SortedBy(s, key)
    ensures SortBy(s, key) == s
    decreases |s|
  {
    if s != [] {
      var n := |s| - 1;
      var prefix := s[..n];
      assert s == prefix + [s[n]];
      SortedPrefix(s, n, key);
      SortedUnchanged(prefix, key);
      InsertAtEnd(prefix, s[n], key);
    }
  }

  /** An element with a key no smaller than any other goes at the end. */
  lemma InsertAtEnd<T>(s: seq<T>, x: T, key: T -> int)
    requires forall j :: 0 <= j < |s| ==> key(s[j]) <= key(x)
    ensures InsertBy(s, x, key) == s + [x]
  {
    var i := FirstAbove(s, key(x), key);
    assert i == |s|;
    assert s[..i] == s && s[i..] == [];
  }

  lemma SortedPrefix<T>(s: seq<T>, n: nat, key: T -> int)
    requires SortedBy(s, key) && n <= |s|
    ensures SortedBy(s[..n], key)
    ensures n < |s| ==> forall j :: 0 <= j < n ==> key(s[..n][j]) <= key(s[n])
  {
    var prefix := s[..n];
    forall i, j | 0 <= i < j < |prefix| ensures key(prefix[i]) <= key(prefix[j]) {
      assert prefix[i] == s[i] && prefix[j] == s[j];
    }
  }

  /** Replacing one element of a sequence replaces one occurrence in its multiset. */
  lemma UpdateMultiset<T>(s: seq<T>, i: nat, x: T)
    requires i < |s|
    ensures multiset(s[i := x]) == multiset(s) - multiset{s[i]} + multiset{x}
  {
    assert s == s[..i] + [s[i]] + s[i + 1..];
    assert s[i := x] == s[..i] + [x] + s[i + 1..];
  }

  // ---------------------------------------------------------------- Stop and Train

  datatype Stop = Stop(name: string, time: Time)

  datatype Train = Train(name: string, stops: seq<Stop>)

  /** A stop is ordered by its time. */
  function StopKey(s: Stop): int {
    Minutes(s.time)
  }

  /** A train as its constructor leaves it: stops present, valid times, in time order. */
  ghost predicate ValidTrain(t: Train) {
    && |t.stops| > 0
    && SortedBy(t.stops, StopKey)
    && forall i :: 0 <= i < |t.stops| ==> ValidTime(t.stops[i].time)
  }

  /** `Train`'s `init`: IllegalArgumentException for no stops or stops out of time order. */
  function MakeTrain(name: string, stops: seq<Stop>): (r: Result<Train>)
    ensures r.Ok? <==> |stops| > 0 && SortedBy(stops, StopKey)
    ensures r.Ok? ==> r.value == Train(name, stops)
    ensures r.Fail? ==> r.error == IllegalArgument
  {
    InOrderSorted(stops, StopKey);
    if |stops| == 0 || !InOrder(stops, StopKey) then Fail(IllegalArgument) else Ok(Train(name, stops))
  }

  /** `firstStop`. */
  function Departure(t: Train): (s: Stop)
    requires |t.stops| > 0
    ensures s in t.stops
    ensures SortedBy(t.stops, StopKey) ==> forall i :: 0 <= i < |t.stops| ==> StopKey(s) <= StopKey(t.stops[i])
  {
    t.stops[0]
  }

  /** `lastStop`. */
  function Arrival(t: Train): (s: Stop)
    requires |t.stops| > 0
    ensures s in t.stops
    ensures SortedBy(t.stops, StopKey) ==> forall i :: 0 <= i < |t.stops| ==> StopKey(t.stops[i]) <= StopKey(s)
  {
    t.stops[|t.stops| - 1]
  }

  /** `indexOfFirst { it.name == name }`, -1 when there is none. */
  function IndexOfName(stops: seq<Stop>, name: string): (i: int)
    ensures -1 <= i < |stops|
    ensures i >= 0 ==> stops[i].name == name && forall j :: 0 <= j < i ==> stops[j].name != name
    ensures i == -1 <==> forall j :: 0 <= j < |stops| ==> stops[j].name != name
  {
    if stops == [] then -1
    else if stops[0].name == name then 0
    else
      var k := IndexOfName(stops[1..], name);
      assert forall j :: 1 <= j < |stops| ==> stops[j] == stops[1..][j - 1];
      if k == -1 then -1 else k + 1
  }

  /** `hasStop`: some stop has that name, so `indexOfFirst` finds one. */
  function HasStop(t: Train, name: string): (b: bool)
    ensures b <==> IndexOfName(t.stops, name) != -1
  {
    exists i :: 0 <= i < |t.stops| && t.stops[i].name == name
  }

  /** `getStopTime`: the time of the first stop with that name. */
  function GetStopTime(t: Train, name: string): (r: Option<Time>)
    ensures r.Some? <==> HasStop(t, name)
    ensures r.Some? ==> exists i :: 0 <= i < |t.stops| && t.stops[i] == Stop(name, r.value)
  {
    var i := IndexOfName(t.stops, name);
    if i == -1 then None else Some(t.stops[i].time)
  }

  /** `isIntermediateStop`: the first stop with that name is neither the first nor the last stop. */
  function IsIntermediateStop(t: Train, name: string): (b: bool)
    ensures b ==> HasStop(t, name) && t.stops[0].name != name
    ensures b <==> exists i :: 0 < i < |t.stops| - 1 && t.stops[i].name == name &&
                              forall j :: 0 <= j < i ==> t.stops[j].name != name
  {
    var i := IndexOfName(t.stops, name);
    HasStop(t, name) && 0 < i < |t.stops| - 1
  }

  /** `withStopAdded`: the stop is inserted before the first later stop. */
  function WithStopAdded(t: Train, stop: Stop): (r: Train)
    requires ValidTrain(t) && ValidTime(stop.time)
    ensures ValidTrain(r) && r.name == t.name
    ensures multiset(r.stops) == multiset(t.stops) + multiset{stop}
  {
    InsertSorted(t.stops, stop, StopKey);
    var r := Train(t.name, InsertBy(t.stops, stop, StopKey));
    assert forall s :: s in r.stops ==> s in t.stops || s == stop by {
      forall s | s in r.stops ensures s in t.stops || s == stop {
        assert s in multiset(r.stops);
      }
    }
    r
  }

  /** `filterNot { it.name == name }`. */
  function DropName(stops: seq<Stop>, name: string): (r: seq<Stop>)
    ensures forall s :: s in r <==> s in stops && s.name != name
    ensures |r| <= |stops|
    ensures (exists i :: 0 <= i < |stops| && stops[i].name == name) ==> |r| < |stops|
    ensures |stops| > 0 && stops[0].name != name ==> |r| > 0 && r[0] == stops[0]
  {
    if stops == [] then []
    else
      var rest := DropName(stops[1..], name);
      assert forall i :: 1 <= i < |stops| ==> stops[i] == stops[1..][i - 1];
      if stops[0].name == name then rest else [stops[0]] + rest
  }

  lemma ConsSorted<T>(x: T, s: seq<T>, key: T -> int)
    requires SortedBy(s, key) && forall y :: y in s ==> key(x) <= key(y)
    ensures SortedBy([x] + s, key)
  {
    var r := [x] + s;
    forall i, j | 0 <= i < j < |r| ensures key(r[i]) <= key(r[j]) {
      assert r[j] == s[j - 1];
      if i > 0 {
        assert r[i] == s[i - 1];
      }
    }
  }

  /** Dropping stops keeps the rest in time order. */
  lemma {:induction false} DropSorted(stops: seq<Stop>, name: string)
    requires SortedBy(stops, StopKey)
    ensures SortedBy(DropName(stops, name), StopKey)
    decreases |stops|
  {
    if stops != [] {
      var rest := DropName(stops[1..], name);
      assert SortedBy(stops[1..], StopKey) by {
        forall i, j | 0 <= i < j < |stops| - 1 ensures StopKey(stops[1..][i]) <= StopKey(stops[1..][j]) {
          assert stops[1..][i] == stops[i + 1] && stops[1..][j] == stops[j + 1];
        }
      }
      DropSorted(stops[1..], name);
      if stops[0].name != name {
        forall y | y in rest ensures StopKey(stops[0]) <= StopKey(y) {
          assert y in stops[1..];
          var k :| 0 <= k < |stops| - 1 && stops[1..][k] == y;
          assert stops[1..][k] == stops[k + 1];
        }
        ConsSorted(stops[0], rest, StopKey);
      }
    }
  }

  /** `withStopRemoved`: only an intermediate stop may go; every stop of that name is dropped. */
  function WithStopRemoved(t: Train, name: string): (r: Result<Train>)
    requires ValidTrain(t)
    ensures r.Ok? <==> IsIntermediateStop(t, name)
    ensures r.Fail? ==> r.error == IllegalArgument
    ensures r.Ok? ==> ValidTrain(r.value) && r.value.name == t.name
    ensures r.Ok? ==> r.value.stops[0] == t.stops[0] && |r.value.stops| < |t.stops|
    ensures r.Ok? ==> forall s :: s in r.value.stops <==> s in t.stops && s.name != name
  {
    if !IsIntermediateStop(t, name) then Fail(IllegalArgument)
    else
      DropSorted(t.stops, name);
      var stops := DropName(t.stops, name);
      assert forall i :: 0 <= i < |stops| ==> stops[i] in t.stops;
      Ok(Train(t.name, stops))
  }

  /** `withStopUpdated`: the first stop of that name is replaced and the stops are sorted again. */
  function WithStopUpdated(t: Train, stop: Stop): (r: Result<Train>)
    requires ValidTrain(t) && ValidTime(stop.time)
    ensures r.Ok? <==> HasStop(t, stop.name)
    ensures r.Fail? ==> r.error == IllegalArgument
    ensures r.Ok? ==> ValidTrain(r.value) && r.value.name == t.name
    ensures r.Ok? ==> var i := IndexOfName(t.stops, stop.name);
      multiset(r.value.stops) == multiset(t.stops) - multiset{t.stops[i]} + multiset{stop}
  {
    var i := IndexOfName(t.stops, stop.name);
    if i == -1 then Fail(IllegalArgument)
    else
      ResortedValid(t, i, stop);
      Ok(Train(t.name, SortBy(t.stops[i := stop], StopKey)))
  }

  /** Replacing a stop and sorting again gives a valid train with that one stop exchanged. */
  lemma ResortedValid(t: Train, i: nat, stop: Stop)
    requires ValidTrain(t) && ValidTime(stop.time) && i < |t.stops|
    ensures var sorted := SortBy(t.stops[i := stop], StopKey);
      && ValidTrain(Train(t.name, sorted))
      && multiset(sorted) == multiset(t.stops) - multiset{t.stops[i]} + multiset{stop}
  {
    var updated := t.stops[i := stop];
    UpdateMultiset(t.stops, i, stop);
    var sorted := SortBy(updated, StopKey);
    forall j | 0 <= j < |sorted| ensures ValidTime(sorted[j].time) {
      assert sorted[j] in multiset(updated);
    }
  }

  /** For valid times, equal minute counts mean equal times. */
  lemma KeysTellTimes(t: Train, stop: Stop)
    ensures ValidTrain(t) && ValidTime(stop.time) ==>
      forall i :: 0 <= i < |t.stops| ==> (t.stops[i].time == stop.time <==> StopKey(t.stops[i]) == StopKey(stop))
  {
    if ValidTrain(t) && ValidTime(stop.time) {
      forall i | 0 <= i < |t.stops|
        ensures t.stops[i].time == stop.time <==> StopKey(t.stops[i]) == StopKey(stop)
      {
        MinutesOfDay(t.stops[i].time, stop.time);
      }
    }
  }

  /**
   * `validateStopTime`: between departure and arrival, and at no other-named
   * stop's time. For a stop of a new name on a valid train this means strictly
   * between departure and arrival, at a minute no stop of the train uses.
   */
  function FitsBetween(t: Train, stop: Stop): (b: bool)
    requires |t.stops| > 0
    ensures ValidTrain(t) && ValidTime(stop.time) && !HasStop(t, stop.name) ==>
      (b <==> StopKey(Departure(t)) < StopKey(stop) < StopKey(Arrival(t)) &&
              forall i :: 0 <= i < |t.stops| ==> StopKey(t.stops[i]) != StopKey(stop))
  {
    KeysTellTimes(t, stop);
    StopKey(Departure(t)) <= StopKey(stop) <= StopKey(Arrival(t)) &&
    forall i :: 0 <= i < |t.stops| ==> !(t.stops[i].time == stop.time && t.stops[i].name != stop.name)
  }

  /** What `addStop` does to one train: whether a new stop was added, and the new train. */
  datatype Added = Added(isNew: bool, train: Train)

  /** The intermediate-station branches of `addStop`, shared by both variants below. */
  function AddIntermediate(t: Train, stop: Stop): (r: Result<Added>)
    requires ValidTrain(t) && ValidTime(stop.time)
    ensures r.Ok? ==> ValidTrain(r.value.train) && r.value.train.name == t.name
  {
    if !FitsBetween(t, stop) then Fail(IllegalArgument)
    else if HasStop(t, stop.name) then
      match WithStopUpdated(t, stop)
      case Ok(u) => Ok(Added(false, u))
      case Fail(e) => Fail(e)
    else Ok(Added(true, WithStopAdded(t, stop)))
  }

  /**
   * `addStop` on one train as written: the departure and arrival checks look
   * at the stops after they were sorted again, where they always hold.
   */
  function AddStopAsWritten(base: string, t: Train, stop: Stop): (r: Result<Added>)
    requires ValidTrain(t) && ValidTime(stop.time)
    ensures r.Ok? ==> ValidTrain(r.value.train) && r.value.train.name == t.name
  {
    if stop.name == base then
      match WithStopUpdated(t, stop)
      case Fail(e) => Fail(e)
      case Ok(u) =>
        if |u.stops| > 1 && StopKey(u.stops[0]) > StopKey(u.stops[1]) then Fail(IllegalArgument)
        else Ok(Added(false, u))
    else if stop.name == Arrival(t).name then
      match WithStopUpdated(t, stop)
      case Fail(e) => Fail(e)
      case Ok(u) =>
        var n := |u.stops|;
        if n > 1 && StopKey(u.stops[n - 1]) < StopKey(u.stops[n - 2]) then Fail(IllegalArgument)
        else Ok(Added(false, u))
    else AddIntermediate(t, stop)
  }

  /** The departure check as written never fails: any known base-named stop is accepted. */
  lemma DepartureCheckNeverFails(base: string, t: Train, stop: Stop)
    requires ValidTrain(t) && ValidTime(stop.time) && stop.name == base
    ensures AddStopAsWritten(base, t, stop).Ok? <==> HasStop(t, base)
  {
  }

  /**
   * A departure moved past the second stop is accepted, and the base station
   * is then no longer the first stop of the train: the second stop is.
   */
  lemma DepartureMovedPastStop(base: string, t: Train, stop: Stop)
    requires ValidTrain(t) && ValidTime(stop.time) && stop.name == base
    requires |t.stops| >= 2 && t.stops[0].name == base && StopKey(t.stops[1]) < StopKey(stop)
    requires forall j :: 2 <= j < |t.stops| ==> StopKey(t.stops[1]) < StopKey(t.stops[j])
    ensures var r := AddStopAsWritten(base, t, stop);
      r.Ok? && r.value.train.stops[0] == t.stops[1]
  {
    assert HasStop(t, base) by {
      assert t.stops[0].name == base;
    }
    DepartureCheckNeverFails(base, t, stop);
    UpdatedDepartureFirst(t, stop);
  }

  lemma UpdatedDepartureFirst(t: Train, stop: Stop)
    requires ValidTrain(t) && ValidTime(stop.time)
    requires |t.stops| >= 2 && t.stops[0].name == stop.name && StopKey(t.stops[1]) < StopKey(stop)
    requires forall j :: 2 <= j < |t.stops| ==> StopKey(t.stops[1]) < StopKey(t.stops[j])
    ensures WithStopUpdated(t, stop).Ok? && WithStopUpdated(t, stop).value.stops[0] == t.stops[1]
  {
    assert HasStop(t, stop.name) by {
      assert t.stops[0].name == stop.name;
    }
    assert IndexOfName(t.stops, stop.name) == 0;
    var updated := t.stops[0 := stop];
    var u := WithStopUpdated(t, stop).value;
    assert multiset(u.stops) == multiset(updated) && SortedBy(u.stops, StopKey) by {
      UpdateMultiset(t.stops, 0, stop);
    }
    SecondLeast(t.stops, stop);
    LeastFirst(updated, u.stops, t.stops[1]);
  }

  /** With the first stop moved past a strictly earliest second one, the second is the strictly earliest. */
  lemma SecondLeast(s: seq<Stop>, stop: Stop)
    requires |s| >= 2 && StopKey(s[1]) < StopKey(stop)
    requires forall j :: 2 <= j < |s| ==> StopKey(s[1]) < StopKey(s[j])
    ensures s[1] in s[0 := stop]
    ensures forall y :: y in s[0 := stop] && y != s[1] ==> StopKey(y) > StopKey(s[1])
  {
    var updated := s[0 := stop];
    assert updated[1] == s[1];
    forall y | y in updated && y != s[1] ensures StopKey(y) > StopKey(s[1]) {
      var j :| 0 <= j < |updated| && updated[j] == y;
    }
  }

  /** For example: base 8:00, stops at 9:00 and 11:00, and the departure moved to 10:00. */
  lemma DepartureMovedExample(base: string, x: string, d: string)
    requires base != x && base != d && x != d
    ensures var t := Train("T", [Stop(base, Time(8, 0)), Stop(x, Time(9, 0)), Stop(d, Time(11, 0))]);
      && ValidTrain(t)
      && AddStopAsWritten(base, t, Stop(base, Time(10, 0))).Ok?
      && AddStopAsWritten(base, t, Stop(base, Time(10, 0))).value.train.stops[0].name == x
  {
    var t := Train("T", [Stop(base, Time(8, 0)), Stop(x, Time(9, 0)), Stop(d, Time(11, 0))]);
    assert InOrder(t.stops, StopKey);
    InOrderSorted(t.stops, StopKey);
    DepartureMovedPastStop(base, t, Stop(base, Time(10, 0)));
  }

  /** A sorted permutation starts with the element whose key is strictly the least. */
  lemma LeastFirst(s: seq<Stop>, r: seq<Stop>, m: Stop)
    requires multiset(r) == multiset(s) && SortedBy(r, StopKey)
    requires m in s && forall y :: y in s && y != m ==> StopKey(y) > StopKey(m)
    ensures |r| > 0 && r[0] == m
  {
    assert m in multiset(r);
    var k :| 0 <= k < |r| && r[k] == m;
    assert r[0] in multiset(s);
  }

  /**
   * `addStop` on one train with the departure and arrival checks made before
   * the stops are sorted again: a departure after the first intermediate stop,
   * or an arrival before the last one, is an IllegalArgumentException.
   */
  function AddStopChecked(base: string, t: Train, stop: Stop): (r: Result<Added>)
    requires ValidTrain(t) && ValidTime(stop.time)
    ensures r.Ok? ==> ValidTrain(r.value.train) && r.value.train.name == t.name
  {
    var n := |t.stops|;
    if stop.name == base then
      if n > 1 && StopKey(stop) > StopKey(t.stops[1]) then Fail(IllegalArgument)
      else match WithStopUpdated(t, stop)
        case Fail(e) => Fail(e)
        case Ok(u) => Ok(Added(false, u))
    else if stop.name == Arrival(t).name then
      if n > 1 && StopKey(stop) < StopKey(t.stops[n - 2]) then Fail(IllegalArgument)
      else match WithStopUpdated(t, stop)
        case Fail(e) => Fail(e)
        case Ok(u) => Ok(Added(false, u))
    else AddIntermediate(t, stop)
  }

  /** A stop replaced without breaking the time order leaves every other stop where it was. */
  lemma UpdateInPlace(t: Train, stop: Stop, i: nat)
    requires ValidTrain(t) && ValidTime(stop.time)
    requires i < |t.stops| && IndexOfName(t.stops, stop.name) == i
    requires SortedBy(t.stops[i := stop], StopKey)
    ensures WithStopUpdated(t, stop) == Ok(Train(t.name, t.stops[i := stop]))
  {
    SortedUnchanged(t.stops[i := stop], StopKey);
  }

  /** With the checks in place, a new departure time keeps the base station first and the order unchanged. */
  lemma DepartureStaysFirst(base: string, t: Train, stop: Stop)
    requires ValidTrain(t) && ValidTime(stop.time) && stop.name == base && t.stops[0].name == base
    ensures var r := AddStopChecked(base, t, stop);
      r.Ok? <==> |t.stops| == 1 || StopKey(stop) <= StopKey(t.stops[1])
    ensures var r := AddStopChecked(base, t, stop);
      r.Ok? ==> r.value == Added(false, Train(t.name, t.stops[0 := stop]))
  {
    var s := t.stops[0 := stop];
    if |t.stops| == 1 || StopKey(stop) <= StopKey(t.stops[1]) {
      assert SortedBy(s, StopKey) by {
        forall p, q | 0 <= p < q < |s| ensures StopKey(s[p]) <= StopKey(s[q]) {
          if p == 0 {
            assert StopKey(t.stops[1]) <= StopKey(t.stops[q]);
          }
        }
      }
      UpdateInPlace(t, stop, 0);
    }
  }

  /** With the checks in place, a new arrival time keeps the destination last and the order unchanged. */
  lemma ArrivalStaysLast(base: string, t: Train, stop: Stop)
    requires ValidTrain(t) && ValidTime(stop.time) && stop.name != base && |t.stops| > 1
    requires stop.name == Arrival(t).name && IndexOfName(t.stops, stop.name) == |t.stops| - 1
    ensures var r := AddStopChecked(base, t, stop);
      r.Ok? <==> StopKey(t.stops[|t.stops| - 2]) <= StopKey(stop)
    ensures var r := AddStopChecked(base, t, stop);
      r.Ok? ==> r.value == Added(false, Train(t.name, t.stops[|t.stops| - 1 := stop]))
  {
    var n := |t.stops|;
    var s := t.stops[n - 1 := stop];
    if StopKey(t.stops[n - 2]) <= StopKey(stop) {
      assert SortedBy(s, StopKey) by {
        forall p, q | 0 <= p < q < |s| ensures StopKey(s[p]) <= StopKey(s[q]) {
          if q == n - 1 && p < n - 2 {
            assert StopKey(t.stops[p]) <= StopKey(t.stops[n - 2]);
          }
        }
      }
      UpdateInPlace(t, stop, n - 1);
    }
  }

  /**
   * `addStop` reports a new stop only for a name the train did not have, and
   * the stop then sits strictly between departure and arrival.
   */
  lemma NewStopIsIntermediate(base: string, t: Train, stop: Stop)
    requires ValidTrain(t) && ValidTime(stop.time)
    requires AddStopChecked(base, t, stop).Ok? && AddStopChecked(base, t, stop).value.isNew
    ensures stop.name != base && !HasStop(t, stop.name)
    ensures var u := AddStopChecked(base, t, stop).value.train;
      |u.stops| == |t.stops| + 1 && IsIntermediateStop(u, stop.name)
  {
    assert stop.name != base && stop.name != Arrival(t).name && FitsBetween(t, stop) && !HasStop(t, stop.name)
      && AddStopChecked(base, t, stop).value.train == WithStopAdded(t, stop);
    InsertedIntermediate(t, stop);
  }

  /** A new stop that fits between departure and arrival lands strictly inside the train. */
  lemma InsertedIntermediate(t: Train, stop: Stop)
    requires ValidTrain(t) && ValidTime(stop.time) && FitsBetween(t, stop) && !HasStop(t, stop.name)
    ensures |WithStopAdded(t, stop).stops| == |t.stops| + 1 && IsIntermediateStop(WithStopAdded(t, stop), stop.name)
  {
    var n := |t.stops|;
    var i := FirstAbove(t.stops, StopKey(stop), StopKey);
    var u := WithStopAdded(t, stop);
    InsertAt(t.stops, stop, StopKey);
    assert 0 < i < n by {
      assert t.stops[0].name != stop.name && t.stops[n - 1].name != stop.name;
      MinutesOfDay(stop.time, t.stops[0].time);
      MinutesOfDay(stop.time, t.stops[n - 1].time);
    }
    assert IndexOfName(u.stops, stop.name) == i by {
      assert u.stops[i] == stop;
      forall j | 0 <= j < i ensures u.stops[j].name != stop.name {
        assert u.stops[j] == t.stops[j];
      }
    }
    assert HasStop(u, stop.name) by {
      assert u.stops[i].name == stop.name;
    }
  }

  /** An intermediate stop outside the train's times, or at another stop's time, is refused. */
  lemma BadStopTimeRefused(base: string, t: Train, stop: Stop)
    requires ValidTrain(t) && ValidTime(stop.time)
    requires stop.name != base && stop.name != Arrival(t).name
    ensures !FitsBetween(t, stop) ==> AddStopChecked(base, t, stop) == Fail(IllegalArgument)
    ensures StopKey(stop) < StopKey(Departure(t)) ==> AddStopChecked(base, t, stop) == Fail(IllegalArgument)
    ensures StopKey(stop) > StopKey(Arrival(t)) ==> AddStopChecked(base, t, stop) == Fail(IllegalArgument)
    ensures (exists i :: 0 <= i < |t.stops| && t.stops[i].time == stop.time && t.stops[i].name != stop.name)
      ==> AddStopChecked(base, t, stop) == Fail(IllegalArgument)
  {
  }

  // ---------------------------------------------------------------- the timetable

  /** A train is ordered by its departure time. */
  function DepartureKey(t: Train): int {
    if |t.stops| > 0 then StopKey(t.stops[0]) else 0
  }

  /** A train is ordered by its time at `name`. */
  function ArrivalKey(name: string): Train -> int {
    t => match GetStopTime(t, name)
      case Some(time) => Minutes(time)
      case None => 0
  }

  /** Trains filed under their own names: as many trains as names. */
  lemma {:induction false} NamedCount(m: map<string, Train>)
    ensures (forall n :: n in m ==> m[n].name == n) ==> |m.Values| == |m.Keys|
    decreases |m.Keys|
  {
    if m != map[] && forall n :: n in m ==> m[n].name == n {
      var k :| k in m;
      var rest := m - {k};
      NamedCount(rest);
      assert m.Keys == rest.Keys + {k};
      assert m.Values == rest.Values + {m[k]};
      assert m[k] !in rest.Values;
    }
  }

  class TrainTimeTable {
    /** `baseStationName`. */
    const base: string
    /** `trains`: each train under its own name. */
    var trains: map<string, Train>

    ghost predicate Valid()
      reads this
    {
      forall n :: n in trains ==> trains[n].name == n && ValidTrain(trains[n])
    }

    constructor (base: string)
      ensures Valid() && this.base == base && trains == map[]
    {
      this.base := base;
      trains := map[];
    }

    /**
     * `addTrain`: a new name gets the two-stop train from the base station to
     * the destination; an arrival before the departure is an IllegalArgumentException.
     */
    method AddTrain(name: string, depart: Time, destination: Stop) returns (r: Result<bool>)
      requires Valid() && ValidTime(depart) && ValidTime(destination.time)
      modifies this
      ensures Valid()
      ensures name in old(trains) ==> r == Ok(false) && trains == old(trains)
      ensures name !in old(trains) && Minutes(destination.time) < Minutes(depart) ==>
        r == Fail(IllegalArgument) && trains == old(trains)
      ensures name !in old(trains) && Minutes(destination.time) >= Minutes(depart) ==>
        r == Ok(true) && trains == old(trains)[name := Train(name, [Stop(base, depart), destination])]
    {
      if name in trains {
        return Ok(false);
      }
      var stops := [Stop(base, depart), destination];
      if Minutes(destination.time) < Minutes(depart) {
        return Fail(IllegalArgument);
      }
      trains := trains[name := Train(name, stops)];
      r := Ok(true);
    }

    /** `removeTrain`. */
    method RemoveTrain(name: string) returns (removed: bool)
      requires Valid()
      modifies this
      ensures Valid()
      ensures removed <==> name in old(trains)
      ensures trains == old(trains) - {name}
    {
      removed := name in trains;
      trains := trains - {name};
    }

    /** `addStop`: IllegalArgumentException for an unknown train, otherwise the train's outcome. */
    method AddStop(name: string, stop: Stop) returns (r: Result<bool>)
      requires Valid() && ValidTime(stop.time)
      modifies this
      ensures Valid()
      ensures name !in old(trains) ==> r == Fail(IllegalArgument) && trains == old(trains)
      ensures name in old(trains) ==>
        match AddStopAsWritten(base, old(trains)[name], stop)
        case Ok(a) => r == Ok(a.isNew) && trains == old(trains)[name := a.train]
        case Fail(e) => r == Fail(e) && trains == old(trains)
    {
      if name !in trains {
        return Fail(IllegalArgument);
      }
      var outcome := AddStopAsWritten(base, trains[name], stop);
      match outcome
      case Ok(a) =>
        trains := trains[name := a.train];
        r := Ok(a.isNew);
      case Fail(e) =>
        r := Fail(e);
    }

    /** `removeStop`: only an intermediate stop, which is neither the base station nor the destination. */
    method RemoveStop(name: string, stopName: string) returns (removed: bool)
      requires Valid()
      modifies this
      ensures Valid()
      ensures removed <==> (name in old(trains) && stopName != base &&
        stopName != Arrival(old(trains)[name]).name && IsIntermediateStop(old(trains)[name], stopName))
      ensures removed ==> trains == old(trains)[name := WithStopRemoved(old(trains)[name], stopName).value]
      ensures !removed ==> trains == old(trains)
    {
      if name !in trains {
        return false;
      }
      var t := trains[name];
      if stopName == base || stopName == Arrival(t).name {
        return false;
      }
      if !IsIntermediateStop(t, stopName) {
        return false;
      }
      trains := trains[name := WithStopRemoved(t, stopName).value];
      removed := true;
    }

    /** The trains in `trains` accepted by `keep`, in some order, each once. */
    method Collect(keep: Train -> bool) returns (r: seq<Train>)
      requires Valid()
      ensures forall t :: t in r <==> t in trains.Values && keep(t)
      ensures forall i, j :: 0 <= i < j < |r| ==> r[i] != r[j]
    {
      r := [];
      var rest := trains.Keys;
      while rest != {}
        invariant rest <= trains.Keys
        invariant forall t :: t in r <==> t.name in trains && t.name !in rest && trains[t.name] == t && keep(t)
        invariant forall i, j :: 0 <= i < j < |r| ==> r[i] != r[j]
        decreases rest
      {
        var n :| n in rest;
        var t := trains[n];
        if keep(t) {
          r := r + [t];
        }
        rest := rest - {n};
      }
    }

    /** `trains()`: every train, sorted by departure time. */
    method AllTrains() returns (r: seq<Train>)
      requires Valid()
      ensures forall t :: t in r <==> t in trains.Values
      ensures forall i, j :: 0 <= i < j < |r| ==> r[i] != r[j]
      ensures SortedBy(r, DepartureKey)
    {
      var all := Collect(_ => true);
      r := SortBy(all, DepartureKey);
      Distinct(all, r);
    }

    /**
     * `trains(currentTime, destinationName)`: the trains leaving no earlier
     * than `current` that stop at `destination`, sorted by their time there.
     */
    method TrainsTo(current: Time, destination: string) returns (r: seq<Train>)
      requires Valid()
      ensures forall t :: t in r <==> (t in trains.Values &&
        StopKey(Departure(t)) >= Minutes(current) && HasStop(t, destination))
      ensures forall i, j :: 0 <= i < j < |r| ==> r[i] != r[j]
      ensures SortedBy(r, ArrivalKey(destination))
    {
      var found := Collect(t => DepartureKey(t) >= Minutes(current) && HasStop(t, destination));
      r := SortBy(found, ArrivalKey(destination));
      Distinct(found, r);
    }

    /** `getTrain`. */
    function GetTrain(name: string): (r: Option<Train>)
      reads this
      requires Valid()
      ensures r.Some? <==> name in trains
      ensures r.Some? ==> r.value == trains[name]
      ensures r.Some? ==> r.value.name == name && ValidTrain(r.value)
    {
      if name in trains then Some(trains[name]) else None
    }

    /** `getTrainStops`. */
    function GetTrainStops(name: string): (r: Option<seq<Stop>>)
      reads this
      requires Valid()
      ensures r.Some? <==> name in trains
      ensures r.Some? ==> r.value == trains[name].stops
      ensures r.Some? ==> |r.value| > 0 && SortedBy(r.value, StopKey)
    {
      if name in trains then Some(trains[name].stops) else None
    }

    /** `clear`. */
    method Clear()
      modifies this
      ensures Valid() && trains == map[]
    {
      trains := map[];
    }

    /** `size`: the number of names, which is the number of distinct trains. */
    function Size(): (n: nat)
      reads this
      ensures n == 0 <==> trains == map[]
      ensures Valid() ==> n == |trains.Values|
    {
      NamedCount(trains);
      |trains|
    }

    /** `isEmpty`. */
    function IsEmpty(): (b: bool)
      reads this
      ensures b <==> Size() == 0
    {
      trains == map[]
    }

    /** `equals`: the same base station and the same trains under the same names. */
    method Equals(other: TrainTimeTable) returns (r: bool)
      ensures r <==> base == other.base && trains == other.trains
    {
      if this == other {
        return true;
      }
      if base != other.base || trains.Keys != other.trains.Keys {
        return false;
      }
      var rest := trains.Keys;
      while rest != {}
        invariant rest <= trains.Keys
        invariant forall n :: n in trains && n !in rest ==> trains[n] == other.trains[n]
        decreases rest
      {
        var n :| n in rest;
        if trains[n] != other.trains[n] {
          return false;
        }
        rest := rest - {n};
      }
      r := true;
    }
  }

  /** A permutation of a sequence without repeats has no repeats. */
  lemma Distinct<T>(a: seq<T>, b: seq<T>)
    requires multiset(a) == multiset(b)
    requires forall i, j :: 0 <= i < j < |a| ==> a[i] != a[j]
    ensures forall x :: x in a <==> x in b
    ensures forall i, j :: 0 <= i < j < |b| ==> b[i] != b[j]
  {
    forall x ensures x in a <==> x in b {
      assert x in a <==> x in multiset(a);
    }
    forall i, j | 0 <= i < j < |b| ensures b[i] != b[j] {
      if b[i] == b[j] {
        assert multiset{b[i], b[j]} <= multiset(b) by {
          assert b == b[..i] + [b[i]] + b[i + 1..j] + [b[j]] + b[j + 1..];
        }
        assert multiset(a)[b[i]] >= 2;
        SingleCount(a, b[i]);
        assert false;
      }
    }
  }

  /** An element of a sequence without repeats occurs in it at most once. */
  lemma {:induction false} SingleCount<T>(a: seq<T>, x: T)
    requires forall i, j :: 0 <= i < j < |a| ==> a[i] != a[j]
    ensures multiset(a)[x] <= 1
    decreases |a|
  {
    if a != [] {
      var rest := a[1..];
      assert a == [a[0]] + rest;
      SingleCount(rest, x);
      if a[0] == x {
        assert x !in rest;
      }
    }
  }
}
