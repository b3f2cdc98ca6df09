/**
 * The hexagonal grid of src/Lesson8/task1/Hex.kt. A hex is a pair `(x, y)`;
 * the cube coordinates add `z = -x - y`, and the distance is the largest
 * difference along the three axes. The six neighbours of a hex are the
 * offsets `(±1, 0)`, `(0, ±1)`, `(1, -1)` and `(-1, 1)`.
 */
module Hex {
  import opened Arith
  import opened Text
  import opened Wrappers

  datatype HexPoint = HexPoint(x: int, y: int)

  datatype Hexagon = Hexagon(center: HexPoint, radius: int)

  datatype HexSegment = HexSegment(begin: HexPoint, end: HexPoint)

  datatype Direction = RIGHT | UP_RIGHT | UP_LEFT | LEFT | DOWN_LEFT | DOWN_RIGHT | INCORRECT

  // ------------------------------------------------------------ distance

  /** `HexPoint.distance`: the largest of `|dx|`, `|dy|` and `|dz|`. */
  function Dist(p: HexPoint, q: HexPoint): (d: nat)
    ensures d == 0 <==> p == q
    ensures Abs(p.x - q.x) <= d && Abs(p.y - q.y) <= d && Abs(p.x - q.x + p.y - q.y) <= d
  {
    var z1, z2 := -p.x - p.y, -q.x - q.y;
    Max(Max(Abs(p.x - q.x), Abs(p.y - q.y)), Abs(z1 - z2))
  }

  /** The distance does not depend on the order of the points. */
  lemma DistSymmetric(p: HexPoint, q: HexPoint)
    ensures Dist(p, q) == Dist(q, p)
  {
  }

  /** A bound on all three coordinate differences bounds the distance. */
  lemma DistAtMost(p: HexPoint, q: HexPoint, k: int)
    requires Abs(p.x - q.x) <= k && Abs(p.y - q.y) <= k && Abs(p.x - q.x + p.y - q.y) <= k
    ensures Dist(p, q) <= k
  {
  }

  /** The distance obeys the triangle inequality. */
  lemma DistTriangle(p: HexPoint, q: HexPoint, r: HexPoint)
    ensures Dist(p, r) <= Dist(p, q) + Dist(q, r)
  {
    var a, b := Dist(p, q), Dist(q, r);
    assert Abs(p.x - r.x) <= a + b;
    assert Abs(p.y - r.y) <= a + b;
    assert Abs(p.x - r.x + p.y - r.y) <= a + b;
    DistAtMost(p, r, a + b);
  }

  /** A neighbour is at distance one exactly when it is one of the six offsets. */
  lemma DistOne(p: HexPoint, q: HexPoint)
    ensures Dist(p, q) == 1 <==> (q.x - p.x, q.y - p.y) in {(1, 0), (0, 1), (-1, 1), (-1, 0), (0, -1), (1, -1)}
  {
  }

  /** `Hexagon.distance`: the centre distance less both radii, or 0 if that is not positive. */
  function HexagonDistance(h1: Hexagon, h2: Hexagon): (d: int)
    ensures d >= 0
    ensures d == 0 <==> Dist(h1.center, h2.center) <= h1.radius + h2.radius
  {
    var centerDistance := Dist(h1.center, h2.center);
    var sumOfRadii := h1.radius + h2.radius;
    if centerDistance > sumOfRadii then centerDistance - sumOfRadii else 0
  }

  /**
   * `Hexagon.contains`: the point is at most the radius away from the
   * centre, which is to say that the one-hex hexagon at the point is at
   * distance 0 from `h`.
   */
  function Contains(h: Hexagon, p: HexPoint): (b: bool)
    ensures b <==> HexagonDistance(h, Hexagon(p, 0)) == 0
    ensures p == h.center ==> (b <==> h.radius >= 0)
  {
    Dist(h.center, p) <= h.radius
  }

  /** The distance between hexagons does not depend on their order. */
  lemma HexagonDistanceSymmetric(h1: Hexagon, h2: Hexagon)
    ensures HexagonDistance(h1, h2) == HexagonDistance(h2, h1)
  {
    DistSymmetric(h1.center, h2.center);
  }

  /** No point of one hexagon is closer to a point of the other than the distance between the hexagons. */
  lemma HexagonDistanceBelow(h1: Hexagon, h2: Hexagon, p: HexPoint, q: HexPoint)
    requires Contains(h1, p) && Contains(h2, q)
    ensures Dist(p, q) >= HexagonDistance(h1, h2)
  {
    DistTriangle(h1.center, p, h2.center);
    DistTriangle(p, q, h2.center);
    DistSymmetric(h2.center, q);
  }

  /** Two hexagons with a common point are at distance 0. */
  lemma HexagonsMeet(h1: Hexagon, h2: Hexagon, p: HexPoint)
    requires Contains(h1, p) && Contains(h2, p)
    ensures HexagonDistance(h1, h2) == 0
  {
    HexagonDistanceBelow(h1, h2, p, p);
  }

  // ------------------------------------------------------------ segments and directions

  /** `HexSegment.isValid`: a segment of positive length along one of the three axes. */
  function IsValid(s: HexSegment): (valid: bool)
    ensures valid <==> (s.begin != s.end &&
      (s.end.x == s.begin.x || s.end.y == s.begin.y || s.end.x - s.begin.x == -(s.end.y - s.begin.y)))
  {
    var dx, dy := s.end.x - s.begin.x, s.end.y - s.begin.y;
    if dx == 0 then dy != 0
    else if dy == 0 then dx != 0
    else dx == -dy
  }

  /** A segment and its reverse are valid together. */
  lemma ValidReversed(s: HexSegment)
    ensures IsValid(HexSegment(s.end, s.begin)) == IsValid(s)
  {
  }

  /** `HexSegment.direction` as written. */
  function SegmentDirection(s: HexSegment): (d: Direction)
    ensures d == INCORRECT <==> !IsValid(s)
    ensures d != UP_RIGHT && d != DOWN_LEFT
  {
    if !IsValid(s) then INCORRECT
    else
      var dx, dy := s.end.x - s.begin.x, s.end.y - s.begin.y;
      if dx > 0 && dy == 0 then RIGHT
      else if dx > 0 && dy > 0 then UP_RIGHT
      else if dx == 0 && dy > 0 then UP_LEFT
      else if dx < 0 && dy == 0 then LEFT
      else if dx < 0 && dy < 0 then DOWN_LEFT
      else if dx == 0 && dy < 0 then DOWN_RIGHT
      else if dx > 0 && dy < 0 then DOWN_RIGHT
      else if dx < 0 && dy > 0 then UP_LEFT
      else INCORRECT
  }

  /** `HexSegment.equals`: the same two ends, in either order, so the same multiset of ends. */
  function SegmentEquals(s: HexSegment, t: HexSegment): (e: bool)
    ensures e <==> multiset{s.begin, s.end} == multiset{t.begin, t.end}
  {
    (s.begin == t.begin && s.end == t.end) || (s.end == t.begin && s.begin == t.end)
  }

  /** Segment equality is an equivalence relation, and a segment equals its reverse. */
  lemma SegmentEqualsEquivalence(s: HexSegment, t: HexSegment, u: HexSegment)
    ensures SegmentEquals(s, s) && SegmentEquals(s, HexSegment(s.end, s.begin))
    ensures SegmentEquals(s, t) ==> SegmentEquals(t, s)
    ensures SegmentEquals(s, t) && SegmentEquals(t, u) ==> SegmentEquals(s, u)
  {
  }

  /**
   * `HexSegment.hashCode`: the sum of the hashes of the two ends, for a
   * given hash of hexes. Every segment equal to `s` sums to the same value.
   */
  function SegmentHash(s: HexSegment, hash: HexPoint -> int): (v: int)
    ensures forall t :: SegmentEquals(s, t) ==> v == hash(t.begin) + hash(t.end)
  {
    hash(s.begin) + hash(s.end)
  }

  /** Equal segments have equal hashes, whatever the hash of hexes. */
  lemma EqualSegmentsHashAlike(s: HexSegment, t: HexSegment, hash: HexPoint -> int)
    requires SegmentEquals(s, t)
    ensures SegmentHash(s, hash) == SegmentHash(t, hash)
  {
  }

  /** Equal segments are valid together. */
  lemma EqualSegmentsValidAlike(s: HexSegment, t: HexSegment)
    requires SegmentEquals(s, t)
    ensures IsValid(s) == IsValid(t)
  {
    ValidReversed(s);
  }

  /** `Direction.opposite`. */
  function Opposite(d: Direction): (o: Direction)
    ensures o == INCORRECT <==> d == INCORRECT
    ensures o != d || d == INCORRECT
  {
    match d
    case RIGHT => LEFT
    case UP_RIGHT => DOWN_LEFT
    case UP_LEFT => DOWN_RIGHT
    case LEFT => RIGHT
    case DOWN_LEFT => UP_RIGHT
    case DOWN_RIGHT => UP_LEFT
    case INCORRECT => INCORRECT
  }

  /** The opposite of the opposite is the direction itself. */
  lemma OppositeInvolution(d: Direction)
    ensures Opposite(Opposite(d)) == d
  {
  }

  /** Reversing a segment reverses its direction. */
  lemma DirectionReversed(s: HexSegment)
    ensures SegmentDirection(HexSegment(s.end, s.begin)) == Opposite(SegmentDirection(s))
  {
    ValidReversed(s);
  }

  /** The position of a direction among `Direction.values()`. */
  function Ordinal(d: Direction): (i: nat)
    ensures i <= 6 && (i == 6 <==> d == INCORRECT)
  {
    match d
    case RIGHT => 0
    case UP_RIGHT => 1
    case UP_LEFT => 2
    case LEFT => 3
    case DOWN_LEFT => 4
    case DOWN_RIGHT => 5
    case INCORRECT => 6
  }

  /** `Direction.values()[i]`. */
  function FromOrdinal(i: nat): (d: Direction)
    requires i <= 6
    ensures Ordinal(d) == i
  {
    [RIGHT, UP_RIGHT, UP_LEFT, LEFT, DOWN_LEFT, DOWN_RIGHT, INCORRECT][i]
  }

  /** `Direction.next`: IllegalArgumentException for INCORRECT, otherwise the next of the six directions, cyclically. */
  function Next(d: Direction): (r: Result<Direction>)
    ensures r.Fail? <==> d == INCORRECT
    ensures r.Fail? ==> r.error == IllegalArgument
    ensures r.Ok? ==> Ordinal(r.value) == (Ordinal(d) + 1) % 6
  {
    if d == INCORRECT then Fail(IllegalArgument) else Ok(FromOrdinal((Ordinal(d) + 1) % 6))
  }

  /** `Next` applied `n` times, stopping at the first failure. */
  function NextTimes(d: Direction, n: nat): Result<Direction>
    decreases n
  {
    if n == 0 then Ok(d)
    else match Next(d)
      case Fail(e) => Fail(e)
      case Ok(d') => NextTimes(d', n - 1)
  }

  /** Turning `n` times moves `n` places on among the six directions. */
  lemma {:induction false} NextTimesOrdinal(d: Direction, n: nat)
    requires d != INCORRECT
    ensures NextTimes(d, n).Ok? && Ordinal(NextTimes(d, n).value) == (Ordinal(d) + n) % 6
    decreases n
  {
    if n > 0 {
      var d' := Next(d).value;
      var o, o' := Ordinal(d), Ordinal(d');
      assert NextTimes(d, n) == NextTimes(d', n - 1) && o' == (o + 1) % 6;
      NextTimesOrdinal(d', n - 1);
      assert ((o + 1) % 6 + (n - 1)) % 6 == (o + n) % 6 by {
        ModSixShift(o, n);
      }
    }
  }

  /** One step on and `n - 1` further is `n` steps on, modulo 6. */
  lemma ModSixShift(a: int, n: nat)
    requires n > 0
    ensures ((a + 1) % 6 + (n - 1)) % 6 == (a + n) % 6
  {
    var q := (a + 1) / 6;
    assert (a + 1) % 6 + (n - 1) == (a + n) - 6 * q;
  }

  /** Adding a multiple of 6 to a number below 6 leaves it unchanged modulo 6. */
  lemma ModSixMultiple(o: int, n: nat)
    requires 0 <= o < 6 && n % 6 == 0
    ensures (o + n) % 6 == o
  {
    assert o + n == o + 6 * (n / 6);
  }

  /** Six turns by 60 degrees, or any multiple of six, give the direction back. */
  lemma NextSixTimes(d: Direction, n: nat)
    requires d != INCORRECT && n % 6 == 0
    ensures NextTimes(d, n) == Ok(d)
  {
    NextTimesOrdinal(d, n);
    ModSixMultiple(Ordinal(d), n);
    OrdinalInjective(NextTimes(d, n).value, d);
  }

  /** Different directions have different ordinals. */
  lemma OrdinalInjective(d1: Direction, d2: Direction)
    requires Ordinal(d1) == Ordinal(d2)
    ensures d1 == d2
  {
  }

  /** The examples of the documentation: RIGHT turns to UP_RIGHT, UP_LEFT to LEFT, LEFT to DOWN_LEFT. */
  lemma NextExamples()
    ensures Next(RIGHT) == Ok(UP_RIGHT) && Next(UP_LEFT) == Ok(LEFT) && Next(LEFT) == Ok(DOWN_LEFT)
  {
  }

  /** `Direction.isParallel`: equal or opposite, and never for INCORRECT. */
  function IsParallel(d: Direction, other: Direction): (parallel: bool)
    ensures parallel ==> d != INCORRECT && other != INCORRECT
  {
    if d == INCORRECT || other == INCORRECT then false
    else d == other || Opposite(d) == other
  }

  /** Parallelism does not depend on the order of the two directions. */
  lemma ParallelSymmetric(d: Direction, other: Direction)
    ensures IsParallel(d, other) == IsParallel(other, d)
  {
  }

  /** A direction is parallel to a direction and to its opposite only. */
  lemma ParallelOpposite(d: Direction, other: Direction)
    requires d != INCORRECT
    ensures IsParallel(d, other) == IsParallel(Opposite(d), other)
  {
  }

  // ------------------------------------------------------------ moving

  /** The offset a move by `k` in a direction other than INCORRECT adds, as written. */
  function Offset(d: Direction, k: int): (HexPoint)
    requires d != INCORRECT
  {
    match d
    case RIGHT => HexPoint(k, 0)
    case UP_RIGHT => HexPoint(k, k)
    case UP_LEFT => HexPoint(0, k)
    case LEFT => HexPoint(-k, 0)
    case DOWN_LEFT => HexPoint(-k, -k)
    case DOWN_RIGHT => HexPoint(0, -k)
  }

  /**
   * `HexPoint.move` as written: IllegalArgumentException for INCORRECT; a
   * negative distance moves the other way.
   */
  function Move(p: HexPoint, direction: Direction, distance: int): (r: Result<HexPoint>)
    ensures r.Fail? <==> direction == INCORRECT
    ensures r.Fail? ==> r.error == IllegalArgument
  {
    if direction == INCORRECT then Fail(IllegalArgument)
    else
      var effectiveDistance := if distance < 0 then -distance else distance;
      var effectiveDirection := if distance < 0 then Opposite(direction) else direction;
      var o := Offset(effectiveDirection, effectiveDistance);
      Ok(HexPoint(p.x + o.x, p.y + o.y))
  }

  /** A move by zero gives the same point. */
  lemma MoveZero(p: HexPoint, d: Direction)
    requires d != INCORRECT
    ensures Move(p, d, 0) == Ok(p)
  {
  }

  /** A move by `k` and then by `-k` in the same direction returns to the start. */
  lemma MoveBack(p: HexPoint, d: Direction, k: int)
    requires d != INCORRECT
    ensures Move(Move(p, d, k).value, d, -k) == Ok(p)
  {
  }

  /**
   * The moves as written disagree with the documentation: `35` (y = 3,
   * x = 5) moved UP_LEFT by 2 gives `55` instead of `53`, `45` moved
   * DOWN_LEFT by 4 gives `01` instead of `05`, and a move UP_RIGHT by one
   * goes two hexes away. The first documented example, `30` moved RIGHT by 3
   * giving `33`, holds.
   */
  lemma MoveDisagreesWithDocumentation()
    ensures Move(HexPoint(0, 3), RIGHT, 3) == Ok(HexPoint(3, 3))
    ensures Move(HexPoint(5, 3), UP_LEFT, 2) == Ok(HexPoint(5, 5)) && HexPoint(5, 5) != HexPoint(3, 5)
    ensures Move(HexPoint(5, 4), DOWN_LEFT, 4) == Ok(HexPoint(1, 0)) && HexPoint(1, 0) != HexPoint(5, 0)
    ensures Dist(HexPoint(0, 0), Move(HexPoint(0, 0), UP_RIGHT, 1).value) == 2
  {
  }

  /**
   * The valid segment from `(0, 0)` to `(1, -1)` has direction DOWN_RIGHT,
   * but a move DOWN_RIGHT by its length from its begin does not reach its end.
   */
  lemma DirectionDisagreesWithMove()
    ensures var s := HexSegment(HexPoint(0, 0), HexPoint(1, -1));
      IsValid(s) && SegmentDirection(s) == DOWN_RIGHT && Dist(s.begin, s.end) == 1 &&
      Move(s.begin, DOWN_RIGHT, 1) == Ok(HexPoint(0, -1))
  {
  }

  /** The unit step of each direction on the documented grid. */
  function UnitFixed(d: Direction): (HexPoint)
    requires d != INCORRECT
  {
    match d
    case RIGHT => HexPoint(1, 0)
    case UP_RIGHT => HexPoint(0, 1)
    case UP_LEFT => HexPoint(-1, 1)
    case LEFT => HexPoint(-1, 0)
    case DOWN_LEFT => HexPoint(0, -1)
    case DOWN_RIGHT => HexPoint(1, -1)
  }

  /** `move` with the unit steps of the documented grid. */
  function MoveFixed(p: HexPoint, direction: Direction, distance: int): (r: Result<HexPoint>)
    ensures r.Fail? <==> direction == INCORRECT
    ensures r.Fail? ==> r.error == IllegalArgument
    ensures r.Ok? ==> Dist(p, r.value) == Abs(distance)
  {
    if direction == INCORRECT then Fail(IllegalArgument)
    else
      var u := UnitFixed(direction);
      Ok(HexPoint(p.x + u.x * distance, p.y + u.y * distance))
  }

  /** `direction` naming the unit step of the documented grid a valid segment runs along. */
  function SegmentDirectionFixed(s: HexSegment): (d: Direction)
    ensures d == INCORRECT <==> !IsValid(s)
  {
    if !IsValid(s) then INCORRECT
    else
      var dx, dy := s.end.x - s.begin.x, s.end.y - s.begin.y;
      if dx > 0 && dy == 0 then RIGHT
      else if dx == 0 && dy > 0 then UP_RIGHT
      else if dx < 0 && dy > 0 then UP_LEFT
      else if dx < 0 && dy == 0 then LEFT
      else if dx == 0 && dy < 0 then DOWN_LEFT
      else DOWN_RIGHT
  }

  /** The documented moves hold with the fixed unit steps. */
  lemma MoveFixedExamples()
    ensures MoveFixed(HexPoint(0, 3), RIGHT, 3) == Ok(HexPoint(3, 3))
    ensures MoveFixed(HexPoint(5, 3), UP_LEFT, 2) == Ok(HexPoint(3, 5))
    ensures MoveFixed(HexPoint(5, 4), DOWN_LEFT, 4) == Ok(HexPoint(5, 0))
  {
  }

  /** Moving from the begin of a valid segment in its direction by its length reaches its end. */
  lemma MoveAlongSegment(s: HexSegment)
    requires IsValid(s)
    ensures MoveFixed(s.begin, SegmentDirectionFixed(s), Dist(s.begin, s.end)) == Ok(s.end)
  {
  }

  /** With the fixed unit steps, `next` turns the step by 60 degrees: `(x, y)` becomes `(-y, x + y)`. */
  lemma NextRotates(d: Direction)
    requires d != INCORRECT
    ensures var u, v := UnitFixed(d), UnitFixed(Next(d).value); v == HexPoint(-u.y, u.x + u.y)
  {
  }

  /** With the fixed unit steps, the opposite direction is the opposite step. */
  lemma OppositeFixed(d: Direction)
    requires d != INCORRECT
    ensures var u, v := UnitFixed(d), UnitFixed(Opposite(d)); v == HexPoint(-u.x, -u.y)
  {
  }

  // ------------------------------------------------------------ searching for hexagons

  /**
   * The candidate centres of one column `o.x + dx` of a search: the hexes
   * `(o.x + dx, o.y + dy)` for `dy` from `-r` up to `hi - 1`, in that order,
   * keeping only those at distance `r` from `o` when `onRing` holds.
   */
  function ColumnCandidates(o: HexPoint, r: nat, onRing: bool, dx: int, hi: int): (cs: seq<HexPoint>)
    requires -(r as int) <= hi <= r + 1
    decreases hi + r
  {
    if hi == -(r as int) then []
    else
      var c := HexPoint(o.x + dx, o.y + hi - 1);
      ColumnCandidates(o, r, onRing, dx, hi - 1) + (if !onRing || Dist(o, c) == r then [c] else [])
  }

  /** The candidate centres of the columns `dx` from `-r` up to `hi - 1`. */
  function SquareCandidates(o: HexPoint, r: nat, onRing: bool, hi: int): (cs: seq<HexPoint>)
    requires -(r as int) <= hi <= r + 1
    decreases hi + r
  {
    if hi == -(r as int) then []
    else SquareCandidates(o, r, onRing, hi - 1) + ColumnCandidates(o, r, onRing, hi - 1, r + 1)
  }

  /** All candidate centres of a search at radius `r` around `o`. */
  function Candidates(o: HexPoint, r: nat, onRing: bool): seq<HexPoint> {
    SquareCandidates(o, r, onRing, r + 1)
  }

  /** One candidate more in a column. */
  lemma ColumnNext(o: HexPoint, r: nat, onRing: bool, dx: int, dy: int)
    requires -(r as int) <= dy <= r
    ensures var c := HexPoint(o.x + dx, o.y + dy);
      ColumnCandidates(o, r, onRing, dx, dy + 1) ==
      ColumnCandidates(o, r, onRing, dx, dy) + (if !onRing || Dist(o, c) == r then [c] else [])
  {
    assert HexPoint(o.x + dx, o.y + (dy + 1) - 1) == HexPoint(o.x + dx, o.y + dy);
  }

  /** One column more. */
  lemma SquareNext(o: HexPoint, r: nat, onRing: bool, dx: int)
    requires -(r as int) <= dx <= r
    ensures SquareCandidates(o, r, onRing, dx + 1) ==
      SquareCandidates(o, r, onRing, dx) + ColumnCandidates(o, r, onRing, dx, r + 1)
  {
  }

  /** What a candidate of one column is. */
  lemma {:induction false} ColumnMembers(o: HexPoint, r: nat, onRing: bool, dx: int, hi: int, c: HexPoint)
    requires -(r as int) <= hi <= r + 1
    ensures c in ColumnCandidates(o, r, onRing, dx, hi) <==>
      c.x == o.x + dx && -(r as int) <= c.y - o.y < hi && (!onRing || Dist(o, c) == r)
    decreases hi + r
  {
    if hi > -(r as int) {
      ColumnMembers(o, r, onRing, dx, hi - 1, c);
    }
  }

  /** What a candidate of the first columns is. */
  lemma {:induction false} SquareMembers(o: HexPoint, r: nat, onRing: bool, hi: int, c: HexPoint)
    requires -(r as int) <= hi <= r + 1
    ensures c in SquareCandidates(o, r, onRing, hi) <==>
      -(r as int) <= c.x - o.x < hi && -(r as int) <= c.y - o.y <= r && (!onRing || Dist(o, c) == r)
    decreases hi + r
  {
    if hi > -(r as int) {
      SquareMembers(o, r, onRing, hi - 1, c);
      ColumnMembers(o, r, onRing, hi - 1, r + 1, c);
    }
  }

  /**
   * The candidates around `o` are the hexes at most `r` away along `x` and
   * along `y`; on the ring they are exactly the hexes at distance `r`.
   */
  lemma CandidateMembers(o: HexPoint, r: nat, onRing: bool, c: HexPoint)
    ensures c in Candidates(o, r, onRing) <==>
      Abs(c.x - o.x) <= r && Abs(c.y - o.y) <= r && (!onRing || Dist(o, c) == r)
  {
    SquareMembers(o, r, onRing, r + 1, c);
  }

  /** The hexes at distance `r` from `o` are the candidates of the ring. */
  lemma RingMembers(o: HexPoint, r: nat, c: HexPoint)
    ensures c in Candidates(o, r, true) <==> Dist(o, c) == r
  {
    CandidateMembers(o, r, true, c);
  }

  /**
   * The nested `dx`/`dy` loops that collect the candidate centres, in the
   * order the loops visit them. The Kotlin code collects them in a
   * `mutableSetOf`, whose iteration order is insertion order; the
   * candidates are distinct hexes, so the set is this sequence.
   */
  method CollectCandidates(o: HexPoint, radius: nat, onRing: bool) returns (centers: seq<HexPoint>)
    ensures centers == Candidates(o, radius, onRing)
  {
    centers := [];
    var dx := -(radius as int);
    while dx <= radius
      invariant -(radius as int) <= dx <= radius + 1
      invariant centers == SquareCandidates(o, radius, onRing, dx)
    {
      ghost var columns := centers;
      var dy := -(radius as int);
      while dy <= radius
        invariant -(radius as int) <= dy <= radius + 1
        invariant centers == columns + ColumnCandidates(o, radius, onRing, dx, dy)
      {
        var candidate := HexPoint(o.x + dx, o.y + dy);
        ColumnNext(o, radius, onRing, dx, dy);
        if !onRing || Dist(o, candidate) == radius {
          assert columns + ColumnCandidates(o, radius, onRing, dx, dy) + [candidate] ==
            columns + (ColumnCandidates(o, radius, onRing, dx, dy) + [candidate]);
          centers := centers + [candidate];
        }
        dy := dy + 1;
      }
      SquareNext(o, radius, onRing, dx);
      dx := dx + 1;
    }
  }

  /** The first of some centres that `b` and `c` are both exactly `r` away from. */
  function FirstOnBorder(centers: seq<HexPoint>, b: HexPoint, c: HexPoint, r: int): (found: Option<HexPoint>)
    ensures found.Some? ==> found.value in centers && Dist(b, found.value) == r && Dist(c, found.value) == r
    ensures found.None? ==> forall p :: p in centers ==> !(Dist(b, p) == r && Dist(c, p) == r)
  {
    if centers == [] then None
    else
      var earlier := FirstOnBorder(centers[..|centers| - 1], b, c, r);
      var last := centers[|centers| - 1];
      if earlier.Some? then earlier
      else if Dist(b, last) == r && Dist(c, last) == r then Some(last)
      else None
  }

  /** Looking one centre further. */
  lemma FirstOnBorderStep(centers: seq<HexPoint>, i: nat, b: HexPoint, c: HexPoint, r: int)
    requires i < |centers|
    ensures FirstOnBorder(centers[..i + 1], b, c, r) ==
      if FirstOnBorder(centers[..i], b, c, r).Some? then FirstOnBorder(centers[..i], b, c, r)
      else if Dist(b, centers[i]) == r && Dist(c, centers[i]) == r then Some(centers[i])
      else None
  {
    assert centers[..i + 1][..i] == centers[..i];
  }

  /** The hexagon of radius `r` centred at the first of some centres with `b` and `c` on its border. */
  function BorderHexagon(centers: seq<HexPoint>, b: HexPoint, c: HexPoint, r: int): (h: Option<Hexagon>)
    ensures h.Some? ==> h.value.radius == r
  {
    match FirstOnBorder(centers, b, c, r)
    case None => None
    case Some(center) => Some(Hexagon(center, r))
  }

  /** The hexagon of radius `r` through `a`, `b` and `c` with the first centre on the ring around `a`, if any. */
  function RingHexagon(a: HexPoint, b: HexPoint, c: HexPoint, r: nat): Option<Hexagon> {
    BorderHexagon(Candidates(a, r, true), b, c, r)
  }

  /**
   * The hexagon a search by increasing radius keeps in the end: `found(r)` is
   * the hexagon found at radius `r`, and the first radius below `n` that
   * finds one decides, since a later radius is never smaller.
   */
  function FirstFound(found: nat -> Option<Hexagon>, n: nat): Option<Hexagon> {
    if n == 0 then None
    else
      var earlier := FirstFound(found, n - 1);
      if earlier.Some? then earlier else found(n - 1)
  }

  /** What is kept was found at some radius below `n`. */
  lemma {:induction false} FirstFoundFrom(found: nat -> Option<Hexagon>, n: nat) returns (k: nat)
    requires FirstFound(found, n).Some?
    ensures k < n && found(k) == FirstFound(found, n)
  {
    if FirstFound(found, n - 1).Some? {
      k := FirstFoundFrom(found, n - 1);
    } else {
      k := n - 1;
    }
  }

  /** A radius below `n` that finds a hexagon bounds the kept radius. */
  lemma {:induction false} FirstFoundLeast(found: nat -> Option<Hexagon>, n: nat, r: nat)
    requires r < n && found(r).Some?
    requires forall k: nat :: found(k).Some? ==> found(k).value.radius == k
    ensures FirstFound(found, n).Some? && FirstFound(found, n).value.radius <= r
  {
    if r + 1 < n {
      FirstFoundLeast(found, n - 1, r);
    } else if FirstFound(found, n - 1).Some? {
      var k := FirstFoundFrom(found, n - 1);
    }
  }

  /** One radius more. */
  lemma FirstFoundNext(found: nat -> Option<Hexagon>, n: nat)
    ensures FirstFound(found, n + 1) == if FirstFound(found, n).Some? then FirstFound(found, n) else found(n)
  {
  }

  /** Once a hexagon is kept, later radii do not change it. */
  lemma {:induction false} FirstFoundStays(found: nat -> Option<Hexagon>, n: nat, m: nat)
    requires n <= m && FirstFound(found, n).Some?
    ensures FirstFound(found, m) == FirstFound(found, n)
    decreases m - n
  {
    if n < m {
      FirstFoundStays(found, n, m - 1);
    }
  }

  /** The hexagon the search finds among the radii below `n`: the smallest radius with a centre, the first such centre. */
  function FoundThrough(a: HexPoint, b: HexPoint, c: HexPoint, n: nat): Option<Hexagon> {
    FirstFound(RingsThrough(a, b, c), n)
  }

  /** The hexagon each radius finds. */
  function RingsThrough(a: HexPoint, b: HexPoint, c: HexPoint): nat -> Option<Hexagon> {
    (r: nat) => RingHexagon(a, b, c, r)
  }

  /** One more radius: the hexagon kept so far, or else the one this radius finds. */
  lemma FoundThroughNext(a: HexPoint, b: HexPoint, c: HexPoint, n: nat)
    ensures FoundThrough(a, b, c, n + 1) ==
      if FoundThrough(a, b, c, n).Some? then FoundThrough(a, b, c, n) else RingHexagon(a, b, c, n)
  {
    FirstFoundNext(RingsThrough(a, b, c), n);
  }

  /** Twice the largest distance between the three points: the largest radius tried. */
  function MaxThroughRadius(a: HexPoint, b: HexPoint, c: HexPoint): nat {
    Max(Max(Dist(a, b), Dist(b, c)), Dist(a, c)) * 2
  }

  /** What `hexagonByThreePoints` returns. */
  function ThroughThreePoints(a: HexPoint, b: HexPoint, c: HexPoint): Option<Hexagon> {
    if a == b && b == c then Some(Hexagon(a, 0))
    else FoundThrough(a, b, c, MaxThroughRadius(a, b, c) + 1)
  }

  /**
   * The loop of `hexagonByThreePoints` over the candidate centres of one
   * radius, all on the ring of that radius around `a`: a centre as far from
   * `b` and `c` as from `a` gives a hexagon containing the three points with
   * all three on its border, which replaces the best one so far when its
   * radius is smaller.
   */
  method ScanBorder(a: HexPoint, b: HexPoint, c: HexPoint, possibleCenters: seq<HexPoint>, radius: int,
                    best: Option<Hexagon>, bestRadius: int)
    returns (result: Option<Hexagon>, minRadius: int)
    requires forall p :: p in possibleCenters ==> Dist(a, p) == radius
    requires best.Some? ==> best.value.radius < radius
    requires radius < IntMax && bestRadius == if best.Some? then best.value.radius else IntMax
    ensures result == if best.Some? then best else BorderHexagon(possibleCenters, b, c, radius)
    ensures minRadius == if result.Some? then result.value.radius else IntMax
  {
    result, minRadius := best, bestRadius;
    var i := 0;
    while i < |possibleCenters|
      invariant 0 <= i <= |possibleCenters|
      invariant result == if best.Some? then best else BorderHexagon(possibleCenters[..i], b, c, radius)
      invariant minRadius == if result.Some? then result.value.radius else IntMax
    {
      FirstOnBorderStep(possibleCenters, i, b, c, radius);
      result, minRadius := BorderStep(a, b, c, possibleCenters[i], radius, result, minRadius);
      i := i + 1;
    }
    assert possibleCenters[..|possibleCenters|] == possibleCenters;
  }

  /**
   * One candidate centre of `hexagonByThreePoints`: the hexagon of radius
   * `radius` around it replaces the best one so far when all three points lie
   * on its border and no hexagon of this or a smaller radius was found.
   */
  method BorderStep(a: HexPoint, b: HexPoint, c: HexPoint, center: HexPoint, radius: int,
                    best: Option<Hexagon>, bestRadius: int)
    returns (result: Option<Hexagon>, minRadius: int)
    requires Dist(a, center) == radius && radius < IntMax
    requires best.Some? ==> best.value.radius <= radius
    requires bestRadius == if best.Some? then best.value.radius else IntMax
    ensures result == if best.Some? then best
                      else if Dist(b, center) == radius && Dist(c, center) == radius then Some(Hexagon(center, radius))
                      else None
    ensures minRadius == if result.Some? then result.value.radius else IntMax
  {
    result, minRadius := best, bestRadius;
    if Dist(b, center) == radius && Dist(c, center) == radius {
      var hexagon := Hexagon(center, radius);
      BorderFromCenter(a, b, c, center, radius);
      if Contains(hexagon, a) && Contains(hexagon, b) && Contains(hexagon, c) {
        var isOnBorder := Dist(center, a) == radius && Dist(center, b) == radius && Dist(center, c) == radius;
        if isOnBorder && radius < minRadius {
          minRadius := radius;
          result := Some(hexagon);
        }
      }
    }
  }

  /**
   * One radius of `hexagonByThreePoints`: the candidate centres on the ring
   * around `a` and the scan over them.
   */
  method ScanRing(a: HexPoint, b: HexPoint, c: HexPoint, radius: nat, best: Option<Hexagon>, bestRadius: int)
    returns (result: Option<Hexagon>, minRadius: int)
    requires best.Some? ==> best.value.radius < radius
    requires radius < IntMax && bestRadius == if best.Some? then best.value.radius else IntMax
    ensures result == if best.Some? then best else RingHexagon(a, b, c, radius)
    ensures minRadius == if result.Some? then result.value.radius else IntMax
  {
    var possibleCenters := CollectCandidates(a, radius, true);
    forall p | p in possibleCenters
      ensures Dist(a, p) == radius
    {
      RingMembers(a, radius, p);
    }
    result, minRadius := ScanBorder(a, b, c, possibleCenters, radius, best, bestRadius);
  }

  /**
   * `hexagonByThreePoints`: three equal points give the hexagon of radius 0
   * around them; otherwise the radii from 0 to twice the largest distance
   * between the points are searched.
   */
  method HexagonByThreePoints(a: HexPoint, b: HexPoint, c: HexPoint) returns (result: Option<Hexagon>)
    requires MaxThroughRadius(a, b, c) < IntMax
    ensures result == ThroughThreePoints(a, b, c)
  {
    if a == b && b == c {
      return Some(Hexagon(a, 0));
    }
    var maxPossibleRadius := Max(Max(Dist(a, b), Dist(b, c)), Dist(a, c)) * 2;
    result := SearchRadii(a, b, c, maxPossibleRadius);
  }

  /**
   * The radius loop of `hexagonByThreePoints`: for each radius up to
   * `maxPossibleRadius`, the hexes at that distance from `a` that are as far
   * from `b` and from `c`; the first one found at the smallest radius wins.
   */
  method SearchRadii(a: HexPoint, b: HexPoint, c: HexPoint, maxPossibleRadius: nat) returns (result: Option<Hexagon>)
    requires maxPossibleRadius < IntMax
    ensures result == FoundThrough(a, b, c, maxPossibleRadius + 1)
  {
    var minRadius := IntMax;
    result := None;
    var radius := 0;
    while radius <= maxPossibleRadius
      invariant radius <= maxPossibleRadius + 1
      invariant result == FoundThrough(a, b, c, radius)
      invariant result.Some? ==> result.value.radius < radius
      invariant minRadius == if result.Some? then result.value.radius else IntMax
    {
      result, minRadius := ScanRing(a, b, c, radius, result, minRadius);
      FoundThroughNext(a, b, c, radius);
      radius := radius + 1;
    }
  }

  /** Points at distance `r` from a centre are at distance `r` measured from the centre. */
  lemma BorderFromCenter(a: HexPoint, b: HexPoint, c: HexPoint, center: HexPoint, r: int)
    requires Dist(a, center) == r && Dist(b, center) == r && Dist(c, center) == r
    ensures Dist(center, a) == r && Dist(center, b) == r && Dist(center, c) == r
  {
    DistSymmetric(a, center);
    DistSymmetric(b, center);
    DistSymmetric(c, center);
  }

  /** The hexagon found on one ring has all three points on its border. */
  lemma RingHexagonOnBorder(a: HexPoint, b: HexPoint, c: HexPoint, r: nat)
    requires RingHexagon(a, b, c, r).Some?
    ensures var h := RingHexagon(a, b, c, r).value;
      Dist(h.center, a) == h.radius && Dist(h.center, b) == h.radius && Dist(h.center, c) == h.radius
  {
    var center := FirstOnBorder(Candidates(a, r, true), b, c, r).value;
    RingMembers(a, r, center);
    BorderFromCenter(a, b, c, center, r);
  }

  /** A centre with all three points at distance `r` gives a hexagon on the ring of radius `r`. */
  lemma RingHexagonFound(a: HexPoint, b: HexPoint, c: HexPoint, r: nat, center: HexPoint)
    requires Dist(center, a) == r && Dist(center, b) == r && Dist(center, c) == r
    ensures RingHexagon(a, b, c, r).Some? && RingHexagon(a, b, c, r).value.radius == r
  {
    BorderFromCenter(center, center, center, a, r);
    RingMembers(a, r, center);
    DistSymmetric(b, center);
    DistSymmetric(c, center);
  }

  /** A found hexagon has all three points on its border. */
  lemma FoundOnBorder(a: HexPoint, b: HexPoint, c: HexPoint, n: nat)
    requires FoundThrough(a, b, c, n).Some?
    ensures var h := FoundThrough(a, b, c, n).value;
      Dist(h.center, a) == h.radius && Dist(h.center, b) == h.radius && Dist(h.center, c) == h.radius
  {
    var k := FirstFoundFrom(RingsThrough(a, b, c), n);
    RingHexagonOnBorder(a, b, c, k);
  }

  /** The search finds a hexagon no larger than any radius below `n` whose ring holds a centre for the three points. */
  lemma FoundLeast(a: HexPoint, b: HexPoint, c: HexPoint, n: nat, r: nat)
    requires r < n && RingHexagon(a, b, c, r).Some?
    ensures FoundThrough(a, b, c, n).Some? && FoundThrough(a, b, c, n).value.radius <= r
  {
    FirstFoundLeast(RingsThrough(a, b, c), n, r);
  }

  /**
   * Whenever some hexagon of a radius below the search bound `n` has all
   * three points on its border, the search finds a hexagon, and one of the
   * smallest such radius.
   */
  lemma FoundSmallest(a: HexPoint, b: HexPoint, c: HexPoint, n: nat, center: HexPoint, r: nat)
    requires r < n && Dist(center, a) == r && Dist(center, b) == r && Dist(center, c) == r
    ensures FoundThrough(a, b, c, n).Some? && FoundThrough(a, b, c, n).value.radius <= r
  {
    RingHexagonFound(a, b, c, r, center);
    FoundLeast(a, b, c, n, r);
  }

  /** A hexagon through three points has all three exactly its radius away from its centre. */
  lemma ThroughOnBorder(a: HexPoint, b: HexPoint, c: HexPoint)
    requires ThroughThreePoints(a, b, c).Some?
    ensures var h := ThroughThreePoints(a, b, c).value;
      h.radius >= 0 && Dist(h.center, a) == h.radius && Dist(h.center, b) == h.radius && Dist(h.center, c) == h.radius
  {
    if !(a == b && b == c) {
      FoundOnBorder(a, b, c, MaxThroughRadius(a, b, c) + 1);
    }
  }

  // ------------------------------------------------------------ the smallest containing hexagon

  /** The x or the y coordinate of a hex. */
  function Coord(p: HexPoint, alongX: bool): int {
    if alongX then p.x else p.y
  }

  /** The smallest coordinate of some hexes along one axis. */
  function Lowest(points: seq<HexPoint>, alongX: bool): int
    requires |points| > 0
  {
    if |points| == 1 then Coord(points[0], alongX)
    else Min(Lowest(points[..|points| - 1], alongX), Coord(points[|points| - 1], alongX))
  }

  /** The largest coordinate of some hexes along one axis. */
  function Highest(points: seq<HexPoint>, alongX: bool): int
    requires |points| > 0
  {
    if |points| == 1 then Coord(points[0], alongX)
    else Max(Highest(points[..|points| - 1], alongX), Coord(points[|points| - 1], alongX))
  }

  /** The lowest coordinate is no larger than any, and is that of one of the hexes. */
  lemma {:induction false} LowestIsLeast(points: seq<HexPoint>, alongX: bool) returns (k: nat)
    requires |points| > 0
    ensures forall i :: 0 <= i < |points| ==> Lowest(points, alongX) <= Coord(points[i], alongX)
    ensures k < |points| && Coord(points[k], alongX) == Lowest(points, alongX)
  {
    if |points| == 1 {
      k := 0;
    } else {
      var front := points[..|points| - 1];
      var j := LowestIsLeast(front, alongX);
      assert forall i :: 0 <= i < |front| ==> front[i] == points[i];
      k := if Lowest(front, alongX) <= Coord(points[|points| - 1], alongX) then j else |points| - 1;
    }
  }

  /** The highest coordinate is no smaller than any, and is that of one of the hexes. */
  lemma {:induction false} HighestIsGreatest(points: seq<HexPoint>, alongX: bool) returns (k: nat)
    requires |points| > 0
    ensures forall i :: 0 <= i < |points| ==> Coord(points[i], alongX) <= Highest(points, alongX)
    ensures k < |points| && Coord(points[k], alongX) == Highest(points, alongX)
  {
    if |points| == 1 {
      k := 0;
    } else {
      var front := points[..|points| - 1];
      var j := HighestIsGreatest(front, alongX);
      assert forall i :: 0 <= i < |front| ==> front[i] == points[i];
      k := if Highest(front, alongX) >= Coord(points[|points| - 1], alongX) then j else |points| - 1;
    }
  }

  /** One hex more. */
  lemma ExtremesNext(points: seq<HexPoint>, i: nat, alongX: bool)
    requires 0 < i < |points|
    ensures Lowest(points[..i + 1], alongX) == Min(Lowest(points[..i], alongX), Coord(points[i], alongX))
    ensures Highest(points[..i + 1], alongX) == Max(Highest(points[..i], alongX), Coord(points[i], alongX))
  {
    assert points[..i + 1][..i] == points[..i];
  }

  /** Hexes whose coordinates are Kotlin `Int` values. */
  predicate IntPoints(points: seq<HexPoint>) {
    forall i :: 0 <= i < |points| ==> IsInt(points[i].x) && IsInt(points[i].y)
  }

  /**
   * The bounding-box loop of `minContainingHexagon`, from the initial values
   * `Int.MAX_VALUE` and `Int.MIN_VALUE`.
   */
  method BoundingBox(points: seq<HexPoint>) returns (minX: int, maxX: int, minY: int, maxY: int)
    requires |points| > 0 && IntPoints(points)
    ensures minX == Lowest(points, true) && maxX == Highest(points, true)
    ensures minY == Lowest(points, false) && maxY == Highest(points, false)
  {
    minX, maxX, minY, maxY := IntMax, IntMin, IntMax, IntMin;
    for i := 0 to |points|
      invariant i == 0 ==> minX == IntMax && maxX == IntMin && minY == IntMax && maxY == IntMin
      invariant i > 0 ==> minX == Lowest(points[..i], true) && maxX == Highest(points[..i], true)
      invariant i > 0 ==> minY == Lowest(points[..i], false) && maxY == Highest(points[..i], false)
    {
      var point := points[i];
      if i > 0 {
        ExtremesNext(points, i, true);
        ExtremesNext(points, i, false);
      }
      if point.x < minX { minX := point.x; }
      if point.x > maxX { maxX := point.x; }
      if point.y < minY { minY := point.y; }
      if point.y > maxY { maxY := point.y; }
    }
    assert points[..|points|] == points;
  }

  /** Twice the larger side of the bounding box: the largest radius tried. */
  function SquareLimit(points: seq<HexPoint>): int
    requires |points| > 0
  {
    Max(Highest(points, true) - Lowest(points, true), Highest(points, false) - Lowest(points, false)) * 2
  }

  /** The corner of the bounding box the candidate centres are taken around. */
  function Corner(points: seq<HexPoint>): HexPoint
    requires |points| > 0
  {
    HexPoint(Lowest(points, true), Lowest(points, false))
  }

  /** The search stays within Kotlin `Int`: the limit and the candidate coordinates. */
  predicate SquareSearchFits(points: seq<HexPoint>)
    requires |points| > 0
  {
    var m, o := SquareLimit(points), Corner(points);
    IsInt(m) && IsInt(o.x - m) && IsInt(o.x + m) && IsInt(o.y - m) && IsInt(o.y + m)
  }

  /** `points.all { hexagon.contains(it) }`. */
  predicate ContainsAll(h: Hexagon, points: seq<HexPoint>) {
    forall i :: 0 <= i < |points| ==> Contains(h, points[i])
  }

  /** The first of some centres whose hexagon of radius `r` contains all the points. */
  function FirstContaining(centers: seq<HexPoint>, r: int, points: seq<HexPoint>): (found: Option<HexPoint>)
    ensures found.Some? ==> found.value in centers && ContainsAll(Hexagon(found.value, r), points)
    ensures found.None? ==> forall p :: p in centers ==> !ContainsAll(Hexagon(p, r), points)
  {
    if centers == [] then None
    else
      var earlier := FirstContaining(centers[..|centers| - 1], r, points);
      var last := centers[|centers| - 1];
      if earlier.Some? then earlier
      else if ContainsAll(Hexagon(last, r), points) then Some(last)
      else None
  }

  /** Looking one centre further. */
  lemma FirstContainingStep(centers: seq<HexPoint>, i: nat, r: int, points: seq<HexPoint>)
    requires i < |centers|
    ensures FirstContaining(centers[..i + 1], r, points) ==
      if FirstContaining(centers[..i], r, points).Some? then FirstContaining(centers[..i], r, points)
      else if ContainsAll(Hexagon(centers[i], r), points) then Some(centers[i])
      else None
  {
    assert centers[..i + 1][..i] == centers[..i];
  }

  /** The hexagon of radius `r` centred at the first of some centres that contains all the points. */
  function ContainingHexagon(centers: seq<HexPoint>, r: int, points: seq<HexPoint>): (h: Option<Hexagon>)
    ensures h.Some? ==> h.value.radius == r
  {
    match FirstContaining(centers, r, points)
    case None => None
    case Some(center) => Some(Hexagon(center, r))
  }

  /** The hexagon of radius `r` containing all the points with the first centre in the square around `o`, if any. */
  function SquareHexagon(o: HexPoint, r: nat, points: seq<HexPoint>): Option<Hexagon> {
    ContainingHexagon(Candidates(o, r, false), r, points)
  }

  /** The hexagon each radius finds. */
  function SquaresAround(o: HexPoint, points: seq<HexPoint>): nat -> Option<Hexagon> {
    (r: nat) => SquareHexagon(o, r, points)
  }

  /** The hexagon the search around `o` keeps among the radii below `n`. */
  function FoundContaining(o: HexPoint, points: seq<HexPoint>, n: nat): Option<Hexagon> {
    FirstFound(SquaresAround(o, points), n)
  }

  /**
   * The loop of `minContainingHexagon` over the candidate centres of one
   * radius: the first centre whose hexagon contains every point replaces the
   * best hexagon when there is none yet or its radius is larger.
   */
  method ScanCenters(points: seq<HexPoint>, possibleCenters: seq<HexPoint>, radius: int, best: Option<Hexagon>)
    returns (result: Option<Hexagon>)
    requires best.Some? ==> best.value.radius < radius
    ensures result == if best.Some? then best else ContainingHexagon(possibleCenters, radius, points)
  {
    result := best;
    var i := 0;
    while i < |possibleCenters|
      invariant 0 <= i <= |possibleCenters|
      invariant result == if best.Some? then best else ContainingHexagon(possibleCenters[..i], radius, points)
    {
      var center := possibleCenters[i];
      FirstContainingStep(possibleCenters, i, radius, points);
      var candidate := Hexagon(center, radius);
      var containsAll := ContainsAll(candidate, points);
      if containsAll {
        if result.None? || radius < result.value.radius {
          result := Some(candidate);
        }
      }
      i := i + 1;
    }
    assert possibleCenters[..|possibleCenters|] == possibleCenters;
  }

  /**
   * One radius of `minContainingHexagon`: the candidate centres of the
   * square around `o` and the scan over them, which extends the search by
   * that radius.
   */
  method ScanSquare(points: seq<HexPoint>, o: HexPoint, radius: nat, best: Option<Hexagon>)
    returns (result: Option<Hexagon>)
    requires best == FoundContaining(o, points, radius)
    requires best.Some? ==> best.value.radius < radius
    ensures result == FoundContaining(o, points, radius + 1)
    ensures result.Some? ==> result.value.radius <= radius
  {
    var possibleCenters := CollectCandidates(o, radius, false);
    result := ScanCenters(points, possibleCenters, radius, best);
    FirstFoundNext(SquaresAround(o, points), radius);
  }

  /** Once the search around `o` has found a hexagon, further radii do not change it. */
  lemma FoundContainingStays(o: HexPoint, points: seq<HexPoint>, n: nat, m: nat)
    requires n <= m && FoundContaining(o, points, n).Some?
    ensures FoundContaining(o, points, m) == FoundContaining(o, points, n)
  {
    FirstFoundStays(SquaresAround(o, points), n, m);
  }

  /**
   * One radius of the loop of `minContainingHexagon`: the scan of its
   * centres, and whether the loop stops after it, which it does once the
   * radius exceeds that of the hexagon found.
   */
  method SquareStep(points: seq<HexPoint>, o: HexPoint, radius: nat, maxRadius: nat, best: Option<Hexagon>)
    returns (result: Option<Hexagon>, stop: bool)
    requires radius <= maxRadius && best == FoundContaining(o, points, radius)
    requires best.Some? ==> best.value.radius < radius
    ensures result == FoundContaining(o, points, radius + 1)
    ensures result.Some? ==> result.value.radius <= radius
    ensures stop <==> result.Some? && radius > result.value.radius
    ensures stop ==> result == FoundContaining(o, points, maxRadius + 1)
  {
    result := ScanSquare(points, o, radius, best);
    stop := result.Some? && radius > result.value.radius;
    if stop {
      FoundContainingStays(o, points, radius + 1, maxRadius + 1);
    }
  }

  /**
   * The radius loop of `minContainingHexagon`, which stops after the first
   * radius larger than that of a hexagon already found.
   */
  method SearchSquares(points: seq<HexPoint>, o: HexPoint, maxRadius: nat) returns (best: Option<Hexagon>)
    ensures best == FoundContaining(o, points, maxRadius + 1)
  {
    best := None;
    var radius := 0;
    assert FoundContaining(o, points, 0) == None;
    while radius <= maxRadius
      invariant radius <= maxRadius + 1
      invariant best == FoundContaining(o, points, radius)
      invariant best.Some? ==> best.value.radius < radius
    {
      var result, stop := SquareStep(points, o, radius, maxRadius, best);
      if stop {
        return result;
      }
      best := result;
      radius := radius + 1;
    }
    assert radius == maxRadius + 1;
  }

  /** Every hex lies in the hexagon of radius `SquareLimit` around the corner of the bounding box. */
  lemma CornerContainsAll(points: seq<HexPoint>)
    requires |points| > 0
    ensures SquareLimit(points) >= 0 && ContainsAll(Hexagon(Corner(points), SquareLimit(points)), points)
  {
    var lx := LowestIsLeast(points, true);
    var ly := LowestIsLeast(points, false);
    var hx := HighestIsGreatest(points, true);
    var hy := HighestIsGreatest(points, false);
    var o, m := Corner(points), SquareLimit(points);
    forall i | 0 <= i < |points|
      ensures Contains(Hexagon(o, m), points[i])
    {
      assert Coord(points[i], true) == points[i].x && Coord(points[i], false) == points[i].y;
    }
  }

  /** The centre of a hexagon containing every hex is no further from the corner along `x` or `y` than its radius. */
  lemma CenterNearCorner(points: seq<HexPoint>, h: Hexagon)
    requires |points| > 0 && ContainsAll(h, points)
    ensures h.radius >= 0
    ensures Abs(h.center.x - Corner(points).x) <= h.radius && Abs(h.center.y - Corner(points).y) <= h.radius
  {
    var kx := LowestIsLeast(points, true);
    var ky := LowestIsLeast(points, false);
    assert Contains(h, points[kx]) && Contains(h, points[ky]);
  }

  /** A radius that finds a hexagon finds one containing every hex. */
  lemma SquareHexagonContains(o: HexPoint, r: nat, points: seq<HexPoint>)
    requires SquareHexagon(o, r, points).Some?
    ensures ContainsAll(SquareHexagon(o, r, points).value, points) && SquareHexagon(o, r, points).value.radius == r
  {
  }

  /** A hexagon containing every hex, centred in the square of its radius around `o`, is found at its radius. */
  lemma SquareHexagonFound(o: HexPoint, points: seq<HexPoint>, h: Hexagon)
    requires h.radius >= 0 && ContainsAll(h, points)
    requires Abs(h.center.x - o.x) <= h.radius && Abs(h.center.y - o.y) <= h.radius
    ensures SquareHexagon(o, h.radius, points).Some?
  {
    CandidateMembers(o, h.radius, false, h.center);
  }

  /** What the search around `o` keeps contains every hex. */
  lemma FoundContainingAll(o: HexPoint, points: seq<HexPoint>, n: nat)
    requires FoundContaining(o, points, n).Some?
    ensures ContainsAll(FoundContaining(o, points, n).value, points)
    ensures 0 <= FoundContaining(o, points, n).value.radius < n
  {
    var k := FirstFoundFrom(SquaresAround(o, points), n);
    SquareHexagonContains(o, k, points);
  }

  /**
   * A hexagon of radius below `n` containing every hex, centred in the
   * square of its radius around `o`, bounds the radius the search keeps.
   */
  lemma FoundContainingLeast(o: HexPoint, points: seq<HexPoint>, n: nat, h: Hexagon)
    requires 0 <= h.radius < n && ContainsAll(h, points)
    requires Abs(h.center.x - o.x) <= h.radius && Abs(h.center.y - o.y) <= h.radius
    ensures FoundContaining(o, points, n).Some? && FoundContaining(o, points, n).value.radius <= h.radius
  {
    SquareHexagonFound(o, points, h);
    FirstFoundLeast(SquaresAround(o, points), n, h.radius);
  }

  /**
   * What the search around `o` keeps below radius `n`, if anything, is no
   * larger than any hexagon containing every hex centred in the square of its
   * radius around `o`.
   */
  lemma FoundContainingBeats(o: HexPoint, points: seq<HexPoint>, n: nat, h: Hexagon)
    requires FoundContaining(o, points, n).Some?
    requires 0 <= h.radius && ContainsAll(h, points)
    requires Abs(h.center.x - o.x) <= h.radius && Abs(h.center.y - o.y) <= h.radius
    ensures FoundContaining(o, points, n).value.radius <= h.radius
  {
    if h.radius < n {
      FoundContainingLeast(o, points, n, h);
    } else {
      FoundContainingAll(o, points, n);
    }
  }

  /**
   * Searching the radii up to `m` around the corner of the bounding box,
   * when the hexagon of radius `m` there already contains every hex, keeps a
   * hexagon containing every hex whose radius no other such hexagon beats.
   */
  lemma SquareSearchSmallest(points: seq<HexPoint>, m: nat)
    requires |points| > 0 && ContainsAll(Hexagon(Corner(points), m), points)
    ensures FoundContaining(Corner(points), points, m + 1).Some?
    ensures forall h :: ContainsAll(h, points) ==> FoundContaining(Corner(points), points, m + 1).value.radius <= h.radius
  {
    var o := Corner(points);
    FoundContainingLeast(o, points, m + 1, Hexagon(o, m));
    forall h | ContainsAll(h, points)
      ensures FoundContaining(o, points, m + 1).value.radius <= h.radius
    {
      CenterNearCorner(points, h);
      FoundContainingBeats(o, points, m + 1, h);
    }
  }

  /**
   * Searching the radii up to `m` around the corner of the bounding box,
   * when the hexagon of radius `m` there already contains every hex, keeps a
   * hexagon containing every hex.
   */
  lemma SquareSearchContains(points: seq<HexPoint>, m: nat)
    requires |points| > 0 && ContainsAll(Hexagon(Corner(points), m), points)
    ensures FoundContaining(Corner(points), points, m + 1).Some?
    ensures FoundContaining(Corner(points), points, m + 1).value.radius >= 0
    ensures ContainsAll(FoundContaining(Corner(points), points, m + 1).value, points)
  {
    var o := Corner(points);
    FoundContainingLeast(o, points, m + 1, Hexagon(o, m));
    FoundContainingAll(o, points, m + 1);
  }

  /** A single hex lies in the hexagon of radius 0 around it, and no hexagon containing it has a negative radius. */
  lemma SingleHexagon(p: HexPoint)
    ensures ContainsAll(Hexagon(p, 0), [p])
    ensures forall h :: ContainsAll(h, [p]) ==> 0 <= h.radius
  {
    assert Contains(Hexagon(p, 0), p);
    forall h | ContainsAll(h, [p])
      ensures 0 <= h.radius
    {
      CenterNearCorner([p], h);
    }
  }

  /**
   * The part of `minContainingHexagon` after the checks on the number of
   * hexes: the bounding box, the limit on the radius, and the search around
   * the corner of the box, which always finds a hexagon.
   */
  method BoxSearch(points: seq<HexPoint>) returns (r: Result<Hexagon>)
    requires |points| > 0 && IntPoints(points) && SquareSearchFits(points)
    ensures r.Ok? && r.value.radius >= 0 && ContainsAll(r.value, points)
    ensures forall h :: ContainsAll(h, points) ==> r.value.radius <= h.radius
  {
    var minX, maxX, minY, maxY := BoundingBox(points);
    CornerContainsAll(points);
    var maxRadius := Max(maxX - minX, maxY - minY) * 2;
    var o := HexPoint(minX, minY);
    var best := SearchSquares(points, o, maxRadius);
    assert o == Corner(points);
    SquareSearchContains(points, maxRadius);
    SquareSearchSmallest(points, maxRadius);
    r := if best.Some? then Ok(best.value) else Fail(IllegalState);
  }

  /**
   * `minContainingHexagon`: IllegalArgumentException for no hexes, the
   * hexagon of radius 0 for one, and otherwise a hexagon of the smallest
   * radius containing them all, found by searching the radii up to twice the
   * larger side of the bounding box for centres around its corner. The
   * IllegalStateException of a search that finds nothing cannot happen.
   */
  method MinContainingHexagon(points: seq<HexPoint>) returns (r: Result<Hexagon>)
    requires IntPoints(points)
    requires |points| >= 2 ==> SquareSearchFits(points)
    ensures |points| == 0 ==> r == Fail(IllegalArgument)
    ensures |points| == 1 ==> r == Ok(Hexagon(points[0], 0))
    ensures |points| > 0 ==> r.Ok? && r.value.radius >= 0 && ContainsAll(r.value, points)
    ensures |points| > 0 ==> forall h :: ContainsAll(h, points) ==> r.value.radius <= h.radius
  {
    if |points| == 0 {
      return Fail(IllegalArgument);
    }
    if |points| == 1 {
      SingleHexagon(points[0]);
      assert points == [points[0]];
      return Ok(Hexagon(points[0], 0));
    }
    r := BoxSearch(points);
  }
}
