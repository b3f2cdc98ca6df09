/**
 * Chess-board distances and trajectories (src/Lesson8/task2/Chess.kt).
 *
 * A `Square` is a column and a row, both 1..8 on the board. Every move
 * number and trajectory throws IllegalArgumentException for a square off
 * the board; here that is a `Fail(IllegalArgument)` result. The rook, bishop
 * and king move numbers are closed forms; the model proves each of them is
 * the least number of moves of a path of that piece. The knight's move
 * number and trajectory are the breadth-first searches of module `Bfs` over
 * the knight's moves.
 */
module Chess {
  import opened Arith
  import opened Text
  import opened Wrappers
  import Bfs

  datatype Square = Square(column: int, row: int)

  /** `inside`: both coordinates in 1..8. */
  predicate Inside(sq: Square) {
    1 <= sq.column <= 8 && 1 <= sq.row <= 8
  }

  // ---------------------------------------------------------------- notation

  /** `notation`: the column letter `a`..`h` followed by the row, "" for a square off the board. */
  function Notation(sq: Square): (s: string)
    ensures s == "" <==> !Inside(sq)
    ensures Inside(sq) ==> |s| == 2 && 'a' <= s[0] <= 'h' && '1' <= s[1] <= '8'
    ensures Inside(sq) ==> s[0] as int - 'a' as int + 1 == sq.column && DigitValue(s[1]) == sq.row
  {
    if !Inside(sq) then ""
    else [('a' as int + (sq.column - 1)) as char] + IntToString(sq.row)
  }

  /** `square(notation)`: two characters, a column letter `a`..`h` and a row digit `1`..`8`. */
  function SquareOf(notation: string): (r: Result<Square>)
    ensures r.Ok? <==> |notation| == 2 && 'a' <= notation[0] <= 'h' && '1' <= notation[1] <= '8'
    ensures r.Fail? ==> r.error == IllegalArgument
    ensures r.Ok? ==> Inside(r.value) && Notation(r.value) == notation
  {
    if |notation| != 2 then Fail(IllegalArgument)
    else if !('a' <= notation[0] <= 'h') || !('1' <= notation[1] <= '8') then Fail(IllegalArgument)
    else
      var sq := Square(notation[0] as int - 'a' as int + 1, DigitValue(notation[1]));
      assert Notation(sq) == [notation[0]] + [notation[1]];
      Ok(sq)
  }

  /** Reading back the notation of a square on the board gives the square. */
  lemma NotationRoundTrip(sq: Square)
    requires Inside(sq)
    ensures SquareOf(Notation(sq)) == Ok(sq)
  {
    var s := Notation(sq);
    assert SquareOf(s).Ok?;
  }

  // ---------------------------------------------------------------- rook

  /** One rook move: to another square of the same column or row. */
  predicate RookMove(a: Square, b: Square) {
    Inside(a) && Inside(b) && a != b && (a.column == b.column || a.row == b.row)
  }

  /** Consecutive squares of `p` are joined by rook moves. */
  predicate RookPath(p: seq<Square>) {
    forall i :: 0 <= i < |p| - 1 ==> RookMove(p[i], p[i + 1])
  }

  /** `rookMoveNumber`: 0 for the same square, 1 for a shared column or row, 2 otherwise. */
  function RookMoveNumber(start: Square, end: Square): (r: Result<int>)
    ensures r.Fail? <==> !Inside(start) || !Inside(end)
    ensures r.Fail? ==> r.error == IllegalArgument
    ensures r.Ok? ==> 0 <= r.value <= 2 && (r.value == 0 <==> start == end) && (r.value == 1 <==> RookMove(start, end))
  {
    if !Inside(start) || !Inside(end) then Fail(IllegalArgument)
    else if start == end then Ok(0)
    else if start.column == end.column || start.row == end.row then Ok(1)
    else Ok(2)
  }

  /** No rook path from `start` to `end` is shorter than `rookMoveNumber`. */
  lemma RookMoveNumberIsLeast(start: Square, end: Square, p: seq<Square>)
    requires Inside(start) && Inside(end)
    requires |p| > 0 && RookPath(p) && p[0] == start && p[|p| - 1] == end
    ensures |p| - 1 >= RookMoveNumber(start, end).value
  {
    if |p| == 2 {
      assert RookMove(p[0], p[1]);
    }
  }

  /** The squares `sq`, `sq` moved by `dir` rows, ..., `n` squares of the column in all. */
  function ColumnWalk(sq: Square, dir: int, n: nat): (w: seq<Square>)
    ensures |w| == n && forall i :: 0 <= i < n ==> w[i] == Square(sq.column, sq.row + i * dir)
  {
    seq(n, i => Square(sq.column, sq.row + i * dir))
  }

  /** The squares `sq`, `sq` moved by `dir` columns, ..., `n` squares of the row in all. */
  function RowWalk(sq: Square, dir: int, n: nat): (w: seq<Square>)
    ensures |w| == n && forall i :: 0 <= i < n ==> w[i] == Square(sq.column + i * dir, sq.row)
  {
    seq(n, i => Square(sq.column + i * dir, sq.row))
  }

  /** The direction of `to` seen from `from`: 1 upwards, -1 downwards. */
  function Step(from: int, to: int): (s: int)
    ensures s == 1 || s == -1
  {
    if to > from then 1 else -1
  }

  /**
   * `rookTrajectory` as written: along a shared column or row it lists every
   * square between `start` and `end`; otherwise it turns at
   * `Square(start.column, end.row)`.
   */
  method RookTrajectory(start: Square, end: Square) returns (r: Result<seq<Square>>)
    ensures r.Fail? <==> !Inside(start) || !Inside(end)
    ensures r.Fail? ==> r.error == IllegalArgument
    ensures r.Ok? && start == end ==> r.value == [start]
    ensures r.Ok? && start != end && start.column == end.column ==>
              r.value == ColumnWalk(start, Step(start.row, end.row), Abs(end.row - start.row) + 1)
    ensures r.Ok? && start.column != end.column && start.row == end.row ==>
              r.value == RowWalk(start, Step(start.column, end.column), Abs(end.column - start.column) + 1)
    ensures r.Ok? && start.column != end.column && start.row != end.row ==>
              r.value == [start, Square(start.column, end.row), end]
  {
    if !Inside(start) || !Inside(end) {
      return Fail(IllegalArgument);
    }
    var result := [start];
    if start == end {
      return Ok(result);
    }
    if start.column == end.column {
      var step := Step(start.row, end.row);
      var currentRow := start.row + step;
      while currentRow != end.row
        invariant currentRow == start.row + |result| * step
        invariant result == ColumnWalk(start, step, |result|)
        invariant 1 <= |result| <= Abs(end.row - start.row)
        decreases Abs(end.row - currentRow)
      {
        result := result + [Square(start.column, currentRow)];
        currentRow := currentRow + step;
      }
    } else if start.row == end.row {
      var step := Step(start.column, end.column);
      var currentColumn := start.column + step;
      while currentColumn != end.column
        invariant currentColumn == start.column + |result| * step
        invariant result == RowWalk(start, step, |result|)
        invariant 1 <= |result| <= Abs(end.column - start.column)
        decreases Abs(end.column - currentColumn)
      {
        result := result + [Square(currentColumn, start.row)];
        currentColumn := currentColumn + step;
      }
    } else {
      result := result + [Square(start.column, end.row)];
    }
    result := result + [end];
    return Ok(result);
  }

  /** The trajectory as written is a rook path from `start` to `end`, moving one square at a time along a shared line. */
  lemma RookWalkIsPath(start: Square, end: Square, p: seq<Square>)
    requires Inside(start) && Inside(end) && start != end
    requires start.column == end.column ==>
               p == ColumnWalk(start, Step(start.row, end.row), Abs(end.row - start.row) + 1)
    requires start.column != end.column && start.row == end.row ==>
               p == RowWalk(start, Step(start.column, end.column), Abs(end.column - start.column) + 1)
    requires start.column != end.column && start.row != end.row ==> p == [start, Square(start.column, end.row), end]
    ensures |p| > 0 && RookPath(p) && p[0] == start && p[|p| - 1] == end
  {
    if start.column == end.column {
      var dir := Step(start.row, end.row);
      forall i | 0 <= i < |p| - 1 ensures RookMove(p[i], p[i + 1]) {
        assert p[i + 1].row == p[i].row + dir;
      }
    } else if start.row == end.row {
      var dir := Step(start.column, end.column);
      forall i | 0 <= i < |p| - 1 ensures RookMove(p[i], p[i + 1]) {
        assert p[i + 1].column == p[i].column + dir;
      }
    }
  }

  /**
   * The documented example `rookTrajectory(Square(3, 5), Square(8, 5))`:
   * one rook move suffices, but the trajectory as written has six squares.
   */
  lemma RookTrajectoryNotFastest()
    ensures RookMoveNumber(Square(3, 5), Square(8, 5)) == Ok(1)
    ensures |RowWalk(Square(3, 5), Step(3, 8), Abs(8 - 3) + 1)| == 6
  {
  }

  /** The fastest rook trajectory the documentation asks for: one move along a shared line, otherwise two. */
  function RookTrajectoryFixed(start: Square, end: Square): (r: Result<seq<Square>>)
    ensures r.Fail? <==> !Inside(start) || !Inside(end)
    ensures r.Fail? ==> r.error == IllegalArgument
    ensures r.Ok? ==> && |r.value| > 0 && RookPath(r.value) && r.value[0] == start && r.value[|r.value| - 1] == end
                      && |r.value| - 1 == RookMoveNumber(start, end).value
  {
    if !Inside(start) || !Inside(end) then Fail(IllegalArgument)
    else if start == end then Ok([start])
    else if start.column == end.column || start.row == end.row then Ok([start, end])
    else Ok([start, Square(start.column, end.row), end])
  }

  // ---------------------------------------------------------------- bishop

  /** One bishop move: to another square of one of the two diagonals. */
  predicate BishopMove(a: Square, b: Square) {
    Inside(a) && Inside(b) && a != b && Abs(a.column - b.column) == Abs(a.row - b.row)
  }

  predicate BishopPath(p: seq<Square>) {
    forall i :: 0 <= i < |p| - 1 ==> BishopMove(p[i], p[i + 1])
  }

  /** The colour of a square: the parity of the sum of its coordinates. */
  function Colour(sq: Square): int {
    (sq.column + sq.row) % 2
  }

  /** `bishopMoveNumber`: 0 for the same square, -1 for another colour, 1 on a shared diagonal and 2 otherwise. */
  function BishopMoveNumber(start: Square, end: Square): (r: Result<int>)
    ensures r.Fail? <==> !Inside(start) || !Inside(end)
    ensures r.Fail? ==> r.error == IllegalArgument
    ensures r.Ok? ==> -1 <= r.value <= 2
    ensures r.Ok? ==> (r.value == 0 <==> start == end) && (r.value == 1 <==> BishopMove(start, end))
    ensures r.Ok? ==> (r.value == -1 <==> Colour(start) != Colour(end))
  {
    if !Inside(start) || !Inside(end) then Fail(IllegalArgument)
    else if start == end then Ok(0)
    else if Rem(start.column + start.row, 2) != Rem(end.column + end.row, 2) then Ok(-1)
    else if Abs(start.column - end.column) == Abs(start.row - end.row) then Ok(1)
    else Ok(2)
  }

  /** A bishop never changes colour, so every bishop path stays on the colour of its first square. */
  lemma {:induction false} BishopPathColour(p: seq<Square>)
    requires |p| > 0 && BishopPath(p)
    ensures Colour(p[|p| - 1]) == Colour(p[0])
  {
    if |p| > 1 {
      var q := p[..|p| - 1];
      assert BishopPath(q) by {
        forall i | 0 <= i < |q| - 1 ensures BishopMove(q[i], q[i + 1]) {
          assert q[i] == p[i] && q[i + 1] == p[i + 1];
        }
      }
      BishopPathColour(q);
      BishopMoveColour(p[|p| - 2], p[|p| - 1]);
    }
  }

  /** One bishop move keeps the colour: the coordinate sum changes by an even amount. */
  lemma BishopMoveColour(a: Square, b: Square)
    requires BishopMove(a, b)
    ensures Colour(a) == Colour(b)
  {
    var x := b.column + b.row;
    if a.column - b.column == a.row - b.row {
      ParityShift(x, a.column - b.column);
      assert a.column + a.row == x + 2 * (a.column - b.column);
    } else {
      assert a.column + a.row == x;
    }
  }

  lemma ParityShift(x: int, m: int)
    ensures (x + 2 * m) % 2 == x % 2
  {
  }

  /** Two squares of one colour: their coordinate sums differ by `2 * k`. */
  lemma SameColour(a: Square, b: Square) returns (k: int)
    requires Colour(a) == Colour(b)
    ensures (a.column + a.row) - (b.column + b.row) == 2 * k
  {
    var x, y := a.column + a.row, b.column + b.row;
    assert x == 2 * (x / 2) + x % 2;
    assert y == 2 * (y / 2) + y % 2;
    k := x / 2 - y / 2;
  }

  /** No bishop path from `start` to `end` is shorter than `bishopMoveNumber`, and none exists when it is -1. */
  lemma BishopMoveNumberIsLeast(start: Square, end: Square, p: seq<Square>)
    requires Inside(start) && Inside(end)
    requires |p| > 0 && BishopPath(p) && p[0] == start && p[|p| - 1] == end
    ensures BishopMoveNumber(start, end).value >= 0 && |p| - 1 >= BishopMoveNumber(start, end).value
  {
    BishopPathColour(p);
    if |p| == 2 {
      assert BishopMove(p[0], p[1]);
    }
  }

  /**
   * `findBishopIntermediatePoints`: the crossings of the diagonal through
   * `start` with the anti-diagonal through `end`, and of the anti-diagonal
   * through `start` with the diagonal through `end` (Kotlin's `/ 2`
   * truncates).
   */
  function BishopIntermediatePoints(start: Square, end: Square): (pq: (Square, Square))
    ensures Colour(start) == Colour(end) ==>
      && pq.0.column + pq.0.row == start.column + start.row && pq.0.column - pq.0.row == end.column - end.row
      && pq.1.column - pq.1.row == start.column - start.row && pq.1.column + pq.1.row == end.column + end.row
  {
    CrossingsExact(start, end);
    var x1 := Quot(start.column + start.row + end.column - end.row, 2);
    var y1 := Quot(start.column + start.row - end.column + end.row, 2);
    var x2 := Quot(start.column - start.row + end.column + end.row, 2);
    var y2 := Quot(-start.column + start.row + end.column + end.row, 2);
    (Square(x1, y1), Square(x2, y2))
  }

  /** For squares of one colour, the four sums `findBishopIntermediatePoints` halves are even, so `/ 2` is exact. */
  lemma CrossingsExact(start: Square, end: Square)
    ensures Colour(start) == Colour(end) ==>
      && Quot(start.column + start.row + end.column - end.row, 2) * 2 == start.column + start.row + end.column - end.row
      && Quot(start.column + start.row - end.column + end.row, 2) * 2 == start.column + start.row - end.column + end.row
      && Quot(start.column - start.row + end.column + end.row, 2) * 2 == start.column - start.row + end.column + end.row
      && Quot(-start.column + start.row + end.column + end.row, 2) * 2 == -start.column + start.row + end.column + end.row
  {
    if Colour(start) == Colour(end) {
      var k := SameColour(start, end);
      assert start.column + start.row + end.column - end.row == 2 * (end.column + k);
      assert start.column + start.row - end.column + end.row == 2 * (end.row + k);
      assert start.column - start.row + end.column + end.row == 2 * (start.column - k);
      assert -start.column + start.row + end.column + end.row == 2 * (start.row - k);
      HalfOf(end.column + k);
      HalfOf(end.row + k);
      HalfOf(start.column - k);
      HalfOf(start.row - k);
    }
  }

  /** For squares of one colour, each candidate lies on a diagonal through `start` and on one through `end`. */
  lemma IntermediateOnDiagonals(start: Square, end: Square)
    requires Inside(start) && Inside(end) && Colour(start) == Colour(end)
    ensures var (p, q) := BishopIntermediatePoints(start, end);
      && p.column + p.row == start.column + start.row && p.column - p.row == end.column - end.row
      && q.column - q.row == start.column - start.row && q.column + q.row == end.column + end.row
  {
    var k := IntermediateCoordinates(start, end);
  }

  /** With `2 * k` the difference of the coordinate sums, the candidates are `end` and `start` shifted by `k` and `-k`. */
  lemma IntermediateCoordinates(start: Square, end: Square) returns (k: int)
    requires Colour(start) == Colour(end)
    ensures (start.column + start.row) - (end.column + end.row) == 2 * k
    ensures BishopIntermediatePoints(start, end)
              == (Square(end.column + k, end.row + k), Square(start.column - k, start.row - k))
  {
    k := SameColour(start, end);
    assert start.column + start.row + end.column - end.row == 2 * (end.column + k);
    assert start.column + start.row - end.column + end.row == 2 * (end.row + k);
    assert start.column - start.row + end.column + end.row == 2 * (start.column - k);
    assert -start.column + start.row + end.column + end.row == 2 * (start.row - k);
    HalfOf(end.column + k);
    HalfOf(end.row + k);
    HalfOf(start.column - k);
    HalfOf(start.row - k);
  }

  /** Kotlin's truncating `/ 2` is exact on even numbers. */
  lemma HalfOf(m: int)
    ensures Quot(2 * m, 2) == m
  {
    if m < 0 {
      assert Abs(2 * m) / 2 == -m;
    } else {
      assert Abs(2 * m) / 2 == m;
    }
  }

  /** For squares of one colour, one of the two candidates is on the board. */
  lemma IntermediateInside(start: Square, end: Square)
    requires Inside(start) && Inside(end) && Colour(start) == Colour(end)
    ensures Inside(BishopIntermediatePoints(start, end).0) || Inside(BishopIntermediatePoints(start, end).1)
  {
    var k := IntermediateCoordinates(start, end);
  }

  /** Two bishop moves through a candidate form a bishop path of length two. */
  lemma TwoBishopMoves(start: Square, mid: Square, end: Square)
    requires Inside(start) && Inside(mid) && Inside(end) && start != mid && mid != end
    requires mid.column + mid.row == start.column + start.row || mid.column - mid.row == start.column - start.row
    requires mid.column + mid.row == end.column + end.row || mid.column - mid.row == end.column - end.row
    ensures BishopPath([start, mid, end])
  {
    assert BishopMove(start, mid);
    assert BishopMove(mid, end);
  }

  /**
   * `bishopTrajectory`: empty for squares of different colours; otherwise
   * `start`, then the first candidate on the board unless the squares share
   * a diagonal, then `end`.
   */
  function BishopTrajectory(start: Square, end: Square): (r: Result<seq<Square>>)
    ensures r.Fail? <==> !Inside(start) || !Inside(end)
    ensures r.Fail? ==> r.error == IllegalArgument
    ensures r.Ok? ==> (r.value == [] <==> Colour(start) != Colour(end))
    ensures r.Ok? && r.value != [] ==>
              && BishopPath(r.value) && r.value[0] == start && r.value[|r.value| - 1] == end
              && |r.value| - 1 == BishopMoveNumber(start, end).value
  {
    if !Inside(start) || !Inside(end) then Fail(IllegalArgument)
    else if start == end then Ok([start])
    else if Rem(start.column + start.row, 2) != Rem(end.column + end.row, 2) then Ok([])
    else if Abs(start.column - end.column) == Abs(start.row - end.row) then
      assert BishopMove(start, end);
      Ok([start, end])
    else
      ViaIntermediate(start, end);
      var (p, q) := BishopIntermediatePoints(start, end);
      if Inside(p) then Ok([start, p, end])
      else Ok([start, q, end])
  }

  /** Off a shared diagonal, the path through the first candidate on the board is a two-move bishop path. */
  lemma ViaIntermediate(start: Square, end: Square)
    requires Inside(start) && Inside(end) && start != end && Colour(start) == Colour(end)
    requires Abs(start.column - end.column) != Abs(start.row - end.row)
    ensures var (p, q) := BishopIntermediatePoints(start, end);
      && (Inside(p) || Inside(q))
      && (Inside(p) ==> BishopPath([start, p, end]))
      && (!Inside(p) ==> BishopPath([start, q, end]))
  {
    var k := IntermediateCoordinates(start, end);
    var (p, q) := BishopIntermediatePoints(start, end);
    if Inside(p) {
      TwoBishopMoves(start, p, end);
    } else {
      TwoBishopMoves(start, q, end);
    }
  }

  // ---------------------------------------------------------------- king

  /** One king move: to a different square at most one column and one row away. */
  predicate KingMove(a: Square, b: Square) {
    Inside(a) && Inside(b) && a != b && Abs(a.column - b.column) <= 1 && Abs(a.row - b.row) <= 1
  }

  predicate KingPath(p: seq<Square>) {
    forall i :: 0 <= i < |p| - 1 ==> KingMove(p[i], p[i + 1])
  }

  /** The number of king moves between two squares: the larger coordinate difference. */
  function Chebyshev(a: Square, b: Square): nat {
    Max(Abs(a.column - b.column), Abs(a.row - b.row))
  }

  /** `kingMoveNumber`: `max(|dc|, |dr|)` for squares on the board. */
  function KingMoveNumber(start: Square, end: Square): (r: Result<int>)
    ensures r.Fail? <==> !Inside(start) || !Inside(end)
    ensures r.Fail? ==> r.error == IllegalArgument
    ensures r.Ok? ==> r.value == Chebyshev(start, end) && (r.value == 0 <==> start == end)
  {
    if !Inside(start) || !Inside(end) then Fail(IllegalArgument)
    else Ok(Max(Abs(start.column - end.column), Abs(start.row - end.row)))
  }

  /** No king path is shorter than `kingMoveNumber`: one move changes each coordinate by at most one. */
  lemma {:induction false} KingMoveNumberIsLeast(p: seq<Square>)
    requires |p| > 0 && KingPath(p)
    ensures |p| - 1 >= Chebyshev(p[0], p[|p| - 1])
  {
    if |p| > 1 {
      var q := p[..|p| - 1];
      assert KingPath(q) by {
        forall i | 0 <= i < |q| - 1 ensures KingMove(q[i], q[i + 1]) {
          assert q[i] == p[i] && q[i + 1] == p[i + 1];
        }
      }
      KingMoveNumberIsLeast(q);
      assert KingMove(p[|p| - 2], p[|p| - 1]);
    }
  }

  /** One coordinate of the king's step towards `to`. */
  function Toward(from: int, to: int): (r: int)
    ensures Abs(r - to) == Abs(from - to) - 1 || (from == to && r == to)
  {
    if from < to then from + 1 else if from > to then from - 1 else from
  }

  /**
   * `kingTrajectory`: step towards `end` in both coordinates at once until
   * `end` is reached; the trajectory has `kingMoveNumber + 1` squares, joined
   * by king moves.
   */
  method KingTrajectory(start: Square, end: Square) returns (r: Result<seq<Square>>)
    ensures r.Fail? <==> !Inside(start) || !Inside(end)
    ensures r.Fail? ==> r.error == IllegalArgument
    ensures r.Ok? ==> && |r.value| == Chebyshev(start, end) + 1 && KingPath(r.value)
                      && r.value[0] == start && r.value[|r.value| - 1] == end
  {
    if !Inside(start) || !Inside(end) {
      return Fail(IllegalArgument);
    }
    var result := [start];
    if start == end {
      return Ok(result);
    }
    var current := start;
    while current != end
      invariant Inside(current) && |result| > 0 && result[0] == start && result[|result| - 1] == current
      invariant KingPath(result)
      invariant |result| - 1 + Chebyshev(current, end) == Chebyshev(start, end)
      decreases Chebyshev(current, end)
    {
      var nextColumn := Toward(current.column, end.column);
      var nextRow := Toward(current.row, end.row);
      var next := Square(nextColumn, nextRow);
      assert KingMove(current, next);
      assert Chebyshev(next, end) == Chebyshev(current, end) - 1;
      current := next;
      result := result + [current];
    }
    return Ok(result);
  }

  // ---------------------------------------------------------------- knight

  /** The knight's eight jumps in the order the Kotlin code tries them. */
  const KnightJumps: seq<(int, int)> := [(2, 1), (2, -1), (-2, 1), (-2, -1), (1, 2), (1, -2), (-1, 2), (-1, -2)]

  /** The square the jump `j` leads to from `sq`. */
  function Jump(sq: Square, j: (int, int)): Square {
    Square(sq.column + j.0, sq.row + j.1)
  }

  /** The squares the jumps `jumps` lead to from `sq` that are on the board, in order. */
  function Targets(sq: Square, jumps: seq<(int, int)>): (ts: seq<Square>)
    ensures forall t :: t in ts ==> Inside(t)
  {
    if jumps == [] then []
    else
      var t := Jump(sq, jumps[0]);
      (if Inside(t) then [t] else []) + Targets(sq, jumps[1..])
  }

  /** The on-board square of the `k`-th jump is a target. */
  lemma {:induction false} TargetsHas(sq: Square, jumps: seq<(int, int)>, k: nat)
    requires k < |jumps| && Inside(Jump(sq, jumps[k]))
    ensures Jump(sq, jumps[k]) in Targets(sq, jumps)
    decreases k
  {
    if k > 0 {
      TargetsHas(sq, jumps[1..], k - 1);
    }
  }

  /** Every target is the square of one of the jumps. */
  lemma {:induction false} TargetsFrom(sq: Square, jumps: seq<(int, int)>, t: Square) returns (k: nat)
    requires t in Targets(sq, jumps)
    ensures k < |jumps| && t == Jump(sq, jumps[k])
    decreases |jumps|
  {
    if t == Jump(sq, jumps[0]) {
      k := 0;
    } else {
      k := TargetsFrom(sq, jumps[1..], t);
      k := k + 1;
    }
  }

  /** The knight's moves from `sq`: the on-board squares of its eight jumps, as the search loop filters them. */
  function KnightMoves(sq: Square): seq<Square> {
    Targets(sq, KnightJumps)
  }

  /** One knight move: two squares one way and one square the other, staying on the board. */
  predicate KnightMove(a: Square, b: Square) {
    Inside(b) && ((Abs(a.column - b.column) == 1 && Abs(a.row - b.row) == 2) ||
                  (Abs(a.column - b.column) == 2 && Abs(a.row - b.row) == 1))
  }

  /** `KnightMoves` lists exactly the knight moves from a square. */
  lemma KnightMovesAreKnightMoves(a: Square, b: Square)
    ensures b in KnightMoves(a) <==> KnightMove(a, b)
  {
    if KnightMove(a, b) {
      var k := JumpIndex(b.column - a.column, b.row - a.row);
      assert Jump(a, KnightJumps[k]) == b;
      TargetsHas(a, KnightJumps, k);
    }
    if b in KnightMoves(a) {
      var k := TargetsFrom(a, KnightJumps, b);
      JumpShape(k);
    }
  }

  /** Where a jump of two squares one way and one square the other stands among the knight's eight jumps. */
  lemma JumpIndex(dc: int, dr: int) returns (k: nat)
    requires (Abs(dc) == 1 && Abs(dr) == 2) || (Abs(dc) == 2 && Abs(dr) == 1)
    ensures k < |KnightJumps| && KnightJumps[k] == (dc, dr)
  {
    k := (if Abs(dc) == 2 then 0 else 4) + (if dc > 0 then 0 else 2) + (if dr > 0 then 0 else 1);
  }

  /** Each of the knight's eight jumps goes two squares one way and one square the other. */
  lemma JumpShape(k: nat)
    requires k < |KnightJumps|
    ensures var (dc, dr) := KnightJumps[k];
      (Abs(dc) == 1 && Abs(dr) == 2) || (Abs(dc) == 2 && Abs(dr) == 1)
  {
  }

  /** The 64 squares of the board. */
  ghost const Board: set<Square> := set c, r | 1 <= c <= 8 && 1 <= r <= 8 :: Square(c, r)

  /** A square is inside exactly when it is one of the 64 squares `a1`..`h8` of the board. */
  lemma InsideBoard(sq: Square)
    ensures Inside(sq) <==> sq in Board
  {
    assert sq == Square(sq.column, sq.row);
  }

  /** Knight moves never leave the board. */
  lemma BoardClosed()
    ensures Bfs.Closed(KnightMoves, Board)
  {
    forall v, w | v in Board && w in KnightMoves(v) ensures w in Board {
      InsideBoard(w);
    }
  }

  /**
   * `knightMoveNumber`: 0 for the same square, otherwise the breadth-first
   * search over knight moves; the result is the least number of knight moves
   * from `start` to `end`, or -1 when there is no knight path.
   */
  method KnightMoveNumber(start: Square, end: Square) returns (r: Result<int>)
    ensures r.Fail? <==> !Inside(start) || !Inside(end)
    ensures r.Fail? ==> r.error == IllegalArgument
    ensures r.Ok? ==> Bfs.IsDistance(KnightMoves, start, end, r.value)
  {
    if !Inside(start) || !Inside(end) {
      return Fail(IllegalArgument);
    }
    if start == end {
      assert Bfs.AtLevel(KnightMoves, start, end, 0);
      return Ok(0);
    }
    InsideBoard(start);
    BoardClosed();
    var d := Bfs.Distance(KnightMoves, start, end, Board);
    return Ok(d);
  }

  /**
   * `knightTrajectory`: `[start]` for the same square, otherwise the
   * breadth-first search with parents followed by the walk back: knight
   * moves from `start` to `end`, as many as `knightMoveNumber`.
   */
  method KnightTrajectory(start: Square, end: Square) returns (r: Result<seq<Square>>)
    ensures r.Fail? <==> !Inside(start) || !Inside(end)
    ensures r.Fail? ==> r.error == IllegalArgument
    ensures r.Ok? && r.value != [] ==> && Bfs.IsPath(KnightMoves, r.value) && r.value[0] == start
                                       && r.value[|r.value| - 1] == end
                                       && Bfs.IsDistance(KnightMoves, start, end, |r.value| - 1)
    ensures r.Ok? && r.value == [] ==> Bfs.IsDistance(KnightMoves, start, end, -1)
  {
    if !Inside(start) || !Inside(end) {
      return Fail(IllegalArgument);
    }
    if start == end {
      assert Bfs.AtLevel(KnightMoves, start, end, 0);
      return Ok([start]);
    }
    InsideBoard(start);
    BoardClosed();
    var path := Bfs.Trajectory(KnightMoves, start, end, Board);
    return Ok(path);
  }
}
