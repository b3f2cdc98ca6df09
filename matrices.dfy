/**
 * The integer matrix exercises of Lesson 9, task 2: generators that number
 * the cells of a new matrix, transforms that compute one matrix from
 * another, the lock-and-key search and the game of fifteen.
 *
 * Every function reads its argument through `get`; the model takes those
 * arguments with every cell written (`Full`), and `At` is the value `get`
 * returns.
 */
module Matrices {
  import opened Wrappers
  import opened Arith
  import opened Matrix

  /** The value `get(i, j)` returns from a matrix whose cells are all written. */
  function At(m: MatrixImpl<int>, i: int, j: int): int
    requires m.Valid() && m.InRange(i, j)
    reads m.data
  {
    Val(m.data[i, j])
  }

  // ------------------------------------------------------------ generateSpiral

  /** The ring of cell `(i, j)`, counting the outer perimeter as ring 0. */
  function Ring(height: int, width: int, i: int, j: int): int {
    RectangleLevel(height, width, i, j) - 1
  }

  /** The number of cells on the perimeter of an `rh × rw` block. */
  function RingSize(rh: int, rw: int): int {
    if rh == 1 then rw else if rw == 1 then rh else 2 * rw + 2 * rh - 4
  }

  /** The number of cells on rings `0 .. k-1`. */
  function RingStart(height: int, width: int, k: nat): int {
    if k == 0 then 0
    else RingStart(height, width, k - 1) + RingSize(height - 2 * (k - 1), width - 2 * (k - 1))
  }

  /**
   * The place of cell `(i, j)` on ring `k`, walked clockwise from its
   * top-left corner: the top row, the right column, the bottom row leftwards
   * and the left column upwards.
   */
  function RingOffset(height: int, width: int, k: int, i: int, j: int): int {
    var top, left, bottom, right := k, k, height - 1 - k, width - 1 - k;
    var rh, rw := bottom - top + 1, right - left + 1;
    if i == top then j - left
    else if j == right then rw + (i - top - 1)
    else if i == bottom then rw + rh - 1 + (right - 1 - j)
    else 2 * rw + rh - 2 + (bottom - 1 - i)
  }

  /** The number `generateSpiral` puts in cell `(i, j)`. */
  function SpiralNumber(height: int, width: int, i: int, j: int): int
    requires 0 <= i < height && 0 <= j < width
  {
    var k := Ring(height, width, i, j);
    1 + RingStart(height, width, k) + RingOffset(height, width, k, i, j)
  }

  /** Before ring `k`, while every earlier ring is a full perimeter: `h·w - (h-2k)(w-2k)`. */
  lemma {:induction false} RingStartClosed(height: int, width: int, k: nat)
    requires 2 * k <= height && 2 * k <= width
    ensures RingStart(height, width, k) == height * width - (height - 2 * k) * (width - 2 * k)
  {
    if k > 0 {
      RingStartClosed(height, width, k - 1);
      var a, b := height - 2 * k, width - 2 * k;
      assert (a + 2) * (b + 2) == a * b + 2 * a + 2 * b + 4;
    }
  }

  /** The offset of a cell on its ring is smaller than the size of the ring. */
  lemma RingOffsetRange(height: int, width: int, i: int, j: int)
    requires 0 <= i < height && 0 <= j < width
    ensures var k := Ring(height, width, i, j);
            0 <= RingOffset(height, width, k, i, j) < RingSize(height - 2 * k, width - 2 * k)
  {
  }

  /** A ring has no more cells than the block it surrounds. */
  lemma RingSizeAtMost(rh: int, rw: int)
    requires rh >= 1 && rw >= 1
    ensures 1 <= RingSize(rh, rw) <= rh * rw
  {
    if rh > 1 && rw > 1 {
      assert (rh - 2) * (rw - 2) >= 0;
      assert rh * rw == (rh - 2) * (rw - 2) + 2 * rh + 2 * rw - 4;
    }
  }

  /** The spiral numbers lie in `1..height·width`. */
  lemma SpiralNumberRange(height: int, width: int, i: int, j: int)
    requires 0 <= i < height && 0 <= j < width
    ensures 1 <= SpiralNumber(height, width, i, j) <= height * width
  {
    var k := Ring(height, width, i, j);
    RingStartClosed(height, width, k);
    RingOffsetRange(height, width, i, j);
    var a, b := height - 2 * k, width - 2 * k;
    RingSizeAtMost(a, b);
    assert height * width - a * b >= 0 by {
      assert a <= height && b <= width;
      MulMonotone(a, height, b, width);
    }
  }

  lemma MulMonotone(a: int, c: int, b: int, d: int)
    requires 0 <= a <= c && 0 <= b <= d
    ensures a * b <= c * d
  {
    assert a * b <= c * b;
    assert c * b <= c * d;
  }

  /** Rings further in start later: every ring before `k'` holds at least one cell. */
  lemma {:induction false} RingStartGrows(height: int, width: int, k: nat, k': nat)
    requires k <= k' && 2 * k' < height && 2 * k' < width
    ensures RingStart(height, width, k) + RingSize(height - 2 * k, width - 2 * k) <= RingStart(height, width, k') ||
            k == k'
    decreases k' - k
  {
    if k < k' - 1 {
      RingStartGrows(height, width, k + 1, k');
      RingSizeAtMost(height - 2 * (k + 1), width - 2 * (k + 1));
    }
  }

  /** Two different cells of one ring have different places on it. */
  lemma RingOffsetInjective(height: int, width: int, i: int, j: int, i': int, j': int)
    requires 0 <= i < height && 0 <= j < width && 0 <= i' < height && 0 <= j' < width
    requires i != i' || j != j'
    requires Ring(height, width, i, j) == Ring(height, width, i', j')
    ensures var k := Ring(height, width, i, j);
            RingOffset(height, width, k, i, j) != RingOffset(height, width, k, i', j')
  {
  }

  /** Two different cells get different spiral numbers. */
  lemma SpiralNumberInjective(height: int, width: int, i: int, j: int, i': int, j': int)
    requires 0 <= i < height && 0 <= j < width && 0 <= i' < height && 0 <= j' < width
    requires i != i' || j != j'
    ensures SpiralNumber(height, width, i, j) != SpiralNumber(height, width, i', j')
  {
    var k, k' := Ring(height, width, i, j), Ring(height, width, i', j');
    if k == k' {
      RingOffsetInjective(height, width, i, j, i', j');
    } else if k < k' {
      RingOffsetRange(height, width, i, j);
      RingOffsetRange(height, width, i', j');
      RingStartGrows(height, width, k, k');
    } else {
      RingOffsetRange(height, width, i, j);
      RingOffsetRange(height, width, i', j');
      RingStartGrows(height, width, k', k);
    }
  }

  /** Ring `k` is not empty. */
  predicate RingOpen(height: int, width: int, k: int) {
    0 <= k && 2 * k < height && 2 * k < width
  }

  /** The four sides of ring `k`, as the four loops of `generateSpiral` walk them. */
  predicate OnTop(height: int, width: int, k: int, i: int, j: int) {
    i == k && k <= j <= width - 1 - k
  }

  predicate OnRight(height: int, width: int, k: int, i: int, j: int) {
    j == width - 1 - k && k < i <= height - 1 - k
  }

  predicate OnBottom(height: int, width: int, k: int, i: int, j: int) {
    i == height - 1 - k && k < i && k <= j < width - 1 - k
  }

  predicate OnLeft(height: int, width: int, k: int, i: int, j: int) {
    j == k && j < width - 1 - k && k < i < height - 1 - k
  }

  /** The cells of ring `k` are exactly those on its four sides. */
  lemma RingSides(height: int, width: int, k: int, i: int, j: int)
    requires RingOpen(height, width, k) && 0 <= i < height && 0 <= j < width
    ensures Ring(height, width, i, j) == k <==>
            OnTop(height, width, k, i, j) || OnRight(height, width, k, i, j) ||
            OnBottom(height, width, k, i, j) || OnLeft(height, width, k, i, j)
  {
  }

  /** Every cell lies on a ring no deeper than the last, thin one. */
  lemma LastRing(height: int, width: int, k: int, i: int, j: int)
    requires RingOpen(height, width, k) && (height - 2 * k == 1 || width - 2 * k == 1)
    requires 0 <= i < height && 0 <= j < width
    ensures Ring(height, width, i, j) <= k
  {
  }

  /** The cells of the rings before `k` hold their spiral numbers. */
  ghost predicate SpiralDone(m: MatrixImpl<int>, k: int)
    requires m.Valid()
    reads m.data
  {
    forall p, q :: m.InRange(p, q) && Ring(m.height, m.width, p, q) < k ==>
      m.data[p, q] == Some(SpiralNumber(m.height, m.width, p, q))
  }

  /** The first loop of a turn: the top row, left to right. */
  method SpiralTop(matrix: MatrixImpl<int>, k: int, num: int) returns (next: int)
    requires matrix.Valid() && RingOpen(matrix.height, matrix.width, k)
    requires num == 1 + RingStart(matrix.height, matrix.width, k)
    modifies matrix.data
    ensures next == num + (matrix.width - 2 * k)
    ensures forall p, q :: matrix.InRange(p, q) && OnTop(matrix.height, matrix.width, k, p, q) ==>
              matrix.data[p, q] == Some(SpiralNumber(matrix.height, matrix.width, p, q))
    ensures forall p, q :: matrix.InRange(p, q) && !OnTop(matrix.height, matrix.width, k, p, q) ==>
              matrix.data[p, q] == old(matrix.data[p, q])
  {
    var h, w := matrix.height, matrix.width;
    next := num;
    for i := k to w - k
      invariant next == num + (i - k)
      invariant forall q :: k <= q < i ==> matrix.data[k, q] == Some(SpiralNumber(h, w, k, q))
      invariant forall p, q :: matrix.InRange(p, q) && !(p == k && k <= q < i) ==>
                  matrix.data[p, q] == old(matrix.data[p, q])
    {
      assert Ring(h, w, k, i) == k;
      var e := matrix.Set(k, i, next);
      next := next + 1;
    }
  }

  /** The second loop: the right column, downwards below the top row. */
  method SpiralRight(matrix: MatrixImpl<int>, k: int, num: int) returns (next: int)
    requires matrix.Valid() && RingOpen(matrix.height, matrix.width, k)
    requires num == 1 + RingStart(matrix.height, matrix.width, k) + (matrix.width - 2 * k)
    modifies matrix.data
    ensures next == num + (matrix.height - 2 * k - 1)
    ensures forall p, q :: matrix.InRange(p, q) && OnRight(matrix.height, matrix.width, k, p, q) ==>
              matrix.data[p, q] == Some(SpiralNumber(matrix.height, matrix.width, p, q))
    ensures forall p, q :: matrix.InRange(p, q) && !OnRight(matrix.height, matrix.width, k, p, q) ==>
              matrix.data[p, q] == old(matrix.data[p, q])
  {
    var h, w := matrix.height, matrix.width;
    var right := w - 1 - k;
    next := num;
    for i := k + 1 to h - k
      invariant next == num + (i - k - 1)
      invariant forall p :: k < p < i ==> matrix.data[p, right] == Some(SpiralNumber(h, w, p, right))
      invariant forall p, q :: matrix.InRange(p, q) && !(q == right && k < p < i) ==>
                  matrix.data[p, q] == old(matrix.data[p, q])
    {
      assert Ring(h, w, i, right) == k;
      var e := matrix.Set(i, right, next);
      next := next + 1;
    }
  }

  /** The third loop: the bottom row, leftwards, when the ring has two rows. */
  method SpiralBottom(matrix: MatrixImpl<int>, k: int, num: int) returns (next: int)
    requires matrix.Valid() && RingOpen(matrix.height, matrix.width, k) && matrix.height - 2 * k >= 2
    requires num == 1 + RingStart(matrix.height, matrix.width, k) + (matrix.width - 2 * k) +
                    (matrix.height - 2 * k - 1)
    modifies matrix.data
    ensures next == num + (matrix.width - 2 * k - 1)
    ensures forall p, q :: matrix.InRange(p, q) && OnBottom(matrix.height, matrix.width, k, p, q) ==>
              matrix.data[p, q] == Some(SpiralNumber(matrix.height, matrix.width, p, q))
    ensures forall p, q :: matrix.InRange(p, q) && !OnBottom(matrix.height, matrix.width, k, p, q) ==>
              matrix.data[p, q] == old(matrix.data[p, q])
  {
    var h, w := matrix.height, matrix.width;
    var bottom := h - 1 - k;
    next := num;
    for j := w - 1 - k downto k
      invariant next == num + (w - 1 - k - j)
      invariant forall q :: j <= q < w - 1 - k ==> matrix.data[bottom, q] == Some(SpiralNumber(h, w, bottom, q))
      invariant forall p, q :: matrix.InRange(p, q) && !(p == bottom && j <= q < w - 1 - k) ==>
                  matrix.data[p, q] == old(matrix.data[p, q])
    {
      assert Ring(h, w, bottom, j) == k;
      var e := matrix.Set(bottom, j, next);
      next := next + 1;
    }
  }

  /** The last loop: the left column, upwards, when the ring has two columns. */
  method SpiralLeft(matrix: MatrixImpl<int>, k: int, num: int) returns (next: int)
    requires matrix.Valid() && RingOpen(matrix.height, matrix.width, k) && matrix.width - 2 * k >= 2
    requires matrix.height - 2 * k >= 2 ==>
               num == 1 + RingStart(matrix.height, matrix.width, k) + 2 * (matrix.width - 2 * k) +
                      (matrix.height - 2 * k) - 2
    modifies matrix.data
    ensures next == num + Max(0, matrix.height - 2 * k - 2)
    ensures forall p, q :: matrix.InRange(p, q) && OnLeft(matrix.height, matrix.width, k, p, q) ==>
              matrix.data[p, q] == Some(SpiralNumber(matrix.height, matrix.width, p, q))
    ensures forall p, q :: matrix.InRange(p, q) && !OnLeft(matrix.height, matrix.width, k, p, q) ==>
              matrix.data[p, q] == old(matrix.data[p, q])
  {
    var h, w := matrix.height, matrix.width;
    next := num;
    if h - 2 * k < 2 {
      return;
    }
    for i := h - 1 - k downto k + 1
      invariant next == num + (h - 1 - k - i)
      invariant forall p :: i <= p < h - 1 - k ==> matrix.data[p, k] == Some(SpiralNumber(h, w, p, k))
      invariant forall p, q :: matrix.InRange(p, q) && !(q == k && i <= p < h - 1 - k) ==>
                  matrix.data[p, q] == old(matrix.data[p, q])
    {
      assert Ring(h, w, i, k) == k;
      var e := matrix.Set(i, k, next);
      next := next + 1;
    }
  }

  /**
   * One turn of the `while` loop of `generateSpiral`: ring `k`, side by
   * side, with the bounds updates and the two guards of the source.
   */
  method SpiralTurn(matrix: MatrixImpl<int>, k: int, num: int)
    returns (top: int, bottom: int, left: int, right: int, next: int)
    requires matrix.Valid() && RingOpen(matrix.height, matrix.width, k)
    requires num == 1 + RingStart(matrix.height, matrix.width, k) && SpiralDone(matrix, k)
    modifies matrix.data
    ensures SpiralDone(matrix, k + 1)
    ensures (top == k + 1 && left == k + 1 && bottom == matrix.height - 2 - k && right == matrix.width - 2 - k &&
             next == 1 + RingStart(matrix.height, matrix.width, k + 1)) ||
            (SpiralDone(matrix, k + 1) && (matrix.height - 2 * k == 1 || matrix.width - 2 * k == 1) &&
             !(top <= bottom && left <= right))
  {
    var h, w := matrix.height, matrix.width;
    top, bottom, left, right := k, h - 1 - k, k, w - 1 - k;
    next := SpiralTop(matrix, k, num);
    top := top + 1;
    next := SpiralRight(matrix, k, next);
    right := right - 1;
    if top <= bottom {
      next := SpiralBottom(matrix, k, next);
      bottom := bottom - 1;
    }
    if left <= right {
      next := SpiralLeft(matrix, k, next);
      left := left + 1;
    }
    forall p, q | matrix.InRange(p, q) && Ring(h, w, p, q) < k + 1
      ensures matrix.data[p, q] == Some(SpiralNumber(h, w, p, q))
    {
      RingSides(h, w, k, p, q);
    }
  }

  /**
   * `generateSpiral(height, width)`: IllegalArgument for a non-positive size;
   * otherwise cell `(i, j)` holds its spiral number.
   */
  method GenerateSpiral(height: int, width: int) returns (r: Result<MatrixImpl<int>>)
    ensures r.Fail? <==> height <= 0 || width <= 0
    ensures r.Fail? ==> r.error == IllegalArgument
    ensures r.Ok? ==> fresh(r.value.data) && r.value.Valid() &&
                      r.value.height == height && r.value.width == width &&
                      forall i, j :: r.value.InRange(i, j) ==>
                        r.value.data[i, j] == Some(SpiralNumber(height, width, i, j))
  {
    if height <= 0 || width <= 0 {
      return Fail(IllegalArgument);
    }
    var matrix := new MatrixImpl.Filled(height, width, 0);
    var top, bottom, left, right, num := 0, height - 1, 0, width - 1, 1;
    ghost var k := 0;
    while top <= bottom && left <= right
      invariant fresh(matrix.data) && matrix.Valid() && matrix.height == height && matrix.width == width
      invariant k >= 0 && SpiralDone(matrix, k)
      invariant (top == k && left == k && bottom == height - 1 - k && right == width - 1 - k &&
                 num == 1 + RingStart(height, width, k)) ||
                (top > bottom || left > right)
      invariant (top > bottom || left > right) ==>
                  (2 * k >= height || 2 * k >= width ||
                   (RingOpen(height, width, k - 1) && (height - 2 * (k - 1) == 1 || width - 2 * (k - 1) == 1)))
      decreases height + width - 2 * k
    {
      top, bottom, left, right, num := SpiralTurn(matrix, top, num);
      k := k + 1;
    }
    forall i, j | matrix.InRange(i, j)
      ensures matrix.data[i, j] == Some(SpiralNumber(height, width, i, j))
    {
      if !(2 * k >= height || 2 * k >= width) {
        LastRing(height, width, k - 1, i, j);
      }
    }
    return Ok(matrix);
  }

  // ------------------------------------------------------------ generateRectangles

  /** `1 +` the distance of cell `(i, j)` from the nearest edge. */
  function RectangleLevel(height: int, width: int, i: int, j: int): int {
    1 + Min(Min(i, height - 1 - i), Min(j, width - 1 - j))
  }

  /**
   * Cell `(i, j)` lies on the perimeter of the sub-matrix left after
   * stripping `k - 1` rings from every side.
   */
  predicate OnRing(height: int, width: int, i: int, j: int, k: int) {
    k - 1 <= i <= height - k && k - 1 <= j <= width - k &&
    (i == k - 1 || i == height - k || j == k - 1 || j == width - k)
  }

  /** The outer perimeter gets 1, the perimeter inside it 2, and so on. */
  lemma RectangleLevelIsRing(height: int, width: int, i: int, j: int, k: int)
    requires 0 <= i < height && 0 <= j < width && k >= 1
    ensures RectangleLevel(height, width, i, j) == k <==> OnRing(height, width, i, j, k)
  {
  }

  /**
   * `generateRectangles(height, width)`: IllegalArgument for a non-positive
   * size; otherwise every cell holds its ring number.
   */
  method GenerateRectangles(height: int, width: int) returns (r: Result<MatrixImpl<int>>)
    ensures r.Fail? <==> height <= 0 || width <= 0
    ensures r.Fail? ==> r.error == IllegalArgument
    ensures r.Ok? ==> fresh(r.value.data) && r.value.Valid() &&
                      r.value.height == height && r.value.width == width &&
                      forall i, j :: r.value.InRange(i, j) ==>
                        r.value.data[i, j] == Some(RectangleLevel(height, width, i, j))
  {
    if height <= 0 || width <= 0 {
      return Fail(IllegalArgument);
    }
    var matrix := new MatrixImpl.Filled(height, width, 0);
    for i := 0 to height
      invariant forall p, q :: 0 <= p < i && 0 <= q < width ==>
                  matrix.data[p, q] == Some(RectangleLevel(height, width, p, q))
    {
      for j := 0 to width
        invariant forall p, q :: 0 <= p < i && 0 <= q < width ==>
                    matrix.data[p, q] == Some(RectangleLevel(height, width, p, q))
        invariant forall q :: 0 <= q < j ==> matrix.data[i, q] == Some(RectangleLevel(height, width, i, q))
      {
        var distanceToTop := i;
        var distanceToBottom := height - 1 - i;
        var distanceToLeft := j;
        var distanceToRight := width - 1 - j;
        var minDistance := Min(Min(distanceToTop, distanceToBottom), Min(distanceToLeft, distanceToRight));
        var e := matrix.Set(i, j, minDistance + 1);
      }
    }
    return Ok(matrix);
  }

  // ------------------------------------------------------------ generateSnake

  /** The number of cells on anti-diagonal `d` (cells with `i + j == d`). */
  function DiagonalLength(height: int, width: int, d: int): int {
    Min(d, height - 1) - Max(0, d - width + 1) + 1
  }

  /** The number of cells on the anti-diagonals before `d`. */
  function CellsBefore(height: int, width: int, d: nat): int {
    if d == 0 then 0 else CellsBefore(height, width, d - 1) + DiagonalLength(height, width, d - 1)
  }

  /**
   * The number `generateSnake` puts in cell `(i, j)`: after all the earlier
   * anti-diagonals, counting from the top of its own one.
   */
  function SnakeNumber(height: int, width: int, i: int, j: int): int
    requires 0 <= i && 0 <= j
  {
    1 + CellsBefore(height, width, i + j) + (i - Max(0, i + j - width + 1))
  }

  /** Every anti-diagonal of the matrix holds at least one cell. */
  lemma CellsBeforeGrows(height: int, width: int, d: nat, e: nat)
    requires height > 0 && width > 0 && d <= e <= height + width - 1
    ensures CellsBefore(height, width, d) + (e - d) <= CellsBefore(height, width, e)
    decreases e - d
  {
    if d < e {
      CellsBeforeGrows(height, width, d + 1, e);
    }
  }

  /** One more row adds one cell to every anti-diagonal from `height` on. */
  lemma {:induction false} CellsBeforeNextRow(height: int, width: int, d: nat)
    requires height >= 0
    ensures CellsBefore(height + 1, width, d) == CellsBefore(height, width, d) + Max(0, d - height)
  {
    if d > 0 {
      CellsBeforeNextRow(height, width, d - 1);
      assert DiagonalLength(height + 1, width, d - 1) - DiagonalLength(height, width, d - 1) ==
             (if d - 1 >= height then 1 else 0);
      assert Max(0, d - height) == Max(0, d - 1 - height) + (if d - 1 >= height then 1 else 0);
    }
  }

  /** The anti-diagonals together hold all `height · width` cells. */
  lemma {:induction false} CellsBeforeAll(height: int, width: int)
    requires height > 0 && width > 0
    ensures CellsBefore(height, width, height + width - 1) == height * width
    decreases height
  {
    if height == 1 {
      OneRowDiagonals(width, width);
    } else {
      CellsBeforeAll(height - 1, width);
      CellsBeforeNextRow(height - 1, width, height + width - 1);
      assert DiagonalLength(height - 1, width, height + width - 2) == 0;
      assert CellsBefore(height - 1, width, height + width - 1) == (height - 1) * width;
    }
  }

  lemma {:induction false} OneRowDiagonals(width: int, d: nat)
    requires d <= width
    ensures CellsBefore(1, width, d) == d
  {
    if d > 0 {
      OneRowDiagonals(width, d - 1);
    }
  }

  /** The snake numbers lie in `1..height·width`. */
  lemma SnakeNumberRange(height: int, width: int, i: int, j: int)
    requires 0 <= i < height && 0 <= j < width
    ensures 1 <= SnakeNumber(height, width, i, j) <= height * width
  {
    var d := i + j;
    CellsBeforeGrows(height, width, 0, d);
    CellsBeforeGrows(height, width, d + 1, height + width - 1);
    CellsBeforeAll(height, width);
  }

  /** Two different cells get different snake numbers. */
  lemma SnakeNumberInjective(height: int, width: int, i: int, j: int, i': int, j': int)
    requires 0 <= i < height && 0 <= j < width && 0 <= i' < height && 0 <= j' < width
    requires i != i' || j != j'
    ensures SnakeNumber(height, width, i, j) != SnakeNumber(height, width, i', j')
  {
    if i + j < i' + j' {
      CellsBeforeGrows(height, width, i + j + 1, i' + j');
    } else if i' + j' < i + j {
      CellsBeforeGrows(height, width, i' + j' + 1, i + j);
    }
  }

  /**
   * `generateSnake(height, width)`: IllegalArgument for a non-positive size;
   * otherwise cell `(i, j)` holds its snake number.
   */
  method GenerateSnake(height: int, width: int) returns (r: Result<MatrixImpl<int>>)
    ensures r.Fail? <==> height <= 0 || width <= 0
    ensures r.Fail? ==> r.error == IllegalArgument
    ensures r.Ok? ==> fresh(r.value.data) && r.value.Valid() &&
                      r.value.height == height && r.value.width == width &&
                      forall i, j :: r.value.InRange(i, j) ==>
                        r.value.data[i, j] == Some(SnakeNumber(height, width, i, j))
  {
    if height <= 0 || width <= 0 {
      return Fail(IllegalArgument);
    }
    var matrix := new MatrixImpl.Filled(height, width, 0);
    var num := 1;
    for d := 0 to height + width - 1
      invariant num == 1 + CellsBefore(height, width, d)
      invariant forall p, q :: matrix.InRange(p, q) && p + q < d ==>
                  matrix.data[p, q] == Some(SnakeNumber(height, width, p, q))
    {
      var startRow := Max(0, d - width + 1);
      var endRow := Min(d, height - 1);
      for i := startRow to endRow + 1
        invariant num == 1 + CellsBefore(height, width, d) + (i - startRow)
        invariant forall p, q :: matrix.InRange(p, q) && p + q < d ==>
                    matrix.data[p, q] == Some(SnakeNumber(height, width, p, q))
        invariant forall p, q :: matrix.InRange(p, q) && p + q == d && p < i ==>
                    matrix.data[p, q] == Some(SnakeNumber(height, width, p, q))
      {
        var j := d - i;
        if 0 <= j < width {
          var e := matrix.Set(i, j, num);
          num := num + 1;
        }
      }
    }
    return Ok(matrix);
  }

  // ------------------------------------------------------------ rotate

  /**
   * `rotate(matrix)`: IllegalArgument unless the matrix is square; otherwise
   * a new matrix turned a quarter clockwise, `result[i, j] = matrix[n-1-j, i]`.
   */
  method Rotate<E(==)>(matrix: MatrixImpl<E>) returns (r: Result<MatrixImpl<E>>)
    requires matrix.Valid() && matrix.Full()
    ensures r.Fail? <==> !matrix.IsSquare()
    ensures r.Fail? ==> r.error == IllegalArgument
    ensures r.Ok? ==> fresh(r.value.data) && r.value.Valid() && r.value.Full() &&
                      r.value.height == matrix.height && r.value.width == matrix.width &&
                      forall i, j :: r.value.InRange(i, j) ==>
                        r.value.data[i, j] == matrix.data[matrix.height - 1 - j, i]
  {
    if matrix.height != matrix.width {
      return Fail(IllegalArgument);
    }
    var size := matrix.height;
    var result := new MatrixImpl<E>.Empty(size, size);
    for i := 0 to size
      invariant forall p, q :: 0 <= p < i && 0 <= q < size ==> result.data[p, q] == matrix.data[size - 1 - q, p]
    {
      for j := 0 to size
        invariant forall p, q :: 0 <= p < i && 0 <= q < size ==> result.data[p, q] == matrix.data[size - 1 - q, p]
        invariant forall q :: 0 <= q < j ==> result.data[i, q] == matrix.data[size - 1 - q, i]
      {
        var v := matrix.Get(size - 1 - j, i);
        var e := result.Set(i, j, v.value);
      }
    }
    return Ok(result);
  }

  /** Four quarter turns give back the original matrix. */
  method RotateFour<E(==)>(matrix: MatrixImpl<E>) returns (r: MatrixImpl<E>)
    requires matrix.Valid() && matrix.Full() && matrix.IsSquare()
    ensures r.Valid() && r.height == matrix.height && r.width == matrix.width
    ensures forall i, j :: matrix.InRange(i, j) ==> r.data[i, j] == matrix.data[i, j]
  {
    var n := matrix.height;
    var r1 := Rotate(matrix);
    var r2 := Rotate(r1.value);
    var r3 := Rotate(r2.value);
    var r4 := Rotate(r3.value);
    r := r4.value;
    forall i, j | 0 <= i < n && 0 <= j < n
      ensures r.data[i, j] == matrix.data[i, j]
    {
      calc {
        r.data[i, j];
        r3.value.data[n - 1 - j, i];
        r2.value.data[n - 1 - i, n - 1 - j];
        r1.value.data[j, n - 1 - i];
        matrix.data[i, j];
      }
    }
  }

  // ------------------------------------------------------------ sumNeighbours

  /** The value of cell `(i, j)` if it exists, 0 otherwise. */
  function CellOrZero(m: MatrixImpl<int>, i: int, j: int): int
    requires m.Valid()
    reads m.data
  {
    if m.InRange(i, j) then At(m, i, j) else 0
  }

  /** The sum of the eight cells around `(i, j)` that exist. */
  function NeighbourSum(m: MatrixImpl<int>, i: int, j: int): int
    requires m.Valid()
    reads m.data
  {
    CellOrZero(m, i - 1, j - 1) + CellOrZero(m, i - 1, j) + CellOrZero(m, i - 1, j + 1) +
    CellOrZero(m, i, j - 1) + CellOrZero(m, i, j + 1) +
    CellOrZero(m, i + 1, j - 1) + CellOrZero(m, i + 1, j) + CellOrZero(m, i + 1, j + 1)
  }

  /** The offsets of the eight neighbours, in the order the loop visits them. */
  const Directions: seq<(int, int)> :=
    [(-1, -1), (-1, 0), (-1, 1), (0, -1), (0, 1), (1, -1), (1, 0), (1, 1)]

  /** The sum over the existing neighbours at the first `k` offsets. */
  function DirectionSum(m: MatrixImpl<int>, i: int, j: int, k: nat): int
    requires m.Valid() && k <= |Directions|
    reads m.data
  {
    if k == 0 then 0
    else DirectionSum(m, i, j, k - 1) + CellOrZero(m, i + Directions[k - 1].0, j + Directions[k - 1].1)
  }

  /** The offsets cover the eight neighbours once each. */
  lemma DirectionSumIsNeighbourSum(m: MatrixImpl<int>, i: int, j: int)
    requires m.Valid()
    ensures DirectionSum(m, i, j, 8) == NeighbourSum(m, i, j)
  {
    assert Directions[0] == (-1, -1) && Directions[1] == (-1, 0) && Directions[2] == (-1, 1);
    assert Directions[3] == (0, -1) && Directions[4] == (0, 1);
    assert Directions[5] == (1, -1) && Directions[6] == (1, 0) && Directions[7] == (1, 1);
    assert DirectionSum(m, i, j, 1) == CellOrZero(m, i - 1, j - 1);
    assert DirectionSum(m, i, j, 2) == DirectionSum(m, i, j, 1) + CellOrZero(m, i - 1, j);
    assert DirectionSum(m, i, j, 3) == DirectionSum(m, i, j, 2) + CellOrZero(m, i - 1, j + 1);
    assert DirectionSum(m, i, j, 4) == DirectionSum(m, i, j, 3) + CellOrZero(m, i, j - 1);
    assert DirectionSum(m, i, j, 5) == DirectionSum(m, i, j, 4) + CellOrZero(m, i, j + 1);
    assert DirectionSum(m, i, j, 6) == DirectionSum(m, i, j, 5) + CellOrZero(m, i + 1, j - 1);
    assert DirectionSum(m, i, j, 7) == DirectionSum(m, i, j, 6) + CellOrZero(m, i + 1, j);
  }

  /** A single cell has no neighbours, so the special case of `sumNeighbours` agrees. */
  lemma SingleCellHasNoNeighbours(m: MatrixImpl<int>)
    requires m.Valid() && m.height == 1 && m.width == 1
    ensures NeighbourSum(m, 0, 0) == 0
  {
  }

  /** The loop over the eight offsets for one cell of `sumNeighbours`. */
  method NeighbourSumAt(matrix: MatrixImpl<int>, i: int, j: int) returns (sum: int)
    requires matrix.Valid() && matrix.Full()
    ensures sum == NeighbourSum(matrix, i, j)
  {
    sum := 0;
    for k := 0 to |Directions|
      invariant sum == DirectionSum(matrix, i, j, k)
    {
      var (di, dj) := Directions[k];
      var ni := i + di;
      var nj := j + dj;
      if 0 <= ni < matrix.height && 0 <= nj < matrix.width {
        var v := matrix.Get(ni, nj);
        sum := sum + v.value;
      }
    }
    DirectionSumIsNeighbourSum(matrix, i, j);
  }

  /**
   * `sumNeighbours(matrix)`: every cell of the result is the sum of the
   * existing neighbours of the same cell of `matrix`.
   */
  method SumNeighbours(matrix: MatrixImpl<int>) returns (result: MatrixImpl<int>)
    requires matrix.Valid() && matrix.Full()
    ensures fresh(result.data) && result.Valid()
    ensures result.height == matrix.height && result.width == matrix.width
    ensures forall i, j :: result.InRange(i, j) ==> result.data[i, j] == Some(NeighbourSum(matrix, i, j))
  {
    result := new MatrixImpl.Filled(matrix.height, matrix.width, 0);
    if matrix.height == 1 && matrix.width == 1 {
      SingleCellHasNoNeighbours(matrix);
      return;
    }
    for i := 0 to matrix.height
      invariant forall p, q :: 0 <= p < i && 0 <= q < matrix.width ==>
                  result.data[p, q] == Some(NeighbourSum(matrix, p, q))
    {
      for j := 0 to matrix.width
        invariant forall p, q :: 0 <= p < i && 0 <= q < matrix.width ==>
                    result.data[p, q] == Some(NeighbourSum(matrix, p, q))
        invariant forall q :: 0 <= q < j ==> result.data[i, q] == Some(NeighbourSum(matrix, i, q))
      {
        var sum := NeighbourSumAt(matrix, i, j);
        var e := result.Set(i, j, sum);
      }
    }
  }

  // ------------------------------------------------------------ findHoles

  /** `Holes(rows, columns)`: the all-zero rows and columns. */
  datatype Holes = Holes(rows: seq<int>, columns: seq<int>)

  predicate Increasing(s: seq<int>) {
    forall a, b :: 0 <= a < b < |s| ==> s[a] < s[b]
  }

  /** Appending a value larger than all the others keeps a list increasing. */
  lemma IncreasingAppend(s: seq<int>, x: int)
    requires Increasing(s) && forall y :: y in s ==> y < x
    ensures Increasing(s + [x])
  {
    forall a, b | 0 <= a < b < |s| + 1
      ensures (s + [x])[a] < (s + [x])[b]
    {
      if b == |s| {
        assert s[a] in s;
      }
    }
  }

  /** Every cell of row `i` is 0. */
  predicate ZeroRow(m: MatrixImpl<int>, i: int)
    requires m.Valid() && 0 <= i < m.height
    reads m.data
  {
    forall j :: 0 <= j < m.width ==> At(m, i, j) == 0
  }

  /** Every cell of column `j` is 0. */
  predicate ZeroColumn(m: MatrixImpl<int>, j: int)
    requires m.Valid() && 0 <= j < m.width
    reads m.data
  {
    forall i :: 0 <= i < m.height ==> At(m, i, j) == 0
  }

  /** The inner loop over one row, stopping at the first non-zero cell. */
  method RowIsZero(m: MatrixImpl<int>, i: int) returns (allZeros: bool)
    requires m.Valid() && m.Full() && 0 <= i < m.height
    ensures allZeros <==> ZeroRow(m, i)
  {
    allZeros := true;
    for j := 0 to m.width
      invariant allZeros <==> forall q :: 0 <= q < j ==> At(m, i, q) == 0
    {
      var v := m.Get(i, j);
      if v.value != 0 {
        assert At(m, i, j) != 0;
        return false;
      }
    }
  }

  /** The inner loop over one column, stopping at the first non-zero cell. */
  method ColumnIsZero(m: MatrixImpl<int>, j: int) returns (allZeros: bool)
    requires m.Valid() && m.Full() && 0 <= j < m.width
    ensures allZeros <==> ZeroColumn(m, j)
  {
    allZeros := true;
    for i := 0 to m.height
      invariant allZeros <==> forall p :: 0 <= p < i ==> At(m, p, j) == 0
    {
      var v := m.Get(i, j);
      if v.value != 0 {
        assert At(m, i, j) != 0;
        return false;
      }
    }
  }

  /**
   * `findHoles(matrix)`: the numbers of the all-zero rows and of the
   * all-zero columns, each list exactly those, in increasing order.
   */
  method FindHoles(matrix: MatrixImpl<int>) returns (h: Holes)
    requires matrix.Valid() && matrix.Full()
    ensures forall i :: i in h.rows <==> 0 <= i < matrix.height && ZeroRow(matrix, i)
    ensures forall j :: j in h.columns <==> 0 <= j < matrix.width && ZeroColumn(matrix, j)
    ensures Increasing(h.rows) && Increasing(h.columns)
  {
    var emptyRows: seq<int> := [];
    var emptyColumns: seq<int> := [];
    for i := 0 to matrix.height
      invariant forall x :: x in emptyRows <==> 0 <= x < i && ZeroRow(matrix, x)
      invariant Increasing(emptyRows) && forall x :: x in emptyRows ==> x < i
    {
      var allZeros := RowIsZero(matrix, i);
      if allZeros {
        IncreasingAppend(emptyRows, i);
        emptyRows := emptyRows + [i];
      }
    }
    for j := 0 to matrix.width
      invariant forall x :: x in emptyColumns <==> 0 <= x < j && ZeroColumn(matrix, x)
      invariant Increasing(emptyColumns) && forall x :: x in emptyColumns ==> x < j
    {
      var allZeros := ColumnIsZero(matrix, j);
      if allZeros {
        IncreasingAppend(emptyColumns, j);
        emptyColumns := emptyColumns + [j];
      }
    }
    return Holes(emptyRows, emptyColumns);
  }

  // ------------------------------------------------------------ sumSubMatrix

  /** `Σ_{y < n} matrix[x, y]`. */
  function RowSum(m: MatrixImpl<int>, x: int, n: int): int
    requires m.Valid() && 0 <= x < m.height && 0 <= n <= m.width
    reads m.data
    decreases n
  {
    if n == 0 then 0 else RowSum(m, x, n - 1) + At(m, x, n - 1)
  }

  /** `Σ_{x < a, y < b} matrix[x, y]`: the top-left `a × b` block. */
  function BlockSum(m: MatrixImpl<int>, a: int, b: int): int
    requires m.Valid() && 0 <= a <= m.height && 0 <= b <= m.width
    reads m.data
    decreases a
  {
    if a == 0 then 0 else BlockSum(m, a - 1, b) + RowSum(m, a - 1, b)
  }

  /** `Σ_{x < a} matrix[x, y]`. */
  function ColumnSum(m: MatrixImpl<int>, y: int, a: int): int
    requires m.Valid() && 0 <= y < m.width && 0 <= a <= m.height
    reads m.data
    decreases a
  {
    if a == 0 then 0 else ColumnSum(m, y, a - 1) + At(m, a - 1, y)
  }

  /** The block sum taken column by column instead of row by row. */
  function BlockSumByColumns(m: MatrixImpl<int>, a: int, b: int): int
    requires m.Valid() && 0 <= a <= m.height && 0 <= b <= m.width
    reads m.data
    decreases b
  {
    if b == 0 then 0 else BlockSumByColumns(m, a, b - 1) + ColumnSum(m, b - 1, a)
  }

  /** Adding up a block by rows or by columns gives the same sum. */
  lemma {:induction false} BlockSumEitherWay(m: MatrixImpl<int>, a: int, b: int)
    requires m.Valid() && 0 <= a <= m.height && 0 <= b <= m.width
    ensures BlockSum(m, a, b) == BlockSumByColumns(m, a, b)
    decreases a + b
  {
    if a == 0 {
      ZeroRowsByColumns(m, b);
    } else if b == 0 {
      ZeroColumnsByRows(m, a);
    } else {
      BlockSumEitherWay(m, a - 1, b - 1);
      BlockSumEitherWay(m, a - 1, b);
      BlockSumEitherWay(m, a, b - 1);
      calc {
        BlockSum(m, a, b);
        BlockSum(m, a - 1, b) + RowSum(m, a - 1, b);
        BlockSumByColumns(m, a - 1, b) + RowSum(m, a - 1, b - 1) + At(m, a - 1, b - 1);
        BlockSumByColumns(m, a - 1, b - 1) + ColumnSum(m, b - 1, a - 1) + RowSum(m, a - 1, b - 1) + At(m, a - 1, b - 1);
        { assert BlockSum(m, a, b - 1) == BlockSum(m, a - 1, b - 1) + RowSum(m, a - 1, b - 1); }
        BlockSumByColumns(m, a, b - 1) + ColumnSum(m, b - 1, a - 1) + At(m, a - 1, b - 1);
        BlockSumByColumns(m, a, b);
      }
    }
  }

  lemma {:induction false} ZeroRowsByColumns(m: MatrixImpl<int>, b: int)
    requires m.Valid() && 0 <= b <= m.width
    ensures BlockSumByColumns(m, 0, b) == 0
    decreases b
  {
    if b > 0 {
      ZeroRowsByColumns(m, b - 1);
    }
  }

  lemma {:induction false} ZeroColumnsByRows(m: MatrixImpl<int>, a: int)
    requires m.Valid() && 0 <= a <= m.height
    ensures BlockSum(m, a, 0) == 0
    decreases a
  {
    if a > 0 {
      ZeroColumnsByRows(m, a - 1);
    }
  }

  /**
   * Inclusion–exclusion: a block sum is its corner cell plus the two blocks
   * one shorter, minus the block they share.
   */
  lemma BlockSumRecurrence(m: MatrixImpl<int>, a: int, b: int)
    requires m.Valid() && 0 < a <= m.height && 0 < b <= m.width
    ensures BlockSum(m, a, b) ==
            At(m, a - 1, b - 1) + BlockSum(m, a - 1, b) + BlockSum(m, a, b - 1) - BlockSum(m, a - 1, b - 1)
  {
    assert BlockSum(m, a, b - 1) == BlockSum(m, a - 1, b - 1) + RowSum(m, a - 1, b - 1);
  }

  /** The two innermost loops of `sumSubMatrix`: the block ending at `(i, j)`. */
  method BlockSumTo(matrix: MatrixImpl<int>, i: int, j: int) returns (sum: int)
    requires matrix.Valid() && matrix.Full() && matrix.InRange(i, j)
    ensures sum == BlockSum(matrix, i + 1, j + 1)
  {
    sum := 0;
    for x := 0 to i + 1
      invariant sum == BlockSum(matrix, x, j + 1)
    {
      for y := 0 to j + 1
        invariant sum == BlockSum(matrix, x, j + 1) + RowSum(matrix, x, y)
      {
        var v := matrix.Get(x, y);
        sum := sum + v.value;
      }
    }
  }

  /**
   * `sumSubMatrix(matrix)`: every cell of the result is the sum of the block
   * of `matrix` from the top-left corner down to that cell.
   */
  method SumSubMatrix(matrix: MatrixImpl<int>) returns (result: MatrixImpl<int>)
    requires matrix.Valid() && matrix.Full()
    ensures fresh(result.data) && result.Valid()
    ensures result.height == matrix.height && result.width == matrix.width
    ensures forall i, j :: result.InRange(i, j) ==> result.data[i, j] == Some(BlockSum(matrix, i + 1, j + 1))
  {
    result := new MatrixImpl.Filled(matrix.height, matrix.width, 0);
    for i := 0 to matrix.height
      invariant forall p, q :: 0 <= p < i && 0 <= q < matrix.width ==>
                  result.data[p, q] == Some(BlockSum(matrix, p + 1, q + 1))
    {
      for j := 0 to matrix.width
        invariant forall p, q :: 0 <= p < i && 0 <= q < matrix.width ==>
                    result.data[p, q] == Some(BlockSum(matrix, p + 1, q + 1))
        invariant forall q :: 0 <= q < j ==> result.data[i, q] == Some(BlockSum(matrix, i + 1, q + 1))
      {
        var sum := BlockSumTo(matrix, i, j);
        var e := result.Set(i, j, sum);
      }
    }
  }

  // ------------------------------------------------------------ unaryMinus

  /** `-matrix`: every cell negated. */
  method UnaryMinus(matrix: MatrixImpl<int>) returns (result: MatrixImpl<int>)
    requires matrix.Valid() && matrix.Full()
    ensures fresh(result.data) && result.Valid() && result.Full()
    ensures result.height == matrix.height && result.width == matrix.width
    ensures forall i, j :: result.InRange(i, j) ==> result.data[i, j] == Some(-At(matrix, i, j))
  {
    result := new MatrixImpl.Filled(matrix.height, matrix.width, 0);
    for i := 0 to matrix.height
      invariant forall p, q :: 0 <= p < i && 0 <= q < matrix.width ==> result.data[p, q] == Some(-At(matrix, p, q))
    {
      for j := 0 to matrix.width
        invariant forall p, q :: 0 <= p < i && 0 <= q < matrix.width ==> result.data[p, q] == Some(-At(matrix, p, q))
        invariant forall q :: 0 <= q < j ==> result.data[i, q] == Some(-At(matrix, i, q))
      {
        var v := matrix.Get(i, j);
        var e := result.Set(i, j, -v.value);
      }
    }
  }

  /** Negating twice gives back the original values. */
  method NegateTwice(matrix: MatrixImpl<int>) returns (result: MatrixImpl<int>)
    requires matrix.Valid() && matrix.Full()
    ensures result.Valid() && result.height == matrix.height && result.width == matrix.width
    ensures forall i, j :: matrix.InRange(i, j) ==> result.data[i, j] == matrix.data[i, j]
  {
    var once := UnaryMinus(matrix);
    result := UnaryMinus(once);
  }

  // ------------------------------------------------------------ isLatinSquare

  /** The values in the first `n` cells of row `i`. */
  function RowValues(m: MatrixImpl<int>, i: int, n: int): set<int>
    requires m.Valid() && 0 <= i < m.height && 0 <= n <= m.width
    reads m.data
  {
    if n == 0 then {} else RowValues(m, i, n - 1) + {At(m, i, n - 1)}
  }

  /** Each of the first `n` cells of the row contributes its value. */
  lemma {:induction false} RowValuesHas(m: MatrixImpl<int>, i: int, n: int, q: int)
    requires m.Valid() && 0 <= i < m.height && 0 <= q < n <= m.width
    ensures At(m, i, q) in RowValues(m, i, n)
  {
    if q < n - 1 {
      RowValuesHas(m, i, n - 1, q);
    }
  }

  /** The values in the first `n` cells of column `j`. */
  function ColumnValues(m: MatrixImpl<int>, j: int, n: int): set<int>
    requires m.Valid() && 0 <= j < m.width && 0 <= n <= m.height
    reads m.data
  {
    if n == 0 then {} else ColumnValues(m, j, n - 1) + {At(m, n - 1, j)}
  }

  /** `{1, …, n}`. */
  function OneTo(n: int): set<int>
    decreases n
  {
    if n <= 0 then {} else OneTo(n - 1) + {n}
  }

  /** `OneTo(n)` holds exactly the numbers from 1 to `n`. */
  lemma {:induction false} OneToHas(n: int, v: int)
    ensures v in OneTo(n) <==> 1 <= v <= n
    decreases n
  {
    if n > 0 {
      OneToHas(n - 1, v);
    }
  }

  /** Square, and every row and every column holds each of `1..n`. */
  predicate LatinSquare(m: MatrixImpl<int>)
    requires m.Valid()
    reads m.data
  {
    m.height == m.width &&
    (forall i :: 0 <= i < m.height ==> RowValues(m, i, m.width) == OneTo(m.height)) &&
    (forall j :: 0 <= j < m.width ==> ColumnValues(m, j, m.height) == OneTo(m.height))
  }

  /** `n` cells hold at most `n` values. */
  lemma {:induction false} RowValuesAtMost(m: MatrixImpl<int>, i: int, n: int)
    requires m.Valid() && 0 <= i < m.height && 0 <= n <= m.width
    ensures |RowValues(m, i, n)| <= n
  {
    if n > 0 {
      RowValuesAtMost(m, i, n - 1);
    }
  }

  /** Two equal cells among the first `n` leave fewer than `n` values. */
  lemma {:induction false} RowValuesFewer(m: MatrixImpl<int>, i: int, n: int, a: int, b: int)
    requires m.Valid() && 0 <= i < m.height && 0 <= n <= m.width
    requires 0 <= a < b < n && At(m, i, a) == At(m, i, b)
    ensures |RowValues(m, i, n)| < n
  {
    if b == n - 1 {
      RowValuesHas(m, i, n - 1, a);
      assert RowValues(m, i, n) == RowValues(m, i, n - 1);
      RowValuesAtMost(m, i, n - 1);
    } else {
      RowValuesFewer(m, i, n - 1, a, b);
    }
  }

  /**
   * In a Latin square the cells of a row are pairwise different: `n` cells
   * cannot hold all of `1..n` otherwise.
   */
  lemma LatinRowsDistinct(m: MatrixImpl<int>, i: int, a: int, b: int)
    requires m.Valid() && LatinSquare(m) && 0 <= i < m.height
    requires 0 <= a < b < m.width
    ensures At(m, i, a) != At(m, i, b)
  {
    if At(m, i, a) == At(m, i, b) {
      RowValuesFewer(m, i, m.width, a, b);
      OneToSize(m.height);
      assert false;
    }
  }

  lemma {:induction false} OneToSize(n: int)
    ensures n >= 0 ==> |OneTo(n)| == n
  {
    if n > 0 {
      OneToSize(n - 1);
      OneToHas(n - 1, n);
    }
  }

  /** The row loop of `isLatinSquare`, with its early exit on a value outside `1..n`. */
  method RowIsComplete(m: MatrixImpl<int>, i: int) returns (ok: bool)
    requires m.Valid() && m.Full() && m.IsSquare() && 0 <= i < m.height
    ensures ok <==> RowValues(m, i, m.width) == OneTo(m.height)
  {
    var n := m.height;
    var rowSet: set<int> := {};
    for j := 0 to n
      invariant rowSet == RowValues(m, i, j)
    {
      var value := m.Get(i, j);
      if !(1 <= value.value <= n) {
        assert At(m, i, j) == value.value;
        RowValuesHas(m, i, n, j);
        OneToHas(n, value.value);
        assert value.value in RowValues(m, i, n) && value.value !in OneTo(n);
        return false;
      }
      rowSet := rowSet + {value.value};
    }
    return rowSet == OneTo(n);
  }

  /** The column loop of `isLatinSquare`. */
  method ColumnIsComplete(m: MatrixImpl<int>, j: int) returns (ok: bool)
    requires m.Valid() && m.Full() && m.IsSquare() && 0 <= j < m.width
    ensures ok <==> ColumnValues(m, j, m.height) == OneTo(m.height)
  {
    var n := m.height;
    var colSet: set<int> := {};
    for i := 0 to n
      invariant colSet == ColumnValues(m, j, i)
    {
      var value := m.Get(i, j);
      colSet := colSet + {value.value};
    }
    return colSet == OneTo(n);
  }

  /**
   * `isLatinSquare(matrix)`: false for a non-square matrix; otherwise true
   * exactly when every row and every column holds each of `1..n`.
   */
  method IsLatinSquare(matrix: MatrixImpl<int>) returns (r: bool)
    requires matrix.Valid() && matrix.Full()
    ensures r <==> LatinSquare(matrix)
  {
    if matrix.height != matrix.width {
      return false;
    }
    var n := matrix.height;
    for i := 0 to n
      invariant forall p :: 0 <= p < i ==> RowValues(matrix, p, n) == OneTo(n)
    {
      var ok := RowIsComplete(matrix, i);
      if !ok {
        return false;
      }
    }
    for j := 0 to n
      invariant forall q :: 0 <= q < j ==> ColumnValues(matrix, q, n) == OneTo(n)
    {
      var ok := ColumnIsComplete(matrix, j);
      if !ok {
        return false;
      }
    }
    return true;
  }

  // ------------------------------------------------------------ canOpenLock

  /** One lock cell and one key cell are a 1 and a 0, in either order. */
  predicate Opposite(lockValue: int, keyValue: int) {
    (lockValue == 1 && keyValue == 0) || (lockValue == 0 && keyValue == 1)
  }

  /** The key stays inside the lock when shifted by `(r, c)`. */
  predicate ShiftInside(key: MatrixImpl<int>, lock: MatrixImpl<int>, r: int, c: int) {
    0 <= r <= lock.height - key.height && 0 <= c <= lock.width - key.width
  }

  /** Shifted by `(r, c)`, every key cell faces the opposite lock cell. */
  predicate Fits(key: MatrixImpl<int>, lock: MatrixImpl<int>, r: int, c: int)
    requires key.Valid() && lock.Valid() && ShiftInside(key, lock, r, c)
    reads key.data, lock.data
  {
    forall i, j :: 0 <= i < key.height && 0 <= j < key.width ==> Opposite(At(lock, i + r, j + c), At(key, i, j))
  }

  /** `(r', c')` comes before `(r, c)` in row-major order. */
  predicate Before(r': int, c': int, r: int, c: int) {
    r' < r || (r' == r && c' < c)
  }

  /** The two inner loops of `canOpenLock`: does the key fit at this shift? */
  method FitsAt(key: MatrixImpl<int>, lock: MatrixImpl<int>, shiftRow: int, shiftCol: int) returns (fits: bool)
    requires key.Valid() && lock.Valid() && key.Full() && lock.Full()
    requires ShiftInside(key, lock, shiftRow, shiftCol)
    ensures fits <==> Fits(key, lock, shiftRow, shiftCol)
  {
    for i := 0 to key.height
      invariant forall p, q :: 0 <= p < i && 0 <= q < key.width ==>
                  Opposite(At(lock, p + shiftRow, q + shiftCol), At(key, p, q))
    {
      for j := 0 to key.width
        invariant forall q :: 0 <= q < j ==> Opposite(At(lock, i + shiftRow, q + shiftCol), At(key, i, q))
      {
        var lockValue := lock.Get(i + shiftRow, j + shiftCol);
        var keyValue := key.Get(i, j);
        if !Opposite(lockValue.value, keyValue.value) {
          assert !Opposite(At(lock, i + shiftRow, j + shiftCol), At(key, i, j));
          return false;
        }
      }
    }
    return true;
  }

  /**
   * `canOpenLock(key, lock)`: `(true, r, c)` for the first shift, in
   * row-major order, at which the key fits; `(false, -1, -1)` when it fits
   * at none.
   */
  method CanOpenLock(key: MatrixImpl<int>, lock: MatrixImpl<int>) returns (r: (bool, int, int))
    requires key.Valid() && lock.Valid() && key.Full() && lock.Full()
    ensures r.0 ==> ShiftInside(key, lock, r.1, r.2) && Fits(key, lock, r.1, r.2)
    ensures r.0 ==> forall r', c' :: ShiftInside(key, lock, r', c') && Before(r', c', r.1, r.2) ==>
                      !Fits(key, lock, r', c')
    ensures !r.0 ==> r == (false, -1, -1) &&
                     forall r', c' :: ShiftInside(key, lock, r', c') ==> !Fits(key, lock, r', c')
  {
    var rows := if lock.height >= key.height then lock.height - key.height + 1 else 0;
    var columns := if lock.width >= key.width then lock.width - key.width + 1 else 0;
    for shiftRow := 0 to rows
      invariant forall r', c' :: ShiftInside(key, lock, r', c') && r' < shiftRow ==> !Fits(key, lock, r', c')
    {
      for shiftCol := 0 to columns
        invariant forall r', c' :: ShiftInside(key, lock, r', c') && Before(r', c', shiftRow, shiftCol) ==>
                    !Fits(key, lock, r', c')
      {
        var fits := FitsAt(key, lock, shiftRow, shiftCol);
        if fits {
          return (true, shiftRow, shiftCol);
        }
      }
    }
    return (false, -1, -1);
  }

  // ------------------------------------------------------------ fifteenGameMoves

  /** A 4×4 matrix read row by row: cell `(i, j)` is entry `4i + j`. */
  function Board(m: MatrixImpl<int>): (b: seq<int>)
    requires m.Valid() && m.height == 4 && m.width == 4
    reads m.data
    ensures |b| == 16 && forall k :: 0 <= k < 16 ==> b[k] == At(m, k / 4, k % 4)
  {
    seq(16, k requires 0 <= k < 16 reads m.data => At(m, k / 4, k % 4))
  }

  /** The first entry equal to `v` in row-major order, or -1. */
  function FirstIndex(b: seq<int>, v: int): (r: int)
    ensures -1 <= r < |b|
    ensures r >= 0 ==> b[r] == v && forall k :: 0 <= k < r ==> b[k] != v
    ensures r == -1 ==> forall k :: 0 <= k < |b| ==> b[k] != v
  {
    if |b| == 0 then -1
    else if b[|b| - 1] != v then FirstIndex(b[..|b| - 1], v)
    else var r := FirstIndex(b[..|b| - 1], v); if r >= 0 then r else |b| - 1
  }

  /**
   * The position of the game: the 16 tiles row by row, and the empty cell
   * the loop keeps track of, `(-1, -1)` when the board has no 0.
   */
  datatype Game = Game(board: seq<int>, emptyRow: int, emptyCol: int)

  /** The empty cell is `(-1, -1)` or a cell of the board that holds 0. */
  predicate ValidGame(g: Game) {
    |g.board| == 16 &&
    ((g.emptyRow == -1 && g.emptyCol == -1) ||
     (0 <= g.emptyRow < 4 && 0 <= g.emptyCol < 4 && g.board[4 * g.emptyRow + g.emptyCol] == 0))
  }

  /** `(row, col)` of the first occurrence of `v`, `(-1, -1)` when there is none. */
  function PositionOf(b: seq<int>, v: int): (int, int)
  {
    var k := FirstIndex(b, v);
    if k == -1 then (-1, -1) else (k / 4, k % 4)
  }

  /** The starting position: the board and its first 0. */
  function Start(b: seq<int>): (g: Game)
    requires |b| == 16
    ensures ValidGame(g)
  {
    var (r, c) := PositionOf(b, 0);
    Game(b, r, c)
  }

  /** The tile and the empty cell share a side. */
  predicate Adjacent(pieceRow: int, pieceCol: int, emptyRow: int, emptyCol: int) {
    (Abs(pieceRow - emptyRow) == 1 && pieceCol == emptyCol) ||
    (Abs(pieceCol - emptyCol) == 1 && pieceRow == emptyRow)
  }

  /**
   * One move: IllegalState for a number outside `1..15`, for a tile that is
   * not on the board, or for a tile not beside the empty cell; otherwise
   * the tile and the empty cell change places.
   */
  function Step(g: Game, move: int): (r: Result<Game>)
    requires ValidGame(g)
    ensures r.Fail? ==> r.error == IllegalState
    ensures r.Ok? ==> ValidGame(r.value)
  {
    if !(1 <= move <= 15) then Fail(IllegalState)
    else
      var p := FirstIndex(g.board, move);
      if p == -1 then Fail(IllegalState)
      else if !Adjacent(p / 4, p % 4, g.emptyRow, g.emptyCol) then Fail(IllegalState)
      else Ok(Game(g.board[p := 0][4 * g.emptyRow + g.emptyCol := move], p / 4, p % 4))
  }

  /** The moves played one after another, stopping at the first one refused. */
  function Play(g: Game, moves: seq<int>): (r: Result<Game>)
    requires ValidGame(g)
    ensures r.Fail? ==> r.error == IllegalState
    ensures r.Ok? ==> ValidGame(r.value)
  {
    if moves == [] then Ok(g)
    else match Play(g, moves[..|moves| - 1])
      case Fail(e) => Fail(e)
      case Ok(h) => Step(h, moves[|moves| - 1])
  }

  /** A move swaps two entries, so the tiles on the board stay the same. */
  lemma StepKeepsTiles(g: Game, move: int)
    requires ValidGame(g) && Step(g, move).Ok?
    ensures multiset(Step(g, move).value.board) == multiset(g.board)
  {
    var p := FirstIndex(g.board, move);
    var e := 4 * g.emptyRow + g.emptyCol;
    SwapKeepsMultiset(g.board, p, e);
  }

  /** Exchanging two entries keeps the multiset of a list. */
  lemma SwapKeepsMultiset(b: seq<int>, p: int, e: int)
    requires 0 <= p < |b| && 0 <= e < |b| && p != e
    ensures multiset(b[p := b[e]][e := b[p]]) == multiset(b)
  {
    var b1 := b[p := b[e]];
    assert multiset(b1) == multiset(b) - multiset{b[p]} + multiset{b[e]};
    assert multiset(b1[e := b[p]]) == multiset(b1) - multiset{b[e]} + multiset{b[p]};
  }

  /**
   * Moving the same tile again undoes a move, when that tile and the empty
   * cell each occur once on the board.
   */
  lemma StepBack(g: Game, move: int)
    requires ValidGame(g) && Step(g, move).Ok?
    requires forall k :: 0 <= k < 16 && g.board[k] == move ==> k == FirstIndex(g.board, move)
    ensures Step(Step(g, move).value, move) == Ok(g)
  {
    var p := FirstIndex(g.board, move);
    var e := 4 * g.emptyRow + g.emptyCol;
    var h := Step(g, move).value;
    assert h.board[e] == move;
    assert forall k :: 0 <= k < e ==> h.board[k] != move;
    assert FirstIndex(h.board, move) == e;
    assert e / 4 == g.emptyRow && e % 4 == g.emptyCol;
    assert h.board[e := 0][p := move] == g.board;
  }

  /** Once a move is refused, later moves change nothing: the game stays refused. */
  lemma {:induction false} PlayRefusedStays(g: Game, moves: seq<int>, k: nat)
    requires ValidGame(g) && k <= |moves| && Play(g, moves[..k]).Fail?
    ensures Play(g, moves).Fail?
    decreases |moves| - k
  {
    if k < |moves| {
      assert moves[..k + 1][..k] == moves[..k];
      PlayRefusedStays(g, moves, k + 1);
    } else {
      assert moves[..k] == moves;
    }
  }

  /** The searches of `fifteenGameMoves`: the first cell, row by row, holding `v`. */
  method Find(m: MatrixImpl<int>, v: int) returns (row: int, col: int)
    requires m.Valid() && m.Full() && m.height == 4 && m.width == 4
    ensures (row, col) == PositionOf(Board(m), v)
  {
    row, col := -1, -1;
    ghost var b := Board(m);
    for i := 0 to 4
      invariant forall k :: 0 <= k < 4 * i ==> b[k] != v
    {
      for j := 0 to 4
        invariant forall k :: 0 <= k < 4 * i + j ==> b[k] != v
      {
        var cell := m.Get(i, j);
        if cell.value == v {
          assert b[4 * i + j] == v;
          assert FirstIndex(b, v) == 4 * i + j;
          return i, j;
        }
      }
    }
    assert FirstIndex(b, v) == -1;
  }

  /** `set(row, col, v)` on the board: entry `4·row + col` becomes `v`. */
  method SetTile(m: MatrixImpl<int>, row: int, col: int, v: int)
    requires m.Valid() && m.Full() && m.height == 4 && m.width == 4
    requires 0 <= row < 4 && 0 <= col < 4
    modifies m.data
    ensures m.Full() && Board(m) == old(Board(m))[4 * row + col := v]
  {
    ghost var b := Board(m);
    var e := m.Set(row, col, v);
    forall k | 0 <= k < 16
      ensures Board(m)[k] == b[4 * row + col := v][k]
    {
      if k == 4 * row + col {
        assert k / 4 == row && k % 4 == col;
      } else {
        assert k / 4 != row || k % 4 != col;
      }
    }
  }

  /**
   * One pass of the move loop of `fifteenGameMoves`: find the tile, check
   * it, and swap it with the empty cell.
   */
  method MakeMove(result: MatrixImpl<int>, emptyRow: int, emptyCol: int, move: int, ghost g: Game)
    returns (error: Option<Exception>, row: int, col: int)
    requires result.Valid() && result.Full() && result.height == 4 && result.width == 4
    requires g == Game(Board(result), emptyRow, emptyCol) && ValidGame(g)
    modifies result.data
    ensures result.Full()
    ensures error.None? <==> Step(g, move).Ok?
    ensures error.Some? ==> error.value == IllegalState
    ensures error.None? ==> Game(Board(result), row, col) == Step(g, move).value
  {
    row, col := emptyRow, emptyCol;
    if !(1 <= move <= 15) {
      assert Step(g, move).Fail?;
      return Some(IllegalState), row, col;
    }
    var pieceRow, pieceCol := Find(result, move);
    if pieceRow == -1 {
      assert Step(g, move).Fail?;
      return Some(IllegalState), row, col;
    }
    ghost var p := 4 * pieceRow + pieceCol;
    assert FirstIndex(g.board, move) == p && p / 4 == pieceRow && p % 4 == pieceCol;
    var isAdjacent := (Abs(pieceRow - emptyRow) == 1 && pieceCol == emptyCol) ||
                      (Abs(pieceCol - emptyCol) == 1 && pieceRow == emptyRow);
    if !isAdjacent {
      assert Step(g, move).Fail?;
      return Some(IllegalState), row, col;
    }
    assert Step(g, move) == Ok(Game(g.board[p := 0][4 * emptyRow + emptyCol := move], pieceRow, pieceCol));
    SetTile(result, pieceRow, pieceCol, 0);
    SetTile(result, emptyRow, emptyCol, move);
    return None, pieceRow, pieceCol;
  }

  /**
   * `fifteenGameMoves(matrix, moves)`: IllegalArgument unless the matrix is
   * 4×4; otherwise a new matrix holding the position after all the moves,
   * or IllegalState when one of them is refused. The argument is left as it
   * was.
   */
  method FifteenGameMoves(matrix: MatrixImpl<int>, moves: seq<int>) returns (r: Result<MatrixImpl<int>>)
    requires matrix.Valid() && matrix.Full()
    ensures r == Fail(IllegalArgument) <==> matrix.height != 4 || matrix.width != 4
    ensures matrix.height == 4 && matrix.width == 4 ==>
              (r.Fail? <==> Play(Start(Board(matrix)), moves).Fail?) &&
              (r.Fail? ==> r.error == IllegalState) &&
              (r.Ok? ==> fresh(r.value.data) && r.value.Valid() && r.value.Full() &&
                         r.value.height == 4 && r.value.width == 4 &&
                         Board(r.value) == Play(Start(Board(matrix)), moves).value.board)
  {
    if matrix.height != 4 || matrix.width != 4 {
      return Fail(IllegalArgument);
    }
    var result := matrix.Copy();
    assert Board(result) == Board(matrix);
    ghost var start := Start(Board(matrix));
    var emptyRow, emptyCol := Find(result, 0);
    for n := 0 to |moves|
      invariant result.Valid() && result.Full() && result.height == 4 && result.width == 4
      invariant Play(start, moves[..n]) == Ok(Game(Board(result), emptyRow, emptyCol))
    {
      assert moves[..n + 1][..n] == moves[..n];
      var error;
      error, emptyRow, emptyCol := MakeMove(result, emptyRow, emptyCol, moves[n], Game(Board(result), emptyRow, emptyCol));
      if error.Some? {
        PlayRefusedStays(start, moves, n + 1);
        return Fail(error.value);
      }
    }
    assert moves[..|moves|] == moves;
    return Ok(result);
  }
}
