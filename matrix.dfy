/**
 * `MatrixImpl<E>` (Lesson 9, task 1): a bounds-checked two-dimensional store.
 * Kotlin keeps the cells in a list of mutable lists of `E?`; the model keeps
 * them in an `array2<Option<E>>` whose dimensions never change, `None`
 * standing for the `null` of a cell nobody has written yet.
 *
 * Every member that throws in Kotlin returns a `Result` (or an
 * `Option<Exception>` when Kotlin returns `Unit`) naming the exception.
 */
module Matrix {
  import opened Wrappers

  /** `Cell(row, column)`: a position in a matrix. */
  datatype Cell = Cell(row: int, column: int)

  /** The values of a list of cells, or `None` as soon as one cell is empty. */
  function Values<E>(cells: seq<Option<E>>): (r: Option<seq<E>>)
    ensures r.Some? <==> (forall i :: 0 <= i < |cells| ==> cells[i].Some?)
    ensures r.Some? ==> |r.value| == |cells| &&
                        forall i :: 0 <= i < |cells| ==> cells[i] == Some(r.value[i])
  {
    if cells == [] then Some([])
    else if cells[0].None? then None
    else match Values(cells[1..])
      case None => None
      case Some(rest) => Some([cells[0].value] + rest)
  }

  class MatrixImpl<E(==)> {
    const height: nat
    const width: nat
    const data: array2<Option<E>>

    /** The dimensions are positive and are those of the cell array. */
    predicate Valid() {
      height > 0 && width > 0 && data.Length0 == height && data.Length1 == width
    }

    /** `checkIndices`: the position lies inside the matrix. */
    predicate InRange(row: int, column: int) {
      0 <= row < height && 0 <= column < width
    }

    /** Every cell has been written. */
    predicate Full()
      requires Valid()
      reads data
    {
      forall i, j :: 0 <= i < height && 0 <= j < width ==> data[i, j].Some?
    }

    /** The constructor that fills every cell with `initialValue`. */
    constructor Filled(height: nat, width: nat, initialValue: E)
      requires height > 0 && width > 0
      ensures Valid() && this.height == height && this.width == width && fresh(data)
      ensures forall i, j :: 0 <= i < height && 0 <= j < width ==> data[i, j] == Some(initialValue)
    {
      this.height := height;
      this.width := width;
      data := new Option<E>[height, width]((i, j) => Some(initialValue));
    }

    /** The constructor of a matrix whose cells are all still empty. */
    constructor Empty(height: nat, width: nat)
      requires height > 0 && width > 0
      ensures Valid() && this.height == height && this.width == width && fresh(data)
      ensures forall i, j :: 0 <= i < height && 0 <= j < width ==> data[i, j] == None
    {
      this.height := height;
      this.width := width;
      data := new Option<E>[height, width]((i, j) => None);
    }

    /**
     * `get(row, column)`: the value of an existing, written cell;
     * IndexOutOfBounds outside the matrix, NoSuchElement for an empty cell.
     */
    function Get(row: int, column: int): (r: Result<E>)
      requires Valid()
      reads data
      ensures r.Ok? <==> InRange(row, column) && data[row, column].Some?
      ensures r.Ok? ==> data[row, column] == Some(r.value)
      ensures r == Fail(IndexOutOfBounds) <==> !InRange(row, column)
      ensures r == Fail(NoSuchElement) <==> InRange(row, column) && data[row, column].None?
    {
      if !InRange(row, column) then Fail(IndexOutOfBounds)
      else if data[row, column].None? then Fail(NoSuchElement)
      else Ok(data[row, column].value)
    }

    /** `get(cell)` delegates to `get(row, column)`. */
    function GetCell(cell: Cell): (r: Result<E>)
      requires Valid()
      reads data
      ensures r.Ok? <==> InRange(cell.row, cell.column) && data[cell.row, cell.column].Some?
      ensures r.Ok? ==> data[cell.row, cell.column] == Some(r.value)
    {
      Get(cell.row, cell.column)
    }

    /**
     * `set(row, column, value)`: afterwards `get(row, column)` gives `value`
     * and every other cell is as it was; outside the matrix nothing changes.
     */
    method Set(row: int, column: int, value: E) returns (error: Option<Exception>)
      requires Valid()
      modifies data
      ensures error.None? <==> InRange(row, column)
      ensures error.Some? ==> error.value == IndexOutOfBounds && unchanged(data)
      ensures error.None? ==> Get(row, column) == Ok(value)
      ensures forall i, j :: InRange(i, j) && (i != row || j != column) ==> data[i, j] == old(data[i, j])
    {
      if !InRange(row, column) {
        return Some(IndexOutOfBounds);
      }
      data[row, column] := Some(value);
      return None;
    }

    /** `set(cell, value)` delegates to `set(row, column, value)`. */
    method SetCell(cell: Cell, value: E) returns (error: Option<Exception>)
      requires Valid()
      modifies data
      ensures error.None? <==> InRange(cell.row, cell.column)
      ensures error.None? ==> Get(cell.row, cell.column) == Ok(value)
      ensures forall i, j :: InRange(i, j) && (i != cell.row || j != cell.column) ==> data[i, j] == old(data[i, j])
    {
      error := Set(cell.row, cell.column, value);
    }

    /** `isSquare`. */
    predicate IsSquare() {
      height == width
    }

    /** The cells of one row, left to right. */
    function RowCells(row: nat): (s: seq<Option<E>>)
      requires Valid() && row < height
      reads data
      ensures |s| == width && forall j :: 0 <= j < width ==> s[j] == data[row, j]
    {
      seq(width, j requires 0 <= j < width reads data => data[row, j])
    }

    /** The cells of one column, top to bottom. */
    function ColumnCells(column: nat): (s: seq<Option<E>>)
      requires Valid() && column < width
      reads data
      ensures |s| == height && forall i :: 0 <= i < height ==> s[i] == data[i, column]
    {
      seq(height, i requires 0 <= i < height reads data => data[i, column])
    }

    /**
     * `getRow(row)`: the values of the row; IndexOutOfBounds for a row
     * outside the matrix, NoSuchElement when one of its cells is empty.
     */
    function GetRow(row: int): (r: Result<seq<E>>)
      requires Valid()
      reads data
      ensures r == Fail(IndexOutOfBounds) <==> !(0 <= row < height)
      ensures r == Fail(NoSuchElement) <==>
                (0 <= row < height && exists j :: 0 <= j < width && data[row, j].None?)
      ensures r.Ok? ==> |r.value| == width &&
                        forall j :: 0 <= j < width ==> Get(row, j) == Ok(r.value[j])
    {
      if !InRange(row, 0) then Fail(IndexOutOfBounds)
      else match Values(RowCells(row))
        case None => Fail(NoSuchElement)
        case Some(v) => Ok(v)
    }

    /** `getColumn(column)`, the same for a column. */
    function GetColumn(column: int): (r: Result<seq<E>>)
      requires Valid()
      reads data
      ensures r == Fail(IndexOutOfBounds) <==> !(0 <= column < width)
      ensures r == Fail(NoSuchElement) <==>
                (0 <= column < width && exists i :: 0 <= i < height && data[i, column].None?)
      ensures r.Ok? ==> |r.value| == height &&
                        forall i :: 0 <= i < height ==> Get(i, column) == Ok(r.value[i])
    {
      if !InRange(0, column) then Fail(IndexOutOfBounds)
      else match Values(ColumnCells(column))
        case None => Fail(NoSuchElement)
        case Some(v) => Ok(v)
    }

    /** `fill(value)`: every cell holds `value`. */
    method Fill(value: E)
      requires Valid()
      modifies data
      ensures forall i, j :: InRange(i, j) ==> data[i, j] == Some(value)
    {
      for row := 0 to height
        invariant forall i, j :: 0 <= i < row && 0 <= j < width ==> data[i, j] == Some(value)
      {
        for col := 0 to width
          invariant forall i, j :: 0 <= i < row && 0 <= j < width ==> data[i, j] == Some(value)
          invariant forall j :: 0 <= j < col ==> data[row, j] == Some(value)
        {
          data[row, col] := Some(value);
        }
      }
    }

    /**
     * `transpose()`: IllegalState, and nothing changes, unless the matrix is
     * square; otherwise cell `(i, j)` holds what `(j, i)` held.
     */
    method Transpose() returns (error: Option<Exception>)
      requires Valid()
      modifies data
      ensures error.None? <==> IsSquare()
      ensures error.Some? ==> error.value == IllegalState && unchanged(data)
      ensures error.None? ==> forall i, j :: InRange(i, j) ==> data[i, j] == old(data[j, i])
    {
      if !IsSquare() {
        return Some(IllegalState);
      }
      var n := height;
      for i := 0 to n
        invariant forall p, q :: 0 <= p < n && 0 <= q < n ==>
                    data[p, q] == (if p < i || q < i then old(data[q, p]) else old(data[p, q]))
      {
        for j := i + 1 to n
          invariant forall p, q :: 0 <= p < n && 0 <= q < n ==>
                      data[p, q] == (if p < i || q < i || (p == i && q < j) || (q == i && p < j)
                                     then old(data[q, p]) else old(data[p, q]))
        {
          var temp := data[i, j];
          data[i, j] := data[j, i];
          data[j, i] := temp;
        }
      }
      return None;
    }

    /** `copy()`: a new matrix, with its own cells, equal to this one. */
    method Copy() returns (c: MatrixImpl<E>)
      requires Valid()
      ensures fresh(c) && fresh(c.data) && c.Valid()
      ensures c.height == height && c.width == width
      ensures forall i, j :: InRange(i, j) ==> c.data[i, j] == data[i, j]
    {
      c := new MatrixImpl.Empty(height, width);
      for row := 0 to height
        invariant forall i, j :: 0 <= i < row && 0 <= j < width ==> c.data[i, j] == data[i, j]
      {
        for col := 0 to width
          invariant forall i, j :: 0 <= i < row && 0 <= j < width ==> c.data[i, j] == data[i, j]
          invariant forall j :: 0 <= j < col ==> c.data[row, j] == data[row, j]
        {
          c.data[row, col] := data[row, col];
        }
      }
    }

    /**
     * `equals(other)`: same dimensions and the same content in every cell,
     * empty cells included.
     */
    method Equals(other: MatrixImpl<E>) returns (r: bool)
      requires Valid() && other.Valid()
      ensures r <==> height == other.height && width == other.width &&
                     forall i, j :: InRange(i, j) ==> data[i, j] == other.data[i, j]
    {
      if this == other {
        return true;
      }
      if height != other.height || width != other.width {
        return false;
      }
      for row := 0 to height
        invariant forall i, j :: 0 <= i < row && 0 <= j < width ==> data[i, j] == other.data[i, j]
      {
        for col := 0 to width
          invariant forall i, j :: 0 <= i < row && 0 <= j < width ==> data[i, j] == other.data[i, j]
          invariant forall j :: 0 <= j < col ==> data[row, j] == other.data[row, j]
        {
          if data[row, col] != other.data[row, col] {
            return false;
          }
        }
      }
      return true;
    }
  }

  /**
   * The three-argument constructor, with its check: IllegalArgument unless
   * both dimensions are positive, otherwise every cell holds `e`.
   * `createMatrix` is this same function.
   */
  method CreateMatrix<E(==)>(height: int, width: int, e: E) returns (r: Result<MatrixImpl<E>>)
    ensures r.Fail? <==> height <= 0 || width <= 0
    ensures r.Fail? ==> r.error == IllegalArgument
    ensures r.Ok? ==> fresh(r.value) && fresh(r.value.data) && r.value.Valid() &&
                      r.value.height == height && r.value.width == width &&
                      r.value.Full() &&
                      forall i, j :: r.value.InRange(i, j) ==> r.value.Get(i, j) == Ok(e)
  {
    if height <= 0 || width <= 0 {
      return Fail(IllegalArgument);
    }
    var m := new MatrixImpl.Filled(height, width, e);
    return Ok(m);
  }

  /**
   * The two-argument constructor, with its check: IllegalArgument unless both
   * dimensions are positive, otherwise reading any cell before it is written
   * gives NoSuchElement.
   */
  method CreateEmptyMatrix<E(==)>(height: int, width: int) returns (r: Result<MatrixImpl<E>>)
    ensures r.Fail? <==> height <= 0 || width <= 0
    ensures r.Fail? ==> r.error == IllegalArgument
    ensures r.Ok? ==> fresh(r.value) && fresh(r.value.data) && r.value.Valid() &&
                      r.value.height == height && r.value.width == width &&
                      forall i, j :: r.value.InRange(i, j) ==> r.value.Get(i, j) == Fail(NoSuchElement)
  {
    if height <= 0 || width <= 0 {
      return Fail(IllegalArgument);
    }
    var m := new MatrixImpl.Empty(height, width);
    return Ok(m);
  }

  /** Transposing a square matrix twice gives back every cell. */
  method TransposeTwice<E(==)>(m: MatrixImpl<E>)
    requires m.Valid() && m.IsSquare()
    modifies m.data
    ensures forall i, j :: m.InRange(i, j) ==> m.data[i, j] == old(m.data[i, j])
  {
    var e1 := m.Transpose();
    var e2 := m.Transpose();
  }

  /** A copy equals its original, and a later write to it leaves the original alone. */
  method CopyThenSet<E(==)>(m: MatrixImpl<E>, row: int, column: int, value: E)
    returns (c: MatrixImpl<E>, same: bool)
    requires m.Valid()
    ensures same
    ensures fresh(c) && c.Valid()
    ensures m.InRange(row, column) ==> c.Get(row, column) == Ok(value)
    ensures forall i, j :: m.InRange(i, j) ==> m.data[i, j] == old(m.data[i, j])
  {
    c := m.Copy();
    same := m.Equals(c);
    var e := c.Set(row, column, value);
  }

  // ------------------------------------------------------------ integer matrices

  /** `createIdentityMatrix(size)`: 1 on the diagonal, 0 elsewhere. */
  method CreateIdentityMatrix(size: int) returns (r: Result<MatrixImpl<int>>)
    ensures r.Fail? <==> size <= 0
    ensures r.Fail? ==> r.error == IllegalArgument
    ensures r.Ok? ==> fresh(r.value) && fresh(r.value.data) && r.value.Valid() &&
                      r.value.height == size && r.value.width == size &&
                      forall i, j :: r.value.InRange(i, j) ==>
                        r.value.Get(i, j) == Ok(if i == j then 1 else 0)
  {
    var created := CreateMatrix(size, size, 0);
    if created.Fail? {
      return created;
    }
    var m := created.value;
    for i := 0 to size
      invariant forall p, q :: m.InRange(p, q) ==>
                  m.data[p, q] == Some(if p == q && p < i then 1 else 0)
    {
      var e := m.Set(i, i, 1);
    }
    return Ok(m);
  }

  /** `createSequenceMatrix(height, width, start)`: row-major numbering from `start`. */
  method CreateSequenceMatrix(height: int, width: int, start: int) returns (r: Result<MatrixImpl<int>>)
    ensures r.Fail? <==> height <= 0 || width <= 0
    ensures r.Fail? ==> r.error == IllegalArgument
    ensures r.Ok? ==> fresh(r.value) && fresh(r.value.data) && r.value.Valid() &&
                      r.value.height == height && r.value.width == width &&
                      forall i, j :: r.value.InRange(i, j) ==> r.value.Get(i, j) == Ok(start + i * width + j)
  {
    var created := CreateEmptyMatrix(height, width);
    if created.Fail? {
      return created;
    }
    var m: MatrixImpl<int> := created.value;
    var counter := start;
    for row := 0 to height
      invariant counter == start + row * width
      invariant forall i, j :: 0 <= i < row && 0 <= j < width ==> m.data[i, j] == Some(start + i * width + j)
    {
      for col := 0 to width
        invariant counter == start + row * width + col
        invariant forall i, j :: 0 <= i < row && 0 <= j < width ==> m.data[i, j] == Some(start + i * width + j)
        invariant forall j :: 0 <= j < col ==> m.data[row, j] == Some(start + row * width + j)
      {
        var e := m.Set(row, col, counter);
        counter := counter + 1;
      }
      assert (row + 1) * width == row * width + width;
    }
    return Ok(m);
  }

  /** The integer in a written cell (0 for an empty one, never used on it). */
  function Val(cell: Option<int>): int {
    if cell.Some? then cell.value else 0
  }

  /** `Σ_{t < k} a[i, t] · b[t, j]`. */
  function Dot(a: MatrixImpl<int>, b: MatrixImpl<int>, i: nat, j: nat, k: nat): int
    requires a.Valid() && b.Valid() && a.width == b.height
    requires i < a.height && j < b.width && k <= a.width
    reads a.data, b.data
  {
    if k == 0 then 0 else Dot(a, b, i, j, k - 1) + Val(a.data[i, k - 1]) * Val(b.data[k - 1, j])
  }

  /**
   * The inner loop of `multiplyMatrices`: row `i` of `a` times column `j` of
   * `b`, or NoSuchElement at the first empty cell read.
   */
  method RowTimesColumn(a: MatrixImpl<int>, b: MatrixImpl<int>, i: nat, j: nat) returns (r: Result<int>)
    requires a.Valid() && b.Valid() && a.width == b.height && i < a.height && j < b.width
    ensures r.Ok? <==> forall k :: 0 <= k < a.width ==> a.data[i, k].Some? && b.data[k, j].Some?
    ensures r.Ok? ==> r.value == Dot(a, b, i, j, a.width)
    ensures r.Fail? ==> r.error == NoSuchElement
  {
    var sum := 0;
    for k := 0 to a.width
      invariant sum == Dot(a, b, i, j, k)
      invariant forall q :: 0 <= q < k ==> a.data[i, q].Some? && b.data[q, j].Some?
    {
      var x := a.Get(i, k);
      if x.Fail? {
        return Fail(x.error);
      }
      var y := b.Get(k, j);
      if y.Fail? {
        return Fail(y.error);
      }
      sum := sum + x.value * y.value;
    }
    return Ok(sum);
  }

  /**
   * The middle loop of `multiplyMatrices`: fills row `i` of `result`, or
   * stops with NoSuchElement at the first empty cell read.
   */
  method ProductRow(a: MatrixImpl<int>, b: MatrixImpl<int>, result: MatrixImpl<int>, i: nat)
    returns (error: Option<Exception>)
    requires a.Valid() && b.Valid() && result.Valid() && a.width == b.height
    requires result.height == a.height && result.width == b.width && i < a.height
    requires result.data != a.data && result.data != b.data
    modifies result.data
    ensures error.None? <==> (forall q :: 0 <= q < a.width ==> a.data[i, q].Some?) && b.Full()
    ensures error.Some? ==> error.value == NoSuchElement
    ensures error.None? ==> forall q :: 0 <= q < b.width ==> result.data[i, q] == Some(Dot(a, b, i, q, a.width))
    ensures forall p, q :: result.InRange(p, q) && p != i ==> result.data[p, q] == old(result.data[p, q])
  {
    for j := 0 to b.width
      invariant j > 0 ==> forall q :: 0 <= q < a.width ==> a.data[i, q].Some?
      invariant forall p, q :: 0 <= p < b.height && 0 <= q < j ==> b.data[p, q].Some?
      invariant forall q :: 0 <= q < j ==> result.data[i, q] == Some(Dot(a, b, i, q, a.width))
      invariant forall p, q :: result.InRange(p, q) && p != i ==> result.data[p, q] == old(result.data[p, q])
    {
      var sum := RowTimesColumn(a, b, i, j);
      if sum.Fail? {
        return Some(sum.error);
      }
      var e := result.Set(i, j, sum.value);
    }
    return None;
  }

  /**
   * `multiplyMatrices(a, b)`: IllegalArgument unless `a.width == b.height`;
   * NoSuchElement when a cell of either matrix is empty; otherwise cell
   * `(i, j)` of the product is `Σ_k a[i, k] · b[k, j]`.
   */
  method MultiplyMatrices(a: MatrixImpl<int>, b: MatrixImpl<int>) returns (r: Result<MatrixImpl<int>>)
    requires a.Valid() && b.Valid()
    ensures r == Fail(IllegalArgument) <==> a.width != b.height
    ensures r == Fail(NoSuchElement) <==> a.width == b.height && !(a.Full() && b.Full())
    ensures r.Ok? ==> fresh(r.value) && fresh(r.value.data) && r.value.Valid() &&
                      r.value.height == a.height && r.value.width == b.width &&
                      forall i, j :: r.value.InRange(i, j) ==> r.value.Get(i, j) == Ok(Dot(a, b, i, j, a.width))
  {
    if a.width != b.height {
      return Fail(IllegalArgument);
    }
    var result := new MatrixImpl.Filled(a.height, b.width, 0);
    for i := 0 to a.height
      invariant forall p, q :: 0 <= p < i && 0 <= q < a.width ==> a.data[p, q].Some?
      invariant i > 0 ==> b.Full()
      invariant forall p, q :: 0 <= p < i && 0 <= q < b.width ==> result.data[p, q] == Some(Dot(a, b, p, q, a.width))
    {
      var error := ProductRow(a, b, result, i);
      if error.Some? {
        return Fail(error.value);
      }
    }
    return Ok(result);
  }

  /**
   * `addMatrices(a, b)`: IllegalArgument unless the dimensions agree;
   * NoSuchElement when a cell of either matrix is empty; otherwise the
   * cell-wise sum.
   */
  method AddMatrices(a: MatrixImpl<int>, b: MatrixImpl<int>) returns (r: Result<MatrixImpl<int>>)
    requires a.Valid() && b.Valid()
    ensures r == Fail(IllegalArgument) <==> a.height != b.height || a.width != b.width
    ensures r == Fail(NoSuchElement) <==>
              a.height == b.height && a.width == b.width && !(a.Full() && b.Full())
    ensures r.Ok? ==> fresh(r.value) && fresh(r.value.data) && r.value.Valid() &&
                      r.value.height == a.height && r.value.width == a.width &&
                      forall i, j :: r.value.InRange(i, j) ==>
                        r.value.Get(i, j) == Ok(Val(a.data[i, j]) + Val(b.data[i, j])) &&
                        a.data[i, j].Some? && b.data[i, j].Some?
  {
    if a.height != b.height || a.width != b.width {
      return Fail(IllegalArgument);
    }
    var result := new MatrixImpl.Filled(a.height, a.width, 0);
    for row := 0 to a.height
      invariant forall p, q :: 0 <= p < row && 0 <= q < a.width ==>
                  a.data[p, q].Some? && b.data[p, q].Some? &&
                  result.data[p, q] == Some(Val(a.data[p, q]) + Val(b.data[p, q]))
    {
      for col := 0 to a.width
        invariant forall p, q :: 0 <= p < row && 0 <= q < a.width ==>
                    a.data[p, q].Some? && b.data[p, q].Some? &&
                    result.data[p, q] == Some(Val(a.data[p, q]) + Val(b.data[p, q]))
        invariant forall q :: 0 <= q < col ==>
                    a.data[row, q].Some? && b.data[row, q].Some? &&
                    result.data[row, q] == Some(Val(a.data[row, q]) + Val(b.data[row, q]))
      {
        var x := a.Get(row, col);
        if x.Fail? {
          return Fail(x.error);
        }
        var y := b.Get(row, col);
        if y.Fail? {
          return Fail(y.error);
        }
        var e := result.Set(row, col, x.value + y.value);
      }
    }
    return Ok(result);
  }
}
