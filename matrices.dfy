/**
 * The matrix engine of fasic.h and basic.h as imperative code.
 *
 * A matrix owns a row-major buffer A together with nrows and ncols; every
 * operation allocates a fresh result, starts from create_matrix (or, for an
 * abstract element type, from an allocated buffer whose initial contents are
 * unspecified) and fills it cell by cell with set_element, reading its inputs
 * with get_element. Each method is proved against the function of module
 * Grids that gives its result; the inputs are never modified, as no method
 * has a modifies clause that names them.
 */
module Matrices {
  import opened Grids

  class Matrix<T> {
    /** The element buffer; null after unload. */
    var A: array?<T>
    var nrows: nat
    var ncols: nat

    /** The buffer holds nrows * ncols elements; a released matrix has shape (0, 0). */
    ghost predicate Valid()
      reads this
    {
      (A == null ==> nrows == 0 && ncols == 0) &&
      (A != null ==> A.Length == nrows * ncols)
    }

    /** The matrix as a value. */
    ghost function View(): (g: Grid<T>)
      reads this, A
      requires Valid()
      ensures WellFormed(g) && g.rows == nrows && g.cols == ncols
    {
      Grid(nrows, ncols, if A == null then [] else A[..])
    }

    /** A matrix over a freshly allocated buffer of rows * cols elements. */
    constructor Wrap(rows: nat, cols: nat, buffer: array<T>)
      requires buffer.Length == rows * cols
      ensures Valid() && A == buffer && nrows == rows && ncols == cols
    {
      A := buffer;
      nrows := rows;
      ncols := cols;
    }

    /**
     * get_element: element (row, col), read at offset row * ncols + col. An index
     * outside the shape makes the source log and exit, so it is excluded here.
     */
    function GetElement(row: nat, col: nat): (v: T)
      reads this, A
      requires Valid() && row < nrows && col < ncols
      ensures v == At(View(), row, col)
    {
      A[Offset(row, col, nrows, ncols)]
    }

    /**
     * set_element: writes the buffer at row * ncols + col. The source checks
     * nothing, so the only demand is that the offset lies inside the buffer.
     */
    method SetElement(row: nat, col: nat, v: T)
      requires Valid() && row * ncols + col < nrows * ncols
      modifies A
      ensures Valid() && View() == SetCell(old(View()), row, col, v)
      ensures A != null && A[..] == old(A[..])[row * ncols + col := v]
      ensures A[row * ncols + col] == v
      ensures forall k :: 0 <= k < A.Length && k != row * ncols + col ==> A[k] == old(A[k])
    {
      A[row * ncols + col] := v;
    }

    /** matrix_shape: the dimensions, which account for every element of the buffer. */
    function MatrixShape(): (s: Shape)
      reads this, A
      requires Valid()
      ensures s.rows * s.cols == |View().cells|
      ensures s == Shape(View().rows, View().cols)
    {
      Shape(nrows, ncols)
    }

    /**
     * unload: releases the buffer if there is one and zeroes the shape. The
     * final state does not depend on the initial one, so a second call changes
     * nothing.
     */
    method Unload()
      modifies this
      ensures Valid() && A == null && nrows == 0 && ncols == 0
    {
      if A != null {
        A := null;
      }
      nrows := 0;
      ncols := 0;
    }
  }

  /** create_matrix: a fresh rows x cols matrix whose elements are all zero (calloc). */
  method CreateMatrix(rows: nat, cols: nat) returns (m: Matrix<int>)
    ensures fresh(m) && fresh(m.A) && m.Valid() && m.A != null
    ensures m.View() == Filled(rows, cols, 0)
  {
    var buffer := new int[rows * cols](_ => 0);
    m := new Matrix.Wrap(rows, cols, buffer);
  }

  /**
   * create_matrix for an abstract element type: a fresh rows x cols matrix whose
   * initial contents are left unspecified (callers overwrite every cell).
   */
  method Allocate<T(0)>(rows: nat, cols: nat) returns (m: Matrix<T>)
    ensures fresh(m) && fresh(m.A) && m.Valid() && m.A != null
    ensures m.nrows == rows && m.ncols == cols
  {
    var buffer := new T[rows * cols];
    m := new Matrix.Wrap(rows, cols, buffer);
  }

  /** fill: a fresh nrows x ncols matrix with every element equal to fillValue. */
  method Fill<T(0)>(nrows: nat, ncols: nat, fillValue: T) returns (m: Matrix<T>)
    ensures fresh(m) && fresh(m.A) && m.Valid()
    ensures m.View() == Filled(nrows, ncols, fillValue)
  {
    ghost var target := Filled(nrows, ncols, fillValue);
    m := Allocate(nrows, ncols);
    ghost var off: nat := 0;
    for i := 0 to nrows
      invariant fresh(m) && fresh(m.A) && m.Valid() && m.A != null
      invariant m.nrows == nrows && m.ncols == ncols
      invariant off == i * ncols <= nrows * ncols
      invariant AgreeBelow(m.A[..], target.cells, off)
    {
      RowPrefix(i, 0, nrows, ncols);
      for j := 0 to ncols
        invariant fresh(m) && fresh(m.A) && m.Valid() && m.A != null
        invariant m.nrows == nrows && m.ncols == ncols
        invariant off == i * ncols + j <= nrows * ncols
        invariant AgreeBelow(m.A[..], target.cells, off)
      {
        ScanOffset(i, j, nrows, ncols, off);
        AgreeStep(m.A[..], target.cells, off, fillValue);
        m.SetElement(i, j, fillValue);
        off := off + 1;
      }
    }
    AgreeAll(m.A[..], target.cells);
  }

  /**
   * The loop shared by matrix_add, matrix_subtract and hadamard_product: a
   * fresh matrix of the common shape with C[i][j] = op(A[i][j], B[i][j]).
   */
  method Elementwise(a: Matrix<int>, b: Matrix<int>, op: (int, int) -> int) returns (c: Matrix<int>)
    requires a.Valid() && b.Valid() && a.nrows == b.nrows && a.ncols == b.ncols
    ensures fresh(c) && fresh(c.A) && c.Valid()
    ensures c.View() == Combined(a.View(), b.View(), op)
  {
    ghost var target := Combined(a.View(), b.View(), op);
    c := CreateMatrix(a.nrows, a.ncols);
    ghost var off: nat := 0;
    for i := 0 to a.nrows
      invariant fresh(c) && fresh(c.A) && c.Valid() && c.A != null
      invariant c.nrows == a.nrows && c.ncols == a.ncols
      invariant off == i * a.ncols <= a.nrows * a.ncols
      invariant AgreeBelow(c.A[..], target.cells, off)
    {
      RowPrefix(i, 0, a.nrows, a.ncols);
      for j := 0 to a.ncols
        invariant fresh(c) && fresh(c.A) && c.Valid() && c.A != null
        invariant c.nrows == a.nrows && c.ncols == a.ncols
        invariant off == i * a.ncols + j <= a.nrows * a.ncols
        invariant AgreeBelow(c.A[..], target.cells, off)
      {
        var x := a.GetElement(i, j);
        var y := b.GetElement(i, j);
        CombinedAt(a.View(), b.View(), op, i, j, off);
        AgreeStep(c.A[..], target.cells, off, op(x, y));
        c.SetElement(i, j, op(x, y));
        off := off + 1;
      }
    }
    AgreeAll(c.A[..], target.cells);
  }

  /** matrix_add: requires identical shapes; C[i][j] = A[i][j] + B[i][j]. */
  method MatrixAdd(a: Matrix<int>, b: Matrix<int>) returns (c: Matrix<int>)
    requires a.Valid() && b.Valid() && a.nrows == b.nrows && a.ncols == b.ncols
    ensures fresh(c) && fresh(c.A) && c.Valid()
    ensures c.View() == Combined(a.View(), b.View(), Plus)
  {
    c := Elementwise(a, b, Plus);
  }

  /** matrix_subtract: requires identical shapes; C[i][j] = A[i][j] - B[i][j]. */
  method MatrixSubtract(a: Matrix<int>, b: Matrix<int>) returns (c: Matrix<int>)
    requires a.Valid() && b.Valid() && a.nrows == b.nrows && a.ncols == b.ncols
    ensures fresh(c) && fresh(c.A) && c.Valid()
    ensures c.View() == Combined(a.View(), b.View(), Minus)
  {
    c := Elementwise(a, b, Minus);
  }

  /** hadamard_product: requires identical shapes; C[i][j] = A[i][j] * B[i][j]. */
  method HadamardProduct(a: Matrix<int>, b: Matrix<int>) returns (c: Matrix<int>)
    requires a.Valid() && b.Valid() && a.nrows == b.nrows && a.ncols == b.ncols
    ensures fresh(c) && fresh(c.A) && c.Valid()
    ensures c.View() == Combined(a.View(), b.View(), Times)
  {
    c := Elementwise(a, b, Times);
  }

  /**
   * dot_product: requires A.ncols == B.nrows; a fresh (A.nrows, B.ncols) matrix
   * whose cell (i, j) is the left-to-right accumulation of A[i][k] * B[k][j].
   */
  method DotProduct(a: Matrix<int>, b: Matrix<int>) returns (c: Matrix<int>)
    requires a.Valid() && b.Valid() && a.ncols == b.nrows
    ensures fresh(c) && fresh(c.A) && c.Valid()
    ensures c.View() == Product(a.View(), b.View())
  {
    ghost var av, bv := a.View(), b.View();
    ghost var target := Product(av, bv);
    c := CreateMatrix(a.nrows, b.ncols);
    ghost var off: nat := 0;
    for i := 0 to c.nrows
      invariant fresh(c) && fresh(c.A) && c.Valid() && c.A != null
      invariant c.nrows == a.nrows && c.ncols == b.ncols
      invariant off == i * b.ncols <= a.nrows * b.ncols
      invariant AgreeBelow(c.A[..], target.cells, off)
    {
      RowPrefix(i, 0, a.nrows, b.ncols);
      for j := 0 to c.ncols
        invariant fresh(c) && fresh(c.A) && c.Valid() && c.A != null
        invariant c.nrows == a.nrows && c.ncols == b.ncols
        invariant off == i * b.ncols + j <= a.nrows * b.ncols
        invariant AgreeBelow(c.A[..], target.cells, off)
      {
        var acc := 0;
        for k := 0 to a.ncols
          invariant acc == DotAcc(av, bv, i, j, k)
        {
          acc := acc + a.GetElement(i, k) * b.GetElement(k, j);
        }
        ProductAt(av, bv, i, j, off);
        AgreeStep(c.A[..], target.cells, off, acc);
        c.SetElement(i, j, acc);
        off := off + 1;
      }
    }
    AgreeAll(c.A[..], target.cells);
  }

  /** transpose: a fresh (A.ncols, A.nrows) matrix with C[j][i] = A[i][j]. */
  method Transpose<T(0)>(a: Matrix<T>) returns (c: Matrix<T>)
    requires a.Valid()
    ensures fresh(c) && fresh(c.A) && c.Valid()
    ensures c.View() == Transposed(a.View())
  {
    ghost var av := a.View();
    c := Allocate(a.ncols, a.nrows);
    for i := 0 to a.nrows
      invariant fresh(c) && fresh(c.A) && c.Valid() && c.A != null
      invariant c.nrows == a.ncols && c.ncols == a.nrows
      invariant TransposedBelow(c.A[..], av, i, 0)
    {
      for j := 0 to a.ncols
        invariant fresh(c) && fresh(c.A) && c.Valid() && c.A != null
        invariant c.nrows == a.ncols && c.ncols == a.nrows
        invariant TransposedBelow(c.A[..], av, i, j)
      {
        var x := a.GetElement(i, j);
        ScanOffset(j, i, a.ncols, a.nrows, j * a.nrows + i);
        TransposedStep(c.A[..], av, i, j);
        c.SetElement(j, i, x);
      }
    }
    TransposedAll(c.A[..], av);
  }

  /**
   * test_matrix_equal: the source asserts only that one dimension agrees, then
   * scans a's shape, reading b at the same index; a read outside b's shape is
   * get_element's fatal exit, reported here as IndexOutOfBounds.
   */
  method TestMatrixEqual<T(==)>(a: Matrix<T>, b: Matrix<T>) returns (r: Checked<bool>)
    requires a.Valid() && b.Valid()
    requires a.ncols == b.ncols || a.nrows == b.nrows
    ensures r == EqualScan(a.View(), b.View(), 0)
  {
    ghost var av, bv := a.View(), b.View();
    ghost var k: nat := 0;
    for i := 0 to a.nrows
      invariant k == i * a.ncols <= |av.cells|
      invariant EqualScan(av, bv, 0) == EqualScan(av, bv, k)
    {
      RowPrefix(i, 0, a.nrows, a.ncols);
      for j := 0 to a.ncols
        invariant k == i * a.ncols + j <= |av.cells|
        invariant EqualScan(av, bv, 0) == EqualScan(av, bv, k)
      {
        EqualScanAt(av, bv, i, j, k);
        if i >= b.nrows || j >= b.ncols {
          return IndexOutOfBounds(i, j);
        }
        var x := a.GetElement(i, j);
        var y := b.GetElement(i, j);
        if x != y {
          return Ok(false);
        }
        k := k + 1;
      }
    }
    return Ok(true);
  }

  /**
   * The equality test test_matrix_equal is meant to be: both dimensions are
   * compared first, and only then the cells, so no read leaves b's shape and
   * the answer is true exactly when the two matrices are equal.
   */
  method SameMatrix<T(==)>(a: Matrix<T>, b: Matrix<T>) returns (r: bool)
    requires a.Valid() && b.Valid()
    ensures r == MatrixEqual(a.View(), b.View())
    ensures r <==> a.View() == b.View()
  {
    if a.nrows != b.nrows || a.ncols != b.ncols {
      return false;
    }
    var scan := TestMatrixEqual(a, b);
    EqualScanSameShape(a.View(), b.View());
    r := scan == Ok(true);
  }

  /** The end-to-end example: [[1, 2], [3, 4]] built with set_element transposes to [[1, 3], [2, 4]]. */
  method TransposeScenario() returns (t: Matrix<int>)
    ensures t.Valid() && t.View() == Grid(2, 2, [1, 3, 2, 4])
  {
    var m := CreateMatrix(2, 2);
    m.SetElement(0, 0, 1);
    m.SetElement(0, 1, 2);
    m.SetElement(1, 0, 3);
    m.SetElement(1, 1, 4);
    assert m.View() == Grid(2, 2, [1, 2, 3, 4]);
    t := Transpose(m);
    TransposeExample();
  }

  /** The end-to-end example: a 2x3 of ones times a 3x2 of ones is a 2x2 of threes. */
  method OnesScenario() returns (p: Matrix<int>)
    ensures p.Valid() && p.View() == Filled(2, 2, 3)
  {
    var a := Fill(2, 3, 1);
    var b := Fill(3, 2, 1);
    p := DotProduct(a, b);
    OnesProductExample();
  }
}
