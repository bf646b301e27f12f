/**
 * Pure values of the dense row-major matrices of fasic.h and basic.h.
 *
 * A matrix value is its shape and its flat buffer; element (r, c) lives at
 * offset r * cols + c. The operations of the matrix engine are specified here
 * as functions on these values; the imperative methods in module Matrices are
 * proved against them.
 */
module Grids {

  /** The (rows, cols) pair that matrix_shape returns. */
  datatype Shape = Shape(rows: nat, cols: nat)

  /** A matrix as a value: its dimensions and its row-major buffer. */
  datatype Grid<T> = Grid(rows: nat, cols: nat, cells: seq<T>)

  /**
   * The outcome of a read that get_element may refuse: either a value, or the
   * index it rejected (get_element logs that index and exits the process).
   */
  datatype Checked<T> = Ok(value: T) | IndexOutOfBounds(row: nat, col: nat)

  /** The buffer holds exactly rows * cols elements. */
  predicate WellFormed<T>(g: Grid<T>) {
    |g.cells| == g.rows * g.cols
  }

  // ---------------------------------------------------------------------------
  // Row-major offsets
  // ---------------------------------------------------------------------------

  lemma MulLeq(a: nat, b: nat, n: nat)
    requires a <= b
    ensures a * n <= b * n
  {}

  lemma DivModOffset(row: nat, col: nat, cols: nat)
    requires col < cols
    ensures (row * cols + col) / cols == row
    ensures (row * cols + col) % cols == col
  {
    var k := row * cols + col;
    var q, r := k / cols, k % cols;
    assert k == q * cols + r;
    if q > row {
      MulLeq(row + 1, q, cols);
    } else if q < row {
      MulLeq(q + 1, row, cols);
    }
  }

  /** Every offset inside a buffer of rows * cols elements is the offset of one (row, col). */
  lemma OffsetSplit(k: nat, rows: nat, cols: nat)
    requires k < rows * cols
    ensures cols > 0 && k / cols < rows && k % cols < cols
    ensures (k / cols) * cols + k % cols == k
  {
    if k / cols >= rows {
      MulLeq(rows, k / cols, cols);
    }
  }

  /** Bounds of the prefix of a row-major scan that has completed rows 0 .. i-1 and j cells of row i. */
  lemma RowPrefix(i: nat, j: nat, rows: nat, cols: nat)
    requires i < rows && j <= cols
    ensures i * cols + j <= (i + 1) * cols <= rows * cols
    ensures i * cols + cols == (i + 1) * cols
  {
    MulLeq(i + 1, rows, cols);
  }

  /**
   * The offset get_element and set_element use for (row, col). For an index
   * inside the shape it lies inside the buffer, and the row and the column can
   * be recovered from it, so distinct cells have distinct offsets.
   */
  function Offset(row: nat, col: nat, rows: nat, cols: nat): (k: nat)
    requires row < rows && col < cols
    ensures k < rows * cols
    ensures k / cols == row && k % cols == col
  {
    MulLeq(row + 1, rows, cols);
    DivModOffset(row, col, cols);
    row * cols + col
  }

  /** A row-major scan that has passed k cells is at cell (i, j) exactly when k is that cell's offset. */
  lemma ScanOffset(i: nat, j: nat, rows: nat, cols: nat, k: nat)
    requires i < rows && j < cols && k == i * cols + j
    ensures k == Offset(i, j, rows, cols) && k < rows * cols
  {
  }

  /** The first n cells of s are those of t: the part of a row-major scan already written. */
  ghost predicate AgreeBelow<T>(s: seq<T>, t: seq<T>, n: nat) {
    n <= |s| && n <= |t| && forall k :: 0 <= k < n ==> s[k] == t[k]
  }

  /** Writing t's n-th cell at offset n extends the agreement by one cell. */
  lemma AgreeStep<T>(s: seq<T>, t: seq<T>, n: nat, v: T)
    requires AgreeBelow(s, t, n) && n < |s| && n < |t| && v == t[n]
    ensures AgreeBelow(s[n := v], t, n + 1)
  {
  }

  /** Agreement on every cell of two buffers of one length is equality. */
  lemma AgreeAll<T>(s: seq<T>, t: seq<T>)
    requires |s| == |t| && AgreeBelow(s, t, |s|)
    ensures s == t
  {
  }

  /** Element (row, col) of a matrix value. */
  function At<T>(g: Grid<T>, row: nat, col: nat): T
    requires WellFormed(g) && row < g.rows && col < g.cols
  {
    g.cells[Offset(row, col, g.rows, g.cols)]
  }

  /** Two matrix values of one shape that agree on every (row, col) are equal. */
  lemma {:induction false} Extensionality<T>(a: Grid<T>, b: Grid<T>)
    requires WellFormed(a) && WellFormed(b) && a.rows == b.rows && a.cols == b.cols
    requires forall i, j :: 0 <= i < a.rows && 0 <= j < a.cols ==> At(a, i, j) == At(b, i, j)
    ensures a == b
  {
    forall k | 0 <= k < |a.cells|
      ensures a.cells[k] == b.cells[k]
    {
      OffsetSplit(k, a.rows, a.cols);
      assert At(a, k / a.cols, k % a.cols) == At(b, k / a.cols, k % a.cols);
    }
  }

  // ---------------------------------------------------------------------------
  // Construction and single-cell update
  // ---------------------------------------------------------------------------

  /** fill(nrows, ncols, v): every element equals v. create_matrix is Filled(rows, cols, 0). */
  function Filled<T>(rows: nat, cols: nat, v: T): (g: Grid<T>)
    ensures WellFormed(g) && g.rows == rows && g.cols == cols
    ensures forall i, j :: 0 <= i < rows && 0 <= j < cols ==> At(g, i, j) == v
  {
    Grid(rows, cols, seq(rows * cols, _ => v))
  }

  /**
   * set_element: the buffer cell at row * cols + col becomes v. The source does
   * no bounds check, so any offset inside the buffer is allowed; for an index
   * inside the shape exactly that cell changes and every other cell keeps its value.
   */
  function SetCell<T>(g: Grid<T>, row: nat, col: nat, v: T): (r: Grid<T>)
    requires WellFormed(g) && row * g.cols + col < g.rows * g.cols
    ensures WellFormed(r) && r.rows == g.rows && r.cols == g.cols
    ensures row < g.rows && col < g.cols ==>
              At(r, row, col) == v &&
              forall i, j :: 0 <= i < g.rows && 0 <= j < g.cols && (i, j) != (row, col) ==>
                At(r, i, j) == At(g, i, j)
  {
    g.(cells := g.cells[row * g.cols + col := v])
  }

  // ---------------------------------------------------------------------------
  // Elementwise operations: matrix_add, matrix_subtract, hadamard_product
  // ---------------------------------------------------------------------------

  function Plus(x: int, y: int): int { x + y }
  function Minus(x: int, y: int): int { x - y }
  function Times(x: int, y: int): int { x * y }

  /** The elementwise combination of two matrices of one shape. */
  function Combined<T>(a: Grid<T>, b: Grid<T>, op: (T, T) -> T): (c: Grid<T>)
    requires WellFormed(a) && WellFormed(b) && a.rows == b.rows && a.cols == b.cols
    ensures WellFormed(c) && c.rows == a.rows && c.cols == a.cols
    ensures forall i, j :: 0 <= i < a.rows && 0 <= j < a.cols ==>
              At(c, i, j) == op(At(a, i, j), At(b, i, j))
  {
    Grid(a.rows, a.cols, seq(|a.cells|, k requires 0 <= k < |a.cells| => op(a.cells[k], b.cells[k])))
  }

  /** The cell of the combination at the offset k of (i, j). */
  lemma CombinedAt<T>(a: Grid<T>, b: Grid<T>, op: (T, T) -> T, i: nat, j: nat, k: nat)
    requires WellFormed(a) && WellFormed(b) && a.rows == b.rows && a.cols == b.cols
    requires i < a.rows && j < a.cols && k == i * a.cols + j
    ensures k < |Combined(a, b, op).cells| && Combined(a, b, op).cells[k] == op(At(a, i, j), At(b, i, j))
  {
    ScanOffset(i, j, a.rows, a.cols, k);
  }

  /** Subtracting b after adding b gives back a (exact over the integers). */
  lemma SubtractInvertsAdd(a: Grid<int>, b: Grid<int>)
    requires WellFormed(a) && WellFormed(b) && a.rows == b.rows && a.cols == b.cols
    ensures Combined(Combined(a, b, Plus), b, Minus) == a
  {
    Extensionality(Combined(Combined(a, b, Plus), b, Minus), a);
  }

  // ---------------------------------------------------------------------------
  // transpose
  // ---------------------------------------------------------------------------

  function TransposedCell<T>(a: Grid<T>, k: nat): T
    requires WellFormed(a) && k < a.cols * a.rows
  {
    OffsetSplit(k, a.cols, a.rows);
    At(a, k % a.rows, k / a.rows)
  }

  /** The transpose: shape (cols, rows), and element (j, i) is element (i, j) of a. */
  function Transposed<T>(a: Grid<T>): (t: Grid<T>)
    requires WellFormed(a)
    ensures WellFormed(t) && t.rows == a.cols && t.cols == a.rows
    ensures forall i, j :: 0 <= i < a.rows && 0 <= j < a.cols ==> At(t, j, i) == At(a, i, j)
  {
    Grid(a.cols, a.rows, seq(a.cols * a.rows, k requires 0 <= k < a.cols * a.rows => TransposedCell(a, k)))
  }

  /** Transposing twice gives back the original matrix. */
  lemma TransposeTwice<T>(a: Grid<T>)
    requires WellFormed(a)
    ensures Transposed(Transposed(a)) == a
  {
    var t := Transposed(a);
    var tt := Transposed(t);
    forall i, j | 0 <= i < a.rows && 0 <= j < a.cols
      ensures At(tt, i, j) == At(a, i, j)
    {
      assert At(tt, i, j) == At(t, j, i);
    }
    Extensionality(tt, a);
  }

  /**
   * The buffer t of the transpose holds a's cell (r, s) at the offset of (s, r)
   * for every cell that transpose has visited before (i, j) in a's row-major order.
   */
  ghost predicate TransposedBelow<T>(t: seq<T>, a: Grid<T>, i: nat, j: nat)
    requires WellFormed(a) && |t| == a.cols * a.rows
  {
    forall r, s :: 0 <= r < a.rows && 0 <= s < a.cols && (r < i || (r == i && s < j)) ==>
      t[Offset(s, r, a.cols, a.rows)] == At(a, r, s)
  }

  /** Writing a's cell (i, j) at the offset of (j, i) extends the visited part by one cell. */
  lemma TransposedStep<T>(t: seq<T>, a: Grid<T>, i: nat, j: nat)
    requires WellFormed(a) && |t| == a.cols * a.rows && i < a.rows && j < a.cols
    requires TransposedBelow(t, a, i, j)
    ensures TransposedBelow(t[Offset(j, i, a.cols, a.rows) := At(a, i, j)], a, i, j + 1)
  {
  }

  /** A buffer that holds every visited cell is the transpose. */
  lemma TransposedAll<T>(t: seq<T>, a: Grid<T>)
    requires WellFormed(a) && |t| == a.cols * a.rows && TransposedBelow(t, a, a.rows, 0)
    ensures Grid(a.cols, a.rows, t) == Transposed(a)
  {
    var g := Transposed(a);
    forall r, s | 0 <= r < a.cols && 0 <= s < a.rows
      ensures At(Grid(a.cols, a.rows, t), r, s) == At(g, r, s)
    {
      assert At(g, r, s) == At(a, s, r);
    }
    Extensionality(Grid(a.cols, a.rows, t), g);
  }

  /** The 2x2 example: [[1, 2], [3, 4]] transposes to [[1, 3], [2, 4]]. */
  lemma TransposeExample()
    ensures Transposed(Grid(2, 2, [1, 2, 3, 4])) == Grid(2, 2, [1, 3, 2, 4])
  {
    var a := Grid(2, 2, [1, 2, 3, 4]);
    var e := Grid(2, 2, [1, 3, 2, 4]);
    var t := Transposed(a);
    assert t.cells[0] == 1 by { assert t.cells[0] == At(t, 0, 0) == At(a, 0, 0); }
    assert t.cells[1] == 3 by { assert t.cells[1] == At(t, 0, 1) == At(a, 1, 0); }
    assert t.cells[2] == 2 by { assert t.cells[2] == At(t, 1, 0) == At(a, 0, 1); }
    assert t.cells[3] == 4 by { assert t.cells[3] == At(t, 1, 1) == At(a, 1, 1); }
    assert t.cells == e.cells;
  }

  // ---------------------------------------------------------------------------
  // dot_product
  // ---------------------------------------------------------------------------

  /**
   * The accumulator of dot_product after its first n steps for cell (i, j):
   * 0, then + a[i][k] * b[k][j] for k = 0, 1, ..., n - 1, left to right.
   */
  function DotAcc(a: Grid<int>, b: Grid<int>, i: nat, j: nat, n: nat): int
    requires WellFormed(a) && WellFormed(b) && a.cols == b.rows
    requires i < a.rows && j < b.cols && n <= a.cols
  {
    if n == 0 then 0 else DotAcc(a, b, i, j, n - 1) + At(a, i, n - 1) * At(b, n - 1, j)
  }

  function ProductCell(a: Grid<int>, b: Grid<int>, k: nat): int
    requires WellFormed(a) && WellFormed(b) && a.cols == b.rows && k < a.rows * b.cols
  {
    OffsetSplit(k, a.rows, b.cols);
    DotAcc(a, b, k / b.cols, k % b.cols, a.cols)
  }

  /** The matrix product: shape (a.rows, b.cols), cell (i, j) the full accumulation over k. */
  function Product(a: Grid<int>, b: Grid<int>): (p: Grid<int>)
    requires WellFormed(a) && WellFormed(b) && a.cols == b.rows
    ensures WellFormed(p) && p.rows == a.rows && p.cols == b.cols
    ensures forall i, j :: 0 <= i < a.rows && 0 <= j < b.cols ==> At(p, i, j) == DotAcc(a, b, i, j, a.cols)
  {
    Grid(a.rows, b.cols, seq(a.rows * b.cols, k requires 0 <= k < a.rows * b.cols => ProductCell(a, b, k)))
  }

  /** The cell of the product at the offset k of (i, j). */
  lemma ProductAt(a: Grid<int>, b: Grid<int>, i: nat, j: nat, k: nat)
    requires WellFormed(a) && WellFormed(b) && a.cols == b.rows
    requires i < a.rows && j < b.cols && k == i * b.cols + j
    ensures k < |Product(a, b).cells| && Product(a, b).cells[k] == DotAcc(a, b, i, j, a.cols)
  {
    ScanOffset(i, j, a.rows, b.cols, k);
    assert Product(a, b).cells[k] == At(Product(a, b), i, j);
  }

  function IdentityCell(n: nat, k: nat): int
    requires k < n * n
  {
    OffsetSplit(k, n, n);
    if k / n == k % n then 1 else 0
  }

  /** The n x n identity matrix. */
  function Identity(n: nat): (g: Grid<int>)
    ensures WellFormed(g) && g.rows == n && g.cols == n
    ensures forall i, j :: 0 <= i < n && 0 <= j < n ==> At(g, i, j) == if i == j then 1 else 0
  {
    Grid(n, n, seq(n * n, k requires 0 <= k < n * n => IdentityCell(n, k)))
  }

  lemma {:induction false} DotIdentity(a: Grid<int>, i: nat, j: nat, m: nat)
    requires WellFormed(a) && i < a.rows && j < a.cols && m <= a.rows
    ensures DotAcc(Identity(a.rows), a, i, j, m) == if i < m then At(a, i, j) else 0
  {
    if m > 0 {
      DotIdentity(a, i, j, m - 1);
    }
  }

  /** Multiplying by the identity on the left gives back the matrix. */
  lemma IdentityLeft(a: Grid<int>)
    requires WellFormed(a)
    ensures Product(Identity(a.rows), a) == a
  {
    var p := Product(Identity(a.rows), a);
    forall i, j | 0 <= i < a.rows && 0 <= j < a.cols
      ensures At(p, i, j) == At(a, i, j)
    {
      DotIdentity(a, i, j, a.rows);
    }
    Extensionality(p, a);
  }

  /** A 2x3 matrix of ones times a 3x2 matrix of ones is the 2x2 matrix of threes. */
  lemma OnesProductExample()
    ensures Product(Filled(2, 3, 1), Filled(3, 2, 1)) == Filled(2, 2, 3)
  {
    var a, b := Filled(2, 3, 1), Filled(3, 2, 1);
    var p := Product(a, b);
    forall i, j | 0 <= i < 2 && 0 <= j < 2
      ensures At(p, i, j) == At(Filled(2, 2, 3), i, j)
    {
      assert DotAcc(a, b, i, j, 3) == DotAcc(a, b, i, j, 2) + 1;
      assert DotAcc(a, b, i, j, 2) == DotAcc(a, b, i, j, 1) + 1;
      assert DotAcc(a, b, i, j, 1) == 1;
    }
    Extensionality(p, Filled(2, 2, 3));
  }

  // ---------------------------------------------------------------------------
  // test_matrix_equal
  // ---------------------------------------------------------------------------

  /**
   * test_matrix_equal as written, from the k-th cell of a in row-major order on:
   * each cell (i, j) of a's shape is read from b too; a read outside b's shape is
   * get_element's fatal exit, the first mismatch answers false, and running off
   * the end of a answers true. b's shape is never compared with a's.
   */
  function EqualScan<T(==)>(a: Grid<T>, b: Grid<T>, k: nat): Checked<bool>
    requires WellFormed(a) && WellFormed(b) && k <= |a.cells|
    decreases |a.cells| - k
  {
    if k == |a.cells| then Ok(true)
    else
      OffsetSplit(k, a.rows, a.cols);
      var i, j := k / a.cols, k % a.cols;
      if i >= b.rows || j >= b.cols then IndexOutOfBounds(i, j)
      else if a.cells[k] != At(b, i, j) then Ok(false)
      else EqualScan(a, b, k + 1)
  }

  /** One step of the scan, at the offset k of a's cell (i, j). */
  lemma EqualScanAt<T>(a: Grid<T>, b: Grid<T>, i: nat, j: nat, k: nat)
    requires WellFormed(a) && WellFormed(b) && i < a.rows && j < a.cols && k == i * a.cols + j
    ensures k < |a.cells| && k == Offset(i, j, a.rows, a.cols)
    ensures EqualScan(a, b, k) ==
      if i >= b.rows || j >= b.cols then IndexOutOfBounds(i, j)
      else if At(a, i, j) != At(b, i, j) then Ok(false)
      else EqualScan(a, b, k + 1)
  {
    ScanOffset(i, j, a.rows, a.cols, k);
  }

  /** b has a cell at the position of a's k-th cell, and it holds the same value. */
  predicate Matches<T(==)>(a: Grid<T>, b: Grid<T>, k: nat)
    requires WellFormed(a) && WellFormed(b) && k < |a.cells|
  {
    OffsetSplit(k, a.rows, a.cols);
    k / a.cols < b.rows && k % a.cols < b.cols && a.cells[k] == At(b, k / a.cols, k % a.cols)
  }

  lemma {:induction false} EqualScanTrueFrom<T>(a: Grid<T>, b: Grid<T>, k: nat)
    requires WellFormed(a) && WellFormed(b) && k <= |a.cells|
    ensures EqualScan(a, b, k) == Ok(true) <==> forall m :: k <= m < |a.cells| ==> Matches(a, b, m)
    decreases |a.cells| - k
  {
    if k < |a.cells| {
      EqualScanTrueFrom(a, b, k + 1);
      if Matches(a, b, k) {
        assert EqualScan(a, b, k) == EqualScan(a, b, k + 1);
      } else {
        assert EqualScan(a, b, k) != Ok(true);
      }
    }
  }

  /**
   * As written, the scan answers true exactly when every cell of a's shape is
   * also a cell of b's shape and holds the same value there; b may be larger.
   */
  lemma EqualScanTrue<T>(a: Grid<T>, b: Grid<T>)
    requires WellFormed(a) && WellFormed(b)
    ensures EqualScan(a, b, 0) == Ok(true) <==> Covers(a, b)
  {
    if EqualScan(a, b, 0) == Ok(true) {
      ScanTrueCovers(a, b);
    } else if Covers(a, b) {
      CoversScanTrue(a, b);
    }
  }

  lemma ScanTrueCovers<T>(a: Grid<T>, b: Grid<T>)
    requires WellFormed(a) && WellFormed(b) && EqualScan(a, b, 0) == Ok(true)
    ensures Covers(a, b)
  {
    EqualScanTrueFrom(a, b, 0);
    forall i: nat, j: nat | i < a.rows && j < a.cols
      ensures CellCovered(a, b, i, j)
    {
      MatchesAt(a, b, i, j);
    }
  }

  lemma CoversScanTrue<T>(a: Grid<T>, b: Grid<T>)
    requires WellFormed(a) && WellFormed(b) && Covers(a, b)
    ensures EqualScan(a, b, 0) == Ok(true)
  {
    forall m | 0 <= m < |a.cells|
      ensures Matches(a, b, m)
    {
      CoveredMatches(a, b, m);
    }
    EqualScanTrueFrom(a, b, 0);
  }

  lemma CoveredMatches<T>(a: Grid<T>, b: Grid<T>, m: nat)
    requires WellFormed(a) && WellFormed(b) && Covers(a, b) && m < |a.cells|
    ensures Matches(a, b, m)
  {
    OffsetSplit(m, a.rows, a.cols);
    var i, j := m / a.cols, m % a.cols;
    assert Offset(i, j, a.rows, a.cols) == m;
    assert CellCovered(a, b, i, j);
    MatchesAt(a, b, i, j);
  }

  /** Cell (i, j) of a matches in b exactly when a's cell at its offset does. */
  lemma MatchesAt<T>(a: Grid<T>, b: Grid<T>, i: nat, j: nat)
    requires WellFormed(a) && WellFormed(b) && i < a.rows && j < a.cols
    ensures Matches(a, b, Offset(i, j, a.rows, a.cols)) <==> CellCovered(a, b, i, j)
  {
    var k := Offset(i, j, a.rows, a.cols);
    assert k / a.cols == i && k % a.cols == j;
  }

  /** Every cell of a's shape is a cell of b's shape holding the same value. */
  ghost predicate Covers<T>(a: Grid<T>, b: Grid<T>)
    requires WellFormed(a) && WellFormed(b)
  {
    forall i: nat, j: nat :: i < a.rows && j < a.cols ==> CellCovered(a, b, i, j)
  }

  /** Cell (i, j) of a is also a cell of b, holding the same value. */
  ghost predicate CellCovered<T>(a: Grid<T>, b: Grid<T>, i: nat, j: nat)
    requires WellFormed(a) && WellFormed(b) && i < a.rows && j < a.cols
  {
    i < b.rows && j < b.cols && At(a, i, j) == At(b, i, j)
  }

  lemma {:induction false} EqualScanSameShapeFrom<T>(a: Grid<T>, b: Grid<T>, k: nat)
    requires WellFormed(a) && WellFormed(b) && a.rows == b.rows && a.cols == b.cols
    requires k <= |a.cells|
    ensures EqualScan(a, b, k) == Ok(a.cells[k..] == b.cells[k..])
    decreases |a.cells| - k
  {
    if k < |a.cells| {
      OffsetSplit(k, a.rows, a.cols);
      assert At(b, k / a.cols, k % a.cols) == b.cells[k];
      EqualScanSameShapeFrom(a, b, k + 1);
      assert a.cells[k..] == [a.cells[k]] + a.cells[k + 1..];
      assert b.cells[k..] == [b.cells[k]] + b.cells[k + 1..];
    }
  }

  /**
   * When the shapes agree, the scan never reads outside b and answers true
   * exactly when the two matrices are equal.
   */
  lemma EqualScanSameShape<T>(a: Grid<T>, b: Grid<T>)
    requires WellFormed(a) && WellFormed(b) && a.rows == b.rows && a.cols == b.cols
    ensures EqualScan(a, b, 0) == Ok(a == b)
  {
    EqualScanSameShapeFrom(a, b, 0);
    assert a.cells[0..] == a.cells && b.cells[0..] == b.cells;
  }

  lemma {:induction false} EqualScanOkFrom<T>(a: Grid<T>, b: Grid<T>, k: nat)
    requires WellFormed(a) && WellFormed(b) && a.rows <= b.rows && a.cols <= b.cols
    requires k <= |a.cells|
    ensures EqualScan(a, b, k).Ok?
    decreases |a.cells| - k
  {
    if k < |a.cells| {
      OffsetSplit(k, a.rows, a.cols);
      EqualScanOkFrom(a, b, k + 1);
    }
  }

  /** When b is at least as large as a in both dimensions, the scan never reads outside b. */
  lemma EqualScanNeverFatal<T>(a: Grid<T>, b: Grid<T>)
    requires WellFormed(a) && WellFormed(b) && a.rows <= b.rows && a.cols <= b.cols
    ensures EqualScan(a, b, 0).Ok?
  {
    EqualScanOkFrom(a, b, 0);
  }

  /**
   * The fatal read happens only at a cell of a's shape that lies outside b's
   * shape, so it needs b to be smaller than a in some dimension.
   */
  lemma {:induction false} EqualScanFatal<T>(a: Grid<T>, b: Grid<T>, k: nat)
    requires WellFormed(a) && WellFormed(b) && k <= |a.cells|
    ensures var r := EqualScan(a, b, k);
      r.IndexOutOfBounds? ==> r.row < a.rows && r.col < a.cols && (r.row >= b.rows || r.col >= b.cols)
    decreases |a.cells| - k
  {
    if k < |a.cells| {
      OffsetSplit(k, a.rows, a.cols);
      EqualScanFatal(a, b, k + 1);
    }
  }

  /** A false answer comes from a cell that lies in both shapes and holds different values. */
  lemma {:induction false} EqualScanFalse<T>(a: Grid<T>, b: Grid<T>, k: nat)
    requires WellFormed(a) && WellFormed(b) && k <= |a.cells| && EqualScan(a, b, k) == Ok(false)
    ensures exists i, j ::
              0 <= i < a.rows && 0 <= j < a.cols && i < b.rows && j < b.cols && At(a, i, j) != At(b, i, j)
    decreases |a.cells| - k
  {
    OffsetSplit(k, a.rows, a.cols);
    var i, j := k / a.cols, k % a.cols;
    if i < b.rows && j < b.cols && a.cells[k] != At(b, i, j) {
      assert Offset(i, j, a.rows, a.cols) == k;
      assert At(a, i, j) != At(b, i, j);
    } else {
      EqualScanFalse(a, b, k + 1);
    }
  }

  /**
   * Consequence of the loose (OR) shape precondition: a 1x1 matrix [5] is
   * reported equal to the 1x2 matrix [5, 7], and with the roles swapped the
   * scan reads b at (0, 1), outside its shape.
   */
  lemma LooseEqualityExample()
    ensures EqualScan(Grid(1, 1, [5]), Grid(1, 2, [5, 7]), 0) == Ok(true)
    ensures Grid(1, 1, [5]) != Grid(1, 2, [5, 7])
    ensures EqualScan(Grid(1, 2, [5, 7]), Grid(1, 1, [5]), 0) == IndexOutOfBounds(0, 1)
  {
    var small, large := Grid(1, 1, [5]), Grid(1, 2, [5, 7]);
    assert At(large, 0, 0) == 5;
    assert EqualScan(small, large, 1) == Ok(true);
    assert At(small, 0, 0) == 5;
    assert EqualScan(large, small, 0) == EqualScan(large, small, 1);
  }

  /**
   * Equality with the full shape check the test evidently intends: shapes
   * compared first, then every cell; true exactly when the values are equal.
   */
  function MatrixEqual<T(==)>(a: Grid<T>, b: Grid<T>): (r: bool)
    requires WellFormed(a) && WellFormed(b)
    ensures r <==> a == b
  {
    if a.rows == b.rows && a.cols == b.cols then
      EqualScanSameShape(a, b);
      EqualScan(a, b, 0) == Ok(true)
    else
      false
  }
}
