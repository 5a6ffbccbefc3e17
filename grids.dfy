/** Grids: the row-major cell storage every KMatrix and KVector holds
    (`std::vector<std::vector<T>>` with T = double, read here as exact reals),
    the error values of the matrix code, and the reference definitions the
    matrix operations are proved against. */
module Grids {

  type Grid = seq<seq<real>>

  datatype Result<T, E> = Ok(value: T) | Err(error: E)

  datatype Outcome<E> = Pass | Fail(error: E)

  /** The exceptions the matrix code raises: `mat_bnd_ex`, `mat_mult_ex`, and the
      `std::length_error` a `vector::resize` to a negative count ends in. */
  datatype MatrixError = OutOfBounds | SizeMismatch | LengthError

  /** `cols()`: the length of row 0, or 0 when the grid has no row. */
  function Cols(g: Grid): nat {
    if |g| == 0 then 0 else |g[0]|
  }

  /** Every row as long as row 0. */
  ghost predicate IsRect(g: Grid) {
    forall r :: 0 <= r < |g| ==> |g[r]| == Cols(g)
  }

  function MaxNat(a: nat, b: nat): (m: nat)
    ensures a <= m && b <= m && (m == a || m == b)
  {
    if b > a then b else a
  }

  /** A row of `n` copies of `v`. */
  function RowOf(n: nat, v: real): (row: seq<real>)
    ensures |row| == n
    ensures forall i :: 0 <= i < n ==> row[i] == v
  {
    seq(n, _ => v)
  }

  /** A `rows` x `cols` grid holding `v` in every cell. */
  function Filled(rows: nat, cols: nat, v: real): (g: Grid)
    ensures |g| == rows && IsRect(g) && (rows > 0 ==> Cols(g) == cols)
    ensures forall r :: 0 <= r < rows ==> g[r] == RowOf(cols, v)
  {
    seq(rows, _ => RowOf(cols, v))
  }

  /** The cell at (r, c), or 0 where the grid has no such cell. */
  function CellOrZero(g: Grid, r: int, c: int): real {
    if 0 <= r < |g| && 0 <= c < |g[r]| then g[r][c] else 0.0
  }

  /** `g` cut or padded with zeros to `rows` x `cols`. */
  function PadTo(g: Grid, rows: nat, cols: nat): (p: Grid)
    ensures |p| == rows && IsRect(p) && (rows > 0 ==> Cols(p) == cols)
    ensures forall r, c :: 0 <= r < rows && 0 <= c < cols ==> |p[r]| == cols && p[r][c] == CellOrZero(g, r, c)
  {
    seq(rows, r => seq(cols, c => CellOrZero(g, r, c)))
  }

  datatype Sign = Plus | Minus

  function Apply(op: Sign, x: real, y: real): real {
    match op
    case Plus => x + y
    case Minus => x - y
  }

  /** Broadcast-by-padding: the result is max rows x max cols, and a cell
      missing from either operand contributes nothing. */
  function Broadcast(a: Grid, b: Grid, op: Sign): (g: Grid)
    ensures |g| == MaxNat(|a|, |b|) && IsRect(g)
    ensures |g| > 0 ==> Cols(g) == MaxNat(Cols(a), Cols(b))
  {
    seq(MaxNat(|a|, |b|), r => seq(MaxNat(Cols(a), Cols(b)), c => Apply(op, CellOrZero(a, r, c), CellOrZero(b, r, c))))
  }

  lemma BroadcastPlusCommutes(a: Grid, b: Grid)
    ensures Broadcast(a, b, Plus) == Broadcast(b, a, Plus)
  {
    var x, y := Broadcast(a, b, Plus), Broadcast(b, a, Plus);
    forall r | 0 <= r < |x| ensures x[r] == y[r] {
      assert |x[r]| == |y[r]|;
    }
  }

  /** Subtracting what was added gives back the left operand, padded to the joint size. */
  lemma {:induction false} BroadcastMinusUndoesPlus(a: Grid, b: Grid)
    requires IsRect(a) && IsRect(b)
    ensures Broadcast(Broadcast(a, b, Plus), b, Minus)
         == PadTo(a, MaxNat(|a|, |b|), MaxNat(Cols(a), Cols(b)))
  {
    var s := Broadcast(a, b, Plus);
    var d := Broadcast(s, b, Minus);
    var p := PadTo(a, MaxNat(|a|, |b|), MaxNat(Cols(a), Cols(b)));
    assert |d| == |p|;
    forall r | 0 <= r < |d| ensures d[r] == p[r] {
      assert |d[r]| == |p[r]|;
      forall c | 0 <= c < |d[r]| ensures d[r][c] == p[r][c] {
        assert CellOrZero(s, r, c) == CellOrZero(a, r, c) + CellOrZero(b, r, c);
      }
    }
  }

  /** A rectangular grid padded to its own size is itself. */
  lemma PadToSelf(a: Grid)
    requires IsRect(a)
    ensures PadTo(a, |a|, Cols(a)) == a
  {
    var p := PadTo(a, |a|, Cols(a));
    forall r | 0 <= r < |a| ensures p[r] == a[r] {
      assert |p[r]| == |a[r]|;
    }
  }

  /** Subtracting a rectangular grid from itself gives the zero grid of its size. */
  lemma BroadcastSelfMinus(a: Grid)
    requires IsRect(a)
    ensures Broadcast(a, a, Minus) == Filled(|a|, Cols(a), 0.0)
  {
    var d, z := Broadcast(a, a, Minus), Filled(|a|, Cols(a), 0.0);
    forall r | 0 <= r < |a| ensures d[r] == z[r] {
      assert |d[r]| == |z[r]|;
    }
  }

  /** Two rectangular grids of the same shape. */
  ghost predicate SameShape(a: Grid, b: Grid) {
    IsRect(a) && IsRect(b) && |a| == |b| && Cols(a) == Cols(b)
  }

  /** Element-wise product of two grids of one shape. */
  function Hadamard(a: Grid, b: Grid): (g: Grid)
    requires SameShape(a, b)
    ensures SameShape(g, a)
    ensures forall r, c :: 0 <= r < |a| && 0 <= c < Cols(a) ==> g[r][c] == a[r][c] * b[r][c]
  {
    seq(|a|, r requires 0 <= r < |a| => seq(Cols(a), c requires 0 <= c < Cols(a) => a[r][c] * b[r][c]))
  }

  /** No cell of `b` is zero. */
  ghost predicate NoZeroCell(b: Grid) {
    forall r, c :: 0 <= r < |b| && 0 <= c < |b[r]| ==> b[r][c] != 0.0
  }

  /** Element-wise quotient of two grids of one shape. */
  function Quotient(a: Grid, b: Grid): (g: Grid)
    requires SameShape(a, b) && NoZeroCell(b)
    ensures SameShape(g, a)
    ensures forall r, c :: 0 <= r < |a| && 0 <= c < Cols(a) ==> g[r][c] == a[r][c] / b[r][c]
  {
    seq(|a|, r requires 0 <= r < |a| => seq(Cols(a), c requires 0 <= c < Cols(a) => a[r][c] / b[r][c]))
  }

  /** Dividing an element-wise product by one factor gives back the other. */
  lemma QuotientUndoesHadamard(a: Grid, b: Grid)
    requires SameShape(a, b) && NoZeroCell(b)
    ensures Quotient(Hadamard(a, b), b) == a
  {
    var h := Hadamard(a, b);
    var q := Quotient(h, b);
    forall r | 0 <= r < |a| ensures q[r] == a[r] {
      forall c | 0 <= c < Cols(a) ensures q[r][c] == a[r][c] {
        assert h[r][c] == a[r][c] * b[r][c];
      }
    }
  }

  /** The sum of products `a(r, i) * b(i, c)` for `i < k`, added in index order. */
  function Dot(a: Grid, b: Grid, r: nat, c: nat, k: nat): real
    requires r < |a| && k <= |a[r]| && k <= |b|
    requires forall i :: 0 <= i < k ==> c < |b[i]|
  {
    if k == 0 then 0.0 else Dot(a, b, r, c, k - 1) + a[r][k - 1] * b[k - 1][c]
  }

  /** The matrix product of a p x q grid and a q x t grid. */
  function Product(a: Grid, b: Grid): (g: Grid)
    requires IsRect(a) && IsRect(b) && Cols(a) == |b|
    ensures |g| == |a| && IsRect(g) && (|g| > 0 ==> Cols(g) == Cols(b))
  {
    seq(|a|, r requires 0 <= r < |a| => seq(Cols(b), c requires 0 <= c < Cols(b) => Dot(a, b, r, c, Cols(a))))
  }

  /** The n x n identity. */
  function Identity(n: nat): (g: Grid)
    ensures |g| == n && IsRect(g) && (n > 0 ==> Cols(g) == n)
  {
    seq(n, r => seq(n, c => if r == c then 1.0 else 0.0))
  }

  lemma {:induction false} DotIdentityLeft(b: Grid, r: nat, c: nat, k: nat)
    requires IsRect(b) && r < |b| && c < Cols(b) && k <= |b|
    ensures Dot(Identity(|b|), b, r, c, k) == if r < k then b[r][c] else 0.0
  {
    if k > 0 {
      DotIdentityLeft(b, r, c, k - 1);
    }
  }

  lemma {:induction false} DotIdentityRight(a: Grid, r: nat, c: nat, k: nat)
    requires IsRect(a) && r < |a| && c < Cols(a) && k <= Cols(a)
    ensures Dot(a, Identity(Cols(a)), r, c, k) == if c < k then a[r][c] else 0.0
  {
    if k > 0 {
      DotIdentityRight(a, r, c, k - 1);
    }
  }

  /** The identity is neutral on the left of the matrix product. */
  lemma ProductIdentityLeft(b: Grid)
    requires IsRect(b) && (|b| == 0 ==> Cols(b) == 0)
    ensures Product(Identity(|b|), b) == b
  {
    var p := Product(Identity(|b|), b);
    forall r | 0 <= r < |b| ensures p[r] == b[r] {
      forall c | 0 <= c < Cols(b) ensures p[r][c] == b[r][c] {
        DotIdentityLeft(b, r, c, |b|);
      }
    }
  }

  /** The identity is neutral on the right of the matrix product. */
  lemma ProductIdentityRight(a: Grid)
    requires IsRect(a) && |a| > 0
    ensures Product(a, Identity(Cols(a))) == a
  {
    var p := Product(a, Identity(Cols(a)));
    forall r | 0 <= r < |a| ensures p[r] == a[r] {
      forall c | 0 <= c < Cols(a) ensures p[r][c] == a[r][c] {
        DotIdentityRight(a, r, c, Cols(a));
      }
    }
  }

  /** The sum of a row, added from the left. */
  function RowSum(row: seq<real>): real {
    if row == [] then 0.0 else RowSum(row[..|row| - 1]) + row[|row| - 1]
  }

  /** The sum of every cell, row by row. */
  function GridSum(g: Grid): real {
    if g == [] then 0.0 else GridSum(g[..|g| - 1]) + RowSum(g[|g| - 1])
  }

  /** Every cell replaced by its squared deviation from `m`. */
  function Deviations(g: Grid, m: real): (d: Grid)
    ensures |d| == |g| && forall r :: 0 <= r < |g| ==> |d[r]| == |g[r]|
    ensures forall r, c :: 0 <= r < |g| && 0 <= c < |g[r]| ==> d[r][c] == (g[r][c] - m) * (g[r][c] - m)
  {
    seq(|g|, r requires 0 <= r < |g| => seq(|g[r]|, c requires 0 <= c < |g[r]| => (g[r][c] - m) * (g[r][c] - m)))
  }

  lemma {:induction false} RowSumOf(n: nat, v: real)
    ensures RowSum(RowOf(n, v)) == n as real * v
  {
    if n > 0 {
      assert RowOf(n, v)[..n - 1] == RowOf(n - 1, v);
      RowSumOf(n - 1, v);
    }
  }

  /** The cells of a constant grid sum to rows * cols * v. */
  lemma {:induction false} GridSumFilled(rows: nat, cols: nat, v: real)
    ensures GridSum(Filled(rows, cols, v)) == (rows * cols) as real * v
  {
    if rows > 0 {
      assert Filled(rows, cols, v)[..rows - 1] == Filled(rows - 1, cols, v);
      GridSumFilled(rows - 1, cols, v);
      RowSumOf(cols, v);
      assert (rows * cols) as real == ((rows - 1) * cols) as real + cols as real;
    }
  }

  lemma {:induction false} RowSumNonNegative(row: seq<real>)
    requires forall i :: 0 <= i < |row| ==> row[i] >= 0.0
    ensures RowSum(row) >= 0.0
  {
    if row != [] {
      RowSumNonNegative(row[..|row| - 1]);
    }
  }

  /** A grid of non-negative cells has a non-negative sum. */
  lemma {:induction false} GridSumNonNegative(g: Grid)
    requires forall r, c :: 0 <= r < |g| && 0 <= c < |g[r]| ==> g[r][c] >= 0.0
    ensures GridSum(g) >= 0.0
  {
    if g != [] {
      GridSumNonNegative(g[..|g| - 1]);
      RowSumNonNegative(g[|g| - 1]);
    }
  }

  /** The cells of a grid read row by row. */
  function Flatten(g: Grid): seq<real> {
    if g == [] then [] else Flatten(g[..|g| - 1]) + g[|g| - 1]
  }

  lemma RowMajorIndex(i: nat, j: nat, rows: nat, cols: nat)
    requires i < rows && j < cols
    ensures i * cols + j < rows * cols
  {
    assert (i + 1) * cols <= rows * cols;
  }

  lemma {:induction false} FlattenLength(g: Grid)
    requires IsRect(g)
    ensures |Flatten(g)| == |g| * Cols(g)
  {
    if g != [] {
      var n, c := |g|, Cols(g);
      var front := g[..n - 1];
      assert IsRect(front) && (n - 1 > 0 ==> Cols(front) == c);
      FlattenLength(front);
      assert (n - 1) * c + c == n * c;
    }
  }

  /** In a rectangular grid read row by row, cell (i, j) sits at i * cols + j. */
  lemma {:induction false} FlattenAt(g: Grid, i: nat, j: nat)
    requires IsRect(g) && i < |g| && j < Cols(g)
    ensures |Flatten(g)| == |g| * Cols(g)
    ensures i * Cols(g) + j < |Flatten(g)| && Flatten(g)[i * Cols(g) + j] == g[i][j]
  {
    var n, c := |g|, Cols(g);
    var front := g[..n - 1];
    assert IsRect(front) && (n - 1 > 0 ==> Cols(front) == c);
    FlattenLength(g);
    FlattenLength(front);
    RowMajorIndex(i, j, n, c);
    var k := i * c + j;
    assert Flatten(g) == Flatten(front) + g[n - 1];
    if i < n - 1 {
      FlattenAt(front, i, j);
      assert k < |Flatten(front)|;
    } else {
      assert k == (n - 1) * c + j;
    }
  }

  /** Cutting `values` into `rows` rows of `cols` cells, row-major. */
  function Reshape(values: seq<real>, rows: nat, cols: nat): (g: Grid)
    requires |values| >= rows * cols
    ensures |g| == rows && IsRect(g) && (rows > 0 ==> Cols(g) == cols)
  {
    seq(rows, i requires 0 <= i < rows =>
      seq(cols, j requires 0 <= j < cols => RowMajorIndex(i, j, rows, cols); values[i * cols + j]))
  }

  /** Reshaping is the inverse of flattening: a rectangular grid is rebuilt from its cells. */
  lemma ReshapeFlatten(g: Grid)
    requires IsRect(g)
    ensures |Flatten(g)| == |g| * Cols(g) && Reshape(Flatten(g), |g|, Cols(g)) == g
  {
    FlattenLength(g);
    var h := Reshape(Flatten(g), |g|, Cols(g));
    forall i | 0 <= i < |g| ensures h[i] == g[i] {
      forall j | 0 <= j < Cols(g) ensures h[i][j] == g[i][j] {
        FlattenAt(g, i, j);
      }
    }
  }

  /** Flattening is the inverse of reshaping: the cells come back in order. */
  lemma {:induction false} FlattenReshape(values: seq<real>, rows: nat, cols: nat)
    requires |values| == rows * cols
    ensures Flatten(Reshape(values, rows, cols)) == values
  {
    if rows > 0 {
      var g := Reshape(values, rows, cols);
      var m := (rows - 1) * cols;
      assert m + cols == rows * cols;
      var front := values[..m];
      var g' := Reshape(front, rows - 1, cols);
      forall i | 0 <= i < rows - 1 ensures g[..rows - 1][i] == g'[i] {
        forall j | 0 <= j < cols ensures g[i][j] == g'[i][j] {
          RowMajorIndex(i, j, rows - 1, cols);
        }
      }
      assert g[..rows - 1] == g';
      FlattenReshape(front, rows - 1, cols);
      forall j | 0 <= j < cols ensures g[rows - 1][j] == values[m..][j] {
      }
      assert g[rows - 1] == values[m..];
      assert values == front + values[m..];
    }
  }
}
