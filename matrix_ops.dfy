/** What the KMatrix operations compute, stated over grids: the element-wise
    loops whose column bound is the row count, `matrixMult` as written, the
    column count of the vector-of-vectors constructor, the row `makeRange`
    builds, and the statistics. */
module MatrixOps {
  import opened Grids

  /** Same number of rows and of columns, the check `/=` and `elementMult` make first. */
  predicate SameDims(a: Grid, b: Grid) {
    |a| == |b| && Cols(a) == Cols(b)
  }

  // ---- element-wise multiply and divide, column loop bounded by the row count

  /** `elementMult` when it does not throw (cols >= rows): columns below the row
      count hold the product, the others keep the value-initialised 0. */
  function MultiplyLeading(a: Grid, b: Grid): (g: Grid)
    requires SameShape(a, b) && Cols(a) >= |a|
    ensures SameShape(g, a)
    ensures forall r, c :: 0 <= r < |a| && 0 <= c < Cols(a) ==> g[r][c] == if c < |a| then a[r][c] * b[r][c] else 0.0
  {
    seq(|a|, r requires 0 <= r < |a| => seq(Cols(a), c requires 0 <= c < Cols(a) => if c < |a| then a[r][c] * b[r][c] else 0.0))
  }

  /** `elementMult(a, b)`: the size check, then the throw from `operator()` once the
      column index reaches the column count, which happens exactly when cols < rows. */
  function ElementProduct(a: Grid, b: Grid): Result<Grid, MatrixError>
    requires IsRect(a) && IsRect(b)
  {
    if !SameDims(a, b) then Err(SizeMismatch)
    else if Cols(a) < |a| then Err(OutOfBounds)
    else Ok(MultiplyLeading(a, b))
  }

  /** The leading-columns product of `elementMult` keeps the operands' shape. */
  lemma ElementProductShape(a: Grid, b: Grid)
    requires IsRect(a) && IsRect(b)
    ensures ElementProduct(a, b).Ok? ==> IsRect(ElementProduct(a, b).value)
  {
  }

  /** On square operands of equal size `elementMult` is the element-wise product. */
  lemma ElementProductSquare(a: Grid, b: Grid)
    requires SameShape(a, b) && Cols(a) == |a|
    ensures ElementProduct(a, b) == Ok(Hadamard(a, b))
  {
    var m, h := MultiplyLeading(a, b), Hadamard(a, b);
    forall r | 0 <= r < |a| ensures m[r] == h[r] {
      assert |m[r]| == |h[r]| == Cols(a);
      forall c | 0 <= c < Cols(a) ensures m[r][c] == h[r][c] {
      }
    }
    assert m == h;
  }

  /** `elementMult` fails exactly when the sizes differ or there are more rows than columns. */
  lemma ElementProductFails(a: Grid, b: Grid)
    requires IsRect(a) && IsRect(b)
    ensures ElementProduct(a, b).Err? <==> !SameDims(a, b) || Cols(a) < |a|
    ensures ElementProduct(a, b) == Err(SizeMismatch) <==> !SameDims(a, b)
  {
  }

  /** With more columns than rows, the columns from the row count on come out 0. */
  lemma ElementProductWide(a: Grid, b: Grid, r: nat, c: nat)
    requires SameShape(a, b) && Cols(a) > |a|
    requires r < |a| && |a| <= c < Cols(a)
    ensures ElementProduct(a, b).Ok? && ElementProduct(a, b).value[r][c] == 0.0
  {
  }

  /** The divisors `/=` actually uses are non-zero: columns below the row count,
      and only in row 0 when it throws there. */
  ghost predicate DivisorsNonZero(a: Grid, b: Grid)
    requires SameShape(a, b)
  {
    forall r, c :: 0 <= r < |a| && 0 <= c < Cols(a) && c < |a| && (Cols(a) >= |a| || r == 0) ==> b[r][c] != 0.0
  }

  /** `/=` when it does not throw (cols >= rows): columns below the row count are
      divided, the others are left as they were. */
  function DivideLeading(a: Grid, b: Grid): (g: Grid)
    requires SameShape(a, b) && Cols(a) >= |a| && DivisorsNonZero(a, b)
    ensures SameShape(g, a)
    ensures forall r, c :: 0 <= r < |a| && 0 <= c < Cols(a) ==> g[r][c] == if c < |a| then a[r][c] / b[r][c] else a[r][c]
  {
    seq(|a|, r requires 0 <= r < |a| => seq(Cols(a), c requires 0 <= c < Cols(a) => if c < |a| then a[r][c] / b[r][c] else a[r][c]))
  }

  /** `/=` with cols < rows: row 0 is divided in full before `operator()(0, cols)` throws. */
  function DivideFirstRow(a: Grid, b: Grid): (g: Grid)
    requires SameShape(a, b) && 0 < |a| && Cols(a) < |a| && DivisorsNonZero(a, b)
    ensures SameShape(g, a) && g[1..] == a[1..]
    ensures forall c :: 0 <= c < Cols(a) ==> g[0][c] == a[0][c] / b[0][c]
  {
    a[0 := seq(Cols(a), c requires 0 <= c < Cols(a) => a[0][c] / b[0][c])]
  }

  /** On square operands of equal size `/=` is the element-wise quotient, and it undoes `elementMult`. */
  lemma DivideLeadingSquare(a: Grid, b: Grid)
    requires SameShape(a, b) && Cols(a) == |a| && NoZeroCell(b)
    ensures DivisorsNonZero(a, b)
    ensures DivideLeading(a, b) == Quotient(a, b)
    ensures DivideLeading(MultiplyLeading(a, b), b) == a
  {
    var d, q := DivideLeading(a, b), Quotient(a, b);
    forall r | 0 <= r < |a| ensures d[r] == q[r] {
      forall c | 0 <= c < Cols(a) ensures d[r][c] == q[r][c] {
      }
    }
    var m := MultiplyLeading(a, b);
    var dm := DivideLeading(m, b);
    forall r | 0 <= r < |a| ensures dm[r] == a[r] {
      forall c | 0 <= c < Cols(a) ensures dm[r][c] == a[r][c] {
        assert dm[r][c] == (a[r][c] * b[r][c]) / b[r][c];
      }
    }
  }

  // ---- matrixMult as written

  /** The reads `a.get(r, i)` and `b.get(i, c)` (r, i, c < b.rows()) are unchecked; they stay
      inside both grids exactly when b has no more rows than a has rows or columns. */
  predicate ReadsInRange(a: Grid, b: Grid) {
    |a| == Cols(b) ==> |b| <= |a| && |b| <= Cols(a)
  }

  /** `matrixMult(a, b)`: the check `a.rows() != b.cols()`, a `b.rows()` x `a.cols()`
      result, and all three loops bounded by the result's row count. */
  function MatrixProduct(a: Grid, b: Grid): (res: Result<Grid, MatrixError>)
    requires IsRect(a) && IsRect(b) && ReadsInRange(a, b)
    ensures res.Ok? ==> |res.value| == |b| && IsRect(res.value) && (|b| > 0 ==> Cols(res.value) == Cols(a))
  {
    if |a| != Cols(b) then Err(SizeMismatch)
    else
      Ok(seq(|b|, r requires 0 <= r < |b| =>
        seq(Cols(a), c requires 0 <= c < Cols(a) => if c < |b| then Dot(a, b, r, c, |b|) else 0.0)))
  }

  /** For n x n operands `matrixMult` is the matrix product. */
  lemma MatrixProductSquare(a: Grid, b: Grid)
    requires IsRect(a) && IsRect(b)
    requires |a| == Cols(a) == |b| == Cols(b)
    ensures ReadsInRange(a, b) && MatrixProduct(a, b) == Ok(Product(a, b))
  {
    var m, p := MatrixProduct(a, b).value, Product(a, b);
    forall r | 0 <= r < |a| ensures m[r] == p[r] {
      assert |m[r]| == |p[r]| == Cols(a);
      forall c | 0 <= c < Cols(a) ensures m[r][c] == p[r][c] {
      }
    }
    assert m == p;
  }

  /** `matrixMult` fails exactly when a's row count differs from b's column count. */
  lemma MatrixProductFails(a: Grid, b: Grid)
    requires IsRect(a) && IsRect(b) && ReadsInRange(a, b)
    ensures MatrixProduct(a, b).Err? <==> |a| != Cols(b)
  {
  }

  /** The identity on either side of an n x n `matrixMult` gives the other operand back. */
  lemma MatrixProductIdentity(a: Grid)
    requires IsRect(a) && |a| == Cols(a)
    ensures MatrixProduct(Identity(|a|), a) == Ok(a)
    ensures MatrixProduct(a, Identity(|a|)) == Ok(a)
  {
    MatrixProductSquare(Identity(|a|), a);
    MatrixProductSquare(a, Identity(|a|));
    ProductIdentityLeft(a);
    if |a| > 0 {
      ProductIdentityRight(a);
    }
  }

  // ---- the vector-of-vectors constructor

  /** The length of the longest row: the column count the constructor's comment asks for. */
  function LongestRow(init: Grid): (n: nat)
    ensures forall r :: 0 <= r < |init| ==> |init[r]| <= n
    ensures |init| > 0 ==> exists r :: 0 <= r < |init| && |init[r]| == n
    ensures |init| == 0 ==> n == 0
    decreases |init|
  {
    if init == [] then 0 else MaxNat(LongestRow(init[..|init| - 1]), |init[|init| - 1]|)
  }

  /** Padding to the longest row keeps every given cell and adds zeros after it;
      a rectangular grid is kept as it is. */
  lemma PadToLongest(init: Grid)
    ensures forall r, c :: 0 <= r < |init| && 0 <= c < |init[r]| ==> PadTo(init, |init|, LongestRow(init))[r][c] == init[r][c]
    ensures IsRect(init) ==> PadTo(init, |init|, LongestRow(init)) == init
  {
    if IsRect(init) && |init| > 0 {
      assert LongestRow(init) == Cols(init);
      PadToSelf(init);
    }
  }

  /** `(size_t)-1` on a 64-bit target, the value `max_len` starts from. */
  const SizeMax: nat := 0x1_0000_0000_0000_0000 - 1

  /** A `size_t` passed to an `int` parameter: the low 32 bits, read as two's complement. */
  function IntArgument(x: nat): (n: int)
    ensures -0x8000_0000 <= n < 0x8000_0000
    ensures n % 0x1_0000_0000 == x % 0x1_0000_0000
  {
    var low := x % 0x1_0000_0000;
    if low < 0x8000_0000 then low else low - 0x1_0000_0000
  }

  /** `clear(rows, cols)` on `int` arguments: negative rows give no row; a negative
      column count with at least one row makes `resize` throw. */
  function ClearAsWritten(rows: int, cols: int): (res: Result<Grid, MatrixError>)
    ensures res.Err? <==> rows > 0 && cols < 0
    ensures res.Ok? ==> res.value == Filled(if rows > 0 then rows else 0, if cols > 0 then cols else 0, 0.0)
  {
    if rows > 0 && cols < 0 then Err(LengthError)
    else Ok(Filled(if rows > 0 then rows else 0, if cols > 0 then cols else 0, 0.0))
  }

  /** The column count as computed: `max_len` starts at `(size_t)-1`, so the
      unsigned test `init[r].size() > max_len` can only fire for a row longer
      than any `size_t` can count. */
  method ColumnCountAsWritten(init: Grid) returns (maxLen: nat)
    ensures maxLen == MaxNat(SizeMax, LongestRow(init))
    ensures (forall r :: 0 <= r < |init| ==> |init[r]| <= SizeMax) ==> maxLen == SizeMax
  {
    maxLen := SizeMax;
    for r := 0 to |init|
      invariant maxLen == MaxNat(SizeMax, LongestRow(init[..r]))
    {
      assert init[..r + 1][..r] == init[..r];
      if |init[r]| > maxLen {
        maxLen := |init[r]|;
      }
    }
    assert init[..|init|] == init;
  }

  /** The constructor as written: `clear(init.size(), max_len)` receives -1 columns,
      so every non-empty `init` ends in `std::length_error`. */
  method FromRowsAsWritten(init: Grid) returns (res: Result<Grid, MatrixError>)
    requires |init| < 0x8000_0000
    requires forall r :: 0 <= r < |init| ==> |init[r]| <= SizeMax
    ensures |init| > 0 ==> res == Err(LengthError)
    ensures |init| == 0 ==> res == Ok([])
  {
    var maxLen := ColumnCountAsWritten(init);
    assert IntArgument(maxLen) == -1;
    res := ClearAsWritten(|init|, IntArgument(maxLen));
    if res.Ok? {
      assert |init| == 0;
      res := Ok([]);
    }
  }

  // ---- makeRange

  /** `start, start + step, ...` for as long as the value does not exceed `end`. */
  ghost predicate IsRangeRow(row: seq<real>, start: real, step: real, end: real) {
    && (forall k :: 0 <= k < |row| ==> row[k] == start + k as real * step && row[k] <= end)
    && start + |row| as real * step > end
  }

  lemma RangeRowAt(row: seq<real>, start: real, step: real, end: real, k: nat)
    requires IsRangeRow(row, start, step, end) && k < |row|
    ensures start + k as real * step <= end
  {
    assert row[k] <= end;
  }

  /** There is only one such row: its length is fixed by where the values pass `end`. */
  lemma RangeRowUnique(x: seq<real>, y: seq<real>, start: real, step: real, end: real)
    requires step > 0.0 || start > end
    requires IsRangeRow(x, start, step, end) && IsRangeRow(y, start, step, end)
    ensures x == y
  {
    if |x| < |y| {
      RangeRowAt(y, start, step, end, |x|);
      assert false;
    } else if |y| < |x| {
      RangeRowAt(x, start, step, end, |y|);
      assert false;
    }
  }

  /** The inputs on which the loop `for (T i = start; i <= end; i += step_size)`
      ends: a positive step, or a start already past `end`. */
  predicate RangeEnds(start: real, step: real, end: real) {
    step > 0.0 || start > end
  }

  /** The result of running a loop for at most a given number of iterations. */
  datatype Bounded = Done(row: seq<real>) | StillRunning

  /** The `makeRange` loop exactly as written, from `i`, run for at most `fuel`
      iterations: there is no test on the step. */
  function RangeLoopAsWritten(i: real, step: real, end: real, fuel: nat): Bounded
    decreases fuel
  {
    if i > end then Done([])
    else if fuel == 0 then StillRunning
    else
      match RangeLoopAsWritten(i + step, step, end, fuel - 1)
      case Done(rest) => Done([i] + rest)
      case StillRunning => StillRunning
  }

  /** As written, a step <= 0 with `start <= end` never leaves the loop: after any
      number of iterations it is still running. */
  lemma {:induction false} RangeLoopNeverEndsAsWritten(i: real, step: real, end: real, fuel: nat)
    requires step <= 0.0 && i <= end
    ensures RangeLoopAsWritten(i, step, end, fuel) == StillRunning
    decreases fuel
  {
    if fuel > 0 {
      RangeLoopNeverEndsAsWritten(i + step, step, end, fuel - 1);
    }
  }

  /** Whenever the loop as written ends, it has collected the range row. */
  lemma {:induction false} RangeLoopEndsAsWritten(i: real, step: real, end: real, fuel: nat)
    ensures RangeLoopAsWritten(i, step, end, fuel).Done? ==> IsRangeRow(RangeLoopAsWritten(i, step, end, fuel).row, i, step, end)
    decreases fuel
  {
    if i <= end && fuel > 0 {
      RangeLoopEndsAsWritten(i + step, step, end, fuel - 1);
      var tail := RangeLoopAsWritten(i + step, step, end, fuel - 1);
      if tail.Done? {
        var row := [i] + tail.row;
        forall k | 0 <= k < |row| ensures row[k] == i + k as real * step && row[k] <= end {
          if k > 0 {
            assert row[k] == tail.row[k - 1];
            assert i + step + (k - 1) as real * step == i + k as real * step;
          }
        }
        assert i + step + |tail.row| as real * step == i + |row| as real * step;
      }
    }
  }

  /** The loop as written ends only on inputs with a positive step or `start > end`. */
  lemma RangeLoopEndsOnlyWhen(start: real, step: real, end: real, fuel: nat)
    ensures RangeLoopAsWritten(start, step, end, fuel).Done? ==> RangeEnds(start, step, end)
  {
    if !RangeEnds(start, step, end) {
      RangeLoopNeverEndsAsWritten(start, step, end, fuel);
    }
  }

  /** Where the loop ends it agrees with the range row. */
  lemma RangeLoopAgrees(row: seq<real>, start: real, step: real, end: real, fuel: nat)
    requires IsRangeRow(row, start, step, end)
    ensures RangeLoopAsWritten(start, step, end, fuel).Done? ==> RangeEnds(start, step, end)
    ensures RangeLoopAsWritten(start, step, end, fuel).Done? ==> RangeLoopAsWritten(start, step, end, fuel).row == row
  {
    if !RangeEnds(start, step, end) {
      RangeLoopNeverEndsAsWritten(start, step, end, fuel);
    } else {
      RangeLoopEndsAsWritten(start, step, end, fuel);
      if RangeLoopAsWritten(start, step, end, fuel).Done? {
        RangeRowUnique(RangeLoopAsWritten(start, step, end, fuel).row, row, start, step, end);
      }
    }
  }

  // ---- statistics

  /** `m` is a cell of `g` and no cell is larger. */
  ghost predicate IsMaxCell(g: Grid, m: real) {
    && (exists r, c :: 0 <= r < |g| && 0 <= c < |g[r]| && g[r][c] == m)
    && (forall r, c :: 0 <= r < |g| && 0 <= c < |g[r]| ==> g[r][c] <= m)
  }

  /** `m` is a cell of `g` and no cell is smaller. */
  ghost predicate IsMinCell(g: Grid, m: real) {
    && (exists r, c :: 0 <= r < |g| && 0 <= c < |g[r]| && g[r][c] == m)
    && (forall r, c :: 0 <= r < |g| && 0 <= c < |g[r]| ==> m <= g[r][c])
  }

  /** At most one value is the maximum (resp. the minimum), and the maximum is never below the minimum. */
  lemma ExtremesUnique(g: Grid, m1: real, m2: real, n: real)
    requires IsMaxCell(g, m1) && IsMaxCell(g, m2) && IsMinCell(g, n)
    ensures m1 == m2 && n <= m1
  {
    var r, c :| 0 <= r < |g| && 0 <= c < |g[r]| && g[r][c] == m1;
    var r2, c2 :| 0 <= r2 < |g| && 0 <= c2 < |g[r2]| && g[r2][c2] == m2;
    assert m1 <= m2 && m2 <= m1;
  }

  /** At most one value is the minimum. */
  lemma MinUnique(g: Grid, m1: real, m2: real)
    requires IsMinCell(g, m1) && IsMinCell(g, m2)
    ensures m1 == m2
  {
    var r, c :| 0 <= r < |g| && 0 <= c < |g[r]| && g[r][c] == m1;
    var r2, c2 :| 0 <= r2 < |g| && 0 <= c2 < |g[r2]| && g[r2][c2] == m2;
    assert m1 <= m2 && m2 <= m1;
  }

  /** `(sum / rows) / cols`. */
  function Mean(g: Grid): real
    requires |g| > 0 && Cols(g) > 0
  {
    GridSum(g) / |g| as real / Cols(g) as real
  }

  /** The mean squared deviation from the mean; no square root is taken. */
  function MeanSquaredDeviation(g: Grid): (v: real)
    requires |g| > 0 && Cols(g) > 0
  {
    GridSum(Deviations(g, Mean(g))) / |g| as real / Cols(g) as real
  }

  /** The mean of a constant grid is that constant, and its deviation is 0; the deviation is never negative. */
  lemma MeanOfFilled(rows: nat, cols: nat, v: real)
    requires rows > 0 && cols > 0
    ensures Mean(Filled(rows, cols, v)) == v
    ensures MeanSquaredDeviation(Filled(rows, cols, v)) == 0.0
  {
    var g := Filled(rows, cols, v);
    GridSumFilled(rows, cols, v);
    CancelSize(rows, cols, v);
    assert Mean(g) == (rows * cols) as real * v / rows as real / cols as real;
    DeviationsOfFilled(rows, cols, v);
    GridSumFilled(rows, cols, 0.0);
    assert GridSum(Deviations(g, Mean(g))) == 0.0;
  }

  /** Every cell of a constant grid lies at distance 0 from that constant. */
  lemma DeviationsOfFilled(rows: nat, cols: nat, v: real)
    ensures Deviations(Filled(rows, cols, v), v) == Filled(rows, cols, 0.0)
  {
    var g, d, z := Filled(rows, cols, v), Deviations(Filled(rows, cols, v), v), Filled(rows, cols, 0.0);
    forall r | 0 <= r < rows ensures d[r] == z[r] {
      assert |d[r]| == cols == |z[r]|;
      forall c | 0 <= c < cols ensures d[r][c] == 0.0 {
        assert g[r][c] == v;
        assert d[r][c] == (v - v) * (v - v);
      }
    }
    assert |d| == |z|;
  }

  lemma CancelSize(rows: nat, cols: nat, v: real)
    requires rows > 0 && cols > 0
    ensures (rows * cols) as real * v / rows as real / cols as real == v
  {
    var n, m := rows as real, cols as real;
    assert (rows * cols) as real == n * m;
    calc {
      n * m * v / n / m;
      == { assert n * m * v / n == m * v; }
      m * v / m;
    }
  }

  lemma DeviationNonNegative(g: Grid)
    requires |g| > 0 && Cols(g) > 0
    ensures MeanSquaredDeviation(g) >= 0.0
  {
    var d := Deviations(g, Mean(g));
    forall r, c | 0 <= r < |d| && 0 <= c < |d[r]| ensures d[r][c] >= 0.0 {
      var x := g[r][c] - Mean(g);
      assert d[r][c] == x * x;
    }
    GridSumNonNegative(d);
  }
}
