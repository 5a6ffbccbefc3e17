/** The nested loops behind `+=`/`-=`, `elementMult` and `matrixMult`, run on
    grid values and proved against the definitions in `Grids` and `MatrixOps`. */
module MatrixLoops {
  import opened Grids
  import opened MatrixOps

  /** The body of `+=` (op = Plus) and `-=` (op = Minus): a zero grid of the larger
      size, the left operand copied in, then the right operand applied cell by cell. */
  method BroadcastLoop(a: Grid, b: Grid, op: Sign) returns (out: Grid)
    requires IsRect(a) && IsRect(b)
    ensures out == Broadcast(a, b, op)
  {
    var rowMax := if |b| > |a| then |b| else |a|;
    var colMax := if Cols(b) > Cols(a) then Cols(b) else Cols(a);
    out := Filled(rowMax, colMax, 0.0);
    for r := 0 to |a|
      invariant |out| == rowMax && forall i :: 0 <= i < rowMax ==> |out[i]| == colMax
      invariant forall i, j :: 0 <= i < rowMax && 0 <= j < colMax ==> out[i][j] == if i < r then CellOrZero(a, i, j) else 0.0
    {
      for c := 0 to Cols(a)
        invariant |out| == rowMax && forall i :: 0 <= i < rowMax ==> |out[i]| == colMax
        invariant forall i, j :: 0 <= i < rowMax && 0 <= j < colMax ==>
          out[i][j] == if i < r || (i == r && j < c) then CellOrZero(a, i, j) else 0.0
      {
        out := out[r := out[r][c := a[r][c]]];
      }
    }
    for r := 0 to |b|
      invariant |out| == rowMax && forall i :: 0 <= i < rowMax ==> |out[i]| == colMax
      invariant forall i, j :: 0 <= i < rowMax && 0 <= j < colMax ==>
        out[i][j] == if i < r then Apply(op, CellOrZero(a, i, j), CellOrZero(b, i, j)) else CellOrZero(a, i, j)
    {
      for c := 0 to Cols(b)
        invariant |out| == rowMax && forall i :: 0 <= i < rowMax ==> |out[i]| == colMax
        invariant forall i, j :: 0 <= i < rowMax && 0 <= j < colMax ==>
          out[i][j] == if i < r || (i == r && j < c) then Apply(op, CellOrZero(a, i, j), CellOrZero(b, i, j)) else CellOrZero(a, i, j)
      {
        out := out[r := out[r][c := Apply(op, out[r][c], b[r][c])]];
      }
      forall j | Cols(b) <= j < colMax
        ensures out[r][j] == Apply(op, CellOrZero(a, r, j), CellOrZero(b, r, j))
      {
        assert CellOrZero(b, r, j) == 0.0;
      }
    }
    forall i, j | |b| <= i < rowMax && 0 <= j < colMax
      ensures out[i][j] == Apply(op, CellOrZero(a, i, j), CellOrZero(b, i, j))
    {
      assert CellOrZero(b, i, j) == 0.0;
    }
    ghost var want := Broadcast(a, b, op);
    forall i | 0 <= i < rowMax ensures out[i] == want[i] {
      assert |out[i]| == |want[i]| == colMax;
    }
  }

  /** `elementMult(a, b)`: a zero grid of a's size, filled cell by cell with the
      products, the column loop running up to the row count. */
  method ElementMult(a: Grid, b: Grid) returns (res: Result<Grid, MatrixError>)
    requires IsRect(a) && IsRect(b)
    ensures res == ElementProduct(a, b)
  {
    if |a| != |b| || Cols(a) != Cols(b) {
      return Err(SizeMismatch);
    }
    var result := Filled(|a|, Cols(a), 0.0);
    for r := 0 to |a|
      invariant r > 0 ==> |a| <= Cols(a)
      invariant |result| == |a| && forall i :: 0 <= i < |a| ==> |result[i]| == Cols(a)
      invariant forall i, j :: 0 <= i < |a| && 0 <= j < Cols(a) ==>
        result[i][j] == if i < r && j < |a| then a[i][j] * b[i][j] else 0.0
    {
      for c := 0 to |a|
        invariant c <= Cols(a)
        invariant |result| == |a| && forall i :: 0 <= i < |a| ==> |result[i]| == Cols(a)
        invariant forall i, j :: 0 <= i < |a| && 0 <= j < Cols(a) ==>
          result[i][j] == if (i < r || (i == r && j < c)) && j < |a| then a[i][j] * b[i][j] else 0.0
      {
        if c >= Cols(a) {
          // `result(r, c)` is out of bounds: mat_bnd_ex
          return Err(OutOfBounds);
        }
        result := result[r := result[r][c := a[r][c] * b[r][c]]];
      }
    }
    ghost var want := MultiplyLeading(a, b);
    forall i | 0 <= i < |a| ensures result[i] == want[i] {
      assert |result[i]| == |want[i]| == Cols(a);
    }
    assert result == want;
    return Ok(result);
  }

  /** The loops of `a /= b` on operands of one size: each cell of the first `rows()`
      columns divided in turn, with `operator()` throwing once the column index
      reaches `cols()`; `out` is the grid as it stands when the loops end or throw. */
  method DivideLoop(a: Grid, b: Grid) returns (res: Outcome<MatrixError>, out: Grid)
    requires SameShape(a, b) && DivisorsNonZero(a, b)
    ensures Cols(a) >= |a| ==> res == Pass && out == DivideLeading(a, b)
    ensures Cols(a) < |a| ==> res == Fail(OutOfBounds) && out == DivideFirstRow(a, b)
  {
    var n, cols := |a|, Cols(a);
    out := a;
    for r := 0 to n
      invariant r > 0 ==> cols >= n
      invariant |out| == n && forall i :: 0 <= i < n ==> |out[i]| == cols
      invariant forall i, j :: 0 <= i < n && 0 <= j < cols ==>
        out[i][j] == if i < r && j < n then a[i][j] / b[i][j] else a[i][j]
    {
      for c := 0 to n
        invariant c <= cols
        invariant |out| == n && forall i :: 0 <= i < n ==> |out[i]| == cols
        invariant forall i, j :: 0 <= i < n && 0 <= j < cols ==>
          out[i][j] == if (i < r || (i == r && j < c)) && j < n then a[i][j] / b[i][j] else a[i][j]
      {
        if c >= cols {
          // `operator()(r, c)` is out of bounds: mat_bnd_ex, with row 0 already divided
          assert r == 0;
          ghost var want := DivideFirstRow(a, b);
          forall i | 0 <= i < n ensures out[i] == want[i] {
            assert |out[i]| == |want[i]| == cols;
          }
          assert out == want;
          res := Fail(OutOfBounds);
          return;
        }
        out := out[r := out[r][c := out[r][c] / b[r][c]]];
      }
    }
    ghost var want := DivideLeading(a, b);
    forall i | 0 <= i < n ensures out[i] == want[i] {
      assert |out[i]| == |want[i]| == cols;
    }
    assert out == want;
    res := Pass;
  }

  /** `matrixMult(a, b)`: a `b.rows()` x `a.cols()` zero grid whose cells (r, c),
      r, c < b.rows(), receive the sum of `a(r, i) * b(i, c)` over i < b.rows(). */
  method MatrixMult(a: Grid, b: Grid) returns (res: Result<Grid, MatrixError>)
    requires IsRect(a) && IsRect(b) && ReadsInRange(a, b)
    ensures res == MatrixProduct(a, b)
  {
    if |a| != Cols(b) {
      return Err(SizeMismatch);
    }
    var n := |b|;
    var result := Filled(n, Cols(a), 0.0);
    for r := 0 to n
      invariant |result| == n && forall i :: 0 <= i < n ==> |result[i]| == Cols(a)
      invariant forall i, j :: 0 <= i < n && 0 <= j < Cols(a) ==>
        result[i][j] == if i < r && j < n then Dot(a, b, i, j, n) else 0.0
    {
      for c := 0 to n
        invariant |result| == n && forall i :: 0 <= i < n ==> |result[i]| == Cols(a)
        invariant forall i, j :: 0 <= i < n && 0 <= j < Cols(a) ==>
          result[i][j] == if (i < r || (i == r && j < c)) && j < n then Dot(a, b, i, j, n) else 0.0
      {
        var sum := 0.0;
        for i := 0 to n
          invariant sum == Dot(a, b, r, c, i)
        {
          sum := sum + a[r][i] * b[i][c];
        }
        result := result[r := result[r][c := sum]];
      }
    }
    ghost var want := MatrixProduct(a, b).value;
    forall i | 0 <= i < n ensures result[i] == want[i] {
      assert |result[i]| == |want[i]| == Cols(a);
    }
    assert result == want;
    return Ok(result);
  }
}
