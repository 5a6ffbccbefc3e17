/** The `KMatrix<double>` class: a grid of cells and the flag that decides
    whether `*=` multiplies element-wise or as matrices.  Exceptions the source
    throws (`mat_bnd_ex`, `mat_mult_ex`) come back as `Fail`/`Err` values. */
module KMatrixModel {
  import opened Grids
  import opened MatrixParser
  import opened MatrixOps
  import opened MatrixLoops
  import opened Render
  import ParserProperties

  class KMatrix {
    var mat: Grid
    /** `element_mult_mode`, true unless set otherwise. */
    var elementMultMode: bool

    /** Every row has `cols()` cells. */
    ghost predicate Valid()
      reads this
    {
      IsRect(mat)
    }

    /** `KMatrix()`: 0 x 0. */
    constructor ()
      ensures Valid() && mat == [] && elementMultMode
    {
      mat := [];
      elementMultMode := true;
    }

    /** `KMatrix(rows, cols)`: a rows x cols grid of zeros. */
    constructor Sized(rows: nat, cols: nat)
      ensures Valid() && mat == Filled(rows, cols, 0.0) && elementMultMode
    {
      mat := [];
      elementMultMode := true;
      new;
      ClearTo(rows, cols);
    }

    /** `KMatrix(std::string)`: the literal read by `matrixFromString`, or 0 x 0 if it is refused. */
    constructor FromTokens(init: seq<Token>)
      ensures Valid() && elementMultMode
      ensures mat == if Parse(init).Ok? then Parse(init).value else []
    {
      var ok, out := MatrixFromString(init, []);
      if !ok {
        out := [];
      } else {
        ParserProperties.ParseShape(init);
      }
      mat := out;
      elementMultMode := true;
    }

    /** `KMatrix(T** init, rows, cols)`: the leading rows x cols block of `init`. */
    constructor FromArray(init: seq<seq<real>>, rows: nat, cols: nat)
      requires |init| >= rows && forall r :: 0 <= r < rows ==> |init[r]| >= cols
      ensures Valid() && elementMultMode
      ensures |mat| == rows && forall r :: 0 <= r < rows ==> mat[r] == init[r][..cols]
    {
      var m: Grid := [];
      for r := 0 to rows
        invariant |m| == r && forall i :: 0 <= i < r ==> m[i] == init[i][..cols]
      {
        var temp := RowOf(cols, 0.0);
        for i := 0 to cols
          invariant |temp| == cols && forall j :: 0 <= j < cols ==> temp[j] == if j < i then init[r][j] else 0.0
        {
          temp := temp[i := init[r][i]];
        }
        assert temp == init[r][..cols];
        m := m + [temp];
      }
      mat := m;
      elementMultMode := true;
    }

    /** `KMatrix(T init, rows, cols)`: rows x cols cells all equal to `init`. */
    constructor WithValue(init: real, rows: nat, cols: nat)
      ensures Valid() && mat == Filled(rows, cols, init) && elementMultMode
    {
      var m: Grid := [];
      for r := 0 to rows
        invariant m == Filled(r, cols, init)
      {
        var temp := RowOf(cols, 0.0);
        for i := 0 to cols
          invariant |temp| == cols && forall j :: 0 <= j < cols ==> temp[j] == if j < i then init else 0.0
        {
          temp := temp[i := init];
        }
        assert temp == RowOf(cols, init);
        assert Filled(r + 1, cols, init) == m + [temp];
        m := m + [temp];
      }
      mat := m;
      elementMultMode := true;
    }

    /** `KMatrix(std::vector<std::vector<T>>)`, with the column count taken as the
        longest row: rows shorter than that are padded with zeros. */
    constructor FromRows(init: Grid)
      ensures Valid() && elementMultMode
      ensures mat == PadTo(init, |init|, LongestRow(init))
    {
      mat := [];
      elementMultMode := true;
      new;
      var maxLen := 0;
      for r := 0 to |init|
        invariant maxLen == LongestRow(init[..r])
        invariant elementMultMode
      {
        assert init[..r + 1][..r] == init[..r];
        if |init[r]| > maxLen {
          maxLen := |init[r]|;
        }
      }
      assert init[..|init|] == init;
      ClearTo(|init|, maxLen);
      for r := 0 to |init|
        invariant |mat| == |init| && forall i :: 0 <= i < |init| ==> |mat[i]| == maxLen
        invariant forall i, j :: 0 <= i < |init| && 0 <= j < maxLen ==> mat[i][j] == if i < r then CellOrZero(init, i, j) else 0.0
        invariant elementMultMode
      {
        for c := 0 to |init[r]|
          invariant |mat| == |init| && forall i :: 0 <= i < |init| ==> |mat[i]| == maxLen
          invariant forall i, j :: 0 <= i < |init| && 0 <= j < maxLen ==>
            mat[i][j] == if i < r || (i == r && j < c) then CellOrZero(init, i, j) else 0.0
          invariant elementMultMode
        {
          mat := mat[r := mat[r][c := init[r][c]]];
        }
      }
      ghost var want := PadTo(init, |init|, maxLen);
      forall i | 0 <= i < |init| ensures mat[i] == want[i] {
        assert |mat[i]| == |want[i]| == maxLen;
      }
      assert mat == want;
    }

    /** The copy constructor: same cells, same multiplication mode. */
    constructor Copy(init: KMatrix)
      requires init.Valid()
      ensures Valid() && mat == init.mat && elementMultMode == init.elementMultMode
    {
      mat := [];
      elementMultMode := true;
      new;
      ClearTo(init.Rows(), init.Cols());
      elementMultMode := init.elementMultMode;
      var rows, cols := init.Rows(), init.Cols();
      for r := 0 to rows
        invariant |mat| == rows && forall i :: 0 <= i < rows ==> |mat[i]| == cols
        invariant forall i, j :: 0 <= i < rows && 0 <= j < cols ==> mat[i][j] == if i < r then init.mat[i][j] else 0.0
        invariant elementMultMode == init.elementMultMode
      {
        for c := 0 to cols
          invariant |mat| == rows && forall i :: 0 <= i < rows ==> |mat[i]| == cols
          invariant forall i, j :: 0 <= i < rows && 0 <= j < cols ==>
            mat[i][j] == if i < r || (i == r && j < c) then init.mat[i][j] else 0.0
          invariant elementMultMode == init.elementMultMode
        {
          mat := mat[r := mat[r][c := init.Get(r, c)]];
        }
      }
      forall i | 0 <= i < rows ensures mat[i] == init.mat[i] {
        assert |mat[i]| == |init.mat[i]| == cols;
      }
    }

    /** `clear()`: 0 x 0. */
    method Clear()
      modifies this
      ensures Valid() && mat == [] && elementMultMode == old(elementMultMode)
    {
      mat := [];
    }

    /** `clear(rows, cols)`: rows x cols zeros. */
    method ClearTo(rows: nat, cols: nat)
      modifies this
      ensures Valid() && mat == Filled(rows, cols, 0.0) && elementMultMode == old(elementMultMode)
    {
      Clear();
      for r := 0 to rows
        invariant mat == Filled(r, cols, 0.0) && elementMultMode == old(elementMultMode)
      {
        var temp := RowOf(cols, 0.0);
        assert Filled(r + 1, cols, 0.0) == mat + [temp];
        mat := mat + [temp];
      }
    }

    /** `rows()`. */
    function Rows(): (n: nat)
      reads this
      ensures n == |mat|
      ensures n == 0 ==> Cols() == 0
    {
      |mat|
    }

    /** `cols()`: the length of the first row, 0 when there is none. */
    function Cols(): (n: nat)
      reads this
      ensures Valid() ==> forall r :: 0 <= r < |mat| ==> |mat[r]| == n
    {
      Grids.Cols(mat)
    }

    /** Reading through `operator()(r, c)`.  The bounds test compares `int` with
        `size_t`, so a negative index turns into a huge one and fails it too. */
    function At(r: int, c: int): (res: Result<real, MatrixError>)
      reads this
      requires Valid()
      ensures res.Ok? <==> 0 <= r < Rows() && 0 <= c < Cols()
      ensures res.Ok? ==> res.value == mat[r][c]
      ensures res.Err? ==> res.error == OutOfBounds
    {
      if r < 0 || c < 0 || r >= |mat| || c >= Grids.Cols(mat) then Err(OutOfBounds) else Ok(mat[r][c])
    }

    /** Writing through the reference `operator()(r, c)` returns: that cell and no other changes. */
    method SetAt(r: int, c: int, v: real) returns (res: Outcome<MatrixError>)
      modifies this
      requires Valid()
      ensures Valid() && elementMultMode == old(elementMultMode)
      ensures res == Pass <==> old(At(r, c)).Ok?
      ensures res.Fail? ==> res.error == OutOfBounds && mat == old(mat)
      ensures res.Pass? ==> mat == old(mat)[r := old(mat)[r][c := v]] && At(r, c) == Ok(v)
    {
      if r < 0 || c < 0 || r >= |mat| || c >= Grids.Cols(mat) {
        return Fail(OutOfBounds);
      }
      mat := mat[r := mat[r][c := v]];
      return Pass;
    }

    /** `get(r, c)`: no bounds test, so the caller must stay inside the grid. */
    function Get(r: nat, c: nat): (v: real)
      reads this
      requires Valid() && r < Rows() && c < Cols()
      ensures At(r, c) == Ok(v)
    {
      mat[r][c]
    }

    /** `+=`: the grid grows to the larger of the two sizes, missing cells count as 0.
        The result replaces this matrix through `swapMat`, which also brings in the
        fresh result's default element-wise mode. */
    method PlusAssign(rv: KMatrix)
      modifies this
      requires Valid() && rv.Valid()
      ensures Valid() && elementMultMode
      ensures mat == Broadcast(old(mat), old(rv.mat), Plus)
    {
      var out := BroadcastLoop(mat, rv.mat, Plus);
      mat := out;
      elementMultMode := true;
    }

    /** `-=`: as `+=`, subtracting. */
    method MinusAssign(rv: KMatrix)
      modifies this
      requires Valid() && rv.Valid()
      ensures Valid() && elementMultMode
      ensures mat == Broadcast(old(mat), old(rv.mat), Minus)
    {
      var out := BroadcastLoop(mat, rv.mat, Minus);
      mat := out;
      elementMultMode := true;
    }

    /** `*=`: `elementMult` or `matrixMult` by the mode; on success the product is
        assigned (mode becomes element-wise), on a throw nothing changes. */
    method TimesAssign(rv: KMatrix) returns (res: Outcome<MatrixError>)
      modifies this
      requires Valid() && rv.Valid()
      requires !elementMultMode ==> ReadsInRange(mat, rv.mat)
      ensures Valid()
      ensures var p := if old(elementMultMode) then ElementProduct(old(mat), old(rv.mat)) else MatrixProduct(old(mat), old(rv.mat));
              if p.Ok? then res == Pass && mat == p.value && elementMultMode
              else res == Fail(p.error) && mat == old(mat) && elementMultMode == old(elementMultMode)
    {
      var p: Result<Grid, MatrixError>;
      if elementMultMode {
        p := ElementMult(mat, rv.mat);
        ElementProductShape(mat, rv.mat);
      } else {
        p := MatrixMult(mat, rv.mat);
      }
      if p.Ok? {
        mat := p.value;
        elementMultMode := true;
        res := Pass;
      } else {
        res := Fail(p.error);
      }
    }

    /** `/=`: unequal sizes throw before anything changes.  Otherwise the column loop
        runs up to the row count: with at least as many columns as rows the cells
        of the leading columns are divided; with fewer columns, row 0 is divided
        and then `operator()` throws. */
    method DivAssign(rv: KMatrix) returns (res: Outcome<MatrixError>)
      modifies this
      requires Valid() && rv.Valid()
      requires SameDims(mat, rv.mat) ==> DivisorsNonZero(mat, rv.mat)
      ensures Valid() && elementMultMode == old(elementMultMode)
      ensures !SameDims(old(mat), old(rv.mat)) ==> res == Fail(SizeMismatch) && mat == old(mat)
      ensures SameDims(old(mat), old(rv.mat)) && Grids.Cols(old(mat)) >= |old(mat)| ==>
                res == Pass && mat == DivideLeading(old(mat), old(rv.mat))
      ensures SameDims(old(mat), old(rv.mat)) && Grids.Cols(old(mat)) < |old(mat)| ==>
                res == Fail(OutOfBounds) && mat == DivideFirstRow(old(mat), old(rv.mat))
    {
      if |mat| != |rv.mat| || Grids.Cols(mat) != Grids.Cols(rv.mat) {
        return Fail(SizeMismatch);
      }
      // Each cell is read from `rv` before it is written, so when `rv` is this
      // matrix the divisor is still the original cell.
      var divided;
      res, divided := DivideLoop(mat, rv.mat);
      mat := divided;
    }

    /** `operator=(KMatrix rh)`: copy-and-swap, taking both the cells and the mode. */
    method Assign(rh: KMatrix)
      modifies this
      requires rh.Valid()
      ensures Valid() && mat == old(rh.mat) && elementMultMode == old(rh.elementMultMode)
      ensures rh != this ==> rh.mat == old(rh.mat) && rh.elementMultMode == old(rh.elementMultMode)
    {
      var copy := new KMatrix.Copy(rh);
      SwapMat(this, copy);
    }

    /** `setElementMultMode(em)`. */
    method SetElementMultMode(em: bool)
      modifies this
      ensures mat == old(mat) && elementMultMode == em
    {
      elementMultMode := em;
    }

    /** `max()`: 0 for an empty grid, otherwise the largest cell. */
    method Max() returns (maxVal: real)
      requires Valid()
      ensures Rows() == 0 || Cols() == 0 ==> maxVal == 0.0
      ensures Rows() > 0 && Cols() > 0 ==> IsMaxCell(mat, maxVal)
    {
      maxVal := 0.0;
      if |mat| > 0 && Grids.Cols(mat) > 0 {
        maxVal := mat[0][0];
      } else {
        return;
      }
      ghost var gr, gc := 0, 0;
      for r := 0 to |mat|
        invariant 0 <= gr < |mat| && 0 <= gc < |mat[gr]| && mat[gr][gc] == maxVal
        invariant forall i, j :: 0 <= i < r && 0 <= j < |mat[i]| ==> mat[i][j] <= maxVal
      {
        for c := 0 to Grids.Cols(mat)
          invariant 0 <= gr < |mat| && 0 <= gc < |mat[gr]| && mat[gr][gc] == maxVal
          invariant forall i, j :: 0 <= i < |mat| && 0 <= j < |mat[i]| && (i < r || (i == r && j < c)) ==> mat[i][j] <= maxVal
        {
          if mat[r][c] > maxVal {
            maxVal := mat[r][c];
            gr, gc := r, c;
          }
        }
      }
    }

    /** `min()`: 0 for an empty grid, otherwise the smallest cell. */
    method Min() returns (minVal: real)
      requires Valid()
      ensures Rows() == 0 || Cols() == 0 ==> minVal == 0.0
      ensures Rows() > 0 && Cols() > 0 ==> IsMinCell(mat, minVal)
    {
      minVal := 0.0;
      if |mat| > 0 && Grids.Cols(mat) > 0 {
        minVal := mat[0][0];
      } else {
        return;
      }
      ghost var gr, gc := 0, 0;
      for r := 0 to |mat|
        invariant 0 <= gr < |mat| && 0 <= gc < |mat[gr]| && mat[gr][gc] == minVal
        invariant forall i, j :: 0 <= i < r && 0 <= j < |mat[i]| ==> minVal <= mat[i][j]
      {
        for c := 0 to Grids.Cols(mat)
          invariant 0 <= gr < |mat| && 0 <= gc < |mat[gr]| && mat[gr][gc] == minVal
          invariant forall i, j :: 0 <= i < |mat| && 0 <= j < |mat[i]| && (i < r || (i == r && j < c)) ==> minVal <= mat[i][j]
        {
          if mat[r][c] < minVal {
            minVal := mat[r][c];
            gr, gc := r, c;
          }
        }
      }
    }

    /** `range()`: the largest cell minus the smallest, never negative. */
    method Range() returns (d: real)
      requires Valid()
      ensures Rows() == 0 || Cols() == 0 ==> d == 0.0
      ensures Rows() > 0 && Cols() > 0 ==> d >= 0.0 && forall hi, lo :: IsMaxCell(mat, hi) && IsMinCell(mat, lo) ==> d == hi - lo
    {
      var hi := Max();
      var lo := Min();
      d := hi - lo;
      if |mat| > 0 && Grids.Cols(mat) > 0 {
        ExtremesUnique(mat, hi, hi, lo);
        forall h, l | IsMaxCell(mat, h) && IsMinCell(mat, l) ensures d == h - l {
          ExtremesUnique(mat, h, hi, l);
          assert IsMinCell(mat, lo);
          MinUnique(mat, l, lo);
        }
      }
    }

    /** `avg()`: the cells summed row by row, divided by the row count, then by the column count. */
    method Avg() returns (a: real)
      requires Valid() && Rows() > 0 && Cols() > 0
      ensures a == Mean(mat)
    {
      var sum := 0.0;
      var rows, cols := |mat|, Grids.Cols(mat);
      for r := 0 to rows
        invariant sum == GridSum(mat[..r])
      {
        for c := 0 to cols
          invariant sum == GridSum(mat[..r]) + RowSum(mat[r][..c])
        {
          assert mat[r][..c + 1][..c] == mat[r][..c];
          sum := sum + mat[r][c];
        }
        assert mat[r][..cols] == mat[r];
        assert mat[..r + 1][..r] == mat[..r];
      }
      assert mat[..rows] == mat;
      a := sum / rows as real / cols as real;
    }

    /** `stdev()`: the mean squared deviation from `avg()` (no square root is taken), never negative. */
    method Stdev() returns (s: real)
      requires Valid() && Rows() > 0 && Cols() > 0
      ensures s == MeanSquaredDeviation(mat) && s >= 0.0
    {
      var average := Avg();
      ghost var d := Deviations(mat, average);
      var sum := 0.0;
      var rows, cols := |mat|, Grids.Cols(mat);
      for r := 0 to rows
        invariant sum == GridSum(d[..r])
      {
        for c := 0 to cols
          invariant sum == GridSum(d[..r]) + RowSum(d[r][..c])
        {
          assert d[r][..c + 1][..c] == d[r][..c];
          var x := mat[r][c] - average;
          assert d[r][c] == x * x;
          sum := sum + x * x;
        }
        assert d[r][..cols] == d[r];
        assert d[..r + 1][..r] == d[..r];
      }
      assert d[..rows] == d;
      s := sum / rows as real / cols as real;
      DeviationNonNegative(mat);
    }

    /** `to_string(options)`: each cell turned into text by `render`, laid out as the options ask. */
    method ToString(options: string, render: real -> string) returns (out: string)
      ensures out == Rendered(mat, ReadOptions(options), render)
    {
      var useBrackets, usePipe, oneLine := ReadFlags(options);
      ghost var o := Options(useBrackets, usePipe, oneLine);
      out := RenderBody(mat, useBrackets, usePipe, oneLine, render);
      if oneLine {
        if useBrackets {
          out := "[ " + out + " ]";
        } else if usePipe {
          out := "| " + out + " |";
        } else {
          assert out == Open(o) + out + Close(o);
        }
      }
    }

    /** `zero(r, c)`: a fresh r x c matrix of zeros. */
    static method Zero(r: nat, c: nat) returns (out: KMatrix)
      ensures fresh(out) && out.Valid() && out.mat == Filled(r, c, 0.0) && out.elementMultMode
    {
      out := new KMatrix();
      out.ClearTo(r, c);
      for rr := 0 to r
        invariant out.mat == Filled(r, c, 0.0) && out.elementMultMode
      {
        for cc := 0 to c
          invariant out.mat == Filled(r, c, 0.0) && out.elementMultMode
        {
          var _ := out.SetAt(rr, cc, 0.0);
          assert out.mat[rr] == RowOf(c, 0.0);
        }
      }
    }

    /** `constant(val, r, c)`: a fresh r x c matrix with `val` in every cell. */
    static method Constant(val: real, r: nat, c: nat) returns (out: KMatrix)
      ensures fresh(out) && out.Valid() && out.mat == Filled(r, c, val) && out.elementMultMode
    {
      out := new KMatrix();
      out.ClearTo(r, c);
      for rr := 0 to r
        invariant |out.mat| == r && forall i :: 0 <= i < r ==> |out.mat[i]| == c
        invariant forall i, j :: 0 <= i < r && 0 <= j < c ==> out.mat[i][j] == if i < rr then val else 0.0
        invariant out.elementMultMode
      {
        for cc := 0 to c
          invariant |out.mat| == r && forall i :: 0 <= i < r ==> |out.mat[i]| == c
          invariant forall i, j :: 0 <= i < r && 0 <= j < c ==> out.mat[i][j] == if i < rr || (i == rr && j < cc) then val else 0.0
          invariant out.elementMultMode
        {
          var _ := out.SetAt(rr, cc, val);
        }
      }
      ghost var want := Filled(r, c, val);
      forall i | 0 <= i < r ensures out.mat[i] == want[i] {
        assert |out.mat[i]| == |want[i]| == c;
      }
      assert out.mat == want;
    }

    /** `makeRange(start, step, end, rows)`: `rows` copies of the row
        `start, start + step, ...` up to `end`, built through the vector-of-vectors
        constructor. */
    static method MakeRange(start: real, step: real, end: real, rows: nat) returns (out: KMatrix)
      ensures fresh(out) && out.Valid() && out.elementMultMode && |out.mat| == rows
      ensures RangeEnds(start, step, end) ==> forall r :: 0 <= r < rows ==> IsRangeRow(out.mat[r], start, step, end)
      ensures !RangeEnds(start, step, end) ==> forall r :: 0 <= r < rows ==> out.mat[r] == []
    {
      var tempVals := RangeRow(start, step, end);
      var vals: Grid := [];
      for i := 0 to rows
        invariant |vals| == i && forall k :: 0 <= k < i ==> vals[k] == tempVals
      {
        vals := vals + [tempVals];
      }
      assert IsRect(vals);
      PadToLongest(vals);
      out := new KMatrix.FromRows(vals);
    }
  }

  /** The loop `for (T i = start; i <= end; i += step)` collecting its values.
      Where the source's loop never ends (a step <= 0 with `start <= end`, see
      `RangeLoopNeverEndsAsWritten`) the row is empty. */
  method RangeRow(start: real, step: real, end: real) returns (row: seq<real>)
    ensures RangeEnds(start, step, end) ==> IsRangeRow(row, start, step, end)
    ensures !RangeEnds(start, step, end) ==> row == []
  {
    row := [];
    if !RangeEnds(start, step, end) {
      return;
    }
    var i := start;
    while i <= end
      invariant i == start + |row| as real * step
      invariant forall k :: 0 <= k < |row| ==> row[k] == start + k as real * step && row[k] <= end
      invariant step > 0.0 || i == start
      decreases if i <= end && step > 0.0 then ((end - i) / step).Floor + 1 else 0
    {
      ghost var before := (end - i) / step;
      row := row + [i];
      i := i + step;
      if i <= end {
        DivideShift(end - i + step, step);
        FloorShift(before);
      }
    }
  }

  // Real-arithmetic helpers for `RangeRow`'s termination measure.

  lemma DivideShift(x: real, step: real)
    requires step > 0.0
    ensures (x - step) / step == x / step - 1.0
  {
    var q := x / step;
    assert x == q * step;
    assert x - step == (q - 1.0) * step;
    DivideExact(x - step, q - 1.0, step);
  }

  lemma DivideExact(a: real, b: real, step: real)
    requires step > 0.0 && a == b * step
    ensures a / step == b
  {
  }

  /** Taking one off a real takes one off its floor. */
  lemma FloorShift(x: real)
    ensures (x - 1.0).Floor == x.Floor - 1
  {
    assert (x.Floor - 1) as real <= x - 1.0 < (x.Floor - 1) as real + 1.0;
  }

  /** The option tests at the head of `to_string`, in their order. */
  method ReadFlags(options: string) returns (useBrackets: bool, usePipe: bool, oneLine: bool)
    ensures Options(useBrackets, usePipe, oneLine) == ReadOptions(options)
  {
    useBrackets := false;
    usePipe := false;
    oneLine := true;
    if '[' in options || ']' in options {
      useBrackets := true;
      usePipe := false;
    }
    if '|' in options {
      useBrackets := false;
      usePipe := true;
    }
    if 'm' in options {
      oneLine := false;
    }
    if 'o' in options {
      oneLine := true;
    }
  }

  /** The row loop of `to_string`: the one-line body (rows joined by " ; ") or the
      multi-line body (one wrapped line per row). */
  method RenderBody(g: Grid, useBrackets: bool, usePipe: bool, oneLine: bool, render: real -> string)
    returns (out: string)
    ensures oneLine ==> out == Joined(g, render)
    ensures !oneLine ==> out == Lines(g, Options(useBrackets, usePipe, oneLine), render)
  {
    ghost var o := Options(useBrackets, usePipe, oneLine);
    out := "";
    for r := 0 to |g|
      invariant oneLine ==> out == Joined(g[..r], render) + (if 0 < r < |g| then " ; " else "")
      invariant !oneLine ==> out == Lines(g[..r], o, render)
    {
      ghost var prev := out;
      out := AppendRow(out, g[r], useBrackets, usePipe, oneLine, r + 1 < |g|, render);
      if oneLine {
        JoinedPrefix(g, r, render);
        ghost var line := (if r == 0 then "" else Joined(g[..r], render) + " ; ") + CellsText(g[r], render);
        assert prev + CellsText(g[r], render) == line;
        assert out == line + if r + 1 < |g| then " ; " else "";
      } else {
        LinesPrefix(g, r, o, render);
      }
    }
    assert g[..|g|] == g;
  }

  /** One pass of the row loop of `to_string`: the line's opening bracket or pipe, the
      cells, then either the closing bracket or pipe and a newline, or the row separator
      " ; " when another row follows on the same line. */
  method AppendRow(base: string, row: seq<real>, useBrackets: bool, usePipe: bool, oneLine: bool,
                   more: bool, render: real -> string) returns (out: string)
    ensures oneLine && more ==> out == base + CellsText(row, render) + " ; "
    ensures oneLine && !more ==> out == base + CellsText(row, render)
    ensures !oneLine ==> out == base + Open(Options(useBrackets, usePipe, oneLine)) + CellsText(row, render)
                                 + Close(Options(useBrackets, usePipe, oneLine)) + "\n"
  {
    ghost var o := Options(useBrackets, usePipe, oneLine);
    out := base;
    if !oneLine {
      if useBrackets {
        out := out + "[ ";
      } else if usePipe {
        out := out + "| ";
      }
    }
    assert out == base + if oneLine then "" else Open(o);
    out := AppendCells(out, row, render);
    if !oneLine {
      if useBrackets {
        out := out + " ]";
      } else if usePipe {
        out := out + " |";
      }
      out := out + "\n";
    } else if more {
      out := out + " ; ";
    }
  }

  /** The inner loop of `to_string`: each cell's text, followed by ", " unless it is the last. */
  method AppendCells(base: string, row: seq<real>, render: real -> string) returns (out: string)
    ensures out == base + CellsText(row, render)
  {
    out := base;
    for c := 0 to |row|
      invariant out == base + CellsText(row[..c], render) + (if 0 < c < |row| then ", " else "")
    {
      assert row[..c + 1][..c] == row[..c];
      out := out + render(row[c]);
      if c + 1 != |row| {
        out := out + ", ";
      }
    }
    assert row[..|row|] == row;
  }

  /** `swapMat(first, second)`: exchanges the cells and the modes. */
  method SwapMat(first: KMatrix, second: KMatrix)
    modifies first, second
    ensures first.mat == old(second.mat) && first.elementMultMode == old(second.elementMultMode)
    ensures second.mat == old(first.mat) && second.elementMultMode == old(first.elementMultMode)
  {
    first.mat, second.mat := second.mat, first.mat;
    first.elementMultMode, second.elementMultMode := second.elementMultMode, first.elementMultMode;
  }

  /** `operator+(lv, rv)`: `lv` is taken by value (copied), then `+=` is applied to the copy. */
  method Add(lv: KMatrix, rv: KMatrix) returns (out: KMatrix)
    requires lv.Valid() && rv.Valid()
    ensures fresh(out) && out.Valid() && out.elementMultMode
    ensures out.mat == Broadcast(lv.mat, rv.mat, Plus)
  {
    out := new KMatrix.Copy(lv);
    out.PlusAssign(rv);
  }

  /** `operator-(lv, rv)`. */
  method Subtract(lv: KMatrix, rv: KMatrix) returns (out: KMatrix)
    requires lv.Valid() && rv.Valid()
    ensures fresh(out) && out.Valid() && out.elementMultMode
    ensures out.mat == Broadcast(lv.mat, rv.mat, Minus)
  {
    out := new KMatrix.Copy(lv);
    out.MinusAssign(rv);
  }

  /** `operator*(lv, rv)`: multiplies in `lv`'s mode; on a throw `res` carries the exception. */
  method Multiply(lv: KMatrix, rv: KMatrix) returns (out: KMatrix, res: Outcome<MatrixError>)
    requires lv.Valid() && rv.Valid()
    requires !lv.elementMultMode ==> ReadsInRange(lv.mat, rv.mat)
    ensures fresh(out) && out.Valid()
    ensures var p := if lv.elementMultMode then ElementProduct(lv.mat, rv.mat) else MatrixProduct(lv.mat, rv.mat);
            if p.Ok? then res == Pass && out.mat == p.value && out.elementMultMode
            else res == Fail(p.error) && out.mat == lv.mat && out.elementMultMode == lv.elementMultMode
  {
    out := new KMatrix.Copy(lv);
    res := out.TimesAssign(rv);
  }

  /** `operator/(lv, rv)`: on a throw `res` carries the exception. */
  method Divide(lv: KMatrix, rv: KMatrix) returns (out: KMatrix, res: Outcome<MatrixError>)
    requires lv.Valid() && rv.Valid()
    requires SameDims(lv.mat, rv.mat) ==> DivisorsNonZero(lv.mat, rv.mat)
    ensures fresh(out) && out.Valid() && out.elementMultMode == lv.elementMultMode
    ensures !SameDims(lv.mat, rv.mat) ==> res == Fail(SizeMismatch)
    ensures SameDims(lv.mat, rv.mat) && Grids.Cols(lv.mat) >= |lv.mat| ==> res == Pass && out.mat == DivideLeading(lv.mat, rv.mat)
    ensures SameDims(lv.mat, rv.mat) && Grids.Cols(lv.mat) < |lv.mat| ==> res == Fail(OutOfBounds)
  {
    out := new KMatrix.Copy(lv);
    res := out.DivAssign(rv);
  }
}
