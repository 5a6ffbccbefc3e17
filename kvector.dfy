/** `KVector<double>`: a vector kept in the same row-major storage as a
    `KMatrix`, using at most one row.  It has no row at all after the default
    constructor, a refused literal or an empty source. */
module KVectorModel {
  import opened Grids
  import opened MatrixParser
  import opened MatrixOps
  import KMatrixModel
  import ParserProperties

  /** `resize(ns)` on a row: the first min(|row|, ns) elements are kept, new ones are 0. */
  function Resize(row: seq<real>, ns: nat): (r: seq<real>)
    ensures |r| == ns
    ensures forall i :: 0 <= i < ns && i < |row| ==> r[i] == row[i]
    ensures forall i :: |row| <= i < ns ==> r[i] == 0.0
  {
    seq(ns, i requires 0 <= i < ns => if i < |row| then row[i] else 0.0)
  }

  /** Growing a row and shrinking it back gives the row again; shrinking keeps a prefix. */
  lemma ResizeBack(row: seq<real>, ns: nat)
    ensures ns >= |row| ==> Resize(Resize(row, ns), |row|) == row
    ensures ns <= |row| ==> Resize(row, ns) == row[..ns]
  {
    if ns >= |row| {
      var back := Resize(Resize(row, ns), |row|);
      assert forall i :: 0 <= i < |row| ==> back[i] == row[i];
    }
  }

  /** The bounds test of `get(element)` as written: `element > size()`, with
      `element` converted to `size_t`, so a negative index fails it but
      `element == size()` passes and reads one past the end. */
  function GetGuardAsWritten(mat: Grid, element: int): (passes: bool)
    ensures passes <==> |mat| >= 1 && 0 <= element <= |mat[0]|
  {
    !(|mat| < 1 || element < 0 || element > |mat[0]|)
  }

  /** The guard lets through the index equal to the size, which `operator[]` refuses. */
  lemma GetGuardAdmitsSize(v: KVector)
    requires |v.mat| == 1
    ensures GetGuardAsWritten(v.mat, v.Size())
    ensures v.Element(v.Size()) == Err(OutOfBounds)
  {
  }

  class KVector {
    var mat: Grid
    var elementMultMode: bool

    /** At most one row. */
    ghost predicate Valid()
      reads this
    {
      |mat| <= 1
    }

    /** `KVector()`: no row. */
    constructor ()
      ensures Valid() && mat == [] && elementMultMode
    {
      mat := [];
      elementMultMode := true;
    }

    /** `KVector(int elements)`: one row of `elements` zeros. */
    constructor Sized(elements: nat)
      ensures Valid() && mat == [RowOf(elements, 0.0)] && elementMultMode
    {
      mat := [];
      elementMultMode := true;
      new;
      ClearTo(elements);
      elementMultMode := true;
    }

    /** `KVector(const KVector&)`: `clear(init.size())`, then the elements copied;
        copying a vector with no row yields one empty row. */
    constructor Copy(init: KVector)
      requires init.Valid()
      ensures Valid() && elementMultMode
      ensures mat == [if |init.mat| == 1 then init.mat[0] else []]
    {
      mat := [];
      elementMultMode := true;
      new;
      var n := init.Size();
      ClearTo(n);
      elementMultMode := true;
      for c := 0 to n
        invariant |mat| == 1 && |mat[0]| == n && elementMultMode
        invariant forall j :: 0 <= j < n ==> mat[0][j] == if j < c then init.mat[0][j] else 0.0
      {
        var v := init.Element(c);
        mat := [mat[0][c := v.value]];
      }
      assert n > 0 ==> mat[0] == init.mat[0];
    }

    /** `KVector(std::vector<T>)`: the one row `init`. */
    constructor FromRow(init: seq<real>)
      ensures Valid() && mat == [init] && elementMultMode
    {
      mat := [init];
      elementMultMode := true;
    }

    /** `KVector(std::string)`: the first row of the literal, or no row if it is refused. */
    constructor FromTokens(init: seq<Token>)
      ensures Valid() && elementMultMode
      ensures mat == if Parse(init).Ok? && |Parse(init).value| > 0 then [Parse(init).value[0]] else []
      ensures Parse(init).Ok? <==> |mat| == 1
    {
      mat := [];
      var ok, tempMat := MatrixFromString(init, []);
      if ok {
        FirstRowExists(init);
        if |tempMat| > 0 {
          mat := [tempMat[0]];
        }
      }
      elementMultMode := true;
    }

    /** `KVector(T* init, int elements)`: the first `elements` entries of `init`. */
    constructor FromArray(init: seq<real>, elements: nat)
      requires |init| >= elements
      ensures Valid() && mat == [init[..elements]] && elementMultMode
    {
      var temp := RowOf(elements, 0.0);
      for i := 0 to elements
        invariant |temp| == elements && forall j :: 0 <= j < elements ==> temp[j] == if j < i then init[j] else 0.0
      {
        temp := temp[i := init[i]];
      }
      assert temp == init[..elements];
      mat := [temp];
      elementMultMode := true;
    }

    /** `KVector(T init, int elements)`: `elements` copies of `init`. */
    constructor WithValue(init: real, elements: nat)
      ensures Valid() && mat == [RowOf(elements, init)] && elementMultMode
    {
      var temp := RowOf(elements, 0.0);
      for i := 0 to elements
        invariant |temp| == elements && forall j :: 0 <= j < elements ==> temp[j] == if j < i then init else 0.0
      {
        temp := temp[i := init];
      }
      assert temp == RowOf(elements, init);
      mat := [temp];
      elementMultMode := true;
    }

    /** `KVector(int rows, int cols)`: `rows` is ignored; one row of `cols` zeros. */
    constructor SizedIgnoringRows(rows: int, cols: nat)
      ensures Valid() && mat == [RowOf(cols, 0.0)] && elementMultMode
    {
      mat := [];
      elementMultMode := true;
      new;
      ClearTo(cols);
      elementMultMode := true;
    }

    /** `KVector(T** init, int rows, int cols)`: `rows` is ignored; the first `cols` entries of `init[0]`. */
    constructor FromArrayIgnoringRows(init: seq<seq<real>>, rows: int, cols: nat)
      requires |init| >= 1 && |init[0]| >= cols
      ensures Valid() && mat == [init[0][..cols]] && elementMultMode
    {
      var temp := RowOf(cols, 0.0);
      for i := 0 to cols
        invariant |temp| == cols && forall j :: 0 <= j < cols ==> temp[j] == if j < i then init[0][j] else 0.0
      {
        temp := temp[i := init[0][i]];
      }
      assert temp == init[0][..cols];
      mat := [temp];
      elementMultMode := true;
    }

    /** `KVector(T init, int rows, int cols)`: `rows` is ignored; `cols` copies of `init`. */
    constructor WithValueIgnoringRows(init: real, rows: int, cols: nat)
      ensures Valid() && mat == [RowOf(cols, init)] && elementMultMode
    {
      var temp := RowOf(cols, 0.0);
      for i := 0 to cols
        invariant |temp| == cols && forall j :: 0 <= j < cols ==> temp[j] == if j < i then init else 0.0
      {
        temp := temp[i := init];
      }
      assert temp == RowOf(cols, init);
      mat := [temp];
      elementMultMode := true;
    }

    /** `KVector(std::vector<std::vector<T>>)`: the first row only, none if `init` is empty. */
    constructor FromRows(init: Grid)
      ensures Valid() && elementMultMode
      ensures mat == if |init| > 0 then [init[0]] else []
    {
      mat := [];
      if |init| > 0 {
        mat := [init[0]];
      }
      elementMultMode := true;
    }

    /** `KVector(const KMatrix&)`: the matrix's first row, none if it has no row. */
    constructor FromMatrix(init: KMatrixModel.KMatrix)
      ensures Valid() && elementMultMode
      ensures mat == if |init.mat| > 0 then [init.mat[0]] else []
    {
      mat := [];
      if init.Rows() > 0 {
        mat := [init.mat[0]];
      }
      elementMultMode := true;
    }

    /** `clear()`: no row. */
    method Clear()
      modifies this
      ensures Valid() && mat == [] && elementMultMode == old(elementMultMode)
    {
      mat := [];
    }

    /** `clear(elements)`: exactly one row of `elements` zeros. */
    method ClearTo(elements: nat)
      modifies this
      ensures Valid() && mat == [RowOf(elements, 0.0)] && elementMultMode == old(elementMultMode)
    {
      Clear();
      var temp := Resize([], elements);
      assert temp == RowOf(elements, 0.0);
      mat := mat + [temp];
    }

    /** `size()`: 0 without a row, otherwise the length of row 0. */
    function Size(): (n: nat)
      reads this
      ensures |mat| == 0 ==> n == 0
      ensures |mat| > 0 ==> n == |mat[0]|
    {
      if |mat| > 0 then |mat[0]| else 0
    }

    /** Reading through `operator[](idx)`: fails iff there is no row or idx is not
        below `size()`; a negative idx compares as a huge `size_t` and fails too. */
    function Element(idx: int): (res: Result<real, MatrixError>)
      reads this
      ensures res.Err? <==> |mat| < 1 || idx < 0 || idx >= Size()
      ensures res.Err? ==> res.error == OutOfBounds
      ensures res.Ok? ==> res.value == mat[0][idx]
    {
      if |mat| < 1 || idx < 0 || idx >= |mat[0]| then Err(OutOfBounds) else Ok(mat[0][idx])
    }

    /** Writing through the reference `operator[](idx)`: that element and nothing else changes. */
    method SetElement(idx: int, v: real) returns (res: Outcome<MatrixError>)
      modifies this
      requires Valid()
      ensures Valid() && elementMultMode == old(elementMultMode)
      ensures res == Pass <==> old(Element(idx)).Ok?
      ensures res.Fail? ==> res.error == OutOfBounds && mat == old(mat)
      ensures res.Pass? ==> mat == [old(mat)[0][idx := v]] && Element(idx) == Ok(v)
    {
      if |mat| < 1 || idx < 0 || idx >= |mat[0]| {
        return Fail(OutOfBounds);
      }
      mat := [mat[0][idx := v]];
      return Pass;
    }

    /** `get(element)` with the bounds test `element >= size()` it evidently
        intends: it succeeds exactly where `operator[]` does. */
    function Get(element: int): (res: Result<real, MatrixError>)
      reads this
      ensures res == Element(element)
      ensures res.Ok? ==> GetGuardAsWritten(mat, element)
    {
      if |mat| < 1 || element < 0 || element >= |mat[0]| then Err(OutOfBounds) else Ok(mat[0][element])
    }

    /** `get_vec()`: row 0, or out of bounds when there is no row. */
    function GetVec(): (res: Result<seq<real>, MatrixError>)
      reads this
      ensures res.Err? <==> |mat| == 0
      ensures res.Ok? ==> |res.value| == Size() && forall i :: 0 <= i < Size() ==> Element(i) == Ok(res.value[i])
    {
      if |mat| < 1 then Err(OutOfBounds) else Ok(mat[0])
    }

    /** `operator=(KVector rh)`: `rh` is copied (the copy constructor), then swapped
        in; the copy always has one row and element-wise mode. */
    method Assign(rh: KVector)
      modifies this
      requires rh.Valid()
      ensures Valid() && elementMultMode
      ensures mat == [if |old(rh.mat)| == 1 then old(rh.mat)[0] else []]
    {
      var copy := new KVector.Copy(rh);
      mat, copy.mat := copy.mat, mat;
      elementMultMode, copy.elementMultMode := copy.elementMultMode, elementMultMode;
    }

    /** `operator=(KVector rh)` with a temporary argument: `rh` is built in place,
        no copy constructor runs, and `swapMat` exchanges the two vectors, whatever
        rows and mode the temporary has. */
    method AssignTemporary(rh: KVector)
      modifies this, rh
      requires rh.Valid()
      ensures Valid()
      ensures mat == old(rh.mat) && elementMultMode == old(rh.elementMultMode)
      ensures rh != this ==> rh.mat == old(mat) && rh.elementMultMode == old(elementMultMode)
    {
      var m, e := mat, elementMultMode;
      mat, elementMultMode := rh.mat, rh.elementMultMode;
      rh.mat, rh.elementMultMode := m, e;
    }

    /** `operator=(std::string)`: the first row of the literal; a refused literal changes nothing. */
    method AssignTokens(init: seq<Token>)
      modifies this
      requires Valid()
      ensures Valid() && elementMultMode == old(elementMultMode)
      ensures Parse(init).Ok? && |Parse(init).value| > 0 ==> mat == [Parse(init).value[0]]
      ensures Parse(init).Ok? ==> |mat| == 1
      ensures Parse(init).Err? ==> mat == old(mat)
    {
      var ok, tempMat := MatrixFromString(init, []);
      if ok {
        FirstRowExists(init);
        if |tempMat| > 0 {
          if |mat| != 1 {
            Clear();
            mat := mat + [[]];
          }
          mat := mat[0 := tempMat[0]];
        }
      }
    }

    /** `operator=(std::vector<double>)`: exactly the one row `rv`. */
    method AssignRow(rv: seq<real>)
      modifies this
      requires Valid()
      ensures Valid() && mat == [rv] && elementMultMode == old(elementMultMode)
    {
      if |mat| != 1 {
        Clear();
        mat := mat + [[]];
      }
      mat := mat[0 := rv];
    }

    /** `setSize(ns)`: a row is created if there is none, then row 0 is resized to `ns`. */
    method SetSize(ns: nat)
      modifies this
      requires Valid()
      ensures Valid() && elementMultMode == old(elementMultMode)
      ensures mat == [Resize(if |old(mat)| == 1 then old(mat)[0] else [], ns)]
      ensures Size() == ns
    {
      if |mat| < 1 {
        mat := mat + [[]];
      }
      mat := mat[0 := Resize(mat[0], ns)];
    }
  }

  /** A literal that is read successfully has at least one row. */
  lemma FirstRowExists(ts: seq<Token>)
    requires Parse(ts).Ok?
    ensures |Parse(ts).value| >= 1
  {
    ParserProperties.ParseShape(ts);
  }

  /** The free `range(start, step, end)`: the single row `makeRange` builds, as a vector. */
  method Range(start: real, step: real, end: real) returns (v: KVector)
    ensures fresh(v) && v.Valid() && v.elementMultMode && |v.mat| == 1
    ensures RangeEnds(start, step, end) ==> IsRangeRow(v.mat[0], start, step, end)
    ensures !RangeEnds(start, step, end) ==> v.mat[0] == []
  {
    var m := KMatrixModel.KMatrix.MakeRange(start, step, end, 1);
    v := new KVector.FromMatrix(m);
  }
}
