# KMatrix in Dafny

This project models KMatrix, a small C++ template library for dense matrices, with `T = double` taken as Dafny's exact `real`. It covers three parts.

- **`KMatrix<T>`** (`KMatrix/KMatrix.hpp`). A grid `mat` of rows, plus the `element_mult_mode` flag that makes `*=` multiply either element-wise or as matrices. This part covers:
  - the constructors, `clear`, `rows`/`cols`, and checked (`operator()`) and unchecked (`get`) cell access;
  - the compound and binary operators;
  - `max`/`min`/`range`/`avg`/`stdev`;
  - `zero`/`constant`/`makeRange`;
  - `matrixMult`/`elementMult`;
  - the `to_string` layout.
- **`matrixFromString`** (`KMatrix/KMatrixHelpers.cpp`, duplicated in `KMatrix/KMatrix.hpp`). The reader for matrix literals such as `[1, 2; 3, 4]`: a four-phase state machine over tokens, followed by a row-major reshape of the values it collected. The `int` overload truncates every value toward zero.
- **`KVector<T>`** (`KMatrix/KVector.hpp`). A vector stored as at most one row of a grid.

## Modules

| Module | Contents |
|---|---|
| `Grids` | Grid values and the specifications the operations are proved against: broadcasting, the element-wise product and quotient, the matrix product, sums, flattening and reshaping. |
| `MatrixParser` | The reader as a step function `Step` and its fold `Run`, and the end-of-input step `Finish`. The imperative `MatrixFromString` is proved equal to them. |
| `ParserProperties` | What the reader promises: the encode/parse round trip, the shape of every accepted grid, and each refusal. |
| `MatrixOps` | The exact results of `elementMult`, `/=` and `matrixMult`, including their column loops bounded by the row count. Also the vector-of-vectors constructor as written, `makeRange` rows, and the statistics. |
| `MatrixLoops` | The nested loops of `+=`/`-=`, `elementMult` and `matrixMult`, each proved equal to its specification. |
| `Render` | The `to_string` layout. Turning a single cell into text is a parameter `render`. |
| `KMatrixModel` | The class `KMatrix`. |
| `KVectorModel` | The class `KVector`, whose invariant is "at most one row". |

Exceptions become values:
- `mat_bnd_ex` is `OutOfBounds`.
- `mat_mult_ex` is `SizeMismatch`.
- `std::length_error` from `resize` is `LengthError`.
- A refused literal is a `ParseError`.

A method that throws in the source returns `Fail(e)`/`Err(e)`. Its ensures clause also states what was already changed when the throw happened.

Where the documented behaviour and the code disagree, the model keeps the code as written in members of its own (most are named `…AsWritten`). The rest of the model uses the corrected behaviour. There are four such places, each a row of "## Findings":
- the reader's final row;
- the column count of the vector-of-vectors constructor;
- the bounds test in `KVector::get`;
- the `makeRange` loop.

The comment above `setElementMultMode` (KMatrix/KMatrix.hpp:860-866) says `true` multiplies as matrices. `*=` (KMatrix/KMatrix.hpp:367-373) multiplies element-wise when the flag is `true`, so the comment is stale; the model follows the code.

## Model

| member | source | states |
|---|---|---|
| Grids.Broadcast | KMatrix/KMatrix.hpp:336-405 | The broadcast grid is rectangular, with the larger row count and the larger column count of the operands. |
| Grids.Reshape | KMatrix/KMatrixHelpers.cpp:123-131 | Reshaping at least r·c values gives a rectangular grid of r rows of c cells. |
| Grids.RowSumNonNegative | KMatrix/KMatrix.hpp:720-734 | A row of non-negative cells has a non-negative sum. |
| Grids.BroadcastPlusCommutes | KMatrix/KMatrix.hpp:336-362 | The broadcast sum that `+=` computes is commutative, whatever the two sizes. |
| Grids.BroadcastMinusUndoesPlus | KMatrix/KMatrix.hpp:336-405 | `-=` undoes `+=` on the broadcast grid: `(a + b) - b` is `a` padded with zeros to the larger size. |
| Grids.BroadcastSelfMinus | KMatrix/KMatrix.hpp:378-405 | Subtracting a grid from itself gives the zero grid of its size. |
| Grids.PadToSelf | KMatrix/KMatrix.hpp:253-274 | Padding a rectangular grid to its own size keeps it unchanged. |
| Grids.QuotientUndoesHadamard | KMatrix/KMatrix.hpp:407-427 | Dividing an element-wise product by the same divisor gives back the dividend. |
| Grids.DotIdentityLeft | KMatrix/KMatrix.hpp:896-900 | A partial sum of products with the identity on the left picks out one cell of the right operand. |
| Grids.DotIdentityRight | KMatrix/KMatrix.hpp:896-900 | A partial sum of products with the identity on the right picks out one cell of the left operand. |
| Grids.ProductIdentityLeft | KMatrix/KMatrix.hpp:881-907 | The identity is a left unit of the matrix product. |
| Grids.ProductIdentityRight | KMatrix/KMatrix.hpp:881-907 | The identity is a right unit of the matrix product. |
| Grids.RowSumOf | KMatrix/KMatrix.hpp:701-713 | A row of n copies of v sums to n·v. |
| Grids.GridSumFilled | KMatrix/KMatrix.hpp:701-713 | The cells of a constant rows × cols grid sum to rows·cols·v. |
| Grids.GridSumNonNegative | KMatrix/KMatrix.hpp:720-734 | A grid of non-negative cells has a non-negative sum. |
| Grids.FlattenLength | KMatrix/KMatrixHelpers.cpp:124-131 | A rectangular grid read row by row has rows·cols values. |
| Grids.FlattenAt | KMatrix/KMatrixHelpers.cpp:124-131 | In a rectangular grid read row by row, cell (i, j) is at index i·cols + j. |
| Grids.ReshapeFlatten | KMatrix/KMatrixHelpers.cpp:124-131 | Reshaping the flattened values of a rectangular grid rebuilds the grid. |
| Grids.FlattenReshape | KMatrix/KMatrixHelpers.cpp:124-131 | Flattening a reshape of exactly rows·cols values gives back the values, in order. |
| MatrixParser.RunReachable | KMatrix/KMatrixHelpers.cpp:58-114 | Every state the token loop reaches is consistent: `add_line` holds iff the open row has values, `ticker` counts those values, and once `c` is set the values fill r closed rows of c plus the open row. The values collected are exactly the literal's numbers, in order. |
| MatrixParser.Step | KMatrix/KMatrixHelpers.cpp:69-113 | One iteration of the token loop. A number is refused with MissingComma when commas are required and the phase is not comma or new row, and is otherwise appended. A `;` is refused after a comma or before any value, and when the row length differs from the first closed row; otherwise it closes the row. A `,` is accepted right after the first value of the first row (r = 0, ticker = 1), which makes commas required, or whenever commas are already required, and otherwise refused. Any other token changes nothing. |
| MatrixParser.StepReachable | KMatrix/KMatrixHelpers.cpp:69-113 | One iteration of the token loop keeps that consistency and appends only the token's own number. |
| MatrixParser.ClosedCount | KMatrix/KMatrixHelpers.cpp:116-121 | Once the last row is closed, the values are exactly r rows of c ≥ 1 columns whenever c was set. |
| MatrixParser.Finish | KMatrix/KMatrixHelpers.cpp:116-131 | Corrected end of input: an open last row is checked against the first closed row like a `;` would check it. The literal is refused with NoValues when no column count was set, and otherwise the values are reshaped into r rows of c. |
| MatrixParser.FinishAsWritten | KMatrix/KMatrixHelpers.cpp:116-131 | End of input as written: an open last row overwrites `c` unchecked, NoValues when c < 0, and ReadPastEnd where the reshape would index past the collected values. |
| MatrixParser.ParseAsWritten | KMatrix/KMatrixHelpers.cpp:56-133 | `matrixFromString` as written: the token loop, then the unchecked end of input. |
| MatrixParser.ReshapeValues | KMatrix/KMatrixHelpers.cpp:123-131 | The nested push_back loops build exactly the row-major reshape of the values. |
| MatrixParser.MatrixFromString | KMatrix/KMatrixHelpers.cpp:56-134 | Returns true iff the literal is accepted. On success `out` is the parsed grid; on failure `out` is left as the caller passed it. |
| MatrixParser.TruncateTowardZero | KMatrix/KMatrixHelpers.cpp:40 | `(int)x` drops the fraction toward zero: it lies within 1 of x, on x's side of zero. |
| MatrixParser.Truncated | KMatrix/KMatrixHelpers.cpp:36-43 | The `int` grid has the shape of the `double` grid, with every value truncated toward zero. |
| MatrixParser.MatrixFromStringInt | KMatrix/KMatrixHelpers.cpp:30-46 | Same success flag as the `double` reader; on success every value is truncated toward zero, and on failure `out` is empty. |
| ParserProperties.RunAppend | KMatrix/KMatrixHelpers.cpp:69-114 | The loop over a concatenation of tokens is the loop over each part in turn, and stops at the first refusal. |
| ParserProperties.RowRun | KMatrix/KMatrixHelpers.cpp:69-110 | Reading one row `a, b, …` from the start of a row collects its cells in order, with `ticker` counting them and commas then required. |
| ParserProperties.WithoutOther | KMatrix/KMatrixHelpers.cpp:111-113 | Dropping the stray tokens leaves only numbers, `,` and `;`. |
| ParserProperties.EncodeRun | KMatrix/KMatrixHelpers.cpp:69-114 | Reading the literal of a grid closes every row but the last and collects its cells row by row. |
| ParserProperties.ParseEncode | KMatrix/KMatrixHelpers.cpp:56-134 | Round trip: the literal `a, b; c, d; …` of any non-empty rectangular grid reads back as that grid. |
| ParserProperties.ParseShape | KMatrix/KMatrixHelpers.cpp:116-131 | Every accepted literal gives a rectangular grid with r ≥ 1 rows and c ≥ 1 columns whose row-major cells are the literal's numbers. |
| ParserProperties.RunWithoutOther | KMatrix/KMatrixHelpers.cpp:111-113 | A token that is neither a number, `,` nor `;` leaves the loop state unchanged. |
| ParserProperties.OtherTokensIgnored | KMatrix/KMatrixHelpers.cpp:111-113 | Brackets and other stray tokens do not change the result. |
| ParserProperties.BeforeFirstValue | KMatrix/KMatrixHelpers.cpp:81-110 | Before the first number, `;` is refused as first symbol, `,` is refused as invalid, and anything else is skipped. |
| ParserProperties.NoNumberFails | KMatrix/KMatrixHelpers.cpp:81-121 | A literal without numbers is always refused: as an invalid comma, a semicolon first, or for having no values. |
| ParserProperties.SemicolonBeforeValueFails | KMatrix/KMatrixHelpers.cpp:86-88 | A `;` before any value is refused (or an earlier `,` already was). |
| ParserProperties.SemicolonAfterCommaFails | KMatrix/KMatrixHelpers.cpp:83-85 | A `;` directly after an accepted `,` is refused, whatever follows. |
| ParserProperties.MissingCommaFails | KMatrix/KMatrixHelpers.cpp:72-75 | Once commas are required, a value directly after another value is refused. |
| ParserProperties.RowLengthMismatchFails | KMatrix/KMatrixHelpers.cpp:91-96 | A `;` closing a row of a different length than the first closed row is refused. |
| ParserProperties.FinalRowMismatchFails | KMatrix/KMatrixHelpers.cpp:116-119 | In the corrected reader, an unterminated last row of a different length than the first row is refused. |
| ParserProperties.TrailingSemicolon | KMatrix/KMatrixHelpers.cpp:97-100 | A `;` after the last value changes nothing: `1,2;` reads as `1,2`. |
| ParserProperties.AsWrittenAgrees | KMatrix/KMatrixHelpers.cpp:116-131 | Whenever the corrected reader accepts, the reader as written gives the same grid. |
| ParserProperties.FinalRowOverwrittenAsWritten | KMatrix/KMatrixHelpers.cpp:116-119 | As written, `1, 2; 3` reads as `[[1], [2]]`; the corrected reader refuses it. |
| ParserProperties.CommaRowRun | KMatrix/KMatrixHelpers.cpp:69-110 | `a, b` leaves the loop in the value phase with commas required, two values counted and no row closed. |
| ParserProperties.ReadPastEndAsWritten | KMatrix/KMatrixHelpers.cpp:124-130 | As written, `1, 2; 3, 4, 5` sets c = 3 and r = 2, so the reshape would read past the five values. |
| ParserProperties.ReadsTwoByTwo | KMatrix/KMatrixHelpers.cpp:56-134 | `1, 2; 3, 4` reads as the 2 × 2 grid. |
| ParserProperties.ReadsWithoutCommas | KMatrix/KMatrixHelpers.cpp:101-110 | `1 2; 3 4` reads as 2 × 2: commas are optional when the first row has none. |
| ParserProperties.CommaRefused | KMatrix/KMatrixHelpers.cpp:101-110 | Wherever commas are not yet required and the `,` does not directly follow the first value of the first row, a `,` is refused, whatever follows. |
| ParserProperties.CommaAccepted | KMatrix/KMatrixHelpers.cpp:101-110 | In the two other cases a `,` is accepted: it makes commas required, moves to the comma phase and changes nothing else. |
| ParserProperties.LateCommaFails | KMatrix/KMatrixHelpers.cpp:101-110 | `1 2, 3` is refused: a `,` is allowed only right after the first value, or once commas are required. |
| Render.ReadOptions | KMatrix/KMatrix.hpp:531-545 | `|` wins over `[`/`]` in whatever order they appear, and `o` wins over `m`. The default is one line without brackets. Brackets and pipes are never both on. |
| Render.OpenCloseCount | KMatrix/KMatrix.hpp:560-626 | The opening and closing brackets or pipes add no character other than `[`, `]`, `|` and space. |
| Render.JoinedPrefix | KMatrix/KMatrix.hpp:613-615 | The one-line body of the first r + 1 rows is that of the first r rows, then ` ; `, then row r. |
| Render.LinesPrefix | KMatrix/KMatrix.hpp:562-613 | The multi-line body of the first r + 1 rows is that of the first r rows followed by row r's line. |
| Render.OccurrencesAppend | KMatrix/KMatrix.hpp:558-628 | Counting a character in a concatenation adds the counts of the parts. |
| Render.CellsCount | KMatrix/KMatrix.hpp:572-603 | A row of n ≥ 1 cells holds exactly n − 1 commas and n − 1 spaces from the `, ` separators, and none of any other character the cells avoid. |
| Render.LinesPerRow | KMatrix/KMatrix.hpp:605-613 | Multi-line output has exactly one newline per row. |
| Render.OneLineHasNoNewline | KMatrix/KMatrix.hpp:613-626 | One-line output holds no newline at all. |
| Render.JoinedCount | KMatrix/KMatrix.hpp:613-615 | One-line output separates n rows by exactly n − 1 semicolons. |
| MatrixOps.MultiplyLeading | KMatrix/KMatrix.hpp:927-934 | The `elementMult` result when no throw happens: the product of the two operands in the first `rows()` columns, and 0 in the rest. |
| MatrixOps.ElementProduct | KMatrix/KMatrix.hpp:918-940 | `elementMult`: SizeMismatch when the sizes differ, OutOfBounds when cols < rows (the inner loop runs to `rows()`, and `operator()` throws), and otherwise the leading-columns product. |
| MatrixOps.ElementProductShape | KMatrix/KMatrix.hpp:917-940 | A successful `elementMult` gives a rectangular grid. |
| MatrixOps.ElementProductSquare | KMatrix/KMatrix.hpp:917-940 | For equal square operands, `elementMult` gives the element-wise product. |
| MatrixOps.ElementProductFails | KMatrix/KMatrix.hpp:920-931 | `elementMult` throws iff the sizes differ (`mat_mult_ex`) or there are fewer columns than rows (`mat_bnd_ex` from `result(r, c)`). |
| MatrixOps.ElementProductWide | KMatrix/KMatrix.hpp:927-934 | With more columns than rows, the columns past the row count stay 0. |
| MatrixOps.DivideLeading | KMatrix/KMatrix.hpp:416-424 | The `/=` result with at least as many columns as rows: the cells of the first `rows()` columns are divided, and the rest are kept. |
| MatrixOps.DivideFirstRow | KMatrix/KMatrix.hpp:416-424 | The `/=` result when there are fewer columns than rows: row 0 is divided cell by cell, and every later row is kept. |
| MatrixOps.DivideLeadingSquare | KMatrix/KMatrix.hpp:407-427 | For equal square operands, `/=` divides every cell, and it undoes `elementMult` by the same divisor. |
| MatrixOps.MatrixProduct | KMatrix/KMatrix.hpp:881-907 | On success the result has `b.rows()` rows of `a.cols()` cells, and is rectangular. |
| MatrixOps.MatrixProductSquare | KMatrix/KMatrix.hpp:881-907 | For n × n operands, `matrixMult` is the matrix product. |
| MatrixOps.MatrixProductFails | KMatrix/KMatrix.hpp:885-887 | `matrixMult` throws exactly when `a.rows() != b.cols()`. |
| MatrixOps.MatrixProductIdentity | KMatrix/KMatrix.hpp:881-907 | Multiplying an n × n grid by the identity, on either side, gives the grid back. |
| MatrixOps.LongestRow | KMatrix/KMatrix.hpp:256-262 | The column count the constructor means: no row is longer, some row has exactly that length, and it is 0 with no rows. |
| MatrixOps.PadToLongest | KMatrix/KMatrix.hpp:264-273 | Padding to the longest row keeps every given cell, and keeps a rectangular grid unchanged. |
| MatrixOps.IntArgument | KMatrix/KMatrix.hpp:265 | A `size_t` passed as `int` keeps its low 32 bits, read as two's complement. |
| MatrixOps.ClearAsWritten | KMatrix/KMatrix.hpp:317-326 | `clear(rows, cols)` on `int` arguments fails with `length_error` iff rows > 0 and cols < 0. Otherwise it gives max(rows, 0) rows of max(cols, 0) zeros. |
| MatrixOps.ColumnCountAsWritten | KMatrix/KMatrix.hpp:257-262 | `max_len` starting at `(size_t)-1` ends at SIZE_MAX whenever every row fits in a `size_t`, never at the longest row. |
| MatrixOps.FromRowsAsWritten | KMatrix/KMatrix.hpp:253-274 | The vector-of-vectors constructor as written throws `length_error` for every non-empty input. |
| MatrixOps.RangeRowUnique | KMatrix/KMatrix.hpp:842-859 | The row `makeRange` describes is unique when the loop terminates: its length is fixed by where `start + k·step` passes `end`. |
| MatrixOps.RangeRowAt | KMatrix/KMatrix.hpp:846-849 | Every value of a `makeRange` row, start + k·step, is at most `end`. |
| MatrixOps.RangeLoopNeverEndsAsWritten | KMatrix/KMatrix.hpp:848-850 | As written, with step ≤ 0 and start ≤ end the `makeRange` loop is still running after any number of iterations. |
| MatrixOps.RangeLoopEndsAsWritten | KMatrix/KMatrix.hpp:848-850 | Whenever the loop as written ends, the row it collected is start + k·step for each k whose value is ≤ `end`, and it stops at the first value past `end`. |
| MatrixOps.RangeLoopAsWritten | KMatrix/KMatrix.hpp:848-850 | The `makeRange` loop as written, run for at most a given number of iterations: the values from `start` in steps of `step_size` while they are ≤ `end`, or still running when the iterations run out. |
| MatrixOps.RangeLoopEndsOnlyWhen | KMatrix/KMatrix.hpp:848-850 | The loop as written ends only on inputs with step > 0 or start > end. |
| MatrixOps.RangeLoopAgrees | KMatrix/KMatrix.hpp:848-850 | Wherever the loop as written ends, it gives exactly the range row. |
| MatrixOps.ExtremesUnique | KMatrix/KMatrix.hpp:636-696 | The maximum is unique, and never below the minimum. |
| MatrixOps.MeanOfFilled | KMatrix/KMatrix.hpp:701-734 | A constant grid has that constant as its mean and 0 as its deviation. |
| MatrixOps.DeviationsOfFilled | KMatrix/KMatrix.hpp:720-734 | Every cell of a constant grid lies at distance 0 from that constant. |
| MatrixOps.MinUnique | KMatrix/KMatrix.hpp:665-686 | The minimum is unique. |
| MatrixOps.DeviationNonNegative | KMatrix/KMatrix.hpp:720-734 | The mean squared deviation is never negative. |
| MatrixLoops.BroadcastLoop | KMatrix/KMatrix.hpp:336-405 | The loops of `+=`/`-=` give the max rows × max cols grid whose cells are (lhs cell or 0) ± (rhs cell or 0). |
| MatrixLoops.ElementMult | KMatrix/KMatrix.hpp:917-940 | The loops of `elementMult` give exactly `ElementProduct`, including the throw when a column index reaches `cols()`. |
| MatrixLoops.DivideLoop | KMatrix/KMatrix.hpp:415-426 | The loops of `/=` on operands of one size: with cols ≥ rows they give `DivideLeading`; otherwise they throw `mat_bnd_ex` once row 0 is divided, leaving `DivideFirstRow`. |
| MatrixLoops.MatrixMult | KMatrix/KMatrix.hpp:881-907 | The loops of `matrixMult` give exactly `MatrixProduct`: each cell is the sum over i < `b.rows()` of a(r, i)·b(i, c). |
| KMatrixModel.KMatrix.constructor | KMatrix/KMatrix.hpp:161-164 | A new matrix is 0 × 0 and multiplies element-wise. |
| KMatrixModel.KMatrix.Sized | KMatrix/KMatrix.hpp:172-177 | `KMatrix(rows, cols)` is rows × cols zeros. |
| KMatrixModel.KMatrix.FromTokens | KMatrix/KMatrix.hpp:189-202 | `KMatrix(string)` is the parsed grid, or 0 × 0 when the literal is refused. |
| KMatrixModel.KMatrix.FromArray | KMatrix/KMatrix.hpp:211-224 | `KMatrix(T**, rows, cols)` is the leading rows × cols block of the array. |
| KMatrixModel.KMatrix.WithValue | KMatrix/KMatrix.hpp:233-246 | `KMatrix(init, rows, cols)` is rows × cols copies of `init`. |
| KMatrixModel.KMatrix.FromRows | KMatrix/KMatrix.hpp:253-274 | Corrected constructor: as many rows as `init`, each padded with zeros to the longest row. |
| KMatrixModel.KMatrix.Copy | KMatrix/KMatrix.hpp:279-294 | The copy has the same cells and the same mode. |
| KMatrixModel.KMatrix.Clear | KMatrix/KMatrix.hpp:304-307 | `clear()` leaves 0 rows and keeps the mode. |
| KMatrixModel.KMatrix.ClearTo | KMatrix/KMatrix.hpp:317-326 | `clear(rows, cols)` leaves exactly rows rows of cols zeros and keeps the mode. |
| KMatrixModel.KMatrix.Rows | KMatrix/KMatrix.hpp:486-489 | `rows()` is the number of rows, and `cols()` is 0 whenever `rows()` is. |
| KMatrixModel.KMatrix.Cols | KMatrix/KMatrix.hpp:491-497 | `cols()` is the length of every row of a valid matrix. |
| KMatrixModel.KMatrix.At | KMatrix/KMatrix.hpp:455-463 | `operator()(r, c)` fails with `mat_bnd_ex` iff r or c lies outside the grid (negative included), and otherwise reads cell (r, c). |
| KMatrixModel.KMatrix.SetAt | KMatrix/KMatrix.hpp:455-463 | Writing through `operator()(r, c)` changes cell (r, c) and no other; out of bounds it changes nothing and fails. |
| KMatrixModel.KMatrix.Get | KMatrix/KMatrix.hpp:465-468 | `get(r, c)` has no bounds test, so it is defined only inside the grid, where it agrees with `operator()`. |
| KMatrixModel.KMatrix.PlusAssign | KMatrix/KMatrix.hpp:336-362 | After `+=` the grid is the broadcast sum and the mode is element-wise. |
| KMatrixModel.KMatrix.MinusAssign | KMatrix/KMatrix.hpp:378-405 | After `-=` the grid is the broadcast difference and the mode is element-wise. |
| KMatrixModel.KMatrix.TimesAssign | KMatrix/KMatrix.hpp:364-376 | `*=` computes `elementMult` or `matrixMult` according to the mode. On success the product replaces the grid and the mode becomes element-wise. On a throw nothing changes. |
| KMatrixModel.KMatrix.DivAssign | KMatrix/KMatrix.hpp:407-427 | `/=` throws `mat_mult_ex` on unequal sizes, changing nothing. With cols ≥ rows it divides the cells of the first `rows()` columns. With cols < rows it divides row 0, then throws `mat_bnd_ex`. |
| KMatrixModel.KMatrix.Assign | KMatrix/KMatrix.hpp:449-453 | `operator=` takes both the cells and the mode of the right-hand side and leaves the right-hand side as it was. |
| KMatrixModel.KMatrix.SetElementMultMode | KMatrix/KMatrix.hpp:868-871 | Sets the mode and keeps the cells. |
| KMatrixModel.KMatrix.Max | KMatrix/KMatrix.hpp:636-658 | 0 when rows or cols is 0; otherwise a cell that no cell exceeds. |
| KMatrixModel.KMatrix.Min | KMatrix/KMatrix.hpp:665-686 | 0 when rows or cols is 0; otherwise a cell that no cell is below. |
| KMatrixModel.KMatrix.Range | KMatrix/KMatrix.hpp:693-696 | `max() - min()`: never negative, and equal to any maximum minus any minimum. |
| KMatrixModel.KMatrix.Avg | KMatrix/KMatrix.hpp:701-713 | The sum of all cells, divided by the rows and then by the columns. |
| KMatrixModel.KMatrix.Stdev | KMatrix/KMatrix.hpp:720-734 | The mean squared deviation from `avg()`, with no square root taken; never negative. |
| KMatrixModel.KMatrix.ToString | KMatrix/KMatrix.hpp:521-629 | The string is exactly the layout `Rendered` for the options read as in the source. |
| KMatrixModel.KMatrix.Zero | KMatrix/KMatrix.hpp:793-806 | `zero(r, c)` is a fresh r × c grid of zeros in element-wise mode. |
| KMatrixModel.KMatrix.Constant | KMatrix/KMatrix.hpp:817-830 | `constant(val, r, c)` is a fresh r × c grid of `val`. |
| KMatrixModel.KMatrix.MakeRange | KMatrix/KMatrix.hpp:842-859 | `rows` identical rows `start, start + step, …`, each value ≤ `end` and the next one past it. Where the source's loop never ends (step ≤ 0 and start ≤ end), the corrected rows are empty. |
| KMatrixModel.RangeRow | KMatrix/KMatrix.hpp:846-850 | The `for (i = start; i <= end; i += step)` loop collects start + k·step for every k with that value ≤ end, and stops at the first value past `end`. Corrected: for step ≤ 0 with start ≤ end, where the source never returns, the row is empty. |
| KMatrixModel.ReadFlags | KMatrix/KMatrix.hpp:524-545 | The sequence of option tests gives exactly `ReadOptions`. |
| KMatrixModel.RenderBody | KMatrix/KMatrix.hpp:558-617 | The row loop of `to_string` builds exactly the one-line body (rows joined by ` ; `) or the multi-line body (one wrapped line per row). |
| KMatrixModel.AppendRow | KMatrix/KMatrix.hpp:560-616 | One pass of that loop adds the row's opening mark, its cells, and then its closing mark and newline, or ` ; ` when another row follows on the same line. |
| KMatrixModel.AppendCells | KMatrix/KMatrix.hpp:572-603 | The inner loop of `to_string` appends the row's cells joined by `, `. |
| KMatrixModel.SwapMat | KMatrix/KMatrix.hpp:328-332 | `swapMat` exchanges both the grids and the modes. |
| KMatrixModel.Add | KMatrix/KMatrix.hpp:1084-1088 | `lv + rv` is a fresh matrix holding the broadcast sum, in element-wise mode. |
| KMatrixModel.Subtract | KMatrix/KMatrix.hpp:1098-1102 | `lv - rv` is a fresh matrix holding the broadcast difference. |
| KMatrixModel.Multiply | KMatrix/KMatrix.hpp:1112-1116 | `lv * rv` multiplies in `lv`'s mode. On success the product is in element-wise mode. On a throw the copy of `lv` is left as it was, cells and mode. |
| KMatrixModel.Divide | KMatrix/KMatrix.hpp:1126-1130 | `lv / rv` is `/=` applied to a copy of `lv`. |
| KVectorModel.Resize | KMatrix/KVector.hpp:551 | `resize(ns)` gives ns elements: the old ones up to ns, then zeros. |
| KVectorModel.ResizeBack | KMatrix/KVector.hpp:551 | Growing a row and shrinking it back restores it, and shrinking keeps a prefix. |
| KVectorModel.GetGuardAsWritten | KMatrix/KVector.hpp:471 | The test in `get` lets an index through iff there is a row and 0 ≤ element ≤ `size()`. |
| KVectorModel.GetGuardAdmitsSize | KMatrix/KVector.hpp:467-476 | That test lets through `element == size()`, which `operator[]` refuses as out of bounds. |
| KVectorModel.KVector.constructor | KMatrix/KVector.hpp:187-189 | A new vector has no row. |
| KVectorModel.KVector.Sized | KMatrix/KVector.hpp:198-204 | `KVector(elements)` is one row of `elements` zeros, in element-wise mode. |
| KVectorModel.KVector.Copy | KMatrix/KVector.hpp:207-219 | The copy has one row equal to the original's, or one empty row when the original has none, in element-wise mode. |
| KVectorModel.KVector.FromRow | KMatrix/KVector.hpp:222-229 | `KVector(std::vector<T>)` is the single row `init`. |
| KVectorModel.KVector.FromTokens | KMatrix/KVector.hpp:244-260 | `KVector(string)` is the first parsed row, or has no row when the literal is refused. |
| KVectorModel.KVector.FromArray | KMatrix/KVector.hpp:263-275 | `KVector(T*, elements)` is the first `elements` entries of the array. |
| KVectorModel.KVector.WithValue | KMatrix/KVector.hpp:279-290 | `KVector(init, elements)` is `elements` copies of `init`. |
| KVectorModel.KVector.SizedIgnoringRows | KMatrix/KVector.hpp:304-309 | `KVector(rows, cols)` ignores `rows` and is one row of `cols` zeros. |
| KVectorModel.KVector.FromArrayIgnoringRows | KMatrix/KVector.hpp:324-335 | `KVector(T**, rows, cols)` ignores `rows` and takes the first `cols` entries of the array's first row. |
| KVectorModel.KVector.WithValueIgnoringRows | KMatrix/KVector.hpp:350-361 | `KVector(init, rows, cols)` ignores `rows` and is `cols` copies of `init`. |
| KVectorModel.KVector.FromRows | KMatrix/KVector.hpp:374-382 | `KVector(vector<vector<T>>)` keeps the first row only, and has no row when `init` is empty. |
| KVectorModel.KVector.FromMatrix | KMatrix/KVector.hpp:393-402 | `KVector(const KMatrix&)` keeps the matrix's first row only, and has no row when the matrix has none. |
| KVectorModel.KVector.Clear | KMatrix/KVector.hpp:408-411 | `clear()` leaves no row. |
| KVectorModel.KVector.ClearTo | KMatrix/KVector.hpp:421-427 | `clear(n)` leaves exactly one row of n zeros. |
| KVectorModel.KVector.Size | KMatrix/KVector.hpp:433-441 | `size()` is 0 without a row, and the length of row 0 otherwise. |
| KVectorModel.KVector.Element | KMatrix/KVector.hpp:447-454 | `operator[](idx)` fails iff there is no row or idx is not in [0, `size()`), and otherwise reads element idx of row 0. |
| KVectorModel.KVector.SetElement | KMatrix/KVector.hpp:447-454 | Writing through `operator[](idx)` changes that element only; out of bounds it changes nothing and fails. |
| KVectorModel.KVector.Get | KMatrix/KVector.hpp:467-476 | Corrected `get(element)`: it succeeds exactly where `operator[]` does, and only where the guard as written also passes. |
| KVectorModel.KVector.GetVec | KMatrix/KVector.hpp:479-488 | `get_vec()` fails iff there is no row, and otherwise returns row 0 element by element. |
| KVectorModel.KVector.Assign | KMatrix/KVector.hpp:494-497 | `operator=(KVector)` with a named right-hand side, which the copy constructor copies into `rh`: one row equal to the right-hand side's (empty when that has none), in element-wise mode. |
| KVectorModel.KVector.AssignTemporary | KMatrix/KVector.hpp:494-497 | `operator=(KVector)` with a temporary right-hand side, built directly as `rh`: the vector takes the temporary's rows and mode exactly, so a rowless temporary leaves no row; the temporary takes the old contents. |
| KVectorModel.KVector.AssignTokens | KMatrix/KVector.hpp:500-518 | `operator=(string)` leaves exactly the first parsed row; a refused literal changes nothing. |
| KVectorModel.KVector.AssignRow | KMatrix/KVector.hpp:526-535 | `operator=(vector)` leaves exactly one row, equal to `rv`. |
| KVectorModel.KVector.SetSize | KMatrix/KVector.hpp:545-552 | `setSize(ns)` creates a row if there is none, then resizes row 0 to ns, keeping the first min(old, ns) elements and filling the rest with zeros. |
| KVectorModel.FirstRowExists | KMatrix/KVector.hpp:249-254 | A literal that is read successfully has at least one row, so the string constructor and `operator=` always find a first row. |
| KVectorModel.Range | KMatrix/KVector.hpp:558-560 | The free `range(start, step, end)` is one row of `makeRange` values; for step ≤ 0 with start ≤ end that row is empty. |

## Left out

- KVectorModel.KVector.Assign, KVectorModel.KVector.Copy: the copy constructor at KMatrix/KVector.hpp:207-219 calls the non-const `size()` and `operator[]` on a `const KVector&`, so as written it does not compile once instantiated. The model gives it the evident meaning. `Assign` is the case where `rh` is copied from a named vector. A temporary argument skips the copy constructor and is modelled by `AssignTemporary`.
- Console output (`std::cout` diagnostics, including the `EM`/`MM` and `stdev` messages) has no bearing on results.
- Tokenising (`ensure_whitespace`, `parse`) and number recognition (`isnum`, `strtod`) belong to an external string library. The reader works on a token sequence `Num(v) | Comma | Semi | Other`.
- How a cell becomes text is left out: the `typeid` dispatch, `limited_template_to_string`, `std::to_string`, and the `u`, `"` and `'` options, which only matter for `bool` and `std::string` cells. `to_string` takes this as the parameter `render`.
- IEEE double semantics (rounding, NaN, infinities) are left out; cells are exact reals.
- KMatrixModel.KMatrix.Avg, KMatrixModel.KMatrix.Stdev: require a non-empty grid, because the source's 0/0 gives NaN, which reals cannot represent.
- KMatrixModel.KMatrix.DivAssign: requires the divisors that are actually used to be non-zero, because division by zero is an IEEE special value that reals cannot represent.
- KMatrixModel.KMatrix.TimesAssign: in matrix mode, requires that the unchecked `get` reads stay inside both grids (`ReadsInRange`), because outside them the source has undefined behaviour. The n × n case meets this.
- KMatrixModel.KMatrix.DivAssign, MatrixLoops.ElementMult, MatrixLoops.DivideLoop: when the column index reaches `cols()`, the source reads the out-of-range cell through `get` before `operator()` throws. The model throws without that read.
- Negative sizes: constructors, `clear`, `zero` and `constant` take `nat`. `clear(rows, cols)` on `int` arguments is modelled only in `MatrixOps.ClearAsWritten`.
- `KMatrixModel.KMatrix.FromArray`, `KVectorModel.KVector.FromArray` and `KVectorModel.KVector.FromArrayIgnoringRows` require the array to have the cells they read; a raw pointer with fewer cells is undefined behaviour.
- The `(int)` cast of a value outside the `int` range is undefined behaviour. `MatrixParser.TruncateTowardZero` returns the mathematical truncation.
- The following are not modelled:
  - the scalar compound operators, declared but never defined;
  - `KMatrix::operator=(std::string)` and `operator=(std::vector<std::vector<double>>)`, whose bodies are empty;
  - `zero(int)`;
  - `transpose`, `conjugate`, `adjoint`, `inverse`, `is_invertable`, `pseudoinverse` and `determinant`, which are stubs;
  - the static `KVector::zero`/`constant`/`range`, which are declared only.
- `getMat` and `getElementMultMode` return references to the fields. The model accesses the fields directly, so the aliasing these references allow (such as making a grid ragged) is not modelled.
- The `using` declarations that hide `KMatrix` members in `KVector` have no Dafny counterpart: `KVector` is a separate class with its own members.
- `KVector.hpp` is written against a `KMatrix` variant with `protected` members and `get_rowv`. The model uses the evident meaning: the matrix's first row. The free `range` calls `KMatrix::range(start, step, end, 1)`, which does not exist; it is modelled as `makeRange(start, step, end, 1)`.
- KMatrixModel.RangeRow, KMatrixModel.KMatrix.MakeRange, KVectorModel.Range: on a step ≤ 0 with start ≤ end, the source's loop never ends and keeps calling `push_back` (see Findings). The model returns empty rows there; it does not model the endless loop or running out of memory.
- `makeRange` builds its result through the vector-of-vectors constructor. As written, that constructor throws for any non-empty input (see Findings). `KMatrixModel.KMatrix.MakeRange` uses the corrected constructor.
- The compound operators compute the new grid as a value (`BroadcastLoop`, `DivideLoop`, `ElementMult`, `MatrixMult`) and then assign the `mat` field. The source writes the cells in place. Both give the same final state, including when `rv` is the matrix itself: each divisor is read before its cell is written.
- The `T**`/`T*` constructors copy from raw arrays; the model passes the arrays as sequences.

## Findings

| source | as written | input that shows it | evidently intended | confidence | as-written member | corrected member |
|---|---|---|---|---|---|---|
| KMatrix/KMatrix.hpp:257-265 | `max_len` starts at `(size_t)-1`, so `init[r].size() > max_len` never holds. `clear(init.size(), max_len)` then receives −1 columns, and `resize(-1)` throws `std::length_error`. | any non-empty `init`, e.g. `{{1, 2}, {3}}` | the column count is the longest row, and shorter rows are padded with zeros | not executed | MatrixOps.FromRowsAsWritten | KMatrixModel.KMatrix.FromRows |
| KMatrix/KMatrixHelpers.cpp:116-119 | An open last row overwrites `c` without the comparison a `;` makes. | `1, 2; 3` reads as `[[1], [2]]`; `1, 2; 3, 4, 5` makes the reshape read past the five values | the last row is checked against the first like every other row, and otherwise refused | not executed | ParserProperties.FinalRowOverwrittenAsWritten | ParserProperties.FinalRowMismatchFails |
| KMatrix/KVector.hpp:471 | The bounds test is `element > size()`. | a vector of size n and `get(n)`, which reads one past the end | refuse `element >= size()`, as `operator[]` does | not executed | KVectorModel.GetGuardAdmitsSize | KVectorModel.KVector.Get |
| KMatrix/KMatrix.hpp:848-850 | The loop `for (T i = start; i <= end; i += step_size)` has no test on the step. | `makeRange(0, 0, 1, 1)`, or the free `range(1, -1, 2)`: the loop never ends and pushes values until memory runs out | return a finite row: the documented promise is the values from `start` up to `end` in steps of `step_size`, which is empty when no step makes progress | not executed; the empty row is the model's reading of the intent | MatrixOps.RangeLoopNeverEndsAsWritten | KMatrixModel.RangeRow |
