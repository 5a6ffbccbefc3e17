/** The text-literal reader `matrixFromString`: a four-phase state machine
    over the tokens of a literal such as `[1, 2; 3, 4]`, followed by a
    row-major reshape of the values it collected.  Splitting the text into
    tokens and recognising numbers are done by an external string library;
    here the literal arrives already split into tokens. */
module MatrixParser {
  import opened Grids

  /** One token of the literal: a number the numeric check accepted (already
      converted), a `,`, a `;`, or anything else (brackets, stray words). */
  datatype Token = Num(value: real) | Comma | Semi | Other

  /** `phase`: 'b' begin, 'v' value, 'c' comma, 'n' new row. */
  datatype Phase = Begin | Value | AfterComma | NewRow

  /** Why a literal is refused; the source reports each on the console and returns false. */
  datatype ParseError =
    | MissingComma         // a value where commas are required but none came first
    | SemicolonAfterComma  // `,` directly followed by `;`
    | SemicolonFirst       // `;` before any value
    | RowLengthMismatch    // a row of a different length than the first closed row
    | InvalidComma         // a `,` where commas are not yet required
    | NoValues             // the column count was never set
    | ReadPastEnd          // the reshape would index past the collected values

  /** The loop's variables: `c`, `r`, `ticker`, `add_line`, `req_commas`, `phase`, `values`. */
  datatype Scanner = Scanner(c: int, r: nat, ticker: nat, addLine: bool, reqCommas: bool, phase: Phase, values: seq<real>)

  const Start := Scanner(-1, 0, 0, false, false, Begin, [])

  /** One iteration of the token loop. */
  function Step(s: Scanner, t: Token): Result<Scanner, ParseError> {
    match t
    case Num(v) =>
      if s.reqCommas && s.phase != AfterComma && s.phase != NewRow then Err(MissingComma)
      else Ok(s.(values := s.values + [v], ticker := s.ticker + 1, addLine := true, phase := Value))
    case Semi =>
      if s.phase == AfterComma then Err(SemicolonAfterComma)
      else if s.phase == Begin then Err(SemicolonFirst)
      else if s.c != -1 && s.c != s.ticker then Err(RowLengthMismatch)
      else Ok(s.(c := s.ticker, phase := NewRow, addLine := false, r := s.r + 1, ticker := 0))
    case Comma =>
      // `req_commas && 'v'`: the character constant is non-zero, so only `req_commas` decides
      if s.r == 0 && s.ticker == 1 then Ok(s.(reqCommas := true, phase := AfterComma))
      else if s.reqCommas then Ok(s.(phase := AfterComma))
      else Err(InvalidComma)
    case Other => Ok(s)
  }

  /** The token loop from state `s`, stopping at the first refusal. */
  function Run(s: Scanner, ts: seq<Token>): Result<Scanner, ParseError>
    decreases |ts|
  {
    if ts == [] then Ok(s)
    else
      match Step(s, ts[0])
      case Err(e) => Err(e)
      case Ok(s') => Run(s', ts[1..])
  }

  lemma RunFirst(s: Scanner, ts: seq<Token>)
    requires ts != []
    ensures Step(s, ts[0]).Err? ==> Run(s, ts) == Err(Step(s, ts[0]).error)
    ensures Step(s, ts[0]).Ok? ==> Run(s, ts) == Run(Step(s, ts[0]).value, ts[1..])
  {
  }

  /** The numbers of a token sequence, in order. */
  function Numbers(ts: seq<Token>): seq<real> {
    if ts == [] then [] else (if ts[0].Num? then [ts[0].value] else []) + Numbers(ts[1..])
  }

  /** What holds of every state the loop reaches from `Start`. */
  ghost predicate Reachable(s: Scanner) {
    && (s.addLine <==> s.ticker > 0)
    && (s.phase == Value ==> s.ticker > 0)
    && (s.phase == Begin ==> s.ticker == 0 && s.r == 0 && s.c == -1 && !s.reqCommas)
    && (s.c == -1 ==> s.r == 0 && s.phase != NewRow && |s.values| == s.ticker)
    && (s.c != -1 ==> s.c > 0 && s.r > 0 && |s.values| == s.r * s.c + s.ticker)
  }

  lemma StepReachable(s: Scanner, t: Token)
    requires Reachable(s)
    ensures Step(s, t).Ok? ==> Reachable(Step(s, t).value)
    ensures Step(s, t).Ok? ==> Step(s, t).value.values == s.values + Numbers([t])
  {
    assert Numbers([t]) == (if t.Num? then [t.value] else []) + Numbers([]);
    if t == Semi && Step(s, t).Ok? && s.c != -1 {
      assert (s.r + 1) * s.c == s.r * s.c + s.c;
    }
  }

  lemma {:induction false} RunReachable(s: Scanner, ts: seq<Token>)
    requires Reachable(s)
    ensures Run(s, ts).Ok? ==> Reachable(Run(s, ts).value)
    ensures Run(s, ts).Ok? ==> Run(s, ts).value.values == s.values + Numbers(ts)
    decreases |ts|
  {
    if ts != [] {
      StepReachable(s, ts[0]);
      if Step(s, ts[0]).Ok? {
        var s' := Step(s, ts[0]).value;
        RunReachable(s', ts[1..]);
        assert Numbers(ts) == Numbers([ts[0]]) + Numbers(ts[1..]);
      }
    }
  }

  /** After the end-of-input step, the values fill exactly r rows of c columns. */
  lemma ClosedCount(s: Scanner)
    requires Reachable(s)
    requires !(s.addLine && s.c != -1 && s.c != s.ticker)
    ensures var c := if s.addLine then s.ticker else s.c;
            var r := if s.addLine then s.r + 1 else s.r;
            c >= 0 ==> c > 0 && r > 0 && |s.values| == r * c
  {
    if s.addLine && s.c != -1 {
      assert (s.r + 1) * s.c == s.r * s.c + s.c;
    }
  }

  /** End of input: an open last row is closed with the same length check a `;` makes,
      then the values are reshaped row-major. */
  function Finish(s: Scanner): Result<Grid, ParseError>
    requires Reachable(s)
  {
    if s.addLine && s.c != -1 && s.c != s.ticker then Err(RowLengthMismatch)
    else
      var c := if s.addLine then s.ticker else s.c;
      var r := if s.addLine then s.r + 1 else s.r;
      if c < 0 then Err(NoValues)
      else
        ClosedCount(s);
        Ok(Reshape(s.values, r, c))
  }

  /** The literal read as a grid, or the reason it is refused. */
  function Parse(ts: seq<Token>): Result<Grid, ParseError> {
    match Run(Start, ts)
    case Err(e) => Err(e)
    case Ok(s) =>
      RunReachable(Start, ts);
      Finish(s)
  }

  /** End of input exactly as the source writes it: an open last row overwrites
      `c` without comparing it, and the reshape then reads `values[rr*c + cc]`,
      which is undefined once r * c exceeds the number of values. */
  function FinishAsWritten(s: Scanner): Result<Grid, ParseError> {
    var c := if s.addLine then s.ticker else s.c;
    var r := if s.addLine then s.r + 1 else s.r;
    if c < 0 then Err(NoValues)
    else if r * c > |s.values| then Err(ReadPastEnd)
    else Ok(Reshape(s.values, r, c))
  }

  function ParseAsWritten(ts: seq<Token>): Result<Grid, ParseError> {
    match Run(Start, ts)
    case Err(e) => Err(e)
    case Ok(s) => FinishAsWritten(s)
  }

  /** The reshape at the end of `matrixFromString`: row `rr`, column `cc` is `values[rr*c + cc]`. */
  method ReshapeValues(values: seq<real>, r: nat, c: nat) returns (out: Grid)
    requires |values| >= r * c
    ensures out == Reshape(values, r, c)
  {
    ghost var want := Reshape(values, r, c);
    out := [];
    for rr := 0 to r
      invariant out == want[..rr]
    {
      var temp: seq<real> := [];
      for cc := 0 to c
        invariant temp == want[rr][..cc]
      {
        RowMajorIndex(rr, cc, r, c);
        temp := temp + [values[rr * c + cc]];
      }
      assert temp == want[rr];
      out := out + [temp];
    }
  }

  /** `matrixFromString` for `double`: on success `out` is the parsed grid; on
      failure `out` is left as the caller passed it (`prior`). */
  method MatrixFromString(tokens: seq<Token>, prior: Grid) returns (ok: bool, out: Grid)
    ensures ok == Parse(tokens).Ok?
    ensures out == if ok then Parse(tokens).value else prior
  {
    var c: int := -1;
    var r: nat := 0;
    var values: seq<real> := [];
    var ticker: nat := 0;
    var addLine := false;
    var reqCommas := false;
    var phase := Begin;
    for i := 0 to |tokens|
      invariant Reachable(Scanner(c, r, ticker, addLine, reqCommas, phase, values))
      invariant Run(Start, tokens) == Run(Scanner(c, r, ticker, addLine, reqCommas, phase, values), tokens[i..])
    {
      ghost var cur := Scanner(c, r, ticker, addLine, reqCommas, phase, values);
      RunFirst(cur, tokens[i..]);
      assert tokens[i..][0] == tokens[i] && tokens[i..][1..] == tokens[i + 1..];
      StepReachable(cur, tokens[i]);
      match tokens[i]
      case Num(v) =>
        if reqCommas && phase != AfterComma && phase != NewRow {
          return false, prior;
        }
        values := values + [v];
        ticker := ticker + 1;
        addLine := true;
        phase := Value;
      case Semi =>
        if phase == AfterComma {
          return false, prior;
        } else if phase == Begin {
          return false, prior;
        }
        if c == -1 {
          c := ticker;
        } else if c != ticker {
          return false, prior;
        }
        phase := NewRow;
        addLine := false;
        r := r + 1;
        ticker := 0;
      case Comma =>
        if r == 0 && ticker == 1 {
          reqCommas := true;
          phase := AfterComma;
        } else if reqCommas {
          phase := AfterComma;
        } else {
          return false, prior;
        }
      case Other =>
    }
    ghost var last := Scanner(c, r, ticker, addLine, reqCommas, phase, values);
    assert tokens[|tokens|..] == [];
    assert Run(Start, tokens) == Ok(last);

    if addLine {
      if c == -1 {
        c := ticker;
      } else if c != ticker {
        return false, prior;
      }
      r := r + 1;
    }
    ClosedCount(last);
    if c < 0 {
      return false, prior;
    }
    out := ReshapeValues(values, r, c);
    ok := true;
  }

  /** `(int)x`: conversion that drops the fraction, rounding toward zero. */
  function TruncateTowardZero(x: real): (n: int)
    ensures x >= 0.0 ==> 0 <= n && n as real <= x < n as real + 1.0
    ensures x < 0.0 ==> n <= 0 && n as real - 1.0 < x <= n as real
  {
    if x >= 0.0 then x.Floor else -((-x).Floor)
  }

  /** Every cell truncated toward zero. */
  function Truncated(g: Grid): (t: seq<seq<int>>)
    ensures |t| == |g| && forall i :: 0 <= i < |g| ==> |t[i]| == |g[i]|
    ensures forall i, j :: 0 <= i < |g| && 0 <= j < |g[i]| ==> t[i][j] == TruncateTowardZero(g[i][j])
  {
    seq(|g|, i requires 0 <= i < |g| => seq(|g[i]|, j requires 0 <= j < |g[i]| => TruncateTowardZero(g[i][j])))
  }

  /** `matrixFromString` for `int`: the same verdict as the `double` reader, each
      value truncated toward zero, and an empty grid on failure. */
  method MatrixFromStringInt(tokens: seq<Token>) returns (ok: bool, out: seq<seq<int>>)
    ensures ok == Parse(tokens).Ok?
    ensures out == if ok then Truncated(Parse(tokens).value) else []
  {
    var temp: Grid := [];
    ok, temp := MatrixFromString(tokens, temp);
    ghost var want := Truncated(temp);
    out := [];
    for i := 0 to |temp|
      invariant out == want[..i]
    {
      var tempInt: seq<int> := [];
      for j := 0 to |temp[i]|
        invariant tempInt == want[i][..j]
      {
        tempInt := tempInt + [TruncateTowardZero(temp[i][j])];
      }
      assert tempInt == want[i];
      out := out + [tempInt];
    }
  }
}
