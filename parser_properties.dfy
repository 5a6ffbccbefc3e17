/** What the text-literal reader promises: rows separated by `;`, values
    separated by `,` (once a comma appears in the first row), every row as
    long as the first, and values laid out row-major. */
module ParserProperties {
  import opened Grids
  import opened MatrixParser

  /** Running over a concatenation is running over each part in turn. */
  lemma {:induction false} RunAppend(s: Scanner, a: seq<Token>, b: seq<Token>)
    ensures Run(s, a + b) == match Run(s, a) case Err(e) => Err(e) case Ok(s') => Run(s', b)
    decreases |a|
  {
    if a == [] {
      assert a + b == b;
    } else {
      assert (a + b)[0] == a[0] && (a + b)[1..] == a[1..] + b;
      if Step(s, a[0]).Ok? {
        RunAppend(Step(s, a[0]).value, a[1..], b);
      }
    }
  }

  /** Running over one token is one step. */
  lemma RunOne(s: Scanner, t: Token)
    ensures Run(s, [t]) == Step(s, t)
  {
    assert [t][1..] == [];
  }

  /** The tokens of one row: its values joined by commas. */
  function RowTokens(row: seq<real>): seq<Token>
    decreases |row|
  {
    if |row| <= 1 then (if row == [] then [] else [Num(row[0])])
    else RowTokens(row[..|row| - 1]) + [Comma, Num(row[|row| - 1])]
  }

  /** The tokens of a grid literal: its rows joined by semicolons. */
  function Encode(g: Grid): seq<Token>
    requires |g| > 0
    decreases |g|
  {
    if |g| == 1 then RowTokens(g[0]) else Encode(g[..|g| - 1]) + [Semi] + RowTokens(g[|g| - 1])
  }

  /** Reading one row from the start of a row appends its values and leaves
      commas required whenever the row had two values or more. */
  lemma {:induction false} RowRun(s: Scanner, row: seq<real>)
    requires |row| >= 1 && s.ticker == 0
    requires s.phase == Begin || s.phase == NewRow
    requires s.phase == Begin ==> !s.reqCommas
    requires s.r == 0 || s.reqCommas || |row| == 1
    ensures Run(s, RowTokens(row))
         == Ok(s.(ticker := |row|, addLine := true, phase := Value, values := s.values + row,
                  reqCommas := s.reqCommas || |row| >= 2))
    decreases |row|
  {
    var n := |row|;
    if n == 1 {
      assert RowTokens(row) == [Num(row[0])];
      assert row == [row[0]];
    } else {
      var front := row[..n - 1];
      assert RowTokens(row) == RowTokens(front) + [Comma, Num(row[n - 1])];
      RowRun(s, front);
      RunAppend(s, RowTokens(front), [Comma, Num(row[n - 1])]);
      var s1 := Run(s, RowTokens(front)).value;
      var s2 := s1.(reqCommas := true, phase := AfterComma);
      assert Step(s1, Comma) == Ok(s2);
      RunFirst(s1, [Comma, Num(row[n - 1])]);
      assert [Comma, Num(row[n - 1])][1..] == [Num(row[n - 1])];
      RunOne(s2, Num(row[n - 1]));
      assert row == front + [row[n - 1]];
      assert s1 == s.(ticker := n - 1, addLine := true, phase := Value, values := s.values + front,
                      reqCommas := s.reqCommas || n - 1 >= 2);
      assert Run(s, RowTokens(row)) == Run(s1, [Comma, Num(row[n - 1])]);
      assert Run(s1, [Comma, Num(row[n - 1])]) == Run(s2, [Num(row[n - 1])]);
      assert s.values + front + [row[n - 1]] == s.values + row;
    }
  }

  /** Reading an encoded grid ends with every row closed except the last, which is still open. */
  lemma {:induction false} EncodeRun(g: Grid)
    requires IsRect(g) && |g| >= 1 && Cols(g) >= 1
    ensures Run(Start, Encode(g))
         == Ok(Scanner(if |g| == 1 then -1 else Cols(g), |g| - 1, Cols(g), true, Cols(g) >= 2, Value, Flatten(g)))
    decreases |g|
  {
    var n := |g|;
    if n == 1 {
      RowRun(Start, g[0]);
      assert g[..0] == [];
    } else {
      var front := g[..n - 1];
      assert Cols(front) == Cols(g);
      EncodeRun(front);
      var s1 := Run(Start, Encode(front)).value;
      RunAppend(Start, Encode(front), [Semi]);
      RunAppend(Start, Encode(front) + [Semi], RowTokens(g[n - 1]));
      var s2 := s1.(c := Cols(g), phase := NewRow, addLine := false, r := n - 1, ticker := 0);
      assert Run(Start, Encode(front) + [Semi]) == Ok(s2);
      RowRun(s2, g[n - 1]);
    }
  }

  /** Round trip: the literal of any non-empty rectangular grid reads back as that grid. */
  lemma ParseEncode(g: Grid)
    requires IsRect(g) && |g| >= 1 && Cols(g) >= 1
    ensures Parse(Encode(g)) == Ok(g)
  {
    EncodeRun(g);
    ReshapeFlatten(g);
  }

  /** Every grid the reader accepts is rectangular, has at least one row and one
      column, and holds the literal's numbers in row-major order. */
  lemma ParseShape(ts: seq<Token>)
    requires Parse(ts).Ok?
    ensures var g := Parse(ts).value;
            |g| >= 1 && Cols(g) >= 1 && IsRect(g) && Flatten(g) == Numbers(ts)
  {
    RunReachable(Start, ts);
    var s := Run(Start, ts).value;
    ClosedCount(s);
    var c := if s.addLine then s.ticker else s.c;
    var r := if s.addLine then s.r + 1 else s.r;
    FlattenReshape(s.values, r, c);
  }

  /** Tokens that are neither numbers, commas nor semicolons. */
  function WithoutOther(ts: seq<Token>): (u: seq<Token>)
    ensures forall i :: 0 <= i < |u| ==> u[i] != Other
  {
    if ts == [] then [] else (if ts[0] == Other then [] else [ts[0]]) + WithoutOther(ts[1..])
  }

  lemma {:induction false} RunWithoutOther(s: Scanner, ts: seq<Token>)
    ensures Run(s, ts) == Run(s, WithoutOther(ts))
    decreases |ts|
  {
    if ts != [] {
      RunWithoutOther(s, ts[1..]);
      if ts[0] == Other {
        assert WithoutOther(ts) == WithoutOther(ts[1..]);
      } else {
        var u := WithoutOther(ts);
        assert u == [ts[0]] + WithoutOther(ts[1..]);
        assert u[0] == ts[0] && u[1..] == WithoutOther(ts[1..]);
        if Step(s, ts[0]).Ok? {
          RunWithoutOther(Step(s, ts[0]).value, ts[1..]);
        }
      }
    }
  }

  /** Brackets and any other token that is not a number, `,` or `;` do not change the verdict. */
  lemma OtherTokensIgnored(ts: seq<Token>)
    ensures Parse(ts) == Parse(WithoutOther(ts))
  {
    RunWithoutOther(Start, ts);
  }

  /** Before the first number, a `;` or a `,` is refused and anything else is skipped. */
  lemma {:induction false} BeforeFirstValue(ts: seq<Token>)
    requires forall i :: 0 <= i < |ts| ==> !ts[i].Num?
    ensures Run(Start, ts) in {Ok(Start), Err(InvalidComma), Err(SemicolonFirst)}
    decreases |ts|
  {
    if ts != [] {
      BeforeFirstValue(ts[1..]);
    }
  }

  /** A literal without numbers is always refused. */
  lemma NoNumberFails(ts: seq<Token>)
    requires forall i :: 0 <= i < |ts| ==> !ts[i].Num?
    ensures Parse(ts) in {Err(InvalidComma), Err(SemicolonFirst), Err(NoValues)}
  {
    BeforeFirstValue(ts);
  }

  /** A `;` before the first number is refused (or a `,` before it already was). */
  lemma SemicolonBeforeValueFails(ts: seq<Token>, i: nat)
    requires i < |ts| && ts[i] == Semi
    requires forall j :: 0 <= j < i ==> !ts[j].Num?
    ensures Parse(ts) == Err(SemicolonFirst) || Parse(ts) == Err(InvalidComma)
  {
    BeforeFirstValue(ts[..i]);
    assert ts == ts[..i] + ts[i..];
    RunAppend(Start, ts[..i], ts[i..]);
    assert ts[i..][0] == Semi;
  }

  /** A `;` directly after an accepted `,` is refused. */
  lemma SemicolonAfterCommaFails(pre: seq<Token>, post: seq<Token>)
    requires Run(Start, pre + [Comma]).Ok?
    ensures Parse(pre + [Comma, Semi] + post) == Err(SemicolonAfterComma)
  {
    assert pre + [Comma, Semi] + post == (pre + [Comma]) + ([Semi] + post);
    RunAppend(Start, pre + [Comma], [Semi] + post);
    RunAppend(Start, pre, [Comma]);
    assert ([Semi] + post)[0] == Semi;
  }

  /** Once commas are required, two numbers in a row are refused. */
  lemma MissingCommaFails(pre: seq<Token>, a: real, b: real, post: seq<Token>)
    requires Run(Start, pre).Ok? && Run(Start, pre).value.reqCommas
    ensures Parse(pre + [Num(a), Num(b)] + post) == Err(MissingComma)
  {
    assert pre + [Num(a), Num(b)] + post == pre + ([Num(a), Num(b)] + post);
    RunAppend(Start, pre, [Num(a), Num(b)] + post);
    var t := [Num(a), Num(b)] + post;
    assert t[0] == Num(a) && t[1..][0] == Num(b);
  }

  /** A `;` closing a row whose length differs from the first row's is refused. */
  lemma RowLengthMismatchFails(pre: seq<Token>, post: seq<Token>)
    requires Run(Start, pre).Ok?
    requires var s := Run(Start, pre).value;
             s.c != -1 && s.ticker != s.c && s.phase != AfterComma
    ensures Parse(pre + [Semi] + post) == Err(RowLengthMismatch)
  {
    RunReachable(Start, pre);
    RunAppend(Start, pre, [Semi] + post);
    assert pre + [Semi] + post == pre + ([Semi] + post);
    assert ([Semi] + post)[0] == Semi;
  }

  /** The last row, left open at the end of the input, must also be as long as the first. */
  lemma FinalRowMismatchFails(ts: seq<Token>)
    requires Run(Start, ts).Ok?
    requires var s := Run(Start, ts).value;
             s.addLine && s.c != -1 && s.ticker != s.c
    ensures Parse(ts) == Err(RowLengthMismatch)
  {
  }

  /** A `;` after the last value changes nothing. */
  lemma TrailingSemicolon(ts: seq<Token>, v: real)
    ensures Parse(ts + [Num(v), Semi]) == Parse(ts + [Num(v)])
  {
    assert ts + [Num(v), Semi] == (ts + [Num(v)]) + [Semi];
    RunAppend(Start, ts + [Num(v)], [Semi]);
    RunAppend(Start, ts, [Num(v)]);
    RunReachable(Start, ts + [Num(v)]);
  }

  /** Whenever the corrected reader accepts, the reader as written produces the same grid. */
  lemma AsWrittenAgrees(ts: seq<Token>)
    requires Parse(ts).Ok?
    ensures ParseAsWritten(ts) == Parse(ts)
  {
    RunReachable(Start, ts);
    ClosedCount(Run(Start, ts).value);
  }

  /** `1, 2; 3`: as written, the short last row overwrites the column count and
      the values are read as two rows of one column; corrected, it is refused. */
  lemma FinalRowOverwrittenAsWritten()
    ensures ParseAsWritten([Num(1.0), Comma, Num(2.0), Semi, Num(3.0)]) == Ok([[1.0], [2.0]])
    ensures Parse([Num(1.0), Comma, Num(2.0), Semi, Num(3.0)]) == Err(RowLengthMismatch)
  {
    var s4 := Scanner(2, 1, 0, false, true, NewRow, [1.0, 2.0]);
    var s5 := Scanner(2, 1, 1, true, true, Value, [1.0, 2.0, 3.0]);
    CommaRowRun(1.0, 2.0);
    RunAppend(Start, [Num(1.0), Comma, Num(2.0)], [Semi, Num(3.0)]);
    assert [Num(1.0), Comma, Num(2.0), Semi, Num(3.0)] == [Num(1.0), Comma, Num(2.0)] + [Semi, Num(3.0)];
    RunFirst(s4.(phase := Value, ticker := 2, addLine := true, r := 0, c := -1), [Semi, Num(3.0)]);
    assert [Semi, Num(3.0)][1..] == [Num(3.0)];
    RunOne(s4, Num(3.0));
    assert [1.0, 2.0] + [3.0] == [1.0, 2.0, 3.0];
    var g := Reshape([1.0, 2.0, 3.0], 2, 1);
    assert g[0] == [1.0] && g[1] == [2.0];
    assert g == [[1.0], [2.0]];
    assert Run(Start, [Num(1.0), Comma, Num(2.0), Semi, Num(3.0)]) == Ok(s5);
  }

  /** `1, 2` read from the start: commas become required and a row of two values is open. */
  lemma CommaRowRun(a: real, b: real)
    ensures Run(Start, [Num(a), Comma, Num(b)]) == Ok(Scanner(-1, 0, 2, true, true, Value, [a, b]))
  {
    RowRun(Start, [a, b]);
    assert [] + [a, b] == [a, b];
    assert RowTokens([a, b]) == [Num(a), Comma, Num(b)] by {
      assert [a, b][..1] == [a];
    }
  }

  /** `1, 2; 3, 4, 5`: as written, the longer last row makes the reshape read
      past the collected values. */
  lemma ReadPastEndAsWritten()
    ensures ParseAsWritten([Num(1.0), Comma, Num(2.0), Semi, Num(3.0), Comma, Num(4.0), Comma, Num(5.0)]) == Err(ReadPastEnd)
  {
    var g := [[1.0, 2.0], [3.0, 4.0, 5.0]];
    var ts := [Num(1.0), Comma, Num(2.0), Semi, Num(3.0), Comma, Num(4.0), Comma, Num(5.0)];
    var s1 := Scanner(-1, 0, 2, true, true, Value, [1.0, 2.0]);
    var s2 := Scanner(2, 1, 0, false, true, NewRow, [1.0, 2.0]);
    CommaRowRun(1.0, 2.0);
    assert ts == [Num(1.0), Comma, Num(2.0)] + [Semi] + RowTokens(g[1]) by {
      assert RowTokens([3.0, 4.0, 5.0]) == RowTokens([3.0, 4.0]) + [Comma, Num(5.0)] by {
        assert [3.0, 4.0, 5.0][..2] == [3.0, 4.0];
      }
      assert RowTokens([3.0, 4.0]) == [Num(3.0), Comma, Num(4.0)] by {
        assert [3.0, 4.0][..1] == [3.0];
      }
    }
    RunAppend(Start, [Num(1.0), Comma, Num(2.0)], [Semi]);
    assert Run(s1, [Semi]) == Ok(s2);
    RunAppend(Start, [Num(1.0), Comma, Num(2.0)] + [Semi], RowTokens(g[1]));
    RowRun(s2, g[1]);
  }

  /** `1, 2; 3, 4` reads as a 2x2 grid. */
  lemma ReadsTwoByTwo()
    ensures Parse([Num(1.0), Comma, Num(2.0), Semi, Num(3.0), Comma, Num(4.0)]) == Ok([[1.0, 2.0], [3.0, 4.0]])
  {
    var g := [[1.0, 2.0], [3.0, 4.0]];
    assert RowTokens([1.0, 2.0]) == [Num(1.0), Comma, Num(2.0)] by {
      assert [1.0, 2.0][..1] == [1.0];
    }
    assert RowTokens([3.0, 4.0]) == [Num(3.0), Comma, Num(4.0)] by {
      assert [3.0, 4.0][..1] == [3.0];
    }
    assert g[..1] == [[1.0, 2.0]];
    assert Encode(g) == [Num(1.0), Comma, Num(2.0), Semi, Num(3.0), Comma, Num(4.0)];
    ParseEncode(g);
  }

  /** `1 2; 3 4`: with no comma in the first row, commas stay optional and values separate by spaces. */
  lemma ReadsWithoutCommas()
    ensures Parse([Num(1.0), Num(2.0), Semi, Num(3.0), Num(4.0)]) == Ok([[1.0, 2.0], [3.0, 4.0]])
  {
    RunWithoutCommas();
    var g := Reshape([1.0, 2.0, 3.0, 4.0], 2, 2);
    assert g[0] == [1.0, 2.0] && g[1] == [3.0, 4.0];
    assert g == [[1.0, 2.0], [3.0, 4.0]];
  }

  /** The loop state after `1 2; 3 4`: two rows of two, commas never required. */
  lemma RunWithoutCommas()
    ensures Run(Start, [Num(1.0), Num(2.0), Semi, Num(3.0), Num(4.0)])
         == Ok(Scanner(2, 1, 2, true, false, Value, [1.0, 2.0, 3.0, 4.0]))
  {
    var s2 := Scanner(-1, 0, 2, true, false, Value, [1.0, 2.0]);
    var s3 := Scanner(2, 1, 0, false, false, NewRow, [1.0, 2.0]);
    var s5 := Scanner(2, 1, 2, true, false, Value, [1.0, 2.0, 3.0, 4.0]);
    assert Run(s3, [Num(3.0), Num(4.0)]) == Ok(s5) by {
      assert [Num(3.0), Num(4.0)] == [Num(3.0)] + [Num(4.0)];
      RunAppend(s3, [Num(3.0)], [Num(4.0)]);
      RunOne(s3, Num(3.0));
      assert [1.0, 2.0] + [3.0] == [1.0, 2.0, 3.0] && [1.0, 2.0, 3.0] + [4.0] == [1.0, 2.0, 3.0, 4.0];
      RunOne(s3.(values := [1.0, 2.0, 3.0], ticker := 1, addLine := true, phase := Value), Num(4.0));
    }
    assert Run(s2, [Semi, Num(3.0), Num(4.0)]) == Ok(s5) by {
      RunFirst(s2, [Semi, Num(3.0), Num(4.0)]);
      assert [Semi, Num(3.0), Num(4.0)][1..] == [Num(3.0), Num(4.0)];
    }
    assert Run(Start, [Num(1.0), Num(2.0)]) == Ok(s2) by {
      assert [Num(1.0), Num(2.0)] == [Num(1.0)] + [Num(2.0)];
      RunAppend(Start, [Num(1.0)], [Num(2.0)]);
      RunOne(Start, Num(1.0));
      assert [] + [1.0] == [1.0] && [1.0] + [2.0] == [1.0, 2.0];
      RunOne(Scanner(-1, 0, 1, true, false, Value, [1.0]), Num(2.0));
    }
    RunAppend(Start, [Num(1.0), Num(2.0)], [Semi, Num(3.0), Num(4.0)]);
    assert [Num(1.0), Num(2.0), Semi, Num(3.0), Num(4.0)] == [Num(1.0), Num(2.0)] + [Semi, Num(3.0), Num(4.0)];
  }

  /** A `,` is refused unless it directly follows the first value of the first row
      or commas are already required. */
  lemma CommaRefused(pre: seq<Token>, post: seq<Token>)
    requires Run(Start, pre).Ok?
    requires var s := Run(Start, pre).value;
             !s.reqCommas && !(s.r == 0 && s.ticker == 1)
    ensures Parse(pre + [Comma] + post) == Err(InvalidComma)
  {
    assert pre + [Comma] + post == pre + ([Comma] + post);
    RunAppend(Start, pre, [Comma] + post);
    assert ([Comma] + post)[0] == Comma;
  }

  /** In those two places a `,` is accepted: it makes commas required and moves to
      the comma phase, changing nothing else. */
  lemma CommaAccepted(pre: seq<Token>)
    requires Run(Start, pre).Ok?
    requires var s := Run(Start, pre).value;
             s.reqCommas || (s.r == 0 && s.ticker == 1)
    ensures var s := Run(Start, pre).value;
            Run(Start, pre + [Comma]) == Ok(s.(reqCommas := true, phase := AfterComma))
  {
    RunAppend(Start, pre, [Comma]);
  }

  /** `1 2, 3`: a comma after the second value of the first row is refused. */
  lemma LateCommaFails()
    ensures Parse([Num(1.0), Num(2.0), Comma, Num(3.0)]) == Err(InvalidComma)
  {
  }
}
