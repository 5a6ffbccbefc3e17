/** The layout `to_string` produces.  How a single cell becomes text
    (`limited_template_to_string`, chosen by run-time type) is a parameter
    `render`; everything around the cells is fixed here. */
module Render {
  import opened Grids

  /** The flags `use_brackets`, `use_pipe` and `one_line`. */
  datatype Options = Options(brackets: bool, pipe: bool, oneLine: bool)

  /** The option string read in the source's order: each test may override an
      earlier one, so `|` beats `[`/`]` and `o` beats `m` wherever they appear. */
  function ReadOptions(options: string): (o: Options)
    ensures o.pipe <==> '|' in options
    ensures o.brackets <==> ('[' in options || ']' in options) && '|' !in options
    ensures o.oneLine <==> 'o' in options || 'm' !in options
    ensures !(o.brackets && o.pipe)
  {
    var o := Options(false, false, true);
    var o := if '[' in options || ']' in options then o.(brackets := true, pipe := false) else o;
    var o := if '|' in options then o.(brackets := false, pipe := true) else o;
    var o := if 'm' in options then o.(oneLine := false) else o;
    var o := if 'o' in options then o.(oneLine := true) else o;
    o
  }

  function Open(o: Options): string {
    if o.brackets then "[ " else if o.pipe then "| " else ""
  }

  function Close(o: Options): string {
    if o.brackets then " ]" else if o.pipe then " |" else ""
  }

  /** The cells of one row, joined by ", ". */
  function CellsText(row: seq<real>, render: real -> string): string
    decreases |row|
  {
    if |row| <= 1 then (if row == [] then "" else render(row[0]))
    else CellsText(row[..|row| - 1], render) + ", " + render(row[|row| - 1])
  }

  /** One-line body: rows joined by " ; ". */
  function Joined(g: Grid, render: real -> string): string
    decreases |g|
  {
    if |g| <= 1 then (if g == [] then "" else CellsText(g[0], render))
    else Joined(g[..|g| - 1], render) + " ; " + CellsText(g[|g| - 1], render)
  }

  /** Multi-line body: each row wrapped and ended by a newline. */
  function Lines(g: Grid, o: Options, render: real -> string): string
    decreases |g|
  {
    if g == [] then ""
    else Lines(g[..|g| - 1], o, render) + Open(o) + CellsText(g[|g| - 1], render) + Close(o) + "\n"
  }

  /** The one-line body of the first r + 1 rows extends that of the first r rows. */
  lemma JoinedPrefix(g: Grid, r: nat, render: real -> string)
    requires r < |g|
    ensures Joined(g[..r + 1], render)
         == (if r == 0 then "" else Joined(g[..r], render) + " ; ") + CellsText(g[r], render)
  {
    assert g[..r + 1][..r] == g[..r];
  }

  /** The multi-line body of the first r + 1 rows extends that of the first r rows by one line. */
  lemma LinesPrefix(g: Grid, r: nat, o: Options, render: real -> string)
    requires r < |g|
    ensures Lines(g[..r + 1], o, render) == Lines(g[..r], o, render) + Open(o) + CellsText(g[r], render) + Close(o) + "\n"
  {
    assert g[..r + 1][..r] == g[..r];
  }

  /** The whole string `to_string` returns. */
  function Rendered(g: Grid, o: Options, render: real -> string): string {
    if o.oneLine then Open(o) + Joined(g, render) + Close(o) else Lines(g, o, render)
  }

  /** How often `ch` occurs in `s`. */
  function Occurrences(s: string, ch: char): nat
    decreases |s|
  {
    if s == [] then 0 else Occurrences(s[..|s| - 1], ch) + (if s[|s| - 1] == ch then 1 else 0)
  }

  lemma {:induction false} OccurrencesAppend(s: string, t: string, ch: char)
    ensures Occurrences(s + t, ch) == Occurrences(s, ch) + Occurrences(t, ch)
    decreases |t|
  {
    if t == [] {
      assert s + t == s;
    } else {
      assert (s + t)[..|s + t| - 1] == s + t[..|t| - 1];
      OccurrencesAppend(s, t[..|t| - 1], ch);
    }
  }

  /** No cell's text contains `ch`. */
  ghost predicate Avoids(render: real -> string, ch: char) {
    forall x :: Occurrences(render(x), ch) == 0
  }

  lemma AvoidsAt(render: real -> string, ch: char, x: real)
    requires Avoids(render, ch)
    ensures Occurrences(render(x), ch) == 0
  {
  }

  /** `ch` occurs in the cells of a row only at the separators: n - 1 times
      for `,`, never for any character the separator ", " lacks. */
  lemma {:induction false} CellsCount(row: seq<real>, render: real -> string, ch: char)
    requires Avoids(render, ch)
    ensures Occurrences(CellsText(row, render), ch)
         == if ch == ',' && |row| >= 1 then |row| - 1 else if ch == ' ' && |row| >= 1 then |row| - 1 else 0
    decreases |row|
  {
    if |row| == 1 {
      AvoidsAt(render, ch, row[0]);
    } else if |row| > 1 {
      var front := CellsText(row[..|row| - 1], render);
      var last := render(row[|row| - 1]);
      AvoidsAt(render, ch, row[|row| - 1]);
      CellsCount(row[..|row| - 1], render, ch);
      OccurrencesAppend(front, ", ", ch);
      OccurrencesAppend(front + ", ", last, ch);
      assert Occurrences(", ", ch) == (if ch == ',' then 1 else 0) + (if ch == ' ' then 1 else 0) by {
        assert ", "[..1] == ",";
        assert ","[..0] == "";
      }
    }
  }

  /** Multi-line output has exactly one newline per row. */
  lemma {:induction false} LinesPerRow(g: Grid, o: Options, render: real -> string)
    requires Avoids(render, '\n')
    ensures Occurrences(Lines(g, o, render), '\n') == |g|
    decreases |g|
  {
    if g != [] {
      var front := Lines(g[..|g| - 1], o, render);
      var cells := CellsText(g[|g| - 1], render);
      LinesPerRow(g[..|g| - 1], o, render);
      CellsCount(g[|g| - 1], render, '\n');
      assert Occurrences(Open(o), '\n') == 0 && Occurrences(Close(o), '\n') == 0 by {
        OpenCloseCount(o, '\n');
      }
      assert Lines(g, o, render) == front + Open(o) + cells + Close(o) + "\n";
      OccurrencesAppend(front, Open(o), '\n');
      OccurrencesAppend(front + Open(o), cells, '\n');
      OccurrencesAppend(front + Open(o) + cells, Close(o), '\n');
      OccurrencesAppend(front + Open(o) + cells + Close(o), "\n", '\n');
      assert Occurrences("\n", '\n') == 1 by {
        assert "\n"[..0] == "";
      }
    }
  }

  lemma OpenCloseCount(o: Options, ch: char)
    requires ch !in "[]| "
    ensures Occurrences(Open(o), ch) == 0 && Occurrences(Close(o), ch) == 0
  {
    assert "[ "[..1] == "[" && "| "[..1] == "|" && " ]"[..1] == " " && " |"[..1] == " ";
    assert "["[..0] == "" && "|"[..0] == "" && " "[..0] == "";
  }

  /** One-line output has no newline at all. */
  lemma OneLineHasNoNewline(g: Grid, o: Options, render: real -> string)
    requires o.oneLine
    requires Avoids(render, '\n')
    ensures Occurrences(Rendered(g, o, render), '\n') == 0
  {
    JoinedCount(g, render, '\n');
    OpenCloseCount(o, '\n');
    OccurrencesAppend(Open(o), Joined(g, render), '\n');
    OccurrencesAppend(Open(o) + Joined(g, render), Close(o), '\n');
  }

  /** One-line output separates n rows by n - 1 semicolons, and holds no other
      character that neither the cells nor the separators contain. */
  lemma {:induction false} JoinedCount(g: Grid, render: real -> string, ch: char)
    requires Avoids(render, ch) && ch != ',' && ch != ' '
    ensures Occurrences(Joined(g, render), ch) == if ch == ';' && |g| >= 1 then |g| - 1 else 0
    decreases |g|
  {
    if |g| == 1 {
      CellsCount(g[0], render, ch);
    } else if |g| > 1 {
      var front := Joined(g[..|g| - 1], render);
      var cells := CellsText(g[|g| - 1], render);
      JoinedCount(g[..|g| - 1], render, ch);
      CellsCount(g[|g| - 1], render, ch);
      OccurrencesAppend(front, " ; ", ch);
      OccurrencesAppend(front + " ; ", cells, ch);
      assert Occurrences(" ; ", ch) == if ch == ';' then 1 else 0 by {
        assert " ; "[..2] == " ;";
        assert " ;"[..1] == " ";
        assert " "[..0] == "";
      }
    }
  }
}
