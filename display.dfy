/** `impl fmt::Display for Matrix`: the full rendering. A header line
    "{R}x{C} Matrix:" and then one bracketed line per row, every cell
    right-aligned to the single widest cell of the whole matrix. */
module Display {
  import opened Strings
  import opened Matrices
  import opened Layout

  function Dims(rows: nat, cols: nat): string {
    NatToString(rows) + "x" + NatToString(cols)
  }

  /** The header line of a matrix with cells. */
  function Header(rows: nat, cols: nat): string {
    Dims(rows, cols) + " Matrix:"
  }

  /** The only line written for a matrix with no cells. */
  function EmptyHeader(rows: nat, cols: nat): string {
    Dims(rows, cols) + " Matrix: []"
  }

  /** One data line: the row's cells between brackets. */
  function RowLine(cells: seq<string>, w: nat): string {
    "[" + RenderCells(cells, w) + "]"
  }

  /** The data lines of the rows of g, in order. */
  function DataLines(g: seq<seq<string>>, w: nat): (ls: seq<string>)
    ensures |ls| == |g|
    ensures forall r | 0 <= r < |g| :: ls[r] == RowLine(g[r], w)
    decreases |g|
  {
    if g == [] then [] else DataLines(g[..|g| - 1], w) + [RowLine(g[|g| - 1], w)]
  }

  /** `maxw`: the largest `len()` over all R x C cells. */
  function Width<T>(m: Matrix<T>, show: T -> string): nat
    requires m.Valid()
  {
    GridMax(ShowGrid(m, show), m.rows, m.cols)
  }

  /** The lines the renderer writes, each followed by '\n'. */
  function DisplayLines<T>(m: Matrix<T>, show: T -> string): seq<string>
    requires m.Valid()
  {
    if m.rows == 0 || m.cols == 0 then [EmptyHeader(m.rows, m.cols)]
    else [Header(m.rows, m.cols)] + DataLines(ShowGrid(m, show), Width(m, show))
  }

  function DisplayText<T>(m: Matrix<T>, show: T -> string): string
    requires m.Valid()
  {
    Unlines(DisplayLines(m, show))
  }

  /** `Display::fmt`: one scan of every cell for `maxw`, then the header and
      the rows, appended piece by piece as the `write!` calls do. */
  method Fmt<T>(m: Matrix<T>, show: T -> string) returns (out: string)
    requires m.Valid()
    ensures out == DisplayText(m, show)
  {
    if m.rows == 0 || m.cols == 0 {
      out := EmptyHeader(m.rows, m.cols) + "\n";
      DegenerateRender(m, show);
      return;
    }
    ghost var g := ShowGrid(m, show);

    var maxw := ScanWidth(m, show, m.rows, m.cols);

    out := Header(m.rows, m.cols) + "\n";
    UnlinesOne(Header(m.rows, m.cols));
    for r := 0 to m.rows
      invariant out == Unlines([Header(m.rows, m.cols)] + DataLines(g[..r], maxw))
    {
      out := WriteCells(out + "[", m, show, r, m.cols, maxw);
      assert g[r][..m.cols] == g[r];
      out := out + "]\n";
      RowStep(Header(m.rows, m.cols), g, r, maxw);
    }
    assert g[..m.rows] == g;
  }

  /** Closing row r after the lines of the rows before it gives the lines of
      the first r + 1 rows. */
  lemma RowStep(header: string, g: seq<seq<string>>, r: nat, w: nat)
    requires r < |g|
    ensures Unlines([header] + DataLines(g[..r], w)) + "[" + RenderCells(g[r], w) + "]\n"
         == Unlines([header] + DataLines(g[..r + 1], w))
  {
    var lines := [header] + DataLines(g[..r], w);
    DataLinesSnoc(g, r, w);
    assert [header] + DataLines(g[..r + 1], w) == lines + [RowLine(g[r], w)];
    UnlinesSnoc(lines, RowLine(g[r], w));
    CloseBracket(Unlines(lines), RenderCells(g[r], w));
  }

  lemma DataLinesSnoc(g: seq<seq<string>>, r: nat, w: nat)
    requires r < |g|
    ensures DataLines(g[..r + 1], w) == DataLines(g[..r], w) + [RowLine(g[r], w)]
  {
    assert g[..r + 1][..r] == g[..r];
  }

  /** Bracketing a row before its line break. Dafny's own
      sequence axioms prove it; it stands apart so that the prover meets it
      as a small goal, not inside a large context. */
  lemma CloseBracket(u: string, x: string)
    ensures u + "[" + x + "]\n" == u + ("[" + x + "]") + "\n"
  {
  }

  lemma DimsNoNewline(rows: nat, cols: nat)
    ensures '\n' !in Dims(rows, cols)
  {
    DigitsWithout(NatToString(rows), '\n');
    DigitsWithout(NatToString(cols), '\n');
  }

  /** A matrix without cells renders as the single line "{R}x{C} Matrix: []". */
  lemma DegenerateRender<T>(m: Matrix<T>, show: T -> string)
    requires m.Valid() && (m.rows == 0 || m.cols == 0)
    ensures DisplayText(m, show) == EmptyHeader(m.rows, m.cols) + "\n"
    ensures Lines(DisplayText(m, show)) == [EmptyHeader(m.rows, m.cols)]
  {
    DimsNoNewline(m.rows, m.cols);
    var l := EmptyHeader(m.rows, m.cols);
    assert '\n' !in l;
    LinesOfUnlines([l]);
    UnlinesOne(l);
  }

  /** The output starts with "{R}x{C}". */
  lemma RenderStartsWithDims<T>(m: Matrix<T>, show: T -> string)
    requires m.Valid()
    ensures OccursAt(DisplayText(m, show), Dims(m.rows, m.cols), 0)
  {
    var ls := DisplayLines(m, show);
    var rest := if m.rows == 0 || m.cols == 0 then " Matrix: []" else " Matrix:";
    assert ls[0] == Dims(m.rows, m.cols) + rest;
    StartsWithFirstLine(ls, Dims(m.rows, m.cols), rest);
  }

  lemma StartsWithFirstLine(ls: seq<string>, d: string, rest: string)
    requires |ls| > 0 && ls[0] == d + rest
    ensures OccursAt(Unlines(ls), d, 0)
  {
    UnlinesFirst(ls);
    PrefixOccurs(d, rest + "\n" + Unlines(ls[1..]));
    Assoc(d, rest, "\n", Unlines(ls[1..]));
  }

  /** If no cell's display string contains a line break, reading the output
      back with `lines()` gives the header and then exactly one line per row:
      1 + R lines (a single line when the matrix has no cells). */
  lemma RenderLineCount<T>(m: Matrix<T>, show: T -> string)
    requires m.Valid()
    requires forall r, c | 0 <= r < m.rows && 0 <= c < m.cols :: '\n' !in show(m.Get(r, c))
    ensures Lines(DisplayText(m, show)) == DisplayLines(m, show)
    ensures |DisplayLines(m, show)| == if m.rows == 0 || m.cols == 0 then 1 else 1 + m.rows
  {
    DisplayLinesNoNewline(m, show);
    LinesOfUnlines(DisplayLines(m, show));
  }

  lemma DisplayLinesNoNewline<T>(m: Matrix<T>, show: T -> string)
    requires m.Valid()
    requires forall r, c | 0 <= r < m.rows && 0 <= c < m.cols :: '\n' !in show(m.Get(r, c))
    ensures NoNewline(DisplayLines(m, show))
  {
    DimsNoNewline(m.rows, m.cols);
    if m.rows > 0 && m.cols > 0 {
      var g := ShowGrid(m, show);
      forall r, c | 0 <= r < |g| && 0 <= c < |g[r]| ensures '\n' !in g[r][c] {
        assert g[r][c] == show(m.Get(r, c));
      }
      DataLinesNoNewline(g, Width(m, show));
      assert '\n' !in Header(m.rows, m.cols);
    }
  }

  lemma DataLinesNoNewline(g: seq<seq<string>>, w: nat)
    requires forall r, c | 0 <= r < |g| && 0 <= c < |g[r]| :: '\n' !in g[r][c]
    ensures NoNewline(DataLines(g, w))
  {
    forall r | 0 <= r < |g| ensures '\n' !in RowLine(g[r], w) {
      RenderCellsWithout(g[r], w, '\n');
    }
  }

  /** Every data line is "[" and the row's padded cells and "]", and all have
      the same length: 2 + C*maxw + (C - 1). */
  lemma RenderRowShape<T>(m: Matrix<T>, show: T -> string, r: nat)
    requires m.Valid() && m.cols > 0 && r < m.rows
    ensures var line := DisplayLines(m, show)[1 + r];
      && line == "[" + RenderCells(ShowGrid(m, show)[r], Width(m, show)) + "]"
      && line[0] == '[' && line[|line| - 1] == ']'
      && |line| == 2 + m.cols * Width(m, show) + (m.cols - 1)
  {
    var g, w := ShowGrid(m, show), Width(m, show);
    RowFits(g, m.rows, m.cols, r);
    RowLineShape(g[r], w);
  }

  /** Each row of the window fits in the window's width. */
  lemma RowFits(g: seq<seq<string>>, nr: nat, nc: nat, r: nat)
    requires Covers(g, nr, nc) && r < nr && |g[r]| == nc
    ensures FitIn(g[r], GridMax(g, nr, nc))
  {
    GridMaxBound(g, nr, nc);
  }

  lemma RowLineShape(cells: seq<string>, w: nat)
    requires |cells| > 0 && FitIn(cells, w)
    ensures var line := RowLine(cells, w);
      line[0] == '[' && line[|line| - 1] == ']' && |line| == 2 + |cells| * w + (|cells| - 1)
  {
    RenderCellsLength(cells, w);
  }

  /** The test's token count: inside the brackets of a data line, splitting
      on ' ' and dropping empty pieces gives the row's C cell strings in
      column order, when each is non-empty and has no space in it. */
  lemma RenderRowTokens<T>(m: Matrix<T>, show: T -> string, r: nat)
    requires m.Valid() && m.cols > 0 && r < m.rows
    requires forall c | 0 <= c < m.cols :: show(m.Get(r, c)) != "" && ' ' !in show(m.Get(r, c))
    ensures var line := DisplayLines(m, show)[1 + r];
      DropEmpty(Split(line[1..|line| - 1], ' ')) == ShowGrid(m, show)[r]
  {
    var g, w := ShowGrid(m, show), Width(m, show);
    var row := g[r];
    forall c | 0 <= c < |row| ensures row[c] != "" && ' ' !in row[c] {
      assert row[c] == show(m.Get(r, c));
    }
    assert DisplayLines(m, show)[1 + r] == RowLine(row, w);
    BracketedTokens(row, w);
  }

  lemma BracketedTokens(cells: seq<string>, w: nat)
    requires forall c | 0 <= c < |cells| :: cells[c] != "" && ' ' !in cells[c]
    ensures var line := RowLine(cells, w);
      DropEmpty(Split(line[1..|line| - 1], ' ')) == cells
  {
    var line := RowLine(cells, w);
    assert line[1..|line| - 1] == RenderCells(cells, w);
    RenderCellsTokens(cells, w);
  }
}
