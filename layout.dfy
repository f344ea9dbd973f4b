/** What the two renderers share: the display strings of the cells, the
    widest of them, and a row of right-aligned cells separated by spaces. */
module Layout {
  import opened Strings
  import opened Matrices

  /** `format!("{}", data[r][c])` for every cell, in place. */
  function ShowGrid<T>(m: Matrix<T>, show: T -> string): (g: seq<seq<string>>)
    requires m.Valid()
    ensures |g| == m.rows
    ensures forall r | 0 <= r < m.rows :: |g[r]| == m.cols
    ensures forall r, c | 0 <= r < m.rows && 0 <= c < m.cols :: g[r][c] == show(m.data[r][c])
  {
    seq(m.rows, r requires 0 <= r < m.rows => seq(m.cols, c requires 0 <= c < m.cols => show(m.data[r][c])))
  }

  /** The window of the first `nr` rows and `nc` columns lies inside g. */
  predicate Covers(g: seq<seq<string>>, nr: nat, nc: nat) {
    nr <= |g| && forall r | 0 <= r < nr :: nc <= |g[r]|
  }

  /** The largest `s.len()` among the first n cells of a row; 0 for none. */
  function RowMax(row: seq<string>, n: nat): nat
    requires n <= |row|
    decreases n
  {
    if n == 0 then 0 else Max(RowMax(row, n - 1), Utf8Len(row[n - 1]))
  }

  /** The largest `s.len()` over the window of the first nr rows and nc
      columns; 0 when the window is empty. */
  function GridMax(g: seq<seq<string>>, nr: nat, nc: nat): nat
    requires Covers(g, nr, nc)
    decreases nr
  {
    if nr == 0 then 0 else Max(GridMax(g, nr - 1, nc), RowMax(g[nr - 1], nc))
  }

  lemma {:induction false} RowMaxBound(row: seq<string>, n: nat)
    requires n <= |row|
    ensures forall c | 0 <= c < n :: Utf8Len(row[c]) <= RowMax(row, n)
    decreases n
  {
    if n > 0 {
      RowMaxBound(row, n - 1);
    }
  }

  /** No cell of the window is wider than GridMax, and an empty window has
      width 0. */
  lemma {:induction false} GridMaxBound(g: seq<seq<string>>, nr: nat, nc: nat)
    requires Covers(g, nr, nc)
    ensures forall r, c | 0 <= r < nr && 0 <= c < nc :: Utf8Len(g[r][c]) <= GridMax(g, nr, nc)
    ensures nr == 0 || nc == 0 ==> GridMax(g, nr, nc) == 0
    decreases nr
  {
    if nr > 0 {
      GridMaxBound(g, nr - 1, nc);
      RowMaxBound(g[nr - 1], nc);
      if nc == 0 {
        assert RowMax(g[nr - 1], nc) == 0;
      }
    }
  }

  /** The nested scan `for r in 0..nr { for c in 0..nc { maxw = maxw.max(s.len()) } }`
      starting from `maxw = 0`: the widest cell of the window. */
  method ScanWidth<T>(m: Matrix<T>, show: T -> string, nr: nat, nc: nat) returns (maxw: nat)
    requires m.Valid() && nr <= m.rows && nc <= m.cols
    ensures maxw == GridMax(ShowGrid(m, show), nr, nc)
  {
    ghost var g := ShowGrid(m, show);
    maxw := 0;
    for r := 0 to nr
      invariant maxw == GridMax(g, r, nc)
    {
      for c := 0 to nc
        invariant maxw == Max(GridMax(g, r, nc), RowMax(g[r], c))
      {
        var s := show(m.data[r][c]);
        maxw := Max(maxw, Utf8Len(s));
      }
    }
  }

  /** Some cell of a non-empty row attains RowMax. */
  lemma {:induction false} RowMaxAttained(row: seq<string>, n: nat)
    requires 0 < n <= |row|
    ensures exists c | 0 <= c < n :: Utf8Len(row[c]) == RowMax(row, n)
    decreases n
  {
    if n > 1 && Utf8Len(row[n - 1]) < RowMax(row, n) {
      RowMaxAttained(row, n - 1);
    } else {
      assert Utf8Len(row[n - 1]) == RowMax(row, n);
    }
  }

  /** Some cell of a non-empty window attains GridMax: it is the maximum,
      not just an upper bound. */
  lemma {:induction false} GridMaxAttained(g: seq<seq<string>>, nr: nat, nc: nat)
    requires Covers(g, nr, nc) && nr > 0 && nc > 0
    ensures exists r, c | 0 <= r < nr && 0 <= c < nc :: Utf8Len(g[r][c]) == GridMax(g, nr, nc)
    decreases nr
  {
    if nr > 1 && RowMax(g[nr - 1], nc) < GridMax(g, nr, nc) {
      GridMaxAttained(g, nr - 1, nc);
    } else {
      assert RowMax(g[nr - 1], nc) == GridMax(g, nr, nc);
      RowMaxAttained(g[nr - 1], nc);
    }
  }

  /** Widening any cell never narrows the window's width. */
  lemma GridMaxMonotone(g: seq<seq<string>>, h: seq<seq<string>>, nr: nat, nc: nat)
    requires Covers(g, nr, nc) && Covers(h, nr, nc)
    requires forall r, c | 0 <= r < nr && 0 <= c < nc :: Utf8Len(g[r][c]) <= Utf8Len(h[r][c])
    ensures GridMax(g, nr, nc) <= GridMax(h, nr, nc)
  {
    GridMaxBound(h, nr, nc);
    if nr > 0 && nc > 0 {
      GridMaxAttained(g, nr, nc);
      var r, c :| 0 <= r < nr && 0 <= c < nc && Utf8Len(g[r][c]) == GridMax(g, nr, nc);
    }
  }

  /** The cells of a row, each right-aligned to width w, with one space
      between neighbours (the `if c > 0 { " " }` / `{:>width$}` loop). */
  function RenderCells(cells: seq<string>, w: nat): string
    decreases |cells|
  {
    if |cells| == 0 then ""
    else if |cells| == 1 then PadLeft(cells[0], w)
    else RenderCells(cells[..|cells| - 1], w) + " " + PadLeft(cells[|cells| - 1], w)
  }

  /** Writing column c (a space first unless c is 0, then the padded cell)
      after the first c cells gives the first c + 1 cells. */
  lemma CellStep(lead: string, row: seq<string>, c: nat, w: nat)
    requires c < |row|
    ensures c > 0 ==> lead + RenderCells(row[..c], w) + " " + PadLeft(row[c], w) == lead + RenderCells(row[..c + 1], w)
    ensures c == 0 ==> lead + RenderCells(row[..c], w) + PadLeft(row[c], w) == lead + RenderCells(row[..c + 1], w)
  {
    var next := row[..c + 1];
    assert next[..c] == row[..c] && next[c] == row[c];
    var done, cell := RenderCells(row[..c], w), PadLeft(row[c], w);
    if c == 0 {
      assert done == "" && RenderCells(next, w) == cell;
      assert lead + "" == lead;
    } else {
      assert RenderCells(next, w) == done + " " + cell;
      Assoc(lead, done, " ", cell);
    }
  }

  /** The `for c in 0..n` loop that writes the first n cells of row r:
      a space before every cell but the first, then the cell's display
      string right-aligned to width w. */
  method WriteCells<T>(before: string, m: Matrix<T>, show: T -> string, r: nat, n: nat, w: nat) returns (out: string)
    requires m.Valid() && r < m.rows && n <= m.cols
    ensures out == before + RenderCells(ShowGrid(m, show)[r][..n], w)
  {
    ghost var row := ShowGrid(m, show)[r];
    out := before;
    assert before + RenderCells(row[..0], w) == before;
    for c := 0 to n
      invariant out == before + RenderCells(row[..c], w)
    {
      if c > 0 {
        out := out + " ";
      }
      var s := show(m.data[r][c]);
      out := out + PadLeft(s, w);
      CellStep(before, row, c, w);
    }
  }

  /** Padding adds only spaces: any other character of the rendering comes
      from one of the cells. */
  lemma {:induction false} RenderCellsWithout(cells: seq<string>, w: nat, ch: char)
    requires ch != ' '
    requires forall c | 0 <= c < |cells| :: ch !in cells[c]
    ensures ch !in RenderCells(cells, w)
    decreases |cells|
  {
    if |cells| > 1 {
      RenderCellsWithout(cells[..|cells| - 1], w, ch);
    }
  }

  predicate FitIn(cells: seq<string>, w: nat) {
    forall c | 0 <= c < |cells| :: Utf8Len(cells[c]) <= w
  }

  /** A cell whose `len()` is at most w is padded to exactly w characters:
      spaces, then the cell. */
  lemma PaddedCellWidth(s: string, w: nat)
    requires Utf8Len(s) <= w
    ensures |PadLeft(s, w)| == w
    ensures PadLeft(s, w) == Spaces(w - |s|) + s
  {
  }

  /** n cells that fit in width w take n*w characters plus n-1 separators. */
  lemma {:induction false} RenderCellsLength(cells: seq<string>, w: nat)
    requires |cells| > 0 && FitIn(cells, w)
    ensures |RenderCells(cells, w)| == |cells| * w + |cells| - 1
    decreases |cells|
  {
    var n := |cells|;
    PaddedCellWidth(cells[n - 1], w);
    if n > 1 {
      var init := cells[..n - 1];
      FitInPrefix(cells, w);
      RenderCellsLength(init, w);
      LengthStep(n - 1, w, |RenderCells(init, w)|);
    }
  }

  lemma FitInPrefix(cells: seq<string>, w: nat)
    requires |cells| > 0 && FitIn(cells, w)
    ensures FitIn(cells[..|cells| - 1], w)
  {
    var init := cells[..|cells| - 1];
    forall c | 0 <= c < |init| ensures Utf8Len(init[c]) <= w {
      assert init[c] == cells[c];
    }
  }

  /** One more cell and one more separator. */
  lemma LengthStep(k: nat, w: nat, len: int)
    requires len == k * w + k - 1
    ensures len + 1 + w == (k + 1) * w + (k + 1) - 1
  {
  }

  /** One padded cell reads back as the cell itself. */
  lemma PaddedCellTokens(s: string, w: nat)
    requires s != "" && ' ' !in s
    ensures DropEmpty(Split(PadLeft(s, w), ' ')) == [s]
  {
    var k := |PadLeft(s, w)| - |s|;
    SplitPadded(k, s);
    DropEmptyConcat(seq(k, _ => ""), [s]);
    DropEmptyBlanks(k);
    assert DropEmpty([s]) == [s];
  }

  /** The cells can be read back from their rendering: splitting on ' ' and
      dropping the empty pieces gives exactly the cells, in column order,
      provided each cell is non-empty and contains no space. */
  lemma {:induction false} RenderCellsTokens(cells: seq<string>, w: nat)
    requires forall c | 0 <= c < |cells| :: cells[c] != "" && ' ' !in cells[c]
    ensures DropEmpty(Split(RenderCells(cells, w), ' ')) == cells
    decreases |cells|
  {
    var n := |cells|;
    if n == 0 {
      assert DropEmpty([""]) == [];
    } else if n == 1 {
      PaddedCellTokens(cells[0], w);
    } else {
      var init, last := cells[..n - 1], cells[n - 1];
      PaddedCellTokens(last, w);
      RenderCellsTokens(init, w);
      TokensSnoc(RenderCells(init, w), PadLeft(last, w), init, last);
      InitLast(cells);
    }
  }

  /** Tokens of two pieces joined by a space are the tokens of each. */
  lemma TokensSnoc(front: string, back: string, init: seq<string>, last: string)
    requires DropEmpty(Split(front, ' ')) == init && DropEmpty(Split(back, ' ')) == [last]
    ensures DropEmpty(Split(front + " " + back, ' ')) == init + [last]
  {
    assert front + " " + back == front + [' '] + back;
    SplitAtSep(front, back, ' ');
    DropEmptyConcat(Split(front, ' '), Split(back, ' '));
  }
}
