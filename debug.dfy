/** `impl fmt::Debug for Matrix`: the diagnostic rendering. A metadata
    header, then at most MaxRows rows of at most MaxCols cells, with markers
    and counts for what was left out. */
module Debug {
  import opened Strings
  import opened Matrices
  import opened Layout

  const MaxRows: nat := 6
  const MaxCols: nat := 8

  /** The placeholder for omitted cells and rows: U+2026 HORIZONTAL ELLIPSIS,
      one character wide and three bytes long in UTF-8. */
  const Ellipsis: string := "\U{2026}"

  /** What the lemmas need of a placeholder `ell`: a non-empty string with
      no space and no line break. Both the intended ellipsis and the literal
      as line 87 spells it qualify. */
  predicate Placeholder(ell: string) {
    ell != "" && ' ' !in ell && '\n' !in ell
  }

  function ShownRows(rows: nat): nat {
    Min(rows, MaxRows)
  }

  function ShownCols(cols: nat): nat {
    Min(cols, MaxCols)
  }

  /** "Matrix<_, {R}, {C}> { rows: {R}, cols: {C}" */
  function HeaderFields(r: string, c: string): string {
    "Matrix<_, " + r + ", " + c + "> { rows: " + r + ", cols: " + c
  }

  function RowsFlag(rows: nat): string {
    if ShownRows(rows) < rows then ", rows_truncated" else ""
  }

  function ColsFlag(cols: nat): string {
    if ShownCols(cols) < cols then ", cols_truncated" else ""
  }

  /** The metadata header line. */
  function Header(rows: nat, cols: nat): string {
    HeaderFields(NatToString(rows), NatToString(cols)) + RowsFlag(rows) + ColsFlag(cols) + " }"
  }

  /** What a line ends with, before its closing bracket, when columns were cut. */
  function ColsSuffix(cols: nat, ell: string): string {
    if ShownCols(cols) < cols then " " + ell + " (+" + NatToString(cols - ShownCols(cols)) + " cols)" else ""
  }

  /** What a row ends with when columns were cut: the cols suffix and the
      closing bracket. */
  function ColsMarker(cols: nat, ell: string): string {
    " " + ell + " (+" + NatToString(cols - ShownCols(cols)) + " cols)]"
  }

  /** `maxw`: the widest `len()` over the shown window, and at least the
      byte length of the ellipsis. */
  function Width<T>(m: Matrix<T>, show: T -> string, ell: string): nat
    requires m.Valid()
  {
    Max(GridMax(ShowGrid(m, show), ShownRows(m.rows), ShownCols(m.cols)), Utf8Len(ell))
  }

  /** One shown row: its first ShownCols(cols) cells between brackets. */
  function ShownLine(cells: seq<string>, w: nat, cols: nat, ell: string): string {
    "[" + RenderCells(cells, w) + ColsSuffix(cols, ell) + "]"
  }

  /** The shown window of g: its first nr rows, each cut to its first nc cells. */
  function Window(g: seq<seq<string>>, nr: nat, nc: nat): (win: seq<seq<string>>)
    requires Covers(g, nr, nc)
    ensures |win| == nr && forall r | 0 <= r < nr :: win[r] == g[r][..nc]
  {
    seq(nr, r requires 0 <= r < nr => g[r][..nc])
  }

  /** The lines of the shown rows, in order. */
  function ShownLines(win: seq<seq<string>>, w: nat, cols: nat, ell: string): (ls: seq<string>)
    ensures |ls| == |win|
    ensures forall r | 0 <= r < |win| :: ls[r] == ShownLine(win[r], w, cols, ell)
  {
    seq(|win|, r requires 0 <= r < |win| => ShownLine(win[r], w, cols, ell))
  }

  function Ellipses(n: nat, ell: string): (cells: seq<string>)
    ensures |cells| == n && forall c | 0 <= c < n :: cells[c] == ell
  {
    seq(n, _ => ell)
  }

  /** "] (+{M} rows)": how the summary row ends. */
  function RowsSuffix(rows: nat): string {
    "] (+" + NatToString(rows - ShownRows(rows)) + " rows)"
  }

  /** The summary row standing for the omitted rows. */
  function SummaryLine(rows: nat, cols: nat, w: nat, ell: string): string {
    "[" + RenderCells(Ellipses(ShownCols(cols), ell), w) + ColsSuffix(cols, ell) + RowsSuffix(rows)
  }

  /** The lines the renderer writes, each followed by '\n'. */
  function DebugLines<T>(m: Matrix<T>, show: T -> string, ell: string): seq<string>
    requires m.Valid()
  {
    if m.rows == 0 || m.cols == 0 then [Header(m.rows, m.cols), "[]"]
    else
      var win := Window(ShowGrid(m, show), ShownRows(m.rows), ShownCols(m.cols));
      var w := Width(m, show, ell);
      [Header(m.rows, m.cols)] + ShownLines(win, w, m.cols, ell)
        + (if ShownRows(m.rows) < m.rows then [SummaryLine(m.rows, m.cols, w, ell)] else [])
  }

  function DebugText<T>(m: Matrix<T>, show: T -> string, ell: string): string
    requires m.Valid()
  {
    Unlines(DebugLines(m, show, ell))
  }

  /** `Debug::fmt`: the header, then (unless the matrix has no cells) a scan
      of the shown window for `maxw`, the shown rows, and the summary row.
      `ell` is the placeholder bound on line 87: `MisencodedEllipsis` as the
      code is written, `Ellipsis` as intended. */
  method Fmt<T>(m: Matrix<T>, show: T -> string, ell: string) returns (out: string)
    requires m.Valid()
    ensures out == DebugText(m, show, ell)
  {
    var showR := Min(m.rows, MaxRows);
    var showC := Min(m.cols, MaxCols);
    var rowsElided := showR < m.rows;
    var colsElided := showC < m.cols;
    ghost var header := Header(m.rows, m.cols);

    out := Header(m.rows, m.cols) + "\n";
    UnlinesOne(header);

    if m.rows == 0 || m.cols == 0 {
      out := out + "[]\n";
      DegenerateStep(header);
      return;
    }

    var maxw := ScanWidth(m, show, showR, showC);
    maxw := Max(maxw, Utf8Len(ell));
    assert maxw == Width(m, show, ell);
    ghost var shown := [header] + ShownLines(Window(ShowGrid(m, show), showR, showC), maxw, m.cols, ell);
    out := WriteShownRows(out, [header], m, show, showR, showC, colsElided, maxw, ell);

    if rowsElided {
      out := WriteSummary(out, m.rows, m.cols, showR, showC, colsElided, maxw, ell);
      UnlinesSnoc(shown, SummaryLine(m.rows, m.cols, maxw, ell));
    } else {
      NoSummary(shown);
    }
  }

  /** The locals `show_r`, `show_c` and `cols_elided` of `Debug::fmt`. */
  predicate Caps(rows: nat, cols: nat, showR: nat, showC: nat, colsElided: bool) {
    showR == ShownRows(rows) && showC == ShownCols(cols) && colsElided == (showC < cols)
  }

  /** The "emit shown rows" loop: after the lines already written, one
      line per shown row. */
  method WriteShownRows<T>(before: string, ghost lines: seq<string>, m: Matrix<T>, show: T -> string,
                           showR: nat, showC: nat, colsElided: bool, w: nat, ell: string) returns (out: string)
    requires m.Valid() && before == Unlines(lines)
    requires Caps(m.rows, m.cols, showR, showC, colsElided)
    ensures out == Unlines(lines + ShownLines(Window(ShowGrid(m, show), showR, showC), w, m.cols, ell))
  {
    ghost var win := Window(ShowGrid(m, show), showR, showC);
    out := before;
    assert lines + ShownLines(win[..0], w, m.cols, ell) == lines;
    for r := 0 to showR
      invariant out == Unlines(lines + ShownLines(win[..r], w, m.cols, ell))
    {
      ghost var done := out;
      out := WriteShownRow(out, m, show, r, showC, colsElided, w, ell);
      RowWritten(lines, win, m, show, r, w, ell, done, out);
    }
    assert win[..showR] == win;
  }

  /** One iteration of the "emit shown rows" loop: row r's first
      ShownCols(cols) cells, the cols suffix when columns are cut, and
      "]" with a line break. */
  method WriteShownRow<T>(before: string, m: Matrix<T>, show: T -> string, r: nat,
                          showC: nat, colsElided: bool, w: nat, ell: string) returns (out: string)
    requires m.Valid() && r < m.rows
    requires showC == ShownCols(m.cols) && colsElided == (showC < m.cols)
    ensures out == before + ShownLine(ShowGrid(m, show)[r][..ShownCols(m.cols)], w, m.cols, ell) + "\n"
  {
    ghost var cells := ShowGrid(m, show)[r][..showC];
    out := WriteCells(before + "[", m, show, r, showC, w);
    out := WriteColsSuffix(out, m.cols, showC, colsElided, ell);
    out := out + "]\n";
    CloseShown(before, RenderCells(cells, w), ColsSuffix(m.cols, ell));
  }

  /** `if cols_elided { write!(f, " {} (+{} cols)", ell, C - show_c) }`. */
  method WriteColsSuffix(before: string, cols: nat, showC: nat, colsElided: bool, ell: string) returns (out: string)
    requires showC == ShownCols(cols) && colsElided == (showC < cols)
    ensures out == before + ColsSuffix(cols, ell)
  {
    if colsElided {
      out := before + (" " + ell + " (+" + NatToString(cols - showC) + " cols)");
    } else {
      out := before;
      NoSuffix(before, cols, ell);
    }
  }

  /** The "indicate omitted rows" block: the summary row and a line break. */
  method WriteSummary(before: string, rows: nat, cols: nat, showR: nat, showC: nat, colsElided: bool, w: nat, ell: string) returns (out: string)
    requires Caps(rows, cols, showR, showC, colsElided)
    ensures out == before + SummaryLine(rows, cols, w, ell) + "\n"
  {
    out := WriteMarks(before + "[", showC, w, ell);
    out := WriteColsSuffix(out, cols, showC, colsElided, ell);
    out := out + ("] (+" + NatToString(rows - showR) + " rows)") + "\n";
    CloseSummary(before, RenderCells(Ellipses(showC, ell), w), ColsSuffix(cols, ell), RowsSuffix(rows));
  }

  /** The `for c in 0..show_c` loop of the summary row: n ellipses, each
      right-aligned to width w, one space between neighbours. */
  method WriteMarks(before: string, n: nat, w: nat, ell: string) returns (out: string)
    ensures out == before + RenderCells(Ellipses(n, ell), w)
  {
    ghost var marks := Ellipses(n, ell);
    out := before;
    assert before + RenderCells(marks[..0], w) == before;
    for c := 0 to n
      invariant out == before + RenderCells(marks[..c], w)
    {
      if c > 0 {
        out := out + " ";
      }
      out := out + PadLeft(ell, w);
      CellStep(before, marks, c, w);
    }
    assert marks[..n] == marks;
  }

  /** No cols suffix when nothing was cut. */
  lemma NoSuffix(s: string, cols: nat, ell: string)
    requires cols <= MaxCols
    ensures s + ColsSuffix(cols, ell) == s
  {
  }

  /** No summary line. Dafny's own
      sequence axioms prove it; it stands apart so that the prover meets it
      as a small goal, not inside a large context. */
  lemma NoSummary(ls: seq<string>)
    ensures ls + [] == ls
  {
  }

  lemma DegenerateStep(header: string)
    ensures Unlines([header]) + "[]\n" == Unlines([header, "[]"])
  {
    UnlinesSnoc([header], "[]");
    assert [header] + ["[]"] == [header, "[]"];
  }

  lemma ShownLinesSnoc(win: seq<seq<string>>, r: nat, w: nat, cols: nat, ell: string)
    requires r < |win|
    ensures ShownLines(win[..r + 1], w, cols, ell) == ShownLines(win[..r], w, cols, ell) + [ShownLine(win[r], w, cols, ell)]
  {
    var longer, shorter := ShownLines(win[..r + 1], w, cols, ell), ShownLines(win[..r], w, cols, ell);
    forall k | 0 <= k < r + 1 ensures longer[k] == (shorter + [ShownLine(win[r], w, cols, ell)])[k] {
      assert win[..r + 1][k] == win[k];
      if k < r {
        assert win[..r][k] == win[k];
      }
    }
  }

  /** Writing shown row r after the lines of the rows before it gives the
      lines of the first r + 1 shown rows. */
  lemma ShownRowStep(lines: seq<string>, win: seq<seq<string>>, r: nat, w: nat, cols: nat, ell: string)
    requires r < |win|
    ensures Unlines(lines + ShownLines(win[..r], w, cols, ell)) + ShownLine(win[r], w, cols, ell) + "\n"
         == Unlines(lines + ShownLines(win[..r + 1], w, cols, ell))
  {
    var done := lines + ShownLines(win[..r], w, cols, ell);
    var line := ShownLine(win[r], w, cols, ell);
    ShownLinesSnoc(win, r, w, cols, ell);
    assert lines + ShownLines(win[..r + 1], w, cols, ell) == done + [line];
    UnlinesSnoc(done, line);
  }

  /** What one pass of the "emit shown rows" loop adds: row r's line. */
  lemma RowWritten<T>(lines: seq<string>, win: seq<seq<string>>, m: Matrix<T>, show: T -> string, r: nat, w: nat, ell: string,
                      before: string, after: string)
    requires m.Valid() && r < |win| && r < m.rows && win[r] == ShowGrid(m, show)[r][..ShownCols(m.cols)]
    requires before == Unlines(lines + ShownLines(win[..r], w, m.cols, ell))
    requires after == before + ShownLine(ShowGrid(m, show)[r][..ShownCols(m.cols)], w, m.cols, ell) + "\n"
    ensures after == Unlines(lines + ShownLines(win[..r + 1], w, m.cols, ell))
  {
    ShownRowStep(lines, win, r, w, m.cols, ell);
  }

  /** Grouping a shown row before its line break. Dafny's own
      sequence axioms prove it; it stands apart so that the prover meets it
      as a small goal, not inside a large context. */
  lemma CloseShown(u: string, x: string, s: string)
    ensures u + "[" + x + s + "]\n" == u + ("[" + x + s + "]") + "\n"
  {
  }

  /** Grouping the summary row before its line break. Dafny's own
      sequence axioms prove it; it stands apart so that the prover meets it
      as a small goal, not inside a large context. */
  lemma CloseSummary(u: string, x: string, s: string, t: string)
    ensures u + "[" + x + s + t + "\n" == u + ("[" + x + s + t) + "\n"
  {
  }

  // ---------------------------------------------------------------------------
  // The header's flags

  lemma LiteralsWithoutRowsFlag()
    ensures !Occurs("Matrix<_, ", ", r") && !Occurs(", ", ", r")
    ensures !Occurs("> { rows: ", ", r") && !Occurs(", cols: ", ", r")
    ensures !Occurs(" }", ", r") && !Occurs(", cols_truncated }", ", r")
  {
    Absent3("Matrix<_, ", ", r");
    Absent3(", ", ", r");
    Absent3("> { rows: ", ", r");
    Absent3(", cols: ", ", r");
    Absent3(" }", ", r");
    Absent3(", cols_truncated }", ", r");
  }

  lemma LiteralsWithoutColsFlag()
    ensures !Occurs("Matrix<_, ", "ls_") && !Occurs(", ", "ls_")
    ensures !Occurs("> { rows: ", "ls_") && !Occurs(", cols: ", "ls_")
    ensures !Occurs(" }", "ls_") && !Occurs(", rows_truncated }", "ls_")
  {
    Absent3("Matrix<_, ", "ls_");
    Absent3(", ", "ls_");
    Absent3("> { rows: ", "ls_");
    Absent3(", cols: ", "ls_");
    Absent3(" }", "ls_");
    Absent3(", rows_truncated }", "ls_");
  }

  /** A pattern without digits occurs in the header fields only if it occurs
      in one of the field literals between the numbers, or in what follows. */
  lemma FieldsOccurs(r: string, c: string, tail: string, p: string)
    requires |r| > 0 && |c| > 0 && AllDigits(r) && AllDigits(c) && |p| > 0
    requires forall k | 0 <= k < |p| :: !IsDigit(p[k])
    ensures Occurs(HeaderFields(r, c) + tail, p) ==>
      Occurs("Matrix<_, ", p) || Occurs(", ", p) || Occurs("> { rows: ", p) || Occurs(", cols: ", p) || Occurs(tail, p)
  {
    forall k | 0 <= k < |p| ensures p[k] !in r && p[k] !in c {
      DigitsWithout(r, p[k]);
      DigitsWithout(c, p[k]);
    }
    var a3 := "Matrix<_, " + r + ", " + c + "> { rows: " + r + ", cols: ";
    var a2 := "Matrix<_, " + r + ", " + c + "> { rows: ";
    var a1 := "Matrix<_, " + r + ", ";
    OccursAcross(a3, c, tail, p);
    OccursAcross(a2, r, ", cols: ", p);
    OccursAcross(a1, c, "> { rows: ", p);
    OccursAcross("Matrix<_, ", r, ", ", p);
  }

  lemma HeaderParts(rows: nat, cols: nat)
    ensures Header(rows, cols) == HeaderFields(NatToString(rows), NatToString(cols)) + (RowsFlag(rows) + ColsFlag(cols) + " }")
  {
    Assoc(HeaderFields(NatToString(rows), NatToString(cols)), RowsFlag(rows), ColsFlag(cols), " }");
  }

  /** The header says ", rows_truncated" exactly when rows were cut: R > 6. */
  lemma HeaderRowsFlag(rows: nat, cols: nat)
    ensures Occurs(Header(rows, cols), ", rows_truncated") <==> rows > MaxRows
  {
    var fields := HeaderFields(NatToString(rows), NatToString(cols));
    HeaderParts(rows, cols);
    if rows > MaxRows {
      RowsFlagAt(rows, cols);
    } else {
      var h, tail := Header(rows, cols), RowsFlag(rows) + ColsFlag(cols) + " }";
      assert tail == " }" || tail == ", cols_truncated }";
      OccursInfix(h, ", rows_truncated", ", r", 0);
      LiteralsWithoutRowsFlag();
      FieldsOccurs(NatToString(rows), NatToString(cols), tail, ", r");
    }
  }

  /** The header says ", cols_truncated" exactly when columns were cut: C > 8. */
  lemma HeaderColsFlag(rows: nat, cols: nat)
    ensures Occurs(Header(rows, cols), ", cols_truncated") <==> cols > MaxCols
  {
    HeaderParts(rows, cols);
    if cols > MaxCols {
      ColsFlagAt(rows, cols);
    } else {
      var h, tail := Header(rows, cols), RowsFlag(rows) + ColsFlag(cols) + " }";
      assert tail == " }" || tail == ", rows_truncated }";
      assert OccursAt(", cols_truncated", "ls_", 4);
      OccursInfix(h, ", cols_truncated", "ls_", 4);
      LiteralsWithoutColsFlag();
      FieldsOccurs(NatToString(rows), NatToString(cols), tail, "ls_");
    }
  }

  /** Where the rows flag sits: right after the fields. */
  lemma RowsFlagAt(rows: nat, cols: nat)
    requires rows > MaxRows
    ensures OccursAt(Header(rows, cols), ", rows_truncated", |HeaderFields(NatToString(rows), NatToString(cols))|)
  {
    var fields := HeaderFields(NatToString(rows), NatToString(cols));
    OccursIn(fields, ", rows_truncated", ColsFlag(cols) + " }");
    assert fields + ", rows_truncated" + (ColsFlag(cols) + " }") == fields + ", rows_truncated" + ColsFlag(cols) + " }";
  }

  /** Where the cols flag sits: after the fields and the rows flag, if any. */
  lemma ColsFlagAt(rows: nat, cols: nat)
    requires cols > MaxCols
    ensures OccursAt(Header(rows, cols), ", cols_truncated", |HeaderFields(NatToString(rows), NatToString(cols))| + |RowsFlag(rows)|)
  {
    var fields := HeaderFields(NatToString(rows), NatToString(cols));
    OccursIn(fields + RowsFlag(rows), ", cols_truncated", " }");
  }

  /** When both flags appear, the rows flag comes first. */
  lemma HeaderFlagOrder(rows: nat, cols: nat)
    requires rows > MaxRows && cols > MaxCols
    ensures exists i: nat, j: nat | i < j :: OccursAt(Header(rows, cols), ", rows_truncated", i) && OccursAt(Header(rows, cols), ", cols_truncated", j)
  {
    RowsFlagAt(rows, cols);
    ColsFlagAt(rows, cols);
    var i := |HeaderFields(NatToString(rows), NatToString(cols))|;
    assert i < i + |RowsFlag(rows)|;
  }

  // ---------------------------------------------------------------------------
  // The body

  /** The lines of a matrix with cells: the header, the shown rows, and the
      summary row when rows were cut. */
  lemma DebugLinesAre<T>(m: Matrix<T>, show: T -> string, ell: string)
    requires m.Valid() && m.rows > 0 && m.cols > 0
    ensures DebugLines(m, show, ell) ==
      [Header(m.rows, m.cols)] + ShownLines(Window(ShowGrid(m, show), ShownRows(m.rows), ShownCols(m.cols)), Width(m, show, ell), m.cols, ell)
        + (if m.rows > MaxRows then [SummaryLine(m.rows, m.cols, Width(m, show, ell), ell)] else [])
  {
  }

  /** The lines of a matrix with cells, one by one. */
  lemma DebugLinesParts<T>(m: Matrix<T>, show: T -> string, ell: string)
    requires m.Valid() && m.rows > 0 && m.cols > 0
    ensures var ls, sr := DebugLines(m, show, ell), ShownRows(m.rows);
      && |ls| == 1 + sr + (if m.rows > MaxRows then 1 else 0)
      && ls[0] == Header(m.rows, m.cols)
      && (m.rows > MaxRows ==> ls[|ls| - 1] == SummaryLine(m.rows, m.cols, Width(m, show, ell), ell))
  {
    var g, w := ShowGrid(m, show), Width(m, show, ell);
    var shown := ShownLines(Window(g, ShownRows(m.rows), ShownCols(m.cols)), w, m.cols, ell);
    var extra := if m.rows > MaxRows then [SummaryLine(m.rows, m.cols, w, ell)] else [];
    Parts3(Header(m.rows, m.cols), shown, extra);
    DebugLinesAre(m, show, ell);
  }

  /** Line 1 + r of a matrix with cells is shown row r. */
  lemma DebugRowIs<T>(m: Matrix<T>, show: T -> string, r: nat, ell: string)
    requires m.Valid() && m.cols > 0 && r < ShownRows(m.rows)
    ensures 1 + r < |DebugLines(m, show, ell)|
    ensures DebugLines(m, show, ell)[1 + r] == ShownLine(ShowGrid(m, show)[r][..ShownCols(m.cols)], Width(m, show, ell), m.cols, ell)
  {
    var g, w := ShowGrid(m, show), Width(m, show, ell);
    var win := Window(g, ShownRows(m.rows), ShownCols(m.cols));
    var shown := ShownLines(win, w, m.cols, ell);
    var extra := if m.rows > MaxRows then [SummaryLine(m.rows, m.cols, w, ell)] else [];
    assert shown[r] == ShownLine(g[r][..ShownCols(m.cols)], w, m.cols, ell);
    PartAt(Header(m.rows, m.cols), shown, extra, r);
    DebugLinesAre(m, show, ell);
  }

  lemma Parts3(h: string, s: seq<string>, e: seq<string>)
    ensures var ls := [h] + s + e;
      && |ls| == 1 + |s| + |e| && ls[0] == h
      && (|e| == 1 ==> ls[|ls| - 1] == e[0])
  {
  }

  lemma PartAt(h: string, s: seq<string>, e: seq<string>, j: nat)
    requires j < |s|
    ensures 1 + j < |[h] + s + e| && ([h] + s + e)[1 + j] == s[j]
  {
  }

  lemma HeaderNoNewline(rows: nat, cols: nat)
    ensures '\n' !in Header(rows, cols)
  {
    var r, c := NatToString(rows), NatToString(cols);
    DigitsWithout(r, '\n');
    DigitsWithout(c, '\n');
    FieldsNoNewline(r, c);
    assert '\n' !in RowsFlag(rows) && '\n' !in ColsFlag(cols);
  }

  lemma FieldsNoNewline(r: string, c: string)
    requires '\n' !in r && '\n' !in c
    ensures '\n' !in HeaderFields(r, c)
  {
    assert '\n' !in "Matrix<_, ";
    assert '\n' !in "> { rows: ";
    assert '\n' !in ", cols: ";
  }

  /** A matrix without cells renders as the header and then the body "[]\n". */
  lemma DebugDegenerate<T>(m: Matrix<T>, show: T -> string, ell: string)
    requires m.Valid() && (m.rows == 0 || m.cols == 0)
    ensures DebugText(m, show, ell) == Header(m.rows, m.cols) + "\n" + "[]\n"
    ensures Lines(DebugText(m, show, ell)) == [Header(m.rows, m.cols), "[]"]
  {
    var h := Header(m.rows, m.cols);
    UnlinesOne(h);
    DegenerateStep(h);
    HeaderNoNewline(m.rows, m.cols);
    LinesOfUnlines([h, "[]"]);
  }

  lemma SuffixesNoNewline(rows: nat, cols: nat, ell: string)
    requires '\n' !in ell
    ensures '\n' !in ColsSuffix(cols, ell) && '\n' !in RowsSuffix(rows)
  {
    DigitsWithout(NatToString(cols - ShownCols(cols)), '\n');
    DigitsWithout(NatToString(rows - ShownRows(rows)), '\n');
  }

  lemma ShownLineNoNewline(cells: seq<string>, w: nat, cols: nat, ell: string)
    requires '\n' !in ell
    requires forall c | 0 <= c < |cells| :: '\n' !in cells[c]
    ensures '\n' !in ShownLine(cells, w, cols, ell)
  {
    RenderCellsWithout(cells, w, '\n');
    SuffixesNoNewline(0, cols, ell);
  }

  lemma SummaryNoNewline(rows: nat, cols: nat, w: nat, ell: string)
    requires '\n' !in ell
    ensures '\n' !in SummaryLine(rows, cols, w, ell)
  {
    RenderCellsWithout(Ellipses(ShownCols(cols), ell), w, '\n');
    SuffixesNoNewline(rows, cols, ell);
  }

  lemma ShownRowNoNewline<T>(m: Matrix<T>, show: T -> string, r: nat, ell: string)
    requires m.Valid() && r < ShownRows(m.rows) && '\n' !in ell
    requires forall c | 0 <= c < ShownCols(m.cols) :: '\n' !in show(m.Get(r, c))
    ensures '\n' !in ShownLine(ShowGrid(m, show)[r][..ShownCols(m.cols)], Width(m, show, ell), m.cols, ell)
  {
    var cells := ShowGrid(m, show)[r][..ShownCols(m.cols)];
    forall c | 0 <= c < |cells| ensures '\n' !in cells[c] {
      assert cells[c] == show(m.Get(r, c));
    }
    ShownLineNoNewline(cells, Width(m, show, ell), m.cols, ell);
  }

  lemma ShownLinesNoNewline<T>(m: Matrix<T>, show: T -> string, ell: string)
    requires m.Valid() && '\n' !in ell
    requires forall r, c | 0 <= r < ShownRows(m.rows) && 0 <= c < ShownCols(m.cols) :: '\n' !in show(m.Get(r, c))
    ensures NoNewline(ShownLines(Window(ShowGrid(m, show), ShownRows(m.rows), ShownCols(m.cols)), Width(m, show, ell), m.cols, ell))
  {
    var win := Window(ShowGrid(m, show), ShownRows(m.rows), ShownCols(m.cols));
    forall r | 0 <= r < |win| ensures '\n' !in ShownLine(win[r], Width(m, show, ell), m.cols, ell) {
      ShownRowNoNewline(m, show, r, ell);
    }
  }

  lemma NoNewlineParts(h: string, shown: seq<string>, summary: string, cut: bool)
    requires '\n' !in h && NoNewline(shown) && '\n' !in summary
    ensures NoNewline([h] + shown + (if cut then [summary] else []))
  {
  }

  lemma DebugLinesNoNewline<T>(m: Matrix<T>, show: T -> string, ell: string)
    requires m.Valid() && '\n' !in ell
    requires forall r, c | 0 <= r < ShownRows(m.rows) && 0 <= c < ShownCols(m.cols) :: '\n' !in show(m.Get(r, c))
    ensures NoNewline(DebugLines(m, show, ell))
  {
    HeaderNoNewline(m.rows, m.cols);
    if m.rows > 0 && m.cols > 0 {
      BodyNoNewline(m, show, ell);
    } else {
      assert '\n' !in "[]";
    }
  }

  lemma BodyNoNewline<T>(m: Matrix<T>, show: T -> string, ell: string)
    requires m.Valid() && m.rows > 0 && m.cols > 0 && '\n' !in ell
    requires forall r, c | 0 <= r < ShownRows(m.rows) && 0 <= c < ShownCols(m.cols) :: '\n' !in show(m.Get(r, c))
    ensures NoNewline(DebugLines(m, show, ell))
  {
    var w := Width(m, show, ell);
    var shown := ShownLines(Window(ShowGrid(m, show), ShownRows(m.rows), ShownCols(m.cols)), w, m.cols, ell);
    HeaderNoNewline(m.rows, m.cols);
    ShownLinesNoNewline(m, show, ell);
    SummaryNoNewline(m.rows, m.cols, w, ell);
    NoNewlineParts(Header(m.rows, m.cols), shown, SummaryLine(m.rows, m.cols, w, ell), m.rows > MaxRows);
    DebugLinesAre(m, show, ell);
  }

  /** When no shown cell's string has a line break, reading the output back
      with `lines()` gives the header and a body of min(R, 6) rows plus one
      summary row when R > 6: never more than 7 body lines, and exactly the
      one line "[]" when the matrix has no cells. Cells outside the shown
      window do not matter. */
  lemma DebugLineCount<T>(m: Matrix<T>, show: T -> string, ell: string)
    requires m.Valid() && '\n' !in ell
    requires forall r, c | 0 <= r < ShownRows(m.rows) && 0 <= c < ShownCols(m.cols) :: '\n' !in show(m.Get(r, c))
    ensures Lines(DebugText(m, show, ell)) == DebugLines(m, show, ell)
    ensures m.rows == 0 || m.cols == 0 ==> DebugLines(m, show, ell) == [Header(m.rows, m.cols), "[]"]
    ensures m.rows > 0 && m.cols > 0 ==>
      |DebugLines(m, show, ell)| == 1 + Min(m.rows, MaxRows) + (if m.rows > MaxRows then 1 else 0)
    ensures |DebugLines(m, show, ell)| <= 1 + MaxRows + 1
  {
    DebugLinesNoNewline(m, show, ell);
    LinesOfUnlines(DebugLines(m, show, ell));
    if m.rows > 0 && m.cols > 0 {
      DebugLinesParts(m, show, ell);
    }
  }

  // ---------------------------------------------------------------------------
  // The width

  /** `maxw` is at least the ellipsis's `len()` and every shown cell's, and
      it is one of those: the widest of the shown window and the ellipsis. */
  lemma DebugWidth<T>(m: Matrix<T>, show: T -> string, ell: string)
    requires m.Valid()
    ensures Width(m, show, ell) >= Utf8Len(ell)
    ensures forall r, c | 0 <= r < ShownRows(m.rows) && 0 <= c < ShownCols(m.cols) :: Utf8Len(show(m.Get(r, c))) <= Width(m, show, ell)
    ensures Width(m, show, ell) == Utf8Len(ell) ||
      exists r, c | 0 <= r < ShownRows(m.rows) && 0 <= c < ShownCols(m.cols) :: Utf8Len(show(m.Get(r, c))) == Width(m, show, ell)
  {
    var g, sr, sc := ShowGrid(m, show), ShownRows(m.rows), ShownCols(m.cols);
    GridMaxBound(g, sr, sc);
    forall r, c | 0 <= r < sr && 0 <= c < sc ensures Utf8Len(show(m.Get(r, c))) <= Width(m, show, ell) {
      assert g[r][c] == show(m.Get(r, c));
    }
    if sr > 0 && sc > 0 && Utf8Len(ell) < GridMax(g, sr, sc) {
      GridMaxAttained(g, sr, sc);
      var r, c :| 0 <= r < sr && 0 <= c < sc && Utf8Len(g[r][c]) == GridMax(g, sr, sc);
      assert g[r][c] == show(m.Get(r, c));
    }
  }

  /** The ellipsis is one character, three bytes in UTF-8; so `maxw` is at
      least 3 and a padded ellipsis has two spaces or more before it. */
  lemma EllipsisSize()
    ensures |Ellipsis| == 1 && Utf8Len(Ellipsis) == 3
  {
    assert Ellipsis[..0] == [];
  }

  /** The placeholder as line 87 of matrix.rs spells it: the three UTF-8
      bytes of U+2026 each read as a Windows-1252 character (U+00E2, U+20AC,
      U+00A6) and stored again as UTF-8. */
  const MisencodedEllipsis: string := "\U{00E2}\U{20AC}\U{00A6}"

  /** The literal as written is three characters and seven bytes, not the
      one-character, three-byte ellipsis, so `maxw` is never below 7
      (`OneCellAsWritten` shows what that does to a row). */
  lemma MisencodedEllipsisSize()
    ensures |MisencodedEllipsis| == 3 && Utf8Len(MisencodedEllipsis) == 7
    ensures MisencodedEllipsis != Ellipsis
  {
    var s := MisencodedEllipsis;
    assert s[..2][..1] == s[..1] && s[..1][..0] == [];
    assert s[..0] == [];
    EllipsisSize();
  }

  /** The shown window of g is fixed by g's cells inside it. */
  lemma WindowAgrees(g: seq<seq<string>>, h: seq<seq<string>>, nr: nat, nc: nat)
    requires Covers(g, nr, nc) && Covers(h, nr, nc)
    requires forall r, c | 0 <= r < nr && 0 <= c < nc :: g[r][c] == h[r][c]
    ensures Window(g, nr, nc) == Window(h, nr, nc)
    ensures GridMax(g, nr, nc) == GridMax(h, nr, nc)
  {
    GridMaxMonotone(g, h, nr, nc);
    GridMaxMonotone(h, g, nr, nc);
    forall r | 0 <= r < nr ensures g[r][..nc] == h[r][..nc] {
      assert forall c | 0 <= c < nc :: g[r][..nc][c] == h[r][..nc][c];
    }
  }

  /** The diagnostic render reads the shown window only: two matrices of the
      same shape that agree on their first 6 x 8 cells render the same. */
  lemma DebugReadsWindowOnly<T>(m: Matrix<T>, m': Matrix<T>, show: T -> string, ell: string)
    requires m.Valid() && m'.Valid() && m.rows == m'.rows && m.cols == m'.cols
    requires forall r, c | 0 <= r < ShownRows(m.rows) && 0 <= c < ShownCols(m.cols) :: m.Get(r, c) == m'.Get(r, c)
    ensures DebugText(m, show, ell) == DebugText(m', show, ell)
  {
    var g, h, sr, sc := ShowGrid(m, show), ShowGrid(m', show), ShownRows(m.rows), ShownCols(m.cols);
    forall r, c | 0 <= r < sr && 0 <= c < sc ensures g[r][c] == h[r][c] {
      assert g[r][c] == show(m.Get(r, c)) && h[r][c] == show(m'.Get(r, c));
    }
    WindowAgrees(g, h, sr, sc);
  }

  // ---------------------------------------------------------------------------
  // The lines

  /** The cells of a shown row fit in `maxw`. */
  lemma ShownRowFits<T>(m: Matrix<T>, show: T -> string, r: nat, ell: string)
    requires m.Valid() && r < ShownRows(m.rows)
    ensures FitIn(ShowGrid(m, show)[r][..ShownCols(m.cols)], Width(m, show, ell))
  {
    var cells := ShowGrid(m, show)[r][..ShownCols(m.cols)];
    DebugWidth(m, show, ell);
    forall c | 0 <= c < |cells| ensures Utf8Len(cells[c]) <= Width(m, show, ell) {
      assert cells[c] == show(m.Get(r, c));
    }
  }

  /** The shape of a shown line with cells that fit. */
  lemma ShownLineShape(cells: seq<string>, w: nat, cols: nat, ell: string)
    requires cols > 0 && |cells| == ShownCols(cols) && FitIn(cells, w)
    ensures var line := ShownLine(cells, w, cols, ell);
      && |line| == 2 + |cells| * w + (|cells| - 1) + |ColsSuffix(cols, ell)|
      && line[|line| - 1] == ']'
  {
    RenderCellsLength(cells, w);
  }

  /** A shown line closes with the cols marker when columns were cut, and with
      a bare "]" after its cells otherwise. */
  lemma ShownLineCloses(line: string, cells: seq<string>, w: nat, cols: nat, ell: string)
    requires line == ShownLine(cells, w, cols, ell)
    ensures cols > MaxCols ==> EndsWith(line, ColsMarker(cols, ell))
    ensures cols <= MaxCols ==> line == "[" + RenderCells(cells, w) + "]"
  {
    Regroup("[", RenderCells(cells, w), ColsSuffix(cols, ell), "]");
    EndsWithAppend("[" + RenderCells(cells, w), ColsSuffix(cols, ell) + "]");
    CloseMarker(cols, ell);
  }

  lemma CloseMarker(cols: nat, ell: string)
    ensures cols > MaxCols ==> ColsSuffix(cols, ell) + "]" == ColsMarker(cols, ell)
    ensures cols <= MaxCols ==> ColsSuffix(cols, ell) == ""
  {
    var e, n := ell, NatToString(cols - ShownCols(cols));
    assert " " + e + " (+" + n + " cols)" + "]" == " " + e + " (+" + n + " cols)]" by {
      assert " cols)" + "]" == " cols)]";
    }
  }

  /** Each shown row r: "[", its first min(C, 8) cells padded to `maxw`, the
      cols suffix, "]"; every shown row has the same length, and it ends with
      " … (+{C - 8} cols)]" when C > 8 and has no suffix otherwise. */
  lemma DebugRowShape<T>(m: Matrix<T>, show: T -> string, r: nat, ell: string)
    requires m.Valid() && m.cols > 0 && r < ShownRows(m.rows)
    ensures var line, w := DebugLines(m, show, ell)[1 + r], Width(m, show, ell);
      && line == "[" + RenderCells(ShowGrid(m, show)[r][..ShownCols(m.cols)], w) + ColsSuffix(m.cols, ell) + "]"
      && ShownCols(m.cols) <= MaxCols
      && |line| == 2 + ShownCols(m.cols) * w + (ShownCols(m.cols) - 1) + |ColsSuffix(m.cols, ell)|
      && (m.cols > MaxCols ==> EndsWith(line, ColsMarker(m.cols, ell)))
      && (m.cols <= MaxCols ==> line == "[" + RenderCells(ShowGrid(m, show)[r][..ShownCols(m.cols)], w) + "]")
  {
    var cells, w := ShowGrid(m, show)[r][..ShownCols(m.cols)], Width(m, show, ell);
    ShownRowFits(m, show, r, ell);
    ShownLineShape(cells, w, m.cols, ell);
    DebugRowIs(m, show, r, ell);
    ShownLineCloses(DebugLines(m, show, ell)[1 + r], cells, w, m.cols, ell);
  }

  /** A shown line ends with a cols marker only when columns were cut, if no
      cell has a '(' that could fake one. */
  lemma ShownLineSuffixIff(line: string, cells: seq<string>, w: nat, cols: nat, ell: string)
    requires line == ShownLine(cells, w, cols, ell)
    requires forall c | 0 <= c < |cells| :: '(' !in cells[c]
    ensures EndsWith(line, ColsMarker(cols, ell)) <==> cols > MaxCols
  {
    ShownLineCloses(line, cells, w, cols, ell);
    if cols <= MaxCols {
      RenderCellsWithout(cells, w, '(');
      EndsWithHas(line, ColsMarker(cols, ell), |ell| + 2);
      assert ColsMarker(cols, ell)[|ell| + 2] == '(';
    }
  }

  /** The converse: a shown row ends with a cols marker only when C > 8,
      provided no shown cell of the row has a '(' that could fake one. */
  lemma DebugRowSuffixIff<T>(m: Matrix<T>, show: T -> string, r: nat, ell: string)
    requires m.Valid() && m.cols > 0 && r < ShownRows(m.rows)
    requires forall c | 0 <= c < ShownCols(m.cols) :: '(' !in show(m.Get(r, c))
    ensures EndsWith(DebugLines(m, show, ell)[1 + r], ColsMarker(m.cols, ell)) <==> m.cols > MaxCols
  {
    var cells := ShowGrid(m, show)[r][..ShownCols(m.cols)];
    forall c | 0 <= c < |cells| ensures '(' !in cells[c] {
      assert cells[c] == show(m.Get(r, c));
    }
    DebugRowIs(m, show, r, ell);
    ShownLineSuffixIff(DebugLines(m, show, ell)[1 + r], cells, Width(m, show, ell), m.cols, ell);
  }

  /** The summary line's last characters. */
  lemma SummaryEnds(rows: nat, cols: nat, w: nat, ell: string)
    ensures var line := SummaryLine(rows, cols, w, ell);
      && line[|line| - 1] == ')'
      && EndsWith(line, RowsSuffix(rows))
  {
    var front := "[" + RenderCells(Ellipses(ShownCols(cols), ell), w) + ColsSuffix(cols, ell);
    EndsWithAppend(front, RowsSuffix(rows));
  }

  lemma ShownLineEnds(cells: seq<string>, w: nat, cols: nat, ell: string)
    ensures var line := ShownLine(cells, w, cols, ell); |line| > 0 && line[|line| - 1] == ']'
  {
  }

  /** The summary row: present exactly when R > 6, as the last line, after
      the min(R, 6) shown rows; it holds min(C, 8) padded ellipses, then the
      cols suffix, and ends with "] (+{R - 6} rows)". Every shown row ends
      with ']', the summary row with ')'. */
  lemma DebugSummary<T>(m: Matrix<T>, show: T -> string, ell: string)
    requires m.Valid() && m.rows > 0 && m.cols > 0
    ensures var ls := DebugLines(m, show, ell);
      && |ls| == 1 + ShownRows(m.rows) + (if m.rows > MaxRows then 1 else 0)
      && (forall i | 1 <= i <= ShownRows(m.rows) :: |ls[i]| > 0 && ls[i][|ls[i]| - 1] == ']')
      && (m.rows > MaxRows ==>
            && ls[|ls| - 1] == SummaryLine(m.rows, m.cols, Width(m, show, ell), ell)
            && ls[|ls| - 1][|ls[|ls| - 1]| - 1] == ')'
            && EndsWith(ls[|ls| - 1], RowsSuffix(m.rows)))
  {
    DebugLinesParts(m, show, ell);
    forall i | 1 <= i <= ShownRows(m.rows) ensures |DebugLines(m, show, ell)[i]| > 0 && DebugLines(m, show, ell)[i][|DebugLines(m, show, ell)[i]| - 1] == ']' {
      ShownRowEndsAt(m, show, i, ell);
    }
    if m.rows > MaxRows {
      SummaryLast(m, show, ell);
    }
  }

  lemma ShownRowEndsAt<T>(m: Matrix<T>, show: T -> string, i: nat, ell: string)
    requires m.Valid() && m.cols > 0 && 1 <= i <= ShownRows(m.rows)
    ensures var ls := DebugLines(m, show, ell); i < |ls| && |ls[i]| > 0 && ls[i][|ls[i]| - 1] == ']'
  {
    ShownLineEnds(ShowGrid(m, show)[i - 1][..ShownCols(m.cols)], Width(m, show, ell), m.cols, ell);
    DebugRowIs(m, show, i - 1, ell);
  }

  lemma SummaryLast<T>(m: Matrix<T>, show: T -> string, ell: string)
    requires m.Valid() && m.rows > MaxRows && m.cols > 0
    ensures var ls := DebugLines(m, show, ell);
      && |ls| == 2 + MaxRows
      && ls[|ls| - 1] == SummaryLine(m.rows, m.cols, Width(m, show, ell), ell)
      && ls[|ls| - 1][|ls[|ls| - 1]| - 1] == ')'
      && EndsWith(ls[|ls| - 1], RowsSuffix(m.rows))
  {
    SummaryEnds(m.rows, m.cols, Width(m, show, ell), ell);
    DebugLinesParts(m, show, ell);
  }

  /** The summary row's cells read back as exactly min(C, 8) ellipses, and
      each is padded to exactly `maxw` characters. */
  lemma SummaryCells<T>(m: Matrix<T>, show: T -> string, ell: string)
    requires m.Valid() && Placeholder(ell)
    ensures var marks, w := Ellipses(ShownCols(m.cols), ell), Width(m, show, ell);
      && DropEmpty(Split(RenderCells(marks, w), ' ')) == marks
      && (m.cols > 0 ==> |RenderCells(marks, w)| == ShownCols(m.cols) * w + ShownCols(m.cols) - 1)
  {
    var marks, w := Ellipses(ShownCols(m.cols), ell), Width(m, show, ell);
    DebugWidth(m, show, ell);
    RenderCellsTokens(marks, w);
    if m.cols > 0 {
      RenderCellsLength(marks, w);
    }
  }

  /** A shown row's cells read back as its first min(C, 8) cell strings, when
      those are non-empty and have no space in them. */
  lemma DebugRowTokens<T>(m: Matrix<T>, show: T -> string, r: nat, ell: string)
    requires m.Valid() && m.cols > 0 && r < ShownRows(m.rows)
    requires forall c | 0 <= c < ShownCols(m.cols) :: show(m.Get(r, c)) != "" && ' ' !in show(m.Get(r, c))
    ensures var cells := ShowGrid(m, show)[r][..ShownCols(m.cols)];
      && |cells| <= MaxCols
      && DropEmpty(Split(RenderCells(cells, Width(m, show, ell)), ' ')) == cells
  {
    var cells := ShowGrid(m, show)[r][..ShownCols(m.cols)];
    forall c | 0 <= c < |cells| ensures cells[c] != "" && ' ' !in cells[c] {
      assert cells[c] == show(m.Get(r, c));
    }
    RenderCellsTokens(cells, Width(m, show, ell));
  }

  // ---------------------------------------------------------------------------
  // Two concrete shapes

  /** A shown row closes with the cols marker when C > 8, and is its cells
      between bare brackets otherwise. */
  lemma ShownRowCloses<T>(m: Matrix<T>, show: T -> string, r: nat, ell: string)
    requires m.Valid() && m.cols > 0 && r < ShownRows(m.rows)
    ensures 1 + r < |DebugLines(m, show, ell)|
    ensures m.cols > MaxCols ==> EndsWith(DebugLines(m, show, ell)[1 + r], ColsMarker(m.cols, ell))
    ensures m.cols <= MaxCols ==>
      DebugLines(m, show, ell)[1 + r] == "[" + RenderCells(ShowGrid(m, show)[r][..ShownCols(m.cols)], Width(m, show, ell)) + "]"
  {
    DebugRowIs(m, show, r, ell);
    ShownLineCloses(DebugLines(m, show, ell)[1 + r], ShowGrid(m, show)[r][..ShownCols(m.cols)], Width(m, show, ell), m.cols, ell);
  }

  /** A 10 x 10 matrix: both flags in the header, six shown rows each ending
      " {ell} (+2 cols)]", and a summary row ending "] (+4 rows)". */
  lemma DebugTenByTen<T>(m: Matrix<T>, show: T -> string, ell: string)
    requires m.Valid() && m.rows == 10 && m.cols == 10
    ensures Occurs(Header(10, 10), ", rows_truncated") && Occurs(Header(10, 10), ", cols_truncated")
    ensures |DebugLines(m, show, ell)| == 1 + 6 + 1
    ensures forall i | 1 <= i <= 6 :: EndsWith(DebugLines(m, show, ell)[i], " " + ell + " (+2 cols)]")
    ensures EndsWith(DebugLines(m, show, ell)[7], "] (+4 rows)")
  {
    HeaderRowsFlag(10, 10);
    HeaderColsFlag(10, 10);
    SummaryLast(m, show, ell);
    TenByTenSuffixes(ell);
    TenByTenRows(m, show, ell);
  }

  lemma TenByTenRows<T>(m: Matrix<T>, show: T -> string, ell: string)
    requires m.Valid() && m.rows == 10 && m.cols == 10
    ensures |DebugLines(m, show, ell)| > 6
    ensures forall i | 1 <= i <= 6 :: EndsWith(DebugLines(m, show, ell)[i], " " + ell + " (+2 cols)]")
  {
    forall i | 1 <= i <= 6 ensures i < |DebugLines(m, show, ell)| && EndsWith(DebugLines(m, show, ell)[i], " " + ell + " (+2 cols)]") {
      TenByTenRow(m, show, i, ell);
    }
  }

  lemma TenByTenRow<T>(m: Matrix<T>, show: T -> string, i: nat, ell: string)
    requires m.Valid() && m.rows == 10 && m.cols == 10 && 1 <= i <= 6
    ensures i < |DebugLines(m, show, ell)| && EndsWith(DebugLines(m, show, ell)[i], " " + ell + " (+2 cols)]")
  {
    TenByTenSuffixes(ell);
    ShownRowCloses(m, show, i - 1, ell);
  }

  lemma TenByTenSuffixes(ell: string)
    ensures ColsMarker(10, ell) == " " + ell + " (+2 cols)]"
    ensures RowsSuffix(10) == "] (+4 rows)"
  {
    assert NatToString(2) == "2" && NatToString(4) == "4";
  }

  /** A 3 x 4 matrix: the header "Matrix<_, 3, 4> { rows: 3, cols: 4 }",
      with no flag, and exactly three body lines, each the whole row between
      brackets with no suffix. */
  lemma DebugThreeByFour<T>(m: Matrix<T>, show: T -> string, ell: string)
    requires m.Valid() && m.rows == 3 && m.cols == 4
    ensures Header(3, 4) == "Matrix<_, " + "3" + ", " + "4" + "> { rows: " + "3" + ", cols: " + "4" + " }"
    ensures !Occurs(Header(3, 4), ", rows_truncated") && !Occurs(Header(3, 4), ", cols_truncated")
    ensures |DebugLines(m, show, ell)| == 1 + 3
    ensures forall i | 1 <= i <= 3 :: DebugLines(m, show, ell)[i] == "[" + RenderCells(ShowGrid(m, show)[i - 1], Width(m, show, ell)) + "]"
  {
    ThreeByFourHeader();
    HeaderRowsFlag(3, 4);
    HeaderColsFlag(3, 4);
    DebugLinesParts(m, show, ell);
    forall i | 1 <= i <= 3 ensures DebugLines(m, show, ell)[i] == "[" + RenderCells(ShowGrid(m, show)[i - 1], Width(m, show, ell)) + "]" {
      ThreeByFourRow(m, show, i, ell);
    }
  }

  lemma ThreeByFourRow<T>(m: Matrix<T>, show: T -> string, i: nat, ell: string)
    requires m.Valid() && m.rows == 3 && m.cols == 4 && 1 <= i <= 3
    ensures i < |DebugLines(m, show, ell)|
    ensures DebugLines(m, show, ell)[i] == "[" + RenderCells(ShowGrid(m, show)[i - 1], Width(m, show, ell)) + "]"
  {
    var row := ShowGrid(m, show)[i - 1];
    assert |row| == ShownCols(m.cols);
    WholeRow(row);
    ShownRowCloses(m, show, i - 1, ell);
  }

  /** A full slice is the row itself. Dafny's own
      sequence axioms prove it; it stands apart so that the prover meets it
      as a small goal, not inside a large context. */
  lemma WholeRow(row: seq<string>)
    ensures row[..|row|] == row
  {
  }

  lemma ThreeByFourHeader()
    ensures Header(3, 4) == "Matrix<_, " + "3" + ", " + "4" + "> { rows: " + "3" + ", cols: " + "4" + " }"
  {
    assert NatToString(3) == "3" && NatToString(4) == "4";
  }

  /** A 1 x 1 matrix whose cell shows as "5": the header, then the cell padded
      to the wider of "5" and the placeholder, between brackets. */
  lemma DebugOneCell<T>(m: Matrix<T>, show: T -> string, ell: string)
    requires m.Valid() && m.rows == 1 && m.cols == 1 && show(m.Get(0, 0)) == "5"
    ensures DebugLines(m, show, ell) == [Header(1, 1), "[" + PadLeft("5", Max(1, Utf8Len(ell))) + "]"]
  {
    var w := Width(m, show, ell);
    var win := Window(ShowGrid(m, show), 1, 1);
    OneCellWindow(m, show, ell);
    OneCellLine(w, ell);
    assert ShownLines(win, w, 1, ell) == [ShownLine(["5"], w, 1, ell)];
    DebugLinesAre(m, show, ell);
  }

  lemma OneCellWindow<T>(m: Matrix<T>, show: T -> string, ell: string)
    requires m.Valid() && m.rows == 1 && m.cols == 1 && show(m.Get(0, 0)) == "5"
    ensures Window(ShowGrid(m, show), 1, 1) == [["5"]]
    ensures Width(m, show, ell) == Max(1, Utf8Len(ell))
  {
    var g := ShowGrid(m, show);
    assert g[0][..1] == ["5"];
    assert Utf8Len("5") == 1 by {
      assert "5"[..0] == [];
    }
    assert GridMax(g, 1, 1) == 1;
  }

  lemma OneCellLine(w: nat, ell: string)
    ensures ShownLine(["5"], w, 1, ell) == "[" + PadLeft("5", w) + "]"
  {
    assert RenderCells(["5"], w) == PadLeft("5", w);
    assert ColsSuffix(1, ell) == "";
  }

  /** The code as written: the seven-byte literal widens `maxw` to 7, so the
      row of a 1 x 1 matrix holding 5 is "[      5]". */
  lemma OneCellAsWritten<T>(m: Matrix<T>, show: T -> string)
    requires m.Valid() && m.rows == 1 && m.cols == 1 && show(m.Get(0, 0)) == "5"
    ensures Width(m, show, MisencodedEllipsis) == 7
    ensures DebugLines(m, show, MisencodedEllipsis)[1] == "[      5]"
  {
    MisencodedEllipsisSize();
    DebugOneCell(m, show, MisencodedEllipsis);
  }

  /** As intended: the three-byte ellipsis gives `maxw` 3 and the row "[  5]". */
  lemma OneCellIntended<T>(m: Matrix<T>, show: T -> string)
    requires m.Valid() && m.rows == 1 && m.cols == 1 && show(m.Get(0, 0)) == "5"
    ensures Width(m, show, Ellipsis) == 3
    ensures DebugLines(m, show, Ellipsis)[1] == "[  5]"
  {
    EllipsisSize();
    DebugOneCell(m, show, Ellipsis);
  }

  /** Both spellings of the placeholder meet what the general lemmas ask. */
  lemma PlaceholdersValid()
    ensures Placeholder(Ellipsis) && Placeholder(MisencodedEllipsis)
  {
  }
}
