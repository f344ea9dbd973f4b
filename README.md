# Matrix rendering, modelled in Dafny

This project models `src/shared/matrix.rs`, a fixed-size `Matrix<T, R, C>` container with two text renderers:

- `Matrix::new` fills every cell with `T::default()` and `get` reads one cell.
- `Display::fmt` is the full rendering. It writes a header `"{R}x{C} Matrix:"` and then one bracketed line per row. Every cell is right-aligned to a single width `maxw`, the largest `len()` of any cell, and cells are separated by single spaces. A matrix with no cells renders as the one line `"{R}x{C} Matrix: []"`.
- `Debug::fmt` is the diagnostic rendering. It writes a metadata header `Matrix<_, R, C> { rows: R, cols: C[, rows_truncated][, cols_truncated] }`, then at most 6 rows of at most 8 cells each.
  - A row whose columns were cut ends with ` … (+N cols)`.
  - When rows were cut, a final summary row of ellipses follows, ending `] (+M rows)`.
  - Here `maxw` is computed over the shown 6 × 8 window only, and it is never less than the ellipsis's `len()`.
  - A matrix with no cells renders as the header and `[]`.

## How the model is built

- **Modules.** There is one module per concern:
  - `Matrices` (matrix.dfy) is the container.
  - `Layout` (layout.dfy) holds what both renderers share: the display strings of the cells, the width scan and a row of padded cells.
  - `Display` (display.dfy) and `Debug` (debug.dfy) are the two renderers.
  - `Strings` (strings.dfy) holds the string functions they rely on.
- **The container.** The const generics `R` and `C` become the fields `rows` and `cols` of a `Matrix` datatype. `Valid()` says the nested `data` sequence has that shape.
- **Element formatting.** `format!("{}", x)` on an element is a parameter `show: T -> string`.
- **Each renderer is two things:**
  - an imperative `method Fmt` that appends to the output string piece by piece, in the same order as the `write!` calls, with the same loops;
  - a function (`DisplayText`, `DebugText`) that says what the whole output is, built from its lines (`DisplayLines`, `DebugLines`) joined with `'\n'`.

  Each `Fmt` is proved equal to its function, and the properties are lemmas about the functions.
- **`len()` is bytes, padding is characters.** `len()` is modelled as the UTF-8 byte length (`Utf8Len`). `{:>width$}` counts characters, so `PadLeft` pads to the character count `|s|`. The two agree exactly on ASCII strings (`Strings.Utf8LenAscii`).
- **The ellipsis.** The placeholder bound on line 87 is a parameter `ell` of the Debug renderer. There are two values for it.
  - `Debug.Ellipsis` is the intended U+2026 HORIZONTAL ELLIPSIS: one character, three bytes, so `maxw >= 3` (`Debug.EllipsisSize`).
  - `Debug.MisencodedEllipsis` is the literal as line 87 spells it: three characters, seven bytes (`Debug.MisencodedEllipsisSize`). See "## Findings".

  The general lemmas hold for any non-empty `ell` without a space or a line break (`Debug.Placeholder`), which both values are (`Debug.PlaceholdersValid`).
- **Reading output back.** `Lines` models `str::lines()`, which splits on `'\n'` and does not count an empty piece after the final line break. `Split` on `' '` plus `DropEmpty` models the test's `split(' ').filter(|t| !t.is_empty())`.

## Model

| member | source | states |
|---|---|---|
| Matrices.New | src/shared/matrix.rs:10-14 | `new()` gives an R x C matrix in which every cell read with `get` is the default value |
| Layout.ScanWidth | src/shared/matrix.rs:30-36 | the nested scan leaves `maxw` equal to GridMax of the scanned window, i.e. the largest `len()` of its cells and 0 for an empty window |
| Layout.GridMaxBound | src/shared/matrix.rs:30-36 | no scanned cell has a `len()` above `maxw`, and an empty window gives 0 |
| Layout.GridMaxAttained | src/shared/matrix.rs:30-36 | some cell of a non-empty window has `len()` equal to `maxw`, so it is the maximum and not just an upper bound |
| Layout.GridMaxMonotone | src/shared/matrix.rs:30-36 | making any cell's string longer never lowers `maxw` |
| Layout.WriteCells | src/shared/matrix.rs:41-47 | the cell loop appends exactly the row's first n cells, each right-aligned to w, with one space before every cell but the first |
| Layout.PaddedCellWidth | src/shared/matrix.rs:45-46 | a cell whose `len()` is at most `maxw` is written as exactly `maxw` characters: spaces, then the cell |
| Layout.RenderCellsLength | src/shared/matrix.rs:41-47 | n cells that fit in width w take n*w characters plus n-1 separators |
| Layout.RenderCellsWithout | src/shared/matrix.rs:41-47 | padding and separators add only spaces: any other character of a rendered row comes from a cell |
| Layout.RenderCellsTokens | src/shared/matrix.rs:41-47 | splitting a rendered row on ' ' and dropping empty pieces gives back its cells in column order, when each cell is non-empty and has no space |
| Display.Fmt | src/shared/matrix.rs:22-52 | the output written is exactly DisplayText: the header line, then one bracketed line per row, each followed by '\n' |
| Display.DegenerateRender | src/shared/matrix.rs:24-27 | with R = 0 or C = 0 the output is exactly "{R}x{C} Matrix: []\n", which `lines()` reads as that single line |
| Display.RenderStartsWithDims | src/shared/matrix.rs:25 | the output begins with "{R}x{C}" |
| Display.RenderLineCount | src/shared/matrix.rs:38-49 | when no cell string holds '\n', `lines()` gives back the header and one line per row: 1 + R lines, or 1 when there are no cells |
| Display.RenderRowShape | src/shared/matrix.rs:39-49 | data line r is '[', row r's cells padded to `maxw`, then ']'; every data line has length 2 + C*maxw + (C-1) |
| Display.RenderRowTokens | src/shared/matrix.rs:40-48 | inside the brackets of data line r, the non-empty space-separated tokens are exactly row r's C cell strings, in order, when each is non-empty and space-free |
| Strings.ParseNatToString | src/shared/matrix.rs:68 | `{}` on a dimension yields decimal digits that read back as that number |
| Strings.Utf8LenAscii | src/shared/matrix.rs:34 | `len()` equals the character count exactly when the string is all ASCII |
| Strings.LinesOfUnlines | src/shared/matrix.rs:207 | reading text written line by line back with `lines()` gives the lines written, when none of them holds '\n' |
| Strings.JoinSplit | src/shared/matrix.rs:214 | joining the pieces of `split(' ')` with ' ' gives back the string |
| Strings.SplitJoin | src/shared/matrix.rs:214 | splitting pieces joined with ' ' gives back the pieces, when none holds a space |
| Debug.Fmt | src/shared/matrix.rs:55-123 | for any placeholder `ell`, the output written is exactly DebugText: header, then "[]" when there are no cells, otherwise the shown rows and the summary row when rows were cut |
| Debug.WriteShownRows | src/shared/matrix.rs:90-104 | the shown-rows loop appends one line per shown row, rows 0 to min(R, 6) - 1 in order |
| Debug.WriteShownRow | src/shared/matrix.rs:92-103 | one shown row is '[', its first min(C, 8) cells padded to `maxw`, the cols suffix, "]\n" |
| Debug.WriteColsSuffix | src/shared/matrix.rs:100-102 | " {ell} (+{C - 8} cols)" is appended exactly when columns were cut, and nothing otherwise |
| Debug.WriteSummary | src/shared/matrix.rs:107-119 | the summary block appends '[', the padded ellipses, the cols suffix, "] (+{R - 6} rows)" and '\n' |
| Debug.WriteMarks | src/shared/matrix.rs:109-114 | the summary's cell loop appends n ellipses, each right-aligned to w, one space apart |
| Debug.HeaderRowsFlag | src/shared/matrix.rs:66-71 | the header contains ", rows_truncated" if and only if R > 6 |
| Debug.HeaderColsFlag | src/shared/matrix.rs:66-71 | the header contains ", cols_truncated" if and only if C > 8 |
| Debug.RowsFlagAt | src/shared/matrix.rs:68-69 | when R > 6 the rows flag sits right after the "rows: R, cols: C" fields |
| Debug.HeaderFlagOrder | src/shared/matrix.rs:66-71 | when both flags appear, the rows flag comes before the cols flag |
| Debug.DebugDegenerate | src/shared/matrix.rs:73-76 | with R = 0 or C = 0 the output is the header line and then "[]\n", and nothing else |
| Debug.DebugLineCount | src/shared/matrix.rs:91-119 | when no shown cell holds '\n', `lines()` gives back the lines written: header and "[]" with no cells, otherwise 1 + min(R, 6) lines plus one when R > 6, never more than 8 |
| Debug.DebugWidth | src/shared/matrix.rs:79-88 | `maxw` is at least `ell.len()` and every shown cell's `len()`, and equals one of them |
| Debug.EllipsisSize | src/shared/matrix.rs:87-88 | the intended placeholder is one character and three bytes, so `maxw` >= 3 |
| Debug.PlaceholdersValid | src/shared/matrix.rs:87 | both the intended ellipsis and the literal as written are non-empty and hold no space and no line break, so every general lemma applies to either |
| Debug.DebugReadsWindowOnly | src/shared/matrix.rs:78-85 | two matrices of the same shape that agree on their first 6 x 8 cells render identically |
| Debug.DebugRowShape | src/shared/matrix.rs:91-104 | shown row r is '[', at most 8 cells padded to `maxw`, the cols suffix, ']'; all shown rows have one length; the row ends with " {ell} (+{C-8} cols)]" when C > 8 and has no suffix otherwise |
| Debug.DebugRowSuffixIff | src/shared/matrix.rs:100-103 | a shown row ends with the cols marker if and only if C > 8 (when its cells have no '(') |
| Debug.DebugSummary | src/shared/matrix.rs:106-119 | the body is min(R, 6) shown rows, each ending ']', plus, exactly when R > 6, a last summary row ending ')' and "] (+{R - 6} rows)" |
| Debug.SummaryCells | src/shared/matrix.rs:108-114 | the summary row's cells read back as exactly min(C, 8) ellipses, and they take min(C, 8)*maxw + min(C, 8) - 1 characters |
| Debug.DebugRowTokens | src/shared/matrix.rs:93-99 | a shown row's padded cells read back as its first min(C, 8) cell strings, at most 8, when they are non-empty and space-free |
| Debug.DebugTenByTen | src/shared/matrix.rs:66-119 | for a 10 x 10 matrix and any placeholder `ell`: both header flags, 6 shown rows each ending " {ell} (+2 cols)]", then a summary row ending "] (+4 rows)" |
| Debug.DebugThreeByFour | src/shared/matrix.rs:66-104 | for a 3 x 4 matrix: the header "Matrix<_, 3, 4> { rows: 3, cols: 4 }" with no flag, and exactly 3 body lines, each the whole row between brackets |
| Debug.MisencodedEllipsisSize | src/shared/matrix.rs:87 | the literal as written is 3 characters and 7 bytes, and it is not the ellipsis |
| Debug.DebugOneCell | src/shared/matrix.rs:66-103 | a 1 x 1 matrix whose cell shows as "5" renders as the header and one row: "5" right-aligned to the larger of 1 and `ell.len()`, between brackets |
| Debug.OneCellAsWritten | src/shared/matrix.rs:87-88 | with the literal as written, that matrix gets `maxw` 7 and the row "[      5]" |
| Debug.OneCellIntended | src/shared/matrix.rs:87-88 | with the intended ellipsis, that matrix gets `maxw` 3 and the row "[  5]" |

## Left out

- The test helpers `random_matrix` and the `#[cfg(test)]` tests are not modelled as code: they need a random generator, and `random_matrix` writes through an `unsafe` pointer. The tests' checks on the output (`contains`, `lines()`, bracket ends, token counts) are stated as lemmas above.
- Formatter errors are not modelled: every `write!` is assumed to succeed, so the `?` early returns never happen.
- Formatting an element is the parameter `show`. Its result may be any string, and flags such as width or precision on `T`'s own output are not modelled.
- `usize` is modelled as `nat`. No dimension or width can overflow, and `C - show_c` and `R - show_r` are never negative in the source either.
- `Matrices.Get` has no ensures of its own. It is the plain index `data[i][j]`, and `Matrices.New` states what it returns.
- `Strings.Lines` splits on '\n' only. `str::lines()` also drops a '\r' before a line break, which matters only for cell strings holding "\r\n".
- `#[derive(Clone, Copy, PartialEq)]` is not modelled separately: a Dafny datatype is a value with structural equality.
- Determinism of the renderers needs no lemma: the output of each `Fmt` is fixed by a function of the matrix.
- Debug.DebugRowSuffixIff: both directions need the row's shown cells to hold no '('. A cell string could otherwise contain the marker text itself.
- Display.RenderLineCount, Debug.DebugLineCount: need that no cell string holds '\n'. Otherwise `lines()` would split a row.
- Debug.SummaryCells: needs a placeholder that is non-empty and holds no space, so that the summary row reads back token by token. Both spellings qualify.
- Display.RenderRowTokens, Layout.RenderCellsTokens, Debug.DebugRowTokens: need non-empty, space-free cell strings. These are the integer cells the tests use; other strings would give other token counts.
- Debug.Fmt: the one source function is split into helper methods (`WriteShownRows`, `WriteShownRow`, `WriteColsSuffix`, `WriteSummary`, `WriteMarks`). They perform the same writes in the same order.

## Findings

| source | as written | input that shows it | evidently intended | confidence | as-written member | corrected member |
|---|---|---|---|---|---|---|
| src/shared/matrix.rs:87 | the ellipsis literal is the UTF-8 bytes of U+2026 read as Windows-1252 and stored again as UTF-8: "â€¦", 3 characters, 7 bytes | a 1 x 1 matrix holding 5: `maxw` becomes 7 and the row prints as "[      5]" instead of "[  5]"; every marker prints "â€¦" | the single character U+2026 "…", 3 bytes, so `maxw` >= 3 | not executed | Debug.OneCellAsWritten | Debug.OneCellIntended |
