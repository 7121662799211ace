/**
 Which cells of the displayed matrix are highlighted (MatrixDisplay.tsx): the
 region of the current challenge, or nothing while no challenge is shown.
 */
module Highlight {
  import opened Results
  import opened Challenges

  /** `isHighlighted(i, j, highlight)`: cell `(i, j)` belongs to the region. */
  predicate IsHighlighted(i: int, j: int, h: Challenge) {
    match h
    case Row(index) => i == index
    case Column(index) => j == index
    case Submatrix(rowStart, rowEnd, colStart, colEnd) =>
      i >= rowStart && i < rowEnd && j >= colStart && j < colEnd
  }

  /** `highlight != null && isHighlighted(i, j, highlight)`: the value a cell
      is rendered with, where a missing highlight (`null` or `undefined`) is
      `None`. */
  predicate CellHighlighted(i: int, j: int, h: Option<Challenge>) {
    h.Some? && IsHighlighted(i, j, h.value)
  }

  /** A rendered cell: its value and whether it is highlighted. */
  datatype Cell = Cell(value: int, highlighted: bool)

  /** What `MatrixDisplay` renders: nothing (`None`, the placeholder card)
      when the matrix has no rows or its first row is empty, and otherwise
      every cell with its highlight flag, row by row. */
  function Render(m: seq<seq<int>>, h: Option<Challenge>): (r: Option<seq<seq<Cell>>>)
    ensures r.None? <==> |m| == 0 || |m[0]| == 0
    ensures r.Some? ==> |r.value| == |m| && forall i :: 0 <= i < |m| ==> |r.value[i]| == |m[i]|
    ensures r.Some? ==> forall i, j :: 0 <= i < |m| && 0 <= j < |m[i]| ==>
      r.value[i][j].value == m[i][j] && (r.value[i][j].highlighted <==> CellHighlighted(i, j, h))
  {
    if |m| == 0 || |m[0]| == 0 then None
    else Some(seq(|m|, i requires 0 <= i < |m| =>
      seq(|m[i]|, j requires 0 <= j < |m[i]| => Cell(m[i][j], CellHighlighted(i, j, h)))))
  }

  /** With no highlight, no rendered cell is highlighted. */
  lemma NoHighlightNoCells(m: seq<seq<int>>)
    ensures Render(m, None).Some? ==>
      forall i, j :: 0 <= i < |m| && 0 <= j < |m[i]| ==> !Render(m, None).value[i][j].highlighted
  {
  }

  // ---------------------------------------------------------------------
  // Counting highlighted cells

  /** The number of highlighted cells `(i, 0) .. (i, cols - 1)` of row `i`. */
  function RowCount(i: int, cols: nat, h: Challenge): (n: nat)
    ensures n <= cols
  {
    if cols == 0 then 0
    else RowCount(i, cols - 1, h) + (if IsHighlighted(i, cols - 1, h) then 1 else 0)
  }

  /** The number of highlighted cells of a `rows` x `cols` grid. */
  function GridCount(rows: nat, cols: nat, h: Challenge): (n: nat)
    ensures n <= rows * cols
  {
    if rows == 0 then 0
    else
      assert rows * cols == (rows - 1) * cols + cols;
      GridCount(rows - 1, cols, h) + RowCount(rows - 1, cols, h)
  }

  /** Row `i` has `cols` highlighted cells under a row region on `i`, and
      none under a row region elsewhere. */
  lemma {:induction false} RowCountOfRow(i: int, cols: nat, index: int)
    ensures RowCount(i, cols, Row(index)) == if i == index then cols else 0
  {
    if cols > 0 {
      RowCountOfRow(i, cols - 1, index);
    }
  }

  /** Every row has exactly one highlighted cell under an in-range column
      region. */
  lemma {:induction false} RowCountOfColumn(i: int, cols: nat, index: int)
    ensures RowCount(i, cols, Column(index)) == if 0 <= index < cols then 1 else 0
  {
    if cols > 0 {
      RowCountOfColumn(i, cols - 1, index);
    }
  }

  /** A row crossing a submatrix that fits in the grid's width has as many
      highlighted cells as the submatrix is wide. */
  lemma {:induction false} RowCountOfSubmatrix(i: int, cols: nat, rs: int, re: int, cs: int, ce: int)
    requires 0 <= cs <= ce
    ensures RowCount(i, cols, Submatrix(rs, re, cs, ce))
         == if rs <= i < re then Min(ce, cols) - Min(cs, cols) else 0
  {
    if cols > 0 {
      RowCountOfSubmatrix(i, cols - 1, rs, re, cs, ce);
    }
  }

  /** A row region within the grid highlights a whole row: `cols` cells. */
  lemma {:induction false} GridCountOfRow(rows: nat, cols: nat, index: int)
    requires 0 <= index < rows
    ensures GridCount(rows, cols, Row(index)) == cols
  {
    RowCountOfRow(rows - 1, cols, index);
    if index < rows - 1 {
      GridCountOfRow(rows - 1, cols, index);
    } else {
      GridCountOutsideRow(rows - 1, cols, index);
    }
  }

  lemma {:induction false} GridCountOutsideRow(rows: nat, cols: nat, index: int)
    requires rows <= index
    ensures GridCount(rows, cols, Row(index)) == 0
  {
    if rows > 0 {
      RowCountOfRow(rows - 1, cols, index);
      GridCountOutsideRow(rows - 1, cols, index);
    }
  }

  /** A column region within the grid highlights a whole column: `rows`
      cells. */
  lemma {:induction false} GridCountOfColumn(rows: nat, cols: nat, index: int)
    requires 0 <= index < cols
    ensures GridCount(rows, cols, Column(index)) == rows
  {
    if rows > 0 {
      RowCountOfColumn(rows - 1, cols, index);
      GridCountOfColumn(rows - 1, cols, index);
    }
  }

  /** A submatrix within the grid highlights
      `(rowEnd - rowStart) * (colEnd - colStart)` cells. */
  lemma {:induction false} GridCountOfSubmatrix(rows: nat, cols: nat, rs: int, re: int, cs: int, ce: int)
    requires 0 <= rs <= re && 0 <= cs <= ce <= cols
    ensures GridCount(rows, cols, Submatrix(rs, re, cs, ce)) == (Min(re, rows) - Min(rs, rows)) * (ce - cs)
  {
    if rows > 0 {
      RowCountOfSubmatrix(rows - 1, cols, rs, re, cs, ce);
      GridCountOfSubmatrix(rows - 1, cols, rs, re, cs, ce);
      var w := ce - cs;
      if rs <= rows - 1 < re {
        assert Min(re, rows) - Min(rs, rows) == (Min(re, rows - 1) - Min(rs, rows - 1)) + 1;
        assert (Min(re, rows - 1) - Min(rs, rows - 1) + 1) * w
            == (Min(re, rows - 1) - Min(rs, rows - 1)) * w + w;
      }
    }
  }

  /** The number of cells a challenge highlights in a grid it fits in:
      a whole row, a whole column, or the area of the rectangle. */
  function RegionSize(h: Challenge, rows: nat, cols: nat): int {
    match h
    case Row(_) => cols
    case Column(_) => rows
    case Submatrix(rs, re, cs, ce) => (re - rs) * (ce - cs)
  }

  /** An in-bounds challenge highlights exactly `RegionSize` cells of the
      grid. */
  lemma GridCountInBounds(rows: nat, cols: nat, h: Challenge)
    requires InBounds(h, rows, cols)
    ensures GridCount(rows, cols, h) == RegionSize(h, rows, cols)
  {
    match h
    case Row(index) => GridCountOfRow(rows, cols, index);
    case Column(index) => GridCountOfColumn(rows, cols, index);
    case Submatrix(rs, re, cs, ce) => GridCountOfSubmatrix(rows, cols, rs, re, cs, ce);
  }

  /** A challenge from `pickRandomChallenge` always highlights at least one
      cell of a non-empty matrix: `cols`, `rows` or the area of the
      submatrix. */
  lemma PickedChallengeHighlights(rows: nat, cols: nat, d: ChallengeDraws)
    requires ValidDraws(rows, cols, d) && rows >= 1 && cols >= 1
    ensures var h := PickRandomChallenge(rows, cols, d);
      && GridCount(rows, cols, h) == RegionSize(h, rows, cols)
      && GridCount(rows, cols, h) >= 1
  {
    var h := PickRandomChallenge(rows, cols, d);
    PickInBounds(rows, cols, d);
    GridCountInBounds(rows, cols, h);
    if h.Submatrix? {
      AreaPositive(h.rowEnd - h.rowStart, h.colEnd - h.colStart);
    }
  }

  lemma AreaPositive(a: int, b: int)
    requires a >= 1 && b >= 1
    ensures a * b >= 1
  {
    assert a * b >= 1 * b;
  }
}
