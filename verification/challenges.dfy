/**
 The quiz's challenges and matrices (CodeRunner.utils.ts): a challenge names
 one row, one column or a half-open rectangle of the matrix, and both the
 challenge and the matrix are drawn at random. Every `Math.random()` call
 becomes an explicit draw, so the pickers are plain functions of their draws.
 */
module Challenges {

  /** A region of the matrix the player has to select with NumPy indexing.
      `Submatrix` is half-open: rows `rowStart .. rowEnd - 1` and columns
      `colStart .. colEnd - 1`. */
  datatype Challenge =
    | Row(index: int)
    | Column(index: int)
    | Submatrix(rowStart: int, rowEnd: int, colStart: int, colEnd: int)

  /** `k` is a possible value of `Math.floor(Math.random() * n)`. The random
      number lies in [0, 1), so for `n > 0` the draw is one of `0 .. n - 1`,
      for `n == 0` it is `0`, and for `n < 0` it lies between `n` and `0`. */
  predicate IsDraw(k: int, n: int) {
    if n > 0 then 0 <= k < n else n <= k <= 0
  }

  /** `Math.max(a, b)`. */
  function Max(a: int, b: int): (r: int)
    ensures r >= a && r >= b
    ensures r == a || r == b
  {
    if a >= b then a else b
  }

  /** The smaller of `a` and `b`, the counterpart of `Max`. */
  function Min(a: int, b: int): int {
    if a <= b then a else b
  }

  /** The random draws `pickRandomChallenge` makes, in order: the kind, then
      either the index (row or column) or the two start positions followed by
      the two extents. Draws a challenge does not consume are ignored. */
  datatype ChallengeDraws = ChallengeDraws(kind: int, first: int, second: int, third: int, fourth: int)

  /** The draws could have come from `Math.random()` while picking a
      challenge for a `rows` x `cols` matrix: each one lies in the range its
      own call multiplies by. */
  predicate ValidDraws(rows: nat, cols: nat, d: ChallengeDraws) {
    && IsDraw(d.kind, 3)
    && (d.kind == 0 ==> IsDraw(d.first, rows))
    && (d.kind == 1 ==> IsDraw(d.first, cols))
    && (d.kind >= 2 ==>
          && IsDraw(d.first, Max(1, rows))
          && IsDraw(d.second, Max(1, cols))
          && IsDraw(d.third, Max(0, rows - d.first - 1))
          && IsDraw(d.fourth, Max(0, cols - d.second - 1)))
  }

  /** `pickRandomChallenge(rows, cols)` with its random numbers given as `d`.
      Whatever the draws, the kind draw alone selects the variant, and the
      final `Math.max` clamps make every submatrix at least 1 x 1. */
  function PickRandomChallenge(rows: nat, cols: nat, d: ChallengeDraws): (c: Challenge)
    ensures c.Row? <==> d.kind == 0
    ensures c.Column? <==> d.kind == 1
    ensures c.Submatrix? ==> c.rowStart < c.rowEnd && c.colStart < c.colEnd
  {
    if d.kind == 0 then Row(d.first)
    else if d.kind == 1 then Column(d.first)
    else
      var rowStart := d.first;
      var colStart := d.second;
      var rowEnd := rowStart + 1 + d.third;
      var colEnd := colStart + 1 + d.fourth;
      Submatrix(rowStart, Max(rowEnd, rowStart + 1), colStart, Max(colEnd, colStart + 1))
  }

  /** `0 <= start < end <= n`: a non-empty half-open range inside `0 .. n`. */
  predicate InRange(start: int, end: int, n: nat) {
    0 <= start < end <= n
  }

  /** The challenge refers only to cells of a `rows` x `cols` matrix, and a
      submatrix covers at least one cell. */
  predicate InBounds(c: Challenge, rows: nat, cols: nat) {
    match c
    case Row(i) => 0 <= i < rows
    case Column(j) => 0 <= j < cols
    case Submatrix(rs, re, cs, ce) => InRange(rs, re, rows) && InRange(cs, ce, cols)
  }

  /** The ranges the end formula can produce: a range reaches the last
      index `n` only when it starts at `n - 1`; otherwise it stops by `n - 1`. */
  predicate PickableRange(start: int, end: int, n: nat) {
    InRange(start, end, n) && (end == n ==> start == n - 1)
  }

  /** Exactly the challenges `pickRandomChallenge` can return for a
      `rows` x `cols` matrix. */
  predicate Pickable(c: Challenge, rows: nat, cols: nat) {
    match c
    case Row(i) => 0 <= i < rows
    case Column(j) => 0 <= j < cols
    case Submatrix(rs, re, cs, ce) => PickableRange(rs, re, rows) && PickableRange(cs, ce, cols)
  }

  /** Rows and columns are in bounds as soon as the matrix has a row or a
      column respectively; a submatrix needs both. */
  lemma PickInBounds(rows: nat, cols: nat, d: ChallengeDraws)
    requires ValidDraws(rows, cols, d)
    ensures var c := PickRandomChallenge(rows, cols, d);
      && (c.Row? && rows >= 1 ==> 0 <= c.index < rows)
      && (c.Column? && cols >= 1 ==> 0 <= c.index < cols)
      && (c.Submatrix? && rows >= 1 && cols >= 1 ==> InBounds(c, rows, cols))
  {
  }

  /** The clamps `Math.max(rowEnd, rowStart + 1)` and
      `Math.max(colEnd, colStart + 1)` never change the end already computed:
      the extent draws are never negative. */
  lemma ClampsChangeNothing(rows: nat, cols: nat, d: ChallengeDraws)
    requires ValidDraws(rows, cols, d) && d.kind >= 2
    ensures PickRandomChallenge(rows, cols, d)
         == Submatrix(d.first, d.first + 1 + d.third, d.second, d.second + 1 + d.fourth)
  {
  }

  /** A submatrix ends at the last row only when it starts there; any other
      start leaves the last row out. The same holds for columns. */
  lemma LastRowOnlyFromLastStart(rows: nat, cols: nat, d: ChallengeDraws)
    requires ValidDraws(rows, cols, d) && rows >= 1 && cols >= 1 && d.kind >= 2
    ensures var c := PickRandomChallenge(rows, cols, d);
      && (c.rowEnd == rows <==> c.rowStart == rows - 1)
      && (c.rowStart < rows - 1 ==> c.rowEnd <= rows - 1)
      && (c.colEnd == cols <==> c.colStart == cols - 1)
      && (c.colStart < cols - 1 ==> c.colEnd <= cols - 1)
  {
  }

  /** Every challenge picked from valid draws is pickable. */
  lemma PickIsPickable(rows: nat, cols: nat, d: ChallengeDraws)
    requires ValidDraws(rows, cols, d) && rows >= 1 && cols >= 1
    ensures Pickable(PickRandomChallenge(rows, cols, d), rows, cols)
  {
  }

  /** Draws that make `pickRandomChallenge` return `c`. */
  function DrawsFor(c: Challenge): (d: ChallengeDraws)
  {
    match c
    case Row(i) => ChallengeDraws(0, i, 0, 0, 0)
    case Column(j) => ChallengeDraws(1, j, 0, 0, 0)
    case Submatrix(rs, re, cs, ce) => ChallengeDraws(2, rs, cs, re - rs - 1, ce - cs - 1)
  }

  /** Every pickable challenge is picked by some valid draws: together with
      `PickIsPickable`, `Pickable` is exactly the set of possible results. */
  lemma PickableIsPicked(rows: nat, cols: nat, c: Challenge)
    requires Pickable(c, rows, cols)
    ensures ValidDraws(rows, cols, DrawsFor(c))
    ensures PickRandomChallenge(rows, cols, DrawsFor(c)) == c
  {
  }

  /** The matrix `generateIntegerMatrix(rows, cols, lo, hi)` produces from
      one draw per cell, row by row. */
  function GenerateIntegerMatrix(rows: nat, cols: nat, lo: int, hi: int, draws: seq<seq<int>>): (m: seq<seq<int>>)
    requires IsGrid(draws, rows, cols)
    ensures IsGrid(m, rows, cols)
    ensures forall i, j :: 0 <= i < rows && 0 <= j < cols ==> m[i][j] - lo == draws[i][j]
  {
    seq(rows, i requires 0 <= i < rows => seq(cols, j requires 0 <= j < cols => draws[i][j] + lo))
  }

  /** `m` has exactly `rows` rows, each of length `cols`. */
  predicate IsGrid<T>(m: seq<seq<T>>, rows: nat, cols: nat) {
    |m| == rows && forall i :: 0 <= i < rows ==> |m[i]| == cols
  }

  /** Every cell draw could have come from
      `Math.floor(Math.random() * (hi - lo + 1))`. */
  predicate ValidCellDraws(draws: seq<seq<int>>, lo: int, hi: int) {
    forall i, j :: 0 <= i < |draws| && 0 <= j < |draws[i]| ==> IsDraw(draws[i][j], hi - lo + 1)
  }

  /** Every entry of `m` lies in `[lo, hi]`. */
  predicate EntriesWithin(m: seq<seq<int>>, lo: int, hi: int) {
    forall i, j :: 0 <= i < |m| && 0 <= j < |m[i]| ==> lo <= m[i][j] <= hi
  }

  /** The default bounds of `generateIntegerMatrix`, also the ones every call
      passes: single digits. */
  const DefaultMin: int := 0
  const DefaultMax: int := 9

  /** With `lo <= hi`, every entry lies in `[lo, hi]`, inclusive at both
      ends. */
  lemma GeneratedEntriesWithin(rows: nat, cols: nat, lo: int, hi: int, draws: seq<seq<int>>)
    requires IsGrid(draws, rows, cols) && ValidCellDraws(draws, lo, hi) && lo <= hi
    ensures EntriesWithin(GenerateIntegerMatrix(rows, cols, lo, hi, draws), lo, hi)
  {
  }

  /** Every `rows` x `cols` matrix with entries in `[lo, hi]` is generated by
      some valid draws: the generator can produce any such matrix. */
  lemma EveryMatrixGenerated(m: seq<seq<int>>, rows: nat, cols: nat, lo: int, hi: int)
    requires IsGrid(m, rows, cols) && EntriesWithin(m, lo, hi)
    ensures var draws := seq(rows, i requires 0 <= i < rows => seq(cols, j requires 0 <= j < cols => m[i][j] - lo));
      && IsGrid(draws, rows, cols)
      && ValidCellDraws(draws, lo, hi)
      && GenerateIntegerMatrix(rows, cols, lo, hi, draws) == m
  {
    var draws := seq(rows, i requires 0 <= i < rows => seq(cols, j requires 0 <= j < cols => m[i][j] - lo));
    var g := GenerateIntegerMatrix(rows, cols, lo, hi, draws);
    forall i | 0 <= i < rows
      ensures g[i] == m[i]
    {
    }
  }
}
