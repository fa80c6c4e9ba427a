/**
 * Smoke basin (src/day09.rs): a height map of digits. A low point is lower
 * than every one of its up to four orthogonal neighbours; its basin is what
 * a flood from it reaches, cell to neighbouring cell, without entering a 9.
 */
module Basins {
  import opened Sorting

  /** Rows of heights, as `parse` reads them. */
  type HeightMap = seq<seq<nat>>

  /** A cell (row, column). */
  type Coord = (nat, nat)

  /**
   * A map the source can work on: it reads the row length from the first
   * row, so there is at least one, and every row has that length.
   */
  predicate IsMap(hm: HeightMap) {
    |hm| > 0 && forall r :: 0 <= r < |hm| ==> |hm[r]| == |hm[0]|
  }

  predicate InMap(hm: HeightMap, c: Coord)
    requires IsMap(hm)
  {
    c.0 < |hm| && c.1 < |hm[0]|
  }

  function Height(hm: HeightMap, c: Coord): nat
    requires IsMap(hm) && InMap(hm, c)
  {
    hm[c.0][c.1]
  }

  function Dist(a: nat, b: nat): nat {
    if a <= b then b - a else a - b
  }

  /** q is a cell of the map one row or one column away from c. */
  predicate Adjacent(hm: HeightMap, c: Coord, q: Coord)
    requires IsMap(hm)
  {
    InMap(hm, q) && Dist(c.0, q.0) + Dist(c.1, q.1) == 1
  }

  /** The cells adjacent to c are the ones above, below, left and right of it that lie in the map. */
  lemma AdjacentCases(hm: HeightMap, c: Coord, q: Coord)
    requires IsMap(hm) && InMap(hm, c)
    ensures Adjacent(hm, c, q) <==>
      (c.0 != 0 && q == (c.0 - 1, c.1)) || (c.0 != |hm| - 1 && q == (c.0 + 1, c.1)) ||
      (c.1 != 0 && q == (c.0, c.1 - 1)) || (c.1 != |hm[0]| - 1 && q == (c.0, c.1 + 1))
  {
  }

  /** Every cell of the map. */
  function Cells(hm: HeightMap): (cells: set<Coord>)
    requires IsMap(hm)
    ensures forall c :: c in cells <==> InMap(hm, c)
  {
    var cells := set r: nat, k: nat | r < |hm| && k < |hm[0]| :: (r, k);
    assert forall c :: InMap(hm, c) ==> c == (c.0, c.1);
    cells
  }

  // ---------------------------------------------------------------------------
  // Low points
  // ---------------------------------------------------------------------------

  /**
   * `is_lowest` as `find_lowest_points` computes it: each of the four
   * comparisons is skipped at the corresponding edge of the map. A low
   * point is exactly a cell strictly lower than every adjacent cell.
   */
  predicate IsLowest(hm: HeightMap, r: nat, c: nat)
    requires IsMap(hm) && r < |hm| && c < |hm[0]|
    ensures IsLowest(hm, r, c) <==> forall q :: Adjacent(hm, (r, c), q) ==> hm[r][c] < Height(hm, q)
  {
    LowestBelowNeighbors(hm, r, c);
    EdgeChecks(hm, r, c)
  }

  /** The four comparisons, each skipped at its edge of the map. */
  predicate EdgeChecks(hm: HeightMap, r: nat, c: nat)
    requires IsMap(hm) && r < |hm| && c < |hm[0]|
  {
    var v := hm[r][c];
    (r == 0 || v < hm[r - 1][c]) && (r == |hm| - 1 || v < hm[r + 1][c]) &&
    (c == 0 || v < hm[r][c - 1]) && (c == |hm[0]| - 1 || v < hm[r][c + 1])
  }

  /** The four comparisons hold exactly when the cell is below every adjacent cell. */
  lemma LowestBelowNeighbors(hm: HeightMap, r: nat, c: nat)
    requires IsMap(hm) && r < |hm| && c < |hm[0]|
    ensures EdgeChecks(hm, r, c) <==> forall q :: Adjacent(hm, (r, c), q) ==> hm[r][c] < Height(hm, q)
  {
    forall q ensures Adjacent(hm, (r, c), q) <==>
      (r != 0 && q == (r - 1, c)) || (r != |hm| - 1 && q == (r + 1, c)) ||
      (c != 0 && q == (r, c - 1)) || (c != |hm[0]| - 1 && q == (r, c + 1))
    {
      AdjacentCases(hm, (r, c), q);
    }
    if !EdgeChecks(hm, r, c) {
      if r != 0 && hm[r][c] >= hm[r - 1][c] {
        assert Adjacent(hm, (r, c), (r - 1, c));
      } else if r != |hm| - 1 && hm[r][c] >= hm[r + 1][c] {
        assert Adjacent(hm, (r, c), (r + 1, c));
      } else if c != 0 && hm[r][c] >= hm[r][c - 1] {
        assert Adjacent(hm, (r, c), (r, c - 1));
      } else {
        assert Adjacent(hm, (r, c), (r, c + 1));
      }
    }
  }

  /** The low points among the first c cells of row r, left to right. */
  function LowInRow(hm: HeightMap, r: nat, c: nat): (low: seq<Coord>)
    requires IsMap(hm) && r < |hm| && c <= |hm[0]|
  {
    if c == 0 then []
    else LowInRow(hm, r, c - 1) + if IsLowest(hm, r, c - 1) then [(r, c - 1)] else []
  }

  /** The low points of the first r rows, in row-major order. */
  function LowInRows(hm: HeightMap, r: nat): (low: seq<Coord>)
    requires IsMap(hm) && r <= |hm|
  {
    if r == 0 then [] else LowInRows(hm, r - 1) + LowInRow(hm, r - 1, |hm[0]|)
  }

  function LowPoints(hm: HeightMap): (low: seq<Coord>)
    requires IsMap(hm)
    ensures forall q :: q in low ==> InMap(hm, q)
  {
    LowInRowsFacts(hm, |hm|);
    LowInRows(hm, |hm|)
  }

  /** a comes before b when the map is read row by row. */
  predicate Before(a: Coord, b: Coord) {
    a.0 < b.0 || (a.0 == b.0 && a.1 < b.1)
  }

  predicate Ordered(s: seq<Coord>) {
    forall i, j :: 0 <= i < j < |s| ==> Before(s[i], s[j])
  }

  lemma OrderedAppend(a: seq<Coord>, b: seq<Coord>)
    requires Ordered(a) && Ordered(b)
    requires forall x, y :: x in a && y in b ==> Before(x, y)
    ensures Ordered(a + b)
  {
    forall i, j | 0 <= i < j < |a + b| ensures Before((a + b)[i], (a + b)[j]) {
      if j >= |a| && i < |a| {
        assert (a + b)[i] in a && (a + b)[j] in b;
      }
    }
  }

  lemma {:induction false} LowInRowAt(hm: HeightMap, r: nat, c: nat, q: Coord)
    requires IsMap(hm) && r < |hm| && c <= |hm[0]|
    ensures q in LowInRow(hm, r, c) <==> q.0 == r && q.1 < c && IsLowest(hm, r, q.1)
  {
    if c > 0 {
      LowInRowAt(hm, r, c - 1, q);
      var last: seq<Coord> := if IsLowest(hm, r, c - 1) then [(r, c - 1)] else [];
      assert q in LowInRow(hm, r, c - 1) + last <==> q in LowInRow(hm, r, c - 1) || q in last;
    }
  }

  lemma {:induction false} LowInRowOrdered(hm: HeightMap, r: nat, c: nat)
    requires IsMap(hm) && r < |hm| && c <= |hm[0]|
    ensures Ordered(LowInRow(hm, r, c))
  {
    if c > 0 {
      var init: seq<Coord>, last: seq<Coord> := LowInRow(hm, r, c - 1), if IsLowest(hm, r, c - 1) then [(r, c - 1)] else [];
      LowInRowOrdered(hm, r, c - 1);
      forall x, y | x in init && y in last ensures Before(x, y) {
        InRowOnRow(hm, r, c - 1, x);
      }
      OrderedAppend(init, last);
    }
  }

  lemma {:induction false} LowInRowsAt(hm: HeightMap, r: nat, q: Coord)
    requires IsMap(hm) && r <= |hm|
    ensures q in LowInRows(hm, r) <==> q.0 < r && q.1 < |hm[0]| && IsLowest(hm, q.0, q.1)
  {
    if r > 0 {
      var above, row := LowInRows(hm, r - 1), LowInRow(hm, r - 1, |hm[0]|);
      LowInRowsAt(hm, r - 1, q);
      LowInRowAt(hm, r - 1, |hm[0]|, q);
      assert q in above + row <==> q in above || q in row;
      if q.0 == r - 1 {
        assert q !in above;
        assert q in LowInRows(hm, r) <==> q in row;
      } else {
        assert q !in row;
        assert q in LowInRows(hm, r) <==> q in above;
      }
    }
  }

  lemma LowInRowsFacts(hm: HeightMap, r: nat)
    requires IsMap(hm) && r <= |hm|
    ensures forall q :: q in LowInRows(hm, r) <==> q.0 < r && q.1 < |hm[0]| && IsLowest(hm, q.0, q.1)
  {
    forall q ensures q in LowInRows(hm, r) <==> q.0 < r && q.1 < |hm[0]| && IsLowest(hm, q.0, q.1) {
      LowInRowsAt(hm, r, q);
    }
  }

  /** Where the low points of a row prefix and of a band of rows lie. */
  lemma InRowOnRow(hm: HeightMap, r: nat, c: nat, q: Coord)
    requires IsMap(hm) && r < |hm| && c <= |hm[0]|
    ensures q in LowInRow(hm, r, c) ==> q.0 == r && q.1 < c
  {
    LowInRowAt(hm, r, c, q);
  }

  lemma InRowsAbove(hm: HeightMap, r: nat, q: Coord)
    requires IsMap(hm) && r <= |hm|
    ensures q in LowInRows(hm, r) ==> q.0 < r
  {
    LowInRowsAt(hm, r, q);
  }

  lemma {:induction false} LowInRowsOrdered(hm: HeightMap, r: nat)
    requires IsMap(hm) && r <= |hm|
    ensures Ordered(LowInRows(hm, r))
  {
    if r > 0 {
      var above, row := LowInRows(hm, r - 1), LowInRow(hm, r - 1, |hm[0]|);
      LowInRowsOrdered(hm, r - 1);
      LowInRowOrdered(hm, r - 1, |hm[0]|);
      forall x, y | x in above && y in row ensures Before(x, y) {
        InRowsAbove(hm, r - 1, x);
        InRowOnRow(hm, r - 1, |hm[0]|, y);
      }
      OrderedAppend(above, row);
    }
  }

  /**
   * `find_lowest_points` lists exactly the low points, each once, in
   * row-major order.
   */
  lemma LowPointsExactly(hm: HeightMap)
    requires IsMap(hm)
    ensures forall q :: q in LowPoints(hm) <==> InMap(hm, q) && IsLowest(hm, q.0, q.1)
    ensures Ordered(LowPoints(hm))
  {
    LowInRowsFacts(hm, |hm|);
    LowInRowsOrdered(hm, |hm|);
  }

  /** `find_lowest_points`: scan the rows, and each row's columns, keeping the low points. */
  method FindLowestPoints(hm: HeightMap) returns (coords: seq<Coord>)
    requires IsMap(hm)
    ensures coords == LowPoints(hm)
  {
    coords := [];
    for row := 0 to |hm|
      invariant coords == LowInRows(hm, row)
    {
      coords := ScanRow(hm, row, coords);
    }
  }

  /** The inner loop of `find_lowest_points`: the columns of one row, left to right. */
  method ScanRow(hm: HeightMap, row: nat, before: seq<Coord>) returns (coords: seq<Coord>)
    requires IsMap(hm) && row < |hm|
    ensures coords == before + LowInRow(hm, row, |hm[0]|)
  {
    coords := before;
    var numRows, numCols := |hm|, |hm[0]|;
    for col := 0 to numCols
      invariant coords == before + LowInRow(hm, row, col)
    {
      var val := hm[row][col];
      var isLowest := (row == 0 || val < hm[row - 1][col])
        && (row == numRows - 1 || val < hm[row + 1][col])
        && (col == 0 || val < hm[row][col - 1])
        && (col == numCols - 1 || val < hm[row][col + 1]);
      assert isLowest == EdgeChecks(hm, row, col) == IsLowest(hm, row, col);
      if isLowest {
        coords := coords + [(row, col)];
      }
    }
  }

  /** The sum `q1` takes: the height of each listed cell plus one. */
  function Risk(hm: HeightMap, pts: seq<Coord>): nat
    requires IsMap(hm) && forall q :: q in pts ==> InMap(hm, q)
  {
    if pts == [] then 0
    else Risk(hm, pts[..|pts| - 1]) + Height(hm, pts[|pts| - 1]) + 1
  }

  /** Every height is a decimal digit, as `to_digit(10)` yields. */
  predicate Digits(hm: HeightMap) {
    forall r, c :: 0 <= r < |hm| && 0 <= c < |hm[r]| ==> hm[r][c] <= 9
  }

  /** Each point adds between 1 and 10 to the risk. */
  lemma {:induction false} RiskBounds(hm: HeightMap, pts: seq<Coord>)
    requires IsMap(hm) && Digits(hm) && forall q :: q in pts ==> InMap(hm, q)
    ensures |pts| <= Risk(hm, pts) <= 10 * |pts|
  {
    if pts != [] {
      var init, last := pts[..|pts| - 1], pts[|pts| - 1];
      assert forall q :: q in init ==> q in pts;
      assert last in pts;
      RiskBounds(hm, init);
    }
  }

  /**
   * `q1`: the total risk of the low points; on a map of digits, at least one
   * and at most ten per low point.
   */
  function TotalRisk(hm: HeightMap): (risk: nat)
    requires IsMap(hm)
    ensures Digits(hm) ==> |LowPoints(hm)| <= risk <= 10 * |LowPoints(hm)|
  {
    LowPointsExactly(hm);
    if Digits(hm) then RiskBounds(hm, LowPoints(hm)); Risk(hm, LowPoints(hm))
    else Risk(hm, LowPoints(hm))
  }

  // ---------------------------------------------------------------------------
  // Flood steps and walks
  // ---------------------------------------------------------------------------

  /** One step of the flood: to an adjacent cell whose height is not 9. */
  predicate Step(hm: HeightMap, c: Coord, q: Coord)
    requires IsMap(hm)
  {
    Adjacent(hm, c, q) && Height(hm, q) != 9
  }

  /**
   * `non_nine_neighbors`: the cells above, below, left and right, in that
   * order, that lie in the map and are not 9.
   */
  method NonNineNeighbors(hm: HeightMap, coord: Coord) returns (results: seq<Coord>)
    requires IsMap(hm) && InMap(hm, coord)
    ensures |results| <= 4
    ensures forall q :: q in results <==> Step(hm, coord, q)
    ensures forall i, j :: 0 <= i < j < |results| ==> results[i] != results[j]
  {
    var numRows, numCols := |hm|, |hm[0]|;
    results := [];
    if coord.0 != 0 && hm[coord.0 - 1][coord.1] != 9 {
      results := results + [(coord.0 - 1, coord.1)];
    }
    if coord.0 != numRows - 1 && hm[coord.0 + 1][coord.1] != 9 {
      results := results + [(coord.0 + 1, coord.1)];
    }
    if coord.1 != 0 && hm[coord.0][coord.1 - 1] != 9 {
      results := results + [(coord.0, coord.1 - 1)];
    }
    if coord.1 != numCols - 1 && hm[coord.0][coord.1 + 1] != 9 {
      results := results + [(coord.0, coord.1 + 1)];
    }
    assert results == NonNine(hm, coord);
    NonNineExact(hm, coord);
    NonNineDistinct(hm, coord);
  }

  /** The cells `non_nine_neighbors` lists, above, below, left and right. */
  function NonNine(hm: HeightMap, coord: Coord): seq<Coord>
    requires IsMap(hm) && InMap(hm, coord)
  {
    var (r, c) := coord;
    (if r != 0 && hm[r - 1][c] != 9 then [(r - 1, c)] else []) +
    (if r != |hm| - 1 && hm[r + 1][c] != 9 then [(r + 1, c)] else []) +
    (if c != 0 && hm[r][c - 1] != 9 then [(r, c - 1)] else []) +
    (if c != |hm[0]| - 1 && hm[r][c + 1] != 9 then [(r, c + 1)] else [])
  }

  /** The listed cells are exactly the flood steps from coord. */
  lemma NonNineExact(hm: HeightMap, coord: Coord)
    requires IsMap(hm) && InMap(hm, coord)
    ensures forall q :: q in NonNine(hm, coord) <==> Step(hm, coord, q)
  {
    forall q: Coord
      ensures q in NonNine(hm, coord) <==> Step(hm, coord, q)
    {
      AdjacentCases(hm, coord, q);
    }
  }

  /** At most four cells are listed, none twice. */
  lemma NonNineDistinct(hm: HeightMap, coord: Coord)
    requires IsMap(hm) && InMap(hm, coord)
    ensures |NonNine(hm, coord)| <= 4
    ensures forall i, j :: 0 <= i < j < |NonNine(hm, coord)| ==> NonNine(hm, coord)[i] != NonNine(hm, coord)[j]
  {
  }

  /** The walk p goes from cell to cell by flood steps. */
  ghost predicate Walk(hm: HeightMap, p: seq<Coord>)
    requires IsMap(hm)
  {
    |p| > 0 && InMap(hm, p[0]) && forall i :: 0 <= i < |p| - 1 ==> Step(hm, p[i], p[i + 1])
  }

  /** p is a walk of at least `least` steps from s to b. */
  ghost predicate WalkFrom(hm: HeightMap, p: seq<Coord>, s: Coord, b: Coord, least: nat)
    requires IsMap(hm)
  {
    Walk(hm, p) && |p| > least && p[0] == s && p[|p| - 1] == b
  }

  /** The cells a flood from s reaches in at least `least` steps. */
  ghost function Basin(hm: HeightMap, s: Coord, least: nat): set<Coord>
    requires IsMap(hm)
  {
    set b | b in Cells(hm) && exists p :: WalkFrom(hm, p, s, b, least)
  }

  lemma WalkExtend(hm: HeightMap, p: seq<Coord>, s: Coord, b: Coord, least: nat, q: Coord)
    requires IsMap(hm) && WalkFrom(hm, p, s, b, least) && Step(hm, b, q)
    ensures WalkFrom(hm, p + [q], s, q, least + 1)
  {
  }

  /** s is in the map, so it is the walk of no steps from itself. */
  lemma StartInBasin(hm: HeightMap, s: Coord)
    requires IsMap(hm) && InMap(hm, s)
    ensures s in Basin(hm, s, 0)
  {
    assert WalkFrom(hm, [s], s, s, 0);
  }

  /** In a map of one cell the flood cannot move. */
  lemma WalkSingle(hm: HeightMap, p: seq<Coord>)
    requires IsMap(hm) && |hm| == 1 && |hm[0]| == 1 && Walk(hm, p)
    ensures |p| == 1
  {
    if |p| > 1 {
      AdjacentCases(hm, p[0], p[1]);
    }
  }

  /** Every cell the flood can step to from x is already in the set. */
  ghost predicate Closed(hm: HeightMap, x: Coord, basin: set<Coord>)
    requires IsMap(hm)
  {
    forall y :: Step(hm, x, y) ==> y in basin
  }

  lemma ClosedGrows(hm: HeightMap, x: Coord, small: set<Coord>, big: set<Coord>)
    requires IsMap(hm) && Closed(hm, x, small) && small <= big
    ensures Closed(hm, x, big)
  {
  }

  /**
   * One round of the worklist keeps every cell that is in the basin (or is
   * the start) and no longer waiting closed: the popped cell because all its
   * flood steps are now in the basin, the others because the basin only grew.
   */
  lemma ClosedAfterVisit(hm: HeightMap, start: Coord, check: Coord, nnn: seq<Coord>,
                         basin0: set<Coord>, basin: set<Coord>, toCheck0: seq<Coord>, toCheck: seq<Coord>)
    requires IsMap(hm) && toCheck0 != [] && toCheck0[|toCheck0| - 1] == check
    requires forall q :: q in nnn <==> Step(hm, check, q)
    requires basin == basin0 + Elems(nnn)
    requires forall x :: x in toCheck <==> x in toCheck0[..|toCheck0| - 1] || x in basin - basin0
    requires forall x :: (x == start || x in basin0) && x !in toCheck0 ==> Closed(hm, x, basin0)
    ensures forall x :: (x == start || x in basin) && x !in toCheck ==> Closed(hm, x, basin)
  {
    assert toCheck0 == toCheck0[..|toCheck0| - 1] + [check];
    forall x | (x == start || x in basin) && x !in toCheck
      ensures Closed(hm, x, basin)
    {
      if x != check {
        ClosedGrows(hm, x, basin0, basin);
      }
    }
  }

  /** A walk from s stays, after its first cell, in any set closed around s and its own cells. */
  lemma {:induction false} WalkStaysIn(hm: HeightMap, p: seq<Coord>, s: Coord, basin: set<Coord>, i: nat)
    requires IsMap(hm) && Walk(hm, p) && p[0] == s && 0 < i < |p|
    requires forall x :: (x == s || x in basin) ==> Closed(hm, x, basin)
    ensures p[i] in basin
  {
    if i > 1 {
      WalkStaysIn(hm, p, s, basin, i - 1);
    }
    assert Closed(hm, p[i - 1], basin);
    assert Step(hm, p[i - 1], p[i]);
  }

  // ---------------------------------------------------------------------------
  // Counting cells
  // ---------------------------------------------------------------------------

  function RowCells(r: nat, cols: nat): set<Coord> {
    set k: nat | k < cols :: (r, k)
  }

  function RectCells(rows: nat, cols: nat): set<Coord> {
    set r: nat, k: nat | r < rows && k < cols :: (r, k)
  }

  lemma {:induction false} RowCount(r: nat, cols: nat)
    ensures |RowCells(r, cols)| == cols
  {
    if cols > 0 {
      RowCount(r, cols - 1);
      assert RowCells(r, cols) == RowCells(r, cols - 1) + {(r, cols - 1)};
    }
  }

  lemma {:induction false} RectCount(rows: nat, cols: nat)
    ensures |RectCells(rows, cols)| == rows * cols
  {
    if rows > 0 {
      RectCount(rows - 1, cols);
      RowCount(rows - 1, cols);
      assert rows * cols == (rows - 1) * cols + cols;
      assert RectCells(rows, cols) == RectCells(rows - 1, cols) + RowCells(rows - 1, cols);
      assert RectCells(rows - 1, cols) !! RowCells(rows - 1, cols);
    }
  }

  /** A set of cells of the map has at most rows × cols of them. */
  lemma AtMostAll(hm: HeightMap, cells: set<Coord>)
    requires IsMap(hm) && cells <= Cells(hm)
    ensures |cells| <= |hm| * |hm[0]|
  {
    assert Cells(hm) == RectCells(|hm|, |hm[0]|);
    RectCount(|hm|, |hm[0]|);
    assert Cells(hm) == cells + (Cells(hm) - cells);
  }

  /** The cells a visit adds lie in the map. */
  lemma GrowsWithin(hm: HeightMap, check: Coord, nnn: seq<Coord>, basin0: set<Coord>, basin: set<Coord>)
    requires IsMap(hm) && basin0 <= Cells(hm)
    requires forall q :: q in nnn <==> Step(hm, check, q)
    requires basin == basin0 + Elems(nnn)
    ensures basin0 <= basin <= Cells(hm)
  {
  }

  /** Growing a subset strictly leaves less of the set. */
  lemma RemainingShrinks(all: set<Coord>, done: set<Coord>, more: set<Coord>)
    requires done < more <= all
    ensures |all - more| < |all - done|
  {
    var added :| added in more && added !in done;
    assert all - done == (all - more) + (more - done);
    assert added in more - done;
  }

  // ---------------------------------------------------------------------------
  // basin_size
  // ---------------------------------------------------------------------------

  /**
   * The walks to the cells that joined the basin in one round: the walk to
   * the popped cell, one step longer.
   */
  lemma PathsAfterVisit(hm: HeightMap, start: Coord, least: nat, check: Coord, path: seq<Coord>, nnn: seq<Coord>,
                        basin0: set<Coord>, basin: set<Coord>, paths0: map<Coord, seq<Coord>>)
      returns (paths: map<Coord, seq<Coord>>)
    requires IsMap(hm) && least <= 1 && WalkFrom(hm, path, start, check, 0)
    requires forall q :: q in nnn ==> Step(hm, check, q)
    requires basin == basin0 + Elems(nnn)
    requires forall b :: b in basin0 ==> b in paths0 && WalkFrom(hm, paths0[b], start, b, least)
    ensures forall b :: b in basin ==> b in paths && WalkFrom(hm, paths[b], start, b, least)
  {
    paths := map b | b in basin :: if b in basin0 then paths0[b] else path + [b];
    forall b | b in basin ensures b in paths && WalkFrom(hm, paths[b], start, b, least) {
      if b in basin0 {
        assert paths[b] == paths0[b];
      } else {
        assert b in nnn;
        WalkExtend(hm, path, start, check, 0, b);
      }
    }
  }

  /**
   * When the worklist is empty, the basin holds exactly the cells the flood
   * reaches: each has a walk, and a walk cannot leave a closed set.
   */
  lemma FloodDone(hm: HeightMap, start: Coord, least: nat, basin: set<Coord>, paths: map<Coord, seq<Coord>>)
    requires IsMap(hm) && basin <= Cells(hm) && (least == 0 ==> start in basin)
    requires forall b :: b in basin ==> b in paths && WalkFrom(hm, paths[b], start, b, least)
    requires forall x :: (x == start || x in basin) ==> Closed(hm, x, basin)
    ensures basin == Basin(hm, start, least)
  {
    forall b | b in Basin(hm, start, least) ensures b in basin {
      var p :| WalkFrom(hm, p, start, b, least);
      if |p| > 1 {
        WalkStaysIn(hm, p, start, basin, |p| - 1);
      }
    }
    forall b | b in basin ensures b in Basin(hm, start, least) {
      assert WalkFrom(hm, paths[b], start, b, least);
    }
  }

  /**
   * The `for` over the neighbours in `basin_size`: each neighbour not yet in
   * the basin joins it and is pushed onto the worklist, so nothing is pushed
   * twice.
   */
  method Spread(nnn: seq<Coord>, basin: set<Coord>, toCheck: seq<Coord>) returns (grown: set<Coord>, pending: seq<Coord>)
    ensures grown == basin + Elems(nnn)
    ensures forall x :: x in pending <==> x in toCheck || x in grown - basin
    ensures |pending| == |toCheck| + |grown - basin|
    ensures |grown| == |basin| + |grown - basin|
    ensures |grown| - |basin| == |pending| - |toCheck|
  {
    grown, pending := basin, toCheck;
    ghost var added: seq<Coord> := [];
    for i := 0 to |nnn|
      invariant grown == basin + Elems(nnn[..i])
      invariant pending == toCheck + added
      invariant Joined(basin, grown, added)
    {
      var coord := nnn[i];
      ElemsSnoc(nnn[..i], coord);
      assert nnn[..i + 1] == nnn[..i] + [coord];
      if coord !in grown {
        JoinStep(basin, grown, added, coord);
        grown := grown + {coord};
        pending := pending + [coord];
        added := added + [coord];
      }
    }
    assert nnn[..|nnn|] == nnn;
    JoinDone(basin, grown, added, toCheck);
  }

  /** The cells listed in s. */
  ghost function Elems(s: seq<Coord>): set<Coord> {
    set q | q in s
  }

  lemma ElemsSnoc(s: seq<Coord>, x: Coord)
    ensures Elems(s + [x]) == Elems(s) + {x}
  {
  }

  /** added lists the cells that joined the basin, each once. */
  ghost predicate Joined(basin: set<Coord>, grown: set<Coord>, added: seq<Coord>) {
    basin <= grown && Elems(added) == grown - basin && |added| == |grown - basin|
  }

  lemma JoinStep(basin: set<Coord>, grown: set<Coord>, added: seq<Coord>, coord: Coord)
    requires Joined(basin, grown, added) && coord !in grown
    ensures Joined(basin, grown + {coord}, added + [coord])
  {
    ElemsSnoc(added, coord);
    assert (grown + {coord}) - basin == (grown - basin) + {coord};
  }

  lemma JoinDone(basin: set<Coord>, grown: set<Coord>, added: seq<Coord>, toCheck: seq<Coord>)
    requires Joined(basin, grown, added)
    ensures forall x :: x in toCheck + added <==> x in toCheck || x in grown - basin
    ensures |toCheck + added| == |toCheck| + |grown - basin|
    ensures |grown| == |basin| + |grown - basin|
  {
    assert grown == basin + (grown - basin) && basin !! (grown - basin);
  }

  /**
   * What holds between two turns of the worklist loop of `basin_size`: the
   * basin lies in the map (and holds the start when least is 0), every
   * pending cell is the start or in the basin, every basin cell is reached
   * by a walk of at least `least` steps, and every cell visited and not
   * pending has all its non-9 neighbours in the basin.
   */
  ghost predicate FloodState(hm: HeightMap, start: Coord, least: nat, basin: set<Coord>, toCheck: seq<Coord>,
                             paths: map<Coord, seq<Coord>>)
    requires IsMap(hm)
  {
    && basin <= Cells(hm)
    && (least == 0 ==> start in basin)
    && (forall x :: x in toCheck ==> x == start || x in basin)
    && (forall b :: b in basin ==> b in paths && WalkFrom(hm, paths[b], start, b, least))
    && (forall x :: (x == start || x in basin) && x !in toCheck ==> Closed(hm, x, basin))
  }

  /** One turn of the loop, popping check and spreading to its neighbours nnn, keeps the loop's state. */
  lemma VisitKeeps(hm: HeightMap, start: Coord, least: nat, check: Coord, nnn: seq<Coord>,
                   basin0: set<Coord>, basin: set<Coord>, toCheck0: seq<Coord>, toCheck: seq<Coord>,
                   paths0: map<Coord, seq<Coord>>)
      returns (paths: map<Coord, seq<Coord>>)
    requires IsMap(hm) && InMap(hm, start) && least <= 1
    requires FloodState(hm, start, least, basin0, toCheck0, paths0)
    requires toCheck0 != [] && toCheck0[|toCheck0| - 1] == check
    requires forall q :: q in nnn <==> Step(hm, check, q)
    requires basin == basin0 + Elems(nnn)
    requires forall x :: x in toCheck <==> x in toCheck0[..|toCheck0| - 1] || x in basin - basin0
    ensures FloodState(hm, start, least, basin, toCheck, paths)
    ensures basin0 <= basin <= Cells(hm)
  {
    assert check in toCheck0;
    var path: seq<Coord> := if check in basin0 then paths0[check] else [start];
    assert WalkFrom(hm, path, start, check, 0);
    paths := PathsAfterVisit(hm, start, least, check, path, nnn, basin0, basin, paths0);
    ClosedAfterVisit(hm, start, check, nnn, basin0, basin, toCheck0, toCheck);
    GrowsWithin(hm, check, nnn, basin0, basin);
  }

  /** One turn of the worklist loop: pop the last pending cell and spread to its non-9 neighbours. */
  method Visit(hm: HeightMap, start: Coord, ghost least: nat, basin0: set<Coord>, toCheck0: seq<Coord>,
               ghost paths0: map<Coord, seq<Coord>>)
      returns (basin: set<Coord>, toCheck: seq<Coord>, ghost paths: map<Coord, seq<Coord>>)
    requires IsMap(hm) && InMap(hm, start) && least <= 1 && toCheck0 != []
    requires FloodState(hm, start, least, basin0, toCheck0, paths0)
    ensures FloodState(hm, start, least, basin, toCheck, paths)
    ensures basin0 <= basin <= Cells(hm)
    ensures |basin| - |basin0| == |toCheck| - |toCheck0| + 1
  {
    var check := toCheck0[|toCheck0| - 1];
    var nnn := NonNineNeighbors(hm, check);
    basin, toCheck := Spread(nnn, basin0, toCheck0[..|toCheck0| - 1]);
    paths := VisitKeeps(hm, start, least, check, nnn, basin0, basin, toCheck0, toCheck, paths0);
  }

  /**
   * The worklist loop of `basin_size`. The source starts with an empty basin
   * (includeStart false), so the start joins it only if the flood comes back
   * to it; with includeStart the start is in the basin from the outset.
   * Either way the basin is exactly the cells reached in at least one step
   * (respectively at least none), and the cells pushed after the start are
   * the cells that joined the basin, each once.
   */
  method Flood(hm: HeightMap, start: Coord, includeStart: bool) returns (size: nat, ghost pushes: nat)
    requires IsMap(hm) && InMap(hm, start)
    ensures size == |Basin(hm, start, if includeStart then 0 else 1)|
    ensures size <= |hm| * |hm[0]|
    ensures pushes <= size
  {
    ghost var cells := Cells(hm);
    ghost var least: nat := if includeStart then 0 else 1;
    var basin: set<Coord> := if includeStart then {start} else {};
    var toCheck := [start];
    ghost var paths: map<Coord, seq<Coord>> := if includeStart then map[start := [start]] else map[];
    pushes := 0;
    while |toCheck| > 0
      invariant FloodState(hm, start, least, basin, toCheck, paths)
      invariant pushes + (if includeStart then 1 else 0) == |basin|
      decreases |cells - basin|, |toCheck|
    {
      ghost var basin0, toCheck0 := basin, toCheck;
      basin, toCheck, paths := Visit(hm, start, least, basin, toCheck, paths);
      pushes := pushes + (|toCheck| - |toCheck0| + 1);
      if basin != basin0 {
        RemainingShrinks(cells, basin0, basin);
      }
    }
    size := |basin|;
    AtMostAll(hm, basin);
    FloodDone(hm, start, least, basin, paths);
  }

  /** `basin_size` as written: the basin starts empty. */
  method BasinSize(hm: HeightMap, coord: Coord) returns (size: nat)
    requires IsMap(hm) && InMap(hm, coord)
    ensures size == |Basin(hm, coord, 1)|
    ensures size <= |hm| * |hm[0]|
  {
    ghost var pushes;
    size, pushes := Flood(hm, coord, false);
  }

  /**
   * A low point all of whose neighbours are 9, such as the one cell of a
   * 1 × 1 map, is never reached again by its own flood, so `basin_size`
   * reports 0 for a basin that holds at least the low point.
   */
  lemma IsolatedLowPoint()
    ensures IsMap([[0]]) && IsLowest([[0]], 0, 0)
    ensures Basin([[0]], (0, 0), 1) == {}
    ensures (0, 0) in Basin([[0]], (0, 0), 0)
  {
    var hm: HeightMap := [[0]];
    forall b | b in Basin(hm, (0, 0), 1) ensures false {
      var p :| WalkFrom(hm, p, (0, 0), b, 1);
      WalkSingle(hm, p);
    }
    StartInBasin(hm, (0, 0));
  }

  /** `basin_size` with the low point counted in its own basin. */
  method BasinSizeCounted(hm: HeightMap, coord: Coord) returns (size: nat)
    requires IsMap(hm) && InMap(hm, coord)
    ensures size == |Basin(hm, coord, 0)|
    ensures 1 <= size <= |hm| * |hm[0]|
  {
    ghost var pushes;
    size, pushes := Flood(hm, coord, true);
    StartInBasin(hm, coord);
  }

  /**
   * The two counts differ only at an isolated start: once the flood can
   * leave the start, it can come back, so the start is reached in two steps.
   */
  lemma BasinsAgree(hm: HeightMap, s: Coord, q: Coord)
    requires IsMap(hm) && InMap(hm, s) && Height(hm, s) != 9 && Step(hm, s, q)
    ensures Basin(hm, s, 1) == Basin(hm, s, 0)
  {
    forall b | b in Basin(hm, s, 0) ensures b in Basin(hm, s, 1) {
      var p :| WalkFrom(hm, p, s, b, 0);
      if |p| == 1 {
        assert Step(hm, q, s);
        assert WalkFrom(hm, [s, q, s], s, b, 1);
      } else {
        assert WalkFrom(hm, p, s, b, 1);
      }
    }
    forall b | b in Basin(hm, s, 1) ensures b in Basin(hm, s, 0) {
      var p :| WalkFrom(hm, p, s, b, 1);
      assert WalkFrom(hm, p, s, b, 0);
    }
  }

  // ---------------------------------------------------------------------------
  // q2
  // ---------------------------------------------------------------------------

  /** The basin size of each listed low point, in order. */
  ghost function BasinSizes(hm: HeightMap, pts: seq<Coord>): (sizes: seq<nat>)
    requires IsMap(hm) && forall q :: q in pts ==> InMap(hm, q)
    ensures |sizes| == |pts|
  {
    if pts == [] then []
    else BasinSizes(hm, pts[..|pts| - 1]) + [|Basin(hm, pts[|pts| - 1], 0)|]
  }

  function Product(s: seq<int>): int {
    if s == [] then 1 else s[0] * Product(s[1..])
  }

  /** `.rev().take(3)` of a list: its last three entries, or all of it if shorter. */
  function TopThree(s: seq<int>): (top: seq<int>)
    ensures |top| == if |s| < 3 then |s| else 3
  {
    if |s| <= 3 then s else s[|s| - 3..]
  }

  /**
   * After the sort, the three taken are sizes of the list, and no size left
   * behind is larger than any of them.
   */
  lemma TopThreeLargest(sizes: seq<int>)
    ensures multiset(TopThree(Sort(sizes))) <= multiset(sizes)
    ensures forall x, t :: x in multiset(sizes) - multiset(TopThree(Sort(sizes))) && t in TopThree(Sort(sizes)) ==> x <= t
  {
    var sorted := Sort(sizes);
    SortSorted(sizes);
    var top := TopThree(sorted);
    var rest := sorted[..|sorted| - |top|];
    assert sorted == rest + top;
    assert multiset(sizes) == multiset(rest) + multiset(top);
    forall x, t | x in multiset(sizes) - multiset(top) && t in top ensures x <= t {
      assert x in rest;
    }
  }

  /** `q2`: the basin size of every low point, sorted, and the product of the three largest. */
  method LargestBasins(hm: HeightMap) returns (product: int)
    requires IsMap(hm)
    ensures product == Product(TopThree(Sort(BasinSizes(hm, LowPoints(hm)))))
  {
    var lowest := FindLowestPoints(hm);
    var result: seq<nat> := [];
    for i := 0 to |lowest|
      invariant result == BasinSizes(hm, lowest[..i])
    {
      assert lowest[..i + 1][..i] == lowest[..i];
      var size := BasinSizeCounted(hm, lowest[i]);
      result := result + [size];
    }
    assert lowest[..|lowest|] == lowest;
    var sorted := Sort(result);
    product := Product(TopThree(sorted));
  }
}
