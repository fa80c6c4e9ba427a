/**
 * Chiton (src/day15.rs): a map of risk levels. `neighbors` lists the cells a
 * path may move to next, and `quintuple_map` builds the full map of the
 * second part: the original tile repeated five times down and five times
 * across, each tile's risks raised by its distance in tiles from the top
 * left, with risks above 9 wrapping round to 1.
 */
module Chiton {

  /** Rows of risk levels, as `parse` builds them: every row as long as the first. */
  type RiskMap = seq<seq<nat>>

  /** A cell (row, column). */
  type Coord = (nat, nat)

  /**
   * A map the source can work on: `neighbors` and `quintuple_map` read the
   * first row, and `neighbors` subtracts one from both lengths.
   */
  predicate IsMap(m: RiskMap) {
    |m| > 0 && |m[0]| > 0 && forall r :: 0 <= r < |m| ==> |m[r]| == |m[0]|
  }

  predicate InMap(m: RiskMap, c: Coord)
    requires IsMap(m)
  {
    c.0 < |m| && c.1 < |m[0]|
  }

  function Dist(a: nat, b: nat): nat {
    if a <= b then b - a else a - b
  }

  /** q is a cell of the map one row or one column away from c. */
  predicate Adjacent(m: RiskMap, c: Coord, q: Coord)
    requires IsMap(m)
  {
    InMap(m, q) && Dist(c.0, q.0) + Dist(c.1, q.1) == 1
  }

  /** The direction from c to an orthogonal neighbour q: 0 up, 1 left, 2 down, 3 right. */
  function Direction(c: Coord, q: Coord): nat {
    if q.0 < c.0 then 0 else if q.1 < c.1 then 1 else if q.0 > c.0 then 2 else 3
  }

  /** The cells next to coord that `neighbors` lists, in its order: up, left, down, right. */
  function Around(coord: Coord, rows: nat, cols: nat): seq<Coord> {
    (if coord.0 > 0 then [(coord.0 - 1, coord.1)] else []) +
    (if coord.1 > 0 then [(coord.0, coord.1 - 1)] else []) +
    (if coord.0 + 1 < rows then [(coord.0 + 1, coord.1)] else []) +
    (if coord.1 + 1 < cols then [(coord.0, coord.1 + 1)] else [])
  }

  /** Every listed cell is one step from coord, and never coord itself. */
  lemma AroundNear(coord: Coord, rows: nat, cols: nat)
    ensures |Around(coord, rows, cols)| <= 4
    ensures forall q :: q in Around(coord, rows, cols) ==> q != coord && Dist(coord.0, q.0) + Dist(coord.1, q.1) == 1
  {
  }

  /** For a cell of the map, the listed cells are exactly its neighbours in the map. */
  lemma AroundExact(m: RiskMap, coord: Coord)
    requires IsMap(m) && InMap(m, coord)
    ensures forall q :: q in Around(coord, |m|, |m[0]|) <==> Adjacent(m, coord, q)
  {
    forall q: Coord | Adjacent(m, coord, q)
      ensures q in Around(coord, |m|, |m[0]|)
    {
      if q.0 < coord.0 {
        assert q == (coord.0 - 1, coord.1);
      } else if q.1 < coord.1 {
        assert q == (coord.0, coord.1 - 1);
      } else if q.0 > coord.0 {
        assert q == (coord.0 + 1, coord.1);
      } else {
        assert q == (coord.0, coord.1 + 1);
      }
    }
  }

  /** The listed cells come in strictly increasing direction. */
  lemma AroundOrdered(coord: Coord, rows: nat, cols: nat)
    ensures forall i, j :: 0 <= i < j < |Around(coord, rows, cols)| ==>
      Direction(coord, Around(coord, rows, cols)[i]) < Direction(coord, Around(coord, rows, cols)[j])
  {
  }

  /**
   * `neighbors`: the cells above, to the left, below and to the right, in
   * that order, that lie in the map; never the cell itself.
   */
  method Neighbors(coord: Coord, m: RiskMap) returns (results: seq<Coord>)
    requires IsMap(m)
    ensures |results| <= 4
    ensures forall q :: q in results ==> q != coord && Dist(coord.0, q.0) + Dist(coord.1, q.1) == 1
    ensures InMap(m, coord) ==> forall q :: q in results <==> Adjacent(m, coord, q)
    ensures forall i, j :: 0 <= i < j < |results| ==> Direction(coord, results[i]) < Direction(coord, results[j])
  {
    results := [];
    if coord.0 > 0 {
      results := results + [(coord.0 - 1, coord.1)];
    }
    if coord.1 > 0 {
      results := results + [(coord.0, coord.1 - 1)];
    }
    if coord.0 < |m| - 1 {
      results := results + [(coord.0 + 1, coord.1)];
    }
    if coord.1 < |m[0]| - 1 {
      results := results + [(coord.0, coord.1 + 1)];
    }
    assert results == Around(coord, |m|, |m[0]|);
    AroundNear(coord, |m|, |m[0]|);
    AroundOrdered(coord, |m|, |m[0]|);
    if InMap(m, coord) {
      AroundExact(m, coord);
    }
  }

  // ---------------------------------------------------------------------------
  // quintuple_map
  // ---------------------------------------------------------------------------

  /** The closure in both passes: a risk above 9 drops by 9. */
  function Wrap(risk: nat): nat {
    if risk > 9 then risk - 9 else risk
  }

  /** A risk level from 1 to 9 raised by `step` and wrapped round 9, 1, 2, ... */
  function Raised(risk: nat, step: nat): (r: nat)
    requires 1 <= risk <= 9
    ensures 1 <= r <= 9
  {
    (risk - 1 + step) % 9 + 1
  }

  /** Every risk is a level from 1 to 9. */
  predicate Levels(m: RiskMap) {
    forall r, c :: 0 <= r < |m| && 0 <= c < |m[r]| ==> 1 <= m[r][c] <= 9
  }

  /** The position of index i in a cycle of length n, as `cycle()` repeats a row or the rows. */
  function Cycle(i: nat, n: nat): (k: nat)
    requires 0 < n
    ensures k < n
  {
    i % n
  }

  /** How many whole cycles of length n come before index i. */
  function Lap(i: nat, n: nat): nat
    requires 0 < n
  {
    i / n
  }

  /**
   * `quintuple_map` as written. The inner pass repeats each row for
   * nrows × 5 entries and raises entry j by j / nrows; the outer pass
   * repeats the rows for ncols × 5 rows and raises row i by i / nrows.
   */
  function QuintupleAsWritten(m: RiskMap): (big: RiskMap)
    requires IsMap(m)
    ensures |big| == 5 * |m[0]| && forall i :: 0 <= i < |big| ==> |big[i]| == 5 * |m|
  {
    var nrows, ncols := |m|, |m[0]|;
    seq<seq<nat>>(ncols * 5, i requires 0 <= i < ncols * 5 =>
      seq<nat>(nrows * 5, j requires 0 <= j < nrows * 5 =>
        Wrap(Wrap(m[Cycle(i, nrows)][Cycle(j, ncols)] + Lap(j, nrows)) + Lap(i, nrows))))
  }

  /**
   * `quintuple_map` with the column count where the inner pass and the
   * outer `take` use the row count: nrows × 5 rows of ncols × 5 entries,
   * entry j of a row raised by j / ncols.
   */
  function Quintuple(m: RiskMap): (big: RiskMap)
    requires IsMap(m)
    ensures |big| == 5 * |m| && forall i :: 0 <= i < |big| ==> |big[i]| == 5 * |m[0]|
  {
    var nrows, ncols := |m|, |m[0]|;
    seq<seq<nat>>(nrows * 5, i requires 0 <= i < nrows * 5 =>
      seq<nat>(ncols * 5, j requires 0 <= j < ncols * 5 =>
        Wrap(Wrap(m[Cycle(i, nrows)][Cycle(j, ncols)] + Lap(j, ncols)) + Lap(i, nrows))))
  }

  /** Wrapping after each of two raises of at most 4 is one raise by their sum. */
  lemma WrapTwice(x: nat, a: nat, b: nat)
    requires 1 <= x <= 9 && a <= 4 && b <= 4
    ensures 1 <= Wrap(x + a) <= 9
    ensures Wrap(Wrap(x + a) + b) == Raised(x, a + b)
  {
    var s := x - 1 + a + b;
    if s < 9 {
      assert s % 9 == s;
    } else {
      assert s - 9 < 9;
      assert s % 9 == s - 9;
    }
  }

  /** An index below five cycles is in one of the first five laps. */
  lemma FiveLaps(i: nat, n: nat)
    requires 0 < n && i < 5 * n
    ensures Lap(i, n) <= 4
  {
  }

  /** An index within the first cycle is its own position, in lap 0. */
  lemma FirstLap(i: nat, n: nat)
    requires i < n
    ensures Lap(i, n) == 0 && Cycle(i, n) == i
  {
  }

  /**
   * The tile law: the entry at (i, j) of the full map is the original risk
   * at (i mod nrows, j mod ncols) raised by the tile's row plus its column
   * and wrapped round, so every entry is again a level from 1 to 9.
   */
  lemma QuintupleTiles(m: RiskMap, i: nat, j: nat)
    requires IsMap(m) && Levels(m) && i < 5 * |m| && j < 5 * |m[0]|
    ensures Quintuple(m)[i][j] == Raised(m[Cycle(i, |m|)][Cycle(j, |m[0]|)], Lap(i, |m|) + Lap(j, |m[0]|))
    ensures 1 <= Quintuple(m)[i][j] <= 9
  {
    FiveLaps(i, |m|);
    FiveLaps(j, |m[0]|);
    WrapTwice(m[Cycle(i, |m|)][Cycle(j, |m[0]|)], Lap(j, |m[0]|), Lap(i, |m|));
  }

  /** A positive multiple of n is at least n. */
  lemma MultipleAtLeast(k: nat, n: nat)
    requires 1 <= k
    ensures k * n >= n
  {
    assert k * n == (k - 1) * n + n;
  }

  /** The quotient and remainder of x by n are the only ones with the remainder below n. */
  lemma DivModUnique(x: nat, n: nat, q: nat, r: nat)
    requires r < n && x == q * n + r
    ensures x / n == q && x % n == r
  {
    var q', r' := x / n, x % n;
    assert x == q' * n + r';
    if q' < q {
      assert q * n == (q - q') * n + q' * n;
      MultipleAtLeast(q - q', n);
    } else if q' > q {
      assert q' * n == (q' - q) * n + q * n;
      MultipleAtLeast(q' - q, n);
    }
  }

  /** Shifting an index by n moves it one lap on and keeps its place in the cycle. */
  lemma NextLap(i: nat, n: nat)
    requires 0 < n
    ensures Lap(i + n, n) == Lap(i, n) + 1 && Cycle(i + n, n) == Cycle(i, n)
  {
    DivModUnique(i + n, n, i / n + 1, i % n);
  }

  /** Raising by t and then by one is raising by t + 1. */
  lemma RaisedOnce(x: nat, t: nat)
    requires 1 <= x <= 9
    ensures Raised(Raised(x, t), 1) == Raised(x, t + 1)
  {
    var s := (x - 1 + t) % 9;
    assert (x - 1 + t + 1) % 9 == (s + 1) % 9;
  }

  lemma RaisedZero(x: nat)
    requires 1 <= x <= 9
    ensures Raised(x, 0) == x
  {
  }

  /** The top left tile is the original map. */
  lemma QuintupleKeepsOriginal(m: RiskMap, i: nat, j: nat)
    requires IsMap(m) && Levels(m) && i < |m| && j < |m[0]|
    ensures Quintuple(m)[i][j] == m[i][j]
  {
    QuintupleTiles(m, i, j);
    FirstLap(i, |m|);
    FirstLap(j, |m[0]|);
    RaisedZero(m[i][j]);
  }

  /** Moving one tile down or across raises the risk by one, round 9. */
  lemma QuintupleNextTile(m: RiskMap, i: nat, j: nat)
    requires IsMap(m) && Levels(m) && i + |m| < 5 * |m| && j + |m[0]| < 5 * |m[0]|
    ensures 1 <= Quintuple(m)[i][j] <= 9
    ensures Quintuple(m)[i + |m|][j] == Raised(Quintuple(m)[i][j], 1)
    ensures Quintuple(m)[i][j + |m[0]|] == Raised(Quintuple(m)[i][j], 1)
  {
    var nrows, ncols := |m|, |m[0]|;
    QuintupleTiles(m, i, j);
    QuintupleTiles(m, i + nrows, j);
    QuintupleTiles(m, i, j + ncols);
    NextLap(i, nrows);
    NextLap(j, ncols);
    RaisedOnce(m[Cycle(i, nrows)][Cycle(j, ncols)], Lap(i, nrows) + Lap(j, ncols));
  }

  /** On a square map, which the puzzle's input is, the code as written builds the intended map. */
  lemma AsWrittenSquare(m: RiskMap)
    requires IsMap(m) && |m| == |m[0]|
    ensures QuintupleAsWritten(m) == Quintuple(m)
  {
  }

  /**
   * As written, the tile law holds with tiles `nrows` wide on both axes:
   * inside the first 5 × nrows rows, entry (i, j) is the original risk at
   * (i mod nrows, j mod ncols) raised by i / nrows + j / nrows.
   */
  lemma AsWrittenTiles(m: RiskMap, i: nat, j: nat)
    requires IsMap(m) && Levels(m) && i < 5 * |m[0]| && i < 5 * |m| && j < 5 * |m|
    ensures QuintupleAsWritten(m)[i][j] == Raised(m[Cycle(i, |m|)][Cycle(j, |m[0]|)], Lap(i, |m|) + Lap(j, |m|))
    ensures 1 <= QuintupleAsWritten(m)[i][j] <= 9
  {
    FiveLaps(i, |m|);
    FiveLaps(j, |m|);
    WrapTwice(m[Cycle(i, |m|)][Cycle(j, |m[0]|)], Lap(j, |m|), Lap(i, |m|));
  }

  /**
   * Past row 5 × nrows of a wide map the row raise exceeds 4 and a single
   * subtraction of 9 no longer brings the risk back: the map [[1, 2, 3]]
   * gets the risk 11 at row 14, column 4.
   */
  lemma AsWrittenAboveNine()
    ensures IsMap([[1, 2, 3]]) && Levels([[1, 2, 3]])
    ensures |QuintupleAsWritten([[1, 2, 3]])| == 15 && QuintupleAsWritten([[1, 2, 3]])[14][4] == 11
  {
    var m: RiskMap := [[1, 2, 3]];
    assert Cycle(14, 1) == 0 && Cycle(4, 3) == 1 && Lap(4, 1) == 4 && Lap(14, 1) == 14;
  }

  /**
   * On a map of one row and two columns the code as written builds ten rows
   * of five entries, with the columns raised at the wrong places, where five
   * rows of ten are meant.
   */
  lemma AsWrittenOblong()
    ensures IsMap([[1, 2]]) && Levels([[1, 2]])
    ensures |QuintupleAsWritten([[1, 2]])| == 10 && QuintupleAsWritten([[1, 2]])[0] == [1, 3, 3, 5, 5]
    ensures |Quintuple([[1, 2]])| == 5 && Quintuple([[1, 2]])[0] == [1, 2, 2, 3, 3, 4, 4, 5, 5, 6]
  {
    OblongAsWrittenRow();
    OblongCorrectedRow();
  }

  lemma OblongAsWrittenRow()
    ensures QuintupleAsWritten([[1, 2]])[0] == [1, 3, 3, 5, 5]
  {
    var m: RiskMap := [[1, 2]];
    assert IsMap(m) && |m| == 1 && |m[0]| == 2;
    assert Levels(m);
    AsWrittenTiles(m, 0, 0);
    AsWrittenTiles(m, 0, 1);
    AsWrittenTiles(m, 0, 2);
    AsWrittenTiles(m, 0, 3);
    AsWrittenTiles(m, 0, 4);
  }

  lemma OblongCorrectedRow()
    ensures Quintuple([[1, 2]])[0] == [1, 2, 2, 3, 3, 4, 4, 5, 5, 6]
  {
    var m: RiskMap := [[1, 2]];
    assert IsMap(m) && Levels(m) && |m| == 1 && |m[0]| == 2;
    QuintupleTiles(m, 0, 0);
    QuintupleTiles(m, 0, 1);
    QuintupleTiles(m, 0, 2);
    QuintupleTiles(m, 0, 3);
    QuintupleTiles(m, 0, 4);
    QuintupleTiles(m, 0, 5);
    QuintupleTiles(m, 0, 6);
    QuintupleTiles(m, 0, 7);
    QuintupleTiles(m, 0, 8);
    QuintupleTiles(m, 0, 9);
  }
}
