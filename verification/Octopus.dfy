/**
 * Dumbo octopuses (src/day11.rs): a 10×10 grid of energy levels. A step
 * raises every level by one; every octopus above 9 flashes, which raises
 * each of its up to eight neighbours by one, possibly making them flash in
 * turn; no octopus flashes twice in a step, and every one that flashed ends
 * the step at 0.
 */
module Octopus {

  /** A cell (row, column). */
  type Coord = (nat, nat)

  predicate InGrid(c: Coord) {
    c.0 < 10 && c.1 < 10
  }

  function Dist(a: nat, b: nat): nat {
    if a <= b then b - a else a - b
  }

  /** q is one of c's neighbours: inside the grid, one step away on both axes, not c. */
  predicate Adjacent(c: Coord, q: Coord) {
    InGrid(q) && q != c && Dist(c.0, q.0) <= 1 && Dist(c.1, q.1) <= 1
  }

  /** The cells of a rows × cols rectangle at the origin. */
  function Rect(rows: nat, cols: nat): set<Coord> {
    set i: nat, j: nat | i < rows && j < cols :: (i, j)
  }

  function AllCells(): set<Coord> {
    Rect(10, 10)
  }

  /** The cell at offset (di, dj) from c, if it is inside the grid. */
  function Shifted(c: Coord, di: int, dj: int): set<Coord> {
    if 0 <= c.0 + di < 10 && 0 <= c.1 + dj < 10 then {(c.0 + di, c.1 + dj)} else {}
  }

  /** c's neighbours, as a set: the eight offsets, clipped to the grid. */
  function Around(c: Coord): set<Coord> {
    Shifted(c, -1, -1) + Shifted(c, -1, 0) + Shifted(c, -1, 1) +
    Shifted(c, 0, -1) + Shifted(c, 0, 1) +
    Shifted(c, 1, -1) + Shifted(c, 1, 0) + Shifted(c, 1, 1)
  }

  lemma AllCellsInGrid(q: Coord)
    ensures q in AllCells() <==> InGrid(q)
  {
    if InGrid(q) {
      assert q == (q.0, q.1);
    }
  }

  /** Being neighbours is symmetric inside the grid. */
  lemma AroundSymmetric(c: Coord, q: Coord)
    requires InGrid(c) && InGrid(q)
    ensures q in Around(c) <==> c in Around(q)
  {
    AroundAdjacent(c, q);
    AroundAdjacent(q, c);
  }

  // ---------------------------------------------------------------------------
  // Counting cells
  // ---------------------------------------------------------------------------

  function Row(i: nat, cols: nat): set<Coord> {
    set j: nat | j < cols :: (i, j)
  }

  lemma {:induction false} RowCount(i: nat, cols: nat)
    ensures |Row(i, cols)| == cols
  {
    if cols > 0 {
      RowCount(i, cols - 1);
      assert Row(i, cols) == Row(i, cols - 1) + {(i, cols - 1)};
    }
  }

  /** The grid's first rows rows hold 10 cells each. */
  lemma {:induction false} RectCount(rows: nat)
    ensures |Rect(rows, 10)| == 10 * rows
  {
    if rows > 0 {
      RectCount(rows - 1);
      RowCount(rows - 1, 10);
      assert Rect(rows, 10) == Rect(rows - 1, 10) + Row(rows - 1, 10);
      assert Rect(rows - 1, 10) !! Row(rows - 1, 10);
    }
  }

  /** A subset is no larger. */
  lemma SubsetCount<T>(a: set<T>, b: set<T>)
    requires a <= b
    ensures |a| <= |b|
  {
    assert b == a + (b - a);
  }

  /** At most 100 cells flash in a step. */
  lemma AtMostAll(cells: set<Coord>)
    requires cells <= AllCells()
    ensures |cells| <= 100
  {
    SubsetCount(cells, AllCells());
    RectCount(10);
  }

  /** Growing a set shrinks what is left of a superset. */
  lemma RemainingShrinks(all: set<Coord>, done: set<Coord>, more: set<Coord>)
    requires more <= all && more != {} && done !! more
    ensures |all - (done + more)| < |all - done|
  {
    assert all - done == (all - (done + more)) + more;
  }

  // ---------------------------------------------------------------------------
  // neighbors
  // ---------------------------------------------------------------------------

  /** No entry of s repeats an earlier one. */
  predicate Distinct(s: seq<Coord>) {
    forall k :: 0 <= k < |s| ==> s[k] !in s[..k]
  }

  /** No two entries of s are equal. */
  predicate Unique(s: seq<Coord>) {
    forall j, k :: 0 <= j < k < |s| ==> s[j] != s[k]
  }

  lemma DistinctUnique(s: seq<Coord>)
    requires Distinct(s)
    ensures Unique(s)
  {
    forall j, k | 0 <= j < k < |s|
      ensures s[j] != s[k]
    {
      assert s[k] !in s[..k] && s[..k][j] == s[j];
    }
  }

  /**
   * `neighbors`: the cells of the 3×3 block around the cell, clipped to the
   * grid, row by row, leaving out the cell itself.
   */
  method Neighbors(c: Coord) returns (results: seq<Coord>)
    ensures forall q :: q in results <==> Adjacent(c, q)
    ensures Unique(results)
    ensures InGrid(c) ==> 3 <= |results| <= 8
  {
    var rowStart := if c.0 == 0 then 0 else c.0 - 1;
    var rowEnd := if c.0 + 1 < 9 then c.0 + 1 else 9;
    var colStart := if c.1 == 0 then 0 else c.1 - 1;
    var colEnd := if c.1 + 1 < 9 then c.1 + 1 else 9;
    ghost var width := if colStart <= colEnd then colEnd + 1 - colStart else 0;
    results := [];
    ghost var full := 0;
    var row := rowStart;
    while row < rowEnd + 1
      invariant rowStart <= row <= rowEnd + 1 || (row == rowStart && rowEnd + 1 < rowStart)
      invariant forall q: Coord :: q in results <==> Adjacent(c, q) && q.0 < row
      invariant Distinct(results)
      invariant |results| == full - (if rowStart <= c.0 < row && colStart <= c.1 <= colEnd then 1 else 0)
      invariant InGrid(c) ==> 2 * (row - rowStart) <= full <= 3 * (row - rowStart)
    {
      var col := colStart;
      ghost var before := |results|;
      while col < colEnd + 1
        invariant colStart <= col <= colEnd + 1 || (col == colStart && colEnd + 1 < colStart)
        invariant forall q: Coord :: q in results <==> Adjacent(c, q) && (q.0 < row || (q.0 == row && q.1 < col))
        invariant Distinct(results)
        invariant |results| == before + (col - colStart) - (if row == c.0 && colStart <= c.1 < col then 1 else 0)
      {
        if !(row == c.0 && col == c.1) {
          results := results + [(row, col)];
        }
        col := col + 1;
      }
      full := full + width;
      row := row + 1;
    }
    DistinctUnique(results);
  }

  // ---------------------------------------------------------------------------
  // forward_step
  // ---------------------------------------------------------------------------

  /** The grid the source holds, a `[[usize; 10]; 10]`. */
  predicate IsGrid(grid: array2<nat>) {
    grid.Length0 == 10 && grid.Length1 == 10
  }

  /** Energy levels as a value, row by row. */
  type Levels = seq<seq<nat>>

  predicate IsLevels(g: Levels) {
    |g| == 10 && forall i :: 0 <= i < 10 ==> |g[i]| == 10
  }

  function At(g: Levels, q: Coord): nat
    requires IsLevels(g) && InGrid(q)
  {
    g[q.0][q.1]
  }

  /** The array holds the levels g. */
  predicate Mirrors(grid: array2<nat>, g: Levels)
    reads grid
  {
    IsGrid(grid) && IsLevels(g) && forall a, b :: 0 <= a < 10 && 0 <= b < 10 ==> grid[a, b] == g[a][b]
  }

  /** The levels the array holds. */
  ghost method Snapshot(grid: array2<nat>) returns (g: Levels)
    requires IsGrid(grid)
    ensures Mirrors(grid, g)
  {
    g := seq(10, i requires 0 <= i < 10 reads grid => seq(10, j requires 0 <= j < 10 reads grid => grid[i, j]));
  }

  /** The levels with one more unit at q. */
  function Raise(g: Levels, q: Coord): (r: Levels)
    requires IsLevels(g) && InGrid(q)
    ensures IsLevels(r)
    ensures forall p :: InGrid(p) ==> At(r, p) == At(g, p) + (if p == q then 1 else 0)
  {
    g[q.0 := g[q.0][q.1 := g[q.0][q.1] + 1]]
  }

  /** How many of q's neighbours are among the flashed cells. */
  function Flashes(flashed: set<Coord>, q: Coord): nat {
    |flashed * Around(q)|
  }

  /** A cell's level after the step's own unit and one unit per flashed neighbour. */
  function Value(start: Levels, flashed: set<Coord>, q: Coord): nat
    requires IsLevels(start) && InGrid(q)
  {
    At(start, q) + 1 + Flashes(flashed, q)
  }

  /** The cell comes before (i, j) in row-major order. */
  predicate Before(q: Coord, i: nat, j: nat) {
    q.0 < i || (q.0 == i && q.1 < j)
  }

  /**
   * F is closed under flashing from `start`: every cell whose level, plus
   * one, plus one per neighbour in F, exceeds 9 is itself in F.
   */
  ghost predicate Closed(start: Levels, F: set<Coord>) {
    IsLevels(start) && F <= AllCells() &&
    forall q :: InGrid(q) && Value(start, F, q) > 9 ==> q in F
  }

  /** Every cell of `over` had to flash: it lies in every closed set. */
  ghost predicate Forced(start: Levels, over: set<Coord>) {
    forall F {:trigger Closed(start, F)} :: Closed(start, F) ==> over <= F
  }

  /**
   * One step took the levels `before` to `after`: a cell flashed exactly when
   * its level plus one plus its number of flashed neighbours exceeds 9, and
   * no cell flashed that did not have to (the flashed set is the least one
   * closed under flashing); a flashed cell ends at 0, and every other cell
   * ends at that sum.
   */
  ghost predicate Stepped(before: Levels, flashed: set<Coord>, after: Levels) {
    Settled(before, flashed, after) && Forced(before, flashed)
  }

  /** The cell-by-cell part of Stepped: the flash rule holds at every cell, and the levels after follow. */
  ghost predicate Settled(before: Levels, flashed: set<Coord>, after: Levels) {
    IsLevels(before) && IsLevels(after) && flashed <= AllCells() &&
    forall a, b :: 0 <= a < 10 && 0 <= b < 10 ==>
      ((a, b) in flashed <==> before[a][b] + 1 + Flashes(flashed, (a, b)) > 9) &&
      after[a][b] == if (a, b) in flashed then 0 else before[a][b] + 1 + Flashes(flashed, (a, b))
  }

  /**
   * `forward_step`: raise every level, let the flashes cascade, reset the
   * flashed cells to 0 and return how many flashed.
   */
  method ForwardStep(grid: array2<nat>) returns (count: nat, ghost flashed: set<Coord>, ghost before: Levels, ghost after: Levels)
    requires IsGrid(grid)
    modifies grid
    ensures old(Mirrors(grid, before)) && Mirrors(grid, after)
    ensures Stepped(before, flashed, after)
    ensures count == |flashed| && count <= 100
  {
    before := Snapshot(grid);
    var over, g := RaiseAll(grid, before);
    ghost var g';
    over, g' := Cascade(grid, before, g, over);
    flashed := over;
    ResetFlashed(grid, over);
    after := Snapshot(grid);
    count := |over|;
    AtMostAll(over);
  }

  /** A step leaves every level at 0 exactly when every octopus flashed in it. */
  lemma SteppedAllZero(before: Levels, flashed: set<Coord>, after: Levels)
    requires Stepped(before, flashed, after)
    ensures AllZero(after) <==> flashed == AllCells()
  {
    if AllZero(after) {
      forall q | q in AllCells()
        ensures q in flashed
      {
        AllCellsInGrid(q);
        assert after[q.0][q.1] == 0;
      }
    }
    if flashed == AllCells() {
      forall a, b | 0 <= a < 10 && 0 <= b < 10
        ensures after[a][b] == 0
      {
        AllCellsInGrid((a, b));
      }
    }
  }

  predicate AllZero(g: Levels)
    requires IsLevels(g)
  {
    forall a, b :: 0 <= a < 10 && 0 <= b < 10 ==> g[a][b] == 0
  }

  /** `all_flashing`: every level of the grid is 0. */
  method AllFlashing(grid: array2<nat>) returns (all: bool)
    requires IsGrid(grid)
    ensures forall g :: Mirrors(grid, g) ==> (all <==> AllZero(g))
  {
    all := true;
    for i := 0 to 10
      invariant all <==> forall a, b :: 0 <= a < 10 && 0 <= b < 10 && Before((a, b), i, 0) ==> grid[a, b] == 0
    {
      for j := 0 to 10
        invariant all <==> forall a, b :: 0 <= a < 10 && 0 <= b < 10 && Before((a, b), i, j) ==> grid[a, b] == 0
      {
        all := all && grid[i, j] == 0;
      }
    }
  }

  /** A step's flashed set is closed under flashing. */
  lemma SteppedClosed(before: Levels, flashed: set<Coord>, after: Levels)
    requires Stepped(before, flashed, after)
    ensures Closed(before, flashed)
  {
    forall q | InGrid(q) && Value(before, flashed, q) > 9
      ensures q in flashed
    {
      assert q == (q.0, q.1);
    }
  }

  /** Two grids with the same levels cell by cell are the same levels. */
  lemma SameLevels(g1: Levels, g2: Levels)
    requires IsLevels(g1) && IsLevels(g2)
    requires forall a, b :: 0 <= a < 10 && 0 <= b < 10 ==> g1[a][b] == g2[a][b]
    ensures g1 == g2
  {
    forall a | 0 <= a < 10
      ensures g1[a] == g2[a]
    {
      assert forall b :: 0 <= b < 10 ==> g1[a][b] == g2[a][b];
    }
  }

  /** The levels before a step decide it: which cells flash and the levels after. */
  lemma SteppedUnique(before: Levels, f1: set<Coord>, a1: Levels, f2: set<Coord>, a2: Levels)
    requires Stepped(before, f1, a1) && Stepped(before, f2, a2)
    ensures f1 == f2 && a1 == a2
  {
    LeastFlashes(before, f1, a1, f2, a2);
    LeastFlashes(before, f2, a2, f1, a1);
    assert f1 == f2;
    SameAfter(before, f1, a1, a2);
  }

  lemma LeastFlashes(before: Levels, f1: set<Coord>, a1: Levels, f2: set<Coord>, a2: Levels)
    requires Stepped(before, f1, a1) && Stepped(before, f2, a2)
    ensures f1 <= f2
  {
    SteppedClosed(before, f2, a2);
    assert Forced(before, f1);
  }

  lemma SameAfter(before: Levels, flashed: set<Coord>, a1: Levels, a2: Levels)
    requires Settled(before, flashed, a1) && Settled(before, flashed, a2)
    ensures a1 == a2
  {
    forall a, b | 0 <= a < 10 && 0 <= b < 10
      ensures a1[a][b] == a2[a][b]
    {
      var v := if (a, b) in flashed then 0 else before[a][b] + 1 + Flashes(flashed, (a, b));
      assert a1[a][b] == v && a2[a][b] == v;
    }
    SameLevels(a1, a2);
  }

  /** levels[s] steps to levels[s + 1], flashing flashes[s], for each step s. */
  ghost predicate Run(levels: seq<Levels>, flashes: seq<set<Coord>>) {
    |levels| == |flashes| + 1 &&
    forall s :: 0 <= s < |flashes| ==> Stepped(levels[s], flashes[s], levels[s + 1])
  }

  /** The number of flashes over a run, step by step. */
  ghost function FlashCount(flashes: seq<set<Coord>>): nat {
    if flashes == [] then 0 else FlashCount(flashes[..|flashes| - 1]) + |flashes[|flashes| - 1]|
  }

  /** Runs of the same length from the same levels are the same run. */
  lemma {:induction false} RunUnique(l1: seq<Levels>, f1: seq<set<Coord>>, l2: seq<Levels>, f2: seq<set<Coord>>)
    requires Run(l1, f1) && Run(l2, f2) && |f1| == |f2| && l1[0] == l2[0]
    ensures l1 == l2 && f1 == f2
    decreases |f1|
  {
    if f1 != [] {
      var n := |f1| - 1;
      RunUnique(l1[..n + 1], f1[..n], l2[..n + 1], f2[..n]);
      assert l1[n] == l1[..n + 1][n] && l2[n] == l2[..n + 1][n];
      SteppedUnique(l1[n], f1[n], l1[n + 1], f2[n], l2[n + 1]);
      assert l1 == l1[..n + 1] + [l1[n + 1]] && l2 == l2[..n + 1] + [l2[n + 1]];
      assert f1 == f1[..n] + [f1[n]] && f2 == f2[..n] + [f2[n]];
    }
  }

  /**
   * The loop of `q1`: `steps` steps, adding up the flashes. The total is
   * the number of flashes of the run of that many steps from the grid's
   * levels, which `RunUnique` shows is the only such run; at most every
   * octopus flashes in every step.
   */
  method TotalFlashes(grid: array2<nat>, steps: nat) returns (total: nat, ghost levels: seq<Levels>, ghost flashes: seq<set<Coord>>)
    requires IsGrid(grid)
    modifies grid
    ensures |flashes| == steps && Run(levels, flashes)
    ensures old(Mirrors(grid, levels[0])) && Mirrors(grid, levels[steps])
    ensures total == FlashCount(flashes) && total <= 100 * steps
  {
    total := 0;
    var start := Snapshot(grid);
    levels, flashes := [start], [];
    for s := 0 to steps
      invariant IsGrid(grid) && |flashes| == s && Run(levels, flashes)
      invariant old(Mirrors(grid, levels[0])) && Mirrors(grid, levels[s])
      invariant total == FlashCount(flashes) && total <= 100 * s
    {
      ghost var now := levels[s];
      var count, flashed, before, after := ForwardStep(grid);
      SameLevels(before, now);
      RunGrow(levels, flashes, flashed, after);
      FlashCountGrow(flashes, flashed);
      levels, flashes := levels + [after], flashes + [flashed];
      total := total + count;
    }
  }

  /** A run followed by one more step from its last levels is a run. */
  lemma RunGrow(levels: seq<Levels>, flashes: seq<set<Coord>>, flashed: set<Coord>, after: Levels)
    requires Run(levels, flashes) && Stepped(levels[|flashes|], flashed, after)
    ensures Run(levels + [after], flashes + [flashed])
  {
    var ls, fs := levels + [after], flashes + [flashed];
    forall s | 0 <= s < |fs|
      ensures Stepped(ls[s], fs[s], ls[s + 1])
    {
      if s < |flashes| {
        assert ls[s] == levels[s] && fs[s] == flashes[s] && ls[s + 1] == levels[s + 1];
      } else {
        assert ls[s] == levels[|flashes|] && fs[s] == flashed && ls[s + 1] == after;
      }
    }
  }

  /** One more step adds its flashes to the count. */
  lemma FlashCountGrow(flashes: seq<set<Coord>>, flashed: set<Coord>)
    ensures FlashCount(flashes + [flashed]) == FlashCount(flashes) + |flashed|
  {
    assert (flashes + [flashed])[..|flashes|] == flashes;
  }

  /** The first pass of `forward_step`: every level up by one, noting those above 9. */
  method RaiseAll(grid: array2<nat>, ghost start: Levels) returns (over: set<Coord>, ghost g: Levels)
    requires Mirrors(grid, start)
    modifies grid
    ensures Mirrors(grid, g)
    ensures Parts({}, {}, over, over, {}) && LevelsOk(g, start, {}, over, {}) && Forced(start, over)
  {
    g := start;
    over := {};
    for i := 0 to 10
      invariant Mirrors(grid, g)
      invariant forall q :: q in over <==> InGrid(q) && Before(q, i, 0) && At(start, q) + 1 > 9
      invariant forall q :: InGrid(q) ==> At(g, q) == At(start, q) + (if Before(q, i, 0) then 1 else 0)
    {
      for j := 0 to 10
        invariant Mirrors(grid, g)
        invariant forall q :: q in over <==> InGrid(q) && Before(q, i, j) && At(start, q) + 1 > 9
        invariant forall q :: InGrid(q) ==> At(g, q) == At(start, q) + (if Before(q, i, j) then 1 else 0)
      {
        grid[i, j] := grid[i, j] + 1;
        g := Raise(g, (i, j));
        if grid[i, j] > 9 {
          over := over + {(i, j)};
        }
      }
    }
    FirstPass(g, start, over);
  }

  /**
   * The cascade of `forward_step`: flash every cell queued in `next`, round
   * after round, until a round queues none. Every cell that went above 9
   * ends up flashed, and every level is its value for that set of flashes.
   */
  method Cascade(grid: array2<nat>, ghost start: Levels, ghost g0: Levels, over0: set<Coord>)
    returns (over: set<Coord>, ghost g: Levels)
    requires Mirrors(grid, g0) && Parts({}, {}, over0, over0, {}) && LevelsOk(g0, start, {}, over0, {})
    requires Forced(start, over0)
    modifies grid
    ensures Mirrors(grid, g) && over <= AllCells() && Forced(start, over)
    ensures forall a, b :: 0 <= a < 10 && 0 <= b < 10 ==>
      g[a][b] == start[a][b] + 1 + Flashes(over, (a, b)) && ((a, b) in over <==> g[a][b] > 9)
  {
    over, g := over0, g0;
    ghost var done: set<Coord> := {};
    var next := over;
    while next != {}
      invariant Mirrors(grid, g)
      invariant Parts(done, {}, next, over, {}) && LevelsOk(g, start, done, over, {}) && Forced(start, over)
      decreases |AllCells() - done|
    {
      var current := next;
      next, over, g := FlashRound(grid, start, g, done, current, over);
      RemainingShrinks(AllCells(), done, current);
      done := done + current;
    }
    CascadeDone(g, start, done, over);
  }

  /** One round of the cascade: flash every cell of `current`, queueing the new ones in `next`. */
  method FlashRound(grid: array2<nat>, ghost start: Levels, ghost g0: Levels, ghost done0: set<Coord>,
                    current0: set<Coord>, over0: set<Coord>)
    returns (next: set<Coord>, over: set<Coord>, ghost g: Levels)
    requires Mirrors(grid, g0) && Parts(done0, current0, {}, over0, {}) && LevelsOk(g0, start, done0, over0, {})
    requires Forced(start, over0)
    modifies grid
    ensures Mirrors(grid, g)
    ensures Parts(done0 + current0, {}, next, over, {}) && LevelsOk(g, start, done0 + current0, over, {})
    ensures Forced(start, over)
  {
    next, over, g := {}, over0, g0;
    var current := current0;
    ghost var done := done0;
    while current != {}
      invariant Mirrors(grid, g)
      invariant Parts(done, current, next, over, {}) && LevelsOk(g, start, done, over, {}) && Forced(start, over)
      invariant done + current == done0 + current0
      decreases |current|
    {
      var coord :| coord in current;
      next, over, g := FlashCell(grid, coord, g, start, done, current, next, over);
      MoveOne(done, current, coord);
      current := current - {coord};
      done := done + {coord};
    }
    assert done == done0 + current0;
  }

  /** Moving one cell from current to done keeps their union and shrinks current. */
  lemma MoveOne(done: set<Coord>, current: set<Coord>, coord: Coord)
    requires coord in current
    ensures (done + {coord}) + (current - {coord}) == done + current
    ensures |current - {coord}| < |current|
  {
  }

  /** The last loop of `forward_step`: every flashed cell back to 0. */
  method ResetFlashed(grid: array2<nat>, flashed: set<Coord>)
    requires IsGrid(grid) && flashed <= AllCells()
    modifies grid
    ensures forall a, b :: 0 <= a < 10 && 0 <= b < 10 ==>
      grid[a, b] == if (a, b) in flashed then 0 else old(grid[a, b])
  {
    var remaining := flashed;
    while remaining != {}
      invariant remaining <= flashed
      invariant forall a, b :: 0 <= a < 10 && 0 <= b < 10 ==>
        grid[a, b] == if (a, b) in flashed - remaining then 0 else old(grid[a, b])
      decreases |remaining|
    {
      var cell :| cell in remaining;
      AllCellsInGrid(cell);
      grid[cell.0, cell.1] := 0;
      remaining := remaining - {cell};
    }
  }

  /**
   * One flash of the cascade: raise each neighbour of coord and queue those
   * that go above 9 for the first time.
   */
  method FlashCell(grid: array2<nat>, coord: Coord, ghost g: Levels, ghost start: Levels,
                   ghost done: set<Coord>, ghost current: set<Coord>, next: set<Coord>, over: set<Coord>)
    returns (next': set<Coord>, over': set<Coord>, ghost g': Levels)
    requires Mirrors(grid, g) && coord in current
    requires Parts(done, current, next, over, {}) && LevelsOk(g, start, done, over, {}) && Forced(start, over)
    modifies grid
    ensures Mirrors(grid, g')
    ensures Parts(done + {coord}, current - {coord}, next', over', {}) && LevelsOk(g', start, done + {coord}, over', {})
    ensures Forced(start, over')
  {
    FlashStart(done, current, next, over, coord);
    AllCellsInGrid(coord);
    ghost var rest := current - {coord};
    var nbrs := Neighbors(coord);
    next', over', g' := next, over, g;
    ghost var raised: set<Coord> := {};
    for k := 0 to |nbrs|
      invariant Mirrors(grid, g')
      invariant Parts(done, rest, next', over', {coord}) && LevelsOk(g', start, done, over', raised)
      invariant Forced(start, over')
      invariant forall q :: q in raised <==> exists j :: 0 <= j < k && nbrs[j] == q
    {
      var (i, j) := nbrs[k];
      assert Adjacent(coord, nbrs[k]) && nbrs[k] !in raised;
      ghost var g0, over0 := g', over';
      grid[i, j] := grid[i, j] + 1;
      g' := Raise(g', (i, j));
      if grid[i, j] > 9 && (i, j) !in over' {
        AllCellsInGrid((i, j));
        ForcedGrow(g0, start, done, over', raised, coord, (i, j));
        PartsGrow(done, rest, next', over', coord, (i, j));
        next' := next' + {(i, j)};
        over' := over' + {(i, j)};
      }
      LevelsNext(g0, start, done, over0, raised, (i, j), g', over');
      raised := raised + {(i, j)};
    }
    forall q | Adjacent(coord, q)
      ensures q in raised
    {
      var j :| 0 <= j < |nbrs| && nbrs[j] == q;
    }
    FlashEnd(g', start, done, over', coord, raised);
    PartsEnd(done, rest, next', over', coord);
  }

  /**
   * The cascade's bookkeeping: `done` have flashed and raised their
   * neighbours, `current` and `next` wait to, `extra` is flashing now, and
   * together they are `over`, the cells that went above 9.
   */
  ghost predicate Parts(done: set<Coord>, current: set<Coord>, next: set<Coord>, over: set<Coord>, extra: set<Coord>) {
    over <= AllCells() && over == done + current + next + extra &&
    done !! current && done !! next && current !! next &&
    extra !! done && extra !! current && extra !! next
  }

  /**
   * A cell's level during the cascade: its starting level, plus one, plus one
   * per neighbour in `done`, plus one if it is in `raised`; and it is in
   * `over` exactly when that is above 9.
   */
  ghost predicate CellOk(g: Levels, start: Levels, done: set<Coord>, over: set<Coord>, raised: set<Coord>, q: Coord)
    requires IsLevels(g) && IsLevels(start) && InGrid(q)
  {
    At(g, q) == Value(start, done, q) + (if q in raised then 1 else 0) && (q in over <==> At(g, q) > 9)
  }

  ghost predicate LevelsOk(g: Levels, start: Levels, done: set<Coord>, over: set<Coord>, raised: set<Coord>) {
    IsLevels(g) && IsLevels(start) &&
    forall q {:trigger CellOk(g, start, done, over, raised, q)} :: InGrid(q) ==> CellOk(g, start, done, over, raised, q)
  }

  lemma FirstPass(g: Levels, start: Levels, over: set<Coord>)
    requires IsLevels(g) && IsLevels(start)
    requires forall q :: q in over <==> InGrid(q) && Before(q, 10, 0) && At(start, q) + 1 > 9
    requires forall q :: InGrid(q) ==> At(g, q) == At(start, q) + (if Before(q, 10, 0) then 1 else 0)
    ensures Parts({}, {}, over, over, {}) && LevelsOk(g, start, {}, over, {})
    ensures Forced(start, over)
  {
    forall q | q in over
      ensures q in AllCells()
    {
      AllCellsInGrid(q);
    }
    forall F | Closed(start, F)
      ensures over <= F
    {
      forall q | q in over
        ensures q in F
      {
        assert Value(start, F, q) > 9;
      }
    }
  }

  /**
   * A neighbour x of the flashing cell that goes above 9 had to flash:
   * every closed set holds `done` and the flashing cell, so it gives x at
   * least as many flashed neighbours as x has now.
   */
  lemma ForcedGrow(g: Levels, start: Levels, done: set<Coord>, over: set<Coord>, raised: set<Coord>,
                   coord: Coord, x: Coord)
    requires LevelsOk(g, start, done, over, raised) && Forced(start, over)
    requires InGrid(coord) && InGrid(x) && Adjacent(coord, x) && x !in raised && At(g, x) + 1 > 9
    requires coord !in done && done + {coord} <= over
    ensures Forced(start, over + {x})
  {
    assert CellOk(g, start, done, over, raised, x);
    AroundAdjacent(coord, x);
    AroundSymmetric(coord, x);
    var near := (done + {coord}) * Around(x);
    assert near == done * Around(x) + {coord};
    forall F | Closed(start, F)
      ensures over + {x} <= F
    {
      SubsetCount(near, F * Around(x));
      assert Value(start, F, x) > 9;
    }
  }

  /** When nothing waits to flash, every cell in `over` has flashed. */
  lemma CascadeDone(g: Levels, start: Levels, done: set<Coord>, over: set<Coord>)
    requires Parts(done, {}, {}, over, {}) && LevelsOk(g, start, done, over, {})
    ensures over == done && over <= AllCells()
    ensures forall a, b :: 0 <= a < 10 && 0 <= b < 10 ==>
      g[a][b] == start[a][b] + 1 + Flashes(over, (a, b)) && ((a, b) in over <==> g[a][b] > 9)
  {
    forall a, b | 0 <= a < 10 && 0 <= b < 10
      ensures g[a][b] == start[a][b] + 1 + Flashes(over, (a, b)) && ((a, b) in over <==> g[a][b] > 9)
    {
      assert CellOk(g, start, done, over, {}, (a, b));
    }
  }

  lemma FlashStart(done: set<Coord>, current: set<Coord>, next: set<Coord>, over: set<Coord>, coord: Coord)
    requires Parts(done, current, next, over, {}) && coord in current
    ensures Parts(done, current - {coord}, next, over, {coord}) && coord in AllCells()
  {
    assert current == (current - {coord}) + {coord};
  }

  lemma PartsGrow(done: set<Coord>, current: set<Coord>, next: set<Coord>, over: set<Coord>, coord: Coord, x: Coord)
    requires Parts(done, current, next, over, {coord}) && x !in over && x in AllCells()
    ensures Parts(done, current, next + {x}, over + {x}, {coord})
  {
  }

  lemma PartsEnd(done: set<Coord>, current: set<Coord>, next: set<Coord>, over: set<Coord>, coord: Coord)
    requires Parts(done, current, next, over, {coord})
    ensures Parts(done + {coord}, current, next, over, {})
  {
  }

  lemma LevelsNext(g: Levels, start: Levels, done: set<Coord>, over: set<Coord>, raised: set<Coord>, x: Coord,
                   g': Levels, over': set<Coord>)
    requires LevelsOk(g, start, done, over, raised) && InGrid(x) && x !in raised && g' == Raise(g, x)
    requires over' == if At(g', x) > 9 && x !in over then over + {x} else over
    ensures LevelsOk(g', start, done, over', raised + {x})
  {
    forall q | InGrid(q)
      ensures CellOk(g', start, done, over', raised + {x}, q)
    {
      assert CellOk(g, start, done, over, raised, q);
    }
  }

  lemma FlashEnd(g: Levels, start: Levels, done: set<Coord>, over: set<Coord>, coord: Coord, raised: set<Coord>)
    requires LevelsOk(g, start, done, over, raised) && coord !in done && InGrid(coord)
    requires forall q :: q in raised <==> Adjacent(coord, q)
    ensures LevelsOk(g, start, done + {coord}, over, {})
  {
    forall q | InGrid(q)
      ensures CellOk(g, start, done + {coord}, over, {}, q)
    {
      assert CellOk(g, start, done, over, raised, q);
      AroundSymmetric(coord, q);
      AroundAdjacent(coord, q);
      if coord in Around(q) {
        assert (done + {coord}) * Around(q) == (done * Around(q)) + {coord};
      } else {
        assert (done + {coord}) * Around(q) == done * Around(q);
      }
    }
  }

  lemma AroundAdjacent(c: Coord, q: Coord)
    ensures q in Around(c) <==> Adjacent(c, q)
  {
    if Adjacent(c, q) {
      var di, dj := q.0 - c.0, q.1 - c.1;
      assert q == (c.0 + di, c.1 + dj);
      assert q in Shifted(c, di, dj);
    }
  }
}
