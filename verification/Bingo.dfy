/**
 * Bingo (src/day04.rs): a 5×5 board of numbers with a mark flag per cell,
 * marking a called number, the win test (a full row or a full column), the sum
 * of the unmarked numbers, and the two games: the first board to win and the
 * last board to win.
 *
 * A board is a class whose grid field is updated in place by `Mark`, as the
 * source's `[[(usize, bool); 5]; 5]` is; the games are specified by functions
 * over grid values.
 */
module Bingo {
  import opened Wrappers
  import opened Text

  /** A cell: its number and whether it has been marked. */
  type Cell = (nat, bool)

  /** The value of a board, row by row. */
  type Grid = seq<seq<Cell>>

  predicate IsGrid(g: Grid) {
    |g| == 5 && forall i :: 0 <= i < 5 ==> |g[i]| == 5
  }

  // ---------------------------------------------------------------------------
  // Boards as values
  // ---------------------------------------------------------------------------

  /** Calling v marks a cell holding v and leaves every other cell as it was. */
  function MarkCell(c: Cell, v: nat): Cell {
    (c.0, c.1 || c.0 == v)
  }

  function MarkGrid(g: Grid, v: nat): (r: Grid)
    requires IsGrid(g)
    ensures IsGrid(r)
    ensures forall i, j :: 0 <= i < 5 && 0 <= j < 5 ==> r[i][j] == MarkCell(g[i][j], v)
  {
    seq(5, i requires 0 <= i < 5 => seq(5, j requires 0 <= j < 5 => MarkCell(g[i][j], v)))
  }

  predicate RowFull(g: Grid, i: nat)
    requires IsGrid(g) && i < 5
  {
    forall j :: 0 <= j < 5 ==> g[i][j].1
  }

  predicate ColumnFull(g: Grid, j: nat)
    requires IsGrid(g) && j < 5
  {
    forall i :: 0 <= i < 5 ==> g[i][j].1
  }

  /** A board has won when a whole row or a whole column is marked; diagonals do not count. */
  predicate Won(g: Grid)
    requires IsGrid(g)
  {
    exists k :: 0 <= k < 5 && (RowFull(g, k) || ColumnFull(g, k))
  }

  /** Marking the same number twice is marking it once. */
  lemma MarkIdempotent(g: Grid, v: nat)
    requires IsGrid(g)
    ensures MarkGrid(MarkGrid(g, v), v) == MarkGrid(g, v)
  {
    var once := MarkGrid(g, v);
    var twice := MarkGrid(once, v);
    forall i | 0 <= i < 5
      ensures twice[i] == once[i]
    {
      assert forall j :: 0 <= j < 5 ==> twice[i][j] == once[i][j];
    }
  }

  /** A board that has won stays won whatever is called next. */
  lemma MarkKeepsWon(g: Grid, v: nat)
    requires IsGrid(g) && Won(g)
    ensures Won(MarkGrid(g, v))
  {
    var k: nat :| k < 5 && (RowFull(g, k) || ColumnFull(g, k));
    var m: Grid := MarkGrid(g, v);
    if RowFull(g, k) {
      assert forall j :: 0 <= j < 5 ==> m[k][j].1 by {
        forall j | 0 <= j < 5 ensures m[k][j].1 {
          assert g[k][j].1;
        }
      }
      assert RowFull(m, k);
    } else {
      assert forall i :: 0 <= i < 5 ==> m[i][k].1 by {
        forall i | 0 <= i < 5 ensures m[i][k].1 {
          assert g[i][k].1;
        }
      }
      assert ColumnFull(m, k);
    }
  }

  /** The board after every number of `called` has been marked, in order. */
  function Called(g: Grid, called: seq<nat>): (r: Grid)
    requires IsGrid(g)
    ensures IsGrid(r)
  {
    if called == [] then g else MarkGrid(Called(g, called[..|called| - 1]), called[|called| - 1])
  }

  /** The order of the calls does not matter: a cell is marked when it was, or when its number has been called. */
  lemma {:induction false} CalledCells(g: Grid, called: seq<nat>, i: nat, j: nat)
    requires IsGrid(g) && i < 5 && j < 5
    ensures Called(g, called)[i][j] == (g[i][j].0, g[i][j].1 || g[i][j].0 in called)
    decreases |called|
  {
    if called != [] {
      var init := called[..|called| - 1];
      CalledCells(g, init, i, j);
      assert called == init + [called[|called| - 1]];
    }
  }

  /** The sum of the unmarked numbers in a list of cells. */
  function UnmarkedIn(cells: seq<Cell>): nat {
    if cells == [] then 0
    else UnmarkedIn(cells[..|cells| - 1]) + (if cells[|cells| - 1].1 then 0 else cells[|cells| - 1].0)
  }

  /** The sum of the unmarked numbers of the first rows of a board. */
  function UnmarkedRows(g: Grid): nat {
    if g == [] then 0 else UnmarkedRows(g[..|g| - 1]) + UnmarkedIn(g[|g| - 1])
  }

  /** How many unmarked cells of a list hold v. */
  function UnmarkedCount(cells: seq<Cell>, v: nat): nat {
    if cells == [] then 0
    else UnmarkedCount(cells[..|cells| - 1], v) + (if !cells[|cells| - 1].1 && cells[|cells| - 1].0 == v then 1 else 0)
  }

  /** Marking v removes v from the unmarked sum once per unmarked cell that holds it. */
  lemma {:induction false} MarkLowersRow(cells: seq<Cell>, marked: seq<Cell>, v: nat)
    requires |marked| == |cells|
    requires forall j :: 0 <= j < |cells| ==> marked[j] == MarkCell(cells[j], v)
    ensures UnmarkedIn(marked) + v * UnmarkedCount(cells, v) == UnmarkedIn(cells)
    decreases |cells|
  {
    if cells != [] {
      var n := |cells| - 1;
      MarkLowersRow(cells[..n], marked[..n], v);
      var before, here := UnmarkedCount(cells[..n], v), if !cells[n].1 && cells[n].0 == v then 1 else 0;
      Distribute(v, before, here);
    }
  }

  /** The unmarked sum of a marked board, row by row. */
  lemma {:induction false} MarkLowersRows(g: Grid, v: nat, rows: nat)
    requires IsGrid(g) && rows <= 5
    ensures UnmarkedRows(MarkGrid(g, v)[..rows]) + v * CountRows(g[..rows], v) == UnmarkedRows(g[..rows])
    decreases rows
  {
    if rows > 0 {
      var m: Grid := MarkGrid(g, v);
      MarkLowersRows(g, v, rows - 1);
      assert m[..rows][..rows - 1] == m[..rows - 1];
      assert g[..rows][..rows - 1] == g[..rows - 1];
      assert UnmarkedRows(m[..rows]) == UnmarkedRows(m[..rows - 1]) + UnmarkedIn(m[rows - 1]);
      assert UnmarkedRows(g[..rows]) == UnmarkedRows(g[..rows - 1]) + UnmarkedIn(g[rows - 1]);
      var before, here := CountRows(g[..rows - 1], v), UnmarkedCount(g[rows - 1], v);
      assert CountRows(g[..rows], v) == before + here;
      Distribute(v, before, here);
      MarkLowersRow(g[rows - 1], m[rows - 1], v);
    }
  }

  lemma Distribute(v: nat, a: nat, b: nat)
    ensures v * (a + b) == v * a + v * b
  {
  }

  /** How many unmarked cells of the rows hold v. */
  function CountRows(g: Grid, v: nat): nat {
    if g == [] then 0 else CountRows(g[..|g| - 1], v) + UnmarkedCount(g[|g| - 1], v)
  }

  /**
   * Calling v lowers the sum of the unmarked numbers by v for every unmarked
   * cell that holds it, and changes it in no other way.
   */
  lemma MarkLowersSum(g: Grid, v: nat)
    requires IsGrid(g)
    ensures UnmarkedRows(MarkGrid(g, v)) + v * CountRows(g, v) == UnmarkedRows(g)
  {
    MarkLowersRows(g, v, 5);
    assert g[..5] == g;
    assert MarkGrid(g, v)[..5] == MarkGrid(g, v);
  }

  // ---------------------------------------------------------------------------
  // The board object
  // ---------------------------------------------------------------------------

  /** A row of the input parses when it has at most five words, each a `usize`. */
  predicate RowParses(line: string) {
    |SplitWhitespace(line)| <= 5
    && forall k :: 0 <= k < |SplitWhitespace(line)| ==> FromStrRadix(SplitWhitespace(line)[k], 10).Ok?
  }

  /** The numbers of a row, in order. */
  function RowValues(line: string): (values: seq<nat>)
    requires RowParses(line)
    ensures |values| == |SplitWhitespace(line)| <= 5
    ensures forall k :: 0 <= k < |values| ==> FromStrRadix(SplitWhitespace(line)[k], 10) == Ok(values[k])
  {
    var words := SplitWhitespace(line);
    seq(|words|, k requires 0 <= k < |words| => FromStrRadix(words[k], 10).value)
  }

  /** The board with every cell holding 0, unmarked. */
  function EmptyGrid(): (g: Grid)
    ensures IsGrid(g)
  {
    seq(5, i => seq(5, j => (0, false)))
  }

  /**
   * A bingo board. The source's board is a Rust array `[[(usize, bool); 5]; 5]`,
   * a value held inside the struct and updated in place, so it is a field
   * of value type here.
   */
  class Board {
    var cells: Grid

    predicate Valid()
      reads this
    {
      IsGrid(cells)
    }

    /**
     * `Bingo::parse`: the first five lines fill the board row by row, every
     * cell unmarked; a cell that no word reaches keeps the number 0. A word
     * that is not a `usize`, or a sixth word on a row, makes the source panic.
     */
    constructor Parse(lines: seq<string>)
      requires forall r :: 0 <= r < |lines| && r < 5 ==> RowParses(lines[r])
      ensures Valid()
      ensures forall i, j :: 0 <= i < 5 && 0 <= j < 5 ==>
        cells[i][j] == (if i < |lines| && j < |RowValues(lines[i])| then (RowValues(lines[i])[j], false) else (0, false))
    {
      var board := EmptyGrid();
      var rows := if |lines| < 5 then |lines| else 5;
      for r := 0 to rows
        invariant IsGrid(board)
        invariant forall i, j :: 0 <= i < 5 && 0 <= j < 5 ==>
          board[i][j] == (if i < r && j < |RowValues(lines[i])| then (RowValues(lines[i])[j], false) else (0, false))
      {
        var words := SplitWhitespace(lines[r]);
        for c := 0 to |words|
          invariant IsGrid(board)
          invariant forall i, j :: 0 <= i < 5 && 0 <= j < 5 ==>
            board[i][j] == (if (i < r && j < |RowValues(lines[i])|) || (i == r && j < c)
                            then (RowValues(lines[i])[j], false) else (0, false))
        {
          var value := FromStrRadix(words[c], 10).value;
          board := board[r := board[r][c := (value, false)]];
        }
      }
      cells := board;
    }

    /** `mark`: flag every cell that holds the called number, change nothing else. */
    method Mark(value: nat)
      requires Valid()
      modifies this
      ensures Valid()
      ensures cells == MarkGrid(old(cells), value)
    {
      ghost var before := cells;
      for i := 0 to 5
        invariant IsGrid(cells)
        invariant forall r, c :: 0 <= r < 5 && 0 <= c < 5 ==>
          cells[r][c] == if r < i then MarkCell(before[r][c], value) else before[r][c]
      {
        for j := 0 to 5
          invariant IsGrid(cells)
          invariant forall r, c :: 0 <= r < 5 && 0 <= c < 5 ==>
            cells[r][c] == if r < i || (r == i && c < j) then MarkCell(before[r][c], value) else before[r][c]
        {
          if cells[i][j].0 == value {
            cells := cells[i := cells[i][j := (cells[i][j].0, true)]];
          }
        }
      }
      SameGrid(cells, MarkGrid(before, value));
    }

    /** `has_won`: some row or some column is fully marked. */
    method HasWon() returns (won: bool)
      requires Valid()
      ensures won == Won(cells)
    {
      for i := 0 to 5
        invariant forall k :: 0 <= k < i ==> !RowFull(cells, k) && !ColumnFull(cells, k)
      {
        var row, col := true, true;
        for j := 0 to 5
          invariant row == forall c :: 0 <= c < j ==> cells[i][c].1
          invariant col == forall r :: 0 <= r < j ==> cells[r][i].1
        {
          row := row && cells[i][j].1;
          col := col && cells[j][i].1;
        }
        if row || col {
          assert RowFull(cells, i) || ColumnFull(cells, i);
          return true;
        }
      }
      return false;
    }

    /** `sum_unmarked`: the sum of the numbers whose cell is not marked. */
    method SumUnmarked() returns (sum: nat)
      requires Valid()
      ensures sum == UnmarkedRows(cells)
    {
      sum := 0;
      for i := 0 to 5
        invariant sum == UnmarkedRows(cells[..i])
      {
        ghost var partial := sum;
        for j := 0 to 5
          invariant sum == partial + UnmarkedIn(cells[i][..j])
        {
          assert cells[i][..j + 1][..j] == cells[i][..j];
          if !cells[i][j].1 {
            sum := sum + cells[i][j].0;
          }
        }
        assert cells[i][..5] == cells[i];
        assert cells[..i + 1][..i] == cells[..i];
      }
      assert cells[..5] == cells;
    }
  }

  /** Two boards with the same cells are the same board. */
  lemma SameGrid(a: Grid, b: Grid)
    requires IsGrid(a) && IsGrid(b)
    requires forall i, j :: 0 <= i < 5 && 0 <= j < 5 ==> a[i][j] == b[i][j]
    ensures a == b
  {
    forall i | 0 <= i < 5
      ensures a[i] == b[i]
    {
    }
  }

  // ---------------------------------------------------------------------------
  // The games
  // ---------------------------------------------------------------------------

  predicate AllGrids(gs: seq<Grid>) {
    forall k :: 0 <= k < |gs| ==> IsGrid(gs[k])
  }

  /** The first board, in list order, that has won. */
  function FirstWon(gs: seq<Grid>): (r: Option<nat>)
    requires AllGrids(gs)
    ensures r.Some? ==> r.value < |gs| && Won(gs[r.value])
    ensures forall k :: 0 <= k < |gs| && (r.None? || k < r.value) ==> !Won(gs[k])
  {
    if gs == [] then None
    else if Won(gs[0]) then Some(0)
    else match FirstWon(gs[1..])
      case None => None
      case Some(k) => Some(k + 1)
  }

  /** Every board marked with v. */
  function MarkAll(gs: seq<Grid>, v: nat): (r: seq<Grid>)
    requires AllGrids(gs)
    ensures |r| == |gs| && AllGrids(r)
    ensures forall k :: 0 <= k < |gs| ==> r[k] == MarkGrid(gs[k], v)
  {
    seq(|gs|, k requires 0 <= k < |gs| => MarkGrid(gs[k], v))
  }

  /** Every board after the calls. */
  function CalledAll(gs: seq<Grid>, called: seq<nat>): (r: seq<Grid>)
    requires AllGrids(gs)
    ensures |r| == |gs| && AllGrids(r)
    ensures forall k :: 0 <= k < |gs| ==> r[k] == Called(gs[k], called)
  {
    seq(|gs|, k requires 0 <= k < |gs| => Called(gs[k], called))
  }

  /** One more call is one more MarkAll. */
  lemma CalledAllNext(gs: seq<Grid>, numbers: seq<nat>, t: nat)
    requires AllGrids(gs) && t < |numbers|
    ensures CalledAll(gs, numbers[..t + 1]) == MarkAll(CalledAll(gs, numbers[..t]), numbers[t])
  {
    assert numbers[..t + 1][..t] == numbers[..t];
  }

  /** The first board, in list order, that has won once the calls up to number u are made. */
  function WinnerAt(gs: seq<Grid>, numbers: seq<nat>, u: nat): Option<nat>
    requires AllGrids(gs) && u < |numbers|
  {
    FirstWon(CalledAll(gs, numbers[..u + 1]))
  }

  /**
   * The answer of `q1` from call t on: after each call, the first board in
   * list order that has won scores the call times its unmarked sum; when no
   * call makes a board win, the answer is 1.
   */
  function FirstWinScore(gs: seq<Grid>, numbers: seq<nat>, t: nat): (score: nat)
    requires AllGrids(gs) && t <= |numbers|
    ensures (forall u :: t <= u < |numbers| ==> WinnerAt(gs, numbers, u).None?) ==> score == 1
    ensures forall u ::
      (t <= u < |numbers| && WinnerAt(gs, numbers, u).Some? && forall v :: t <= v < u ==> WinnerAt(gs, numbers, v).None?) ==>
      score == numbers[u] * UnmarkedRows(CalledAll(gs, numbers[..u + 1])[WinnerAt(gs, numbers, u).value])
    decreases |numbers| - t
  {
    if t == |numbers| then 1
    else
      match WinnerAt(gs, numbers, t)
      case Some(k) => numbers[t] * UnmarkedRows(CalledAll(gs, numbers[..t + 1])[k])
      case None => FirstWinScore(gs, numbers, t + 1)
  }

  /** The boards that have not won, in order. */
  function Unwon(gs: seq<Grid>): (r: seq<Grid>)
    requires AllGrids(gs)
    ensures AllGrids(r) && |r| <= |gs|
    ensures forall k :: 0 <= k < |r| ==> !Won(r[k]) && r[k] in gs
    ensures forall k :: 0 <= k < |gs| && !Won(gs[k]) ==> gs[k] in r
  {
    if gs == [] then []
    else
      var last := gs[|gs| - 1];
      Unwon(gs[..|gs| - 1]) + (if Won(last) then [] else [last])
  }

  /** Board g once the calls from number t up to number u are made. */
  function CalledFrom(g: Grid, numbers: seq<nat>, t: nat, u: nat): Grid
    requires IsGrid(g) && t <= u < |numbers|
  {
    Called(g, numbers[t..u + 1])
  }

  /** Some board of gs wins at some call u from t on, and scores its unmarked sum times that call. */
  ghost predicate ScoredBy(gs: seq<Grid>, numbers: seq<nat>, t: nat, score: nat)
    requires AllGrids(gs)
  {
    exists k, u :: 0 <= k < |gs| && t <= u < |numbers| && Won(CalledFrom(gs[k], numbers, t, u)) &&
      score == UnmarkedRows(CalledFrom(gs[k], numbers, t, u)) * numbers[u]
  }

  /**
   * The answer of `q2` from call t on: mark every board; while more than one
   * board is left, drop those that have won; once a single board is left,
   * answer with its unmarked sum times the call that makes it win; 1 if the
   * calls run out. An answer other than 1 is always the score of one of the
   * boards at a call that finds it won.
   */
  function LastWinScore(gs: seq<Grid>, numbers: seq<nat>, t: nat): (score: nat)
    requires AllGrids(gs) && t <= |numbers|
    ensures score == 1 || ScoredBy(gs, numbers, t, score)
    decreases |numbers| - t
  {
    if t == |numbers| then 1
    else
      var now := MarkAll(gs, numbers[t]);
      if |now| == 1 then
        if Won(now[0]) then
          CalledOne(gs[0], numbers, t);
          UnmarkedRows(now[0]) * numbers[t]
        else
          var score := LastWinScore(now, numbers, t + 1);
          LastWinBack(gs, numbers, t, now, score);
          score
      else
        var score := LastWinScore(Unwon(now), numbers, t + 1);
        LastWinBack(gs, numbers, t, Unwon(now), score);
        score
  }

  /** A single call marks the board once. */
  lemma CalledOne(g: Grid, numbers: seq<nat>, t: nat)
    requires IsGrid(g) && t < |numbers|
    ensures CalledFrom(g, numbers, t, t) == MarkGrid(g, numbers[t])
  {
    var one := numbers[t..t + 1];
    assert one == [numbers[t]] && one[..0] == [];
    assert Called(g, one) == MarkGrid(Called(g, []), numbers[t]);
  }

  /** Marking call t first and then the calls after it is making the calls from t on. */
  lemma CalledShift(g: Grid, numbers: seq<nat>, t: nat, u: nat)
    requires IsGrid(g) && t < u < |numbers|
    ensures CalledFrom(MarkGrid(g, numbers[t]), numbers, t + 1, u) == CalledFrom(g, numbers, t, u)
  {
    var a, b := CalledFrom(MarkGrid(g, numbers[t]), numbers, t + 1, u), CalledFrom(g, numbers, t, u);
    assert numbers[t..u + 1] == [numbers[t]] + numbers[t + 1..u + 1];
    forall i, j | 0 <= i < 5 && 0 <= j < 5
      ensures a[i][j] == b[i][j]
    {
      CalledCells(MarkGrid(g, numbers[t]), numbers[t + 1..u + 1], i, j);
      CalledCells(g, numbers[t..u + 1], i, j);
    }
    SameGrid(a, b);
  }

  /** A score some board left after call t earns later is one a board earns from call t on. */
  lemma LastWinBack(gs: seq<Grid>, numbers: seq<nat>, t: nat, next: seq<Grid>, score: nat)
    requires AllGrids(gs) && t < |numbers| && AllGrids(next)
    requires forall m :: 0 <= m < |next| ==> next[m] in MarkAll(gs, numbers[t])
    requires score == 1 || ScoredBy(next, numbers, t + 1, score)
    ensures score == 1 || ScoredBy(gs, numbers, t, score)
  {
    if score != 1 {
      var k, u :| 0 <= k < |next| && t + 1 <= u < |numbers| && Won(CalledFrom(next[k], numbers, t + 1, u)) &&
        score == UnmarkedRows(CalledFrom(next[k], numbers, t + 1, u)) * numbers[u];
      var now := MarkAll(gs, numbers[t]);
      assert next[k] in now;
      var j :| 0 <= j < |now| && now[j] == next[k];
      CalledShift(gs[j], numbers, t, u);
    }
  }

  /** x occurs at most once in s. */
  ghost predicate AtMostOnce(s: seq<Grid>, x: Grid) {
    forall i, j :: 0 <= i < j < |s| && s[i] == x ==> s[j] != x
  }

  /** Board g wins at some call from t on and before call u. */
  ghost predicate WinsBefore(g: Grid, numbers: seq<nat>, t: nat, u: nat)
    requires IsGrid(g) && u < |numbers|
  {
    exists v :: t <= v < u && Won(CalledFrom(g, numbers, t, v))
  }

  /** The filter of `q2` keeps at most one copy of a board that occurred at most once. */
  lemma {:induction false} UnwonOnce(gs: seq<Grid>, x: Grid)
    requires AllGrids(gs) && AtMostOnce(gs, x)
    ensures AtMostOnce(Unwon(gs), x)
  {
    if gs != [] {
      var init, last := gs[..|gs| - 1], gs[|gs| - 1];
      assert AtMostOnce(init, x) by {
        forall i, j | 0 <= i < j < |init| && init[i] == x ensures init[j] != x {
          assert gs[i] == init[i] && gs[j] == init[j];
        }
      }
      UnwonOnce(init, x);
      if !Won(last) && last == x {
        forall i | 0 <= i < |init| ensures init[i] != x {
          assert gs[i] == init[i];
        }
        assert x !in Unwon(init);
        assert Unwon(gs) == Unwon(init) + [x];
      }
    }
  }

  /** A board that agrees with x after call t has not won before u either, when x has not. */
  lemma SameAfterMark(g: Grid, x: Grid, numbers: seq<nat>, t: nat, u: nat)
    requires IsGrid(g) && IsGrid(x) && t < u < |numbers|
    requires MarkGrid(g, numbers[t]) == MarkGrid(x, numbers[t])
    requires !WinsBefore(x, numbers, t, u)
    ensures !WinsBefore(g, numbers, t, u)
  {
    forall v | t <= v < u ensures !Won(CalledFrom(g, numbers, t, v)) {
      CalledOne(g, numbers, t);
      CalledOne(x, numbers, t);
      if v > t {
        CalledShift(g, numbers, t, v);
        CalledShift(x, numbers, t, v);
      }
    }
  }

  /** After call t, x marked with that call has not won before u and wins at u with the same board. */
  lemma ShiftWinner(x: Grid, numbers: seq<nat>, t: nat, u: nat)
    requires IsGrid(x) && t < u < |numbers|
    requires !WinsBefore(x, numbers, t, u)
    ensures !Won(MarkGrid(x, numbers[t]))
    ensures !WinsBefore(MarkGrid(x, numbers[t]), numbers, t + 1, u)
    ensures CalledFrom(MarkGrid(x, numbers[t]), numbers, t + 1, u) == CalledFrom(x, numbers, t, u)
  {
    CalledOne(x, numbers, t);
    var x', t1 := MarkGrid(x, numbers[t]), t + 1;
    forall v: nat | t1 <= v < u ensures !Won(CalledFrom(x', numbers, t1, v)) {
      CalledShift(x, numbers, t, v);
    }
    CalledShift(x, numbers, t, u);
  }

  /** The boards of a round of `q2` other than x keep having won before u. */
  lemma NextOthers(cur: seq<Grid>, numbers: seq<nat>, t: nat, u: nat, x: Grid, next: seq<Grid>)
    requires AllGrids(cur) && AllGrids(next) && t < u < |numbers| && IsGrid(x)
    requires forall j :: 0 <= j < |cur| && cur[j] != x ==> WinsBefore(cur[j], numbers, t, u)
    requires forall j :: 0 <= j < |next| ==> !Won(next[j]) && next[j] in MarkAll(cur, numbers[t])
    ensures forall j :: 0 <= j < |next| && next[j] != MarkGrid(x, numbers[t]) ==> WinsBefore(next[j], numbers, t + 1, u)
  {
    var now := MarkAll(cur, numbers[t]);
    forall j | 0 <= j < |next| && next[j] != MarkGrid(x, numbers[t]) ensures WinsBefore(next[j], numbers, t + 1, u) {
      var i :| 0 <= i < |now| && now[i] == next[j];
      assert cur[i] != x;
      var v :| t <= v < u && Won(CalledFrom(cur[i], numbers, t, v));
      CalledOne(cur[i], numbers, t);
      if v > t {
        CalledShift(cur[i], numbers, t, v);
      }
    }
  }

  /** The boards after call t hold x marked with that call exactly once. */
  lemma NowOnce(cur: seq<Grid>, numbers: seq<nat>, t: nat, u: nat, x: Grid)
    requires AllGrids(cur) && t < u < |numbers| && IsGrid(x)
    requires x in cur && AtMostOnce(cur, x)
    requires forall j :: 0 <= j < |cur| && cur[j] != x ==> WinsBefore(cur[j], numbers, t, u)
    requires !WinsBefore(x, numbers, t, u)
    ensures MarkGrid(x, numbers[t]) in MarkAll(cur, numbers[t])
    ensures AtMostOnce(MarkAll(cur, numbers[t]), MarkGrid(x, numbers[t]))
  {
    var now, x' := MarkAll(cur, numbers[t]), MarkGrid(x, numbers[t]);
    var k :| 0 <= k < |cur| && cur[k] == x;
    assert now[k] == x';
    forall j | 0 <= j < |cur| && now[j] == x' ensures cur[j] == x {
      if cur[j] != x {
        SameAfterMark(cur[j], x, numbers, t, u);
      }
    }
  }

  /** A list holding x at most once, starting with x, does not hold x second. */
  lemma SecondDiffers(s: seq<Grid>, x: Grid)
    ensures 1 < |s| && AtMostOnce(s, x) && s[0] == x ==> s[1] != x
  {
  }

  /**
   * From call t on: when board x of the list first wins at call u and every
   * other board has won before u, the answer is x's score at call u.
   */
  lemma {:induction false} LastWinFrom(cur: seq<Grid>, numbers: seq<nat>, t: nat, u: nat, x: Grid)
    requires AllGrids(cur) && t <= u < |numbers| && IsGrid(x)
    requires x in cur && AtMostOnce(cur, x)
    requires forall j :: 0 <= j < |cur| && cur[j] != x ==> WinsBefore(cur[j], numbers, t, u)
    requires !WinsBefore(x, numbers, t, u) && Won(CalledFrom(x, numbers, t, u))
    ensures LastWinScore(cur, numbers, t) == numbers[u] * UnmarkedRows(CalledFrom(x, numbers, t, u))
    decreases u - t
  {
    var now := MarkAll(cur, numbers[t]);
    var x' := MarkGrid(x, numbers[t]);
    LastWinAt(cur, numbers, t, now);
    if u == t {
      CalledOne(x, numbers, t);
      var k :| 0 <= k < |cur| && cur[k] == x;
      assert forall j :: 0 <= j < |cur| ==> cur[j] == x;
      SecondDiffers(cur, x);
    } else {
      ShiftWinner(x, numbers, t, u);
      NowOnce(cur, numbers, t, u, x);
      var next := if |now| == 1 then now else Unwon(now);
      if |now| != 1 {
        UnwonOnce(now, x');
      }
      assert x' in next;
      NextOthers(cur, numbers, t, u, x, next);
      LastWinFrom(next, numbers, t + 1, u, x');
    }
  }

  /**
   * `q2` answers with the score of the last board to win: when board k of the
   * input first wins at call u and every other board has won before u, the
   * answer is call u times board k's unmarked sum.
   */
  lemma LastWinIsLast(gs: seq<Grid>, numbers: seq<nat>, k: nat, u: nat)
    requires AllGrids(gs) && k < |gs| && u < |numbers|
    requires Won(CalledFrom(gs[k], numbers, 0, u)) && !WinsBefore(gs[k], numbers, 0, u)
    requires forall j :: 0 <= j < |gs| && j != k ==> WinsBefore(gs[j], numbers, 0, u)
    ensures LastWinScore(gs, numbers, 0) == numbers[u] * UnmarkedRows(CalledFrom(gs[k], numbers, 0, u))
  {
    var x := gs[k];
    forall j | 0 <= j < |gs| && j != k ensures gs[j] != x {
      assert WinsBefore(gs[j], numbers, 0, u);
    }
    assert AtMostOnce(gs, x);
    LastWinFrom(gs, numbers, 0, u, x);
  }

  predicate AllValid(boards: seq<Board>)
    reads boards
  {
    forall k :: 0 <= k < |boards| ==> boards[k].Valid()
  }

  /** No board appears twice, as a Rust vector owns each of its values. */
  predicate Separate(boards: seq<Board>) {
    forall k :: 0 <= k < |boards| ==> boards[k] !in boards[..k]
  }

  /** The boards as values. */
  function Grids(boards: seq<Board>): (gs: seq<Grid>)
    requires AllValid(boards)
    reads boards
    ensures |gs| == |boards| && AllGrids(gs)
    ensures forall k :: 0 <= k < |boards| ==> gs[k] == boards[k].cells
  {
    if boards == [] then [] else Grids(boards[..|boards| - 1]) + [boards[|boards| - 1].cells]
  }

  /** The marking pass of `q1` and `q2`: every board marks the call. */
  method MarkBoards(boards: seq<Board>, number: nat)
    requires AllValid(boards) && Separate(boards)
    modifies boards
    ensures AllValid(boards)
    ensures Grids(boards) == MarkAll(old(Grids(boards)), number)
  {
    ghost var before := Grids(boards);
    for k := 0 to |boards|
      invariant AllValid(boards)
      invariant forall m :: 0 <= m < |boards| ==> boards[m].cells == if m < k then MarkGrid(before[m], number) else before[m]
    {
      boards[k].Mark(number);
    }
  }

  /** The win check of `q1`: the first board, in order, that has won. */
  method FindWinner(boards: seq<Board>) returns (r: Option<nat>)
    requires AllValid(boards)
    ensures r == FirstWon(Grids(boards))
  {
    ghost var gs := Grids(boards);
    for k := 0 to |boards|
      invariant forall m :: 0 <= m < k ==> !Won(gs[m])
    {
      var won := boards[k].HasWon();
      if won {
        return Some(k);
      }
    }
    return None;
  }

  /** `q1`: the score of the first board to win. */
  method FirstWinner(numbers: seq<nat>, boards: seq<Board>) returns (score: nat)
    requires AllValid(boards) && Separate(boards)
    modifies boards
    ensures score == FirstWinScore(old(Grids(boards)), numbers, 0)
  {
    ghost var start := Grids(boards);
    for t := 0 to |numbers|
      invariant AllValid(boards)
      invariant Grids(boards) == CalledAll(start, numbers[..t])
      invariant FirstWinScore(start, numbers, t) == FirstWinScore(start, numbers, 0)
    {
      MarkBoards(boards, numbers[t]);
      CalledAllNext(start, numbers, t);
      ghost var now := Grids(boards);
      var winner := FindWinner(boards);
      if winner.Some? {
        var sum := boards[winner.value].SumUnmarked();
        assert sum == UnmarkedRows(now[winner.value]);
        FirstWinAt(start, numbers, t, now, winner.value, sum);
        return numbers[t] * sum;
      }
    }
    return 1;
  }

  /** The step of FirstWinScore at a call after which some board has won. */
  lemma FirstWinAt(gs: seq<Grid>, numbers: seq<nat>, t: nat, now: seq<Grid>, w: nat, sum: nat)
    requires AllGrids(gs) && t < |numbers|
    requires now == CalledAll(gs, numbers[..t + 1])
    requires FirstWon(now) == Some(w)
    requires sum == UnmarkedRows(now[w])
    ensures FirstWinScore(gs, numbers, t) == numbers[t] * sum
  {
  }

  /** The filter of `q2`: the boards that have not won, in order. */
  method KeepUnwon(live: seq<Board>) returns (kept: seq<Board>)
    requires AllValid(live) && Separate(live)
    ensures AllValid(kept) && Separate(kept)
    ensures forall j :: 0 <= j < |kept| ==> kept[j] in live
    ensures Grids(kept) == Unwon(Grids(live))
  {
    ghost var gs := Grids(live);
    kept := [];
    for k := 0 to |live|
      invariant Kept(live, k, kept)
      invariant Grids(kept) == Unwon(gs[..k])
    {
      kept := KeepStep(live, k, kept, gs);
    }
    assert gs[..|live|] == gs && live[..|live|] == live;
  }

  /** One board through the filter of `q2`. */
  method KeepStep(live: seq<Board>, k: nat, kept: seq<Board>, ghost gs: seq<Grid>) returns (next: seq<Board>)
    requires AllValid(live) && Separate(live) && k < |live| && gs == Grids(live)
    requires Kept(live, k, kept) && Grids(kept) == Unwon(gs[..k])
    ensures Kept(live, k + 1, next) && Grids(next) == Unwon(gs[..k + 1])
  {
    UnwonSnoc(gs, k);
    var won := live[k].HasWon();
    if !won {
      KeepOne(live, k, kept);
      next := kept + [live[k]];
    } else {
      KeepNone(live, k, kept);
      next := kept;
    }
  }

  /** The loop invariant of KeepUnwon: distinct valid boards, all met before k. */
  predicate Kept(live: seq<Board>, k: nat, kept: seq<Board>)
    reads kept
  {
    k <= |live| && AllValid(kept) && Separate(kept) &&
    forall j :: 0 <= j < |kept| ==> kept[j] in live[..k]
  }

  /** Appending a board that is not yet kept. */
  lemma KeepOne(live: seq<Board>, k: nat, kept: seq<Board>)
    requires AllValid(live) && Separate(live) && k < |live|
    requires Kept(live, k, kept)
    ensures Kept(live, k + 1, kept + [live[k]])
    ensures Grids(kept + [live[k]]) == Grids(kept) + [live[k].cells]
  {
    var r := kept + [live[k]];
    forall j | 0 <= j < |kept|
      ensures r[j] in live[..k + 1] && r[..j] == kept[..j]
    {
      assert r[j] == kept[j] && kept[j] in live[..k];
    }
    assert live[..k + 1][k] == live[k];
    assert r[..|kept|] == kept;
  }

  /** Skipping a board. */
  lemma KeepNone(live: seq<Board>, k: nat, kept: seq<Board>)
    requires k < |live| && Kept(live, k, kept)
    ensures Kept(live, k + 1, kept)
  {
    assert live[..k + 1][..k] == live[..k];
  }

  /** Unwon over one more board. */
  lemma UnwonSnoc(gs: seq<Grid>, k: nat)
    requires AllGrids(gs) && k < |gs|
    ensures Unwon(gs[..k + 1]) == Unwon(gs[..k]) + (if Won(gs[k]) then [] else [gs[k]])
  {
    assert gs[..k + 1][..k] == gs[..k];
  }

  /** `q2`: the score of the last board to win. */
  method LastWinner(numbers: seq<nat>, boards: seq<Board>) returns (score: nat)
    requires AllValid(boards) && Separate(boards)
    modifies boards
    ensures score == LastWinScore(old(Grids(boards)), numbers, 0)
  {
    ghost var start := Grids(boards);
    var live := boards;
    for t := 0 to |numbers|
      invariant AllValid(live) && Separate(live)
      invariant forall k :: 0 <= k < |live| ==> live[k] in boards
      invariant LastWinScore(Grids(live), numbers, t) == LastWinScore(start, numbers, 0)
    {
      ghost var before := Grids(live);
      MarkBoards(live, numbers[t]);
      ghost var now := Grids(live);
      if |live| == 1 {
        var won := live[0].HasWon();
        if won {
          var sum := live[0].SumUnmarked();
          LastWinAt(before, numbers, t, now);
          return sum * numbers[t];
        }
        LastWinAt(before, numbers, t, now);
      } else {
        var kept := KeepUnwon(live);
        LastWinAt(before, numbers, t, now);
        live := kept;
      }
    }
    return 1;
  }

  /** One step of LastWinScore. */
  lemma LastWinAt(gs: seq<Grid>, numbers: seq<nat>, t: nat, now: seq<Grid>)
    requires AllGrids(gs) && t < |numbers|
    requires now == MarkAll(gs, numbers[t])
    ensures |now| == 1 && Won(now[0]) ==> LastWinScore(gs, numbers, t) == UnmarkedRows(now[0]) * numbers[t]
    ensures |now| == 1 && !Won(now[0]) ==> LastWinScore(gs, numbers, t) == LastWinScore(now, numbers, t + 1)
    ensures |now| != 1 ==> LastWinScore(gs, numbers, t) == LastWinScore(Unwon(now), numbers, t + 1)
  {
  }
}
