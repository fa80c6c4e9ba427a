/**
 * Hydrothermal vents (src/day5.rs): lines between two grid points, drawn
 * point by point when they are vertical or horizontal (and, on request,
 * when they are diagonal), and the count of grid points covered by at
 * least two lines.
 */
module Vents {

  datatype Point = Point(x: nat, y: nat)

  datatype Line = Line(from: Point, to: Point)

  /** The distance between two coordinates. */
  function Dist(a: nat, b: nat): nat {
    if a <= b then b - a else a - b
  }

  function Min(a: nat, b: nat): nat {
    if a <= b then a else b
  }

  /** The k-th coordinate from start towards end. */
  function Toward(start: nat, end: nat, k: nat): nat
    requires k <= Dist(start, end)
  {
    if start <= end then start + k else start - k
  }

  predicate Between(v: nat, a: nat, b: nat) {
    (a <= v <= b) || (b <= v <= a)
  }

  /**
   * `gen_range_incl`: start, start ± 1, ..., end, ascending when start <= end
   * and descending otherwise.
   */
  function RangeIncl(start: nat, end: nat): (r: seq<nat>)
    ensures |r| == Dist(start, end) + 1
    ensures forall k :: 0 <= k < |r| ==> r[k] == Toward(start, end, k)
  {
    if start <= end then seq(end - start + 1, k requires 0 <= k => start + k)
    else seq(start - end + 1, k requires 0 <= k <= start => start - k)
  }

  /** The range holds exactly the values between its two ends, each once. */
  lemma RangeInclCovers(start: nat, end: nat)
    ensures forall v :: v in RangeIncl(start, end) <==> Between(v, start, end)
    ensures forall j, k :: 0 <= j < k < |RangeIncl(start, end)| ==> RangeIncl(start, end)[j] != RangeIncl(start, end)[k]
  {
    var r := RangeIncl(start, end);
    forall v | Between(v, start, end)
      ensures v in r
    {
      var k := Dist(start, v);
      assert r[k] == v;
    }
  }

  /** `Line::is_straight`: the endpoints share x or share y. */
  predicate IsStraight(l: Line) {
    l.from.x == l.to.x || l.from.y == l.to.y
  }

  /**
   * The points `Line::points` draws, by step count: a vertical line first,
   * then a horizontal one, and otherwise a diagonal walked in step on both axes
   * until the shorter of the two ranges ends (the zip), only if diags is set.
   */
  function LinePoints(l: Line, diags: bool): set<Point> {
    if l.from.x == l.to.x then
      set k: nat | k <= Dist(l.from.y, l.to.y) :: Point(l.from.x, Toward(l.from.y, l.to.y, k))
    else if l.from.y == l.to.y then
      set k: nat | k <= Dist(l.from.x, l.to.x) :: Point(Toward(l.from.x, l.to.x, k), l.from.y)
    else if diags then
      set k: nat | k <= Min(Dist(l.from.x, l.to.x), Dist(l.from.y, l.to.y)) ::
        Point(Toward(l.from.x, l.to.x, k), Toward(l.from.y, l.to.y, k))
    else {}
  }

  /** A straight line covers exactly the grid points between its endpoints. */
  lemma StraightPoints(l: Line, diags: bool)
    requires IsStraight(l)
    ensures forall p :: p in LinePoints(l, diags) <==>
      Between(p.x, l.from.x, l.to.x) && Between(p.y, l.from.y, l.to.y)
  {
    forall p: Point | Between(p.x, l.from.x, l.to.x) && Between(p.y, l.from.y, l.to.y)
      ensures p in LinePoints(l, diags)
    {
      if l.from.x == l.to.x {
        var k := Dist(l.from.y, p.y);
        assert p == Point(l.from.x, Toward(l.from.y, l.to.y, k));
      } else {
        var k := Dist(l.from.x, p.x);
        assert p == Point(Toward(l.from.x, l.to.x, k), l.from.y);
      }
    }
  }

  /** The k-th point of a diagonal is k steps from `from` on both axes. */
  lemma DiagonalPoints(l: Line)
    requires !IsStraight(l)
    ensures LinePoints(l, false) == {}
    ensures forall p :: p in LinePoints(l, true) <==>
      exists k: nat :: k <= Min(Dist(l.from.x, l.to.x), Dist(l.from.y, l.to.y)) &&
        p.x == Toward(l.from.x, l.to.x, k) && p.y == Toward(l.from.y, l.to.y, k)
  {
  }

  /** Drawing diagonals only adds points. */
  lemma DiagonalsOnlyAdd(l: Line)
    ensures LinePoints(l, false) <= LinePoints(l, true)
  {
  }

  /** Both endpoints of a straight line are drawn. */
  lemma EndpointsDrawn(l: Line, diags: bool)
    requires IsStraight(l)
    ensures l.from in LinePoints(l, diags) && l.to in LinePoints(l, diags)
  {
    StraightPoints(l, diags);
  }

  /** `Line::points`: insert every point of the range into a set. */
  method Points(l: Line, diags: bool) returns (points: set<Point>)
    ensures points == LinePoints(l, diags)
  {
    points := {};
    if l.from.x == l.to.x {
      var r := RangeIncl(l.from.y, l.to.y);
      for k := 0 to |r|
        invariant points == set j: nat | j < k :: Point(l.from.x, Toward(l.from.y, l.to.y, j))
      {
        points := points + {Point(l.from.x, r[k])};
      }
    } else if l.from.y == l.to.y {
      var r := RangeIncl(l.from.x, l.to.x);
      for k := 0 to |r|
        invariant points == set j: nat | j < k :: Point(Toward(l.from.x, l.to.x, j), l.from.y)
      {
        points := points + {Point(r[k], l.from.y)};
      }
    } else if diags {
      var xs := RangeIncl(l.from.x, l.to.x);
      var ys := RangeIncl(l.from.y, l.to.y);
      var n := if |xs| <= |ys| then |xs| else |ys|;
      for k := 0 to n
        invariant points == set j: nat | j < k :: Point(Toward(l.from.x, l.to.x, j), Toward(l.from.y, l.to.y, j))
      {
        points := points + {Point(xs[k], ys[k])};
      }
    }
  }

  /** The point lies on two different lines of the list. */
  predicate OnTwo(lines: seq<Line>, diags: bool, p: Point) {
    exists i, j :: 0 <= i < j < |lines| && p in LinePoints(lines[i], diags) && p in LinePoints(lines[j], diags)
  }

  /** The point is drawn by two lines a < b whose pair comes before (i, j) in the loops' order. */
  predicate OnTwoBefore(lines: seq<Line>, diags: bool, p: Point, i: nat, j: nat) {
    exists a, b :: 0 <= a < b < |lines| && (a < i || (a == i && b < j)) &&
      p in LinePoints(lines[a], diags) && p in LinePoints(lines[b], diags)
  }

  /**
   * `find_intersection`: the union, over every pair of lines, of the points
   * both draw. The range `0..lines.len() - 1` underflows on an empty list.
   */
  method FindIntersection(lines: seq<Line>, diags: bool) returns (count: nat, doubles: set<Point>)
    requires |lines| >= 1
    ensures forall p :: p in doubles <==> OnTwo(lines, diags, p)
    ensures count == |doubles|
  {
    doubles := {};
    for i := 0 to |lines| - 1
      invariant forall p :: p in doubles <==> OnTwoBefore(lines, diags, p, i, 0)
    {
      for j := i + 1 to |lines|
        invariant forall p :: p in doubles <==> OnTwoBefore(lines, diags, p, i, j)
      {
        var first := Points(lines[i], diags);
        var second := Points(lines[j], diags);
        doubles := doubles + (first * second);
      }
    }
    count := |doubles|;
  }
}
