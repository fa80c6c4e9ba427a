/**
 * Trick shot (src/day17.rs): a probe launched from (0, 0) with an integer
 * velocity moves by its velocity each step; drag pulls the horizontal
 * velocity towards 0 and gravity lowers the vertical one by 1. The probe
 * must come to rest, at the end of some step, inside a target area.
 */
module Trajectory {
  import opened Wrappers

  /**
   * The target area, as the source stores it: x = (left, right) and
   * y = (top, bottom), so a hit needs x >= x.0 and y <= y.0 while the flight
   * goes on as long as x <= x.1 and y >= y.1.
   */
  datatype Target = Target(x: (int, int), y: (int, int))

  /** The probe's position and velocity (the source's `isize` locals). */
  datatype Probe = Probe(x: int, y: int, xv: int, yv: int)

  /** One step of `peak_height`'s loop. */
  function Move(p: Probe): Probe {
    Probe(p.x + p.xv, p.y + p.yv, if p.xv - 1 > 0 then p.xv - 1 else 0, p.yv - 1)
  }

  /** The probe after n steps. */
  function After(p: Probe, n: nat): Probe
    decreases n
  {
    if n == 0 then p else After(Move(p), n - 1)
  }

  /** The loop condition: the probe is not yet past the target's right side or bottom. */
  predicate InRange(p: Probe, t: Target) {
    p.x <= t.x.1 && p.y >= t.y.1
  }

  /** The probe is at or past the target's left side and top. */
  predicate Hit(p: Probe, t: Target) {
    p.x >= t.x.0 && p.y <= t.y.0
  }

  /** `peak_height` from a given probe and the peak recorded so far. */
  function Flight(p: Probe, peak: int, t: Target): Option<int>
    // the upward velocity runs out first, then the probe falls towards the bottom
    decreases if p.yv >= 0 then p.yv + 1 else 0, p.y - t.y.1
  {
    if !InRange(p, t) then None
    else
      var peak' := if p.yv == 0 then p.y else peak;
      if Hit(p, t) then Some(peak') else Flight(Move(p), peak', t)
  }

  /** The shot with velocity (xv, yv) from the origin. */
  function Launch(xv: int, yv: int): Probe {
    Probe(0, 0, xv, yv)
  }

  /** `peak_height`: step the probe until it hits the target or passes it. */
  method PeakHeight(xVel: int, yVel: int, t: Target) returns (r: Option<int>)
    ensures r == Flight(Launch(xVel, yVel), 0, t)
  {
    var x, y, xv, yv := 0, 0, xVel, yVel;
    var peak := 0;
    while x <= t.x.1 && y >= t.y.1
      invariant Flight(Probe(x, y, xv, yv), peak, t) == Flight(Launch(xVel, yVel), 0, t)
      decreases if yv >= 0 then yv + 1 else 0, y - t.y.1
    {
      if yv == 0 {
        peak := y;
      }
      if x >= t.x.0 && y <= t.y.0 {
        return Some(peak);
      }
      x := x + xv;
      y := y + yv;
      xv := if xv - 1 > 0 then xv - 1 else 0;
      yv := yv - 1;
    }
    r := None;
  }

  /** The probe hits at step n and not before, and is still in range up to then. */
  predicate FirstHit(p: Probe, t: Target, n: nat) {
    InRange(After(p, n), t) && Hit(After(p, n), t) &&
    forall m :: 0 <= m < n ==> InRange(After(p, m), t) && !Hit(After(p, m), t)
  }

  /** The flight ends in a hit exactly when some step is the first hit. */
  lemma {:induction false} FlightHits(p: Probe, peak: int, t: Target)
    ensures Flight(p, peak, t).Some? <==> exists n: nat :: FirstHit(p, t, n)
    decreases if p.yv >= 0 then p.yv + 1 else 0, p.y - t.y.1
  {
    var peak' := if p.yv == 0 then p.y else peak;
    if InRange(p, t) && !Hit(p, t) {
      FlightHits(Move(p), peak', t);
      if Flight(p, peak, t).Some? {
        var n: nat :| FirstHit(Move(p), t, n);
        assert FirstHit(p, t, n + 1) by {
          forall m | 0 <= m < n + 1 ensures InRange(After(p, m), t) && !Hit(After(p, m), t) {
            if m > 0 {
              assert After(p, m) == After(Move(p), m - 1);
            }
          }
        }
      }
      if exists n: nat :: FirstHit(p, t, n) {
        var n: nat :| FirstHit(p, t, n);
        assert n != 0;
        assert FirstHit(Move(p), t, n - 1) by {
          forall m | 0 <= m < n - 1 ensures InRange(After(Move(p), m), t) && !Hit(After(Move(p), m), t) {
            assert After(p, m + 1) == After(Move(p), m);
          }
        }
      }
    } else if InRange(p, t) {
      assert FirstHit(p, t, 0);
    } else {
      assert After(p, 0) == p;
    }
  }

  /** After m steps the vertical velocity has dropped by m. */
  lemma {:induction false} FallVelocity(p: Probe, m: nat)
    ensures After(p, m).yv == p.yv - m
    decreases m
  {
    if m > 0 {
      FallVelocity(Move(p), m - 1);
    }
  }

  /**
   * The peak a hit reports: the height at the step where the vertical
   * velocity is 0, when that step comes no later than the hit; otherwise
   * the peak the flight started with.
   */
  lemma {:induction false} FlightPeak(p: Probe, peak: int, t: Target, n: nat)
    requires FirstHit(p, t, n)
    ensures Flight(p, peak, t) == Some(if 0 <= p.yv <= n then After(p, p.yv).y else peak)
    decreases n
  {
    var peak' := if p.yv == 0 then p.y else peak;
    if n > 0 {
      assert InRange(After(p, 0), t) && !Hit(After(p, 0), t);
      assert FirstHit(Move(p), t, n - 1) by {
        forall m | 0 <= m < n - 1 ensures InRange(After(Move(p), m), t) && !Hit(After(Move(p), m), t) {
          assert After(p, m + 1) == After(Move(p), m);
        }
      }
      FlightPeak(Move(p), peak', t, n - 1);
    }
  }

  /** The height after m steps: m·yv − m(m − 1)/2 above the start, written without division. */
  lemma {:induction false} Height(p: Probe, m: nat)
    ensures 2 * After(p, m).y == 2 * p.y + 2 * m * p.yv - m * (m - 1)
    decreases m
  {
    if m > 0 {
      var q := Move(p);
      Height(q, m - 1);
      assert After(p, m) == After(q, m - 1);
      HeightStep(p.y, p.yv, m);
    }
  }

  lemma HeightStep(y: int, v: int, m: int)
    ensures 2 * (y + v) + 2 * (m - 1) * (v - 1) - (m - 1) * (m - 2) == 2 * y + 2 * m * v - m * (m - 1)
  {
    assert 2 * (m - 1) * (v - 1) == 2 * m * v - 2 * m - 2 * v + 2;
    assert (m - 1) * (m - 2) == m * (m - 1) - 2 * m + 2;
  }

  /**
   * A shot from the origin upward with velocity v that hits no earlier than
   * step v reports the peak v(v + 1)/2; a shot that hits sooner, or starts
   * downward, reports 0.
   */
  lemma LaunchPeak(xv: int, yv: int, t: Target, n: nat)
    requires FirstHit(Launch(xv, yv), t, n)
    ensures 0 <= yv <= n ==> Flight(Launch(xv, yv), 0, t) == Some(yv * (yv + 1) / 2)
    ensures !(0 <= yv <= n) ==> Flight(Launch(xv, yv), 0, t) == Some(0)
  {
    FlightPeak(Launch(xv, yv), 0, t, n);
    if 0 <= yv {
      Height(Launch(xv, yv), yv);
      assert 2 * After(Launch(xv, yv), yv).y == yv * (yv + 1);
    }
  }

  /**
   * Drag never makes the horizontal velocity negative, so a shot that starts
   * at a non-negative horizontal velocity never moves left.
   */
  lemma {:induction false} DragKeepsDirection(p: Probe, m: nat)
    requires p.xv >= 0
    ensures After(p, m).xv >= 0
    ensures After(p, m + 1).x >= After(p, m).x
    decreases m
  {
    if m > 0 {
      DragKeepsDirection(Move(p), m - 1);
    }
  }

  /** `isize::abs` */
  function Abs(n: int): nat {
    if n < 0 then -n else n
  }

  /** The shot (xv, yv) hits the target. */
  predicate Hits(t: Target, xv: int, yv: int) {
    Flight(Launch(xv, yv), 0, t).Some?
  }

  /** The number of vertical velocities in lo..hi (hi exclusive) that hit with xv. */
  function ColumnHits(t: Target, xv: int, lo: int, hi: int): nat
    decreases hi - lo
  {
    if lo >= hi then 0 else (if Hits(t, xv, lo) then 1 else 0) + ColumnHits(t, xv, lo + 1, hi)
  }

  /** The number of shots with xv in lo..hi and yv in ylo..yhi that hit. */
  function GridHits(t: Target, lo: int, hi: int, ylo: int, yhi: int): nat
    decreases hi - lo
  {
    if lo >= hi then 0 else ColumnHits(t, lo, ylo, yhi) + GridHits(t, lo + 1, hi, ylo, yhi)
  }

  /** A column's count is the size of the set of its hitting velocities. */
  lemma {:induction false} ColumnHitsCounts(t: Target, xv: int, lo: int, hi: int)
    ensures ColumnHits(t, xv, lo, hi) == |set yv | lo <= yv < hi && Hits(t, xv, yv)|
    decreases hi - lo
  {
    var s := set yv | lo <= yv < hi && Hits(t, xv, yv);
    if lo < hi {
      var rest := set yv | lo + 1 <= yv < hi && Hits(t, xv, yv);
      ColumnHitsCounts(t, xv, lo + 1, hi);
      if Hits(t, xv, lo) {
        assert s == rest + {lo};
      } else {
        assert s == rest;
      }
    } else {
      assert s == {};
    }
  }

  /**
   * `q2`: count the hitting shots over xv in 0..=x.1 and yv from |y.1| down
   * to y.1 − 1.
   */
  method CountSolutions(t: Target) returns (count: nat)
    ensures count == GridHits(t, 0, t.x.1 + 1, t.y.1 - 1, Abs(t.y.1) + 1)
  {
    count := 0;
    var maxY := Abs(t.y.1) + 1;
    var xv := 0;
    while xv < t.x.1 + 1
      invariant xv <= t.x.1 + 1 || xv == 0
      invariant count + GridHits(t, xv, t.x.1 + 1, t.y.1 - 1, maxY) == GridHits(t, 0, t.x.1 + 1, t.y.1 - 1, maxY)
      decreases t.x.1 + 1 - xv
    {
      var yv := maxY - 1;
      ghost var before := count;
      while yv >= t.y.1 - 1
        invariant t.y.1 - 2 <= yv < maxY
        invariant count == before + ColumnHits(t, xv, yv + 1, maxY)
        decreases yv - (t.y.1 - 1)
      {
        var r := PeakHeight(xv, yv, t);
        if r.Some? {
          count := count + 1;
        }
        yv := yv - 1;
      }
      xv := xv + 1;
    }
  }

  /**
   * The inner search of `q1`: from yv down to 0, the peak of the first
   * (highest) vertical velocity that hits with xv, if any.
   */
  function HighestHit(t: Target, xv: int, yv: int): Option<int>
    decreases if yv < 0 then 0 else yv + 1
  {
    if yv < 0 then None
    else
      match Flight(Launch(xv, yv), 0, t)
      case Some(peak) => Some(peak)
      case None => HighestHit(t, xv, yv - 1)
  }

  /** HighestHit finds a hit exactly when some velocity from yv down to 0 hits. */
  lemma {:induction false} HighestHitFinds(t: Target, xv: int, yv: int)
    ensures HighestHit(t, xv, yv).Some? <==> exists v :: 0 <= v <= yv && Hits(t, xv, v)
    decreases if yv < 0 then 0 else yv + 1
  {
    if yv >= 0 && !Hits(t, xv, yv) {
      HighestHitFinds(t, xv, yv - 1);
      if exists v :: 0 <= v <= yv && Hits(t, xv, v) {
        var v :| 0 <= v <= yv && Hits(t, xv, v);
        assert v <= yv - 1;
      }
    }
  }

  /** What HighestHit reports is the peak of the highest hitting velocity at or below yv. */
  lemma {:induction false} HighestHitIsHighest(t: Target, xv: int, yv: int)
    requires HighestHit(t, xv, yv).Some?
    ensures exists v :: (0 <= v <= yv && Flight(Launch(xv, v), 0, t) == HighestHit(t, xv, yv) &&
      forall w :: v < w <= yv ==> !Hits(t, xv, w))
    decreases if yv < 0 then 0 else yv + 1
  {
    if !Hits(t, xv, yv) {
      HighestHitIsHighest(t, xv, yv - 1);
      var v :| 0 <= v <= yv - 1 && Flight(Launch(xv, v), 0, t) == HighestHit(t, xv, yv - 1) &&
        (forall w :: v < w <= yv - 1 ==> !Hits(t, xv, w));
      assert forall w :: v < w <= yv ==> !Hits(t, xv, w);
    } else {
      assert Flight(Launch(xv, yv), 0, t) == HighestHit(t, xv, yv);
    }
  }

  /** The answer of `q1` over xv in lo..hi, folded in increasing xv: the largest reported peak, or 0. */
  function BestPeak(t: Target, lo: int, hi: int, yv: int): int
    decreases hi - lo
  {
    if lo >= hi then 0
    else
      var before := BestPeak(t, lo, hi - 1, yv);
      match HighestHit(t, hi - 1, yv)
      case Some(peak) => if peak > before then peak else before
      case None => before
  }

  /** BestPeak is 0 or one of the reported peaks, and no reported peak exceeds it. */
  lemma {:induction false} BestPeakIsMax(t: Target, lo: int, hi: int, yv: int)
    ensures BestPeak(t, lo, hi, yv) >= 0
    ensures forall xv :: lo <= xv < hi && HighestHit(t, xv, yv).Some? ==> HighestHit(t, xv, yv).value <= BestPeak(t, lo, hi, yv)
    ensures BestPeak(t, lo, hi, yv) == 0 || exists xv :: lo <= xv < hi && HighestHit(t, xv, yv) == Some(BestPeak(t, lo, hi, yv))
    decreases hi - lo
  {
    if lo < hi {
      BestPeakIsMax(t, lo, hi - 1, yv);
      var before := BestPeak(t, lo, hi - 1, yv);
      var best := BestPeak(t, lo, hi, yv);
      if best != before {
        var last := hi - 1;
        assert HighestHit(t, last, yv).Some? && best == HighestHit(t, last, yv).value;
        assert lo <= last < hi && HighestHit(t, last, yv) == Some(best);
        assert exists xv :: lo <= xv < hi && HighestHit(t, xv, yv) == Some(best);
      } else if best != 0 {
        var xv :| lo <= xv < hi - 1 && HighestHit(t, xv, yv) == Some(before);
      }
    }
  }

  /** The inner loop of `q1`: try yv = top, top − 1, ..., 0 and stop at the first hit. */
  method FirstPeak(t: Target, xv: int, top: int) returns (r: Option<int>)
    ensures r == HighestHit(t, xv, top)
  {
    var yv := top;
    while yv >= 0
      invariant HighestHit(t, xv, yv) == HighestHit(t, xv, top)
      decreases yv + 1
    {
      r := PeakHeight(xv, yv, t);
      if r.Some? {
        return;
      }
      yv := yv - 1;
    }
    r := None;
  }

  /** `q1`: for each xv in 0..=x.1, the peak of the highest yv up to |y.1| that hits; the maximum. */
  method MaxPeak(t: Target) returns (max: int)
    ensures max == BestPeak(t, 0, t.x.1 + 1, Abs(t.y.1))
  {
    max := 0;
    var xv := 0;
    while xv < t.x.1 + 1
      invariant 0 <= xv && (xv <= t.x.1 + 1 || xv == 0)
      invariant max == BestPeak(t, 0, xv, Abs(t.y.1))
      decreases t.x.1 + 1 - xv
    {
      var r := FirstPeak(t, xv, Abs(t.y.1));
      if r.Some? && r.value > max {
        max := r.value;
      }
      xv := xv + 1;
    }
  }
}
