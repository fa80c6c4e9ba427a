/**
 * Crab alignment (src/day7.rs): choose the position every crab moves to
 * so that the fuel spent is least. In the first part a step costs 1, so the
 * median is the answer; in the second the n-th step costs n, so a move of
 * distance n costs the triangular number n(n + 1)/2 and every target between
 * the leftmost and rightmost crab is tried.
 */
module Crabs {
  import opened Sorting

  function Abs(n: int): nat {
    if n < 0 then -n else n
  }

  /** The fuel for every crab to reach the target at one unit per step. */
  function Cost(ns: seq<int>, target: int): nat {
    if ns == [] then 0 else Abs(ns[0] - target) + Cost(ns[1..], target)
  }

  lemma {:induction false} CostAppend(a: seq<int>, b: seq<int>, target: int)
    ensures Cost(a + b, target) == Cost(a, target) + Cost(b, target)
  {
    if a == [] {
      assert a + b == b;
    } else {
      assert (a + b)[1..] == a[1..] + b;
      CostAppend(a[1..], b, target);
    }
  }

  lemma {:induction false} CostInsert(x: int, s: seq<int>, target: int)
    ensures Cost(Insert(x, s), target) == Abs(x - target) + Cost(s, target)
  {
    if s != [] && x > s[0] {
      CostInsert(x, s[1..], target);
      assert Insert(x, s)[1..] == Insert(x, s[1..]);
    }
  }

  /** Sorting the crabs does not change the fuel they need. */
  lemma {:induction false} CostSort(s: seq<int>, target: int)
    ensures Cost(Sort(s), target) == Cost(s, target)
  {
    if s != [] {
      CostSort(s[1..], target);
      CostInsert(s[0], Sort(s[1..]), target);
    }
  }

  /**
   * `q1`: sort the positions, take the one at index len/2, and add up the
   * distances to it. That is the fuel to one of the crabs' positions, and no
   * integer target needs less.
   */
  function MedianCost(ns: seq<int>): (cost: nat)
    requires |ns| > 0
    ensures exists x :: x in ns && cost == Cost(ns, x)
    ensures forall target: int :: cost <= Cost(ns, target)
  {
    var sorted := Sort(ns);
    MedianBest(ns);
    Cost(sorted, sorted[|sorted| / 2])
  }

  /**
   * In a sorted list, the element at index len/2 lies between the first
   * and the last, and is the element at the same rank in the list without them.
   */
  lemma MedianOfInner(s: seq<int>)
    requires Sorted(s) && |s| >= 3
    ensures s[1..|s| - 1][(|s| - 2) / 2] == s[|s| / 2]
    ensures s[0] <= s[|s| / 2] <= s[|s| - 1]
  {
  }

  /** The element at index len/2 of a sorted list costs no more than any other target. */
  lemma {:induction false} SortedMedianOptimal(s: seq<int>, target: int)
    requires Sorted(s) && |s| > 0
    ensures Cost(s, s[|s| / 2]) <= Cost(s, target)
    decreases |s|
  {
    var m := s[|s| / 2];
    if |s| >= 2 {
      CostEnds(s, m);
      CostEnds(s, target);
      if |s| >= 3 {
        MedianOfInner(s);
        SortedMedianOptimal(s[1..|s| - 1], target);
      }
    }
  }

  /** The cost splits into the first crab, the crabs between, and the last crab. */
  lemma CostEnds(s: seq<int>, x: int)
    requires |s| >= 2
    ensures Cost(s, x) == Abs(s[0] - x) + Cost(s[1..|s| - 1], x) + Abs(s[|s| - 1] - x)
  {
    var last := [s[|s| - 1]];
    assert s[1..] == s[1..|s| - 1] + last;
    CostAppend(s[1..|s| - 1], last, x);
    assert last[1..] == [];
  }

  /** The sorted list's element at index len/2 is a crab's position, and no target costs less. */
  lemma MedianBest(ns: seq<int>)
    requires |ns| > 0
    ensures |Sort(ns)| == |ns|
    ensures Sort(ns)[|ns| / 2] in ns && Cost(Sort(ns), Sort(ns)[|ns| / 2]) == Cost(ns, Sort(ns)[|ns| / 2])
    ensures forall target: int :: Cost(Sort(ns), Sort(ns)[|ns| / 2]) <= Cost(ns, target)
  {
    var sorted := Sort(ns);
    SortSorted(ns);
    assert |sorted| == |ns| by {
      assert |multiset(sorted)| == |multiset(ns)|;
    }
    assert sorted[|ns| / 2] in multiset(sorted);
    CostSort(ns, sorted[|ns| / 2]);
    forall target: int
      ensures Cost(sorted, sorted[|ns| / 2]) <= Cost(ns, target)
    {
      SortedMedianOptimal(sorted, target);
      CostSort(ns, target);
    }
  }

  /**
   * The `distance` closure of `q2`: n(n + 1)/2 for a move of n steps, which
   * is 1 + 2 + ... + n, the cost when each step costs one more than the last.
   */
  function Distance(from: int, to: int): (d: nat)
    ensures d == StepsCost(Abs(from - to))
  {
    var n := Abs(from - to);
    var twice := n * (n + 1);
    TriangleIsStepsCost(n);
    twice / 2
  }

  /** The cost of n steps when each step costs one more than the one before. */
  function StepsCost(n: nat): nat {
    if n == 0 then 0 else StepsCost(n - 1) + n
  }

  /** The closed form n(n + 1)/2 agrees with paying 1, 2, ..., n for the steps. */
  lemma {:induction false} TriangleIsStepsCost(n: nat)
    ensures n * (n + 1) >= 0 && n * (n + 1) / 2 == StepsCost(n)
  {
    if n > 0 {
      TriangleIsStepsCost(n - 1);
      assert n * (n + 1) == (n - 1) * n + 2 * n;
    }
  }

  /** A longer move never costs less. */
  lemma {:induction false} StepsCostMonotone(a: nat, b: nat)
    requires a <= b
    ensures StepsCost(a) <= StepsCost(b)
    decreases b - a
  {
    if a < b {
      StepsCostMonotone(a, b - 1);
    }
  }

  /** The distance is symmetric and is 0 exactly when the crab is already at the target. */
  lemma DistanceFacts(from: int, to: int)
    ensures Distance(from, to) == Distance(to, from)
    ensures Distance(from, to) == 0 <==> from == to
  {
    var n := Abs(from - to);
    assert Abs(to - from) == n && Abs(n - 0) == n;
    if n > 0 {
      StepsCostMonotone(1, n);
    }
  }

  /** The fuel for every crab to reach the target in the second part. */
  function Fuel(ns: seq<int>, target: int): nat {
    if ns == [] then 0 else Distance(ns[0], target) + Fuel(ns[1..], target)
  }

  function Max(ns: seq<int>): (m: int)
    requires |ns| > 0
    ensures m in ns && forall x :: x in ns ==> x <= m
  {
    if |ns| == 1 then ns[0]
    else
      var rest := Max(ns[1..]);
      assert ns == [ns[0]] + ns[1..];
      if ns[0] > rest then ns[0] else rest
  }

  function Min(ns: seq<int>): (m: int)
    requires |ns| > 0
    ensures m in ns && forall x :: x in ns ==> m <= x
  {
    if |ns| == 1 then ns[0]
    else
      var rest := Min(ns[1..]);
      assert ns == [ns[0]] + ns[1..];
      if ns[0] < rest then ns[0] else rest
  }

  /** The least fuel over the targets lo..hi (hi exclusive). */
  function LeastFuel(ns: seq<int>, lo: int, hi: int): nat
    requires lo < hi
    decreases hi - lo
  {
    if lo + 1 == hi then Fuel(ns, lo)
    else
      var rest := LeastFuel(ns, lo + 1, hi);
      if Fuel(ns, lo) < rest then Fuel(ns, lo) else rest
  }

  /** LeastFuel is the fuel of one of the targets and no more than that of any of them. */
  lemma {:induction false} LeastFuelIsMin(ns: seq<int>, lo: int, hi: int)
    requires lo < hi
    ensures exists t :: lo <= t < hi && LeastFuel(ns, lo, hi) == Fuel(ns, t)
    ensures forall t :: lo <= t < hi ==> LeastFuel(ns, lo, hi) <= Fuel(ns, t)
    decreases hi - lo
  {
    if lo + 1 < hi {
      LeastFuelIsMin(ns, lo + 1, hi);
    } else {
      assert LeastFuel(ns, lo, hi) == Fuel(ns, lo);
    }
  }

  /**
   * `q2`: the least fuel over every target from the smallest to the largest
   * position. The searched range is enough: some target in it needs exactly
   * this fuel, and no integer target, inside the range or outside it, needs
   * less.
   */
  function AlignFuel(ns: seq<int>): (fuel: nat)
    requires |ns| > 0
    ensures exists t :: Min(ns) <= t <= Max(ns) && fuel == Fuel(ns, t)
    ensures forall target: int :: fuel <= Fuel(ns, target)
  {
    RangeBest(ns);
    LeastFuel(ns, Min(ns), Max(ns) + 1)
  }

  /** Moving the target away from every crab costs each of them at least as much. */
  lemma {:induction false} FuelFartherOut(ns: seq<int>, a: int, b: int)
    requires forall x :: x in ns ==> (x <= a <= b || b <= a <= x)
    ensures Fuel(ns, a) <= Fuel(ns, b)
  {
    if ns != [] {
      assert ns[0] in ns;
      StepsCostMonotone(Abs(ns[0] - a), Abs(ns[0] - b));
      assert forall x :: x in ns[1..] ==> x in ns;
      FuelFartherOut(ns[1..], a, b);
    }
  }

  /** No integer target needs less fuel than the least over [min, max]. */
  lemma RangeBest(ns: seq<int>)
    requires |ns| > 0
    ensures exists t :: Min(ns) <= t <= Max(ns) && LeastFuel(ns, Min(ns), Max(ns) + 1) == Fuel(ns, t)
    ensures forall target: int :: LeastFuel(ns, Min(ns), Max(ns) + 1) <= Fuel(ns, target)
  {
    LeastFuelIsMin(ns, Min(ns), Max(ns) + 1);
    forall target: int
      ensures LeastFuel(ns, Min(ns), Max(ns) + 1) <= Fuel(ns, target)
    {
      TargetBest(ns, target);
    }
  }

  lemma TargetBest(ns: seq<int>, target: int)
    requires |ns| > 0
    ensures LeastFuel(ns, Min(ns), Max(ns) + 1) <= Fuel(ns, target)
  {
    LeastFuelIsMin(ns, Min(ns), Max(ns) + 1);
    if target > Max(ns) {
      FuelFartherOut(ns, Max(ns), target);
    } else if target < Min(ns) {
      FuelFartherOut(ns, Min(ns), target);
    }
  }
}
