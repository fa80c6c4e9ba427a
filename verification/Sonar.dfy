/**
 * Sonar sweep (src/day01.rs; src/day1.rs is the same code): how often a depth
 * measurement is larger than the one before it, first for single readings
 * and then for the sums of three-reading windows.
 */
module Sonar {

  /**
   * The number of indices i with g <= i < |ns| and ns[i] > ns[i - g]: with
   * g = 1 the increases between neighbours, with g = 3 between readings three
   * apart.
   */
  function Increases(ns: seq<nat>, g: nat): (k: nat)
    ensures |ns| >= g ==> k <= |ns| - g
  {
    if |ns| <= g then 0
    else Increases(ns[..|ns| - 1], g) + (if ns[|ns| - 1] > ns[|ns| - 1 - g] then 1 else 0)
  }

  /** The reading at index i is larger than the one g places before it. */
  predicate Rises(ns: seq<nat>, g: nat, i: int)
    requires g <= i < |ns|
  {
    ns[i] > ns[i - g]
  }

  /** The indices of the increases. */
  function RiseSet(ns: seq<nat>, g: nat): set<int> {
    set i | g <= i < |ns| && Rises(ns, g, i)
  }

  /** The increases, as a set of indices: equal or smaller readings do not count. */
  lemma {:induction false} IncreasesCounts(ns: seq<nat>, g: nat)
    ensures Increases(ns, g) == |RiseSet(ns, g)|
  {
    if |ns| <= g {
      assert RiseSet(ns, g) == {};
    } else {
      var init := ns[..|ns| - 1];
      IncreasesCounts(init, g);
      RiseSetSnoc(ns, g);
    }
  }

  /** A new last reading adds its own index to the increases if it rises, and nothing else. */
  lemma RiseSetSnoc(ns: seq<nat>, g: nat)
    requires |ns| > g
    ensures |ns| - 1 !in RiseSet(ns[..|ns| - 1], g)
    ensures RiseSet(ns, g) == RiseSet(ns[..|ns| - 1], g) + if Rises(ns, g, |ns| - 1) then {|ns| - 1} else {}
  {
    var init := ns[..|ns| - 1];
    forall i | g <= i < |ns| - 1
      ensures Rises(init, g, i) == Rises(ns, g, i)
    {
    }
  }

  /** `num_increasing`: walk the list keeping the previous reading. */
  method NumIncreasing(numbers: seq<nat>) returns (count: nat)
    requires |numbers| > 0
    ensures count == Increases(numbers, 1)
  {
    count := 0;
    var prev := numbers[0];
    for i := 1 to |numbers|
      invariant prev == numbers[i - 1]
      invariant count == Increases(numbers[..i], 1)
    {
      assert numbers[..i + 1][..i] == numbers[..i];
      if numbers[i] > prev {
        count := count + 1;
      }
      prev := numbers[i];
    }
    assert numbers[..|numbers|] == numbers;
  }

  /** The three-reading sums, one per start index, built up as the readings arrive. */
  function Windows(ns: seq<nat>): (w: seq<nat>)
    ensures |ns| >= 2 ==> |w| == |ns| - 2
  {
    if |ns| <= 2 then []
    else Windows(ns[..|ns| - 1]) + [ns[|ns| - 3] + ns[|ns| - 2] + ns[|ns| - 1]]
  }

  /** Window i is the sum of readings i, i + 1 and i + 2. */
  lemma {:induction false} WindowsAt(ns: seq<nat>, i: nat)
    requires i + 2 < |ns|
    ensures Windows(ns)[i] == ns[i] + ns[i + 1] + ns[i + 2]
  {
    var init := ns[..|ns| - 1];
    if i + 3 < |ns| {
      WindowsAt(init, i);
      assert Windows(ns)[i] == Windows(init)[i];
    }
  }

  /** The window construction of `q2`, which first asserts more than two readings. */
  method BuildWindows(numbers: seq<nat>) returns (window: seq<nat>)
    requires |numbers| > 2
    ensures window == Windows(numbers)
  {
    window := [];
    for i := 0 to |numbers| - 2
      invariant window == Windows(numbers[..i + 2])
    {
      assert numbers[..i + 3][..i + 2] == numbers[..i + 2];
      window := window + [numbers[i] + numbers[i + 1] + numbers[i + 2]];
    }
    assert numbers[..|numbers|] == numbers;
  }

  /**
   * Consecutive windows share two readings, so a window sum grows exactly
   * when the reading entering it is larger than the one leaving it.
   */
  lemma {:induction false} WindowIncreases(ns: seq<nat>)
    ensures Increases(Windows(ns), 1) == Increases(ns, 3)
  {
    if |ns| > 3 {
      var n := |ns|;
      var init := ns[..n - 1];
      WindowIncreases(init);
      var w := Windows(ns);
      var last := ns[n - 3] + ns[n - 2] + ns[n - 1];
      assert w == Windows(init) + [last];
      assert w[..n - 3] == Windows(init);
      WindowsAt(init, n - 4);
      assert w[n - 4] == ns[n - 4] + ns[n - 3] + ns[n - 2];
      var rise := if ns[n - 1] > ns[n - 4] then 1 else 0;
      assert Increases(w, 1) == Increases(Windows(init), 1) + rise;
      assert Increases(ns, 3) == Increases(init, 3) + rise;
    }
  }

  /** `q2`: the number of window increases. */
  method SlidingIncreases(numbers: seq<nat>) returns (count: nat)
    requires |numbers| > 2
    ensures count == Increases(numbers, 3)
  {
    var window := BuildWindows(numbers);
    count := NumIncreasing(window);
    WindowIncreases(numbers);
  }
}
