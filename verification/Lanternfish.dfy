/**
 * Lanternfish (src/day6.rs): fish are counted by the days left on their
 * timer, 0 to 8. Each day every timer counts down; a fish at 0 restarts at 6
 * and spawns a new fish at 8.
 */
module Lanternfish {

  /** The sum of the bucket counts. */
  function Total(c: seq<nat>): nat {
    if c == [] then 0 else Total(c[..|c| - 1]) + c[|c| - 1]
  }

  /** The buckets the input fills: bucket k holds the number of fish whose timer is k. */
  function Buckets(fish: seq<nat>): (c: seq<nat>)
    ensures |c| == 9
  {
    seq(9, k => multiset(fish)[k])
  }

  /** One day: bucket i takes bucket i + 1, bucket 8 the spawned fish, and bucket 6 also the restarted ones. */
  function Day(c: seq<nat>): (d: seq<nat>)
    requires |c| == 9
    ensures |d| == 9
  {
    c[1..7] + [c[7] + c[0], c[8], c[0]]
  }

  function Days(c: seq<nat>, days: nat): (d: seq<nat>)
    requires |c| == 9
    ensures |d| == 9
  {
    if days == 0 then c else Day(Days(c, days - 1))
  }

  lemma {:induction false} TotalAppend(a: seq<nat>, b: seq<nat>)
    ensures Total(a + b) == Total(a) + Total(b)
    decreases |b|
  {
    if b == [] {
      assert a + b == a;
    } else {
      assert (a + b)[..|a + b| - 1] == a + b[..|b| - 1];
      TotalAppend(a, b[..|b| - 1]);
    }
  }

  /** A day adds exactly the fish that were in bucket 0, so the school never shrinks. */
  lemma DayTotal(c: seq<nat>)
    requires |c| == 9
    ensures Total(Day(c)) == Total(c) + c[0]
  {
    TotalSplit(c);
    TotalDaySplit(c);
  }

  lemma TotalSplit(c: seq<nat>)
    requires |c| == 9
    ensures Total(c) == c[0] + Total(c[1..7]) + c[7] + c[8]
  {
    var mid, head, ends := c[1..7], [c[0]], [c[7], c[8]];
    assert c == (head + mid) + ends;
    TotalAppend(head + mid, ends);
    TotalAppend(head, mid);
    TotalSmall(c[0], c[7], c[8]);
  }

  lemma TotalDaySplit(c: seq<nat>)
    requires |c| == 9
    ensures Total(Day(c)) == Total(c[1..7]) + c[7] + c[0] + c[8] + c[0]
  {
    TotalAppend(c[1..7], [c[7] + c[0], c[8], c[0]]);
    TotalSmall(c[0], c[7], c[8]);
  }

  lemma TotalSmall(x: nat, y: nat, z: nat)
    ensures Total([x]) == x && Total([y, z]) == y + z && Total([y + x, z, x]) == y + x + z + x
  {
    assert [x][..0] == [] && [y][..0] == [] && [y + x][..0] == [];
    assert Total([x]) == x && Total([y]) == y && Total([y + x]) == y + x;
    assert [y, z][..1] == [y] && [y + x, z][..1] == [y + x];
    assert Total([y, z]) == y + z && Total([y + x, z]) == y + x + z;
    assert [y + x, z, x][..2] == [y + x, z];
  }

  /** The school never shrinks from one day to the next. */
  lemma DaysGrow(c: seq<nat>, days: nat)
    requires |c| == 9
    ensures Total(Days(c, days)) <= Total(Days(c, days + 1))
  {
    DayTotal(Days(c, days));
  }

  /** Every fish lands in exactly one bucket: the buckets add up to the school's size. */
  lemma {:induction false} BucketsTotal(fish: seq<nat>)
    requires forall n :: n in fish ==> n < 9
    ensures Total(Buckets(fish)) == |fish|
  {
    if fish != [] {
      var init := fish[..|fish| - 1];
      var n := fish[|fish| - 1];
      assert fish == init + [n];
      assert forall m :: m in init ==> m in fish;
      BucketsTotal(init);
      assert n in fish;
      assert Buckets(fish) == Buckets(init)[n := Buckets(init)[n] + 1];
      TotalBump(Buckets(init), n);
    } else {
      TotalZero(Buckets(fish));
    }
  }

  lemma {:induction false} TotalZero(c: seq<nat>)
    requires forall k :: 0 <= k < |c| ==> c[k] == 0
    ensures Total(c) == 0
  {
    if c != [] {
      TotalZero(c[..|c| - 1]);
    }
  }

  /** Adding one to a bucket adds one to the total. */
  lemma {:induction false} TotalBump(c: seq<nat>, k: nat)
    requires k < |c|
    ensures Total(c[k := c[k] + 1]) == Total(c) + 1
  {
    var d := c[k := c[k] + 1];
    if k < |c| - 1 {
      assert d[..|d| - 1] == c[..|c| - 1][k := c[k] + 1];
      TotalBump(c[..|c| - 1], k);
    } else {
      assert d[..|d| - 1] == c[..|c| - 1];
    }
  }

  /**
   * `num_lanternfish`: count the fish into the nine buckets, rotate the
   * buckets once a day, and sum them. A timer of 9 or more would index
   * past the array.
   */
  method NumLanternfish(fish: seq<nat>, days: nat) returns (total: nat)
    requires forall n :: n in fish ==> n < 9
    ensures total == Total(Days(Buckets(fish), days))
  {
    var counts := new nat[9](_ => 0);
    for i := 0 to |fish|
      invariant forall k :: 0 <= k < 9 ==> counts[k] == multiset(fish[..i])[k]
    {
      assert fish[..i + 1] == fish[..i] + [fish[i]];
      assert fish[i] in fish;
      counts[fish[i]] := counts[fish[i]] + 1;
    }
    assert fish[..|fish|] == fish;
    assert counts[..] == Buckets(fish);
    for day := 0 to days
      invariant counts[..] == Days(Buckets(fish), day)
    {
      Rotate(counts);
    }
    total := 0;
    for k := 0 to 9
      invariant total == Total(counts[..k])
    {
      assert counts[..k + 1] == counts[..k] + [counts[k]];
      total := total + counts[k];
    }
    assert counts[..9] == counts[..];
  }

  /** The body of the day loop: shift the buckets down, then put bucket 0's fish in 8 and add them to 6. */
  method Rotate(counts: array<nat>)
    requires counts.Length == 9
    modifies counts
    ensures counts[..] == Day(old(counts[..]))
  {
    var zeroCount := counts[0];
    for i := 0 to 8
      invariant forall k :: 0 <= k < i ==> counts[k] == old(counts[k + 1])
      invariant forall k :: i <= k < 9 ==> counts[k] == old(counts[k])
    {
      counts[i] := counts[i + 1];
    }
    counts[8] := zeroCount;
    counts[6] := counts[6] + zeroCount;
  }

  /** With no days the answer is the number of fish. */
  lemma NoDays(fish: seq<nat>)
    requires forall n :: n in fish ==> n < 9
    ensures Total(Days(Buckets(fish), 0)) == |fish|
  {
    BucketsTotal(fish);
  }
}
