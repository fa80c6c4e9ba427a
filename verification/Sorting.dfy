/**
 * Sorting integers, as Rust's `slice::sort` does for the lists of scores,
 * crab positions and basin sizes. The library sort is modelled by the value it
 * produces: the one ascending rearrangement of the list, computed here by
 * insertion and shown to be the only sorted permutation.
 */
module Sorting {

  predicate Sorted(s: seq<int>) {
    forall i, j :: 0 <= i < j < |s| ==> s[i] <= s[j]
  }

  /** Insert x before the first element that is not smaller. */
  function Insert(x: int, s: seq<int>): (r: seq<int>)
    ensures |r| == |s| + 1
    ensures multiset(r) == multiset(s) + multiset{x}
  {
    if s == [] || x <= s[0] then [x] + s
    else
      assert s == [s[0]] + s[1..];
      [s[0]] + Insert(x, s[1..])
  }

  lemma {:induction false} InsertSorted(x: int, s: seq<int>)
    requires Sorted(s)
    ensures Sorted(Insert(x, s))
  {
    if s != [] && x > s[0] {
      InsertSorted(x, s[1..]);
      var r := Insert(x, s[1..]);
      forall k | 0 <= k < |r|
        ensures s[0] <= r[k]
      {
        assert r[k] in multiset(r);
        assert r[k] in multiset(s[1..]) + multiset{x};
      }
    }
  }

  /** The ascending rearrangement of s. */
  function Sort(s: seq<int>): (r: seq<int>)
    ensures |r| == |s|
    ensures multiset(r) == multiset(s)
  {
    if s == [] then []
    else
      assert s == [s[0]] + s[1..];
      Insert(s[0], Sort(s[1..]))
  }

  lemma {:induction false} SortSorted(s: seq<int>)
    ensures Sorted(Sort(s))
  {
    if s != [] {
      SortSorted(s[1..]);
      InsertSorted(s[0], Sort(s[1..]));
    }
  }

  /** Two sorted lists with the same elements are the same list. */
  lemma {:induction false} SortedUnique(a: seq<int>, b: seq<int>)
    requires Sorted(a) && Sorted(b) && multiset(a) == multiset(b)
    ensures a == b
    decreases |a|
  {
    if a != [] {
      assert |b| == |a| by {
        assert |multiset(a)| == |a| && |multiset(b)| == |b|;
      }
      assert a[0] == b[0] by {
        assert a[0] in multiset(b) && b[0] in multiset(a);
        HeadIsLeast(a, b[0]);
        HeadIsLeast(b, a[0]);
      }
      assert multiset(a[1..]) == multiset(b[1..]) by {
        TailMultiset(a);
        TailMultiset(b);
      }
      SortedTail(a);
      SortedTail(b);
      SortedUnique(a[1..], b[1..]);
      assert a == [a[0]] + a[1..] && b == [b[0]] + b[1..];
    }
  }

  lemma SortedTail(s: seq<int>)
    requires Sorted(s) && s != []
    ensures Sorted(s[1..])
  {
  }

  /** The first element of a sorted list is no larger than any of its elements. */
  lemma HeadIsLeast(s: seq<int>, x: int)
    requires Sorted(s) && x in multiset(s)
    ensures s[0] <= x
  {
    var i :| 0 <= i < |s| && s[i] == x;
  }

  lemma TailMultiset(s: seq<int>)
    requires s != []
    ensures multiset(s[1..]) == multiset(s) - multiset{s[0]}
  {
    assert s == [s[0]] + s[1..];
  }

  /** Sort is the only sorted permutation: whatever the library's algorithm, its result is this one. */
  lemma SortIsTheSortedPermutation(s: seq<int>, t: seq<int>)
    requires Sorted(t) && multiset(t) == multiset(s)
    ensures t == Sort(s)
  {
    SortSorted(s);
    SortedUnique(t, Sort(s));
  }
}
