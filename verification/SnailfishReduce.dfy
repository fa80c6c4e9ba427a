/**
 * Reduction of snailfish numbers (src/day18.rs): explode, split and the
 * fixed-point loop of `add`.
 *
 * The source rewrites the shared tree in place; here each rewrite is a function
 * from the tree before to the tree after, and the position it rewrites is a path.
 */
module SnailfishReduce {
  import opened Wrappers
  import opened Snailfish

  // ---------------------------------------------------------------------------
  // Shape facts: trees with the same skeleton have the same positions.
  // ---------------------------------------------------------------------------

  lemma {:induction false} SkeletonPath(a: SF, b: SF, p: Path)
    requires Skeleton(a) == Skeleton(b) && ValidPath(a, p)
    ensures ValidPath(b, p)
    ensures Skeleton(At(a, p)) == Skeleton(At(b, p))
    ensures At(a, p).Regular? == At(b, p).Regular?
    ensures LeavesBefore(a, p) == LeavesBefore(b, p)
    ensures |Leaves(a)| == |Leaves(b)|
  {
    SkeletonLeafCount(a, b);
    if p != [] {
      SkeletonLeafCount(a.left, b.left);
      if p[0] == L {
        SkeletonPath(a.left, b.left, p[1..]);
      } else {
        SkeletonPath(a.right, b.right, p[1..]);
      }
    }
  }

  lemma {:induction false} SkeletonLeafCount(a: SF, b: SF)
    requires Skeleton(a) == Skeleton(b)
    ensures |Leaves(a)| == |Leaves(b)| && Height(a) == Height(b)
  {
    if a.Pair? {
      SkeletonLeafCount(a.left, b.left);
      SkeletonLeafCount(a.right, b.right);
    }
  }

  lemma {:induction false} SkeletonReplace(a: SF, b: SF, p: Path, s: SF)
    requires Skeleton(a) == Skeleton(b) && ValidPath(a, p) && ValidPath(b, p)
    ensures Skeleton(Replace(a, p, s)) == Skeleton(Replace(b, p, s))
  {
    if p != [] {
      if p[0] == L {
        SkeletonReplace(a.left, b.left, p[1..], s);
      } else {
        SkeletonReplace(a.right, b.right, p[1..], s);
      }
    }
  }

  /** Replacing a node by one of the same shape keeps the shape of the whole tree. */
  lemma {:induction false} ReplaceKeepsSkeleton(t: SF, p: Path, s: SF)
    requires ValidPath(t, p) && Skeleton(s) == Skeleton(At(t, p))
    ensures Skeleton(Replace(t, p, s)) == Skeleton(t)
  {
    if p != [] {
      if p[0] == L {
        ReplaceKeepsSkeleton(t.left, p[1..], s);
      } else {
        ReplaceKeepsSkeleton(t.right, p[1..], s);
      }
    }
  }

  /** The leaves that precede the node at p. */
  function LeavesLeftOf(t: SF, p: Path): seq<nat>
    requires ValidPath(t, p)
  {
    if p == [] then []
    else if p[0] == L then LeavesLeftOf(t.left, p[1..])
    else Leaves(t.left) + LeavesLeftOf(t.right, p[1..])
  }

  /** The leaves that follow the node at p. */
  function LeavesRightOf(t: SF, p: Path): seq<nat>
    requires ValidPath(t, p)
  {
    if p == [] then []
    else if p[0] == L then LeavesRightOf(t.left, p[1..]) + Leaves(t.right)
    else LeavesRightOf(t.right, p[1..])
  }

  /** The leaves of a tree are those before the node at p, the node's own, and those after it. */
  lemma {:induction false} LeavesAround(t: SF, p: Path)
    requires ValidPath(t, p)
    ensures Leaves(t) == LeavesLeftOf(t, p) + Leaves(At(t, p)) + LeavesRightOf(t, p)
    ensures |LeavesLeftOf(t, p)| == LeavesBefore(t, p)
  {
    if p != [] {
      var q := p[1..];
      if p[0] == L {
        LeavesAround(t.left, q);
        var a, m, b := LeavesLeftOf(t.left, q), Leaves(At(t.left, q)), LeavesRightOf(t.left, q);
        assert (a + m + b) + Leaves(t.right) == a + m + (b + Leaves(t.right));
      } else {
        LeavesAround(t.right, q);
        var a, m, b := LeavesLeftOf(t.right, q), Leaves(At(t.right, q)), LeavesRightOf(t.right, q);
        assert Leaves(t.left) + (a + m + b) == (Leaves(t.left) + a) + m + b;
      }
    }
  }

  /** Replacing the node at p leaves the leaves before and after it in place. */
  lemma {:induction false} LeavesAroundReplace(t: SF, p: Path, s: SF)
    requires ValidPath(t, p)
    ensures Leaves(Replace(t, p, s)) == LeavesLeftOf(t, p) + Leaves(s) + LeavesRightOf(t, p)
  {
    if p != [] {
      var q := p[1..];
      if p[0] == L {
        LeavesAroundReplace(t.left, q, s);
        var a, b := LeavesLeftOf(t.left, q), LeavesRightOf(t.left, q);
        assert (a + Leaves(s) + b) + Leaves(t.right) == a + Leaves(s) + (b + Leaves(t.right));
      } else {
        LeavesAroundReplace(t.right, q, s);
        var a, b := LeavesLeftOf(t.right, q), LeavesRightOf(t.right, q);
        assert Leaves(t.left) + (a + Leaves(s) + b) == (Leaves(t.left) + a) + Leaves(s) + b;
      }
    }
  }

  lemma Splice(a: seq<nat>, m: seq<nat>, b: seq<nat>, x: seq<nat>)
    ensures a + x + b == (a + m + b)[..|a|] + x + (a + m + b)[|a| + |m|..]
  {
    assert (a + m + b)[..|a|] == a;
    assert (a + m + b)[|a| + |m|..] == b;
  }

  /** Replacing the node at p changes exactly the run of leaves that node covered. */
  lemma ReplaceLeaves(t: SF, p: Path, s: SF)
    requires ValidPath(t, p)
    ensures Leaves(Replace(t, p, s)) ==
      Leaves(t)[..LeavesBefore(t, p)] + Leaves(s) + Leaves(t)[LeavesBefore(t, p) + |Leaves(At(t, p))|..]
  {
    LeavesAround(t, p);
    LeavesAroundReplace(t, p, s);
    Splice(LeavesLeftOf(t, p), Leaves(At(t, p)), LeavesRightOf(t, p), Leaves(s));
  }

  lemma {:induction false} HeightReplace(t: SF, p: Path, s: SF)
    requires ValidPath(t, p)
    ensures Height(Replace(t, p, s)) <= if Height(t) < |p| + Height(s) then |p| + Height(s) else Height(t)
  {
    if p != [] {
      if p[0] == L {
        HeightReplace(t.left, p[1..], s);
      } else {
        HeightReplace(t.right, p[1..], s);
      }
    }
  }

  /** A node at depth |p| sits that far below the root, so its height is at most what remains. */
  lemma {:induction false} PathDepthBound(t: SF, p: Path)
    requires ValidPath(t, p)
    ensures |p| + Height(At(t, p)) <= Height(t)
  {
    if p != [] {
      PathDepthBound(if p[0] == L then t.left else t.right, p[1..]);
    }
  }

  /** The children of a pair at p are at p + [L] and p + [R]; the left child's leaves come first. */
  lemma {:induction false} ChildPaths(t: SF, p: Path)
    requires ValidPath(t, p) && At(t, p).Pair?
    ensures ValidPath(t, p + [L]) && At(t, p + [L]) == At(t, p).left
    ensures ValidPath(t, p + [R]) && At(t, p + [R]) == At(t, p).right
    ensures LeavesBefore(t, p + [L]) == LeavesBefore(t, p)
    ensures LeavesBefore(t, p + [R]) == LeavesBefore(t, p) + |Leaves(At(t, p).left)|
  {
    if p != [] {
      var sub := if p[0] == L then t.left else t.right;
      ChildPaths(sub, p[1..]);
      assert (p + [L])[1..] == p[1..] + [L];
      assert (p + [R])[1..] == p[1..] + [R];
    }
  }

  // ---------------------------------------------------------------------------
  // add_to_regular
  // ---------------------------------------------------------------------------

  /** `add_to_regular`: add n to the regular number at q (the source panics if q is a pair). */
  function AddToRegular(t: SF, q: Path, n: nat): (r: SF)
    requires IsLeafPath(t, q)
    ensures Skeleton(r) == Skeleton(t)
    ensures Leaves(r) == Leaves(t)[LeavesBefore(t, q) := Leaves(t)[LeavesBefore(t, q)] + n]
  {
    var r := Replace(t, q, Regular(At(t, q).value + n));
    ReplaceKeepsSkeleton(t, q, Regular(At(t, q).value + n));
    ReplaceLeaves(t, q, Regular(At(t, q).value + n));
    LeafPathIndex(t, q);
    r
  }

  // ---------------------------------------------------------------------------
  // explode
  // ---------------------------------------------------------------------------

  /**
   * `explode_help`: the first pair met at depth `count` (the root is at depth 0),
   * searching the left subtree before the right one.
   */
  function FindExplode(t: SF, count: nat): (r: Option<Path>)
    ensures r.Some? ==> |r.value| == count && ValidPath(t, r.value) && At(t, r.value).Pair?
  {
    match t
    case Regular(_) => None
    case Pair(l, r) =>
      if count == 0 then Some([])
      else match FindExplode(l, count - 1)
        case Some(q) => Some([L] + q)
        case None => Prepend(R, FindExplode(r, count - 1))
  }

  /** Lexicographic order on paths of equal length, with L before R: in-order position. */
  predicate LexLeq(p: Path, q: Path)
    requires |p| == |q|
  {
    p == [] || (p[0] == L && q[0] == R) || (p[0] == q[0] && LexLeq(p[1..], q[1..]))
  }

  /**
   * The search finds a pair at depth `count` exactly when the tree is higher than
   * `count`, and the pair it finds is the leftmost one at that depth.
   */
  lemma {:induction false} FindExplodeIsLeftmost(t: SF, count: nat)
    ensures FindExplode(t, count).None? <==> Height(t) <= count
    ensures FindExplode(t, count).Some? ==>
      forall q :: |q| == count && ValidPath(t, q) && At(t, q).Pair? ==> LexLeq(FindExplode(t, count).value, q)
  {
    match t
    case Regular(_) =>
    case Pair(l, r) =>
      if count > 0 {
        FindExplodeIsLeftmost(l, count - 1);
        FindExplodeIsLeftmost(r, count - 1);
        var p := FindExplode(t, count);
        if p.Some? {
          forall q | |q| == count && ValidPath(t, q) && At(t, q).Pair?
            ensures LexLeq(p.value, q)
          {
            var tail := p.value[1..];
            if FindExplode(l, count - 1).Some? {
              assert p.value == [L] + FindExplode(l, count - 1).value;
            } else {
              assert p.value == [R] + FindExplode(r, count - 1).value;
              if q[0] == L {
                PathDepthBound(l, q[1..]);
                assert false;
              }
            }
          }
        }
      }
  }

  /**
   * The condition under which `explode_help` with this count does not panic:
   * the pair it selects holds two regular numbers (`unwrap_regular`).
   */
  predicate ExplodeSafe(t: SF, count: nat) {
    match FindExplode(t, count)
    case None => true
    case Some(p) => At(t, p).left.Regular? && At(t, p).right.Regular?
  }

  /** A tree at most one level higher than the count can be exploded: the selected pair holds two regular numbers. */
  lemma HeightIsSafe(t: SF, count: nat)
    requires Height(t) <= count + 1
    ensures ExplodeSafe(t, count)
  {
    var f := FindExplode(t, count);
    if f.Some? {
      PathDepthBound(t, f.value);
    }
  }

  /** The in-order neighbours found by `left` and `right` are regular numbers, one position away. */
  lemma NeighboursAreLeaves(t: SF, p: Path)
    requires IsLeafPath(t, p)
    ensures LeftOf(t, p).Some? ==>
      IsLeafPath(t, LeftOf(t, p).value) && LeavesBefore(t, LeftOf(t, p).value) + 1 == LeavesBefore(t, p)
    ensures RightOf(t, p).Some? ==>
      IsLeafPath(t, RightOf(t, p).value) && LeavesBefore(t, RightOf(t, p).value) == LeavesBefore(t, p) + 1
  {
    LeftOfIsPrevious(t, p);
    RightOfIsNext(t, p);
    if LeavesBefore(t, p) > 0 {
      LeafPathsAt(t, LeavesBefore(t, p) - 1);
    }
    if LeavesBefore(t, p) + 1 < |Leaves(t)| {
      LeafPathsAt(t, LeavesBefore(t, p) + 1);
    }
  }

  /** A leaf position of one tree is a leaf position, with the same index, of any tree of the same shape. */
  lemma SameLeafPath(a: SF, b: SF, q: Option<Path>)
    requires Skeleton(a) == Skeleton(b) && (q.Some? ==> IsLeafPath(a, q.value))
    ensures q.Some? ==> IsLeafPath(b, q.value) && LeavesBefore(b, q.value) == LeavesBefore(a, q.value)
  {
    if q.Some? {
      SkeletonPath(a, b, q.value);
    }
  }

  /** The sequence with n added to entry j, or unchanged when there is no entry j. */
  function AddAtIndex(s: seq<nat>, j: int, n: nat): (r: seq<nat>)
    ensures |r| == |s|
  {
    if 0 <= j < |s| then s[j := s[j] + n] else s
  }

  /** Add n to the regular number at q, if there is one (the `if let Some(..)` around `add_to_regular`). */
  function AddIfAny(t: SF, q: Option<Path>, n: nat): (r: SF)
    requires q.Some? ==> IsLeafPath(t, q.value)
    ensures Skeleton(r) == Skeleton(t)
    ensures q.None? ==> r == t
    ensures q.Some? ==> Leaves(r) == AddAtIndex(Leaves(t), LeavesBefore(t, q.value), n)
  {
    LeafOrNone(t, q);
    match q
    case None => t
    case Some(p) => AddToRegular(t, p, n)
  }

  /**
   * The explosion of the pair of regular numbers at p (`explode_help` at count 0,
   * then `take`): its left value goes to the previous regular number, its right
   * value to the next one, and the pair becomes 0. Both neighbours are located
   * before anything changes, as in the source.
   */
  function ExplodeAt(t: SF, p: Path): (r: SF)
    requires ValidPath(t, p) && At(t, p).Pair? && At(t, p).left.Regular? && At(t, p).right.Regular?
    ensures Height(r) <= if Height(t) < |p| then |p| else Height(t)
  {
    ChildPaths(t, p);
    NeighboursAreLeaves(t, p + [L]);
    NeighboursAreLeaves(t, p + [R]);
    ExplodeAtPositions(t, p);
    var r := ExplodeWith(t, p, LeftOf(t, p + [L]), RightOf(t, p + [R]));
    ExplodeWithSkeleton(t, p, LeftOf(t, p + [L]), RightOf(t, p + [R]));
    SkeletonLeafCount(r, Replace(t, p, Regular(0)));
    HeightReplace(t, p, Regular(0));
    r
  }

  /**
   * What exploding the pair at p does to the regular numbers, read left to
   * right: the pair's two values are leaves k and k + 1, and the leaves become
   * ExplodedLeaves(.., k).
   */
  lemma ExplodeAtLeaves(t: SF, p: Path)
    requires ValidPath(t, p) && At(t, p).Pair? && At(t, p).left.Regular? && At(t, p).right.Regular?
    ensures LeavesBefore(t, p) + 1 < |Leaves(t)|
    ensures Leaves(ExplodeAt(t, p)) == ExplodedLeaves(Leaves(t), LeavesBefore(t, p))
  {
    ChildPaths(t, p);
    NeighboursAreLeaves(t, p + [L]);
    NeighboursAreLeaves(t, p + [R]);
    ExplodeAtPositions(t, p);
    ExplodeWithEffect(t, p, LeftOf(t, p + [L]), RightOf(t, p + [R]));
  }

  /** The rewrite of ExplodeAt once the two neighbours (if any) have been located. */
  function ExplodeWith(t: SF, p: Path, toLeft: Option<Path>, toRight: Option<Path>): SF
    requires ValidPath(t, p) && At(t, p).Pair? && At(t, p).left.Regular? && At(t, p).right.Regular?
    requires toLeft.Some? ==> IsLeafPath(t, toLeft.value)
    requires toRight.Some? ==> IsLeafPath(t, toRight.value)
  {
    var t1 := AddIfAny(t, toLeft, At(t, p).left.value);
    SameLeafPath(t, t1, toRight);
    var t2 := AddIfAny(t1, toRight, At(t, p).right.value);
    SkeletonPath(t, t2, p);
    Replace(t2, p, Regular(0))
  }

  /**
   * `explode`: None when no pair sits at depth four; otherwise the tree with the
   * pair `explode_help` selects (FindExplode) exploded. The source panics when
   * that pair does not hold two regular numbers; ExplodeSafe excludes it.
   */
  function Explode(t: SF): (r: Option<SF>)
    requires ExplodeSafe(t, 4)
  {
    match FindExplode(t, 4)
    case None => None
    case Some(p) => Some(ExplodeAt(t, p))
  }

  /**
   * The leaves after exploding the pair whose left value is leaf k: the pair's
   * left value is added to leaf k - 1 if there is one, its right value to leaf
   * k + 2 if there is one, the two leaves become a single 0, and nothing else changes.
   */
  function ExplodedLeaves(s: seq<nat>, k: nat): seq<nat>
    requires k + 1 < |s|
  {
    (if k > 0 then s[..k - 1] + [s[k - 1] + s[k]] else [])
    + [0]
    + (if k + 2 < |s| then [s[k + 2] + s[k + 1]] + s[k + 3..] else [])
  }

  /** ExplodedLeaves as the three updates `explode` performs: two additions, then the pair becomes 0. */
  lemma ExplodedLeavesByUpdates(s: seq<nat>, k: nat)
    requires k + 1 < |s|
    ensures
      var s2 := AddAtIndex(AddAtIndex(s, k as int - 1, s[k]), k + 2, s[k + 1]);
      s2[..k] + [0] + s2[k + 2..] == ExplodedLeaves(s, k)
  {
  }

  /** The left value of the exploding pair is leaf k and its right value leaf k + 1. */
  lemma ExplodeAtValues(t: SF, p: Path)
    requires ValidPath(t, p) && At(t, p).Pair? && At(t, p).left.Regular? && At(t, p).right.Regular?
    ensures IsLeafPath(t, p + [L]) && LeavesBefore(t, p + [L]) == LeavesBefore(t, p)
    ensures IsLeafPath(t, p + [R]) && LeavesBefore(t, p + [R]) == LeavesBefore(t, p) + 1
    ensures LeavesBefore(t, p) + 1 < |Leaves(t)|
    ensures Leaves(t)[LeavesBefore(t, p)] == At(t, p).left.value
    ensures Leaves(t)[LeavesBefore(t, p) + 1] == At(t, p).right.value
    ensures |Leaves(At(t, p))| == 2
  {
    ChildPaths(t, p);
    LeafValue(t, p + [L]);
    LeafValue(t, p + [R]);
  }

  /** Both neighbours of the exploding pair are leaves, at positions k - 1 and k + 2, when they exist. */
  lemma ExplodeAtPositions(t: SF, p: Path)
    requires ValidPath(t, p) && At(t, p).Pair? && At(t, p).left.Regular? && At(t, p).right.Regular?
    ensures LeavesBefore(t, p) + 1 < |Leaves(t)|
    ensures Leaves(t)[LeavesBefore(t, p)] == At(t, p).left.value
    ensures Leaves(t)[LeavesBefore(t, p) + 1] == At(t, p).right.value
    ensures |Leaves(At(t, p))| == 2
    ensures LeftOf(t, p + [L]).Some? <==> LeavesBefore(t, p) > 0
    ensures LeftOf(t, p + [L]).Some? ==>
      IsLeafPath(t, LeftOf(t, p + [L]).value) && LeavesBefore(t, LeftOf(t, p + [L]).value) == LeavesBefore(t, p) - 1
    ensures RightOf(t, p + [R]).Some? <==> LeavesBefore(t, p) + 2 < |Leaves(t)|
    ensures RightOf(t, p + [R]).Some? ==>
      IsLeafPath(t, RightOf(t, p + [R]).value) && LeavesBefore(t, RightOf(t, p + [R]).value) == LeavesBefore(t, p) + 2
  {
    ExplodeAtValues(t, p);
    NeighbourOf(t, p + [L]);
    NeighbourOf(t, p + [R]);
  }

  /** Whether `left` and `right` find a neighbour, and where, in terms of leaf indices. */
  lemma NeighbourOf(t: SF, p: Path)
    requires IsLeafPath(t, p)
    ensures LeftOf(t, p).Some? <==> LeavesBefore(t, p) > 0
    ensures RightOf(t, p).Some? <==> LeavesBefore(t, p) + 1 < |Leaves(t)|
    ensures LeftOf(t, p).Some? ==>
      IsLeafPath(t, LeftOf(t, p).value) && LeavesBefore(t, LeftOf(t, p).value) + 1 == LeavesBefore(t, p)
    ensures RightOf(t, p).Some? ==>
      IsLeafPath(t, RightOf(t, p).value) && LeavesBefore(t, RightOf(t, p).value) == LeavesBefore(t, p) + 1
  {
    LeftOfIsPrevious(t, p);
    RightOfIsNext(t, p);
    NeighboursAreLeaves(t, p);
  }

  lemma LeafOrNone(t: SF, q: Option<Path>)
    requires q.Some? ==> IsLeafPath(t, q.value)
    ensures q.Some? ==> LeavesBefore(t, q.value) < |Leaves(t)|
  {
    if q.Some? {
      LeafValue(t, q.value);
    }
  }

  lemma AddNeighbour(t: SF, q: Option<Path>, n: nat, j: int)
    requires q.Some? ==> IsLeafPath(t, q.value) && LeavesBefore(t, q.value) == j
    requires q.None? <==> !(0 <= j < |Leaves(t)|)
    ensures Leaves(AddIfAny(t, q, n)) == AddAtIndex(Leaves(t), j, n)
  {
  }

  /** The explosion leaves the shape of the tree with a 0 in place of the pair. */
  lemma ExplodeWithSkeleton(t: SF, p: Path, toLeft: Option<Path>, toRight: Option<Path>)
    requires ValidPath(t, p) && At(t, p).Pair? && At(t, p).left.Regular? && At(t, p).right.Regular?
    requires toLeft.Some? ==> IsLeafPath(t, toLeft.value)
    requires toRight.Some? ==> IsLeafPath(t, toRight.value)
    ensures Skeleton(ExplodeWith(t, p, toLeft, toRight)) == Skeleton(Replace(t, p, Regular(0)))
  {
    var t1 := AddIfAny(t, toLeft, At(t, p).left.value);
    SameLeafPath(t, t1, toRight);
    var t2 := AddIfAny(t1, toRight, At(t, p).right.value);
    SkeletonPath(t, t2, p);
    assert ExplodeWith(t, p, toLeft, toRight) == Replace(t2, p, Regular(0));
    SkeletonReplace(t2, t, p, Regular(0));
  }

  /** Adding the pair's values to its neighbours adds them at leaf positions k - 1 and k + 2. */
  lemma AddedToNeighbours(t: SF, p: Path, toLeft: Option<Path>, toRight: Option<Path>)
    requires ValidPath(t, p) && At(t, p).Pair? && At(t, p).left.Regular? && At(t, p).right.Regular?
    requires LeavesBefore(t, p) + 1 < |Leaves(t)|
    requires Leaves(t)[LeavesBefore(t, p)] == At(t, p).left.value
    requires Leaves(t)[LeavesBefore(t, p) + 1] == At(t, p).right.value
    requires |Leaves(At(t, p))| == 2
    requires toLeft.Some? <==> LeavesBefore(t, p) > 0
    requires toLeft.Some? ==> IsLeafPath(t, toLeft.value) && LeavesBefore(t, toLeft.value) == LeavesBefore(t, p) - 1
    requires toRight.Some? <==> LeavesBefore(t, p) + 2 < |Leaves(t)|
    requires toRight.Some? ==> IsLeafPath(t, toRight.value) && LeavesBefore(t, toRight.value) == LeavesBefore(t, p) + 2
    ensures toRight.Some? ==> IsLeafPath(AddIfAny(t, toLeft, At(t, p).left.value), toRight.value)
    ensures Leaves(AddIfAny(AddIfAny(t, toLeft, At(t, p).left.value), toRight, At(t, p).right.value))
      == AddAtIndex(AddAtIndex(Leaves(t), LeavesBefore(t, p) as int - 1, At(t, p).left.value), LeavesBefore(t, p) + 2, At(t, p).right.value)
  {
    var s := Leaves(t);
    var k := LeavesBefore(t, p);
    var a, b := At(t, p).left.value, At(t, p).right.value;
    var t1 := AddIfAny(t, toLeft, a);
    AddNeighbour(t, toLeft, a, k as int - 1);
    var s1 := AddAtIndex(s, k as int - 1, a);
    assert Leaves(t1) == s1;
    SameLeafPath(t, t1, toRight);
    AddNeighbour(t1, toRight, b, k + 2);
  }

  /** The explosion, given its two neighbours at leaf positions k - 1 and k + 2, yields ExplodedLeaves. */
  lemma ExplodeWithEffect(t: SF, p: Path, toLeft: Option<Path>, toRight: Option<Path>)
    requires ValidPath(t, p) && At(t, p).Pair? && At(t, p).left.Regular? && At(t, p).right.Regular?
    requires LeavesBefore(t, p) + 1 < |Leaves(t)|
    requires Leaves(t)[LeavesBefore(t, p)] == At(t, p).left.value
    requires Leaves(t)[LeavesBefore(t, p) + 1] == At(t, p).right.value
    requires |Leaves(At(t, p))| == 2
    requires toLeft.Some? <==> LeavesBefore(t, p) > 0
    requires toLeft.Some? ==> IsLeafPath(t, toLeft.value) && LeavesBefore(t, toLeft.value) == LeavesBefore(t, p) - 1
    requires toRight.Some? <==> LeavesBefore(t, p) + 2 < |Leaves(t)|
    requires toRight.Some? ==> IsLeafPath(t, toRight.value) && LeavesBefore(t, toRight.value) == LeavesBefore(t, p) + 2
    ensures Leaves(ExplodeWith(t, p, toLeft, toRight)) == ExplodedLeaves(Leaves(t), LeavesBefore(t, p))
  {
    var k := LeavesBefore(t, p);
    var a, b := At(t, p).left.value, At(t, p).right.value;
    AddedToNeighbours(t, p, toLeft, toRight);
    var t1 := AddIfAny(t, toLeft, a);
    var t2 := AddIfAny(t1, toRight, b);
    SkeletonPath(t, t2, p);
    SkeletonLeafCount(At(t, p), At(t2, p));
    assert ExplodeWith(t, p, toLeft, toRight) == Replace(t2, p, Regular(0));
    ZeroPairLeaves(t2, p, k);
    ExplodedLeavesByUpdates(Leaves(t), k);
  }

  /** Replacing the two-leaf node at leaf position k by 0 merges those two leaves into a single 0. */
  lemma ZeroPairLeaves(t: SF, p: Path, k: nat)
    requires ValidPath(t, p) && LeavesBefore(t, p) == k && |Leaves(At(t, p))| == 2
    ensures k + 2 <= |Leaves(t)|
    ensures Leaves(Replace(t, p, Regular(0))) == Leaves(t)[..k] + [0] + Leaves(t)[k + 2..]
  {
    LeavesAround(t, p);
    ReplaceLeaves(t, p, Regular(0));
  }

  // ---------------------------------------------------------------------------
  // split
  // ---------------------------------------------------------------------------

  /** `find_split`: the first regular number (in in-order) that is at least 10. */
  function FindSplit(t: SF): (r: Option<Path>)
    ensures r.Some? ==> IsLeafPath(t, r.value) && At(t, r.value).value >= 10
  {
    match t
    case Regular(x) => if x >= 10 then Some([]) else None
    case Pair(l, r) =>
      match FindSplit(l)
      case Some(q) => Some([L] + q)
      case None => Prepend(R, FindSplit(r))
  }

  /** Every value of s is below 10: nothing to split. */
  predicate AllBelowTen(s: seq<nat>) {
    forall i :: 0 <= i < |s| ==> s[i] < 10
  }

  lemma AllBelowTenConcat(a: seq<nat>, b: seq<nat>)
    ensures AllBelowTen(a + b) <==> AllBelowTen(a) && AllBelowTen(b)
  {
    if AllBelowTen(a) && AllBelowTen(b) {
      forall i | 0 <= i < |a + b| ensures (a + b)[i] < 10 {
        if i >= |a| {
          assert (a + b)[i] == b[i - |a|];
        }
      }
    }
    if AllBelowTen(a + b) {
      forall i | 0 <= i < |a| ensures a[i] < 10 {
        assert (a + b)[i] == a[i];
      }
      forall i | 0 <= i < |b| ensures b[i] < 10 {
        assert (a + b)[|a| + i] == b[i];
      }
    }
  }

  /**
   * The split target is the first leaf of value 10 or more: every leaf before it
   * is below 10. There is no target exactly when all leaves are below 10.
   */
  lemma {:induction false} FindSplitIsLeftmost(t: SF)
    ensures FindSplit(t).None? <==> AllBelowTen(Leaves(t))
    ensures FindSplit(t).Some? ==>
      LeavesBefore(t, FindSplit(t).value) < |Leaves(t)|
      && Leaves(t)[LeavesBefore(t, FindSplit(t).value)] >= 10
      && AllBelowTen(Leaves(t)[..LeavesBefore(t, FindSplit(t).value)])
  {
    match t
    case Regular(x) =>
      assert Leaves(t)[0] == x;
    case Pair(l, r) =>
      FindSplitIsLeftmost(l);
      FindSplitIsLeftmost(r);
      var ll, lr := Leaves(l), Leaves(r);
      AllBelowTenConcat(ll, lr);
      if FindSplit(l).Some? {
        var q := FindSplit(l).value;
        var k := LeavesBefore(l, q);
        assert FindSplit(t).value == [L] + q;
        assert ([L] + q)[1..] == q;
        assert LeavesBefore(t, [L] + q) == k;
        assert (ll + lr)[..k] == ll[..k];
        assert (ll + lr)[k] == ll[k];
      } else if FindSplit(r).Some? {
        var q := FindSplit(r).value;
        var k := LeavesBefore(r, q);
        assert FindSplit(t).value == [R] + q;
        assert ([R] + q)[1..] == q;
        assert LeavesBefore(t, [R] + q) == |ll| + k;
        assert (ll + lr)[..|ll| + k] == ll + lr[..k];
        AllBelowTenConcat(ll, lr[..k]);
        assert (ll + lr)[|ll| + k] == lr[k];
      }
  }

  /** The pair a value splits into: its floor and ceiling halves. */
  function Halves(v: nat): (r: SF)
    ensures r.Pair? && r.left.Regular? && r.right.Regular?
    ensures r.left.value + r.right.value == v
    ensures r.left.value <= r.right.value <= r.left.value + 1
  {
    Pair(Regular(v / 2), Regular(v / 2 + v % 2))
  }

  /** The regular number at a leaf path is the LeavesBefore-th leaf, and it covers exactly one leaf. */
  lemma LeafValue(t: SF, p: Path)
    requires IsLeafPath(t, p)
    ensures LeavesBefore(t, p) < |Leaves(t)| && Leaves(t)[LeavesBefore(t, p)] == At(t, p).value
    ensures Leaves(At(t, p)) == [At(t, p).value]
  {
    LeafPathIndex(t, p);
  }

  /**
   * The split of the regular number at p (the body of `split` once `find_split`
   * has found it): the regular number becomes the pair Halves(v).
   */
  function SplitAt(t: SF, p: Path): (r: SF)
    requires IsLeafPath(t, p)
    ensures Height(r) <= if Height(t) < |p| + 1 then |p| + 1 else Height(t)
  {
    HeightReplace(t, p, Halves(At(t, p).value));
    Replace(t, p, Halves(At(t, p).value))
  }

  /** Splitting leaf k, of value v, puts the two leaves of Halves(v) in its place and changes nothing else. */
  lemma SplitAtLeaves(t: SF, p: Path)
    requires IsLeafPath(t, p)
    ensures LeavesBefore(t, p) < |Leaves(t)| && Leaves(t)[LeavesBefore(t, p)] == At(t, p).value
    ensures
      var k := LeavesBefore(t, p);
      var h := Halves(At(t, p).value);
      Leaves(SplitAt(t, p)) == Leaves(t)[..k] + [h.left.value, h.right.value] + Leaves(t)[k + 1..]
  {
    var h := Halves(At(t, p).value);
    LeafValue(t, p);
    ReplaceLeaves(t, p, h);
    assert SplitAt(t, p) == Replace(t, p, h);
    assert |Leaves(At(t, p))| == 1;
    assert Leaves(h) == [h.left.value, h.right.value];
  }

  /** `split`: None when every regular number is below 10, otherwise the tree with the first such leaf split. */
  function Split(t: SF): Option<SF> {
    match FindSplit(t)
    case None => None
    case Some(p) => Some(SplitAt(t, p))
  }

  // ---------------------------------------------------------------------------
  // The reduction loop of `add`
  // ---------------------------------------------------------------------------

  /** Neither rule applies: no pair at depth four and no regular number of 10 or more. */
  predicate IsReduced(t: SF) {
    FindExplode(t, 4).None? && FindSplit(t).None?
  }

  lemma SplitKeepsHeight(t: SF)
    requires FindExplode(t, 4).None?
    ensures Split(t).Some? ==> Height(Split(t).value) <= 5
  {
    FindExplodeIsLeftmost(t, 4);
    if FindSplit(t).Some? {
      PathDepthBound(t, FindSplit(t).value);
    }
  }

  /**
   * One pass of the loop in `add`: explode if some pair sits at depth four,
   * otherwise split if some value is 10 or more; None when neither applies.
   */
  function Step(t: SF): Option<SF>
    requires Height(t) <= 5
  {
    HeightIsSafe(t, 4);
    if Explode(t).Some? then Explode(t) else Split(t)
  }

  /**
   * A pass changes nothing exactly when the number is reduced, and a pass
   * keeps the height at most five, so that `explode` never meets a pair below
   * depth four that does not hold two regular numbers.
   */
  lemma StepSpec(t: SF)
    requires Height(t) <= 5
    ensures Step(t).None? <==> IsReduced(t)
    ensures Step(t).Some? ==> Height(Step(t).value) <= 5
  {
    HeightIsSafe(t, 4);
    FindExplodeIsLeftmost(t, 4);
    if FindExplode(t, 4).Some? {
      var p := FindExplode(t, 4).value;
      assert Explode(t) == Some(ExplodeAt(t, p));
    } else {
      SplitKeepsHeight(t);
    }
  }

  /** A reduced number has no pair nested four deep, so its height is at most four, and every value is below 10. */
  lemma ReducedShape(t: SF)
    requires IsReduced(t)
    ensures Height(t) <= 4
    ensures AllBelowTen(Leaves(t))
  {
    FindExplodeIsLeftmost(t, 4);
    FindSplitIsLeftmost(t);
  }

  /**
   * The loop of `add`, one rewrite per unit of fuel, until no rule applies.
   * None means the fuel ran out before that point was reached. Whatever it
   * returns is reduced (ReducedShape says what that means for the tree).
   */
  function Reduce(t: SF, fuel: nat): (r: Option<SF>)
    requires Height(t) <= 5
    ensures r.Some? ==> IsReduced(r.value)
    decreases fuel
  {
    StepSpec(t);
    match Step(t)
    case None => ReducedShape(t); Some(t)
    case Some(next) => if fuel == 0 then None else Reduce(next, fuel - 1)
  }

  /** One pass of the loop in `add`: explode, or else split. */
  method Pass(t: SF) returns (changed: Option<SF>)
    requires Height(t) <= 5
    ensures changed == Step(t)
    ensures changed.None? <==> IsReduced(t)
    ensures changed.Some? ==> Height(changed.value) <= 5
  {
    HeightIsSafe(t, 4);
    StepSpec(t);
    changed := Explode(t);
    if changed.None? {
      changed := Split(t);
    }
  }

  /** A pass followed by the rest of the loop is the whole loop. */
  lemma LoopPass(t: SF, fuel: nat)
    requires Height(t) <= 5
    ensures Step(t).Some? ==> Height(Step(t).value) <= 5
    ensures Step(t).None? ==> Reduce(t, fuel) == Some(t)
    ensures Step(t).Some? && fuel == 0 ==> Reduce(t, fuel) == None
    ensures Step(t).Some? && fuel > 0 ==> Reduce(t, fuel) == Reduce(Step(t).value, fuel - 1)
  {
    StepSpec(t);
  }

  /** Reducing a number that is already reduced changes nothing. */
  lemma ReduceOfReduced(t: SF, fuel: nat)
    requires IsReduced(t)
    ensures Height(t) <= 4
    ensures Reduce(t, fuel) == Some(t)
  {
    ReducedShape(t);
  }

  /**
   * `add`: pair the two numbers and run the reduction loop. The source loops
   * until neither rule applies; here the loop also stops, with None, after
   * `fuel` rewrites.
   */
  method Add(a: SF, b: SF, fuel: nat) returns (sum: Option<SF>)
    requires Height(a) <= 4 && Height(b) <= 4
    ensures sum == Reduce(Pair(a, b), fuel)
    ensures sum.Some? ==> IsReduced(sum.value)
  {
    var t := Pair(a, b);
    var f := fuel;
    ghost var result := Reduce(t, f);
    var changed := Pass(t);
    LoopPass(t, f);
    while changed.Some? && f > 0
      invariant Height(t) <= 5 && changed == Step(t)
      invariant changed.Some? ==> Height(changed.value) <= 5
      invariant Reduce(t, f) == result
      decreases f
    {
      t, f := changed.value, f - 1;
      changed := Pass(t);
      LoopPass(t, f);
    }
    if changed.Some? {
      return None;
    }
    sum := Some(t);
  }
}
