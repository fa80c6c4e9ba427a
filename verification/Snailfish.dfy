/**
 * Snailfish numbers (src/day18.rs): the tree, positions in it, and the in-order
 * neighbour search that explode relies on.
 *
 * The source keeps every node in an `Rc<RefCell<SF>>` and identifies a node by
 * pointer identity. Here a tree is a value and a node is identified by its path
 * from the root (L = into the left child, R = into the right child); two
 * distinct nodes of one tree always have distinct paths, which is what
 * `Rc::ptr_eq` decides in the source.
 */
module Snailfish {
  import opened Wrappers

  datatype SF = Regular(value: nat) | Pair(left: SF, right: SF)

  datatype Dir = L | R

  type Path = seq<Dir>

  /** 3 * magnitude(left) + 2 * magnitude(right), recursively; a regular number is its own magnitude. */
  function Magnitude(t: SF): nat {
    match t
    case Regular(x) => x
    case Pair(l, r) => Magnitude(l) * 3 + Magnitude(r) * 2
  }

  /** The number of pair levels on the longest branch; a regular number has height 0. */
  function Height(t: SF): nat {
    match t
    case Regular(_) => 0
    case Pair(l, r) => 1 + if Height(l) < Height(r) then Height(r) else Height(l)
  }

  /** The regular numbers of the tree in in-order (left to right). */
  function Leaves(t: SF): (s: seq<nat>)
    ensures |s| > 0
  {
    match t
    case Regular(x) => [x]
    case Pair(l, r) => Leaves(l) + Leaves(r)
  }


  /** The tree with every regular number replaced by 0: its shape alone. */
  function Skeleton(t: SF): SF {
    match t
    case Regular(_) => Regular(0)
    case Pair(l, r) => Pair(Skeleton(l), Skeleton(r))
  }

  predicate ValidPath(t: SF, p: Path) {
    p == [] || (t.Pair? && ValidPath(if p[0] == L then t.left else t.right, p[1..]))
  }

  /** The node at the end of a path. */
  function At(t: SF, p: Path): SF
    requires ValidPath(t, p)
  {
    if p == [] then t
    else if p[0] == L then At(t.left, p[1..])
    else At(t.right, p[1..])
  }

  /** The tree with the node at the end of p replaced by s. */
  function Replace(t: SF, p: Path, s: SF): (r: SF)
    requires ValidPath(t, p)
    ensures ValidPath(r, p) && At(r, p) == s
  {
    if p == [] then s
    else if p[0] == L then Pair(Replace(t.left, p[1..], s), t.right)
    else Pair(t.left, Replace(t.right, p[1..], s))
  }

  predicate IsLeafPath(t: SF, p: Path) {
    ValidPath(t, p) && At(t, p).Regular?
  }

  /** The number of regular numbers that precede the node at p in in-order. */
  function LeavesBefore(t: SF, p: Path): (i: nat)
    requires ValidPath(t, p)
    ensures i + |Leaves(At(t, p))| <= |Leaves(t)|
  {
    if p == [] then 0
    else if p[0] == L then LeavesBefore(t.left, p[1..])
    else |Leaves(t.left)| + LeavesBefore(t.right, p[1..])
  }

  function PrefixAll(d: Dir, ps: seq<Path>): (r: seq<Path>)
    ensures |r| == |ps|
    ensures forall k :: 0 <= k < |ps| ==> r[k] == [d] + ps[k]
  {
    seq(|ps|, k requires 0 <= k < |ps| => [d] + ps[k])
  }

  /** The paths of the regular numbers, in in-order. */
  function LeafPaths(t: SF): (ps: seq<Path>)
    ensures |ps| == |Leaves(t)|
  {
    match t
    case Regular(_) => [[]]
    case Pair(l, r) => PrefixAll(L, LeafPaths(l)) + PrefixAll(R, LeafPaths(r))
  }

  /** The k-th path of LeafPaths leads to the k-th regular number, and k leaves precede it. */
  lemma {:induction false} LeafPathsAt(t: SF, k: nat)
    requires k < |Leaves(t)|
    ensures IsLeafPath(t, LeafPaths(t)[k])
    ensures At(t, LeafPaths(t)[k]).value == Leaves(t)[k]
    ensures LeavesBefore(t, LeafPaths(t)[k]) == k
  {
    match t
    case Regular(_) =>
    case Pair(l, r) =>
      var n := |Leaves(l)|;
      if k < n {
        LeafPathsAt(l, k);
        assert LeafPaths(t)[k] == [L] + LeafPaths(l)[k];
        assert ([L] + LeafPaths(l)[k])[1..] == LeafPaths(l)[k];
      } else {
        LeafPathsAt(r, k - n);
        assert LeafPaths(t)[k] == [R] + LeafPaths(r)[k - n];
        assert ([R] + LeafPaths(r)[k - n])[1..] == LeafPaths(r)[k - n];
      }
  }

  /** A leaf path is the LeavesBefore-th entry of LeafPaths: a leaf is located by its in-order index. */
  lemma {:induction false} LeafPathIndex(t: SF, p: Path)
    requires IsLeafPath(t, p)
    ensures LeavesBefore(t, p) < |Leaves(t)|
    ensures LeafPaths(t)[LeavesBefore(t, p)] == p
    ensures Leaves(t)[LeavesBefore(t, p)] == At(t, p).value
  {
    if p != [] {
      var sub, q := if p[0] == L then t.left else t.right, p[1..];
      var j := LeavesBefore(sub, q);
      LeafPathIndex(sub, q);
      var k := LeavesBefore(t, p);
      assert k == (if p[0] == L then 0 else |Leaves(t.left)|) + j;
      LeafPathsOfPair(t.left, t.right, k);
      assert p == [p[0]] + q;
      assert Leaves(t)[k] == Leaves(sub)[j];
    }
  }

  /** `left_most`: the path of the first regular number in in-order. */
  function LeftMost(t: SF): (p: Path)
    ensures IsLeafPath(t, p) && LeavesBefore(t, p) == 0
  {
    match t
    case Regular(_) => []
    case Pair(l, _) => [L] + LeftMost(l)
  }

  /** `right_most`: the path of the last regular number in in-order. */
  function RightMost(t: SF): (p: Path)
    ensures IsLeafPath(t, p) && LeavesBefore(t, p) == |Leaves(t)| - 1
  {
    match t
    case Regular(_) => []
    case Pair(_, r) => [R] + RightMost(r)
  }

  function Prepend(d: Dir, o: Option<Path>): Option<Path> {
    match o
    case None => None
    case Some(q) => Some([d] + q)
  }

  /**
   * `left(me, node)`: the regular number just before the node at p, searched for
   * as the source does, by comparing the node with children and with the
   * leftmost leaf of a right subtree, then descending.
   */
  function LeftOf(t: SF, p: Path): Option<Path> {
    match t
    case Regular(_) => None
    case Pair(l, r) =>
      if p == [R] then Some([L] + RightMost(l))
      else if p == [L] then None
      else if r.Pair? && p == [R] + LeftMost(r) then Some([L] + RightMost(l))
      else if r.Pair? && p != [] && p[0] == R && LeftOf(r, p[1..]).Some? then Prepend(R, LeftOf(r, p[1..]))
      else if p != [] && p[0] == L then Prepend(L, LeftOf(l, p[1..]))
      else None
  }

  /** `right(me, node)`: the mirror image of LeftOf. */
  function RightOf(t: SF, p: Path): Option<Path> {
    match t
    case Regular(_) => None
    case Pair(l, r) =>
      if p == [L] then Some([R] + LeftMost(r))
      else if p == [R] then None
      else if l.Pair? && p == [L] + RightMost(l) then Some([R] + LeftMost(r))
      else if l.Pair? && p != [] && p[0] == L && RightOf(l, p[1..]).Some? then Prepend(L, RightOf(l, p[1..]))
      else if p != [] && p[0] == R then Prepend(R, RightOf(r, p[1..]))
      else None
  }

  lemma LeafPathsOfPair(l: SF, r: SF, k: nat)
    requires k < |Leaves(l)| + |Leaves(r)|
    ensures LeafPaths(Pair(l, r))[k] ==
      if k < |Leaves(l)| then [L] + LeafPaths(l)[k] else [R] + LeafPaths(r)[k - |Leaves(l)|]
  {
  }

  /** For the leaf at p, `left` finds exactly the in-order previous leaf, or nothing for the first leaf. */
  lemma {:induction false} LeftOfIsPrevious(t: SF, p: Path)
    requires IsLeafPath(t, p)
    ensures LeftOf(t, p) ==
      if LeavesBefore(t, p) == 0 then None else Some(LeafPaths(t)[LeavesBefore(t, p) - 1])
    decreases t, 2
  {
    match t
    case Regular(_) =>
    case Pair(l, r) =>
      if p == [R] || p == [L] {
        LeftOfChild(l, r, p);
      } else {
        var q := p[1..];
        assert p == [p[0]] + q;
        if p[0] == R {
          LeftOfInRight(l, r, q);
        } else {
          LeftOfInLeft(l, r, q);
        }
      }
  }

  lemma LeftOfChild(l: SF, r: SF, p: Path)
    requires p == [L] || p == [R]
    requires IsLeafPath(Pair(l, r), p)
    ensures LeftOf(Pair(l, r), p) ==
      if LeavesBefore(Pair(l, r), p) == 0 then None
      else Some(LeafPaths(Pair(l, r))[LeavesBefore(Pair(l, r), p) - 1])
  {
    if p == [R] {
      var n := |Leaves(l)|;
      LeafPathIndex(l, RightMost(l));
      assert LeavesBefore(Pair(l, r), p) == n;
      LeafPathsOfPair(l, r, n - 1);
    }
  }

  lemma {:induction false} LeftOfInRight(l: SF, r: SF, q: Path)
    requires q != [] && IsLeafPath(r, q)
    ensures IsLeafPath(Pair(l, r), [R] + q)
    ensures LeftOf(Pair(l, r), [R] + q) ==
      Some(LeafPaths(Pair(l, r))[LeavesBefore(Pair(l, r), [R] + q) - 1])
    decreases Pair(l, r), 1
  {
    DescendPath(l, r, R, q);
    if q == LeftMost(r) {
      LeftOfFirstInRight(l, r);
    } else {
      LeftOfLaterInRight(l, r, q);
    }
  }

  /** Going one step down from a pair: the node reached and the leaves before it. */
  lemma DescendPath(l: SF, r: SF, d: Dir, q: Path)
    requires ValidPath(if d == L then l else r, q)
    ensures ValidPath(Pair(l, r), [d] + q)
    ensures At(Pair(l, r), [d] + q) == At(if d == L then l else r, q)
    ensures LeavesBefore(Pair(l, r), [d] + q) ==
      if d == L then LeavesBefore(l, q) else |Leaves(l)| + LeavesBefore(r, q)
  {
    assert ([d] + q)[0] == d && ([d] + q)[1..] == q;
  }

  lemma LeftOfFirstInRight(l: SF, r: SF)
    requires r.Pair?
    ensures LeftOf(Pair(l, r), [R] + LeftMost(r)) == Some(LeafPaths(Pair(l, r))[|Leaves(l)| - 1])
  {
    LeftOfRightStart(l, r);
    LastLeafPathOfLeft(l, r);
  }

  /** The leftmost leaf of a right subtree has the rightmost leaf of the left subtree before it. */
  lemma LeftOfRightStart(l: SF, r: SF)
    requires r.Pair?
    ensures LeftOf(Pair(l, r), [R] + LeftMost(r)) == Some([L] + RightMost(l))
  {
    var p := [R] + LeftMost(r);
    assert |p| >= 2;
    assert p != [R] && p != [L];
  }

  lemma LastLeafPathOfLeft(l: SF, r: SF)
    ensures LeafPaths(Pair(l, r))[|Leaves(l)| - 1] == [L] + RightMost(l)
  {
    var k := LeavesBefore(l, RightMost(l));
    assert k == |Leaves(l)| - 1;
    LeafPathIndex(l, RightMost(l));
    assert LeafPaths(l)[k] == RightMost(l);
    LeafPathsOfPair(l, r, k);
    assert LeafPaths(Pair(l, r))[k] == [L] + LeafPaths(l)[k];
  }

  lemma {:induction false} LeftOfLaterInRight(l: SF, r: SF, q: Path)
    requires q != [] && IsLeafPath(r, q) && q != LeftMost(r)
    ensures LeavesBefore(r, q) > 0
    ensures LeftOf(Pair(l, r), [R] + q) ==
      Some(LeafPaths(Pair(l, r))[|Leaves(l)| + LeavesBefore(r, q) - 1])
    decreases Pair(l, r), 0
  {
    var t := Pair(l, r);
    var p := [R] + q;
    var j := LeavesBefore(r, q);
    LeafPathIndex(r, q);
    LeafPathIndex(r, LeftMost(r));
    assert j > 0;
    LeftOfIsPrevious(r, q);
    var prev := LeafPaths(r)[j - 1];
    assert LeftOf(r, q) == Some(prev);
    LeftOfDescendRight(l, r, q, prev);
    LeafPathsOfPair(l, r, |Leaves(l)| + j - 1);
  }

  lemma LeftOfDescendRight(l: SF, r: SF, q: Path, prev: Path)
    requires q != [] && r.Pair? && q != LeftMost(r) && LeftOf(r, q) == Some(prev)
    ensures LeftOf(Pair(l, r), [R] + q) == Some([R] + prev)
  {
    var p := [R] + q;
    assert p[0] == R && p[1..] == q;
    assert p != [R] && p != [L];
    assert p != [R] + LeftMost(r) by {
      assert ([R] + LeftMost(r))[1..] == LeftMost(r);
    }
  }

  lemma {:induction false} LeftOfInLeft(l: SF, r: SF, q: Path)
    requires q != [] && IsLeafPath(l, q)
    ensures IsLeafPath(Pair(l, r), [L] + q)
    ensures LeftOf(Pair(l, r), [L] + q) ==
      if LeavesBefore(Pair(l, r), [L] + q) == 0 then None
      else Some(LeafPaths(Pair(l, r))[LeavesBefore(Pair(l, r), [L] + q) - 1])
    decreases Pair(l, r), 0
  {
    var t := Pair(l, r);
    var p := [L] + q;
    DescendPath(l, r, L, q);
    assert p[1..] == q;
    assert LeftOf(t, p) == Prepend(L, LeftOf(l, q));
    LeftOfIsPrevious(l, q);
    var j := LeavesBefore(l, q);
    LeafPathIndex(l, q);
    if j > 0 {
      LeafPathsOfPair(l, r, j - 1);
    }
  }

  /** For the leaf at p, `right` finds exactly the in-order next leaf, or nothing for the last leaf. */
  lemma {:induction false} RightOfIsNext(t: SF, p: Path)
    requires IsLeafPath(t, p)
    ensures LeavesBefore(t, p) < |Leaves(t)|
    ensures RightOf(t, p) ==
      if LeavesBefore(t, p) == |Leaves(t)| - 1 then None else Some(LeafPaths(t)[LeavesBefore(t, p) + 1])
    decreases t, 1
  {
    LeafPathIndex(t, p);
    match t
    case Regular(_) =>
    case Pair(l, r) =>
      if p == [R] || p == [L] {
        RightOfChild(l, r, p);
      } else {
        var q := p[1..];
        assert p == [p[0]] + q;
        if p[0] == L {
          RightOfInLeft(l, r, q);
        } else {
          RightOfInRight(l, r, q);
        }
      }
  }

  lemma RightOfChild(l: SF, r: SF, p: Path)
    requires p == [L] || p == [R]
    requires IsLeafPath(Pair(l, r), p)
    ensures RightOf(Pair(l, r), p) ==
      if LeavesBefore(Pair(l, r), p) == |Leaves(Pair(l, r))| - 1 then None
      else Some(LeafPaths(Pair(l, r))[LeavesBefore(Pair(l, r), p) + 1])
  {
    var n := |Leaves(l)|;
    if p == [L] {
      LeafPathIndex(r, LeftMost(r));
      assert [L][1..] == [];
      assert At(Pair(l, r), p) == l;
      assert n == 1;
      LeafPathsOfPair(l, r, 1);
    } else {
      assert [R][1..] == [];
      assert At(Pair(l, r), p) == r;
    }
  }

  lemma {:induction false} RightOfInLeft(l: SF, r: SF, q: Path)
    requires q != [] && IsLeafPath(l, q)
    ensures IsLeafPath(Pair(l, r), [L] + q)
    ensures RightOf(Pair(l, r), [L] + q) ==
      Some(LeafPaths(Pair(l, r))[LeavesBefore(Pair(l, r), [L] + q) + 1])
    decreases Pair(l, r), 0
  {
    var t := Pair(l, r);
    var p := [L] + q;
    DescendPath(l, r, L, q);
    assert p[1..] == q;
    var n := |Leaves(l)|;
    assert l.Pair?;
    var j := LeavesBefore(l, q);
    LeafPathIndex(l, q);
    if q == RightMost(l) {
      assert RightOf(t, p) == Some([R] + LeftMost(r));
      LeafPathIndex(r, LeftMost(r));
      assert j == n - 1;
      LeafPathsOfPair(l, r, n);
    } else {
      LeafPathIndex(l, RightMost(l));
      assert j != n - 1;
      RightOfIsNext(l, q);
      assert RightOf(l, q) == Some(LeafPaths(l)[j + 1]);
      assert RightOf(t, p) == Prepend(L, RightOf(l, q));
      LeafPathsOfPair(l, r, j + 1);
    }
  }

  lemma {:induction false} RightOfInRight(l: SF, r: SF, q: Path)
    requires q != [] && IsLeafPath(r, q)
    ensures IsLeafPath(Pair(l, r), [R] + q)
    ensures RightOf(Pair(l, r), [R] + q) ==
      if LeavesBefore(Pair(l, r), [R] + q) == |Leaves(Pair(l, r))| - 1 then None
      else Some(LeafPaths(Pair(l, r))[LeavesBefore(Pair(l, r), [R] + q) + 1])
    decreases Pair(l, r), 0
  {
    var t := Pair(l, r);
    var p := [R] + q;
    DescendPath(l, r, R, q);
    assert p[1..] == q;
    var n := |Leaves(l)|;
    assert p != [L] + RightMost(l);
    assert RightOf(t, p) == Prepend(R, RightOf(r, q));
    RightOfIsNext(r, q);
    var j := LeavesBefore(r, q);
    assert LeavesBefore(t, p) == n + j;
    assert |Leaves(t)| == n + |Leaves(r)|;
    if j < |Leaves(r)| - 1 {
      assert RightOf(r, q) == Some(LeafPaths(r)[j + 1]);
      LeafPathsOfPair(l, r, n + j + 1);
      assert LeafPaths(t)[n + j + 1] == [R] + LeafPaths(r)[j + 1];
    } else {
      assert RightOf(r, q) == None;
    }
  }

  // ---------------------------------------------------------------------------
  // magnitude and deep_clone
  // ---------------------------------------------------------------------------

  /** The factor a regular number at the end of p contributes to the magnitude: 3 per left step, 2 per right step. */
  function Weight(p: Path): (w: nat)
    ensures w > 0
  {
    if p == [] then 1 else (if p[0] == L then 3 else 2) * Weight(p[1..])
  }

  /** The sum of xs[k] * Weight(ps[k]). */
  function WeightedSum(xs: seq<nat>, ps: seq<Path>): nat
    requires |xs| == |ps|
  {
    if xs == [] then 0 else xs[0] * Weight(ps[0]) + WeightedSum(xs[1..], ps[1..])
  }

  lemma {:induction false} WeightedSumAppend(xs: seq<nat>, ps: seq<Path>, ys: seq<nat>, qs: seq<Path>)
    requires |xs| == |ps| && |ys| == |qs|
    ensures WeightedSum(xs + ys, ps + qs) == WeightedSum(xs, ps) + WeightedSum(ys, qs)
  {
    if xs == [] {
      assert xs + ys == ys && ps + qs == qs;
    } else {
      WeightedSumAppend(xs[1..], ps[1..], ys, qs);
      assert (xs + ys)[1..] == xs[1..] + ys && (ps + qs)[1..] == ps[1..] + qs;
    }
  }

  lemma {:induction false} WeightedSumPrefix(xs: seq<nat>, d: Dir, ps: seq<Path>)
    requires |xs| == |ps|
    ensures WeightedSum(xs, PrefixAll(d, ps)) == (if d == L then 3 else 2) * WeightedSum(xs, ps)
  {
    if xs != [] {
      var qs := PrefixAll(d, ps);
      WeightedSumPrefix(xs[1..], d, ps[1..]);
      assert qs[1..] == PrefixAll(d, ps[1..]);
      assert qs[0] == [d] + ps[0] && qs[0][1..] == ps[0];
    }
  }

  /**
   * `magnitude`, read leaf by leaf: every regular number counts with the
   * factor 3 for each time its branch goes left and 2 for each time it goes right.
   */
  lemma {:induction false} MagnitudeByLeaves(t: SF)
    ensures Magnitude(t) == WeightedSum(Leaves(t), LeafPaths(t))
  {
    match t
    case Regular(x) =>
      assert WeightedSum([x], [[]]) == x * Weight([]);
    case Pair(l, r) =>
      MagnitudeByLeaves(l);
      MagnitudeByLeaves(r);
      WeightedSumPrefix(Leaves(l), L, LeafPaths(l));
      WeightedSumPrefix(Leaves(r), R, LeafPaths(r));
      WeightedSumAppend(Leaves(l), PrefixAll(L, LeafPaths(l)), Leaves(r), PrefixAll(R, LeafPaths(r)));
  }

  /** `deep_clone`: a copy built node by node. */
  function DeepClone(t: SF): (c: SF)
    ensures Leaves(c) == Leaves(t) && Magnitude(c) == Magnitude(t)
  {
    match t
    case Regular(x) => Regular(x)
    case Pair(l, r) => Pair(DeepClone(l), DeepClone(r))
  }

  /** The copy is the same snailfish number. */
  lemma {:induction false} DeepCloneIsEqual(t: SF)
    ensures DeepClone(t) == t
  {
    match t
    case Regular(_) =>
    case Pair(l, r) =>
      DeepCloneIsEqual(l);
      DeepCloneIsEqual(r);
  }
}
