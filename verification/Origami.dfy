/**
 * Transparent origami (src/day13.rs): a set of dots on a sheet folded along
 * a vertical line x = loc or a horizontal line y = loc. A dot on the far side
 * of the line is reflected onto the near side; dots that land on each other
 * merge, since the sheet is a set.
 */
module Origami {

  /** A dot (x, y); the source's coordinates are `usize`. */
  type Coord = (nat, nat)

  datatype Fold = X(loc: nat) | Y(loc: nat)

  /** The folded coordinate of the dot: x for an X fold, y for a Y fold. */
  function Along(f: Fold, p: Coord): nat {
    if f.X? then p.0 else p.1
  }

  /** The reflection 2·loc − c stays a `usize`: the source underflows otherwise. */
  predicate Fits(f: Fold, p: Coord) {
    Along(f, p) <= 2 * f.loc
  }

  /** The map inside `Fold::apply`: a dot before the line stays, any other is reflected. */
  function Reflect(f: Fold, p: Coord): (q: Coord)
    requires Fits(f, p)
    ensures Along(f, p) < f.loc ==> q == p
    ensures Along(f, p) >= f.loc ==> Along(f, q) == 2 * f.loc - Along(f, p)
    ensures f.X? ==> q.1 == p.1
    ensures f.Y? ==> q.0 == p.0
    ensures Along(f, q) <= f.loc && Along(f, q) <= Along(f, p)
  {
    match f
    case X(loc) => if p.0 < loc then p else (2 * loc - p.0, p.1)
    case Y(loc) => if p.1 < loc then p else (p.0, 2 * loc - p.1)
  }

  predicate AllFit(f: Fold, coords: set<Coord>) {
    forall p :: p in coords ==> Fits(f, p)
  }

  /** `Fold::apply`: every dot reflected, merged into a set. */
  function Apply(f: Fold, coords: set<Coord>): (r: set<Coord>)
    requires AllFit(f, coords)
    ensures forall p :: p in coords ==> Reflect(f, p) in r
    ensures forall q :: q in r ==> exists p :: p in coords && Reflect(f, p) == q
    ensures forall q :: q in r ==> Along(f, q) <= f.loc
  {
    set p | p in coords :: Reflect(f, p)
  }

  /** A dot already on the near side, or on the line, is left where it is. */
  lemma ReflectNear(f: Fold, p: Coord)
    requires Along(f, p) <= f.loc
    ensures Fits(f, p) && Reflect(f, p) == p
  {
  }

  /** Folding twice along the same line is folding once. */
  lemma ApplyIdempotent(f: Fold, coords: set<Coord>)
    requires AllFit(f, coords)
    ensures AllFit(f, Apply(f, coords))
    ensures Apply(f, Apply(f, coords)) == Apply(f, coords)
  {
    var once := Apply(f, coords);
    forall q | q in once
      ensures Fits(f, q) && Reflect(f, q) == q
    {
      ReflectNear(f, q);
    }
    assert forall q :: q in Apply(f, once) ==> q in once;
  }

  /** Folding never adds dots: the folded sheet has at most as many as before. */
  lemma {:induction false} ApplyShrinks(f: Fold, coords: set<Coord>)
    requires AllFit(f, coords)
    ensures |Apply(f, coords)| <= |coords|
    decreases |coords|
  {
    if coords != {} {
      var p :| p in coords;
      var rest := coords - {p};
      ApplyShrinks(f, rest);
      var smaller := Apply(f, rest) + {Reflect(f, p)};
      forall q | q in Apply(f, coords)
        ensures q in smaller
      {
        var o :| o in coords && Reflect(f, o) == q;
        if o != p {
          assert o in rest;
        }
      }
      var extra := smaller - Apply(f, coords);
      assert smaller == Apply(f, coords) + extra && Apply(f, coords) !! extra;
    }
  }

  /** Every fold of the list can be made in turn without underflow. */
  predicate AllFitThrough(folds: seq<Fold>, coords: set<Coord>)
    decreases |folds|
  {
    folds == [] || (AllFit(folds[0], coords) && AllFitThrough(folds[1..], Apply(folds[0], coords)))
  }

  /** The sheet after the folds of `q2`, in order. */
  function FoldAll(folds: seq<Fold>, coords: set<Coord>): (r: set<Coord>)
    requires AllFitThrough(folds, coords)
    decreases |folds|
  {
    if folds == [] then coords else FoldAll(folds[1..], Apply(folds[0], coords))
  }

  /** No fold moves a dot away from the origin along the axis it folds. */
  lemma {:induction false} FoldAllMovesInward(folds: seq<Fold>, coords: set<Coord>)
    requires AllFitThrough(folds, coords)
    ensures forall q :: q in FoldAll(folds, coords) ==> exists p :: p in coords && q.0 <= p.0 && q.1 <= p.1
    decreases |folds|
  {
    if folds != [] {
      var once := Apply(folds[0], coords);
      FoldAllMovesInward(folds[1..], once);
      forall q | q in FoldAll(folds, coords)
        ensures exists p :: p in coords && q.0 <= p.0 && q.1 <= p.1
      {
        var m :| m in once && q.0 <= m.0 && q.1 <= m.1;
        var p :| p in coords && Reflect(folds[0], p) == m;
      }
    }
  }

  /** After all the folds, every dot lies on the near side of every fold line. */
  lemma {:induction false} FoldAllBelow(folds: seq<Fold>, coords: set<Coord>)
    requires AllFitThrough(folds, coords)
    ensures forall q, k :: q in FoldAll(folds, coords) && 0 <= k < |folds| ==> Along(folds[k], q) <= folds[k].loc
    decreases |folds|
  {
    if folds != [] {
      var once := Apply(folds[0], coords);
      FoldAllBelow(folds[1..], once);
      FoldAllMovesInward(folds[1..], once);
      forall q, k | q in FoldAll(folds, coords) && 0 <= k < |folds|
        ensures Along(folds[k], q) <= folds[k].loc
      {
        if k == 0 {
          var m :| m in once && q.0 <= m.0 && q.1 <= m.1;
        } else {
          assert folds[k] == folds[1..][k - 1];
        }
      }
    }
  }

  /** The folded sheet of `q2` has at most as many dots as the original. */
  lemma {:induction false} FoldAllShrinks(folds: seq<Fold>, coords: set<Coord>)
    requires AllFitThrough(folds, coords)
    ensures |FoldAll(folds, coords)| <= |coords|
    decreases |folds|
  {
    if folds != [] {
      ApplyShrinks(folds[0], coords);
      FoldAllShrinks(folds[1..], Apply(folds[0], coords));
    }
  }
}
