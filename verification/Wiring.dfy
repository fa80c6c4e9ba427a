/**
 * Why the deduction of src/day08.rs is right: on a display whose seven
 * segment wires are connected in any order, the three resolve steps
 * recover the pattern of every digit, and each output word then decodes to
 * the digit it shows. The segments of the unscrambled display are numbered
 * 0 to 6 (top, upper left, upper right, middle, lower left, lower right,
 * bottom).
 */
module Wiring {
  import opened Wrappers
  import opened SevenSegment

  /** The segments each digit lights on an unscrambled display. */
  function Canon(d: nat): (s: seq<nat>)
    ensures Segments(s)
  {
    if d == 0 then [0, 1, 2, 4, 5, 6]
    else if d == 1 then [2, 5]
    else if d == 2 then [0, 2, 3, 4, 6]
    else if d == 3 then [0, 2, 3, 5, 6]
    else if d == 4 then [1, 2, 3, 5]
    else if d == 5 then [0, 1, 3, 5, 6]
    else if d == 6 then [0, 1, 3, 4, 5, 6]
    else if d == 7 then [0, 2, 5]
    else if d == 8 then [0, 1, 2, 3, 4, 5, 6]
    else [0, 1, 2, 3, 5, 6]
  }

  /** Every entry names one of the seven segments. */
  predicate Segments(s: seq<nat>) {
    forall i :: 0 <= i < |s| ==> s[i] < 7
  }

  /** A wiring: segment k answers to wire[k], and no two segments share a wire. */
  predicate IsWiring(wire: seq<char>) {
    |wire| == 7 && forall i, j :: 0 <= i < j < 7 ==> wire[i] != wire[j]
  }

  /** The wires of the given segments, in order. */
  function Wired(wire: seq<char>, s: seq<nat>): (r: seq<char>)
    requires |wire| == 7 && Segments(s)
    ensures |r| == |s|
  {
    if s == [] then [] else [wire[s[0]]] + Wired(wire, s[1..])
  }

  /** The pattern lights exactly the wires of digit d's segments, in some order. */
  predicate Shows(wire: seq<char>, p: string, d: nat)
    requires |wire| == 7
  {
    d < 10 && multiset(p) == multiset(Wired(wire, Canon(d)))
  }

  /** The ten patterns of a display, pattern d showing digit d, listed in any order. */
  predicate Display(wire: seq<char>, pats: seq<string>, us: seq<string>) {
    IsWiring(wire) && |pats| == 10 &&
    (forall d :: 0 <= d < 10 ==> Shows(wire, pats[d], d)) &&
    multiset(us) == multiset(pats)
  }

  const AllDigits: set<nat> := {0, 1, 2, 3, 4, 5, 6, 7, 8, 9}

  /** The knowns with the digits of ds resolved to their patterns. */
  function Partial(pats: seq<string>, ds: set<nat>): (r: seq<Option<string>>)
    requires |pats| == 10
    ensures |r| == 10
  {
    seq(10, d requires 0 <= d < 10 => if d in ds then Some(pats[d]) else None)
  }

  // ---------------------------------------------------------------------
  // Diff does not see the order of the letters or the names of the wires
  // ---------------------------------------------------------------------

  lemma {:induction false} DiffAppend<T>(a: seq<T>, b: seq<T>, y: seq<T>)
    ensures Diff(a + b, y) == Diff(a, y) + Diff(b, y)
  {
    if a == [] {
      assert a + b == b;
    } else {
      assert (a + b)[1..] == a[1..] + b;
      DiffAppend(a[1..], b, y);
    }
  }

  /** Taking out the letter at index j takes one of it out of the multiset. */
  lemma RemoveAt<T>(s: seq<T>, j: nat)
    requires j < |s|
    ensures multiset(s[..j] + s[j + 1..]) == multiset(s) - multiset{s[j]}
  {
    var before, after := s[..j], s[j + 1..];
    assert s == before + [s[j]] + after;
    assert multiset(s) == multiset(before) + multiset{s[j]} + multiset(after);
  }

  /** Taking the first letter out of x and its copy out of x2 leaves two permutations. */
  lemma PermuteTail<T>(x: seq<T>, x2: seq<T>) returns (j: nat)
    requires x != [] && multiset(x) == multiset(x2)
    ensures j < |x2| && x2[j] == x[0]
    ensures multiset(x[1..]) == multiset(x2[..j] + x2[j + 1..])
  {
    assert x[0] in multiset(x2);
    assert x[0] in x2;
    j :| 0 <= j < |x2| && x2[j] == x[0];
    assert x[..0] + x[1..] == x[1..];
    RemoveAt(x, 0);
    RemoveAt(x2, j);
  }

  /** Diff counts the letter at index j once and the rest without it. */
  lemma DiffSplice<T>(x: seq<T>, j: nat, y: seq<T>)
    requires j < |x|
    ensures Diff(x, y) == Diff([x[j]], y) + Diff(x[..j] + x[j + 1..], y)
  {
    var before, after := x[..j], x[j + 1..];
    assert x == before + ([x[j]] + after);
    DiffAppend(before, [x[j]] + after, y);
    DiffAppend([x[j]], after, y);
    DiffAppend(before, after, y);
  }

  /** Reordering the counted letters does not change Diff. */
  lemma {:induction false} DiffPermute<T>(x: seq<T>, x2: seq<T>, y: seq<T>)
    requires multiset(x) == multiset(x2)
    ensures Diff(x, y) == Diff(x2, y)
    decreases |x|
  {
    if x == [] {
      assert |multiset(x2)| == 0;
    } else {
      var j := PermuteTail(x, x2);
      DiffPermute(x[1..], x2[..j] + x2[j + 1..], y);
      DiffSplice(x2, j, y);
      DiffSplice(x, 0, y);
      assert x[..0] + x[1..] == x[1..];
    }
  }

  /** Diff only asks which letters the reference has. */
  lemma {:induction false} DiffReference<T>(x: seq<T>, y: seq<T>, y2: seq<T>)
    requires forall c :: c in y <==> c in y2
    ensures Diff(x, y) == Diff(x, y2)
  {
    if x != [] {
      DiffReference(x[1..], y, y2);
    }
  }

  /** Diff is 0 exactly when the reference has every letter. */
  lemma {:induction false} DiffZero<T>(x: seq<T>, y: seq<T>)
    ensures Diff(x, y) == 0 <==> forall c :: c in x ==> c in y
  {
    if x != [] {
      DiffZero(x[1..], y);
      assert forall c :: c in x <==> c == x[0] || c in x[1..] by {
        assert x == [x[0]] + x[1..];
      }
    }
  }

  lemma {:induction false} WiredMember(wire: seq<char>, s: seq<nat>, k: nat)
    requires IsWiring(wire) && k < 7 && Segments(s)
    ensures wire[k] in Wired(wire, s) <==> k in s
  {
    if s != [] {
      WiredMember(wire, s[1..], k);
      assert Wired(wire, s) == [wire[s[0]]] + Wired(wire, s[1..]);
      assert forall i :: i in s <==> i == s[0] || i in s[1..] by {
        assert s == [s[0]] + s[1..];
      }
    }
  }

  /** Renaming the segments through a wiring does not change Diff. */
  lemma {:induction false} DiffWired(wire: seq<char>, a: seq<nat>, b: seq<nat>)
    requires IsWiring(wire) && Segments(a) && Segments(b)
    ensures Diff(Wired(wire, a), Wired(wire, b)) == Diff(a, b)
  {
    if a != [] {
      DiffWired(wire, a[1..], b);
      WiredMember(wire, b, a[0]);
      var w := Wired(wire, a);
      assert w[0] == wire[a[0]] && w[1..] == Wired(wire, a[1..]);
    }
  }

  /** A pattern is as long as its digit, and Diff between two patterns is Diff between their digits. */
  lemma ShownDiff(wire: seq<char>, p: string, a: nat, q: string, b: nat)
    requires IsWiring(wire) && Shows(wire, p, a) && Shows(wire, q, b)
    ensures |p| == |Canon(a)|
    ensures Diff(p, q) == Diff(Canon(a), Canon(b))
  {
    var wa, wb := Wired(wire, Canon(a)), Wired(wire, Canon(b));
    assert |p| == |wa| by {
      assert |multiset(p)| == |multiset(wa)|;
    }
    DiffPermute(p, wa, q);
    forall c ensures c in q <==> c in wb {
      assert c in q <==> c in multiset(q);
      assert c in wb <==> c in multiset(wb);
    }
    DiffReference(wa, q, wb);
    DiffWired(wire, Canon(a), Canon(b));
  }


  // ---------------------------------------------------------------------
  // The unscrambled digits
  // ---------------------------------------------------------------------

  /** The lengths that single out 1, 7, 4 and 8, and the two groups of five and six segments. */
  lemma CanonLengths()
    ensures forall e :: 0 <= e < 10 ==>
      (|Canon(e)| == 2 <==> e == 1) && (|Canon(e)| == 3 <==> e == 7) &&
      (|Canon(e)| == 4 <==> e == 4) && (|Canon(e)| == 7 <==> e == 8) &&
      (|Canon(e)| == 5 <==> e == 2 || e == 3 || e == 5) &&
      (|Canon(e)| == 6 <==> e == 0 || e == 6 || e == 9)
  {
    forall e | 0 <= e < 10
      ensures (|Canon(e)| == 2 <==> e == 1) && (|Canon(e)| == 3 <==> e == 7) &&
        (|Canon(e)| == 4 <==> e == 4) && (|Canon(e)| == 7 <==> e == 8) &&
        (|Canon(e)| == 5 <==> e == 2 || e == 3 || e == 5) &&
        (|Canon(e)| == 6 <==> e == 0 || e == 6 || e == 9)
    {
      assert e == 0 || e == 1 || e == 2 || e == 3 || e == 4 || e == 5 || e == 6 || e == 7 || e == 8 || e == 9;
    }
  }

  /** For each two digits of six segments, a segment the first lights and the second does not. */
  lemma CanonSixesApart()
    ensures 2 in Canon(0) && 2 !in Canon(6) && 4 in Canon(0) && 4 !in Canon(9)
    ensures 3 in Canon(6) && 3 !in Canon(0) && 4 in Canon(6)
    ensures 3 in Canon(9) && 2 in Canon(9)
  {
  }

  /** For each two digits of five segments, a segment the first lights and the second does not. */
  lemma CanonFivesApart()
    ensures 4 in Canon(2) && 4 !in Canon(3) && 2 in Canon(2) && 2 !in Canon(5)
    ensures 5 in Canon(3) && 5 !in Canon(2) && 2 in Canon(3)
    ensures 1 in Canon(5) && 1 !in Canon(2) && 1 !in Canon(3)
  {
  }

  /** No digit's segments are all lit in another digit of the same length. */
  lemma CanonUnique(a: nat, b: nat)
    requires a < 10 && b < 10 && |Canon(a)| == |Canon(b)| && Diff(Canon(a), Canon(b)) == 0
    ensures a == b
  {
    CanonLengths();
    CanonSixesApart();
    CanonFivesApart();
    DiffZero(Canon(a), Canon(b));
    assert a == 0 || a == 1 || a == 2 || a == 3 || a == 4 || a == 5 || a == 6 || a == 7 || a == 8 || a == 9;
    assert b == 0 || b == 1 || b == 2 || b == 3 || b == 4 || b == 5 || b == 6 || b == 7 || b == 8 || b == 9;
  }

  /** Which digits light both segments of 1. */
  lemma CanonOne()
    ensures Diff(Canon(1), Canon(0)) == 0 && Diff(Canon(1), Canon(3)) == 0 && Diff(Canon(1), Canon(9)) == 0
    ensures Diff(Canon(1), Canon(2)) == 1 && Diff(Canon(1), Canon(5)) == 1 && Diff(Canon(1), Canon(6)) == 1
  {
  }

  /** 3 lacks two segments of 0. */
  lemma CanonZeroThree()
    ensures Diff(Canon(0), Canon(3)) == 2
  {
  }

  /** 3 lacks one segment of 9. */
  lemma CanonNineThree()
    ensures Diff(Canon(9), Canon(3)) == 1
  {
  }

  /** 9 lacks one segment of 2. */
  lemma CanonTwoNine()
    ensures Diff(Canon(2), Canon(9)) == 1
  {
  }

  /** 9 lacks no segment of 5. */
  lemma CanonFiveNine()
    ensures Diff(Canon(5), Canon(9)) == 0
  {
  }

  // ---------------------------------------------------------------------
  // A display
  // ---------------------------------------------------------------------

  /** Pattern d is as long as digit d. */
  predicate Lengths(pats: seq<string>)
    requires |pats| == 10
  {
    |pats[0]| == 6 && |pats[1]| == 2 && |pats[2]| == 5 && |pats[3]| == 5 && |pats[4]| == 4 &&
    |pats[5]| == 5 && |pats[6]| == 6 && |pats[7]| == 3 && |pats[8]| == 7 && |pats[9]| == 6
  }

  /** The unknowns are the ten patterns. */
  predicate Listed(pats: seq<string>, us: seq<string>)
    requires |pats| == 10
  {
    (forall d :: 0 <= d < 10 ==> pats[d] in us) &&
    forall x :: x in us ==>
      (x == pats[0] || x == pats[1] || x == pats[2] || x == pats[3] || x == pats[4] ||
       x == pats[5] || x == pats[6] || x == pats[7] || x == pats[8] || x == pats[9])
  }

  lemma DisplayLengths(wire: seq<char>, pats: seq<string>, us: seq<string>)
    requires Display(wire, pats, us)
    ensures Lengths(pats)
  {
    forall d | 0 <= d < 10 ensures |pats[d]| == |Canon(d)| {
      ShownDiff(wire, pats[d], d, pats[d], d);
    }
  }

  lemma DisplayListed(wire: seq<char>, pats: seq<string>, us: seq<string>)
    requires Display(wire, pats, us)
    ensures Listed(pats, us)
  {
    SameMultisetListed(pats, us);
  }

  /** Ten patterns shuffled into us: each is in us and us holds nothing else. */
  lemma SameMultisetListed(pats: seq<string>, us: seq<string>)
    requires |pats| == 10 && multiset(us) == multiset(pats)
    ensures Listed(pats, us)
  {
    forall d | 0 <= d < 10 ensures pats[d] in us {
      assert pats[d] in multiset(pats);
    }
    forall x | x in us
      ensures x == pats[0] || x == pats[1] || x == pats[2] || x == pats[3] || x == pats[4] ||
        x == pats[5] || x == pats[6] || x == pats[7] || x == pats[8] || x == pats[9]
    {
      assert x in multiset(pats);
      OneOfTen(pats, x);
    }
  }

  lemma OneOfTen(pats: seq<string>, x: string)
    requires |pats| == 10 && x in pats
    ensures x == pats[0] || x == pats[1] || x == pats[2] || x == pats[3] || x == pats[4] ||
      x == pats[5] || x == pats[6] || x == pats[7] || x == pats[8] || x == pats[9]
  {
    var d :| 0 <= d < 10 && pats[d] == x;
    assert d == 0 || d == 1 || d == 2 || d == 3 || d == 4 || d == 5 || d == 6 || d == 7 || d == 8 || d == 9;
  }

  /** HasBoth asks that Diff from the two-letter pattern be 0. */
  lemma HasBothDiff(x: string, cf: string)
    requires |cf| == 2
    ensures HasBoth(x, cf) <==> Diff(cf, x) == 0
  {
    assert cf[1..][1..] == [];
  }

  /** The patterns of 0, 3 and 9 light both segments of 1, those of 2, 5 and 6 do not. */
  predicate OneFacts(pats: seq<string>)
    requires |pats| == 10 && |pats[1]| == 2
  {
    HasBoth(pats[0], pats[1]) && HasBoth(pats[3], pats[1]) && HasBoth(pats[9], pats[1]) &&
    !HasBoth(pats[2], pats[1]) && !HasBoth(pats[5], pats[1]) && !HasBoth(pats[6], pats[1])
  }

  lemma DisplayOne(wire: seq<char>, pats: seq<string>, us: seq<string>)
    requires Display(wire, pats, us)
    ensures |pats[1]| == 2 && OneFacts(pats)
  {
    DisplayLengths(wire, pats, us);
    CanonOne();
    HasBothDiff(pats[0], pats[1]);
    ShownDiff(wire, pats[1], 1, pats[0], 0);
    HasBothDiff(pats[3], pats[1]);
    ShownDiff(wire, pats[1], 1, pats[3], 3);
    HasBothDiff(pats[9], pats[1]);
    ShownDiff(wire, pats[1], 1, pats[9], 9);
    HasBothDiff(pats[2], pats[1]);
    ShownDiff(wire, pats[1], 1, pats[2], 2);
    HasBothDiff(pats[5], pats[1]);
    ShownDiff(wire, pats[1], 1, pats[5], 5);
    HasBothDiff(pats[6], pats[1]);
    ShownDiff(wire, pats[1], 1, pats[6], 6);
  }

  /** How many segments of 3 the patterns of 0, 3 and 9 lack, and of 9 those of 2 and 5. */
  predicate DiffFacts(pats: seq<string>)
    requires |pats| == 10
  {
    Diff(pats[0], pats[3]) == 2 && Diff(pats[3], pats[3]) == 0 && Diff(pats[9], pats[3]) == 1 &&
    Diff(pats[2], pats[9]) == 1 && Diff(pats[5], pats[9]) == 0
  }

  lemma DisplayDiffs(wire: seq<char>, pats: seq<string>, us: seq<string>)
    requires Display(wire, pats, us)
    ensures DiffFacts(pats)
  {
    CanonZeroThree();
    CanonNineThree();
    CanonTwoNine();
    CanonFiveNine();
    ShownDiff(wire, pats[0], 0, pats[3], 3);
    DiffZero(pats[3], pats[3]);
    ShownDiff(wire, pats[9], 9, pats[3], 3);
    ShownDiff(wire, pats[2], 2, pats[9], 9);
    ShownDiff(wire, pats[5], 5, pats[9], 9);
  }

  /** `resolve_1478` on a display: 1, 4, 7 and 8 are resolved and the other six patterns remain. */
  lemma Step1478(pats: seq<string>, us: seq<string>)
    requires |pats| == 10 && Lengths(pats) && Listed(pats, us)
    ensures forall x :: x in SortByLength(us, Partial(pats, {})).0 <==>
      (x == pats[0] || x == pats[2] || x == pats[3] || x == pats[5] || x == pats[6] || x == pats[9])
    ensures SortByLength(us, Partial(pats, {})).1 == Partial(pats, {1, 4, 7, 8})
  {
    var blank := Partial(pats, {});
    var r := SortByLength(us, blank);
    SortByLengthFacts(us, blank);
    forall x | x in r.0
      ensures x == pats[0] || x == pats[2] || x == pats[3] || x == pats[5] || x == pats[6] || x == pats[9]
    {
    }
    forall d | 0 <= d < 10 ensures r.1[d] == Partial(pats, {1, 4, 7, 8})[d] {
      if d == 1 || d == 4 || d == 7 || d == 8 {
        LastOfDigit(pats, us, d);
      } else {
        assert LengthOfDigit(d).None?;
      }
    }
  }

  /** The only pattern as long as 1, 4, 7 or 8 is that digit's. */
  lemma LastOfDigit(pats: seq<string>, us: seq<string>, d: nat)
    requires |pats| == 10 && Lengths(pats) && Listed(pats, us)
    requires d == 1 || d == 4 || d == 7 || d == 8
    ensures LengthOfDigit(d) == Some(|pats[d]|) && LastOfLength(us, |pats[d]|) == Some(pats[d])
  {
    var found := LastOfLength(us, |pats[d]|);
    assert pats[d] in us;
    assert found.value in us;
  }

  /** The slot of a digit no pattern is classified to keeps its value. */
  lemma PlacedNone(ks: seq<Option<string>>, xs: seq<string>, reference: string, table: seq<nat>, d: nat)
    requires |ks| == 10 && d < 10 && forall i :: 0 <= i < |table| ==> table[i] < 10
    requires forall x :: x in xs ==> Diff(x, reference) < |table| && table[Diff(x, reference)] != d
    ensures Place(ks, Classify(xs, reference, table))[d] == ks[d]
  {
    var placed := Classify(xs, reference, table);
    forall i | 0 <= i < |placed| ensures placed[i].1 != d {
      assert xs[i] in xs;
    }
    PlaceLast(ks, placed, d);
  }

  /** The slot of a digit exactly one pattern is classified to ends up holding it. */
  lemma PlacedOnly(ks: seq<Option<string>>, xs: seq<string>, reference: string, table: seq<nat>, d: nat, x: string)
    requires |ks| == 10 && d < 10 && forall i :: 0 <= i < |table| ==> table[i] < 10
    requires forall y :: y in xs ==> Diff(y, reference) < |table|
    requires x in xs && table[Diff(x, reference)] == d
    requires forall y :: y in xs && table[Diff(y, reference)] == d ==> y == x
    ensures Place(ks, Classify(xs, reference, table))[d] == Some(x)
  {
    var placed := Classify(xs, reference, table);
    PlaceLast(ks, placed, d);
    var i :| 0 <= i < |xs| && xs[i] == x;
    assert placed[i].1 == d;
    var last := LastPlaced(placed, d);
    var j :| 0 <= j < |placed| && placed[j] == (last.value, d);
    assert xs[j] in xs;
  }

  /** `resolve_039` on a display: 0, 3 and 9 are resolved too, and 2, 5 and 6 remain. */
  lemma Step039(pats: seq<string>, kept: seq<string>)
    requires |pats| == 10 && Lengths(pats) && OneFacts(pats) && DiffFacts(pats)
    requires forall x :: x in kept <==> (x == pats[0] || x == pats[2] || x == pats[3] || x == pats[5] || x == pats[6] || x == pats[9])
    ensures Can039(kept, Partial(pats, {1, 4, 7, 8}))
    ensures forall x :: x in After039(kept, Partial(pats, {1, 4, 7, 8})).0 <==> (x == pats[2] || x == pats[5] || x == pats[6])
    ensures After039(kept, Partial(pats, {1, 4, 7, 8})).1 == Partial(pats, {0, 1, 3, 4, 7, 8, 9})
  {
    var ks := Partial(pats, {1, 4, 7, 8});
    var withCf := WithBoth(kept, pats[1]);
    assert ks[1] == Some(pats[1]);
    assert forall x :: x in withCf <==> (x == pats[0] || x == pats[3] || x == pats[9]);
    assert pats[3] in withCf;
    assert FirstOfLength(withCf, 5) == Some(pats[3]);
    assert Can039(kept, ks);
    Knowns039(pats, withCf);
  }

  /** The knowns after `resolve_039`, given which patterns light both segments of 1. */
  lemma Knowns039(pats: seq<string>, withCf: seq<string>)
    requires |pats| == 10 && DiffFacts(pats)
    requires forall x :: x in withCf <==> (x == pats[0] || x == pats[3] || x == pats[9])
    ensures Place(Partial(pats, {1, 4, 7, 8}), Classify(withCf, pats[3], [3, 9, 0])) == Partial(pats, {0, 1, 3, 4, 7, 8, 9})
  {
    var ks, table := Partial(pats, {1, 4, 7, 8}), [3, 9, 0];
    var placed := Classify(withCf, pats[3], table);
    forall i | 0 <= i < |placed| ensures placed[i].1 < 10 {
      assert withCf[i] in withCf;
    }
    forall d | 0 <= d < 10
      ensures Place(ks, Classify(withCf, pats[3], table))[d] == Partial(pats, {0, 1, 3, 4, 7, 8, 9})[d]
    {
      Known039At(pats, withCf, d);
    }
  }

  /** Digit d after placing 0, 3 and 9. */
  lemma Known039At(pats: seq<string>, withCf: seq<string>, d: nat)
    requires |pats| == 10 && DiffFacts(pats) && d < 10
    requires forall x :: x in withCf <==> (x == pats[0] || x == pats[3] || x == pats[9])
    ensures Place(Partial(pats, {1, 4, 7, 8}), Classify(withCf, pats[3], [3, 9, 0]))[d] == Partial(pats, {0, 1, 3, 4, 7, 8, 9})[d]
  {
    var ks, table := Partial(pats, {1, 4, 7, 8}), [3, 9, 0];
    if d == 0 || d == 3 || d == 9 {
      PlacedOnly(ks, withCf, pats[3], table, d, pats[d]);
    } else {
      PlacedNone(ks, withCf, pats[3], table, d);
    }
  }

  /** `resolve_256` on a display: every digit is resolved and no unknown remains. */
  lemma Step256(pats: seq<string>, rest: seq<string>)
    requires |pats| == 10 && Lengths(pats) && DiffFacts(pats)
    requires forall x :: x in rest <==> (x == pats[2] || x == pats[5] || x == pats[6])
    ensures Can256(rest, Partial(pats, {0, 1, 3, 4, 7, 8, 9}))
    ensures After256(rest, Partial(pats, {0, 1, 3, 4, 7, 8, 9})) == ([], Partial(pats, AllDigits))
  {
    var ks := Partial(pats, {0, 1, 3, 4, 7, 8, 9});
    assert pats[6] in rest;
    assert FirstOfLength(rest, 6) == Some(pats[6]);
    var others := Without(rest, pats[6]);
    assert forall x :: x in others <==> (x == pats[2] || x == pats[5]);
    assert ks[9] == Some(pats[9]);
    assert Can256(rest, ks);
    Knowns256(pats, others);
  }

  /** The knowns after `resolve_256`, given the patterns of 2 and 5. */
  lemma Knowns256(pats: seq<string>, others: seq<string>)
    requires |pats| == 10 && DiffFacts(pats)
    requires forall x :: x in others <==> (x == pats[2] || x == pats[5])
    ensures Place(Partial(pats, {0, 1, 3, 4, 7, 8, 9}), Classify(others, pats[9], [5, 2]))[6 := Some(pats[6])] == Partial(pats, AllDigits)
  {
    var ks, table := Partial(pats, {0, 1, 3, 4, 7, 8, 9}), [5, 2];
    var placed := Classify(others, pats[9], table);
    forall i | 0 <= i < |placed| ensures placed[i].1 < 10 {
      assert others[i] in others;
    }
    forall d | 0 <= d < 10
      ensures Place(ks, Classify(others, pats[9], table))[6 := Some(pats[6])][d] == Partial(pats, AllDigits)[d]
    {
      if d == 2 || d == 5 {
        PlacedOnly(ks, others, pats[9], table, d, pats[d]);
      } else {
        PlacedNone(ks, others, pats[9], table, d);
      }
    }
  }

  /**
   * `resolve` is right: on any display, whatever the wiring and the order of
   * the patterns, the three steps go through and digit d ends up holding
   * the pattern that shows d.
   */
  lemma ResolveDisplay(wire: seq<char>, pats: seq<string>, us: seq<string>)
    requires Display(wire, pats, us)
    ensures Resolvable(us, Partial(pats, {}))
    ensures Resolution(us, Partial(pats, {})) == Partial(pats, AllDigits)
  {
    DisplayLengths(wire, pats, us);
    DisplayListed(wire, pats, us);
    DisplayOne(wire, pats, us);
    DisplayDiffs(wire, pats, us);
    Step1478(pats, us);
    var r1 := SortByLength(us, Partial(pats, {}));
    Step039(pats, r1.0);
    var r2 := After039(r1.0, r1.1);
    Step256(pats, r2.0);
  }

  /** Once every digit is resolved, a word that shows digit d decodes to d. */
  lemma DecodeDisplay(wire: seq<char>, pats: seq<string>, us: seq<string>, e: string, d: nat)
    requires Display(wire, pats, us) && Shows(wire, e, d)
    ensures Decode(Partial(pats, AllDigits), e) == Some(d)
  {
    var ks := Partial(pats, AllDigits);
    forall i | 0 <= i < 10 ensures Fits(ks, i, e) <==> i == d {
      ShownDiff(wire, e, d, pats[i], i);
      ShownDiff(wire, pats[i], i, e, d);
      DiffZero(e, pats[i]);
      if Fits(ks, i, e) {
        CanonUnique(d, i);
      }
      if i == d {
        DiffZero(Canon(d), Canon(d));
      }
    }
  }

  /** A display whose four outputs show d0, d1, d2 and d3 reads as their decimal number. */
  lemma ReadDisplay(wire: seq<char>, pats: seq<string>, us: seq<string>, outputs: seq<string>, ds: seq<nat>)
    requires Display(wire, pats, us) && |outputs| == 4 && |ds| == 4
    requires forall k :: 0 <= k < 4 ==> Shows(wire, outputs[k], ds[k])
    ensures CountDecoded(Partial(pats, AllDigits), outputs) == 4
    ensures forall k :: 0 <= k < 4 ==> Decode(Partial(pats, AllDigits), outputs[k]) == Some(ds[k])
  {
    var ks := Partial(pats, AllDigits);
    forall k | 0 <= k < 4 ensures Decode(ks, outputs[k]) == Some(ds[k]) {
      DecodeDisplay(wire, pats, us, outputs[k], ds[k]);
    }
    CountDecodedAll(ks, outputs);
  }
}
