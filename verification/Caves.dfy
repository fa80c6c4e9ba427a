/**
 * Passage pathing (src/day12.rs): caves joined by passages. A path runs
 * from "start" to "end"; big caves (upper-case names) may be passed any
 * number of times and small caves at most once, except that in the second
 * part one small cave other than "start" may be passed twice.
 */
module Caves {
  import opened Wrappers
  import opened Text

  /** Each cave's neighbours, in the order the passages were read. */
  type Map = map<string, seq<string>>

  // ---------------------------------------------------------------------------
  // parse
  // ---------------------------------------------------------------------------

  /** s has no dash. */
  predicate NoDash(s: string) {
    forall i :: 0 <= i < |s| ==> s[i] != '-'
  }

  lemma NoDashBefore(s: string, k: nat)
    requires k <= |s| && forall j :: 0 <= j < k ==> !OccursAt(s, "-", j)
    ensures NoDash(s[..k])
  {
    forall i | 0 <= i < k ensures s[i] != '-' {
      assert !OccursAt(s, "-", i);
      assert s[i..i + 1] == [s[i]];
    }
  }

  /**
   * `line.split('-')` and its first two pieces: the text before the first
   * dash and the text after it up to the next dash, if any. None where the
   * second `unwrap` would panic, on a line without a dash.
   */
  function ParseLine(line: string): (r: Option<(string, string)>)
    ensures r.Some? <==> Find(line, "-", 0).Some?
    ensures r.Some? ==> NoDash(r.value.0) && NoDash(r.value.1) && r.value.0 + "-" + r.value.1 <= line
    ensures r.Some? ==>
      var i, n := Find(line, "-", 0).value, |r.value.1|;
      r.value.0 == line[..i] && (i + 1 + n == |line| || line[i + 1 + n] == '-')
  {
    var pieces := Split(line, "-");
    match Find(line, "-", 0)
    case None => None
    case Some(i) =>
      var rest := line[i + 1..];
      assert pieces == [line[..i]] + Split(rest, "-");
      NoDashBefore(line, i);
      FirstPiece(rest);
      assert line == line[..i] + "-" + rest;
      Some((pieces[0], pieces[1]))
  }

  /** The first piece of `split('-')` is the text before the first dash, or all of it. */
  lemma FirstPiece(s: string)
    ensures NoDash(Split(s, "-")[0]) && Split(s, "-")[0] <= s
    ensures |Split(s, "-")[0]| == |s| || s[|Split(s, "-")[0]|] == '-'
  {
    match Find(s, "-", 0)
    case None => NoDashBefore(s, |s|);
    case Some(k) =>
      NoDashBefore(s, k);
      assert s[k..k + 1] == "-";
  }

  /** The passages of the lines, or None if a line has no dash. */
  function Edges(lines: seq<string>): Option<seq<(string, string)>> {
    if lines == [] then Some([])
    else
      match Edges(lines[..|lines| - 1])
      case None => None
      case Some(es) =>
        match ParseLine(lines[|lines| - 1])
        case None => None
        case Some(e) => Some(es + [e])
  }

  /** Every line yields one passage, unless some line has no dash. */
  lemma {:induction false} EdgesExact(lines: seq<string>)
    ensures Edges(lines).None? <==> exists i :: 0 <= i < |lines| && ParseLine(lines[i]).None?
    ensures Edges(lines).Some? ==>
      (|Edges(lines).value| == |lines| &&
       forall i :: 0 <= i < |lines| ==> ParseLine(lines[i]) == Some(Edges(lines).value[i]))
  {
    if lines != [] {
      var init := lines[..|lines| - 1];
      EdgesExact(init);
      assert forall i :: 0 <= i < |init| ==> init[i] == lines[i];
    }
  }

  /** Reading one more line extends the passages by that line's passage, or fails with it. */
  lemma EdgesNext(lines: seq<string>, i: nat)
    requires i < |lines|
    ensures Edges(lines[..i + 1]) ==
      match Edges(lines[..i])
      case None => None
      case Some(es) =>
        match ParseLine(lines[i])
        case None => None
        case Some(e) => Some(es + [e])
  {
    assert lines[..i + 1][..i] == lines[..i];
  }

  /** A line without a dash makes the whole list fail. */
  lemma EdgesStuck(lines: seq<string>, i: nat)
    requires i < |lines| && ParseLine(lines[i]).None?
    ensures Edges(lines).None?
  {
    EdgesExact(lines);
  }

  /** Adds v at the end of k's list, making the list if k has none. */
  function Add(m: Map, k: string, v: string): (r: Map)
    ensures r.Keys == m.Keys + {k}
  {
    if k in m then m[k := m[k] + [v]] else m[k := [v]]
  }

  /** Some passage has k at one of its ends. */
  ghost predicate Named(edges: seq<(string, string)>, k: string) {
    exists i :: 0 <= i < |edges| && (edges[i].0 == k || edges[i].1 == k)
  }

  /** A cave is named by a list of passages with one more passage when the shorter list or the new passage names it. */
  lemma NamedSnoc(edges: seq<(string, string)>)
    requires edges != []
    ensures forall k :: Named(edges, k) <==>
      Named(edges[..|edges| - 1], k) || edges[|edges| - 1].0 == k || edges[|edges| - 1].1 == k
  {
    var init := edges[..|edges| - 1];
    assert forall i :: 0 <= i < |init| ==> init[i] == edges[i];
  }

  /**
   * The map `parse` builds: each passage a-b adds b to a's list and then a
   * to b's. Exactly the caves named by some passage get a list.
   */
  function Adjacency(edges: seq<(string, string)>): (r: Map)
    ensures forall k :: k in r <==> Named(edges, k)
  {
    if edges == [] then map[]
    else
      var init, e := edges[..|edges| - 1], edges[|edges| - 1];
      NamedSnoc(edges);
      Add(Add(Adjacency(init), e.0, e.1), e.1, e.0)
  }

  /** `parse`: read the passages one line at a time into the neighbour lists. */
  method Parse(lines: seq<string>) returns (r: Option<Map>)
    ensures Edges(lines).None? ==> r.None?
    ensures Edges(lines).Some? ==> r == Some(Adjacency(Edges(lines).value))
  {
    var m: Map := map[];
    for i := 0 to |lines|
      invariant Edges(lines[..i]).Some? && m == Adjacency(Edges(lines[..i]).value)
    {
      EdgesNext(lines, i);
      var e := ParseLine(lines[i]);
      if e.None? {
        EdgesStuck(lines, i);
        return None;
      }
      m := AddPassage(m, e.value.0, e.value.1);
    }
    assert lines[..|lines|] == lines;
    return Some(m);
  }

  /** The two `get_mut` matches of `parse`: `to` onto the list of `from`, then `from` onto the list of `to`. */
  method AddPassage(m0: Map, from: string, to: string) returns (m: Map)
    ensures m == Add(Add(m0, from, to), to, from)
  {
    m := m0;
    if from in m {
      m := m[from := m[from] + [to]];
    } else {
      m := m[from := [to]];
    }
    if to in m {
      m := m[to := m[to] + [from]];
    } else {
      m := m[to := [from]];
    }
  }

  /** How many of the passages are written a-b. */
  function Occurs(edges: seq<(string, string)>, a: string, b: string): nat {
    if edges == [] then 0
    else Occurs(edges[..|edges| - 1], a, b) + if edges[|edges| - 1] == (a, b) then 1 else 0
  }

  /** How often b is on a's list. */
  function Count(m: Map, a: string, b: string): nat {
    if a in m then multiset(m[a])[b] else 0
  }

  /** Adding v to k's list adds one to the count of v there and changes no other count. */
  lemma AddCount(m: Map, k: string, v: string, a: string, b: string)
    ensures Count(Add(m, k, v), a, b) == Count(m, a, b) + if (k, v) == (a, b) then 1 else 0
  {
    if a == k && k in m {
      assert multiset(m[k] + [v]) == multiset(m[k]) + multiset{v};
    }
  }

  /**
   * b is on a's list once for every passage written a-b and once for every
   * passage written b-a, so the lists are symmetric.
   */
  lemma {:induction false} AdjacencyCounts(edges: seq<(string, string)>, a: string, b: string)
    ensures Count(Adjacency(edges), a, b) == Occurs(edges, a, b) + Occurs(edges, b, a)
    ensures Count(Adjacency(edges), a, b) == Count(Adjacency(edges), b, a)
  {
    if edges != [] {
      var init := edges[..|edges| - 1];
      AdjacencyCounts(init, a, b);
      AdjacencyCounts(init, b, a);
      var e := edges[|edges| - 1];
      var m1 := Add(Adjacency(init), e.0, e.1);
      AddCount(Adjacency(init), e.0, e.1, a, b);
      AddCount(m1, e.1, e.0, a, b);
      AddCount(Adjacency(init), e.0, e.1, b, a);
      AddCount(m1, e.1, e.0, b, a);
    }
  }

  /** Every cave on a list has a list of its own, so the search never looks up a missing cave. */
  lemma AdjacencyClosed(edges: seq<(string, string)>, a: string, b: string)
    requires a in Adjacency(edges) && b in Adjacency(edges)[a]
    ensures b in Adjacency(edges)
  {
    AdjacencyCounts(edges, a, b);
    assert Count(Adjacency(edges), a, b) > 0;
  }

  // ---------------------------------------------------------------------------
  // Counting paths
  // ---------------------------------------------------------------------------

  /** `is_big_cave`: the name starts with an upper-case letter. */
  predicate IsBig(cave: string) {
    |cave| > 0 && 'A' <= cave[0] <= 'Z'
  }

  /**
   * What the search assumes of the map: no cave has an empty name (the
   * `unwrap` in `is_big_cave`), every neighbour has a list (the `unwrap`
   * after `map.get`), and no two big caves are joined, for otherwise a path
   * could bounce between them for ever.
   */
  predicate WellFormed(m: Map) {
    (forall a :: a in m ==> a != []) &&
    forall a, b :: a in m && b in m[a] ==> b in m && !(IsBig(a) && IsBig(b))
  }

  function Smalls(m: Map): set<string> {
    set c | c in m && !IsBig(c)
  }

  /**
   * Why the search ends: each step either enters a small cave not seen
   * before, or leaves a small cave for a big one, whose next step is to a
   * small cave.
   */
  function Measure(m: Map, from: string, seen: set<string>): nat {
    2 * |Smalls(m) - seen| + if IsBig(from) then 0 else 1
  }

  lemma SmallStep(m: Map, seen: set<string>, c: string)
    requires c in m && !IsBig(c) && c !in seen
    ensures |Smalls(m) - (seen + {c})| + 1 == |Smalls(m) - seen|
  {
    assert Smalls(m) - seen == (Smalls(m) - (seen + {c})) + {c};
  }

  /**
   * `count_paths`: 1 at "end", otherwise the sum over the neighbours not yet
   * seen. It adds one for each path that `Routes` lists.
   */
  function CountPaths(m: Map, from: string, seen: set<string>): (n: nat)
    requires WellFormed(m) && (from == "end" || from in m)
    ensures n == |Routes(m, from, seen)|
    decreases Measure(m, from, seen), 1
  {
    if from == "end" then 1 else SumPaths(m, from, m[from], seen)
  }

  /** The sum in `count_paths` over the neighbours cs of from. */
  function SumPaths(m: Map, from: string, cs: seq<string>, seen: set<string>): (n: nat)
    requires WellFormed(m) && from in m && from != "end" && forall c :: c in cs ==> c in m[from]
    ensures n == |RoutesVia(m, from, cs, seen)|
    decreases Measure(m, from, seen), 0, |cs|
  {
    if cs == [] then 0
    else
      var c := cs[0];
      assert c in m[from];
      (if c in seen then 0
       else if IsBig(c) then CountPaths(m, c, seen)
       else SmallStep(m, seen, c); CountPaths(m, c, seen + {c}))
      + SumPaths(m, from, cs[1..], seen)
  }

  /** The seen set after entering c: small caves are remembered, big ones are not. */
  function Enter(seen: set<string>, c: string): set<string> {
    if IsBig(c) then seen else seen + {c}
  }

  /**
   * p is a path the first part counts from `from`: it follows the lists to
   * "end" and stops there, enters no cave in `seen`, and enters no small
   * cave twice.
   */
  ghost predicate IsRoute(m: Map, from: string, seen: set<string>, p: seq<string>) {
    |p| > 0 && p[0] == from && p[|p| - 1] == "end" &&
    (forall i :: 0 <= i < |p| - 1 ==> p[i] != "end" && p[i] in m && p[i + 1] in m[p[i]]) &&
    (forall i :: 1 <= i < |p| ==> p[i] !in seen) &&
    (forall i, j :: 1 <= i < j < |p| && p[i] == p[j] ==> IsBig(p[i]))
  }

  /** A path of two or more caves is a first step and a path on from there. */
  lemma RouteTail(m: Map, from: string, seen: set<string>, p: seq<string>)
    requires |p| >= 2
    ensures IsRoute(m, from, seen, p) <==>
      p[0] == from && from != "end" && from in m && p[1] in m[from] && p[1] !in seen &&
      IsRoute(m, p[1], Enter(seen, p[1]), p[1..])
  {
    var tail := p[1..];
    if p[0] == from && from != "end" && from in m && p[1] in m[from] && p[1] !in seen &&
       IsRoute(m, p[1], Enter(seen, p[1]), tail) {
      forall i | 1 <= i < |p| ensures p[i] !in seen {
        if i > 1 {
          assert tail[i - 1] == p[i];
        }
      }
      forall i, j | 1 <= i < j < |p| && p[i] == p[j] ensures IsBig(p[i]) {
        if i > 1 {
          assert tail[i - 1] == p[i] && tail[j - 1] == p[j];
        } else {
          assert tail[j - 1] == p[j];
        }
      }
      forall i | 0 <= i < |p| - 1 ensures p[i] != "end" && p[i] in m && p[i + 1] in m[p[i]] {
        if i > 0 {
          assert tail[i - 1] == p[i] && tail[i] == p[i + 1];
        }
      }
    }
    if IsRoute(m, from, seen, p) {
      forall k | 1 <= k < |tail| ensures tail[k] !in Enter(seen, p[1]) {
        assert tail[k] == p[k + 1];
        assert p[k + 1] != p[1] || IsBig(p[1]);
      }
      forall k, l | 1 <= k < l < |tail| && tail[k] == tail[l] ensures IsBig(tail[k]) {
        assert tail[k] == p[k + 1] && tail[l] == p[l + 1];
      }
      forall k | 0 <= k < |tail| - 1 ensures tail[k] != "end" && tail[k] in m && tail[k + 1] in m[tail[k]] {
        assert tail[k] == p[k + 1] && tail[k + 1] == p[k + 2];
      }
    }
  }

  /** Puts `from` in front of each path. */
  function Prefix(from: string, ps: seq<seq<string>>): (r: seq<seq<string>>)
    ensures |r| == |ps|
    ensures forall i :: 0 <= i < |r| ==> r[i] == [from] + ps[i]
  {
    seq(|ps|, i requires 0 <= i < |ps| => [from] + ps[i])
  }

  /** The paths `count_paths` counts, one entry for each 1 it adds up. */
  ghost function Routes(m: Map, from: string, seen: set<string>): seq<seq<string>>
    requires WellFormed(m) && (from == "end" || from in m)
    decreases Measure(m, from, seen), 1
  {
    if from == "end" then [["end"]] else RoutesVia(m, from, m[from], seen)
  }

  ghost function RoutesVia(m: Map, from: string, cs: seq<string>, seen: set<string>): seq<seq<string>>
    requires WellFormed(m) && from in m && from != "end" && forall c :: c in cs ==> c in m[from]
    decreases Measure(m, from, seen), 0, |cs|
  {
    if cs == [] then []
    else
      var c := cs[0];
      assert c in m[from];
      (if c in seen then []
       else if IsBig(c) then Prefix(from, Routes(m, c, seen))
       else SmallStep(m, seen, c); Prefix(from, Routes(m, c, seen + {c})))
      + RoutesVia(m, from, cs[1..], seen)
  }

  /** The listed paths are exactly the paths the first part allows. */
  lemma {:induction false} RoutesExact(m: Map, from: string, seen: set<string>, p: seq<string>)
    requires WellFormed(m) && (from == "end" || from in m)
    ensures p in Routes(m, from, seen) <==> IsRoute(m, from, seen, p)
    decreases Measure(m, from, seen), 1
  {
    if from == "end" {
      if |p| >= 2 {
        RouteTail(m, from, seen, p);
      } else if |p| == 1 {
        assert p == [p[0]];
      }
    } else {
      RoutesViaExact(m, from, m[from], seen, p);
      if |p| >= 2 {
        RouteTail(m, from, seen, p);
      }
    }
  }

  lemma {:induction false} RoutesViaExact(m: Map, from: string, cs: seq<string>, seen: set<string>, p: seq<string>)
    requires WellFormed(m) && from in m && from != "end" && forall c :: c in cs ==> c in m[from]
    ensures p in RoutesVia(m, from, cs, seen) <==> |p| >= 2 && p[1] in cs && IsRoute(m, from, seen, p)
    decreases Measure(m, from, seen), 0, |cs|
  {
    if cs != [] {
      var c := cs[0];
      assert c in m[from];
      var rest := cs[1..];
      RoutesViaExact(m, from, rest, seen, p);
      HeadRoutes(m, from, c, seen, p);
      assert forall x :: x in cs <==> x == c || x in rest;
    }
  }

  /** The paths listed for the neighbour c are the allowed paths whose second cave is c. */
  lemma {:induction false} HeadRoutes(m: Map, from: string, c: string, seen: set<string>, p: seq<string>)
    requires WellFormed(m) && from in m && from != "end" && c in m[from]
    ensures p in (if c in seen then [] else Prefix(from, Routes(m, c, Enter(seen, c)))) <==>
      |p| >= 2 && p[1] == c && IsRoute(m, from, seen, p)
    decreases Measure(m, from, seen), 0, 0
  {
    if c !in seen {
      if !IsBig(c) {
        SmallStep(m, seen, c);
      }
      var inner := Routes(m, c, Enter(seen, c));
      if |p| >= 1 && p[0] == from {
        PrefixMember(from, p, inner);
        RoutesExact(m, c, Enter(seen, c), p[1..]);
        if |p| >= 2 {
          RouteTail(m, from, seen, p);
        }
      } else {
        assert forall k :: 0 <= k < |inner| ==> Prefix(from, inner)[k][0] == from;
      }
    }
  }

  lemma PrefixMember(from: string, p: seq<string>, ps: seq<seq<string>>)
    requires |p| >= 1 && p[0] == from
    ensures p in Prefix(from, ps) <==> p[1..] in ps
  {
    if p[1..] in ps {
      var k :| 0 <= k < |ps| && ps[k] == p[1..];
      assert Prefix(from, ps)[k] == p;
    }
  }

  lemma PrefixDistinct(from: string, ps: seq<seq<string>>)
    requires Distinct(ps)
    ensures Distinct(Prefix(from, ps))
  {
    forall i, j | 0 <= i < j < |ps| ensures Prefix(from, ps)[i] != Prefix(from, ps)[j] {
      assert Prefix(from, ps)[i][1..] == ps[i] && Prefix(from, ps)[j][1..] == ps[j];
    }
  }

  predicate Distinct<T(==)>(s: seq<T>) {
    forall i, j :: 0 <= i < j < |s| ==> s[i] != s[j]
  }

  lemma DistinctAppend<T>(a: seq<T>, b: seq<T>)
    requires Distinct(a) && Distinct(b) && forall x :: x in a ==> x !in b
    ensures Distinct(a + b)
  {
    forall i, j | 0 <= i < j < |a + b| ensures (a + b)[i] != (a + b)[j] {
      if i < |a| && j >= |a| {
        assert (a + b)[i] in a && (a + b)[j] == b[j - |a|];
      }
    }
  }

  /** No neighbour is listed twice, as when no passage is written twice. */
  predicate SimpleLists(m: Map) {
    forall a :: a in m ==> Distinct(m[a])
  }

  /** With no passage written twice, no path is listed twice, so `count_paths` counts paths. */
  lemma {:induction false} RoutesDistinct(m: Map, from: string, seen: set<string>)
    requires WellFormed(m) && SimpleLists(m) && (from == "end" || from in m)
    ensures Distinct(Routes(m, from, seen))
    decreases Measure(m, from, seen), 1
  {
    if from != "end" {
      RoutesViaDistinct(m, from, m[from], seen);
    }
  }

  lemma {:induction false} RoutesViaDistinct(m: Map, from: string, cs: seq<string>, seen: set<string>)
    requires WellFormed(m) && SimpleLists(m) && from in m && from != "end" && forall c :: c in cs ==> c in m[from]
    requires Distinct(cs)
    ensures Distinct(RoutesVia(m, from, cs, seen))
    decreases Measure(m, from, seen), 0, |cs|
  {
    if cs != [] {
      var c := cs[0];
      assert c in m[from];
      var rest := cs[1..];
      RoutesViaDistinct(m, from, rest, seen);
      if c !in seen {
        var inner := Routes(m, c, Enter(seen, c));
        if IsBig(c) {
          RoutesDistinct(m, c, seen);
        } else {
          SmallStep(m, seen, c);
          RoutesDistinct(m, c, seen + {c});
        }
        var first := Prefix(from, inner);
        PrefixDistinct(from, inner);
        assert c !in rest by {
          forall k | 0 <= k < |rest| ensures rest[k] != c {
            assert rest[k] == cs[k + 1];
          }
        }
        forall x | x in first ensures x !in RoutesVia(m, from, rest, seen) {
          var k :| 0 <= k < |first| && first[k] == x;
          RoutesExact(m, c, Enter(seen, c), inner[k]);
          assert inner[k] in inner;
          assert x[1] == c;
          RoutesViaExact(m, from, rest, seen, x);
        }
        DistinctAppend(first, RoutesVia(m, from, rest, seen));
      }
    }
  }

  /**
   * `q1`: the number `count_paths` returns from "start", with "start" seen,
   * is the number of paths the first part allows, each listed once.
   */
  lemma FirstPartCountsPaths(m: Map)
    requires WellFormed(m) && SimpleLists(m) && "start" in m
    ensures CountPaths(m, "start", {"start"}) == |Routes(m, "start", {"start"})|
    ensures forall p :: p in Routes(m, "start", {"start"}) <==> IsRoute(m, "start", {"start"}, p)
    ensures Distinct(Routes(m, "start", {"start"}))
  {
    RoutesDistinct(m, "start", {"start"});
    forall p ensures p in Routes(m, "start", {"start"}) <==> IsRoute(m, "start", {"start"}, p) {
      RoutesExact(m, "start", {"start"}, p);
    }
  }

  // ---------------------------------------------------------------------------
  // count_paths_double
  // ---------------------------------------------------------------------------

  /**
   * `count_paths_double`: like `count_paths`, but "start" is never entered
   * again, and one small cave already seen may be entered once more, which
   * uses up `double`. With "start" seen, once the revisit is used up it
   * counts what `count_paths` counts, and while it is unused never fewer.
   */
  function CountPathsDouble(m: Map, from: string, seen: set<string>, double: Option<string>): (n: nat)
    requires WellFormed(m) && (from == "end" || from in m)
    ensures "start" in seen && OnlySmalls(seen) ==>
      (double.Some? ==> n == CountPaths(m, from, seen)) && (double.None? ==> n >= CountPaths(m, from, seen))
    decreases if double.None? then 1 else 0, Measure(m, from, seen), 1
  {
    if from == "end" then 1 else SumPathsDouble(m, from, m[from], seen, double)
  }

  function SumPathsDouble(m: Map, from: string, cs: seq<string>, seen: set<string>, double: Option<string>): (n: nat)
    requires WellFormed(m) && from in m && from != "end" && forall c :: c in cs ==> c in m[from]
    ensures "start" in seen && OnlySmalls(seen) ==>
      (double.Some? ==> n == SumPaths(m, from, cs, seen)) && (double.None? ==> n >= SumPaths(m, from, cs, seen))
    decreases if double.None? then 1 else 0, Measure(m, from, seen), 0, |cs|
  {
    if cs == [] then 0
    else
      var c := cs[0];
      assert c in m[from];
      (if c == "start" then 0
       else if IsBig(c) then CountPathsDouble(m, c, seen, double)
       else if c in seen then
         match double
         case Some(_) => 0
         case None => CountPathsDouble(m, c, seen, Some(c))
       else SmallStep(m, seen, c); CountPathsDouble(m, c, seen + {c}, double))
      + SumPathsDouble(m, from, cs[1..], seen, double)
  }

  /** Only small caves are ever put in the seen set. */
  predicate OnlySmalls(seen: set<string>) {
    forall s :: s in seen ==> !IsBig(s)
  }
}
