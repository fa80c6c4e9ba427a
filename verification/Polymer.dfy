/**
 * Pair insertion (src/day14.rs): `apply_rules` grows a polymer by inserting,
 * between every adjacent pair that has a rule, the rule's element; `count`,
 * `add` and `add_all` keep per-element counts in a map; `count_num_output`
 * counts what a pair grows into after a number of steps without building the
 * polymer, memoising its answers, and `q2` assembles the counts of a whole
 * polymer from its pairs.
 *
 * The source's `HashMap`s are Dafny maps; `count_num_output` receives them as
 * `&mut` and here takes them in and hands the updated maps back.
 */
module Polymer {
  /** Pair-insertion rules: the element inserted between the two of a pair. */
  type Rules = map<(char, char), char>

  /** Element counts; a missing key counts as zero. */
  type Counts = map<char, nat>

  /** The memo of `count_num_output`: (first, second, steps) to the counts that pair adds. */
  type Cache = map<(char, char, nat), Counts>

  // ---------------------------------------------------------------------------
  // apply_rules
  // ---------------------------------------------------------------------------

  /** What goes between a and b: the rule's element if the pair has a rule, else nothing. */
  function Inserted(rules: Rules, a: char, b: char): (s: string)
    ensures |s| <= 1
  {
    if (a, b) in rules then [rules[(a, b)]] else []
  }

  /** One step of pair insertion on a non-empty polymer. */
  function Apply(rules: Rules, s: string): (r: string)
    requires |s| > 0
    ensures |r| >= |s|
    decreases |s|
  {
    if |s| == 1 then s
    else [s[0]] + Inserted(rules, s[0], s[1]) + Apply(rules, s[1..])
  }

  /** Insertion keeps the first and the last element. */
  lemma {:induction false} ApplyEnds(rules: Rules, s: string)
    requires |s| > 0
    ensures Apply(rules, s)[0] == s[0]
    ensures Apply(rules, s)[|Apply(rules, s)| - 1] == s[|s| - 1]
    decreases |s|
  {
    if |s| > 1 {
      ApplyEnds(rules, s[1..]);
    }
  }

  /** The number of adjacent pairs of s that have a rule. */
  function Matches(rules: Rules, s: string): nat
    decreases |s|
  {
    if |s| < 2 then 0
    else (if (s[0], s[1]) in rules then 1 else 0) + Matches(rules, s[1..])
  }

  /** `apply_rules`: push each element and, after it, the element its pair inserts; then the last element. */
  method ApplyRules(rules: Rules, input: string) returns (output: string)
    requires |input| > 0
    ensures output == Apply(rules, input)
  {
    output := [];
    for i := 0 to |input| - 1
      invariant output + Apply(rules, input[i..]) == Apply(rules, input)
    {
      ApplyStep(rules, input, i, output);
      output := output + [input[i]];
      if (input[i], input[i + 1]) in rules {
        output := output + [rules[(input[i], input[i + 1])]];
      }
    }
    ApplyLast(rules, input);
    output := output + [input[|input| - 1]];
  }

  lemma ApplyLast(rules: Rules, input: string)
    requires |input| > 0
    ensures Apply(rules, input[|input| - 1..]) == [input[|input| - 1]]
  {
    assert input[|input| - 1..] == [input[|input| - 1]];
  }

  /** Apply on a suffix of length two or more, unfolded once, after any prefix. */
  lemma ApplyStep(rules: Rules, input: string, i: nat, prefix: string)
    requires i + 1 < |input|
    ensures prefix + [input[i]] + Inserted(rules, input[i], input[i + 1]) + Apply(rules, input[i + 1..])
         == prefix + Apply(rules, input[i..])
    ensures prefix + [input[i]] + [] == prefix + [input[i]]
  {
    assert input[i..][1..] == input[i + 1..];
  }

  /** The polymer grows by exactly one element per adjacent pair that has a rule. */
  lemma {:induction false} ApplyLength(rules: Rules, s: string)
    requires |s| > 0
    ensures |Apply(rules, s)| == |s| + Matches(rules, s)
    decreases |s|
  {
    if |s| > 1 {
      ApplyLength(rules, s[1..]);
    }
  }

  /**
   * Every element of the input stays, in order: element i lands after the
   * i elements before it and the elements inserted among them, and the rule's
   * element for the pair (s[i], s[i+1]) comes right after it.
   */
  lemma {:induction false} ApplyPositions(rules: Rules, s: string, i: nat)
    requires i < |s|
    ensures var p := i + Matches(rules, s[..i + 1]);
      p < |Apply(rules, s)| && Apply(rules, s)[p] == s[i] &&
      (i + 1 < |s| && (s[i], s[i + 1]) in rules ==> p + 1 < |Apply(rules, s)| && Apply(rules, s)[p + 1] == rules[(s[i], s[i + 1])])
    decreases |s|
  {
    if i > 0 {
      var t := s[1..];
      ApplyPositions(rules, t, i - 1);
      assert s[..i + 1][1..] == t[..i];
      assert Apply(rules, s) == [s[0]] + Inserted(rules, s[0], s[1]) + Apply(rules, t);
    }
  }

  // ---------------------------------------------------------------------------
  // Polymers spliced at a shared element
  // ---------------------------------------------------------------------------

  /** u followed by v, where v starts with the element u ends with, which is written once. */
  function Join(u: string, v: string): (r: string)
    requires |v| > 0
    ensures |r| == |u| + |v| - 1
  {
    u + v[1..]
  }

  /** All elements but the last. */
  function Body(s: string): (r: string)
    requires |s| > 0
    ensures |r| == |s| - 1
  {
    s[..|s| - 1]
  }

  /** `steps` applications of pair insertion. */
  function Iterate(rules: Rules, s: string, steps: nat): (r: string)
    requires |s| > 0
    ensures |r| >= |s|
    decreases steps
  {
    if steps == 0 then s else Iterate(rules, Apply(rules, s), steps - 1)
  }

  /** A single element has no pair, so it never grows. */
  lemma {:induction false} IterateSingle(rules: Rules, c: char, steps: nat)
    ensures Iterate(rules, [c], steps) == [c]
    decreases steps
  {
    if steps > 0 {
      IterateSingle(rules, c, steps - 1);
    }
  }

  lemma {:induction false} IterateEnds(rules: Rules, s: string, steps: nat)
    requires |s| > 0
    ensures Iterate(rules, s, steps)[0] == s[0]
    ensures Iterate(rules, s, steps)[|Iterate(rules, s, steps)| - 1] == s[|s| - 1]
    decreases steps
  {
    if steps > 0 {
      ApplyEnds(rules, s);
      IterateEnds(rules, Apply(rules, s), steps - 1);
    }
  }

  /** Insertion treats the two sides of a shared element independently. */
  lemma {:induction false} ApplyJoin(rules: Rules, u: string, v: string)
    requires |u| > 0 && |v| > 0 && u[|u| - 1] == v[0]
    ensures Apply(rules, Join(u, v)) == Join(Apply(rules, u), Apply(rules, v))
    decreases |u|
  {
    if |u| == 1 {
      assert Join(u, v) == v;
      ApplyEnds(rules, v);
      assert Apply(rules, v) == [v[0]] + Apply(rules, v)[1..];
    } else {
      var w := Join(u, v);
      assert w[0] == u[0] && w[1] == u[1];
      assert w[1..] == Join(u[1..], v);
      ApplyJoin(rules, u[1..], v);
    }
  }

  lemma {:induction false} IterateJoin(rules: Rules, u: string, v: string, steps: nat)
    requires |u| > 0 && |v| > 0 && u[|u| - 1] == v[0]
    ensures Iterate(rules, Join(u, v), steps) == Join(Iterate(rules, u, steps), Iterate(rules, v, steps))
    decreases steps
  {
    if steps > 0 {
      var a, b := Apply(rules, u), Apply(rules, v);
      ApplyJoin(rules, u, v);
      ApplyEnds(rules, u);
      ApplyEnds(rules, v);
      IterateJoin(rules, a, b, steps - 1);
      assert Iterate(rules, Join(u, v), steps) == Iterate(rules, Join(a, b), steps - 1);
    }
  }

  lemma BodyJoin(u: string, v: string)
    requires |u| > 0 && |v| > 0 && u[|u| - 1] == v[0]
    ensures Body(Join(u, v)) == Body(u) + Body(v)
  {
    assert Join(u, v) == Body(u) + v;
  }

  // ---------------------------------------------------------------------------
  // count, add, add_all
  // ---------------------------------------------------------------------------

  function Get(counts: Counts, c: char): nat {
    if c in counts then counts[c] else 0
  }

  /** `add`: raise the count of c by value. */
  function Add(counts: Counts, c: char, value: nat): (r: Counts)
    ensures Get(r, c) == Get(counts, c) + value
    ensures forall k :: k != c ==> Get(r, k) == Get(counts, k)
    ensures r.Keys == counts.Keys + {c}
  {
    counts[c := Get(counts, c) + value]
  }

  /** The pointwise sum of two count maps. */
  function Merge(a: Counts, b: Counts): (r: Counts)
    ensures forall k :: Get(r, k) == Get(a, k) + Get(b, k)
    ensures r.Keys == a.Keys + b.Keys
  {
    map k | k in a.Keys + b.Keys :: Get(a, k) + Get(b, k)
  }

  /** The entries of `from` whose keys are in `keys`. */
  function Restrict(from: Counts, keys: set<char>): (r: Counts)
    ensures r.Keys == from.Keys * keys
  {
    map k | k in from.Keys * keys :: from[k]
  }

  /** Two count maps with the same keys and the same count for every element are equal. */
  lemma SameCounts(m1: Counts, m2: Counts)
    requires m1.Keys == m2.Keys
    requires forall k :: Get(m1, k) == Get(m2, k)
    ensures m1 == m2
  {
    forall k | k in m1
      ensures m1[k] == m2[k]
    {
      assert Get(m1, k) == Get(m2, k);
    }
  }

  /** The sum of all counts. */
  ghost function Total(counts: Counts): nat
    decreases |counts|
  {
    if counts == map[] then 0
    else
      var k :| k in counts;
      counts[k] + Total(counts - {k})
  }

  /** The total is the same whichever key is taken out first. */
  lemma {:induction false} TotalRemove(counts: Counts, k: char)
    requires k in counts
    ensures Total(counts) == counts[k] + Total(counts - {k})
    decreases |counts|
  {
    var j :| j in counts && Total(counts) == counts[j] + Total(counts - {j});
    if j != k {
      var rest := counts - {j};
      assert |rest| < |counts| by {
        assert rest.Keys < counts.Keys;
      }
      TotalRemove(rest, k);
      var without := counts - {k};
      assert |without| < |counts| by {
        assert without.Keys < counts.Keys;
      }
      TotalRemove(without, j);
      assert rest - {k} == without - {j};
    }
  }

  lemma TotalAdd(counts: Counts, c: char, value: nat)
    ensures Total(Add(counts, c, value)) == Total(counts) + value
  {
    var r := Add(counts, c, value);
    TotalRemove(r, c);
    if c in counts {
      TotalRemove(counts, c);
      assert r - {c} == counts - {c};
    } else {
      assert r - {c} == counts;
    }
  }

  /** Merging in b is merging in b without k, then adding b's count of k. */
  lemma MergeAdd(a: Counts, b: Counts, k: char)
    requires k in b
    ensures Merge(a, b) == Add(Merge(a, b - {k}), k, b[k])
  {
    SameCounts(Merge(a, b), Add(Merge(a, b - {k}), k, b[k]));
  }

  /** Merging adds the totals. */
  lemma {:induction false} TotalMerge(a: Counts, b: Counts)
    ensures Total(Merge(a, b)) == Total(a) + Total(b)
    decreases |b|
  {
    if b == map[] {
      SameCounts(Merge(a, b), a);
    } else {
      var k :| k in b;
      var rest := b - {k};
      assert |rest| < |b| by {
        assert rest.Keys < b.Keys;
      }
      TotalMerge(a, rest);
      TotalRemove(b, k);
      MergeAdd(a, b, k);
      TotalAdd(Merge(a, rest), k, b[k]);
    }
  }

  /** `add_all`: add every entry of `from`, one key at a time, in no particular order. */
  method AddAll(counts: Counts, from: Counts) returns (r: Counts)
    ensures r == Merge(counts, from)
  {
    r := counts;
    var todo := from.Keys;
    while todo != {}
      invariant todo <= from.Keys
      invariant r == Merge(counts, Restrict(from, from.Keys - todo))
      decreases todo
    {
      var k :| k in todo;
      AddAllStep(counts, from, todo, k);
      r := Add(r, k, from[k]);
      todo := todo - {k};
    }
    SameCounts(Restrict(from, from.Keys - {}), from);
  }

  /** One more key of `from` done is one more Add. */
  lemma AddAllStep(counts: Counts, from: Counts, todo: set<char>, k: char)
    requires k in todo && todo <= from.Keys
    ensures Merge(counts, Restrict(from, from.Keys - (todo - {k})))
         == Add(Merge(counts, Restrict(from, from.Keys - todo)), k, from[k])
  {
    SameCounts(Merge(counts, Restrict(from, from.Keys - (todo - {k}))),
               Add(Merge(counts, Restrict(from, from.Keys - todo)), k, from[k]));
  }

  /** `count`: every element's number of occurrences, keyed by the elements that occur. */
  method Count(list: string) returns (counts: Counts)
    ensures forall c :: Get(counts, c) == multiset(list)[c]
    ensures forall c :: c in counts <==> c in list
    ensures Total(counts) == |list|
  {
    counts := map[];
    for i := 0 to |list|
      invariant forall c :: Get(counts, c) == multiset(list[..i])[c]
      invariant forall c :: c in counts <==> c in list[..i]
      invariant Total(counts) == i
    {
      assert list[..i + 1] == list[..i] + [list[i]];
      TotalAdd(counts, list[i], 1);
      counts := Add(counts, list[i], 1);
    }
    assert list[..|list|] == list;
  }

  // ---------------------------------------------------------------------------
  // count_num_output and the assembly of q2
  // ---------------------------------------------------------------------------

  /**
   * What `count_num_output` adds for the pair (c0, c1) after `steps` steps,
   * computed without the memo: c0 alone when no step is left or the pair has
   * no rule, otherwise the counts of (c0, x) and of (x, c1) one step fewer.
   * The count of k is its number of occurrences in the polymer the pair
   * grows into, without its last element (c1, which the next pair counts).
   */
  function PairCounts(rules: Rules, c0: char, c1: char, steps: nat): Counts
    decreases steps
  {
    if steps == 0 || (c0, c1) !in rules then
      map[c0 := 1]
    else
      var x := rules[(c0, c1)];
      Merge(PairCounts(rules, c0, x, steps - 1), PairCounts(rules, x, c1, steps - 1))
  }

  /**
   * The count PairCounts gives k is the number of times k occurs in the
   * polymer the pair (c0, c1) grows into, without its last element.
   */
  lemma {:induction false} PairCountsGrown(rules: Rules, c0: char, c1: char, steps: nat, k: char)
    ensures Get(PairCounts(rules, c0, c1, steps), k) == multiset(Body(Iterate(rules, [c0, c1], steps)))[k]
    decreases steps
  {
    if steps == 0 || (c0, c1) !in rules {
      StaysCounted(rules, c0, c1, steps, k);
    } else {
      var x := rules[(c0, c1)];
      var left, right := PairCounts(rules, c0, x, steps - 1), PairCounts(rules, x, c1, steps - 1);
      assert PairCounts(rules, c0, c1, steps) == Merge(left, right);
      PairCountsGrown(rules, c0, x, steps - 1, k);
      PairCountsGrown(rules, x, c1, steps - 1, k);
      GrownHalves(rules, c0, c1, steps, k);
    }
  }

  /** A pair that does not grow counts its first element once. */
  lemma StaysCounted(rules: Rules, c0: char, c1: char, steps: nat, k: char)
    requires steps == 0 || (c0, c1) !in rules
    ensures Get(PairCounts(rules, c0, c1, steps), k) == multiset(Body(Iterate(rules, [c0, c1], steps)))[k]
  {
    NoRuleStays(rules, c0, c1, steps);
    assert Body([c0, c1]) == [c0];
  }

  /** The occurrences of k in what a pair with a rule grows into are those in its two halves. */
  lemma GrownHalves(rules: Rules, c0: char, c1: char, steps: nat, k: char)
    requires steps > 0 && (c0, c1) in rules
    ensures var x := rules[(c0, c1)];
      multiset(Body(Iterate(rules, [c0, c1], steps)))[k]
      == multiset(Body(Iterate(rules, [c0, x], steps - 1)))[k] + multiset(Body(Iterate(rules, [x, c1], steps - 1)))[k]
  {
    GrownSplit(rules, c0, c1, steps);
  }

  /** A pair without a rule, or with no step left, does not grow. */
  lemma {:induction false} NoRuleStays(rules: Rules, c0: char, c1: char, steps: nat)
    requires steps == 0 || (c0, c1) !in rules
    ensures Iterate(rules, [c0, c1], steps) == [c0, c1]
    decreases steps
  {
    if steps > 0 {
      assert Apply(rules, [c0, c1]) == [c0, c1];
      NoRuleStays(rules, c0, c1, steps - 1);
    }
  }

  /** A pair with a rule grows into what its two halves grow into, spliced at the inserted element. */
  lemma GrownSplit(rules: Rules, c0: char, c1: char, steps: nat)
    requires steps > 0 && (c0, c1) in rules
    ensures var x := rules[(c0, c1)];
      Body(Iterate(rules, [c0, c1], steps)) == Body(Iterate(rules, [c0, x], steps - 1)) + Body(Iterate(rules, [x, c1], steps - 1))
  {
    var x := rules[(c0, c1)];
    assert Apply(rules, [c0, c1]) == Join([c0, x], [x, c1]);
    IterateJoin(rules, [c0, x], [x, c1], steps - 1);
    IterateEnds(rules, [c0, x], steps - 1);
    IterateEnds(rules, [x, c1], steps - 1);
    BodyJoin(Iterate(rules, [c0, x], steps - 1), Iterate(rules, [x, c1], steps - 1));
  }

  /** Every memo entry holds what the uncached computation adds for its key. */
  predicate CacheSound(rules: Rules, cache: Cache) {
    forall key :: key in cache ==> cache[key] == PairCounts(rules, key.0, key.1, key.2)
  }

  /** Recording the uncached answer keeps the memo sound. */
  lemma CacheRecord(rules: Rules, cache: Cache, key: (char, char, nat), counts: Counts)
    requires CacheSound(rules, cache)
    requires counts == PairCounts(rules, key.0, key.1, key.2)
    ensures CacheSound(rules, cache[key := counts])
  {
  }

  lemma MergeEmpty(a: Counts)
    ensures Merge(map[], a) == a
  {
    SameCounts(Merge(map[], a), a);
  }

  /**
   * `count_num_output`: add to `total` the counts of what (c0, c1) grows
   * into in `steps` steps, without its last element, from the memo when it
   * has the answer, and record the answer in the memo otherwise.
   */
  method CountNumOutput(rules: Rules, cache: Cache, c0: char, c1: char, steps: nat, total: Counts)
    returns (cache': Cache, total': Counts)
    requires CacheSound(rules, cache)
    ensures CacheSound(rules, cache')
    ensures total' == Merge(total, PairCounts(rules, c0, c1, steps))
    decreases steps, 1
  {
    if steps == 0 {
      SameCounts(Add(total, c0, 1), Merge(total, map[c0 := 1]));
      return cache, Add(total, c0, 1);
    }
    if (c0, c1, steps) in cache {
      total' := AddAll(total, cache[(c0, c1, steps)]);
      return cache, total';
    }
    var newCounts: Counts;
    cache', newCounts := CountFresh(rules, cache, c0, c1, steps);
    total' := AddAll(total, newCounts);
    CacheRecord(rules, cache', (c0, c1, steps), newCounts);
    cache' := cache'[(c0, c1, steps) := newCounts];
  }

  /** The counts of a pair the memo does not hold yet, from a fresh map, as `count_num_output` builds them. */
  method CountFresh(rules: Rules, cache: Cache, c0: char, c1: char, steps: nat)
    returns (cache': Cache, newCounts: Counts)
    requires CacheSound(rules, cache) && steps > 0
    ensures CacheSound(rules, cache')
    ensures newCounts == PairCounts(rules, c0, c1, steps)
    decreases steps, 0
  {
    newCounts := map[];
    cache' := cache;
    if (c0, c1) in rules {
      var x := rules[(c0, c1)];
      ghost var left, right := PairCounts(rules, c0, x, steps - 1), PairCounts(rules, x, c1, steps - 1);
      cache', newCounts := CountNumOutput(rules, cache', c0, x, steps - 1, newCounts);
      MergeEmpty(left);
      cache', newCounts := CountNumOutput(rules, cache', x, c1, steps - 1, newCounts);
      assert newCounts == Merge(left, right);
      assert newCounts == PairCounts(rules, c0, c1, steps);
    } else {
      newCounts := newCounts[c0 := 1];
      assert newCounts == PairCounts(rules, c0, c1, steps);
    }
  }

  /**
   * The count assembly of `q2` (which runs it for 40 steps): the last element
   * once, then every adjacent pair through `count_num_output` with one shared
   * memo. The result counts every element of the polymer after `steps`
   * steps, as `count` does on the polymer that `apply_rules` builds.
   */
  method PolymerCounts(rules: Rules, input: string, steps: nat) returns (counts: Counts)
    requires |input| > 0
    ensures forall k :: Get(counts, k) == multiset(Iterate(rules, input, steps))[k]
  {
    var cache: Cache := map[];
    counts := map[input[|input| - 1] := 1];
    CountsFirst(rules, input, steps);
    for i := 0 to |input| - 1
      invariant CacheSound(rules, cache)
      invariant CountsUpTo(rules, input, i, steps, counts)
    {
      var before := counts;
      cache, counts := CountNumOutput(rules, cache, input[i], input[i + 1], steps, counts);
      CountsNext(rules, input, i, steps, before);
    }
    CountsAll(rules, input, steps, counts);
  }

  /**
   * The loop invariant of PolymerCounts: `counts` holds the polymer grown
   * from the first i + 1 elements, without its last element, plus the last
   * element of the whole input once.
   */
  predicate CountsUpTo(rules: Rules, input: string, i: nat, steps: nat, counts: Counts)
    requires i < |input|
  {
    forall k :: Get(counts, k) == multiset(Body(Iterate(rules, input[..i + 1], steps)))[k]
                                  + (if k == input[|input| - 1] then 1 else 0)
  }

  lemma CountsFirst(rules: Rules, input: string, steps: nat)
    requires |input| > 0
    ensures CountsUpTo(rules, input, 0, steps, map[input[|input| - 1] := 1])
  {
    IterateSingle(rules, input[0], steps);
    assert input[..1] == [input[0]];
  }

  /** Adding the counts of the next pair extends the invariant by one element. */
  lemma CountsNext(rules: Rules, input: string, i: nat, steps: nat, before: Counts)
    requires i + 1 < |input|
    requires CountsUpTo(rules, input, i, steps, before)
    ensures CountsUpTo(rules, input, i + 1, steps, Merge(before, PairCounts(rules, input[i], input[i + 1], steps)))
  {
    var after := Merge(before, PairCounts(rules, input[i], input[i + 1], steps));
    PairStep(rules, input, i, steps);
    var counts, grown := PairCounts(rules, input[i], input[i + 1], steps), Body(Iterate(rules, [input[i], input[i + 1]], steps));
    forall k: char ensures Get(counts, k) == multiset(grown)[k] {
      PairCountsGrown(rules, input[i], input[i + 1], steps, k);
    }
  }

  lemma CountsAll(rules: Rules, input: string, steps: nat, counts: Counts)
    requires |input| > 0
    requires CountsUpTo(rules, input, |input| - 1, steps, counts)
    ensures forall k :: Get(counts, k) == multiset(Iterate(rules, input, steps))[k]
  {
    assert input[..|input|] == input;
    IterateEnds(rules, input, steps);
    BodyLast(Iterate(rules, input, steps));
  }

  /** A string is its body and its last element. */
  lemma BodyLast(s: string)
    requires |s| > 0
    ensures multiset(s) == multiset(Body(s)) + multiset{s[|s| - 1]}
  {
    assert s == Body(s) + [s[|s| - 1]];
  }

  /** Growing one more pair of the input appends what that pair grows into. */
  lemma PairStep(rules: Rules, input: string, i: nat, steps: nat)
    requires i + 1 < |input|
    ensures Body(Iterate(rules, input[..i + 2], steps))
         == Body(Iterate(rules, input[..i + 1], steps)) + Body(Iterate(rules, [input[i], input[i + 1]], steps))
  {
    var u, v := input[..i + 1], [input[i], input[i + 1]];
    assert input[..i + 2] == Join(u, v);
    IterateJoin(rules, u, v, steps);
    IterateEnds(rules, u, steps);
    IterateEnds(rules, v, steps);
    BodyJoin(Iterate(rules, u, steps), Iterate(rules, v, steps));
  }
}
