/**
 * Seven-segment search (src/day08.rs): each display shows the ten digit
 * patterns with its segment wires scrambled, then four output words. The
 * patterns are resolved digit by digit: 1, 7, 4 and 8 by their length;
 * 0, 3 and 9 as the patterns that contain both segments of 1, told apart by
 * how many of their segments 3 lacks; 2, 5 and 6 from what is left, by how
 * many segments 9 lacks. An output word then decodes to the one resolved
 * digit whose pattern has the same length and all of its segments.
 */
module SevenSegment {
  import opened Wrappers
  import opened Text

  /** One input line: the ten patterns and the four output words. */
  datatype Entry = Entry(patterns: seq<string>, outputs: seq<string>)

  /**
   * `Code::from_str`: the words before the first " | " are the patterns,
   * and the first four words of the text after it, up to the next " | " if
   * any, are the outputs. None where the source panics: no " | " on the
   * line, or fewer than four words after it.
   */
  function ParseEntry(s: string): (r: Option<Entry>)
    ensures Find(s, " | ", 0).None? ==> r.None?
    ensures r.Some? ==> Find(s, " | ", 0).Some? && r.value.patterns == SplitWhitespace(s[..Find(s, " | ", 0).value])
    ensures Find(s, " | ", 0).Some? ==>
      var words := SplitWhitespace(Split(s[Find(s, " | ", 0).value + 3..], " | ")[0]);
      (r.Some? <==> |words| >= 4) && (r.Some? ==> r.value.outputs == words[..4])
    ensures r.Some? ==> |r.value.outputs| == 4 && forall k :: 0 <= k < 4 ==> |r.value.outputs[k]| > 0
  {
    var pieces := Split(s, " | ");
    if |pieces| < 2 then None
    else
      var words := SplitWhitespace(pieces[1]);
      if |words| < 4 then None
      else Some(Entry(SplitWhitespace(pieces[0]), words[..4]))
  }

  // ---------------------------------------------------------------------
  // Filters over the pattern lists (the iterator chains of the source)
  // ---------------------------------------------------------------------

  /** The digit a pattern length gives away: 2 segments is 1, 3 is 7, 4 is 4, 7 is 8. */
  function DigitOfLength(n: nat): (d: Option<nat>)
    ensures d.Some? ==> d.value < 10
  {
    if n == 2 then Some(1) else if n == 3 then Some(7) else if n == 4 then Some(4) else if n == 7 then Some(8) else None
  }

  /** The pattern length of the digits that `resolve_1478` recognises. */
  function LengthOfDigit(d: nat): Option<nat> {
    if d == 1 then Some(2) else if d == 7 then Some(3) else if d == 4 then Some(4) else if d == 8 then Some(7) else None
  }

  /** The last pattern of the list with n segments. */
  function LastOfLength(us: seq<string>, n: nat): (r: Option<string>)
    ensures r.Some? ==> r.value in us && |r.value| == n
    ensures r.None? ==> forall u :: u in us ==> |u| != n
  {
    if us == [] then None
    else if |us[|us| - 1]| == n then Some(us[|us| - 1])
    else LastOfLength(us[..|us| - 1], n)
  }

  /** The first pattern of the list with n segments (`iter().find`). */
  function FirstOfLength(us: seq<string>, n: nat): (r: Option<string>)
    ensures r.Some? ==> r.value in us && |r.value| == n
    ensures r.None? ==> forall u :: u in us ==> |u| != n
  {
    if us == [] then None
    else if |us[0]| == n then Some(us[0])
    else FirstOfLength(us[1..], n)
  }

  /** The pattern has both segments of `cf` (the pattern of 1). */
  predicate HasBoth(x: string, cf: string)
    requires |cf| >= 2
  {
    cf[0] in x && cf[1] in x
  }

  /** The patterns that have both segments of 1, in order. */
  function WithBoth(us: seq<string>, cf: string): (r: seq<string>)
    requires |cf| >= 2
    ensures forall x :: x in r <==> x in us && HasBoth(x, cf)
  {
    if us == [] then []
    else WithBoth(us[..|us| - 1], cf) + (if HasBoth(us[|us| - 1], cf) then [us[|us| - 1]] else [])
  }

  /** The patterns not among the resolved ones, in order. */
  function Unresolved(us: seq<string>, resolved: seq<string>): (r: seq<string>)
    ensures forall x :: x in r <==> x in us && x !in resolved
  {
    if us == [] then []
    else Unresolved(us[..|us| - 1], resolved) + (if us[|us| - 1] in resolved then [] else [us[|us| - 1]])
  }

  /** The patterns other than `six`, in order. */
  function Without(us: seq<string>, six: string): (r: seq<string>)
    ensures forall x :: x in r <==> x in us && x != six
  {
    if us == [] then []
    else Without(us[..|us| - 1], six) + (if us[|us| - 1] == six then [] else [us[|us| - 1]])
  }

  /** The number of characters of x (with repeats) that `reference` does not contain. */
  function Diff<T(==)>(x: seq<T>, reference: seq<T>): (n: nat)
    ensures n <= |x|
  {
    if x == [] then 0 else (if x[0] in reference then 0 else 1) + Diff(x[1..], reference)
  }

  /**
   * The `map` of `resolve_039` and `resolve_256`: each pattern paired with the
   * digit the table gives for its Diff against the reference pattern (the
   * table's length is where the source hits `unreachable!`).
   */
  function Classify(xs: seq<string>, reference: string, table: seq<nat>): (r: seq<(string, nat)>)
    requires forall x :: x in xs ==> Diff(x, reference) < |table|
    ensures |r| == |xs|
    ensures forall i :: 0 <= i < |r| ==> r[i].0 == xs[i] && r[i].1 == table[Diff(xs[i], reference)]
  {
    seq(|xs|, i requires 0 <= i < |xs| => (xs[i], table[Diff(xs[i], reference)]))
  }

  /** The `for_each` that stores each resolved pattern under its digit, in order. */
  function Place(ks: seq<Option<string>>, placed: seq<(string, nat)>): (r: seq<Option<string>>)
    requires forall i :: 0 <= i < |placed| ==> placed[i].1 < |ks|
    ensures |r| == |ks|
  {
    if placed == [] then ks
    else
      var last := placed[|placed| - 1];
      Place(ks, placed[..|placed| - 1])[last.1 := Some(last.0)]
  }

  /** The last pattern placed to digit d. */
  function LastPlaced(placed: seq<(string, nat)>, d: nat): (r: Option<string>)
    ensures r.Some? ==> exists i :: 0 <= i < |placed| && placed[i] == (r.value, d)
    ensures r.None? ==> forall i :: 0 <= i < |placed| ==> placed[i].1 != d
  {
    if placed == [] then None
    else if placed[|placed| - 1].1 == d then Some(placed[|placed| - 1].0)
    else LastPlaced(placed[..|placed| - 1], d)
  }

  /** Placing leaves in each slot the last pattern placed to it, and untouched slots as they were. */
  lemma {:induction false} PlaceLast(ks: seq<Option<string>>, placed: seq<(string, nat)>, d: nat)
    requires forall i :: 0 <= i < |placed| ==> placed[i].1 < |ks|
    requires d < |ks|
    ensures Place(ks, placed)[d] == if LastPlaced(placed, d).Some? then LastPlaced(placed, d) else ks[d]
  {
    if placed != [] {
      PlaceLast(ks, placed[..|placed| - 1], d);
    }
  }

  // ---------------------------------------------------------------------
  // The three resolution steps on values
  // ---------------------------------------------------------------------

  /** `resolve_1478` on values: the recognised patterns are stored, the others kept in order. */
  function SortByLength(us: seq<string>, ks: seq<Option<string>>): (r: (seq<string>, seq<Option<string>>))
    requires |ks| == 10
    ensures |r.1| == 10
  {
    if us == [] then ([], ks)
    else
      var prev := SortByLength(us[..|us| - 1], ks);
      var u := us[|us| - 1];
      match DigitOfLength(|u|)
      case Some(d) => (prev.0, prev.1[d := Some(u)])
      case None => (prev.0 + [u], prev.1)
  }

  lemma DigitLength(n: nat, d: nat)
    ensures DigitOfLength(n) == Some(d) <==> LengthOfDigit(d) == Some(n)
  {
  }

  /**
   * After `resolve_1478`, the patterns of length 2, 3, 4 and 7 are gone from
   * the unknowns and the others stay; digits 1, 7, 4 and 8 hold the last
   * pattern of their length (if any), and every other digit is unchanged.
   */
  lemma {:induction false} SortByLengthFacts(us: seq<string>, ks: seq<Option<string>>)
    requires |ks| == 10
    ensures forall u :: u in SortByLength(us, ks).0 <==> u in us && DigitOfLength(|u|).None?
    ensures forall d :: 0 <= d < 10 ==>
      (SortByLength(us, ks).1[d] ==
       if LengthOfDigit(d).Some? && LastOfLength(us, LengthOfDigit(d).value).Some? then LastOfLength(us, LengthOfDigit(d).value) else ks[d])
  {
    if us != [] {
      var init := us[..|us| - 1];
      var u := us[|us| - 1];
      SortByLengthFacts(init, ks);
      assert us == init + [u];
      forall d | 0 <= d < 10
        ensures SortByLength(us, ks).1[d] ==
          if LengthOfDigit(d).Some? && LastOfLength(us, LengthOfDigit(d).value).Some? then LastOfLength(us, LengthOfDigit(d).value) else ks[d]
      {
        DigitLength(|u|, d);
      }
    }
  }

  /** What `resolve_039` needs: digit 1 resolved, a length-5 pattern among those with its segments, and every Diff at most 2. */
  predicate Can039(us: seq<string>, ks: seq<Option<string>>) {
    |ks| == 10 && ks[1].Some? && |ks[1].value| >= 2 &&
    var withCf := WithBoth(us, ks[1].value);
    FirstOfLength(withCf, 5).Some? &&
    forall x :: x in withCf ==> Diff(x, FirstOfLength(withCf, 5).value) < 3
  }

  /** `resolve_039` on values. */
  function After039(us: seq<string>, ks: seq<Option<string>>): (r: (seq<string>, seq<Option<string>>))
    requires Can039(us, ks)
    ensures |r.1| == 10
  {
    var withCf := WithBoth(us, ks[1].value);
    var three := FirstOfLength(withCf, 5).value;
    (Unresolved(us, withCf), Place(ks, Classify(withCf, three, [3, 9, 0])))
  }

  /** What `resolve_256` needs: digit 9 resolved, a length-6 unknown, and every other unknown lacking at most one segment of 9. */
  predicate Can256(us: seq<string>, ks: seq<Option<string>>) {
    |ks| == 10 && ks[9].Some? && FirstOfLength(us, 6).Some? &&
    forall x :: x in Without(us, FirstOfLength(us, 6).value) ==> Diff(x, ks[9].value) < 2
  }

  /** `resolve_256` on values. */
  function After256(us: seq<string>, ks: seq<Option<string>>): (r: (seq<string>, seq<Option<string>>))
    requires Can256(us, ks)
    ensures |r.1| == 10
  {
    var six := FirstOfLength(us, 6).value;
    ([], Place(ks, Classify(Without(us, six), ks[9].value, [5, 2]))[6 := Some(six)])
  }

  /** The three steps of `resolve` can run one after the other without reaching a panic. */
  predicate Resolvable(us: seq<string>, ks: seq<Option<string>>)
    requires |ks| == 10
  {
    var r1 := SortByLength(us, ks);
    Can039(r1.0, r1.1) &&
    var r2 := After039(r1.0, r1.1);
    Can256(r2.0, r2.1)
  }

  /** The knowns once `resolve` has run its three steps. */
  function Resolution(us: seq<string>, ks: seq<Option<string>>): (r: seq<Option<string>>)
    requires |ks| == 10 && Resolvable(us, ks)
    ensures |r| == 10
  {
    var r1 := SortByLength(us, ks);
    var r2 := After039(r1.0, r1.1);
    After256(r2.0, r2.1).1
  }

  // ---------------------------------------------------------------------
  // Decoding an output word
  // ---------------------------------------------------------------------

  /** Digit i is resolved to a pattern of the word's length holding all of the word's segments. */
  predicate Fits(ks: seq<Option<string>>, i: nat, e: string)
    requires i < |ks|
  {
    ks[i].Some? && |ks[i].value| == |e| && Covers(ks[i].value, e)
  }

  /** Every segment of e is lit in p. */
  predicate Covers(p: string, e: string) {
    forall c :: c in e ==> c in p
  }

  /** A word is covered when its first segment is and the rest of it is. */
  lemma CoversCons(p: string, e: string)
    requires e != []
    ensures Covers(p, e) <==> e[0] in p && Covers(p, e[1..])
  {
    assert forall c :: c in e <==> c == e[0] || c in e[1..] by {
      assert e == [e[0]] + e[1..];
    }
  }

  /** Appending a number above every element keeps a list increasing. */
  lemma AppendLarger(s: seq<nat>, x: nat)
    requires Increasing(s) && forall y :: y in s ==> y < x
    ensures Increasing(s + [x])
    ensures forall i :: i in s + [x] <==> i in s || i == x
  {
    forall a, b | 0 <= a < b < |s| + 1 ensures (s + [x])[a] < (s + [x])[b] {
      if b == |s| {
        assert s[a] in s;
      }
    }
  }

  predicate Increasing(s: seq<nat>) {
    forall a, b :: 0 <= a < b < |s| ==> s[a] < s[b]
  }

  /** Every option names a resolved digit. */
  predicate Resolved(ks: seq<Option<string>>, opts: seq<nat>) {
    forall k :: 0 <= k < |opts| ==> opts[k] < |ks| && ks[opts[k]].Some?
  }

  /** Digit i is resolved to a pattern of n segments. */
  predicate Sized(ks: seq<Option<string>>, i: nat, n: nat)
    requires i < |ks|
  {
    ks[i].Some? && |ks[i].value| == n
  }

  /** The first `filter`s of `try_decoding`: the resolved digits below hi whose pattern has n segments. */
  function Initial(ks: seq<Option<string>>, n: nat, hi: nat): (r: seq<nat>)
    requires hi <= |ks|
    ensures Resolved(ks, r)
  {
    if hi == 0 then []
    else Initial(ks, n, hi - 1) + (if Sized(ks, hi - 1, n) then [hi - 1] else [])
  }

  /** One pass of the character loop: keep the options whose pattern contains c. */
  function KeepWith(ks: seq<Option<string>>, opts: seq<nat>, c: char): (r: seq<nat>)
    requires Resolved(ks, opts)
    ensures Resolved(ks, r)
  {
    if opts == [] then []
    else
      var last := opts[|opts| - 1];
      KeepWith(ks, opts[..|opts| - 1], c) + (if c in ks[last].value then [last] else [])
  }

  /** The character loop: one pass per character of the word, in order. */
  function Refine(ks: seq<Option<string>>, opts: seq<nat>, e: string): (r: seq<nat>)
    requires Resolved(ks, opts)
    ensures Resolved(ks, r)
    decreases |e|
  {
    if e == [] then opts else Refine(ks, KeepWith(ks, opts, e[0]), e[1..])
  }

  /** The options left once every character has been checked. */
  function Matches(ks: seq<Option<string>>, e: string): seq<nat> {
    Refine(ks, Initial(ks, |e|, |ks|), e)
  }

  /**
   * `try_decoding` on values: the digit when exactly one option is left. A
   * word decodes to digit i exactly when i is the one resolved digit that
   * fits it.
   */
  function Decode(ks: seq<Option<string>>, e: string): (r: Option<nat>)
    ensures r.Some? ==> OnlyFit(ks, r.value, e)
    ensures forall i: nat :: OnlyFit(ks, i, e) ==> r == Some(i)
  {
    MatchesExactlyOne(ks, e);
    var m := Matches(ks, e);
    if |m| == 1 then Some(m[0]) else None
  }

  /** The first filters keep exactly the resolved digits below hi with n segments. */
  lemma {:induction false} InitialMembers(ks: seq<Option<string>>, n: nat, hi: nat)
    requires hi <= |ks|
    ensures forall i: nat :: i in Initial(ks, n, hi) <==> i < hi && Sized(ks, i, n)
  {
    if hi > 0 {
      InitialMembers(ks, n, hi - 1);
    }
  }

  /** ... and list them in increasing order. */
  lemma {:induction false} InitialIncreasing(ks: seq<Option<string>>, n: nat, hi: nat)
    requires hi <= |ks|
    ensures Increasing(Initial(ks, n, hi))
  {
    if hi > 0 {
      InitialIncreasing(ks, n, hi - 1);
      if Sized(ks, hi - 1, n) {
        InitialMembers(ks, n, hi - 1);
        AppendLarger(Initial(ks, n, hi - 1), hi - 1);
      }
    }
  }

  lemma {:induction false} KeepWithFacts(ks: seq<Option<string>>, opts: seq<nat>, c: char)
    requires Resolved(ks, opts) && Increasing(opts)
    ensures Increasing(KeepWith(ks, opts, c))
    ensures forall i :: i in KeepWith(ks, opts, c) <==> i in opts && c in ks[i].value
  {
    if opts != [] {
      var init, last := opts[..|opts| - 1], opts[|opts| - 1];
      assert opts == init + [last];
      assert Increasing(init);
      KeepWithFacts(ks, init, c);
      var prev := KeepWith(ks, init, c);
      forall i | i in init ensures i < last {
        var k :| 0 <= k < |init| && init[k] == i;
      }
      if c in ks[last].value {
        AppendLarger(prev, last);
      } else {
        assert KeepWith(ks, opts, c) == prev + [];
      }
    }
  }

  lemma {:induction false} RefineFacts(ks: seq<Option<string>>, opts: seq<nat>, e: string)
    requires Resolved(ks, opts) && Increasing(opts)
    ensures Increasing(Refine(ks, opts, e))
    ensures forall i :: i in Refine(ks, opts, e) <==> i in opts && Covers(ks[i].value, e)
    decreases |e|
  {
    if e != [] {
      var kept := KeepWith(ks, opts, e[0]);
      KeepWithFacts(ks, opts, e[0]);
      RefineFacts(ks, kept, e[1..]);
      forall i | i in opts ensures Covers(ks[i].value, e) <==> e[0] in ks[i].value && Covers(ks[i].value, e[1..]) {
        CoversCons(ks[i].value, e);
      }
    }
  }

  /** The options left are exactly the digits that fit the word, in increasing order. */
  lemma MatchesFacts(ks: seq<Option<string>>, e: string)
    ensures Increasing(Matches(ks, e))
    ensures forall i: nat :: i in Matches(ks, e) <==> i < |ks| && Fits(ks, i, e)
  {
    InitialMembers(ks, |e|, |ks|);
    InitialIncreasing(ks, |e|, |ks|);
    RefineFacts(ks, Initial(ks, |e|, |ks|), e);
  }

  /** An increasing list of naturals climbs by at least one per element. */
  lemma {:induction false} IncreasingSpread(m: seq<nat>)
    requires Increasing(m) && |m| > 0
    ensures m[|m| - 1] >= m[0] + |m| - 1
  {
    if |m| > 1 {
      var init := m[..|m| - 1];
      assert Increasing(init);
      IncreasingSpread(init);
      assert m[|m| - 2] < m[|m| - 1];
    }
  }

  /** An increasing list that holds i and nothing else is [i]. */
  lemma OnlyOne(m: seq<nat>, i: nat)
    requires Increasing(m) && i in m
    requires forall x :: x in m ==> x == i
    ensures m == [i]
  {
    assert m[0] in m && m[|m| - 1] in m;
    IncreasingSpread(m);
  }

  /** Digit i is resolved and fits the word, and no other resolved digit does. */
  predicate OnlyFit(ks: seq<Option<string>>, i: nat, e: string) {
    i < |ks| && Fits(ks, i, e) && forall j :: 0 <= j < |ks| && j != i ==> !Fits(ks, j, e)
  }

  /** A single option is left, and it is i, exactly when i is the one resolved digit that fits the word. */
  lemma MatchesExactlyOne(ks: seq<Option<string>>, e: string)
    ensures |Matches(ks, e)| == 1 ==> OnlyFit(ks, Matches(ks, e)[0], e)
    ensures forall i: nat :: OnlyFit(ks, i, e) ==> Matches(ks, e) == [i]
  {
    var m := Matches(ks, e);
    MatchesFacts(ks, e);
    if |m| == 1 {
      assert m[0] in m;
    }
    forall i: nat | OnlyFit(ks, i, e)
      ensures m == [i]
    {
      assert forall x :: x in m ==> x == i;
      OnlyOne(m, i);
    }
  }

  /** The number of outputs that decode (`num_parsed`), at most one per word. */
  function CountDecoded(ks: seq<Option<string>>, outputs: seq<string>): (n: nat)
    ensures n <= |outputs|
  {
    if outputs == [] then 0
    else CountDecoded(ks, outputs[..|outputs| - 1]) + (if Decode(ks, outputs[|outputs| - 1]).Some? then 1 else 0)
  }

  /** Every output decodes. */
  predicate AllDecode(ks: seq<Option<string>>, outputs: seq<string>) {
    forall k :: 0 <= k < |outputs| ==> Decode(ks, outputs[k]).Some?
  }

  /** CountDecoded reaches the number of outputs exactly when every output decodes. */
  lemma {:induction false} CountDecodedAll(ks: seq<Option<string>>, outputs: seq<string>)
    ensures CountDecoded(ks, outputs) == |outputs| <==> AllDecode(ks, outputs)
  {
    if outputs != [] {
      var init := outputs[..|outputs| - 1];
      CountDecodedAll(ks, init);
      AllDecodeSnoc(ks, outputs);
    }
  }

  /** All outputs decode when all but the last do and the last does too. */
  lemma AllDecodeSnoc(ks: seq<Option<string>>, outputs: seq<string>)
    requires outputs != []
    ensures AllDecode(ks, outputs) <==>
      AllDecode(ks, outputs[..|outputs| - 1]) && Decode(ks, outputs[|outputs| - 1]).Some?
  {
    var init := outputs[..|outputs| - 1];
    assert forall k :: 0 <= k < |init| ==> init[k] == outputs[k];
  }

  /** The four digits read as a decimal number (`decode_input`). */
  function Reading(d0: nat, d1: nat, d2: nat, d3: nat): nat {
    d0 * 1000 + d1 * 100 + d2 * 10 + d3
  }

  /** The digits can be read back from the number: it is their decimal representation. */
  lemma ReadingDigits(d0: nat, d1: nat, d2: nat, d3: nat)
    requires d0 < 10 && d1 < 10 && d2 < 10 && d3 < 10
    ensures Reading(d0, d1, d2, d3) < 10000
    ensures Reading(d0, d1, d2, d3) / 1000 == d0 && Reading(d0, d1, d2, d3) / 100 % 10 == d1
    ensures Reading(d0, d1, d2, d3) / 10 % 10 == d2 && Reading(d0, d1, d2, d3) % 10 == d3
  {
    var v := Reading(d0, d1, d2, d3);
    var low3, low2 := d1 * 100 + d2 * 10 + d3, d2 * 10 + d3;
    assert v == 1000 * d0 + low3 && low3 < 1000;
    assert v / 100 == 10 * d0 + d1 && v % 100 == low2;
    assert v / 10 == 100 * d0 + 10 * d1 + d2 && v % 10 == d3;
  }

  /** A display: its remaining unknown patterns, the patterns resolved so far, and the four outputs. */
  class Code {
    var unknowns: seq<string>
    const knowns: array<Option<string>>
    const input: seq<string>

    ghost predicate Valid()
      reads this
    {
      knowns.Length == 10 && |input| == 4
    }

    /** `Code::from_str` once the line is split: nothing is resolved yet. */
    constructor (e: Entry)
      requires |e.outputs| == 4
      ensures Valid() && fresh(knowns)
      ensures unknowns == e.patterns && input == e.outputs
      ensures forall d :: 0 <= d < 10 ==> knowns[d] == None
    {
      unknowns := e.patterns;
      knowns := new Option<string>[10](_ => None);
      input := e.outputs;
    }

    /** `resolve_1478`: the filter whose closure stores each pattern of length 2, 3, 4 or 7. */
    method Resolve1478()
      requires Valid()
      modifies this, knowns
      ensures Valid()
      ensures (unknowns, knowns[..]) == SortByLength(old(unknowns), old(knowns[..]))
    {
      var removed := unknowns;
      var kept := [];
      for i := 0 to |removed|
        invariant (kept, knowns[..]) == SortByLength(removed[..i], old(knowns[..]))
      {
        assert removed[..i + 1][..i] == removed[..i];
        var u := removed[i];
        match |u|
        case 2 => knowns[1] := Some(u);
        case 3 => knowns[7] := Some(u);
        case 4 => knowns[4] := Some(u);
        case 7 => knowns[8] := Some(u);
        case _ => kept := kept + [u];
      }
      assert removed[..|removed|] == removed;
      unknowns := kept;
    }

    /** `resolve_039`: 3 is the length-5 pattern with both segments of 1; 0 and 9 by what 3 lacks. */
    method Resolve039()
      requires Valid() && Can039(unknowns, knowns[..])
      modifies this, knowns
      ensures Valid()
      ensures (unknowns, knowns[..]) == After039(old(unknowns), old(knowns[..]))
    {
      ghost var ks := knowns[..];
      var us := unknowns;
      var cf := knowns[1].value;
      assert cf == ks[1].value;
      var withCf := WithBoth(us, cf);
      var three := FirstOfLength(withCf, 5).value;
      var resolved := Classify(withCf, three, [3, 9, 0]);
      assert forall i :: 0 <= i < |resolved| ==> resolved[i].1 < 10;
      for i := 0 to |resolved|
        invariant knowns[..] == Place(old(knowns[..]), resolved[..i])
      {
        assert resolved[..i + 1][..i] == resolved[..i];
        knowns[resolved[i].1] := Some(resolved[i].0);
      }
      assert resolved[..|resolved|] == resolved;
      assert knowns[..] == Place(ks, resolved);
      unknowns := Unresolved(us, withCf);
      assert After039(us, ks) == (Unresolved(us, withCf), Place(ks, resolved));
    }

    /** `resolve_256`: 6 is the first length-6 unknown; 5 and 2 by what 9 lacks. */
    method Resolve256()
      requires Valid() && Can256(unknowns, knowns[..])
      modifies this, knowns
      ensures Valid()
      ensures (unknowns, knowns[..]) == After256(old(unknowns), old(knowns[..]))
    {
      var six := FirstOfLength(unknowns, 6).value;
      var nine := knowns[9].value;
      var resolved := Classify(Without(unknowns, six), nine, [5, 2]);
      assert forall i :: 0 <= i < |resolved| ==> resolved[i].1 < 10;
      for i := 0 to |resolved|
        invariant knowns[..] == Place(old(knowns[..]), resolved[..i])
      {
        assert resolved[..i + 1][..i] == resolved[..i];
        knowns[resolved[i].1] := Some(resolved[i].0);
      }
      assert resolved[..|resolved|] == resolved;
      knowns[6] := Some(six);
      unknowns := [];
    }

    /** `resolve`: the three steps in order; every pattern is then resolved. */
    method Resolve()
      requires Valid() && Resolvable(unknowns, knowns[..])
      modifies this, knowns
      ensures Valid()
      ensures unknowns == [] && knowns[..] == Resolution(old(unknowns), old(knowns[..]))
    {
      Resolve1478();
      Resolve039();
      Resolve256();
    }

    /** `try_decoding`: narrow the options character by character; a digit only if one is left. */
    method TryDecoding(encoded: string) returns (r: Option<nat>)
      requires Valid()
      ensures r == Decode(knowns[..], encoded)
    {
      var ks := knowns[..];
      var options := Initial(ks, |encoded|, 10);
      for j := 0 to |encoded|
        invariant Resolved(ks, options)
        invariant Refine(ks, options, encoded[j..]) == Matches(ks, encoded)
      {
        assert encoded[j..][1..] == encoded[j + 1..];
        options := KeepWith(ks, options, encoded[j]);
      }
      r := if |options| == 1 then Some(options[0]) else None;
    }

    /** `num_parsed`. */
    function NumParsed(): (n: nat)
      requires Valid()
      reads this, knowns
      ensures n <= 4
    {
      CountDecoded(knowns[..], input)
    }

    /** `decode_input`: every output must decode (`unwrap`). */
    function DecodeInput(): (n: nat)
      requires Valid()
      requires forall k :: 0 <= k < 4 ==> Decode(knowns[..], input[k]).Some?
      reads this, knowns
    {
      var ks := knowns[..];
      Reading(Decode(ks, input[0]).value, Decode(ks, input[1]).value, Decode(ks, input[2]).value, Decode(ks, input[3]).value)
    }
  }
}
