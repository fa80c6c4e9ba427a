/**
 * Syntax scoring of bracket lines (src/day10.rs): a stack matcher that either
 * stops at the first closer that does not match the innermost open bracket
 * (a corrupted line) or reaches the end with brackets still open (an
 * incomplete line); the penalty of corrupted lines; and the completion score
 * of the brackets left open, of which `q2` takes the middle one.
 */
module Syntax {
  import opened Sorting
  import opened Wrappers

  predicate IsOpener(c: char) {
    c == '(' || c == '[' || c == '{' || c == '<'
  }

  predicate IsCloser(c: char) {
    c == ')' || c == ']' || c == '}' || c == '>'
  }

  /** The opener a closer must match. */
  function OpenerOf(c: char): (o: char)
    requires IsCloser(c)
    ensures IsOpener(o)
  {
    match c
    case ')' => '('
    case ']' => '['
    case '}' => '{'
    case '>' => '<'
  }

  /** The closer that matches an opener. */
  function CloserOf(o: char): (c: char)
    requires IsOpener(o)
    ensures IsCloser(c) && OpenerOf(c) == o
  {
    match o
    case '(' => ')'
    case '[' => ']'
    case '{' => '}'
    case '<' => '>'
  }

  /**
   * How a line ends: at a closer that does not match, with the brackets still
   * open (the innermost last), or at a point where the source panics (a closer
   * with nothing open, or a character that is not a bracket).
   */
  datatype Outcome = Corrupted(closer: char) | Incomplete(stack: seq<char>) | Panicked

  /**
   * The matcher, from the given stack of open brackets on. Only openers are
   * ever pushed, and a line is corrupted only at a closer.
   */
  function Scan(line: string, stack: seq<char>): (r: Outcome)
    ensures AllOpeners(stack) && r.Incomplete? ==> AllOpeners(r.stack)
    ensures r.Corrupted? ==> IsCloser(r.closer)
    decreases |line|
  {
    if line == [] then Incomplete(stack)
    else
      var c := line[0];
      if IsOpener(c) then Scan(line[1..], stack + [c])
      else if !IsCloser(c) || stack == [] then Panicked
      else if stack[|stack| - 1] != OpenerOf(c) then Corrupted(c)
      else Scan(line[1..], stack[..|stack| - 1])
  }

  predicate AllOpeners(stack: seq<char>) {
    forall i :: 0 <= i < |stack| ==> IsOpener(stack[i])
  }

  /** Scanning a concatenation scans the second part from wherever the first left the stack. */
  lemma {:induction false} ScanAppend(a: string, b: string, stack: seq<char>)
    ensures Scan(a + b, stack) == (if Scan(a, stack).Incomplete? then Scan(b, Scan(a, stack).stack) else Scan(a, stack))
    decreases |a|
  {
    if a == [] {
      assert a + b == b;
    } else {
      assert (a + b)[0] == a[0] && (a + b)[1..] == a[1..] + b;
      var c := a[0];
      if IsOpener(c) {
        ScanAppend(a[1..], b, stack + [c]);
      } else if IsCloser(c) && stack != [] && stack[|stack| - 1] == OpenerOf(c) {
        ScanAppend(a[1..], b, stack[..|stack| - 1]);
      }
    }
  }

  /** The closers that complete a stack, innermost first. */
  function Closing(stack: seq<char>): (s: string)
    requires AllOpeners(stack)
    ensures |s| == |stack|
  {
    if stack == [] then []
    else [CloserOf(stack[|stack| - 1])] + Closing(stack[..|stack| - 1])
  }

  /** Appending the closers of the open brackets balances the stack. */
  lemma {:induction false} ClosingCloses(stack: seq<char>)
    requires AllOpeners(stack)
    ensures Scan(Closing(stack), stack) == Incomplete([])
    decreases |stack|
  {
    if stack != [] {
      var c := CloserOf(stack[|stack| - 1]);
      assert Closing(stack)[0] == c;
      assert Closing(stack)[1..] == Closing(stack[..|stack| - 1]);
      ClosingCloses(stack[..|stack| - 1]);
    }
  }

  /**
   * The stack an incomplete line leaves is exactly what it lacks: the line
   * followed by the closers of its stack is balanced.
   */
  lemma IncompleteCompletes(line: string)
    requires Scan(line, []).Incomplete?
    ensures AllOpeners(Scan(line, []).stack)
    ensures Scan(line + Closing(Scan(line, []).stack), []) == Incomplete([])
  {
    var stack := Scan(line, []).stack;
    ScanAppend(line, Closing(stack), []);
    ClosingCloses(stack);
  }

  // ---------------------------------------------------------------------------
  // The matcher loop
  // ---------------------------------------------------------------------------

  /**
   * The inner loop of `q1` and `q2`: push openers, pop on closers, stop at the
   * first mismatch. The source panics where Scan says Panicked, so the caller
   * must exclude that.
   */
  method ScanLine(line: string) returns (outcome: Outcome)
    requires Scan(line, []) != Panicked
    ensures outcome == Scan(line, [])
  {
    var stack: seq<char> := [];
    for i := 0 to |line|
      invariant Scan(line[i..], stack) == Scan(line, [])
    {
      var c := line[i];
      assert line[i..][1..] == line[i + 1..];
      if IsOpener(c) {
        stack := stack + [c];
      } else if IsCloser(c) {
        var top := stack[|stack| - 1];
        stack := stack[..|stack| - 1];
        if top != OpenerOf(c) {
          return Corrupted(c);
        }
      } else {
        assert false;
      }
    }
    assert line[|line|..] == [];
    return Incomplete(stack);
  }

  // ---------------------------------------------------------------------------
  // q1: the penalty of corrupted lines
  // ---------------------------------------------------------------------------

  /** The penalty of the first mismatched closer; each closer has its own. */
  function Penalty(closer: char): (p: nat)
    ensures IsCloser(closer) ==> PenaltyOf(p) == Some(closer)
  {
    match closer
    case ')' => 3
    case ']' => 57
    case '}' => 1197
    case _ => 25137
  }

  /** The closer a penalty belongs to, read back from the table. */
  function PenaltyOf(p: nat): Option<char> {
    if p == 3 then Some(')')
    else if p == 57 then Some(']')
    else if p == 1197 then Some('}')
    else if p == 25137 then Some('>')
    else None
  }

  /** A line's penalty: that of its corrupting closer, nothing for any other line. */
  function LinePenalty(line: string): (p: nat)
    ensures p > 0 <==> Scan(line, []).Corrupted?
    ensures p in {0, 3, 57, 1197, 25137}
  {
    if Scan(line, []).Corrupted? then Penalty(Scan(line, []).closer) else 0
  }

  function TotalPenalty(lines: seq<string>): nat {
    if lines == [] then 0 else TotalPenalty(lines[..|lines| - 1]) + LinePenalty(lines[|lines| - 1])
  }

  predicate NoPanic(lines: seq<string>) {
    forall i :: 0 <= i < |lines| ==> Scan(lines[i], []) != Panicked
  }

  /** `q1`: the sum, over the lines, of the penalty of each corrupted line. */
  method SyntaxErrorScore(lines: seq<string>) returns (score: nat)
    requires NoPanic(lines)
    ensures score == TotalPenalty(lines)
  {
    score := 0;
    for i := 0 to |lines|
      invariant score == TotalPenalty(lines[..i])
    {
      assert lines[..i + 1][..i] == lines[..i];
      var outcome := ScanLine(lines[i]);
      match outcome
      case Corrupted(c) =>
        score := score + Penalty(c);
      case _ =>
    }
    assert lines[..|lines|] == lines;
  }

  /** Only corrupted lines are penalised, each once, by at most 25137. */
  lemma {:induction false} TotalPenaltyBound(lines: seq<string>)
    ensures TotalPenalty(lines) <= 25137 * |lines|
    ensures TotalPenalty(lines) == 0 <==> forall i :: 0 <= i < |lines| ==> !Scan(lines[i], []).Corrupted?
    decreases |lines|
  {
    if lines != [] {
      var init := lines[..|lines| - 1];
      TotalPenaltyBound(init);
      assert forall i :: 0 <= i < |init| ==> init[i] == lines[i];
    }
  }

  // ---------------------------------------------------------------------------
  // q2: completion scores
  // ---------------------------------------------------------------------------

  /** What closing one open bracket adds to a completion score. */
  function Value(o: char): (v: nat)
    requires IsOpener(o)
    ensures 1 <= v <= 4
  {
    match o
    case '(' => 1
    case '[' => 2
    case '{' => 3
    case '<' => 4
  }

  /**
   * The completion score: the stack read from the top, each bracket
   * multiplying the score so far by 5 and adding its value. The bottom
   * bracket is therefore the last digit of a base-5 numeral, whose digits
   * are 1 to 4: n open brackets score a number of exactly n base-5 digits.
   */
  function Score(stack: seq<char>): (score: nat)
    requires AllOpeners(stack)
    ensures score < Pow5(|stack|)
    ensures stack != [] ==> Pow5(|stack| - 1) <= score
  {
    if stack == [] then 0 else 5 * Score(stack[1..]) + Value(stack[0])
  }

  function Pow5(n: nat): (p: nat)
    ensures p >= 1
  {
    if n == 0 then 1 else 5 * Pow5(n - 1)
  }

  /** Different open stacks never share a completion score: the digits 1 to 4 read it back. */
  lemma {:induction false} ScoreInjective(s: seq<char>, t: seq<char>)
    requires AllOpeners(s) && AllOpeners(t)
    requires Score(s) == Score(t)
    ensures s == t
    decreases |s|
  {
    if s != [] && t != [] {
      var a, b := Score(s[1..]), Score(t[1..]);
      assert Score(s) % 5 == Value(s[0]) % 5 && Score(s) / 5 == a;
      assert Score(t) % 5 == Value(t[0]) % 5 && Score(t) / 5 == b;
      assert s[0] == t[0];
      ScoreInjective(s[1..], t[1..]);
      assert s == [s[0]] + s[1..] && t == [t[0]] + t[1..];
    }
  }

  /** The completion loop of `q2`: iterate over the stack from the top. */
  method CompletionScore(stack: seq<char>) returns (score: nat)
    requires AllOpeners(stack)
    ensures score == Score(stack)
  {
    score := 0;
    for i := 0 to |stack|
      invariant score == Score(stack[|stack| - i..])
    {
      var k := |stack| - 1 - i;
      assert stack[k..][1..] == stack[k + 1..];
      score := score * 5 + Value(stack[k]);
    }
    assert stack[0..] == stack;
  }

  /** The completion scores of the lines that end incomplete (neither corrupted nor illegal), in order. */
  function CompletionScores(lines: seq<string>): (scores: seq<int>)
    ensures |scores| <= |lines|
  {
    if lines == [] then []
    else
      var init := lines[..|lines| - 1];
      var outcome := Scan(lines[|lines| - 1], []);
      CompletionScores(init) + (if outcome.Incomplete? then [Score(outcome.stack)] else [])
  }

  /** The indices of the lines that are not corrupted. */
  function Uncorrupted(lines: seq<string>): set<nat> {
    set i: nat | i < |lines| && !Scan(lines[i], []).Corrupted?
  }

  /** Corrupted lines add no completion score, and every other line adds one. */
  lemma {:induction false} CompletionScoresCount(lines: seq<string>)
    requires NoPanic(lines)
    ensures |CompletionScores(lines)| == |Uncorrupted(lines)|
  {
    if lines != [] {
      var n := |lines| - 1;
      var init := lines[..n];
      CompletionScoresCount(init);
      assert Scan(lines[n], []) != Panicked;
      if Scan(lines[n], []).Corrupted? {
        assert Uncorrupted(lines) == Uncorrupted(init);
      } else {
        assert Uncorrupted(lines) == Uncorrupted(init) + {n};
      }
    }
  }

  /**
   * `q2`: collect the completion score of every line that is not corrupted,
   * sort them, and take the one at index len / 2. The source indexes an empty
   * list when every line is corrupted, so at least one line must not be.
   */
  method MiddleScore(lines: seq<string>) returns (middle: nat)
    requires NoPanic(lines)
    requires |CompletionScores(lines)| > 0
    ensures middle == Sort(CompletionScores(lines))[|CompletionScores(lines)| / 2]
  {
    var scores := CollectScores(lines);
    var sorted := Sort(scores);
    assert |sorted| == |scores| by {
      assert |multiset(sorted)| == |multiset(scores)|;
    }
    assert sorted[|sorted| / 2] in multiset(scores);
    middle := sorted[|sorted| / 2];
  }

  /** The line loop of `q2`: the completion score of every line that is not corrupted, in order. */
  method CollectScores(lines: seq<string>) returns (scores: seq<int>)
    requires NoPanic(lines)
    ensures scores == CompletionScores(lines)
    ensures forall j :: 0 <= j < |scores| ==> scores[j] >= 0
  {
    scores := [];
    for i := 0 to |lines|
      invariant scores == CompletionScores(lines[..i])
      invariant forall j :: 0 <= j < |scores| ==> scores[j] >= 0
    {
      assert lines[..i + 1][..i] == lines[..i];
      var outcome := ScanLine(lines[i]);
      if outcome.Incomplete? {
        var score := CompletionScore(outcome.stack);
        scores := scores + [score];
      }
    }
    assert lines[..|lines|] == lines;
  }
}
