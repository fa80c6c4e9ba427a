/**
 * The bracket notation of snailfish numbers (src/day18.rs): `find_comma`,
 * `from_str` and `print`, and the round trip between the last two.
 *
 * The source's `print` writes to standard output; here it is a function to the
 * string it would write.
 */
module SnailfishText {
  import opened Wrappers
  import opened Text
  import opened Snailfish

  // ---------------------------------------------------------------------------
  // Bracket depth and find_comma
  // ---------------------------------------------------------------------------

  /** How a character moves the bracket counter of `find_comma`. */
  function BracketDelta(c: char): int {
    if c == '[' then 1 else if c == ']' then -1 else 0
  }

  /** The counter of `find_comma` after reading all of s: opening minus closing brackets. */
  function Net(s: string): int {
    if s == [] then 0 else Net(s[..|s| - 1]) + BracketDelta(s[|s| - 1])
  }

  lemma {:induction false} NetAppend(a: string, b: string)
    ensures Net(a + b) == Net(a) + Net(b)
    decreases |b|
  {
    if b == [] {
      assert a + b == a;
    } else {
      var b' := b[..|b| - 1];
      assert (a + b)[..|a + b| - 1] == a + b';
      assert (a + b)[|a + b| - 1] == b[|b| - 1];
      NetAppend(a, b');
    }
  }

  /** A comma at index i with exactly one bracket open before it. */
  predicate IsTopComma(s: string, i: nat) {
    i < |s| && s[i] == ',' && Net(s[..i]) == 1
  }

  /** The first index, from i on, of a comma with exactly one bracket open before it. */
  function TopCommaFrom(s: string, i: nat): (r: Option<nat>)
    requires i <= |s|
    ensures r.Some? ==> i <= r.value && IsTopComma(s, r.value)
    ensures forall j :: i <= j < |s| && (r.None? || j < r.value) ==> !IsTopComma(s, j)
    decreases |s| - i
  {
    if i == |s| then None
    else if IsTopComma(s, i) then Some(i)
    else TopCommaFrom(s, i + 1)
  }

  /**
   * The comma that separates the two halves of a pair: the first one with
   * exactly one bracket open before it, or None when there is no such comma.
   */
  function TopComma(s: string): (r: Option<nat>)
    ensures r.Some? ==> IsTopComma(s, r.value)
    ensures forall j :: 0 <= j < |s| && (r.None? || j < r.value) ==> !IsTopComma(s, j)
  {
    TopCommaFrom(s, 0)
  }

  /** `find_comma`: one pass over the characters with a bracket counter. */
  method FindComma(s: string) returns (r: Option<nat>)
    ensures r == TopComma(s)
  {
    var counter := 0;
    for i := 0 to |s|
      invariant counter == Net(s[..i])
      invariant TopCommaFrom(s, i) == TopComma(s)
    {
      assert s[..i + 1][..i] == s[..i];
      match s[i]
      case '[' =>
        counter := counter + 1;
      case ']' =>
        counter := counter - 1;
      case ',' =>
        if counter == 1 {
          return Some(i);
        }
      case _ =>
    }
    return None;
  }

  // ---------------------------------------------------------------------------
  // from_str and print
  // ---------------------------------------------------------------------------

  /**
   * Why a string is not a snailfish number: a leaf that `usize::from_str_radix`
   * rejects, or a missing '[', ']' or ',' around a pair, where the source's
   * `strip_prefix(..).unwrap()` / `strip_suffix(..).unwrap()` panics.
   */
  datatype ParseError = NotANumber(IntError) | MissingBracket

  /** Every regular number fits in a `usize`. */
  predicate FitsUsize(t: SF) {
    match t
    case Regular(x) => x <= UsizeMax
    case Pair(l, r) => FitsUsize(l) && FitsUsize(r)
  }

  /**
   * `SF::from_str`: without a top-level comma the whole string is a decimal
   * regular number; otherwise the string is cut at that comma, the outer '['
   * and ']' and the comma are stripped, and both halves are parsed, left first.
   */
  function Parse(s: string): (r: Result<SF, ParseError>)
    ensures r.Ok? ==> FitsUsize(r.value)
    ensures TopComma(s).None? ==> (r.Ok? <==> FromStrRadix(s, 10).Ok?)
    decreases |s|
  {
    match TopComma(s)
    case None =>
      (match FromStrRadix(s, 10)
       case Ok(n) => Ok(Regular(n))
       case Err(e) => Err(NotANumber(e)))
    case Some(x) =>
      var left, right := s[..x], s[x..];
      if left == [] || left[0] != '[' || right[|right| - 1] != ']' then Err(MissingBracket)
      else
        var inner := right[..|right| - 1];
        if inner == [] || inner[0] != ',' then Err(MissingBracket)
        else
          match Parse(left[1..])
          case Err(e) => Err(e)
          case Ok(l) =>
            match Parse(inner[1..])
            case Err(e) => Err(e)
            case Ok(r) => Ok(Pair(l, r))
  }

  /** `print`: a regular number in decimal, a pair as `[left,right]`. */
  function Print(t: SF): (s: string)
    ensures |s| > 0
  {
    match t
    case Regular(x) => DecimalString(x)
    case Pair(l, r) => "[" + Print(l) + "," + Print(r) + "]"
  }

  /**
   * A balanced string: no prefix closes more brackets than it opens, the whole
   * closes all it opens, and every comma sits inside a bracket.
   */
  predicate Balanced(s: string) {
    && Net(s) == 0
    && (forall i :: 0 <= i <= |s| ==> Net(s[..i]) >= 0)
    && (forall i :: 0 <= i < |s| && s[i] == ',' ==> Net(s[..i]) >= 1)
  }

  /** The text `print` writes for a pair of halves already written as a and b. */
  function Bracketed(a: string, b: string): (s: string)
    ensures |s| == |a| + |b| + 3
    ensures s[0] == '[' && s[|a| + 1] == ',' && s[|s| - 1] == ']'
  {
    "[" + a + "," + b + "]"
  }

  /** The printed form of every snailfish number is balanced. */
  lemma {:induction false} PrintBalanced(t: SF)
    ensures Balanced(Print(t))
  {
    match t
    case Regular(x) =>
      DecimalStringHasNoComma(x);
      NoBrackets(DecimalString(x));
    case Pair(l, r) =>
      PrintBalanced(l);
      PrintBalanced(r);
      BracketedBalanced(Print(l), Print(r));
      assert Print(t) == Bracketed(Print(l), Print(r));
  }

  /** Bracketing two balanced strings around a comma gives a balanced string. */
  lemma BracketedBalanced(a: string, b: string)
    requires Balanced(a) && Balanced(b)
    ensures Balanced(Bracketed(a, b))
  {
    var s := Bracketed(a, b);
    NetAppend("[", a);
    NetAppend("[" + a, ",");
    NetAppend("[" + a + ",", b);
    NetAppend("[" + a + "," + b, "]");
    forall i | 0 <= i <= |s|
      ensures Net(s[..i]) >= 0
      ensures i < |s| && s[i] == ',' ==> Net(s[..i]) >= 1
    {
      PrefixNet(a, b, i);
      if i == |s| {
        assert s[..i] == s;
      }
    }
  }

  /** Net depth of a prefix of `[a,b]`, in terms of the prefixes of a and b. */
  lemma PrefixNet(a: string, b: string, i: nat)
    requires Balanced(a) && Balanced(b)
    requires i <= |a| + |b| + 3
    ensures 1 <= i < |Bracketed(a, b)| ==> Net(Bracketed(a, b)[..i]) >= 1
    ensures 1 <= i <= |a| + 1 ==> Net(Bracketed(a, b)[..i]) == 1 + Net(a[..i - 1])
    ensures i == 0 ==> Net(Bracketed(a, b)[..i]) == 0
  {
    var s := Bracketed(a, b);
    if 1 <= i <= |a| + 1 {
      assert s[..i] == "[" + a[..i - 1];
      NetAppend("[", a[..i - 1]);
    } else if |a| + 2 <= i < |s| {
      var k := i - |a| - 2;
      assert s[..i] == ("[" + a + ",") + b[..k];
      NetAppend("[" + a + ",", b[..k]);
      NetAppend("[" + a, ",");
      NetAppend("[", a);
    }
  }

  /** A string without brackets has net depth 0 at every prefix. */
  lemma {:induction false} NoBrackets(s: string)
    requires forall i :: 0 <= i < |s| ==> s[i] !in "[],"
    ensures forall i :: 0 <= i <= |s| ==> Net(s[..i]) == 0
    decreases |s|
  {
    if s != [] {
      var s' := s[..|s| - 1];
      NoBrackets(s');
      forall i | 0 <= i <= |s|
        ensures Net(s[..i]) == 0
      {
        if i < |s| {
          assert s[..i] == s'[..i];
        } else {
          assert s[..i] == s;
          assert s[..|s| - 1] == s';
        }
      }
    }
  }

  /** The comma `find_comma` picks in a printed pair is the one `print` put between the halves. */
  lemma PrintedPairComma(l: SF, r: SF)
    ensures TopComma(Print(Pair(l, r))) == Some(|Print(l)| + 1)
  {
    PrintBalanced(l);
    PrintBalanced(r);
    BracketedComma(Print(l), Print(r));
    assert Print(Pair(l, r)) == Bracketed(Print(l), Print(r));
  }

  /** In `[a,b]` with a and b balanced, the top-level comma is the one after a. */
  lemma BracketedComma(a: string, b: string)
    requires Balanced(a) && Balanced(b)
    ensures TopComma(Bracketed(a, b)) == Some(|a| + 1)
  {
    CommaAfterLeftIsTop(a, b);
    NoTopCommaInLeft(a, b);
  }

  /** The comma after a has exactly one bracket open before it. */
  lemma CommaAfterLeftIsTop(a: string, b: string)
    requires Balanced(a) && Balanced(b)
    ensures IsTopComma(Bracketed(a, b), |a| + 1)
  {
    PrefixNet(a, b, |a| + 1);
    assert a[..|a|] == a;
  }

  /** No comma inside a has only one bracket open before it. */
  lemma NoTopCommaInLeft(a: string, b: string)
    requires Balanced(a) && Balanced(b)
    ensures forall j :: 0 <= j < |a| + 1 ==> !IsTopComma(Bracketed(a, b), j)
  {
    var s := Bracketed(a, b);
    forall j | 0 <= j < |a| + 1
      ensures !IsTopComma(s, j)
    {
      PrefixNet(a, b, j);
      if 1 <= j && s[j] == ',' {
        assert s[j] == a[j - 1];
      }
    }
  }

  /** Parsing what `print` writes gives the number back, as long as every regular number fits in a `usize`. */
  lemma {:induction false} ParsePrint(t: SF)
    requires FitsUsize(t)
    ensures Parse(Print(t)) == Ok(t)
  {
    match t
    case Regular(x) =>
      ParsePrintRegular(x);
    case Pair(l, r) =>
      ParsePrint(l);
      ParsePrint(r);
      PrintBalanced(l);
      PrintBalanced(r);
      BracketedComma(Print(l), Print(r));
      ParseBracketed(Print(l), Print(r), l, r);
      assert Print(t) == Bracketed(Print(l), Print(r));
  }

  /** A decimal regular number parses back. */
  lemma ParsePrintRegular(x: nat)
    requires x <= UsizeMax
    ensures Parse(Print(Regular(x))) == Ok(Regular(x))
  {
    DecimalStringHasNoComma(x);
    NoBrackets(DecimalString(x));
    DecimalRoundTrip(x);
    assert TopComma(Print(Regular(x))).None?;
  }

  /** `[a,b]` parses to the pair of what a and b parse to, when its top-level comma is the one after a. */
  lemma ParseBracketed(a: string, b: string, l: SF, r: SF)
    requires TopComma(Bracketed(a, b)) == Some(|a| + 1)
    requires Parse(a) == Ok(l) && Parse(b) == Ok(r)
    ensures Parse(Bracketed(a, b)) == Ok(Pair(l, r))
  {
    var s := Bracketed(a, b);
    var x := |a| + 1;
    assert s[..x] == "[" + a;
    assert s[x..] == "," + b + "]";
    assert ("[" + a)[1..] == a;
    assert ("," + b + "]")[..|b| + 1] == "," + b;
    assert ("," + b)[1..] == b;
  }
}
