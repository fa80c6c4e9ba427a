/**
 * The few pieces of Rust's string handling the puzzle parsers rely on:
 * `usize::from_str_radix` (and `str::parse::<usize>`, which is the radix-10 case),
 * `str::split_whitespace`, `str::split` and the `{}` formatting of a `usize`.
 * Strings are sequences of characters; inputs are ASCII, so a character index
 * and a byte index coincide.
 */
module Text {
  import opened Wrappers

  /** `usize::MAX` on a 64-bit target. */
  const UsizeMax: nat := 0xFFFF_FFFF_FFFF_FFFF

  /** The error kinds of Rust's `ParseIntError` that an unsigned parse can produce. */
  datatype IntError = Empty | InvalidDigit | PosOverflow

  predicate IsDigitIn(c: char, radix: nat)
    requires 2 <= radix <= 10
  {
    '0' <= c && (c as int) < ('0' as int) + radix
  }

  function DigitValue(c: char): nat
    requires '0' <= c
  {
    (c as int) - ('0' as int)
  }

  /** True when every character is a digit of the radix. */
  predicate AllDigits(s: string, radix: nat)
    requires 2 <= radix <= 10
  {
    forall i :: 0 <= i < |s| ==> IsDigitIn(s[i], radix)
  }

  /** The value of a digit string read most significant digit first (no bound). */
  function DigitsValue(s: string, radix: nat): nat
    requires 2 <= radix <= 10
    requires AllDigits(s, radix)
  {
    if s == [] then 0
    else DigitsValue(s[..|s| - 1], radix) * radix + DigitValue(s[|s| - 1])
  }

  /**
   * The digit loop of `from_str_radix`: digits are consumed left to right, and the
   * first digit that is not valid, or the first step that passes `usize::MAX`,
   * stops the parse with that error.
   */
  function Accumulate(s: string, radix: nat, acc: nat): (r: Result<nat, IntError>)
    requires 2 <= radix <= 10
    ensures acc <= UsizeMax && r.Ok? ==> r.value <= UsizeMax
  {
    if s == [] then Ok(acc)
    else if !IsDigitIn(s[0], radix) then Err(InvalidDigit)
    else
      var next := acc * radix + DigitValue(s[0]);
      if next > UsizeMax then Err(PosOverflow) else Accumulate(s[1..], radix, next)
  }

  /**
   * `usize::from_str_radix(s, radix)`: the empty string is `Empty`; a single leading
   * '+' is allowed and must be followed by at least one digit; a leading '-' is an
   * invalid digit for an unsigned type.
   */
  function FromStrRadix(s: string, radix: nat): (r: Result<nat, IntError>)
    requires 2 <= radix <= 10
    ensures r.Ok? ==> r.value <= UsizeMax
    ensures s == [] ==> r == Err(Empty)
  {
    if s == [] then Err(Empty)
    else if (s[0] == '+' || s[0] == '-') && |s| == 1 then Err(InvalidDigit)
    else if s[0] == '+' then Accumulate(s[1..], radix, 0)
    else Accumulate(s, radix, 0)
  }

  /** Accumulating over a concatenation is accumulating over the first part, then the second. */
  lemma {:induction false} AccumulateAppend(s: string, t: string, radix: nat, acc: nat)
    requires 2 <= radix <= 10
    ensures Accumulate(s + t, radix, acc) ==
      match Accumulate(s, radix, acc)
      case Ok(a) => Accumulate(t, radix, a)
      case Err(e) => Err(e)
  {
    if s == [] {
      assert s + t == t;
    } else {
      assert (s + t)[0] == s[0];
      assert (s + t)[1..] == s[1..] + t;
      if IsDigitIn(s[0], radix) {
        var next := acc * radix + DigitValue(s[0]);
        if next <= UsizeMax {
          AccumulateAppend(s[1..], t, radix, next);
        }
      }
    }
  }

  /** `format!("{}", n)`: the shortest decimal representation of n. */
  function DecimalString(n: nat): (r: string)
    ensures |r| > 0 && AllDigits(r, 10)
    ensures r[0] != '+' && r[0] != '-'
    decreases n
  {
    if n < 10 then [('0' as int + n) as char]
    else DecimalString(n / 10) + [('0' as int + n % 10) as char]
  }

  lemma {:induction false} DecimalStringHasNoComma(n: nat)
    ensures forall i :: 0 <= i < |DecimalString(n)| ==> DecimalString(n)[i] !in "[],"
  {
    var s := DecimalString(n);
    forall i | 0 <= i < |s| ensures s[i] !in "[]," {
      assert IsDigitIn(s[i], 10);
    }
  }

  /** Formatting a `usize` in decimal and parsing it back gives the number again. */
  lemma {:induction false} DecimalRoundTrip(n: nat)
    requires n <= UsizeMax
    ensures FromStrRadix(DecimalString(n), 10) == Ok(n)
  {
    DecimalAccumulate(n);
  }

  lemma {:induction false} DecimalAccumulate(n: nat)
    requires n <= UsizeMax
    ensures Accumulate(DecimalString(n), 10, 0) == Ok(n)
    decreases n
  {
    if n >= 10 {
      var d := [('0' as int + n % 10) as char];
      DecimalAccumulate(n / 10);
      AccumulateAppend(DecimalString(n / 10), d, 10, 0);
      assert d[1..] == [];
    }
  }

  /** Rust's `char::is_whitespace`: the Unicode White_Space property. */
  predicate IsWhitespace(c: char) {
    var n := c as int;
    (0x09 <= n <= 0x0D) || n == 0x20 || n == 0x85 || n == 0xA0 || n == 0x1680
    || (0x2000 <= n <= 0x200A) || n == 0x2028 || n == 0x2029 || n == 0x202F
    || n == 0x205F || n == 0x3000
  }

  /** The length of the leading run of non-whitespace characters. */
  function WordLength(s: string): (n: nat)
    ensures n <= |s|
    ensures forall i :: 0 <= i < n ==> !IsWhitespace(s[i])
    ensures n < |s| ==> IsWhitespace(s[n])
  {
    if s == [] || IsWhitespace(s[0]) then 0 else 1 + WordLength(s[1..])
  }

  /** `str::split_whitespace`: the maximal runs of non-whitespace characters, in order. */
  function SplitWhitespace(s: string): (words: seq<string>)
    ensures forall k :: 0 <= k < |words| ==> |words[k]| > 0
    ensures forall k, i :: 0 <= k < |words| && 0 <= i < |words[k]| ==> !IsWhitespace(words[k][i])
  {
    if s == [] then []
    else if IsWhitespace(s[0]) then SplitWhitespace(s[1..])
    else
      var n := WordLength(s);
      [s[..n]] + SplitWhitespace(s[n..])
  }

  /** The pattern occurs in s starting at index j. */
  predicate OccursAt(s: string, pat: string, j: nat) {
    j + |pat| <= |s| && s[j..j + |pat|] == pat
  }

  /** The index of the first occurrence of a non-empty pattern at or after `from`, if any. */
  function Find(s: string, pat: string, from: nat): (r: Option<nat>)
    requires |pat| > 0
    ensures r.Some? ==> from <= r.value && OccursAt(s, pat, r.value)
    ensures forall j :: from <= j && (r.None? || j < r.value) ==> !OccursAt(s, pat, j)
    decreases |s| - from
  {
    if from + |pat| > |s| then None
    else if OccursAt(s, pat, from) then Some(from)
    else Find(s, pat, from + 1)
  }

  /** `str::split` with a non-empty pattern: the pieces between the occurrences, in order. */
  function Split(s: string, pat: string): (pieces: seq<string>)
    requires |pat| > 0
    ensures |pieces| >= 1
    decreases |s|
  {
    match Find(s, pat, 0)
    case None => [s]
    case Some(i) => [s[..i]] + Split(s[i + |pat|..], pat)
  }

  /** The pieces put back together with the pattern between neighbours. */
  function Join(pieces: seq<string>, pat: string): string {
    if pieces == [] then []
    else if |pieces| == 1 then pieces[0]
    else pieces[0] + pat + Join(pieces[1..], pat)
  }

  /** Splitting loses nothing: the pieces joined by the pattern give s back. */
  lemma {:induction false} SplitJoin(s: string, pat: string)
    requires |pat| > 0
    ensures Join(Split(s, pat), pat) == s
    decreases |s|
  {
    match Find(s, pat, 0)
    case None =>
    case Some(i) =>
      var rest := s[i + |pat|..];
      SplitJoin(rest, pat);
      assert Split(s, pat) == [s[..i]] + Split(rest, pat);
      JoinCons(s[..i], Split(rest, pat), pat);
      Around(s, pat, i);
  }

  lemma JoinCons(head: string, tail: seq<string>, pat: string)
    requires |tail| >= 1
    ensures Join([head] + tail, pat) == head + pat + Join(tail, pat)
  {
    assert ([head] + tail)[1..] == tail;
  }

  /** s is what comes before an occurrence, the occurrence, and what follows it. */
  lemma Around(s: string, pat: string, i: nat)
    requires OccursAt(s, pat, i)
    ensures s == s[..i] + pat + s[i + |pat|..]
  {
    assert s == s[..i] + s[i..i + |pat|] + s[i + |pat|..];
  }

  /** No piece of a split holds the pattern. */
  lemma {:induction false} SplitPiecesFree(s: string, pat: string)
    requires |pat| > 0
    ensures forall k, j: nat :: 0 <= k < |Split(s, pat)| ==> !OccursAt(Split(s, pat)[k], pat, j)
    decreases |s|
  {
    match Find(s, pat, 0)
    case None =>
    case Some(i) =>
      var rest := s[i + |pat|..];
      SplitPiecesFree(rest, pat);
      var pieces := Split(s, pat);
      forall j: nat ensures !OccursAt(s[..i], pat, j) {
        if j + |pat| <= i {
          assert !OccursAt(s, pat, j);
          assert s[..i][j..j + |pat|] == s[j..j + |pat|];
        }
      }
      forall k, j: nat | 0 <= k < |pieces| ensures !OccursAt(pieces[k], pat, j) {
        if k > 0 {
          assert pieces[k] == Split(rest, pat)[k - 1];
        }
      }
  }
}
