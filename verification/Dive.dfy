/**
 * Dive (src/day02.rs): the submarine's course, a list of `forward x`,
 * `down x` and `up x` commands, steered under two readings. In the first,
 * `down`/`up` change the depth directly; in the second they change an aim,
 * and `forward x` also dives by aim·x. Both parts answer position × depth.
 */
module Dive {
  import opened Wrappers
  import opened Text

  datatype Command = Forward(x: nat) | Up(x: nat) | Down(x: nat)

  /**
   * Where `parse_commands` panics: a line with no word or no amount
   * (`next().unwrap()`), an amount that is not a `usize` (`parse().unwrap()`),
   * or a word other than the three commands (`panic!`).
   */
  datatype ParseError = MissingWord | BadAmount(e: IntError) | UnknownCommand

  /** The closure of `parse_commands` applied to one line. */
  function ParseCommand(line: string): (r: Result<Command, ParseError>)
    ensures r.Ok? ==> |SplitWhitespace(line)| >= 2
  {
    var words := SplitWhitespace(line);
    if |words| == 0 then Err(MissingWord)
    else if words[0] != "forward" && words[0] != "up" && words[0] != "down" then Err(UnknownCommand)
    else if |words| == 1 then Err(MissingWord)
    else
      match FromStrRadix(words[1], 10)
      case Err(e) => Err(BadAmount(e))
      case Ok(x) =>
        Ok(if words[0] == "forward" then Forward(x) else if words[0] == "up" then Up(x) else Down(x))
  }

  /** `parse_commands` on the lines of the file: the first line that fails stops it. */
  function ParseCommands(lines: seq<string>): (r: Result<seq<Command>, ParseError>)
    ensures r.Ok? ==> |r.value| == |lines|
    ensures r.Ok? ==> forall i :: 0 <= i < |lines| ==> ParseCommand(lines[i]) == Ok(r.value[i])
  {
    if lines == [] then Ok([])
    else
      match ParseCommand(lines[0])
      case Err(e) => Err(e)
      case Ok(c) =>
        match ParseCommands(lines[1..])
        case Err(e) => Err(e)
        case Ok(cs) => Ok([c] + cs)
  }

  /** A line whose first word is none of the three commands is refused. */
  lemma ParseUnknown(line: string)
    requires |SplitWhitespace(line)| > 0
    requires SplitWhitespace(line)[0] !in {"forward", "up", "down"}
    ensures ParseCommand(line) == Err(UnknownCommand)
  {
  }

  /** The command word of the input format. */
  function Word(c: Command): (w: string)
    ensures |w| > 0 && forall i :: 0 <= i < |w| ==> !IsWhitespace(w[i])
  {
    match c
    case Forward(_) => "forward"
    case Up(_) => "up"
    case Down(_) => "down"
  }

  /** A command written the way the input file writes it: the word, a space, the amount. */
  function Render(c: Command): string {
    Word(c) + " " + DecimalString(c.x)
  }

  /** Every command that fits a `usize` is read back from its own line. */
  lemma ParseRender(c: Command)
    requires c.x <= UsizeMax
    ensures ParseCommand(Render(c)) == Ok(c)
  {
    var w, d := Word(c), DecimalString(c.x);
    forall i | 0 <= i < |d| ensures !IsWhitespace(d[i]) {
      assert IsDigitIn(d[i], 10);
    }
    SplitFirstWord(w, " " + d);
    SplitFirstWord(d, []);
    assert SplitWhitespace(" " + d) == SplitWhitespace(d + []) by {
      assert (" " + d)[1..] == d + [];
    }
    assert Render(c) == w + (" " + d);
    DecimalRoundTrip(c.x);
  }

  /** A word followed by whitespace (or nothing) is split off as the first word. */
  lemma SplitFirstWord(w: string, rest: string)
    requires |w| > 0 && forall i :: 0 <= i < |w| ==> !IsWhitespace(w[i])
    requires rest == [] || IsWhitespace(rest[0])
    ensures SplitWhitespace(w + rest) == [w] + SplitWhitespace(rest)
  {
    WordLengthOf(w, rest);
    assert (w + rest)[..|w|] == w;
    assert (w + rest)[|w|..] == rest;
  }

  lemma {:induction false} WordLengthOf(w: string, rest: string)
    requires forall i :: 0 <= i < |w| ==> !IsWhitespace(w[i])
    requires rest == [] || IsWhitespace(rest[0])
    ensures WordLength(w + rest) == |w|
  {
    if w == [] {
      assert w + rest == rest;
    } else {
      assert (w + rest)[1..] == w[1..] + rest;
      WordLengthOf(w[1..], rest);
    }
  }

  /** The submarine's state. Signed, so that an underflow can be stated. */
  datatype Sub = Sub(position: int, depth: int, aim: int)

  /** One command of `q1`'s loop: `down`/`up` change the depth. */
  function Steer(s: Sub, c: Command): Sub {
    match c
    case Forward(x) => s.(position := s.position + x)
    case Up(x) => s.(depth := s.depth - x)
    case Down(x) => s.(depth := s.depth + x)
  }

  /** One command of `q2`'s loop: `down`/`up` change the aim, `forward` dives by aim·x. */
  function SteerAim(s: Sub, c: Command): Sub {
    match c
    case Forward(x) => s.(position := s.position + x, depth := s.depth + s.aim * x)
    case Up(x) => s.(aim := s.aim - x)
    case Down(x) => s.(aim := s.aim + x)
  }

  /** The state after the commands of `q1`, from the surface. */
  function Course(cs: seq<Command>): Sub {
    if cs == [] then Sub(0, 0, 0) else Steer(Course(cs[..|cs| - 1]), cs[|cs| - 1])
  }

  /** The state after the commands of `q2`, from the surface. */
  function CourseAim(cs: seq<Command>): Sub {
    if cs == [] then Sub(0, 0, 0) else SteerAim(CourseAim(cs[..|cs| - 1]), cs[|cs| - 1])
  }

  /** The sum of every `forward` amount. */
  function Forwards(cs: seq<Command>): nat {
    if cs == [] then 0 else (if cs[0].Forward? then cs[0].x else 0) + Forwards(cs[1..])
  }

  /** No prefix of the commands takes `q1`'s depth above the surface (a `usize` underflow). */
  predicate NeverAbove(cs: seq<Command>) {
    forall k :: 0 <= k <= |cs| ==> Course(cs[..k]).depth >= 0
  }

  /** No prefix of the commands makes `q2`'s aim negative (a `usize` underflow). */
  predicate NeverAimsUp(cs: seq<Command>) {
    forall k :: 0 <= k <= |cs| ==> CourseAim(cs[..k]).aim >= 0
  }

  /** `q1`'s loop: ends with position × depth. */
  method Pilot(commands: seq<Command>) returns (product: nat)
    requires NeverAbove(commands)
    ensures product == Course(commands).position * Course(commands).depth
  {
    var position: nat := 0;
    var depth: nat := 0;
    for i := 0 to |commands|
      invariant Course(commands[..i]) == Sub(position, depth, 0)
    {
      assert commands[..i + 1][..i] == commands[..i];
      match commands[i]
      case Forward(x) => position := position + x;
      case Up(x) =>
        assert Course(commands[..i + 1]).depth >= 0;
        depth := depth - x;
      case Down(x) => depth := depth + x;
    }
    assert commands[..|commands|] == commands;
    product := position * depth;
  }

  /** `q2`'s loop: ends with position × depth. */
  method PilotAim(commands: seq<Command>) returns (product: nat)
    requires NeverAimsUp(commands)
    ensures product == CourseAim(commands).position * CourseAim(commands).depth
  {
    var position: nat := 0;
    var depth: nat := 0;
    var aim: nat := 0;
    for i := 0 to |commands|
      invariant CourseAim(commands[..i]) == Sub(position, depth, aim)
    {
      assert commands[..i + 1][..i] == commands[..i];
      match commands[i]
      case Forward(x) =>
        position := position + x;
        depth := depth + aim * x;
      case Up(x) =>
        assert CourseAim(commands[..i + 1]).aim >= 0;
        aim := aim - x;
      case Down(x) => aim := aim + x;
    }
    assert commands[..|commands|] == commands;
    product := position * depth;
  }

  /** Steering over two lists in turn is steering over the first, then the second. */
  lemma {:induction false} ForwardsAppend(a: seq<Command>, b: seq<Command>)
    ensures Forwards(a + b) == Forwards(a) + Forwards(b)
  {
    if a == [] {
      assert a + b == b;
    } else {
      assert (a + b)[1..] == a[1..] + b;
      ForwardsAppend(a[1..], b);
    }
  }

  /**
   * In both parts the position is the sum of the `forward` amounts, and
   * the second part's aim follows exactly the first part's depth.
   */
  lemma {:induction false} CoursesAgree(cs: seq<Command>)
    ensures Course(cs).position == Forwards(cs) && CourseAim(cs).position == Forwards(cs)
    ensures CourseAim(cs).aim == Course(cs).depth
    ensures Course(cs).aim == 0
  {
    if cs != [] {
      var init := cs[..|cs| - 1];
      var last := cs[|cs| - 1];
      CoursesAgree(init);
      ForwardsAppend(init, [last]);
      assert init + [last] == cs;
      assert Forwards([last]) == if last.Forward? then last.x else 0 by {
        assert [last][1..] == [];
      }
    }
  }

  /** The two parts underflow on the same inputs. */
  lemma SameUnderflow(cs: seq<Command>)
    ensures NeverAbove(cs) <==> NeverAimsUp(cs)
  {
    forall k | 0 <= k <= |cs| ensures CourseAim(cs[..k]).aim == Course(cs[..k]).depth {
      CoursesAgree(cs[..k]);
    }
  }

  /** When the aim never goes negative, the second part's depth never does either. */
  lemma {:induction false} AimDepthNonNegative(cs: seq<Command>)
    requires NeverAimsUp(cs)
    ensures CourseAim(cs).depth >= 0 && CourseAim(cs).aim >= 0
  {
    assert cs[..|cs|] == cs;
    if cs != [] {
      var init := cs[..|cs| - 1];
      forall k | 0 <= k <= |init| ensures CourseAim(init[..k]).aim >= 0 {
        assert init[..k] == cs[..k];
      }
      AimDepthNonNegative(init);
    }
  }
}
