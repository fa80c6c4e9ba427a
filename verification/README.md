# Advent of Code 2021 solutions, modelled in Dafny

The repository solves Advent of Code 2021 in Rust. Each `dayNN.rs` has two parts: a wrapper `q1`/`q2` that reads a
puzzle file, and a small algorithm over integers that solves the puzzle. This project models those
algorithms and proves what each one computes. Every day file has one Dafny module (day 18 has three and day 8 has two), and
`Text` and `Sorting` model the Rust library calls that the days rely on.

- **Snailfish numbers** (`src/day18.rs`). The modules are `Snailfish`, `SnailfishReduce` and `SnailfishText`.
  - The number is a binary tree with `usize` leaves. A node is located by its path from the root, or by its in-order leaf index.
  - `left`/`right` are proved to find the previous/next leaf, and `left_most`/`right_most` the first/last leaf.
  - The magnitude equals a weighted sum of the leaves.
  - `explode` selects the lexicographically least pair at depth four. It adds that pair's values to the neighbouring leaves and leaves a 0 in its place.
  - `split` replaces the first leaf ≥ 10 with its floor and ceiling halves.
  - `add` loops until nothing applies; what it returns is reduced.
  - `find_comma` finds the first comma at bracket depth one, and `from_str` inverts `print`.
- **Packet decoder** (`src/day16.rs`), module `Packets`:
  - hex-to-bits expansion;
  - the bit-stream parser (`from_chars`), with its bit counting and each way it can fail;
  - the sum of versions;
  - the expression evaluator;
  - read-back lemmas for fixed-width fields and literal groups.
- **Polymer** (`src/day14.rs`), module `Polymer`:
  - pair insertion (`apply_rules`);
  - the character counters `count`, `add` and `add_all`;
  - the memoised `count_num_output`. It is proved to add exactly the counts of the expanded pair, and its cache stays sound;
  - the `q2` assembly, which equals the counts of the fully expanded polymer.
- **Syntax scoring** (`src/day10.rs`), module `Syntax`: the bracket stack machine, the corruption penalty, the completion score and the middle score.
- **Bingo** (`src/day04.rs`), module `Bingo`:
  - a `Board` class over a 5×5 grid, with `mark`, `has_won` and `sum_unmarked`;
  - the first-winner search (`q1`) and the last-winner search (`q2`), proved against functions on grids.
- **Origami** (`src/day13.rs`), module `Origami`: a fold as a reflection of a point set. It is idempotent, it never grows the set, and folded points stay left of or above the line.
- **Vents** (`src/day5.rs`), module `Vents`: `gen_range_incl`, the points of straight and diagonal lines, and the count of points covered twice.
- **Octopus flashes** (`src/day11.rs`), module `Octopus`:
  - a step mutates a 10×10 `array2` in place. The cascade is specified by a relation between the grid before and after the step. Its flashed set is the least set of cells closed under the flash rule, so the levels before a step determine the step;
  - the count of flashed cells is at most 100, and `q1`'s total is the sum of the flash counts over the one run of that many steps;
  - `all_flashing` holds exactly when every cell flashed.
- **Binary diagnostic** (`src/day03.rs`), module `Diagnostic`:
  - gamma and epsilon are bit complements, each bit chosen by majority;
  - the oxygen and CO2 rating filter.
- **Dive** (`src/day02.rs`), module `Dive`: the command parser and the two course interpreters.
- **Trick shot** (`src/day17.rs`), module `Trajectory`: the probe simulation, the peak height, and the two velocity searches.
- **Sonar sweep** (`src/day01.rs`, and `src/day1.rs`, which has the same functions), module `Sonar`: counting increases and the three-wide windows.
- **Crab alignment** (`src/day7.rs`), module `Crabs`:
  - the median minimises the linear fuel cost;
  - the triangular distance;
  - the minimum over the target range, which no target outside the range beats.
- **Lanternfish** (`src/day6.rs`), module `Lanternfish`: the nine timer buckets and their daily rotation, done in place on an array.
- **Seven-segment search** (`src/day08.rs`), modules `SevenSegment` and `Wiring`:
  - a `Code` class whose `resolve_*` methods update `knowns`/`unknowns` in place;
  - `try_decoding`, `num_parsed` and `decode_input`;
  - a correctness theorem. For any one-to-one rewiring of the seven segments, and for the ten patterns in any order, the resolution assigns every digit its own pattern, and every displayed output decodes to its digit.
- **Smoke basin** (`src/day09.rs`), module `Basins`:
  - the low points in row-major order, and the risk sum;
  - the non-9 neighbours;
  - the flood fill, specified by reachability through walks;
  - the product of the three largest basins.
- **Passage pathing** (`src/day12.rs`), module `Caves`:
  - the adjacency lists that `parse` builds;
  - `count_paths`. It counts exactly the distinct routes from `start` to `end` that visit no small cave twice;
  - `count_paths_double`, related to `count_paths`.
- **Chiton** (`src/day15.rs`), module `Chiton`: the grid neighbours in their order, and the five-fold map tiling.

A Rust `panic!` (an `unwrap` on `None`, an index out of range, a `usize` that would go below zero) is modelled in one of two ways:

- as a precondition, where the panic depends only on the arguments;
- as an explicit error or `None` result, where it happens partway through a computation that the model follows, such as parsing or an evaluation that reaches an unknown opcode.

`usize` is modelled as `nat` and `isize` as `int`. The one `usize` limit that is modelled is the overflow check of `from_str_radix`.

## Model

| member | source | states |
|---|---|---|
| Text.FromStrRadix | src/day18.rs:239 | `usize::from_str_radix`: the empty string is an error, and any value it accepts fits in 64 bits |
| Text.DecimalRoundTrip | src/day18.rs:239 | reading back the decimal text of any `usize` value gives that value |
| Text.DecimalStringHasNoComma | src/day18.rs:211-222 | the decimal text of a number contains no bracket and no comma, so a printed leaf cannot confuse `find_comma` |
| Text.SplitWhitespace | src/day04.rs:12 | `split_whitespace`: every word is non-empty and contains no whitespace |
| Text.Find | src/day08.rs:13 | the first occurrence of a separator at or after a position, and no occurrence before it |
| Text.Split | src/day12.rs:11 | `split` always yields at least one piece |
| Text.SplitJoin | src/day12.rs:11 | joining the pieces of `split` with the separator gives the text back |
| Text.SplitPiecesFree | src/day12.rs:11 | no piece of `split` contains the separator |
| Sorting.Sort | src/day7.rs:6 | `sort` returns a permutation of its input, of the same length |
| Sorting.SortSorted | src/day7.rs:6 | the result of `sort` is in ascending order |
| Sorting.SortIsTheSortedPermutation | src/day7.rs:6 | any ascending permutation of the input is exactly `Sort`'s result, so `Sort` is the one ordering `sort` can produce |
| Snailfish.Leaves | src/day18.rs:7-10 | every snailfish number has at least one regular number |
| Snailfish.LeafPaths | src/day18.rs:7-10 | there is one leaf path per regular number, in in-order |
| Snailfish.LeftMost | src/day18.rs:143-149 | `left_most` reaches a regular number, and it is the first one in in-order |
| Snailfish.RightMost | src/day18.rs:151-157 | `right_most` reaches a regular number, and it is the last one in in-order |
| Snailfish.LeftOfIsPrevious | src/day18.rs:185-209 | `left` of a regular number is the regular number just before it in in-order, and None for the first one |
| Snailfish.RightOfIsNext | src/day18.rs:159-183 | `right` of a regular number is the regular number just after it in in-order, and None for the last one |
| Snailfish.MagnitudeByLeaves | src/day18.rs:39-44 | the magnitude equals the sum of each regular number times 3^(left turns)·2^(right turns) on its path |
| Snailfish.Weight | src/day18.rs:39-44 | every leaf weight in the magnitude is positive |
| Snailfish.DeepClone | src/day18.rs:224-232 | the clone has the same regular numbers and the same magnitude |
| Snailfish.DeepCloneIsEqual | src/day18.rs:224-232 | the clone is structurally equal to the original |
| SnailfishReduce.AddToRegular | src/day18.rs:32-37 | `add_to_regular` keeps the shape, raises the target regular number by n, and changes no other leaf |
| SnailfishReduce.FindExplode | src/day18.rs:73-86 | `explode_help`'s search returns a pair exactly `count` levels down |
| SnailfishReduce.FindExplodeIsLeftmost | src/day18.rs:73-104 | the search finds nothing exactly when the tree is no deeper than `count`; otherwise its pair is the lexicographically least (left before right) pair at that depth |
| SnailfishReduce.HeightIsSafe | src/day18.rs:25-30 | in a tree of height at most five, every pair at depth four holds two regular numbers, so `unwrap_regular` cannot panic |
| SnailfishReduce.ExplodeAt | src/day18.rs:60-70 | an explosion never makes the tree deeper |
| SnailfishReduce.ExplodeAtLeaves | src/day18.rs:60-70 | with the pair's values at leaves k and k+1: the left value is added to leaf k-1 and the right value to leaf k+2, each only if that leaf exists; the pair becomes one 0; no other leaf changes |
| SnailfishReduce.ExplodeAtPositions | src/day18.rs:87-94 | the neighbours that `left`/`right` find for the exploding pair are leaves k-1 and k+2, and None exactly when those do not exist |
| SnailfishReduce.ExplodeWithSkeleton | src/day18.rs:66 | after an explosion the tree has its old shape, with a regular number where the pair was |
| SnailfishReduce.FindSplit | src/day18.rs:123-141 | `find_split` returns a regular number that is at least 10 |
| SnailfishReduce.FindSplitIsLeftmost | src/day18.rs:123-141 | `find_split` finds nothing exactly when every regular number is below 10; otherwise it finds the first one that is at least 10 |
| SnailfishReduce.Halves | src/day18.rs:106-121 | the split pair is (v/2, v/2 + v%2): two halves that sum to v, with the right one equal to or one more than the left |
| SnailfishReduce.SplitAt | src/day18.rs:106-121 | a split adds at most one level, at the split position |
| SnailfishReduce.SplitAtLeaves | src/day18.rs:106-121 | a split replaces leaf k with its two halves and keeps every other leaf |
| SnailfishReduce.StepSpec | src/day18.rs:48-56 | one pass of the loop changes nothing exactly when the number is reduced, and a pass keeps the height at most five |
| SnailfishReduce.ReducedShape | src/day18.rs:46-58 | a reduced number has no pair at depth four (height ≤ 4), and all its regular numbers are below 10 |
| SnailfishReduce.Reduce | src/day18.rs:48-56 | whatever the loop returns is reduced |
| SnailfishReduce.Pass | src/day18.rs:49-55 | the loop body: explode first, split otherwise, None when neither applies |
| SnailfishReduce.LoopPass | src/day18.rs:48-56 | the loop stops at once on a reduced number, and otherwise continues from the rewritten number |
| SnailfishReduce.ReduceOfReduced | src/day18.rs:46-58 | reducing an already reduced number returns it unchanged |
| SnailfishReduce.Add | src/day18.rs:46-58 | `add` of two reduced-height numbers is the loop applied to `Pair(a, b)`, and what it returns is reduced |
| SnailfishText.TopCommaFrom | src/day18.rs:256-271 | the first comma at bracket depth exactly one at or after a position, and none before it |
| SnailfishText.TopComma | src/day18.rs:256-271 | `find_comma` returns the first comma at bracket depth one, and None when there is none |
| SnailfishText.FindComma | src/day18.rs:256-271 | the counting loop of `find_comma` returns exactly that comma |
| SnailfishText.Parse | src/day18.rs:235-254 | a parsed number has leaves that fit a `usize`; text with no top-level comma parses exactly when it is a decimal `usize` |
| SnailfishText.Print | src/day18.rs:211-222 | printed text is never empty |
| SnailfishText.Bracketed | src/day18.rs:211-222 | `[a,b]` has its brackets and its comma at the expected positions |
| SnailfishText.PrintBalanced | src/day18.rs:211-222 | printed text has balanced brackets, and no prefix closes more than it opens |
| SnailfishText.PrintedPairComma | src/day18.rs:211-222 | in a printed pair, the top-level comma is the one right after the printed left part |
| SnailfishText.BracketedComma | src/day18.rs:256-271 | for balanced a and b, the top-level comma of `[a,b]` sits at position \|a\|+1 |
| SnailfishText.ParsePrint | src/day18.rs:211-254 | parsing the printed text of any number whose leaves fit a `usize` gives back that number |
| SnailfishText.ParsePrintRegular | src/day18.rs:239 | a printed regular number parses back to itself |
| SnailfishText.ParseBracketed | src/day18.rs:240-252 | `[a,b]` with its comma in place parses to the pair of the parses of a and b |
| Packets.HexValue | src/day16.rs:13 | a hex digit has a value below 16 |
| Packets.Nibble | src/day16.rs:13 | `{:04b}` gives exactly four characters |
| Packets.NibbleValue | src/day16.rs:13 | the four bits read as binary give the digit back |
| Packets.HexToBits | src/day16.rs:10-15 | the bit string is four times as long as the hex string, and block i is the four-bit form of hex digit i |
| Packets.Take | src/day16.rs:32-35 | `take(n)` yields at most n characters, fewer only when the stream ends |
| Packets.LiteralGroups | src/day16.rs:39-51 | the literal loop moves forward, and it counts 5 bits per group unless the stream ended |
| Packets.ParsePacket | src/day16.rs:31-82 | a parsed packet consumes input, reports at least 6 bits read, and reports exactly the bits consumed unless the stream ran out |
| Packets.ParseOperator | src/day16.rs:52-80 | an operator packet reports at least 18 bits, and exactly the bits consumed unless the stream ran out |
| Packets.SubsByLength | src/day16.rs:55-67 | the length-type loop stops only once the sub-packets have read at least `length` bits |
| Packets.SubsByCount | src/day16.rs:68-78 | the count-type loop parses exactly `count` sub-packets |
| Packets.FromChars | src/day16.rs:31-82 | `from_chars` returns exactly what `ParsePacket` defines, failures included |
| Packets.ReadOperator | src/day16.rs:52-80 | the operator branch equals `ParseOperator` |
| Packets.ReadLiteral | src/day16.rs:39-51 | the literal loop equals `LiteralGroups` |
| Packets.ReadSubsByLength | src/day16.rs:55-67 | the `while` loop over sub-packets equals `SubsByLength` |
| Packets.ReadSubsByCount | src/day16.rs:68-78 | the `for` loop over sub-packets equals `SubsByCount` |
| Packets.SubsByLengthStep | src/day16.rs:61-65 | one round of the length loop adds the sub-packet and its bits, and keeps the bit count exact |
| Packets.SubsByCountStep | src/day16.rs:73-77 | one round of the count loop adds the sub-packet and its bits, and keeps the bit count exact |
| Packets.SubsByLengthFails | src/day16.rs:62 | a sub-packet that fails to parse makes the whole length-type operator fail |
| Packets.SubsByCountFails | src/day16.rs:74 | a sub-packet that fails to parse makes the whole count-type operator fail |
| Packets.Flatten | src/day16.rs:84-90 | the pre-order list of packets starts with the packet itself; SumVersions sums the versions over this list |
| Packets.SumVersions | src/day16.rs:84-90 | `sum_versions` is the sum of the versions of all packets in the tree, each counted once |
| Packets.SumVersionsAll | src/day16.rs:87-89 | the same holds for a list of sub-packets |
| Packets.Min | src/day16.rs:98 | the minimum is one of the values and no value is smaller |
| Packets.Max | src/day16.rs:99 | the maximum is one of the values and no value is larger |
| Packets.EvaluateAll | src/day16.rs:92-124 | the sub-values exist exactly when every sub-packet evaluates, and each is that sub-packet's value |
| Packets.Evaluate | src/day16.rs:92-124 | `evaluate` returns a value exactly when every operator in the tree has a known opcode and enough operands, so it never panics on those packets |
| Packets.CompareValue | src/day16.rs:100-120 | opcodes 5, 6 and 7 give 1 or 0 for >, < and == between the first two sub-values |
| Packets.MinMaxValue | src/day16.rs:98-99 | opcodes 2 and 3 give a sub-value that is no larger (no smaller) than any other |
| Packets.Binary | src/day16.rs:31-37 | a w-bit field has exactly w binary characters; BinaryValue reads it back as its value |
| Packets.BinaryValue | src/day16.rs:33-35 | a field written in w bits, most significant bit first, reads back as its value |
| Packets.BinaryAccumulate | src/day16.rs:33-35 | reading a w-bit field shifts the running value left by w bits and adds the field |
| Packets.LiteralDigits | src/day16.rs:39-51 | the nibble digits of a literal form whole nibbles; LiteralDigitsValue reads them back as the literal |
| Packets.LiteralDigitsValue | src/day16.rs:50 | the concatenated nibbles of a literal read back as the literal's value |
| Packets.Groups | src/day16.rs:39-51 | each 4-bit nibble becomes a 5-bit group; LiteralGroupsEncoded reads the groups back as the nibbles |
| Packets.WrittenField | src/day16.rs:32-35 | a field that stands in the stream is what `take` returns and what `from_str_radix` reads |
| Packets.LiteralGroupsEncoded | src/day16.rs:39-51 | the literal loop over groups written in the stream returns the written nibbles and advances past them, 5 bits per group |
| Polymer.Inserted | src/day14.rs:13-15 | each adjacent pair inserts at most one element |
| Polymer.Apply | src/day14.rs:9-19 | the result is never shorter than the input; ApplyPositions states its content |
| Polymer.ApplyEnds | src/day14.rs:11-17 | `apply_rules` keeps the first and last elements |
| Polymer.ApplyRules | src/day14.rs:9-19 | the push loop of `apply_rules` builds exactly `Apply` |
| Polymer.ApplyLength | src/day14.rs:9-19 | the output length is the input length plus the number of pairs that have a rule |
| Polymer.ApplyPositions | src/day14.rs:9-19 | every input element appears in order at its shifted position, and the rule's element follows it when its pair matches |
| Polymer.IterateSingle | src/day14.rs:9-19 | a single element never grows |
| Polymer.IterateEnds | src/day14.rs:98-112 | repeated insertion keeps the first and last elements |
| Polymer.ApplyJoin | src/day14.rs:9-19 | insertion on two strings joined at a shared element is the join of the two insertions, so pairs expand independently |
| Polymer.IterateJoin | src/day14.rs:67-96 | the same holds after any number of steps, which is why counting pair by pair is sound |
| Polymer.Add | src/day14.rs:56-59 | `add` raises only key c, by `value`, and leaves every other key as it was |
| Polymer.Merge | src/day14.rs:61-65 | `add_all` is the pointwise sum of two counters |
| Polymer.TotalAdd | src/day14.rs:56-59 | `add` raises the sum of all counts by `value` |
| Polymer.TotalMerge | src/day14.rs:61-65 | the sum of a merged counter is the sum of the two sums |
| Polymer.AddAll | src/day14.rs:61-65 | the loop of `add_all` computes `Merge` |
| Polymer.Count | src/day14.rs:21-27 | `count` gives each character its number of occurrences, has keys for exactly the characters present, and its values sum to the length |
| Polymer.PairCountsGrown | src/day14.rs:67-96 | the counts `count_num_output` adds for (c0, c1, steps), as `PairCounts` defines them without the memo, are the occurrence counts of the expansion of [c0, c1] with the trailing c1 removed |
| Polymer.GrownHalves | src/day14.rs:88-93 | the occurrences in the expansion of a pair with a rule are those of its two halves, one step fewer each |
| Polymer.NoRuleStays | src/day14.rs:72-75 | a pair with no rule, or with no step left, expands to itself |
| Polymer.GrownSplit | src/day14.rs:88-93 | a pair with a rule expands as the pair (c0, x) followed by the pair (x, c1), one step fewer each |
| Polymer.CacheRecord | src/day14.rs:94-95 | recording a correct entry keeps every cache entry equal to the uncached counts |
| Polymer.CountFresh | src/day14.rs:77-93 | the counts built from an empty map for a pair the memo does not hold are `PairCounts` of that pair, and the memo stays correct |
| Polymer.CountNumOutput | src/day14.rs:67-96 | `count_num_output` adds exactly the counts of the expanded pair to the total (one c0 at 0 steps), and its cache stays correct |
| Polymer.PolymerCounts | src/day14.rs:98-112 | the `q2` counts (the last character plus every adjacent pair) equal the occurrence counts of the fully expanded polymer |
| Polymer.CountsAll | src/day14.rs:101-107 | the pair-by-pair sum plus the last character gives the counts of the expanded polymer |
| Syntax.OpenerOf | src/day10.rs:14-31 | every closer has an opener as its partner |
| Syntax.CloserOf | src/day10.rs:80-91 | every opener has a closer, and that closer's partner is the opener itself |
| Syntax.Scan | src/day10.rs:9-37 | scanning from a stack of openers leaves only openers on the stack, and stops early only at a closer |
| Syntax.Penalty | src/day10.rs:12-35 | the penalty table is one-to-one: each closer's penalty maps back to that closer |
| Syntax.ScanAppend | src/day10.rs:9-37 | scanning a line in two parts is the same as scanning it whole |
| Syntax.Closing | src/day10.rs:80-91 | the completion has one closer per open bracket |
| Syntax.ClosingCloses | src/day10.rs:80-91 | appending the completion closes every open bracket |
| Syntax.IncompleteCompletes | src/day10.rs:80-91 | an incomplete line followed by its completion is a complete line |
| Syntax.ScanLine | src/day10.rs:9-37 | the stack loop computes the outcome `Scan` defines (incomplete with its stack, or the first illegal closer) |
| Syntax.LinePenalty | src/day10.rs:12-35 | a line's penalty is positive exactly when it is corrupted, and it is one of 0, 3, 57, 1197, 25137 |
| Syntax.SyntaxErrorScore | src/day10.rs:4-41 | `q1` adds up the penalties of the lines |
| Syntax.TotalPenaltyBound | src/day10.rs:4-41 | each line adds at most one penalty, and the total is 0 exactly when no line is corrupted |
| Syntax.Value | src/day10.rs:82-89 | each opener scores 1 to 4 |
| Syntax.Score | src/day10.rs:80-91 | the completion score of a stack of n openers is below 5^n, and at least 5^(n-1) when the stack is not empty |
| Syntax.ScoreInjective | src/day10.rs:80-91 | two different stacks of openers never have the same completion score |
| Syntax.CompletionScore | src/day10.rs:80-91 | the fold over the stack from the top computes `Score` |
| Syntax.CompletionScores | src/day10.rs:44-93 | there is at most one completion score per line |
| Syntax.CompletionScoresCount | src/day10.rs:49-80 | the scores are exactly those of the lines that are not corrupted; corrupted lines give none |
| Syntax.CollectScores | src/day10.rs:47-94 | the line loop of `q2` collects exactly the completion scores of the lines that are not corrupted, in order, all non-negative |
| Syntax.MiddleScore | src/day10.rs:95-97 | `q2` returns the element at index len/2 of the sorted completion scores |
| Bingo.MarkGrid | src/day04.rs:22-30 | marking v flags every cell whose number is v, and changes nothing else |
| Bingo.MarkIdempotent | src/day04.rs:22-30 | marking the same number twice is the same as marking it once |
| Bingo.MarkKeepsWon | src/day04.rs:22-45 | once a board has won, further marking keeps it a winner |
| Bingo.CalledCells | src/day04.rs:22-30 | after a sequence of calls, a cell is marked exactly when it was marked before or its number was called; the order of the calls does not matter |
| Bingo.MarkLowersSum | src/day04.rs:47-57 | marking never raises the unmarked sum |
| Bingo.RowValues | src/day04.rs:10-14 | a board line reads as the numbers of its words, at most five |
| Bingo.Board.Parse | src/day04.rs:8-20 | the board is filled row by row from the next five lines, and every cell starts unmarked |
| Bingo.Board.Mark | src/day04.rs:22-30 | `mark` updates the board in place to `MarkGrid` of the old board |
| Bingo.Board.HasWon | src/day04.rs:32-45 | `has_won` holds exactly when some row or column is fully marked; diagonals do not count |
| Bingo.Board.SumUnmarked | src/day04.rs:47-57 | `sum_unmarked` is the sum of the numbers that are not marked |
| Bingo.FirstWon | src/day04.rs:79-86 | the first board in list order that has won, and no earlier board has |
| Bingo.CalledAll | src/day04.rs:79-86 | each board after a list of calls |
| Bingo.CalledAllNext | src/day04.rs:79-86 | one more call marks every board with that number |
| Bingo.Unwon | src/day04.rs:94-103 | the boards that survive a round of `q2` are exactly the boards that have not won |
| Bingo.MarkBoards | src/day04.rs:80-82 | marking all boards marks each one in place |
| Bingo.FindWinner | src/day04.rs:83-86 | the scan over boards returns the first board that has won |
| Bingo.FirstWinScore | src/day04.rs:77-89 | the answer is the score of the first call after which some board has won: that call's number times the unmarked sum of the first such board in list order; 1 when no call makes a board win |
| Bingo.FirstWinner | src/day04.rs:77-89 | `q1` returns the called number times the unmarked sum of the first board that wins |
| Bingo.KeepUnwon | src/day04.rs:94-103 | `q2`'s filter keeps, in order, exactly the boards that have not won |
| Bingo.LastWinScore | src/day04.rs:92-106 | an answer other than 1 is the unmarked sum of one of the boards, marked with the calls up to some call after which it has won, times that call's number; LastWinIsLast pins it to the last board to win |
| Bingo.CalledShift | src/day04.rs:79-82 | marking a board with one call and then with the later calls is marking it with all of them |
| Bingo.LastWinBack | src/day04.rs:94-103 | a score a board left after a round earns later is a score one of the boards earns from that round on |
| Bingo.LastWinner | src/day04.rs:92-106 | `q2`'s loop returns LastWinScore, which LastWinIsLast shows is the score of the last board to win |
| Bingo.LastWinIsLast | src/day04.rs:91-106 | `q2` answers with the score of the last board to win: when board k first wins at call u and every other board has won at some earlier call, the answer is call u's number times k's unmarked sum after that call |
| Bingo.LastWinFrom | src/day04.rs:93-103 | the same from any round t on, for the boards still in play: the one board that has not won before call u and wins at u gives the answer |
| Origami.Reflect | src/day13.rs:15-26 | points before the line stay put; otherwise the coordinate along the fold becomes 2·loc − coordinate, and the other coordinate is kept |
| Origami.Apply | src/day13.rs:15-26 | the folded set is exactly the reflections of the input points |
| Origami.ReflectNear | src/day13.rs:15-26 | a point on or before the line is unchanged |
| Origami.ApplyIdempotent | src/day13.rs:15-26 | folding twice along the same line gives the same set as folding once |
| Origami.ApplyShrinks | src/day13.rs:15-26 | a fold never makes the set larger |
| Origami.FoldAllMovesInward | src/day13.rs:98-102 | every point after a series of folds comes from an input point no closer to the origin |
| Origami.FoldAllBelow | src/day13.rs:98-102 | after the folds, every point is on or before every fold line |
| Origami.FoldAllShrinks | src/day13.rs:98-102 | a series of folds never makes the set larger |
| Vents.RangeIncl | src/day5.rs:17-23 | `gen_range_incl` has \|end − start\| + 1 elements, and element k is k steps from start toward end |
| Vents.RangeInclCovers | src/day5.rs:17-23 | the range holds exactly the values between start and end inclusive, each once |
| Vents.StraightPoints | src/day5.rs:45-52 | a horizontal or vertical line covers exactly the grid points between its endpoints |
| Vents.DiagonalPoints | src/day5.rs:53-60 | a line that is not straight covers nothing without diagonals, and with them exactly the points k steps along both axes |
| Vents.DiagonalsOnlyAdd | src/day5.rs:43-61 | the points without diagonals are a subset of the points with them |
| Vents.EndpointsDrawn | src/day5.rs:43-61 | both endpoints of a straight line are covered |
| Vents.Points | src/day5.rs:43-61 | the insertion loops of `points` build exactly the line's point set |
| Vents.FindIntersection | src/day5.rs:69-83 | the doubled points are exactly those on at least two lines, and the count is their number |
| Octopus.AroundSymmetric | src/day11.rs:19-33 | adjacency is symmetric |
| Octopus.Neighbors | src/day11.rs:19-33 | `neighbors` returns every in-grid cell one step away on both axes except the cell itself, each once, 3 to 8 of them |
| Octopus.Raise | src/day11.rs:38-45 | raising a cell adds one to that cell only |
| Octopus.ForwardStep | src/day11.rs:36-64 | a step relates the grids before and after: a cell flashes exactly when its old level plus one plus one per flashed neighbour exceeds 9, and the flashed set is the least set closed under that rule; flashed cells are 0, every other cell is that sum; the count is the number of flashed cells, at most 100 |
| Octopus.SteppedUnique | src/day11.rs:36-64 | the levels before a step decide which cells flash and the levels after it |
| Octopus.RunUnique | src/day11.rs:76-83 | runs of the same number of steps from the same levels are the same run |
| Octopus.SteppedAllZero | src/day11.rs:60-74 | after a step every cell is 0 exactly when every cell flashed |
| Octopus.AllFlashing | src/day11.rs:66-74 | `all_flashing` holds exactly when every cell is 0 |
| Octopus.TotalFlashes | src/day11.rs:76-83 | `q1`'s loop runs n steps from the grid's levels, and its total is the number of flashes summed over that run (the only one, by `RunUnique`), at most 100·n |
| Octopus.RaiseAll | src/day11.rs:38-45 | the first pass raises every cell once and records each cell above 9, each of which any closed flash set must hold |
| Octopus.Cascade | src/day11.rs:46-59 | the `while` loop ends with every cell at its old level plus one plus one per flashed neighbour, a cell flashed exactly when that is above 9, and only cells every closed flash set holds |
| Octopus.FlashRound | src/day11.rs:48-58 | one round flashes the current cells, raises their neighbours, and queues each neighbour that newly passes 9, keeping the flashed set within every closed set |
| Octopus.FlashCell | src/day11.rs:51-57 | one flashing cell raises each neighbour by one and records each that newly passes 9 |
| Octopus.ForcedGrow | src/day11.rs:53-55 | a neighbour pushed above 9 by cells that must flash must flash too |
| Octopus.ResetFlashed | src/day11.rs:60-62 | the reset sets the flashed cells to 0 and keeps the rest |
| Diagnostic.NthDigit | src/day03.rs:72-75 | `nth_digit` is 0 or 1, and it is bit d of n |
| Diagnostic.GammaEpsilonComplement | src/day03.rs:10-23 | gamma + epsilon = 2^12 − 1 |
| Diagnostic.GammaBits | src/day03.rs:10-23 | bit d of gamma is 1 exactly when more than half of the numbers have a 1 there |
| Diagnostic.GammaEpsilon | src/day03.rs:4-25 | the loop of `q1` computes gamma and epsilon |
| Diagnostic.DigitOnes | src/day03.rs:38-42 | the count of ones at a digit is at most the list length |
| Diagnostic.KeepDigitAsWrittenOddLength | src/day03.rs:49-61 | as written, for three numbers with one 1 the o2 rule keeps the minority digit 1, and the CO2 rule keeps the majority digit 0 |
| Diagnostic.KeepDigit | src/day03.rs:43-61 | the digit to keep is 0 or 1 |
| Diagnostic.KeepDigitMajority | src/day03.rs:43-61 | o2 keeps a digit shared by at least half, CO2 a digit shared by at most half, and a tie keeps 1 for o2 and 0 for CO2 |
| Diagnostic.KeepDigitAgrees | src/day03.rs:49-61 | the corrected and the as-written rules differ only when the length is odd and exactly len/2 numbers have a 1 |
| Diagnostic.KeepOnly | src/day03.rs:62-66 | the filter keeps exactly the numbers whose digit is the kept one, so the survivors come from the input |
| Diagnostic.ReportInInput | src/day03.rs:35-70 | a rating that is found is one of the input numbers |
| Diagnostic.ReportSingle | src/day03.rs:35-70 | a single number is its own rating |
| Diagnostic.CountOnes | src/day03.rs:38-42 | the counting loop computes `DigitOnes` |
| Diagnostic.Filter | src/day03.rs:62-66 | the filter loop computes `KeepOnly` |
| Diagnostic.FindReport | src/day03.rs:35-70 | `find_report` from digit 11 returns the rating, or None where the source panics |
| Dive.ParseCommand | src/day02.rs:15-21 | a line that parses has at least two words |
| Dive.ParseCommands | src/day02.rs:11-26 | parsing succeeds with one command per line, each the parse of its line |
| Dive.ParseUnknown | src/day02.rs:17-21 | any word other than forward, up or down is rejected |
| Dive.ParseRender | src/day02.rs:15-21 | a command written as text parses back to itself |
| Dive.Pilot | src/day02.rs:29-41 | `q1`'s loop returns the product of the final position and depth |
| Dive.PilotAim | src/day02.rs:44-60 | `q2`'s loop returns the product of the final position and depth |
| Dive.ForwardsAppend | src/day02.rs:35 | the forward sum of two command lists is the sum of their forward sums |
| Dive.CoursesAgree | src/day02.rs:35-52 | in both parts the position is the sum of the forward amounts, and part 2's aim follows part 1's depth |
| Dive.SameUnderflow | src/day02.rs:36-55 | part 1 underflows exactly when part 2 does |
| Dive.AimDepthNonNegative | src/day02.rs:49-58 | without underflow, part 2's aim and depth stay non-negative |
| Trajectory.PeakHeight | src/day17.rs:6-24 | the simulation loop returns the result of the flight function |
| Trajectory.FlightHits | src/day17.rs:10-23 | the flight returns Some exactly when some step lands in the target before it has been overshot |
| Trajectory.FlightPeak | src/day17.rs:9-15 | the peak is the height at the step where the y velocity is 0, when that step comes before the hit |
| Trajectory.LaunchPeak | src/day17.rs:9-15 | a launch upward at yv that hits peaks at yv(yv+1)/2 |
| Trajectory.DragKeepsDirection | src/day17.rs:20 | the x velocity never goes negative, so x never decreases |
| Trajectory.FallVelocity | src/day17.rs:21 | after m steps the y velocity has dropped by m |
| Trajectory.Height | src/day17.rs:18-21 | the height after m steps is y + m·yv − m(m−1)/2 |
| Trajectory.CountSolutions | src/day17.rs:44-56 | `q2` counts the velocity pairs in its ranges that hit the target |
| Trajectory.ColumnHitsCounts | src/day17.rs:44-56 | the count over one x velocity is the number of y velocities that hit |
| Trajectory.FirstPeak | src/day17.rs:30-39 | the downward search over y velocity stops at the highest one that hits |
| Trajectory.HighestHitFinds | src/day17.rs:30-39 | the search finds something exactly when some y velocity in range hits |
| Trajectory.HighestHitIsHighest | src/day17.rs:30-39 | what it finds is the flight of the highest hitting y velocity |
| Trajectory.MaxPeak | src/day17.rs:26-42 | `q1` returns the best such peak over all x velocities |
| Trajectory.BestPeakIsMax | src/day17.rs:26-42 | that best peak is at least every peak found and is never negative |
| Sonar.Increases | src/day01.rs:20-30 | the count of increases is at most len − gap |
| Sonar.IncreasesCounts | src/day01.rs:20-30 | the count is the number of indices i with numbers[i] > numbers[i − gap]; equal neighbours do not count |
| Sonar.NumIncreasing | src/day01.rs:20-30 | the loop of `num_increasing` counts the increases between neighbours |
| Sonar.Windows | src/day01.rs:13-16 | there are len − 2 windows |
| Sonar.WindowsAt | src/day01.rs:13-16 | window i is numbers[i] + numbers[i+1] + numbers[i+2] |
| Sonar.BuildWindows | src/day01.rs:13-16 | the push loop builds those windows |
| Sonar.WindowIncreases | src/day01.rs:13-17 | the window increases are exactly the i with numbers[i+3] > numbers[i] |
| Sonar.SlidingIncreases | src/day01.rs:10-18 | `q2` counts the i with numbers[i+3] > numbers[i] |
| Crabs.CostSort | src/day7.rs:5-8 | sorting does not change the total distance to a target |
| Crabs.SortedMedianOptimal | src/day7.rs:5-8 | in a sorted list, the element at index len/2 has the least total distance |
| Crabs.MedianCost | src/day7.rs:4-10 | `q1`'s median cost is the total distance to one of the positions, and no larger than the total distance to any integer target |
| Crabs.MedianBest | src/day7.rs:5-8 | the median of the sorted positions is a position and beats every integer target |
| Crabs.Distance | src/day7.rs:13-16 | `distance` is 1 + 2 + … + n for a gap of n |
| Crabs.TriangleIsStepsCost | src/day7.rs:15 | n·(n + 1)/2 is the sum 1 + 2 + … + n |
| Crabs.StepsCostMonotone | src/day7.rs:13-16 | a larger gap never costs less |
| Crabs.DistanceFacts | src/day7.rs:13-16 | `distance` is symmetric and is 0 exactly when the positions are equal |
| Crabs.Max | src/day7.rs:18-19 | the maximum is an element and no element is larger |
| Crabs.Min | src/day7.rs:18-19 | the minimum is an element and no element is smaller |
| Crabs.LeastFuelIsMin | src/day7.rs:18-24 | the search returns the fuel of some target in the range, and no target in the range needs less |
| Crabs.FuelFartherOut | src/day7.rs:18-24 | moving the target away from all crabs never lowers the fuel |
| Crabs.AlignFuel | src/day7.rs:12-25 | `q2`'s minimum is the fuel for some target in [min, max], and no larger than the fuel for any integer target |
| Crabs.RangeBest | src/day7.rs:18-24 | some target in [min, max] needs no more fuel than any integer target |
| Lanternfish.Buckets | src/day6.rs:6-9 | there are nine buckets; BucketsTotal states that each fish is counted once |
| Lanternfish.BucketsTotal | src/day6.rs:6-9 | the buckets count every fish once |
| Lanternfish.DayTotal | src/day6.rs:11-18 | a day adds exactly old bucket 0 to the total |
| Lanternfish.DaysGrow | src/day6.rs:11-18 | the total never decreases from one day to the next |
| Lanternfish.Rotate | src/day6.rs:11-18 | the shifting loop turns the array into the next day's buckets in place |
| Lanternfish.NumLanternfish | src/day6.rs:4-21 | `num_lanternfish` is the total after the given number of days |
| Lanternfish.NoDays | src/day6.rs:6-9 | with 0 days the result is the number of input fish |
| SevenSegment.ParseEntry | src/day08.rs:12-32 | the patterns are the words before " \| ", and there are exactly four outputs; a line without the separator is rejected |
| SevenSegment.LastOfLength | src/day08.rs:40-64 | the last pattern of a given length, if any |
| SevenSegment.WithBoth | src/day08.rs:66-80 | exactly the unknowns that contain both segments of 1 |
| SevenSegment.Unresolved | src/day08.rs:100-106 | exactly the unknowns that were not resolved |
| SevenSegment.Classify | src/day08.rs:80-99 | each pattern is mapped by its number of segments outside the reference pattern |
| SevenSegment.PlaceLast | src/day08.rs:80-99 | a digit gets the last pattern assigned to it, or keeps its old entry |
| SevenSegment.SortByLengthFacts | src/day08.rs:40-64 | lengths 2, 3, 4 and 7 give 1, 7, 4 and 8 and leave the unknowns; all other patterns stay unknown |
| SevenSegment.After039 | src/day08.rs:66-107 | `resolve_039` keeps all ten digit slots; Wiring.Step039 proves it places 0, 3 and 9 correctly |
| SevenSegment.After256 | src/day08.rs:109-140 | `resolve_256` keeps all ten digit slots; Wiring.Step256 proves it places 2, 5 and 6 correctly |
| SevenSegment.Resolution | src/day08.rs:34-38 | `resolve` fills ten digit slots; Wiring.ResolveDisplay proves each digit gets its own pattern |
| SevenSegment.RefineFacts | src/day08.rs:151-153 | the filter keeps, in order, the options whose pattern contains every character of the word |
| SevenSegment.Decode | src/day08.rs:142-159 | `try_decoding` gives Some(i) exactly when pattern i alone among the resolved digits has the word's length and contains all its characters |
| SevenSegment.MatchesExactlyOne | src/day08.rs:142-159 | exactly one option is left, and it is i, when i is the one resolved digit that fits the word |
| SevenSegment.CountDecoded | src/day08.rs:161-168 | `num_parsed` is at most the number of outputs; CountDecodedAll gives the exact count |
| SevenSegment.CountDecodedAll | src/day08.rs:161-168 | `num_parsed` counts every output exactly when every output decodes |
| SevenSegment.ReadingDigits | src/day08.rs:170-177 | 1000·d0 + 100·d1 + 10·d2 + d3 is below 10000, and its decimal digits are d0 to d3 |
| SevenSegment.Code.constructor | src/day08.rs:12-32 | a new code has the patterns as unknowns, the four outputs as input, and no known digit |
| SevenSegment.Code.Resolve1478 | src/day08.rs:40-64 | `resolve_1478` updates knowns and unknowns in place to `SortByLength` of the old ones |
| SevenSegment.Code.Resolve039 | src/day08.rs:66-107 | `resolve_039` updates knowns and unknowns in place to `After039` of the old ones |
| SevenSegment.Code.Resolve256 | src/day08.rs:109-140 | `resolve_256` updates knowns and unknowns in place to `After256` of the old ones |
| SevenSegment.Code.Resolve | src/day08.rs:34-38 | `resolve` leaves no unknown pattern and sets the knowns to the resolution |
| SevenSegment.Code.TryDecoding | src/day08.rs:142-159 | the filtering loop of `try_decoding` returns `Decode` of the knowns |
| SevenSegment.Code.NumParsed | src/day08.rs:161-168 | `num_parsed` is at most 4; Wiring.ReadDisplay shows it is 4 for any display |
| Wiring.CanonLengths | src/day08.rs:40-64 | the standard digits 1, 7, 4 and 8 are the only ones with 2, 3, 4 and 7 segments |
| Wiring.CanonUnique | src/day08.rs:142-159 | no two standard digits light the same segments |
| Wiring.Step1478 | src/day08.rs:40-64 | for any rewiring, `resolve_1478` places 1, 7, 4 and 8 correctly and leaves the other six unknown |
| Wiring.Step039 | src/day08.rs:66-107 | for any rewiring, `resolve_039` then places 0, 3 and 9 correctly |
| Wiring.Step256 | src/day08.rs:109-140 | for any rewiring, `resolve_256` then places 2, 5 and 6 correctly |
| Wiring.ResolveDisplay | src/day08.rs:34-38 | for any one-to-one rewiring and any order of the ten patterns, `resolve` assigns every digit its own pattern |
| Wiring.DecodeDisplay | src/day08.rs:142-159 | after that, every rewired digit pattern, in any letter order, decodes to its digit |
| Wiring.ReadDisplay | src/day08.rs:161-177 | all four outputs decode, so `num_parsed` is 4 and `decode_input` reads the displayed digits |
| Basins.AdjacentCases | src/day09.rs:20-31 | the orthogonal neighbours in the map, case by case at the edges |
| Basins.Cells | src/day09.rs:18-35 | the set of all in-map cells |
| Basins.IsLowest | src/day09.rs:20-31 | the edge-by-edge test of `find_lowest_points` holds exactly when the cell is strictly lower than every in-map orthogonal neighbour |
| Basins.LowestBelowNeighbors | src/day09.rs:20-31 | the four edge-guarded comparisons hold exactly when the cell is lower than every in-map neighbour |
| Basins.LowPointsExactly | src/day09.rs:18-35 | the low points are exactly the cells lower than all their neighbours, in row-major order |
| Basins.FindLowestPoints | src/day09.rs:18-35 | the nested loops of `find_lowest_points` build exactly that list |
| Basins.ScanRow | src/day09.rs:23-32 | the column loop appends exactly the low points of its row, left to right |
| Basins.TotalRisk | src/day09.rs:37-45 | `q1`'s risk is between the number of low points and ten times it |
| Basins.NonNineNeighbors | src/day09.rs:47-65 | `non_nine_neighbors` returns exactly the in-map neighbours whose height is not 9, each once, at most 4 |
| Basins.NonNineExact | src/day09.rs:47-65 | the neighbour list holds exactly the non-9 steps |
| Basins.NonNineDistinct | src/day09.rs:47-65 | the neighbour list has no repeats and at most four entries |
| Basins.StartInBasin | src/day09.rs:67-82 | counting walks of length 0, the start cell is in its basin |
| Basins.Spread | src/day09.rs:74-80 | one round grows the basin by the new neighbours and queues each new cell once |
| Basins.Flood | src/day09.rs:67-82 | the worklist loop ends with exactly the cells reachable from the start through non-9 steps, at most rows × cols of them, and each cell is pushed at most once |
| Basins.BasinSize | src/day09.rs:67-82 | as written, `basin_size` counts the reachable cells other than through a walk of length 0, so the start cell counts only if a walk returns to it |
| Basins.IsolatedLowPoint | src/day09.rs:67-82 | the map [[0]] has a low point whose basin, as written, is empty, though the cell belongs to its own basin |
| Basins.BasinSizeCounted | src/day09.rs:67-82 | with the start cell counted, the size is the number of cells reachable from the start, at least 1 and at most rows × cols |
| Basins.BasinsAgree | src/day09.rs:67-82 | for a start cell with a non-9 neighbour the two counts agree |
| Basins.BasinSizes | src/day09.rs:87-90 | one basin size per low point |
| Basins.TopThree | src/day09.rs:91-92 | three elements, or all of them when there are fewer |
| Basins.TopThreeLargest | src/day09.rs:87-92 | the three taken from the sorted sizes are sizes, and no size left out exceeds any of them |
| Basins.LargestBasins | src/day09.rs:84-94 | `q2` returns the product of the three largest basin sizes |
| Caves.ParseLine | src/day12.rs:11-13 | a line parses exactly when it holds a dash; the two names contain no dash, and the line begins with them joined by a dash |
| Caves.EdgesExact | src/day12.rs:10-27 | the edge list fails exactly when some line does not parse, and otherwise has one edge per line |
| Caves.Add | src/day12.rs:14-26 | appending to a list adds its key |
| Caves.Adjacency | src/day12.rs:10-27 | the map has a list exactly for the caves that end some edge |
| Caves.Parse | src/day12.rs:7-29 | `parse` builds the adjacency map of the edge list, or fails on a line without a dash |
| Caves.AddPassage | src/day12.rs:14-26 | the two `get_mut` matches of one passage put each end on the other's list, creating a list when there is none |
| Caves.AdjacencyCounts | src/day12.rs:10-27 | b occurs in a's list as often as a occurs in b's list, so adjacency is symmetric |
| Caves.AdjacencyClosed | src/day12.rs:10-27 | every cave in a list has a list of its own |
| Caves.RouteTail | src/day12.rs:36-55 | a route is a step to a neighbour not yet seen, followed by a route from there with that cave marked seen when it is small |
| Caves.CountPaths | src/day12.rs:36-55 | `count_paths` is the number of routes that `Routes` lists, which `RoutesExact` characterises |
| Caves.SumPaths | src/day12.rs:40-53 | the sum over a neighbour list is the number of routes through those neighbours |
| Caves.RoutesExact | src/day12.rs:36-55 | the listed routes are exactly the routes to `end` that enter no seen small cave and no small cave twice |
| Caves.RoutesDistinct | src/day12.rs:36-55 | no route is listed twice |
| Caves.FirstPartCountsPaths | src/day12.rs:57-62 | `q1` is the number of distinct routes from `start` to `end` that never re-enter `start` or any small cave |
| Caves.CountPathsDouble | src/day12.rs:64-96 | once the one revisit has been used, `count_paths_double` counts exactly what `count_paths` counts; while it is unused, it never counts fewer |
| Caves.SumPathsDouble | src/day12.rs:73-94 | the same holds for the sum over a neighbour list |
| Chiton.AroundNear | src/day15.rs:19-34 | at most four neighbours, each one step away, never the cell itself |
| Chiton.AroundExact | src/day15.rs:19-34 | for an in-map cell, the neighbours are exactly the in-map orthogonal cells |
| Chiton.AroundOrdered | src/day15.rs:19-34 | the neighbours come in the order up, left, down, right |
| Chiton.Neighbors | src/day15.rs:19-34 | the push sequence of `neighbors` returns those neighbours |
| Chiton.Raised | src/day15.rs:64-69 | wrapping keeps a risk level in 1..9 |
| Chiton.Cycle | src/day15.rs:61-64 | the position within a tile is below the tile size |
| Chiton.QuintupleAsWritten | src/day15.rs:54-87 | as written, an n×m map becomes 5m rows of 5n columns |
| Chiton.Quintuple | src/day15.rs:54-87 | an n×m map becomes 5n rows of 5m columns |
| Chiton.QuintupleTiles | src/day15.rs:54-87 | tile (r, c) holds each original level raised by r + c and wrapped into 1..9 |
| Chiton.QuintupleKeepsOriginal | src/day15.rs:54-87 | the top-left tile equals the input |
| Chiton.QuintupleNextTile | src/day15.rs:54-87 | the tile one step right or down is one level higher, wrapped, and every level stays in 1..9 |
| Chiton.AsWrittenSquare | src/day15.rs:54-87 | for a square map, the map as written equals the corrected one |
| Chiton.AsWrittenTiles | src/day15.rs:54-87 | as written, within the first 5·rows rows and 5·rows columns (and 5·columns rows), entry (i, j) is the original level at (i mod rows, j mod columns) raised by i div rows + j div rows, both tile indices measured by `nrows`, and it stays in 1..9 |
| Chiton.AsWrittenAboveNine | src/day15.rs:72-82 | for the 1×3 map [[1, 2, 3]], the map as written has 15 rows, and row 14 holds an 11 at column 4, a risk level outside 1..9 |
| Chiton.AsWrittenOblong | src/day15.rs:54-87 | for the 1×2 map [[1, 2]], the map as written has 10 rows starting [1, 3, 3, 5, 5], while the intended one has 5 rows of 10 |

## Left out

- File reading in every `q1`/`q2` and all of `src/util.rs` are I/O. The model takes parsed values. The `#[test]` answers depend on data files that are not part of this model.
- `read_as_binary_string` (src/day16.rs:6-16) reads a file. Only the hex-to-bits expansion on line 13 is modelled.
- Printing is left out: `display` in src/day13.rs and the console side of `print` in src/day18.rs. `print` is modelled as a function to a string.
- Parsing of points and folds in src/day13.rs, of lines in src/day5.rs, of the rules in src/day14.rs, and of the digit grids in src/day09.rs, src/day11.rs and src/day15.rs. These are file-reading glue. The models start from the parsed grids, points and rules.
- `cheapest_path` in src/day15.rs uses `f32` arithmetic and `f32::INFINITY`.
- `Rc<RefCell<_>>` sharing in src/day18.rs is not modelled, and neither is `Rc::ptr_eq` identity, nor the way `add` consumes its operands (the reason `q2` calls `deep_clone`). A number is a value tree, and a node is found by path or in-order leaf index.
- `HashMap`/`HashSet` iteration order is not modelled. Maps and sets are Dafny `map`/`set`, and no property depends on order.
- `usize` overflow is not modelled, except the overflow error of `from_str_radix`. Counts, sums and products are unbounded.
- Rust's `sort` is modelled by `Sorting.Sort`, a stable insertion sort on values. `SortIsTheSortedPermutation` shows that every sort of integers gives the same result.
- SnailfishReduce.Add: takes a fuel bound, because termination of snailfish reduction is not proved. None means the fuel ran out.
- SnailfishReduce.Reduce: like `Add`, it is bounded by fuel.
- SnailfishReduce.Add: requires operands of height at most 4, which holds for reduced numbers and for puzzle input. `unwrap_regular` can panic on deeper operands, and that case is not modelled.
- SnailfishText.Parse: character indices stand for byte indices. `find_comma` (src/day18.rs:256-271) counts characters but `split_at` takes a byte offset, so on non-ASCII text the source can panic at a non-boundary where the model reports an error.
- Bingo.LastWinScore: when the last boards still in play all win on the same call, the filter (src/day04.rs:101) empties the list and the answer falls through to 1 (line 105). The model returns 1 there too, and `LastWinIsLast` covers only a single last winner.
- Origami.FoldAll is a plain definition of `q2`'s fold loop. Its contracts are the lemmas `FoldAllMovesInward`, `FoldAllBelow` and `FoldAllShrinks`.
- Snailfish.LeftOf, Snailfish.RightOf, Snailfish.Magnitude, SnailfishReduce.Explode, SnailfishReduce.Split and SnailfishReduce.Step are plain definitions. Their contracts are lemmas (`LeftOfIsPrevious`, `RightOfIsNext`, `MagnitudeByLeaves`, `ExplodeAtLeaves`, `SplitAtLeaves`, `StepSpec`).
- Packets: there is no general encoder, so no whole-packet round trip `parse(encode(p)) == p`. The fields and literal groups have read-back lemmas (`WrittenField`, `LiteralGroupsEncoded`).
- Packets.Evaluate: returns None where `evaluate` would panic. That covers an unknown opcode, and too few sub-packets for a comparison, a minimum or a maximum.
- Polymer.PolymerCounts: returns the counts, not `q2`'s maximum minus minimum. That last step is a fold over `HashMap` values.
- The loop in src/day11.rs `q2` (step until all flash) may not terminate. `SteppedAllZero` and `AllFlashing` give its stopping condition.
- Octopus.ForwardStep: its result relation is stated with ghost values, so its contract uses `old`.
- Diagnostic.FindReport: uses the corrected keep rule (see Findings). It returns None where the source panics: the filter empties the list, or the digit would go below 0.
- Dive: an `up` larger than the current depth (part 1) or aim (part 2) would underflow a `usize`. It is a precondition (`NeverAbove`, `NeverAimsUp`).
- Trajectory: `isize` overflow is not modelled.
- Lanternfish.NumLanternfish: requires every timer to be below 9. The source indexes out of bounds otherwise.
- SevenSegment.Code.DecodeInput: has no contract of its own. Its arithmetic is stated by `ReadingDigits`, and the whole decode by `Wiring.ReadDisplay`.
- SevenSegment.ParseEntry: returns None for a line without " | " or without four outputs, where the source panics.
- Basins.LargestBasins: uses the corrected basin size (see Findings).
- Basins: maps are assumed rectangular. The source indexes `map[0].len()` for every row.
- Chiton: maps are assumed rectangular as well.
- Caves: `is_big_cave` tests Unicode `is_uppercase`. The model tests ASCII `A`-`Z`.
- Caves: a cave missing from the map panics at `unwrap`. The model requires every listed cave to have a list (`WellFormed`), which `AdjacencyClosed` shows `parse` guarantees.
- Caves: termination of `count_paths` is proved only under the assumption that no two big caves are adjacent.
- Caves.CountPathsDouble, Caves.SumPathsDouble: characterised relative to `count_paths` (equal once the revisit is used, never fewer before), not by an exact route set, because the revisit branch and the `start` filter would need a second route definition.
- src/day1.rs and src/day01.rs define the same `num_increasing` and the same window sums (day1.rs:23-33 and day01.rs:20-30). They differ only in lint attributes, the `parse_numbers` arguments and the test data files, so the module `Sonar` models both.

## Findings

| source | as written | input that shows it | evidently intended | confidence | as-written member | corrected member |
|---|---|---|---|---|---|---|
| src/day03.rs:49-61 | o2 keeps 1 when `num_ones >= len / 2` with integer division, so for an odd length a minority of ones counts as the most common digit (and CO2 keeps the majority digit) | [0, 1, 2048] at digit 0: 1 of 3 numbers has a 1, len/2 = 1, o2 keeps 1 | keep the digit shared by at least half (o2) or at most half (CO2) of the numbers, with ties going to 1 for o2 and 0 for CO2 | not executed | Diagnostic.KeepDigitAsWrittenOddLength | Diagnostic.KeepDigitMajority |
| src/day09.rs:67-82 | the start cell is never inserted into `basin`. It counts only if a neighbour leads back to it, so an isolated low point has basin size 0 | [[0]]: the single cell is a low point with no neighbours, and `basin_size` returns 0 | the basin includes its low point, so its size is at least 1 | not executed | Basins.IsolatedLowPoint | Basins.BasinSizeCounted |
| src/day15.rs:54-87 | both tiling passes measure rows and columns with `nrows`, so a non-square map gets its axes swapped | [[1, 2]] (1 row, 2 columns): 10 rows of 5 instead of 5 rows of 10; [[1, 2, 3]]: 15 rows, and row 14 holds the risk 11 | 5·rows by 5·columns, with tile (r, c) raised by r + c | not executed | Chiton.AsWrittenOblong | Chiton.QuintupleTiles |
