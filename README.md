# Advent of Code 2022, days 1 and 2, in Dafny

This project models two small Advent of Code 2022 solutions and proves what
they compute.

- **Day 2, rock paper scissors** (`typescript/advent-of-code-2022-day2/index.ts`).
  A strategy guide has one round per line: the opponent's play (`A` rock,
  `B` paper, `C` scissors) and the result to aim for (`X` lose, `Y` draw,
  `Z` win). Three lookup tables turn the symbols into scores and pick the play
  that brings the wanted result about. `calculateTotal` splits the guide on
  line breaks, drops empty lines, trims each line and cuts it at every single
  space. It then folds the lines into a total: a readable line adds its result
  score (0, 3, 6) plus the score of the play picked (1, 2, 3), and any other
  line adds nothing. The model is pure: the tables are total functions
  (`RockPaperScissors.GetTargetScore` and friends), the fold is
  `RockPaperScissors.Reduce`, and `RockPaperScissors.CalculateTotal` returns
  the total that the program logs.
- **Day 1, calorie counting** (`swift/advent-of-code-2022-day1.playground/Contents.swift`).
  `calorieCalculator(with:)` splits the input on blank lines into one group per
  elf and sums each group's lines as integers. A loop keeps the largest sum
  seen, starting from 0. The model keeps the loop: `CalorieCounting.CalorieCalculator`
  is a method whose invariant ties `max` to the pure specification
  `CalorieCounting.MaxOrZero` of the totals seen so far.

Shared text handling is in module `Strings`:

- `Split` is a split on a separator string that keeps empty pieces, like
  JavaScript's `split`.
- `NonEmpty` drops the empty pieces. `NonEmpty(Split(..))` is Swift's
  `split(separator:)`, which omits empty pieces.
- `Join` undoes `Split`: joining the pieces gives the text back (`JoinSplit`).
  The converse holds only when no piece holds the separator (`SplitJoin`,
  `SplitJoinUnmatched`).
- `Trim` is JavaScript's `trim`, over the whitespace and line-terminator
  characters of ECMAScript.

Swift's `Int(_: String)` is in module `SwiftInt`, with the decimal formatter
`Format` as its partner.

The guide's tokens come from `split(" ")` on a single space, not from a split
on runs of whitespace. The model follows the code: a doubled space yields an
empty second token, and the line is skipped
(`RockPaperScissors.DoubleSpaceExample`).

## Model

| member | source | states |
|---|---|---|
| RockPaperScissors.GetPlayScore | typescript/advent-of-code-2022-day2/index.ts:66-78 | the score is rock, paper or scissors exactly when the input is "A", "B" or "C"; every other string gives -1 |
| RockPaperScissors.GetTargetResult | typescript/advent-of-code-2022-day2/index.ts:85-97 | the result is lose, draw or win exactly when the input is "X", "Y" or "Z"; every other string gives -1 |
| RockPaperScissors.GetTargetScore | typescript/advent-of-code-2022-day2/index.ts:29-59 | for a valid result and opponent play, the play returned is a real play that achieves that result under the rules of the game (`RoundResult`); a draw passes the opponent's play through; the answer is -1 exactly when the result or the opponent's play is invalid |
| RockPaperScissors.TargetScoreIsTheOnlyPlay | typescript/advent-of-code-2022-day2/index.ts:29-54 | a play gets the wanted result against the opponent if and only if it is the one the table picks |
| RockPaperScissors.WinAndLoseTablesAreInverse | typescript/advent-of-code-2022-day2/index.ts:31-54 | the win table is the cycle rock→paper→scissors→rock; the lose table is the reverse cycle; each undoes the other |
| RockPaperScissors.ScoreTokens | typescript/advent-of-code-2022-day2/index.ts:116-134 | a line is skipped for too few tokens exactly when it has fewer than two; it scores exactly when its first two tokens are recognised symbols; a score lies in 1..9 and is the result aimed for plus a play that achieves it |
| RockPaperScissors.Tokens | typescript/advent-of-code-2022-day2/index.ts:112-114 | a line gives at least one token, no token holds a space, and the tokens joined by single spaces are the trimmed line |
| RockPaperScissors.ScoreLine | typescript/advent-of-code-2022-day2/index.ts:112-134 | a line is skipped for too few tokens exactly when its trimmed text holds no space; the rest of its outcome is the contract of `ScoreTokens` |
| RockPaperScissors.ScoredLineBounds | typescript/advent-of-code-2022-day2/index.ts:127-129 | a scored line adds between 1 and 9 |
| RockPaperScissors.ExtraTokensIgnored | typescript/advent-of-code-2022-day2/index.ts:124 | only the first two tokens decide the outcome of a line |
| RockPaperScissors.ExtraTextIgnored | typescript/advent-of-code-2022-day2/index.ts:112-124 | on an unpadded line that already has two tokens, appending a space and more text does not change its outcome |
| RockPaperScissors.DrawExample | typescript/advent-of-code-2022-day2/index.ts:112-129 | "A Y" scores 4 |
| RockPaperScissors.LoseExample | typescript/advent-of-code-2022-day2/index.ts:112-129 | "B X" scores 1 |
| RockPaperScissors.WinExample | typescript/advent-of-code-2022-day2/index.ts:112-129 | "C Z" scores 7 |
| RockPaperScissors.PaddedLineExample | typescript/advent-of-code-2022-day2/index.ts:112-114 | " C Z\r" is trimmed and scores 7 |
| RockPaperScissors.ThirdTokenExample | typescript/advent-of-code-2022-day2/index.ts:124 | "A Y B" scores 4: the third token is ignored |
| RockPaperScissors.DoubleSpaceExample | typescript/advent-of-code-2022-day2/index.ts:112-134 | "A  Y" has an empty second token and is skipped as an invalid play |
| RockPaperScissors.UnknownSymbolExample | typescript/advent-of-code-2022-day2/index.ts:124-134 | "D X" is skipped as an invalid play |
| RockPaperScissors.NoSpaceExample | typescript/advent-of-code-2022-day2/index.ts:116-122 | "AY" is one token and is skipped |
| RockPaperScissors.EmptyLineSkipped | typescript/advent-of-code-2022-day2/index.ts:108-122 | the empty line is skipped |
| RockPaperScissors.AddLine | typescript/advent-of-code-2022-day2/index.ts:116-136 | a scored line raises the running total by 1 to 9; a skipped line returns it unchanged |
| RockPaperScissors.Reduce | typescript/advent-of-code-2022-day2/index.ts:109-137 | the fold never lowers the running total and raises it by at most 9 per line; its exact value is given by `ReduceAddsTotal` |
| RockPaperScissors.CalculateTotal | typescript/advent-of-code-2022-day2/index.ts:103-137 | the total lies between 0 and 9 times the number of lines; its exact value, the points of every line added up, is given by `CalculateTotalIsSum` |
| RockPaperScissors.Total | typescript/advent-of-code-2022-day2/index.ts:109-137 | the points of a list of lines lie between 0 and 9 per line |
| RockPaperScissors.ReduceAddsTotal | typescript/advent-of-code-2022-day2/index.ts:109-137 | the reduce from a running total ends at that total plus the points of all the lines |
| RockPaperScissors.TotalAppend | typescript/advent-of-code-2022-day2/index.ts:109-137 | the total of two line lists written one after the other is the sum of their totals |
| RockPaperScissors.TotalNeverDecreases | typescript/advent-of-code-2022-day2/index.ts:109-137 | the total of any prefix of the lines is at most the total of all of them |
| RockPaperScissors.SkippedLineAddsNothing | typescript/advent-of-code-2022-day2/index.ts:116-136 | a line that is not scored leaves the total unchanged wherever it stands |
| RockPaperScissors.DroppingEmptyLinesKeepsTotal | typescript/advent-of-code-2022-day2/index.ts:108 | filtering out the empty lines does not change the total |
| RockPaperScissors.CalculateTotalIsSum | typescript/advent-of-code-2022-day2/index.ts:103-137 | `calculateTotal` is the sum of the points of every line of the input, so it is at least 0 and at most 9 per line |
| RockPaperScissors.CalculateTotalAppend | typescript/advent-of-code-2022-day2/index.ts:106-137 | two guides joined by a line break score the sum of their scores |
| RockPaperScissors.GuideExample | typescript/advent-of-code-2022-day2/index.ts:103-137 | the guide "A Y\nB X\nC Z\n" scores 12 |
| Strings.Split | typescript/advent-of-code-2022-day2/index.ts:107 | splitting gives at least one piece |
| Strings.JoinSplit | typescript/advent-of-code-2022-day2/index.ts:107-114 | splitting loses nothing: joining the pieces back with the separator gives the input |
| Strings.SplitJoin | typescript/advent-of-code-2022-day2/index.ts:107 | pieces free of a one-character separator, joined by it and split again, come back unchanged |
| Strings.SplitAppend | typescript/advent-of-code-2022-day2/index.ts:107-114 | splitting text that contains a separator character is splitting each side and concatenating the pieces |
| Strings.SplitSinglePiece | typescript/advent-of-code-2022-day2/index.ts:114-116 | a split on one character yields a single piece exactly when the character does not occur |
| Strings.SplitWithoutSeparator | typescript/advent-of-code-2022-day2/index.ts:114-116 | text without the separator character is one piece |
| Strings.SplitPiecesLackSeparator | swift/advent-of-code-2022-day1.playground/Contents.swift:10 | no piece of a split on one character holds that character |
| Strings.SplitAfterPiece | swift/advent-of-code-2022-day1.playground/Contents.swift:6 | for a piece holding no match of a multi-character separator, splitting the piece, the separator and more text gives the piece followed by the split of the rest |
| Strings.SplitJoinUnmatched | swift/advent-of-code-2022-day1.playground/Contents.swift:6 | pieces holding no match of the separator, joined by it and split again, come back unchanged |
| Strings.NonEmpty | typescript/advent-of-code-2022-day2/index.ts:108 | the kept pieces are exactly the non-empty pieces, and there are no more of them than before |
| Strings.NonEmptyAppend | swift/advent-of-code-2022-day1.playground/Contents.swift:10 | dropping empty pieces distributes over concatenation |
| Strings.NonEmptyKeepsAll | swift/advent-of-code-2022-day1.playground/Contents.swift:6 | a list without empty pieces is kept as it is |
| Strings.Trim | typescript/advent-of-code-2022-day2/index.ts:113 | the trimmed text is no longer than the input and neither starts nor ends with whitespace |
| Strings.StripStart | typescript/advent-of-code-2022-day2/index.ts:113 | the result is a suffix of the input that does not start with a stripped character |
| Strings.StripEnd | typescript/advent-of-code-2022-day2/index.ts:113 | the result is a prefix of the input that does not end with a stripped character |
| Strings.StripStartRemovesOnlyWs | typescript/advent-of-code-2022-day2/index.ts:113 | everything removed from the front is a stripped character |
| Strings.StripEndRemovesOnlyWs | typescript/advent-of-code-2022-day2/index.ts:113 | everything removed from the back is a stripped character |
| Strings.StripKeepsMiddle | typescript/advent-of-code-2022-day2/index.ts:113 | stripping both ends keeps one slice of the input with only stripped characters around it, and keeps nothing exactly when the input consists of stripped characters |
| Strings.TrimKeepsMiddle | typescript/advent-of-code-2022-day2/index.ts:113 | `trim` keeps a slice of the input with only whitespace around it, and yields the empty string exactly when the input is all whitespace |
| Strings.TrimUnpadded | typescript/advent-of-code-2022-day2/index.ts:113 | text that neither starts nor ends with whitespace is left as it is |
| Strings.TrimPadded | typescript/advent-of-code-2022-day2/index.ts:113 | one whitespace character on each side of unpadded text is removed |
| SwiftInt.Parse | swift/advent-of-code-2022-day1.playground/Contents.swift:10 | `Int(_:)` succeeds only on an optional sign followed by decimal digits, and only with a value inside the 64-bit range |
| SwiftInt.ParseFormat | swift/advent-of-code-2022-day1.playground/Contents.swift:10 | reading back the decimal text of any 64-bit integer gives that integer |
| SwiftInt.FormatHasNoNewline | swift/advent-of-code-2022-day1.playground/Contents.swift:10 | the decimal text of an integer is never empty and holds no line break |
| CalorieCounting.Groups | swift/advent-of-code-2022-day1.playground/Contents.swift:6 | the groups are pieces of the input between blank-line separators, none of them empty; empty input has no group |
| CalorieCounting.GroupLines | swift/advent-of-code-2022-day1.playground/Contents.swift:10 | the lines of a group are non-empty and hold no line break |
| CalorieCounting.WellFormed | swift/advent-of-code-2022-day1.playground/Contents.swift:10 | no ensures: it holds exactly when every line of every group converts with `Int(_:)`, so that the forced unwrap does not trap; `WrittenInputGivesLargestTotal` shows that every input written in the puzzle's format satisfies it |
| CalorieCounting.SumLines | swift/advent-of-code-2022-day1.playground/Contents.swift:10 | no ensures: the reduce of one group's lines, added from the left; its value is given by `SumLinesAppend` and `SumLinesOfParsed` |
| CalorieCounting.GroupSum | swift/advent-of-code-2022-day1.playground/Contents.swift:10 | no ensures: the total of one group; its value is given by `GroupSumAppend` and `GroupOfNumbers` |
| CalorieCounting.MaxCalories | swift/advent-of-code-2022-day1.playground/Contents.swift:3-18 | no ensures: the answer as a function of the input; the ensures of `CalorieCalculator` and `MaxOfGroupSums` state what it is |
| CalorieCounting.CalorieCalculator | swift/advent-of-code-2022-day1.playground/Contents.swift:3-18 | on input whose lines all convert, the answer is the largest group total or 0: it is at least 0, at least every group's total, and either 0 or some group's total |
| CalorieCounting.MaxOrZero | swift/advent-of-code-2022-day1.playground/Contents.swift:5-17 | the running maximum from 0 is at least 0, at least every total, and either 0 or one of the totals |
| CalorieCounting.MaxOrZeroUnique | swift/advent-of-code-2022-day1.playground/Contents.swift:9-15 | those three properties determine the answer |
| CalorieCounting.MaxOrZeroIgnoresOrder | swift/advent-of-code-2022-day1.playground/Contents.swift:9-15 | the answer depends only on which totals occur, not on the order of the groups or on repeats |
| CalorieCounting.MaxOfGroupSums | swift/advent-of-code-2022-day1.playground/Contents.swift:9-17 | the maximum over the group totals bounds every group and is 0 or the total of some group |
| CalorieCounting.NoGroupsGiveZero | swift/advent-of-code-2022-day1.playground/Contents.swift:5-17 | input without any group, for instance empty input, is accepted and gives 0 |
| CalorieCounting.GroupSums | swift/advent-of-code-2022-day1.playground/Contents.swift:9-10 | there is one total per group, in order, each the sum of that group's lines |
| CalorieCounting.SumLinesAppend | swift/advent-of-code-2022-day1.playground/Contents.swift:10 | the sum over two lists of lines written one after the other is the sum of the two sums |
| CalorieCounting.GroupSumAppend | swift/advent-of-code-2022-day1.playground/Contents.swift:10 | two groups joined by a line break form a group whose total is the sum of their totals |
| CalorieCounting.SumLinesOfParsed | swift/advent-of-code-2022-day1.playground/Contents.swift:10 | lines that convert to given numbers sum to the arithmetic sum of those numbers |
| CalorieCounting.SumLinesFormatAll | swift/advent-of-code-2022-day1.playground/Contents.swift:10 | numbers written as decimal text convert back, and their lines sum to the arithmetic sum |
| CalorieCounting.GroupOfNumbers | swift/advent-of-code-2022-day1.playground/Contents.swift:10 | a group written as numbers, one per line, converts and totals to their arithmetic sum |
| CalorieCounting.GroupTextShape | swift/advent-of-code-2022-day1.playground/Contents.swift:6 | a written group is not empty, does not start with a line break and holds no blank line |
| CalorieCounting.NoBlankLineUnmatched | swift/advent-of-code-2022-day1.playground/Contents.swift:6 | text without a blank line holds no group separator |
| CalorieCounting.WrittenInputGivesLargestTotal | swift/advent-of-code-2022-day1.playground/Contents.swift:3-18 | for any elves with at least one item each, the input written in the puzzle's format converts without trapping, and the answer is the largest elf total or 0 |
| CalorieCounting.PuzzleExample | swift/advent-of-code-2022-day1.playground/Contents.swift:3-18 | the five elves of the puzzle statement give 24000 |

## Left out

- Console output is not modelled. This covers the `console.error` and `console.info` calls in index.ts and the `print` in Contents.swift. `RockPaperScissors.CalculateTotal` returns the total that `calculateTotal` logs.
- The `try`/`catch` around the reduce in index.ts is not modelled: nothing inside it throws on a string input.
- The embedded puzzle input and the top-level call in index.ts are data, not logic.
- Loading the input file through `Bundle` and the `UIKit` import in Contents.swift are I/O.
- The default branch of `getTargetScore` logs a global `input` that is not its parameter. Only the returned -1 is modelled; `calculateTotal` never reaches that branch because of its validity guard.
- CalorieCounting.CalorieCalculator: does not model the trap when a running sum overflows a 64-bit `Int`. Sums are unbounded integers, so on inputs whose totals leave the `Int` range the model returns a value where Swift stops.
- CalorieCounting.CalorieCalculator: the trap of `Int($1)!` on a line that does not convert is a precondition (`WellFormed`), not a modelled failure.
- Text is a sequence of Unicode scalar values. Swift compares grapheme clusters, so `"\r\n"` is one character there and is not split at `"\n"`. JavaScript strings are UTF-16 code units. Only inputs with such sequences are affected.
- Strings.Trim: the whitespace set is the fixed list of ECMAScript WhiteSpace and LineTerminator characters (the space separators of Unicode included); later additions to the Unicode Zs category are not tracked.
- A variant of day 1 that adds up the three largest totals is not part of this model.
