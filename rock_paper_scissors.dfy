/**
  Day 2 of Advent of Code 2022: score a strategy guide for rock, paper,
  scissors. Each line names the opponent's play (`A`, `B`, `C`) and the round
  result to aim for (`X` lose, `Y` draw, `Z` win); a round scores the result
  (0, 3 or 6) plus the play that brings that result about (1, 2 or 3). Lines
  that cannot be read are skipped and add nothing.

  Scores are the integers the program works with, `-1` standing for an
  unrecognised symbol, so the lookup tables are total.
*/
module RockPaperScissors {
  import opened Strings

  /** The score of a play, or -1 for no play. */
  type PlayScore = s: int | s == -1 || 1 <= s <= 3 witness -1

  /** The score of a round result, or -1 for no result. */
  type ResultScore = s: int | s == -1 || s == 0 || s == 3 || s == 6

  const ROCK_SCORE: PlayScore := 1
  const PAPER_SCORE: PlayScore := 2
  const SCISSORS_SCORE: PlayScore := 3
  const INVALID_SCORE: PlayScore := -1
  const WIN_SCORE: ResultScore := 6
  const DRAW_SCORE: ResultScore := 3
  const LOSE_SCORE: ResultScore := 0

  predicate IsPlay(p: PlayScore)
  {
    p != INVALID_SCORE
  }

  // ---------------------------------------------------------------- the rules of the game

  /** Rock beats scissors, paper beats rock, scissors beat paper. */
  predicate Defeats(mine: PlayScore, theirs: PlayScore)
  {
    || (mine == ROCK_SCORE && theirs == SCISSORS_SCORE)
    || (mine == PAPER_SCORE && theirs == ROCK_SCORE)
    || (mine == SCISSORS_SCORE && theirs == PAPER_SCORE)
  }

  /** The result of a round, from my side. */
  function RoundResult(mine: PlayScore, theirs: PlayScore): ResultScore
    requires IsPlay(mine) && IsPlay(theirs)
  {
    if Defeats(mine, theirs) then WIN_SCORE
    else if mine == theirs then DRAW_SCORE
    else LOSE_SCORE
  }

  // ---------------------------------------------------------------- the lookup tables

  /**
    The play to make against `theirScore` to obtain `targetResult`. An invalid
    result, or an invalid opponent play when aiming to win or lose, gives
    INVALID_SCORE; aiming to draw passes the opponent's score through as it is.
  */
  function GetTargetScore(targetResult: ResultScore, theirScore: PlayScore): (r: PlayScore)
    ensures IsPlay(theirScore) && targetResult != INVALID_SCORE ==>
              IsPlay(r) && RoundResult(r, theirScore) == targetResult
    ensures targetResult == DRAW_SCORE ==> r == theirScore
    ensures r == INVALID_SCORE <==> targetResult == INVALID_SCORE || theirScore == INVALID_SCORE
  {
    if targetResult == LOSE_SCORE then
      if theirScore == ROCK_SCORE then SCISSORS_SCORE
      else if theirScore == PAPER_SCORE then ROCK_SCORE
      else if theirScore == SCISSORS_SCORE then PAPER_SCORE
      else INVALID_SCORE
    else if targetResult == DRAW_SCORE then theirScore
    else if targetResult == WIN_SCORE then
      if theirScore == ROCK_SCORE then PAPER_SCORE
      else if theirScore == PAPER_SCORE then SCISSORS_SCORE
      else if theirScore == SCISSORS_SCORE then ROCK_SCORE
      else INVALID_SCORE
    else INVALID_SCORE
  }

  /** The opponent's play written as `A`, `B` or `C`. */
  function GetPlayScore(input: string): (r: PlayScore)
    ensures r == ROCK_SCORE <==> input == "A"
    ensures r == PAPER_SCORE <==> input == "B"
    ensures r == SCISSORS_SCORE <==> input == "C"
  {
    if input == "A" then ROCK_SCORE
    else if input == "B" then PAPER_SCORE
    else if input == "C" then SCISSORS_SCORE
    else INVALID_SCORE
  }

  /** The result to aim for, written as `X`, `Y` or `Z`. */
  function GetTargetResult(input: string): (r: ResultScore)
    ensures r == LOSE_SCORE <==> input == "X"
    ensures r == DRAW_SCORE <==> input == "Y"
    ensures r == WIN_SCORE <==> input == "Z"
  {
    if input == "X" then LOSE_SCORE
    else if input == "Y" then DRAW_SCORE
    else if input == "Z" then WIN_SCORE
    else INVALID_SCORE
  }

  /** The play the table picks is the only play that gives the result aimed for. */
  lemma TargetScoreIsTheOnlyPlay(targetResult: ResultScore, theirScore: PlayScore, mine: PlayScore)
    requires targetResult != INVALID_SCORE && IsPlay(theirScore) && IsPlay(mine)
    ensures RoundResult(mine, theirScore) == targetResult <==> mine == GetTargetScore(targetResult, theirScore)
  {
  }

  /**
    The winning table is the cycle rock, paper, scissors; the losing table runs
    the same cycle backwards, so each undoes the other.
  */
  lemma WinAndLoseTablesAreInverse(p: PlayScore)
    requires IsPlay(p)
    ensures GetTargetScore(WIN_SCORE, p) == p % 3 + 1
    ensures GetTargetScore(LOSE_SCORE, p) == (p + 1) % 3 + 1
    ensures GetTargetScore(LOSE_SCORE, GetTargetScore(WIN_SCORE, p)) == p
    ensures GetTargetScore(WIN_SCORE, GetTargetScore(LOSE_SCORE, p)) == p
  {
  }

  // ---------------------------------------------------------------- one line

  /** What one line of the guide amounts to; the last two are skipped lines. */
  datatype LineOutcome = Scored(points: int) | TooFewTokens | InvalidPlay

  /**
    The reducer's decision on the tokens of a line: only the first two are
    looked at, and both must be recognised symbols.
  */
  function ScoreTokens(tokens: seq<string>): (r: LineOutcome)
    ensures r.TooFewTokens? <==> |tokens| < 2
    ensures r.Scored? <==> |tokens| >= 2 && tokens[0] in {"A", "B", "C"} && tokens[1] in {"X", "Y", "Z"}
    ensures r.Scored? ==> 1 <= r.points <= 9
    ensures r.Scored? ==>
              var target := GetTargetResult(tokens[1]);
              var mine := r.points - target;
              1 <= mine <= 3 && RoundResult(mine, GetPlayScore(tokens[0])) == target
  {
    if |tokens| < 2 then TooFewTokens
    else
      var theirScore := GetPlayScore(tokens[0]);
      var targetResult := GetTargetResult(tokens[1]);
      if targetResult != INVALID_SCORE && theirScore != INVALID_SCORE then
        Scored(targetResult + GetTargetScore(targetResult, theirScore))
      else
        InvalidPlay
  }

  /** A line is trimmed and cut at every single space. */
  function Tokens(line: string): (tokens: seq<string>)
    ensures |tokens| >= 1
    ensures forall i :: 0 <= i < |tokens| ==> ' ' !in tokens[i]
    ensures Join(tokens, " ") == Trim(line)
  {
    SplitPiecesLackSeparator(Trim(line), ' ');
    JoinSplit(Trim(line), " ");
    Split(Trim(line), " ")
  }

  /** A line is too short to score exactly when no space is left in it once trimmed. */
  function ScoreLine(line: string): (r: LineOutcome)
    ensures r.TooFewTokens? <==> ' ' !in Trim(line)
  {
    SplitSinglePiece(Trim(line), ' ');
    ScoreTokens(Tokens(line))
  }

  /** What a line adds to the running total. */
  function Points(outcome: LineOutcome): int
  {
    if outcome.Scored? then outcome.points else 0
  }

  /** A scored line adds between 1 and 9. */
  lemma ScoredLineBounds(line: string)
    requires ScoreLine(line).Scored?
    ensures 1 <= Points(ScoreLine(line)) <= 9
  {
  }

  /** Tokens after the second are ignored. */
  lemma ExtraTokensIgnored(tokens: seq<string>)
    requires |tokens| >= 2
    ensures ScoreTokens(tokens) == ScoreTokens(tokens[..2])
  {
  }

  /**
    On a line without surrounding whitespace, anything written after a space
    that follows the two symbols leaves its score as it is.
  */
  lemma ExtraTextIgnored(line: string, extra: string)
    requires line != [] && !IsWhitespace(line[0]) && !IsWhitespace(line[|line| - 1])
    requires extra != [] && !IsWhitespace(extra[0]) && !IsWhitespace(extra[|extra| - 1])
    requires |Tokens(line)| >= 2
    ensures ScoreLine(line + " " + extra) == ScoreLine(line)
  {
    var whole := line + " " + extra;
    TokensOfJoinedText(line, extra);
    var tokens := Tokens(whole);
    assert tokens[..2] == Tokens(line)[..2];
    ExtraTokensIgnored(tokens);
    ExtraTokensIgnored(Tokens(line));
  }

  /** The tokens of two unpadded texts joined by a space are the tokens of each. */
  lemma TokensOfJoinedText(line: string, extra: string)
    requires line != [] && !IsWhitespace(line[0]) && !IsWhitespace(line[|line| - 1])
    requires extra != [] && !IsWhitespace(extra[0]) && !IsWhitespace(extra[|extra| - 1])
    ensures Tokens(line + " " + extra) == Tokens(line) + Split(extra, " ")
  {
    var whole := line + " " + extra;
    assert whole[0] == line[0] && whole[|whole| - 1] == extra[|extra| - 1];
    TrimUnpadded(line);
    TrimUnpadded(whole);
    SplitAppend(line, ' ', extra);
  }

  /** Two symbols with one space between them are cut into those two tokens. */
  lemma SplitAtOneSpace(a: char, b: char)
    requires a != ' ' && b != ' '
    ensures Split([a, ' ', b], " ") == [[a], [b]]
  {
    assert [a, ' ', b] == [a] + [' '] + [b];
    SplitAppend([a], ' ', [b]);
    SplitWithoutSeparator([a], ' ');
    SplitWithoutSeparator([b], ' ');
  }

  /*
    The examples below are stated for a line equal to a literal rather than for
    the literal itself, so that the verifier works through the definitions
    one step at a time.
  */

  /** First line of the puzzle statement's example: draw against rock. */
  lemma DrawExample(line: string)
    ensures line == "A Y" ==> ScoreLine(line) == Scored(4)
  {
    if line == "A Y" {
      TrimUnpadded(line);
      SplitAtOneSpace('A', 'Y');
    }
  }

  /** Second line of the puzzle statement's example: lose against paper. */
  lemma LoseExample(line: string)
    ensures line == "B X" ==> ScoreLine(line) == Scored(1)
  {
    if line == "B X" {
      TrimUnpadded(line);
      SplitAtOneSpace('B', 'X');
    }
  }

  /** Third line of the puzzle statement's example: win against scissors. */
  lemma WinExample(line: string)
    ensures line == "C Z" ==> ScoreLine(line) == Scored(7)
  {
    if line == "C Z" {
      TrimUnpadded(line);
      SplitAtOneSpace('C', 'Z');
    }
  }

  /** Surrounding whitespace, a carriage return included, is trimmed away. */
  lemma PaddedLineExample(line: string)
    ensures line == " C Z\r" ==> ScoreLine(line) == Scored(7)
  {
    if line == " C Z\r" {
      assert line == [' '] + "C Z" + ['\r'];
      TrimPadded(' ', "C Z", '\r');
      SplitAtOneSpace('C', 'Z');
    }
  }

  /** A third token does not change the score. */
  lemma ThirdTokenExample(line: string)
    ensures line == "A Y B" ==> ScoreLine(line) == Scored(4)
  {
    if line == "A Y B" {
      TrimUnpadded(line);
      assert line == "A Y" + [' '] + "B";
      SplitAppend("A Y", ' ', "B");
      SplitAtOneSpace('A', 'Y');
      SplitWithoutSeparator("B", ' ');
    }
  }

  /** Two spaces leave an empty second token, which is not a symbol. */
  lemma DoubleSpaceExample(line: string)
    ensures line == "A  Y" ==> ScoreLine(line) == InvalidPlay
  {
    if line == "A  Y" {
      TrimUnpadded(line);
      assert line == "A" + [' '] + " Y";
      SplitAppend("A", ' ', " Y");
      assert " Y" == [] + [' '] + "Y";
      SplitAppend([], ' ', "Y");
      SplitWithoutSeparator("A", ' ');
    }
  }

  /** An unknown symbol makes the line skipped. */
  lemma UnknownSymbolExample(line: string)
    ensures line == "D X" ==> ScoreLine(line) == InvalidPlay
  {
    if line == "D X" {
      TrimUnpadded(line);
      SplitAtOneSpace('D', 'X');
    }
  }

  /** A line without a space is skipped. */
  lemma NoSpaceExample(line: string)
    ensures line == "AY" ==> ScoreLine(line) == TooFewTokens
  {
    if line == "AY" {
      TrimUnpadded(line);
      assert Split(line, " ") == [line] by {
        SplitWithoutSeparator(line, ' ');
      }
    }
  }

  /** The empty line is skipped. */
  lemma EmptyLineSkipped()
    ensures ScoreLine("") == TooFewTokens
  {
    assert Tokens("") == [""];
  }

  // ---------------------------------------------------------------- the whole guide

  /** The reducer: a scored line adds its points, a skipped one returns the total unchanged. */
  function AddLine(runningTotal: int, line: string): (r: int)
    ensures ScoreLine(line).Scored? ==> runningTotal + 1 <= r <= runningTotal + 9
    ensures !ScoreLine(line).Scored? ==> r == runningTotal
  {
    match ScoreLine(line)
    case Scored(points) => runningTotal + points
    case TooFewTokens => runningTotal
    case InvalidPlay => runningTotal
  }

  /** `reduce` over the lines, from the left, starting at `runningTotal`. */
  function Reduce(runningTotal: int, lines: seq<string>): (r: int)
    ensures runningTotal <= r <= runningTotal + 9 * |lines|
    decreases |lines|
  {
    if lines == [] then runningTotal else Reduce(AddLine(runningTotal, lines[0]), lines[1..])
  }

  /** The points of the lines, added up. */
  function Total(lines: seq<string>): (t: int)
    ensures 0 <= t <= 9 * |lines|
  {
    if lines == [] then 0 else Points(ScoreLine(lines[0])) + Total(lines[1..])
  }

  /** `calculateTotal`: split on line breaks, drop empty lines, reduce from 0. */
  function CalculateTotal(input: string): (total: int)
    ensures 0 <= total <= 9 * |Split(input, "\n")|
  {
    Reduce(0, NonEmpty(Split(input, "\n")))
  }

  /** The fold adds each line's points to where it started. */
  lemma {:induction false} ReduceAddsTotal(runningTotal: int, lines: seq<string>)
    ensures Reduce(runningTotal, lines) == runningTotal + Total(lines)
    decreases |lines|
  {
    if lines != [] {
      ReduceAddsTotal(AddLine(runningTotal, lines[0]), lines[1..]);
    }
  }

  lemma {:induction false} TotalAppend(a: seq<string>, b: seq<string>)
    ensures Total(a + b) == Total(a) + Total(b)
    decreases |a|
  {
    if a == [] {
      assert a + b == b;
    } else {
      assert (a + b)[0] == a[0];
      assert (a + b)[1..] == a[1..] + b;
      TotalAppend(a[1..], b);
    }
  }

  /** Processing more lines never lowers the total. */
  lemma TotalNeverDecreases(lines: seq<string>, k: nat)
    requires k <= |lines|
    ensures Total(lines[..k]) <= Total(lines)
  {
    var before, after := lines[..k], lines[k..];
    assert before + after == lines;
    TotalAppend(before, after);
  }

  /** A skipped line changes nothing, wherever it stands. */
  lemma SkippedLineAddsNothing(before: seq<string>, line: string, after: seq<string>)
    requires !ScoreLine(line).Scored?
    ensures Total(before + [line] + after) == Total(before + after)
  {
    TotalAppend(before + [line], after);
    TotalAppend(before, [line]);
    TotalAppend(before, after);
  }

  /** Dropping the empty lines does not change the total: they score nothing anyway. */
  lemma {:induction false} DroppingEmptyLinesKeepsTotal(lines: seq<string>)
    ensures Total(NonEmpty(lines)) == Total(lines)
    decreases |lines|
  {
    if lines != [] {
      DroppingEmptyLinesKeepsTotal(lines[1..]);
      if lines[0] != "" {
        assert NonEmpty(lines) == [lines[0]] + NonEmpty(lines[1..]);
      } else {
        assert ScoreLine(lines[0]) == TooFewTokens;
      }
    }
  }

  /** The total of an input is the sum of the points of all its lines, and so never negative. */
  lemma CalculateTotalIsSum(input: string)
    ensures CalculateTotal(input) == Total(Split(input, "\n"))
    ensures 0 <= CalculateTotal(input) <= 9 * |Split(input, "\n")|
  {
    ReduceAddsTotal(0, NonEmpty(Split(input, "\n")));
    DroppingEmptyLinesKeepsTotal(Split(input, "\n"));
  }

  /** Two guides written one after the other score the sum of their scores. */
  lemma CalculateTotalAppend(x: string, y: string)
    ensures CalculateTotal(x + "\n" + y) == CalculateTotal(x) + CalculateTotal(y)
  {
    CalculateTotalIsSum(x + "\n" + y);
    CalculateTotalIsSum(x);
    CalculateTotalIsSum(y);
    SplitAppend(x, '\n', y);
    TotalAppend(Split(x, "\n"), Split(y, "\n"));
  }

  /** The three-line guide of the puzzle statement scores 12. */
  lemma GuideExample(input: string)
    ensures input == "A Y\nB X\nC Z\n" ==> CalculateTotal(input) == 12
  {
    if input == "A Y\nB X\nC Z\n" {
      var lines := ["A Y", "B X", "C Z", ""];
      GuideLines(input, lines);
      CalculateTotalIsSum(input);
      GuideLinesTotal(lines[0], lines[1], lines[2], lines[3]);
      assert lines == [lines[0], lines[1], lines[2], lines[3]];
    }
  }

  lemma GuideLines(input: string, lines: seq<string>)
    requires input == "A Y\nB X\nC Z\n"
    requires lines == ["A Y", "B X", "C Z", ""]
    ensures Split(input, "\n") == lines
  {
    JoinCons("C Z", [""], "\n");
    JoinCons("B X", ["C Z", ""], "\n");
    JoinCons("A Y", ["B X", "C Z", ""], "\n");
    assert Join(lines, "\n") == input;
    SplitJoin(lines, '\n');
  }

  lemma GuideLinesTotal(a: string, b: string, c: string, d: string)
    requires a == "A Y" && b == "B X" && c == "C Z" && d == ""
    ensures Total([a, b, c, d]) == 12
  {
    DrawExample(a);
    LoseExample(b);
    WinExample(c);
    EmptyLineSkipped();
    TotalOfFour(a, b, c, d);
  }

  lemma TotalOfFour(a: string, b: string, c: string, d: string)
    ensures Total([a, b, c, d]) == Points(ScoreLine(a)) + Points(ScoreLine(b))
                                    + Points(ScoreLine(c)) + Points(ScoreLine(d))
  {
    TotalOfOne(d);
    TotalAppend([c], [d]);
    TotalOfOne(c);
    TotalAppend([b], [c, d]);
    TotalOfOne(b);
    TotalAppend([a], [b, c, d]);
    TotalOfOne(a);
  }

  lemma TotalOfOne(line: string)
    ensures Total([line]) == Points(ScoreLine(line))
  {
    assert [line][1..] == [];
  }
}
