/**
  Day 1 of Advent of Code 2022: the input lists, elf by elf, the calories of
  the items each elf carries, one number per line, with a blank line between
  elves. `CalorieCalculator` returns the largest total carried by one elf, or 0
  when there is no elf at all.
*/
module CalorieCounting {
  import opened Wrappers
  import opened Strings
  import opened SwiftInt

  // ---------------------------------------------------------------- reading the input

  /** `calories.split(separator: "\n\n")`: one piece per elf, empty pieces dropped. */
  function Groups(calories: string): (groups: seq<string>)
    ensures forall i :: 0 <= i < |groups| ==> groups[i] != ""
    ensures forall g :: g in groups ==> g in Split(calories, "\n\n")
    ensures calories == "" ==> groups == []
  {
    NonEmpty(Split(calories, "\n\n"))
  }

  /** `elf.split(separator: "\n")`: the non-empty lines of one elf's group. */
  function GroupLines(group: string): (lines: seq<string>)
    ensures forall i :: 0 <= i < |lines| ==> lines[i] != "" && '\n' !in lines[i]
  {
    SplitPiecesLackSeparator(group, '\n');
    NonEmpty(Split(group, "\n"))
  }

  /** Every line converts with `Int(_:)`; otherwise the forced unwrap `!` traps. */
  predicate LinesParse(lines: seq<string>)
  {
    forall i :: 0 <= i < |lines| ==> Parse(lines[i]).Some?
  }

  predicate GroupParses(group: string)
  {
    LinesParse(GroupLines(group))
  }

  predicate GroupsParse(groups: seq<string>)
  {
    forall i :: 0 <= i < |groups| ==> GroupParses(groups[i])
  }

  /** The input on which `calorieCalculator` does not trap. */
  predicate WellFormed(calories: string)
  {
    GroupsParse(Groups(calories))
  }

  // ---------------------------------------------------------------- sums

  /** `reduce(0) { $0 + Int($1)! }`: the numbers on the lines, added from the left. */
  function SumLines(lines: seq<string>): int
    requires LinesParse(lines)
  {
    if lines == [] then 0
    else SumLines(lines[..|lines| - 1]) + Parse(lines[|lines| - 1]).value
  }

  /** The calories one elf carries. */
  function GroupSum(group: string): int
    requires GroupParses(group)
  {
    SumLines(GroupLines(group))
  }

  /** The total of each group, in input order. */
  function GroupSums(groups: seq<string>): (sums: seq<int>)
    requires GroupsParse(groups)
    ensures |sums| == |groups|
    ensures forall i :: 0 <= i < |groups| ==> sums[i] == GroupSum(groups[i])
  {
    if groups == [] then [] else [GroupSum(groups[0])] + GroupSums(groups[1..])
  }

  /** The sum over a concatenation of lines is the sum of the two sums. */
  lemma {:induction false} SumLinesAppend(a: seq<string>, b: seq<string>)
    requires LinesParse(a) && LinesParse(b)
    ensures LinesParse(a + b)
    ensures SumLines(a + b) == SumLines(a) + SumLines(b)
    decreases |b|
  {
    if b == [] {
      assert a + b == a;
    } else {
      var b' := b[..|b| - 1];
      assert (a + b)[..|a + b| - 1] == a + b';
      assert (a + b)[|a + b| - 1] == b[|b| - 1];
      SumLinesAppend(a, b');
    }
  }

  /**
    Putting two lists of calories one after the other, separated by a line
    break, gives one elf carrying both.
  */
  lemma GroupSumAppend(x: string, y: string)
    requires GroupParses(x) && GroupParses(y)
    ensures GroupParses(x + "\n" + y)
    ensures GroupSum(x + "\n" + y) == GroupSum(x) + GroupSum(y)
  {
    SplitAppend(x, '\n', y);
    NonEmptyAppend(Split(x, "\n"), Split(y, "\n"));
    SumLinesAppend(GroupLines(x), GroupLines(y));
  }

  /** The decimal text of numbers, one per element. */
  function FormatAll(ns: seq<int>): (lines: seq<string>)
    ensures |lines| == |ns|
    ensures forall i :: 0 <= i < |ns| ==> lines[i] == Format(ns[i])
  {
    if ns == [] then [] else [Format(ns[0])] + FormatAll(ns[1..])
  }

  /** The arithmetic sum, added from the left. */
  function Sum(ns: seq<int>): int
  {
    if ns == [] then 0 else Sum(ns[..|ns| - 1]) + ns[|ns| - 1]
  }

  /** The numbers written one per line read back as those numbers. */
  lemma SumLinesFormatAll(ns: seq<int>)
    requires forall i :: 0 <= i < |ns| ==> InRange(ns[i])
    ensures LinesParse(FormatAll(ns))
    ensures SumLines(FormatAll(ns)) == Sum(ns)
  {
    var lines := FormatAll(ns);
    forall i | 0 <= i < |ns| ensures Parse(lines[i]) == Some(ns[i]) {
      ParseFormat(ns[i]);
    }
    SumLinesOfParsed(lines, ns);
  }

  /** Lines that read back as the numbers `ns` sum to the sum of `ns`. */
  lemma {:induction false} SumLinesOfParsed(lines: seq<string>, ns: seq<int>)
    requires |lines| == |ns|
    requires forall i :: 0 <= i < |ns| ==> Parse(lines[i]) == Some(ns[i])
    ensures LinesParse(lines)
    ensures SumLines(lines) == Sum(ns)
    decreases |ns|
  {
    if ns != [] {
      var k := |ns| - 1;
      SumLinesOfParsed(lines[..k], ns[..k]);
    }
  }

  /**
    A group written as its numbers, one per line, sums to the arithmetic sum of
    those numbers.
  */
  lemma GroupOfNumbers(ns: seq<int>)
    requires |ns| >= 1
    requires forall i :: 0 <= i < |ns| ==> InRange(ns[i])
    ensures GroupParses(Join(FormatAll(ns), "\n"))
    ensures GroupSum(Join(FormatAll(ns), "\n")) == Sum(ns)
  {
    var lines := FormatAll(ns);
    forall i | 0 <= i < |lines| ensures lines[i] != "" && '\n' !in lines[i] {
      FormatHasNoNewline(ns[i]);
    }
    SplitJoin(lines, '\n');
    NonEmptyKeepsAll(lines);
    SumLinesFormatAll(ns);
  }

  // ---------------------------------------------------------------- the largest total

  /** The largest of the sums, or 0 if there are none or all are negative. */
  function MaxOrZero(sums: seq<int>): (m: int)
    ensures m >= 0
    ensures forall i :: 0 <= i < |sums| ==> sums[i] <= m
    ensures m == 0 || m in sums
  {
    if sums == [] then 0
    else
      var m := MaxOrZero(sums[..|sums| - 1]);
      if sums[|sums| - 1] > m then sums[|sums| - 1] else m
  }

  /** The three properties of `MaxOrZero` pin its value down. */
  lemma MaxOrZeroUnique(sums: seq<int>, m: int)
    requires m >= 0
    requires forall i :: 0 <= i < |sums| ==> sums[i] <= m
    requires m == 0 || m in sums
    ensures m == MaxOrZero(sums)
  {
  }

  /** The answer depends only on which totals occur, not on their order or repetition. */
  lemma MaxOrZeroIgnoresOrder(sums: seq<int>, others: seq<int>)
    requires forall x :: x in sums <==> x in others
    ensures MaxOrZero(sums) == MaxOrZero(others)
  {
    var m := MaxOrZero(sums);
    forall i | 0 <= i < |others| ensures others[i] <= m {
      var x := others[i];
      assert x in others;
      assert x in sums;
    }
    MaxOrZeroUnique(others, m);
  }

  /** What `MaxOrZero` promises, stated for the totals of groups. */
  lemma MaxOfGroupSums(groups: seq<string>)
    requires GroupsParse(groups)
    ensures MaxOrZero(GroupSums(groups)) >= 0
    ensures forall i :: 0 <= i < |groups| ==> GroupSum(groups[i]) <= MaxOrZero(GroupSums(groups))
    ensures MaxOrZero(GroupSums(groups)) == 0
            || exists i :: 0 <= i < |groups| && GroupSum(groups[i]) == MaxOrZero(GroupSums(groups))
  {
    var sums := GroupSums(groups);
    var m := MaxOrZero(sums);
    if m != 0 {
      var k :| 0 <= k < |sums| && sums[k] == m;
      assert GroupSum(groups[k]) == m;
    }
  }

  /** `calorieCalculator`'s answer, as a function of the input. */
  function MaxCalories(calories: string): int
    requires WellFormed(calories)
  {
    MaxOrZero(GroupSums(Groups(calories)))
  }

  /**
    `calorieCalculator(with:)`: split into groups, sum each group, and keep the
    largest sum seen, starting from 0 and replacing it only by a larger one.
  */
  method CalorieCalculator(calories: string) returns (max: int)
    requires WellFormed(calories)
    ensures max == MaxCalories(calories)
    ensures max >= 0
    ensures forall i :: 0 <= i < |Groups(calories)| ==> GroupSum(Groups(calories)[i]) <= max
    ensures max == 0 || exists i :: 0 <= i < |Groups(calories)| && GroupSum(Groups(calories)[i]) == max
  {
    max := 0;
    var elfArray := Groups(calories);
    ghost var sums := GroupSums(elfArray);
    for i := 0 to |elfArray|
      invariant max == MaxOrZero(sums[..i])
    {
      var elfTotal := GroupSum(elfArray[i]);
      assert sums[..i + 1][..i] == sums[..i];
      if elfTotal > max {
        max := elfTotal;
      }
    }
    assert sums[..|elfArray|] == sums;
    MaxOfGroupSums(elfArray);
  }

  /** Without any group, for instance on empty input, the answer is 0. */
  lemma NoGroupsGiveZero(calories: string)
    requires Groups(calories) == []
    ensures WellFormed(calories) && MaxCalories(calories) == 0
  {
  }

  // ---------------------------------------------------------------- input in the puzzle's format

  /** Every line break in `x` is followed, inside `x`, by something other than a line break. */
  predicate NoBlankLine(x: string)
  {
    forall p :: 0 <= p < |x| && x[p] == '\n' ==> p + 1 < |x| && x[p + 1] != '\n'
  }

  /** Text without blank lines holds no group separator. */
  lemma NoBlankLineUnmatched(x: string)
    requires NoBlankLine(x)
    ensures NoMatchBefore(x, "\n\n")
  {
    forall p | 0 <= p < |x| ensures !MatchesAt(x + "\n\n", "\n\n", p) {
      if x[p] == '\n' {
        assert (x + "\n\n")[p..p + 2][1] == x[p + 1];
      } else {
        assert (x + "\n\n")[p..p + 2][0] == x[p];
      }
    }
  }

  /** One elf's group as the puzzle writes it: its numbers, one per line. */
  function GroupText(ns: seq<int>): string
    requires |ns| >= 1
  {
    Join(FormatAll(ns), "\n")
  }

  /** A written group is not empty, does not start with a line break and holds no blank line. */
  lemma {:induction false} GroupTextShape(ns: seq<int>)
    requires |ns| >= 1
    ensures GroupText(ns) != "" && GroupText(ns)[0] != '\n' && NoBlankLine(GroupText(ns))
    decreases |ns|
  {
    var a := Format(ns[0]);
    FormatHasNoNewline(ns[0]);
    if |ns| == 1 {
      assert GroupText(ns) == a;
    } else {
      var b := GroupText(ns[1..]);
      GroupTextShape(ns[1..]);
      assert FormatAll(ns)[1..] == FormatAll(ns[1..]);
      var x := GroupText(ns);
      assert x == a + "\n" + b;
      forall p | 0 <= p < |x| && x[p] == '\n' ensures p + 1 < |x| && x[p + 1] != '\n' {
        if p == |a| {
          assert x[p + 1] == b[0];
        } else if p > |a| {
          assert x[p] == b[p - |a| - 1];
          assert x[p + 1] == b[p - |a|];
        }
      }
    }
  }

  /** Elves that each carry at least one item, every count an `Int`. */
  predicate ValidElves(elves: seq<seq<int>>)
  {
    && |elves| >= 1
    && forall i :: 0 <= i < |elves| ==>
         |elves[i]| >= 1 && forall j :: 0 <= j < |elves[i]| ==> InRange(elves[i][j])
  }

  function GroupTexts(elves: seq<seq<int>>): (texts: seq<string>)
    requires forall i :: 0 <= i < |elves| ==> |elves[i]| >= 1
    ensures |texts| == |elves|
    ensures forall i :: 0 <= i < |elves| ==> texts[i] == GroupText(elves[i])
  {
    if elves == [] then [] else [GroupText(elves[0])] + GroupTexts(elves[1..])
  }

  /** The puzzle input for these elves: their groups with a blank line between them. */
  function InputText(elves: seq<seq<int>>): string
    requires ValidElves(elves)
  {
    Join(GroupTexts(elves), "\n\n")
  }

  /** The arithmetic total of each elf's items. */
  function ElfTotals(elves: seq<seq<int>>): (totals: seq<int>)
    ensures |totals| == |elves|
    ensures forall i :: 0 <= i < |elves| ==> totals[i] == Sum(elves[i])
  {
    if elves == [] then [] else [Sum(elves[0])] + ElfTotals(elves[1..])
  }

  /**
    On an input written in the puzzle's format, every line converts with
    `Int(_:)`, so the forced unwrap never traps, and the answer is the largest
    elf total (or 0 if every total is negative). Overflow of the running sums
    is outside the model.
  */
  lemma WrittenInputGivesLargestTotal(elves: seq<seq<int>>)
    requires ValidElves(elves)
    ensures WellFormed(InputText(elves))
    ensures MaxCalories(InputText(elves)) == MaxOrZero(ElfTotals(elves))
  {
    var texts := GroupTexts(elves);
    forall i | 0 <= i < |texts|
      ensures NoMatchBefore(texts[i], "\n\n") && texts[i] != ""
      ensures GroupParses(texts[i]) && GroupSum(texts[i]) == Sum(elves[i])
    {
      GroupTextShape(elves[i]);
      NoBlankLineUnmatched(texts[i]);
      GroupOfNumbers(elves[i]);
    }
    SplitJoinUnmatched(texts, "\n\n");
    NonEmptyKeepsAll(texts);
    assert Groups(InputText(elves)) == texts;
    assert GroupSums(texts) == ElfTotals(elves);
  }

  /** The five elves of the puzzle statement: the fourth carries the most, 24000 calories. */
  lemma PuzzleExample(elves: seq<seq<int>>)
    requires elves == [[1000, 2000, 3000], [4000], [5000, 6000], [7000, 8000, 9000], [10000]]
    ensures ValidElves(elves) && WellFormed(InputText(elves))
    ensures MaxCalories(InputText(elves)) == 24000
  {
    WrittenInputGivesLargestTotal(elves);
    PuzzleExampleTotals(elves);
  }

  lemma PuzzleExampleTotals(elves: seq<seq<int>>)
    requires elves == [[1000, 2000, 3000], [4000], [5000, 6000], [7000, 8000, 9000], [10000]]
    ensures MaxOrZero(ElfTotals(elves)) == 24000
  {
    var totals := ElfTotals(elves);
    SumOfThree(1000, 2000, 3000);
    SumOfOne(4000);
    SumOfTwo(5000, 6000);
    SumOfThree(7000, 8000, 9000);
    SumOfOne(10000);
    assert totals == [6000, 4000, 11000, 24000, 10000];
    MaxOrZeroUnique(totals, 24000);
  }

  lemma SumOfOne(x: int)
    ensures Sum([x]) == x
  {
    assert [x][..0] == [];
  }

  lemma SumOfTwo(x: int, y: int)
    ensures Sum([x, y]) == x + y
  {
    SumOfOne(x);
    assert [x, y][..1] == [x];
  }

  lemma SumOfThree(x: int, y: int, z: int)
    ensures Sum([x, y, z]) == x + y + z
  {
    SumOfTwo(x, y);
    assert [x, y, z][..2] == [x, y];
  }
}
