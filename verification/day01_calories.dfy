/** Day 1: group calorie lines into elves and find the best-provisioned elf
    (day-1/src/main.rs). Reading stdin and `str::parse` are left out: each
    input line arrives already classified as blank or as a number. */
module Day01Calories {

  /** One input line: blank (only whitespace) or a calorie count. */
  datatype InputLine = Blank | Calories(value: int)

  function Sum(xs: seq<int>): int
  {
    if |xs| == 0 then 0 else Sum(xs[..|xs| - 1]) + xs[|xs| - 1]
  }

  /** `Last::last`: appends to the last group; indexing `len - 1` panics on
      an empty vector, hence the precondition. */
  function PushOnLast(groups: seq<seq<int>>, v: int): (r: seq<seq<int>>)
    requires |groups| > 0
    ensures |r| == |groups|
    ensures r[..|r| - 1] == groups[..|groups| - 1]
    ensures r[|r| - 1] == groups[|groups| - 1] + [v]
  {
    groups[|groups| - 1 := groups[|groups| - 1] + [v]]
  }

  /** The grouping loop of `main`: one empty group to start with, a blank
      line opens a new group, any other line joins the last group. */
  function Group(lines: seq<InputLine>): (r: seq<seq<int>>)
    ensures |r| > 0
  {
    if |lines| == 0 then [[]]
    else
      var groups := Group(lines[..|lines| - 1]);
      match lines[|lines| - 1]
      case Blank => groups + [[]]
      case Calories(v) => PushOnLast(groups, v)
  }

  function CountBlanks(lines: seq<InputLine>): nat
  {
    if |lines| == 0 then 0
    else CountBlanks(lines[..|lines| - 1]) + (if lines[|lines| - 1].Blank? then 1 else 0)
  }

  /** The numbers of the input, in order, with blank lines dropped. */
  function Values(lines: seq<InputLine>): seq<int>
  {
    if |lines| == 0 then []
    else Values(lines[..|lines| - 1]) + (match lines[|lines| - 1] case Blank => [] case Calories(v) => [v])
  }

  function Flatten(groups: seq<seq<int>>): seq<int>
  {
    if |groups| == 0 then [] else Flatten(groups[..|groups| - 1]) + groups[|groups| - 1]
  }

  /** There is one group per blank line plus the initial one, and reading
      the groups in order gives back every number of the input in order:
      grouping neither loses, duplicates nor reorders a line. */
  lemma {:induction false} GroupPartitionsValues(lines: seq<InputLine>)
    ensures |Group(lines)| == CountBlanks(lines) + 1
    ensures Flatten(Group(lines)) == Values(lines)
  {
    if |lines| > 0 {
      var init := lines[..|lines| - 1];
      GroupPartitionsValues(init);
      var groups := Group(init);
      match lines[|lines| - 1]
      case Blank =>
        FlattenAppend(groups, []);
      case Calories(v) =>
        FlattenPushOnLast(groups, v);
    }
  }

  lemma FlattenAppend(groups: seq<seq<int>>, g: seq<int>)
    ensures Flatten(groups + [g]) == Flatten(groups) + g
  {
    assert (groups + [g])[..|groups|] == groups;
  }

  lemma FlattenPushOnLast(groups: seq<seq<int>>, v: int)
    requires |groups| > 0
    ensures Flatten(PushOnLast(groups, v)) == Flatten(groups) + [v]
  {
    var k := |groups| - 1;
    var r := PushOnLast(groups, v);
    var before := Flatten(groups[..k]);
    assert Flatten(r) == before + (groups[k] + [v]);
    assert Flatten(groups) == before + groups[k];
  }

  /** A blank line always starts a fresh, empty group. */
  lemma BlankOpensEmptyGroup(lines: seq<InputLine>)
    ensures Group(lines + [Blank]) == Group(lines) + [[]]
  {
    assert (lines + [Blank])[..|lines|] == lines;
  }

  /** `max_by_key` over the enumerated group sums: the maximum sum, and the
      position where it occurs. Rust's `max_by_key` keeps the LAST of several
      equal maxima, so every later group has a strictly smaller sum. */
  method MaxGroup(sums: seq<int>) returns (index: nat, calories: int)
    requires |sums| > 0
    ensures index < |sums| && calories == sums[index]
    ensures forall j :: 0 <= j < |sums| ==> sums[j] <= calories
    ensures forall j :: index < j < |sums| ==> sums[j] < calories
  {
    index, calories := 0, sums[0];
    var i := 1;
    while i < |sums|
      invariant 1 <= i <= |sums|
      invariant index < i && calories == sums[index]
      invariant forall j :: 0 <= j < i ==> sums[j] <= calories
      invariant forall j :: index < j < i ==> sums[j] < calories
    {
      if sums[i] >= calories {
        index, calories := i, sums[i];
      }
      i := i + 1;
    }
  }

  /** The whole of `main`: the reported elf (1-based) and its calories.
      The grouping always yields at least one group, so the `panic!` branch
      of `main` is unreachable. */
  method BestElf(lines: seq<InputLine>) returns (elf: nat, calories: int)
    ensures var groups := Group(lines);
      && 1 <= elf <= |groups|
      && calories == Sum(groups[elf - 1])
      && (forall j :: 0 <= j < |groups| ==> Sum(groups[j]) <= calories)
      && (forall j :: elf <= j < |groups| ==> Sum(groups[j]) < calories)
  {
    var groups := Group(lines);
    var sums := seq(|groups|, j requires 0 <= j < |groups| => Sum(groups[j]));
    var index;
    index, calories := MaxGroup(sums);
    assert forall j :: 0 <= j < |groups| ==> sums[j] == Sum(groups[j]);
    elf := index + 1;
  }
}
