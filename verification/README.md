# Advent of Code 2022, days 1 to 15, in Dafny

This project models the puzzle solvers of days 1 to 15 of an Advent of Code
2022 repository written in Rust, one solver per `day-N/src/main.rs`, and
proves what each one computes. Each day is a Dafny module of its own; the
parsed puzzle input (tiles, lines, instructions, movements, sensors,
expressions, rounds, pairs, moves) arrives as Dafny datatypes.

- `Wrappers`: `Option` and `Result`. The solvers handle errors by panicking
  (`unwrap`, `assert!`, `unimplemented!`, an index out of bounds); where the
  input can cause such a panic the model returns `Err` or `None`, so the
  failing path is part of each contract.
- `Arithmetic`: multiplication and Euclidean division facts shared by the
  ring buffer of day 6, the worry arithmetic of day 11 and the flattened
  index of day 12.
- `Day01Calories`: blank-line grouping of calorie lines, `Last::last`, and the
  elf with the largest total.
- `Day02RockPaperScissors`: move scores, the outcome table, choosing a move
  for a required result, and the total score.
- `Day03Rucksack`: item priorities, the two compartment halves and the item
  they share.
- `Day04Sections`: inclusive section ranges, containment and overlap, and the
  overlap count.
- `Day05Crates`: reading stacks from the crate drawing by four-character
  columns, moving crates one at a time, and the top-of-stack message.
- `Day06Marker`: the ring-buffer scan for the first window of distinct
  characters, against an independent definition of the first marker.
- `Day07Directories`: the recursive size of a directory computed from a
  queue of transcript lines.
- `Day08Visibility`: the four directional checks, the marking loops and the
  count of visible trees.
- `Day09Rope`: the head moving one square at a time and the tail following
  it, inside the world computed from the bounds.
- `Day10Cpu`: instruction cycle counts, committing an instruction, the signal
  clock and the cycle loop.
- `Day11Monkeys`: evaluating operations, inspecting and throwing items,
  turns and rounds, worry reduction modulo the least common multiple of the
  divisors, and the monkey-business product.
- `Day12Heightmap`: tile heights, the climbing rule, the flattened index, and
  the adjacency list of climbable neighbours.
- `Day12ShortestPath`: the reversed state order, the lazy-deletion Dijkstra
  search (the binary heap as a multiset from which a greatest state is
  taken), and the search from every lowest square.
- `Day13Packets`: nested packets, their three-valued comparison, the
  recursive-descent parser and the printer.
- `Day14Cave` and `Day14Sand`: the cave grid with its coordinate offset, rock
  segments, one step of falling sand, widening the cave at either edge, and
  the grain-counting loop.
- `Day15Ranges` and `Day15Sensors`: the sorted list of merged half-open
  ranges with its coverage, sensor radii, row ranges, bounds, and the count of
  positions on line 2000000 where no beacon can be.

## Model

| member | source | states |
|---|---|---|
| Day01Calories.PushOnLast | day-1/src/main.rs:31-40 | the value joins the last group only: the group count and every earlier group are unchanged |
| Day01Calories.Group | day-1/src/main.rs:4-15 | grouping always yields at least one group, so the `panic!` after `max_by_key` cannot be reached |
| Day01Calories.GroupPartitionsValues | day-1/src/main.rs:4-15 | there is one group per blank line plus the initial one, and the groups read in order give back exactly the numbers of the input |
| Day01Calories.BlankOpensEmptyGroup | day-1/src/main.rs:9-10 | a blank line appends a fresh empty group after the existing ones |
| Day01Calories.MaxGroup | day-1/src/main.rs:17-23 | the result is a maximum of the sums, at a valid position, and every later position holds a strictly smaller sum (the last of equal maxima wins) |
| Day01Calories.BestElf | day-1/src/main.rs:17-26 | the reported 1-based elf carries the largest calorie total of all groups, and no later elf carries as much |
| Day02RockPaperScissors.Score | day-2/src/main.rs:31-37 | each move scores a distinct value from 1 to 3: rock 1, paper 2, scissors 3 |
| Day02RockPaperScissors.Shoot | day-2/src/main.rs:74-89 | the outcome table agrees with the rule "rock beats scissors beats paper beats rock": a tie exactly for equal moves, a player win exactly when the player's move beats the opponent's |
| Day02RockPaperScissors.ShootAntisymmetric | day-2/src/main.rs:74-89 | swapping the two hands swaps the winner and keeps ties |
| Day02RockPaperScissors.Choose | day-2/src/main.rs:56-64 | the chosen move achieves what the guide demands: win, lose or draw |
| Day02RockPaperScissors.Play | day-2/src/main.rs:47-71 | the two scores always add up to both move scores plus 6, and the player scores its move plus 0, 3 or 6 for the demanded loss, draw or win |
| Day02RockPaperScissors.Total | day-2/src/main.rs:92-97 | the `reduce` yields nothing (the `unwrap` panics) exactly when there are no rounds |
| Day02RockPaperScissors.TotalIsSum | day-2/src/main.rs:92-97 | the folded pair is the per-side sum of the round scores, and the player's total lies between 1 and 9 points per round |
| Day03Rucksack.Value | day-3/src/main.rs:34-41 | the bit arithmetic gives lower-case letters their alphabet position 1..26 and upper-case letters 27..52 |
| Day03Rucksack.ValueRanges | day-3/src/main.rs:34-41 | on letters the priority ranges of the two cases do not overlap and no two letters share a priority |
| Day03Rucksack.Halves | day-3/src/main.rs:43-60 | an odd-length line fails the `assert_eq!`; otherwise the two halves have equal length and together are the line |
| Day03Rucksack.FirstShared | day-3/src/main.rs:18-24 | nothing is found exactly when no item of the right half occurs in the left half; otherwise the result is the first such item |
| Day03Rucksack.LinePriorityOk | day-3/src/main.rs:14-27 | a line succeeds exactly when its length is even and its halves share an item, and then contributes the priority of an item of the right half that also occurs in the left half |
| Day03Rucksack.TotalPriorityOk | day-3/src/main.rs:11-28 | the sum succeeds exactly when every line does; no lines sum to 0 |
| Day03Rucksack.TotalPriorityAppend | day-3/src/main.rs:14-28 | the sum over two runs of lines succeeds exactly when both do and is then the sum of their totals, so the total is the sum of the line priorities in any grouping |
| Day03Rucksack.PriorityOfNeedle | day-3/src/main.rs:14-27 | an even-length line whose right half first meets the left half at item `c` contributes the priority of `c` |
| Day03Rucksack.ExampleLine | day-3/src/main.rs:11-41 | the puzzle's first line scores 16 (its shared item is `p`) |
| Day04Sections.FullyContainsMeansSubset | day-4/src/main.rs:11-13 | `fully_contains` holds exactly when every section of the other (non-empty) range is a section of this one, and every range contains itself |
| Day04Sections.OverlapsMeansCommonSection | day-4/src/main.rs:15-21 | for well-formed ranges `overlaps` holds exactly when some section lies in both ranges, so the asymmetric test is symmetric |
| Day04Sections.ContainmentImpliesOverlap | day-4/src/main.rs:11-21 | a range that fully contains another overlaps it, in both directions |
| Day04Sections.PairOrderIrrelevant | day-4/src/main.rs:29-37 | neither `has_fully_contained_section` nor `has_any_overlap` depends on the order of the two elves |
| Day04Sections.CountOverlapping | day-4/src/main.rs:41-46 | the answer is the number of positions whose pair overlaps, never more than the number of pairs |
| Day05Crates.ParseCrate | day-5/src/main.rs:12-14 | a chunk is a crate exactly when it reads `[`, one word character, `]`, and the crate is that character |
| Day05Crates.Scanned | day-5/src/main.rs:47-50 | the scan reads exactly the bottom lines up to, not including, the lowest line too short to hold the chunk (`line.get` gives `None` and the loop breaks) |
| Day05Crates.StackedSnoc | day-5/src/main.rs:47-56 | a line below the others puts its crate under theirs, so reading bottom first agrees with the top-first reference reading |
| Day05Crates.ColumnSpec | day-5/src/main.rs:41-58 | the scan of stack k panics exactly when a chunk that is neither blank nor a crate lies among the lines read, from the bottom, before the first line too short for the chunk; otherwise it returns the crates of those lines bottom first, blank chunks skipped, at most one per line |
| Day05Crates.ReadStacks | day-5/src/main.rs:38-61 | reading yields an empty pad stack and then, for each k below the size, exactly what the scan of stack k returns; it fails exactly when one of those scans fails |
| Day05Crates.ReadStacksFails | day-5/src/main.rs:38-61 | reading panics exactly when, for some stack, a chunk that is neither blank nor a crate is met before that stack's scan stops at a line too short for its chunk; a bad chunk above such a line is never read |
| Day05Crates.ShortLineHides | day-5/src/main.rs:47-50 | with the two drawing lines `[a] XYZ` above `[b]` and two stacks, the second stack's scan stops at once at the short bottom line, so the chunk `XYZ`, which is not a crate, is never read and reading succeeds with stacks `ba` and empty after the pad |
| Day05Crates.Row | day-5/src/main.rs:41-58 | a drawing line of n stacks is 4n-1 characters wide, so the chunk of stack k sits at offsets 4k..4k+3 |
| Day05Crates.RowChunk | day-5/src/main.rs:43-48 | the chunk the parser cuts at offsets 4k..4k+3 of a drawing line is exactly the cell of stack k |
| Day05Crates.ColumnOfLevels | day-5/src/main.rs:47-58 | scanning a drawing bottom line first recovers each stack from the given level up, ignoring the blank cells above it |
| Day05Crates.ReadStacksOfDrawing | day-5/src/main.rs:38-61 | reading the drawing of any stacks of word characters gives those stacks back, bottom crate first, after the pad |
| Day05Crates.MoveOne | day-5/src/main.rs:75-76 | one crane step fails exactly when a stack index is out of range or the source stack is empty |
| Day05Crates.Reverse | day-5/src/main.rs:74-77 | the crates moved one at a time land in reverse order: element i of the result is element n-1-i of the input |
| Day05Crates.MoveRepeatSpec | day-5/src/main.rs:73-78 | moving n crates between two distinct stacks succeeds exactly when the source holds at least n, takes its top n crates and puts them on the destination reversed, and leaves every other stack untouched |
| Day05Crates.MoveOntoItself | day-5/src/main.rs:73-78 | moving any number of crates from a stack onto itself pops each crate and pushes it straight back, so it changes nothing; it panics exactly when the stack is empty and the count is positive |
| Day05Crates.TotalCratesUpdate | day-5/src/main.rs:75-76 | replacing one stack changes the crate total by the difference of the two stack heights |
| Day05Crates.MoveRepeatConserves | day-5/src/main.rs:73-78 | a successful move keeps the number of stacks and the total number of crates |
| Day05Crates.ApplyMove | day-5/src/main.rs:73-78 | one move panics exactly when it does not fit (a positive count with a missing stack, with an empty source moved onto itself, or with a source holding fewer crates than the count); otherwise it gives the top crates of the source reversed on the destination, keeping the stack count and crate total |
| Day05Crates.ApplyMoves | day-5/src/main.rs:73-79 | applying the moves in order keeps the number of stacks and the total number of crates |
| Day05Crates.ApplyMovesAppend | day-5/src/main.rs:73-79 | running two lists of moves one after the other is running the first list, then the second on its result |
| Day05Crates.ApplyMovesFails | day-5/src/main.rs:73-79 | the move loop panics exactly when some move does not fit the stacks left by the moves before it |
| Day05Crates.Last | day-5/src/main.rs:91-98 | `last` returns the final element of the non-empty vector: the vector is everything before it followed by it |
| Day05Crates.LastPush | day-5/src/main.rs:91-98 | `last` after pushing an element returns that element, whatever the vector held before |
| Day05Crates.Message | day-5/src/main.rs:80-84 | the message succeeds exactly when every stack after the pad is non-empty, and is the top crate of each such stack in stack order |
| Day05Crates.Example | day-5/src/main.rs:73-84 | the puzzle's example stacks `ZN`, `MCD`, `P` after its four moves give the message `CMZ` |
| Day06Marker.FirstMarker | day-6/src/main.rs:21-37 | reference definition of a marker: the result is one past the end of the first window, at or after the starting index, whose characters are pairwise distinct, and there is none exactly when no such window exists |
| Day06Marker.ElementsCount | day-6/src/main.rs:30-31 | a window has as many distinct characters as its length exactly when its characters are pairwise distinct, which is what `set.len() == PREFIX_SIZE` tests |
| Day06Marker.SlotsDiffer | day-6/src/main.rs:25 | two of the last n positions never share a ring-buffer slot `i % n` |
| Day06Marker.SlotWitness | day-6/src/main.rs:25 | every ring-buffer slot holds one of the last n positions |
| Day06Marker.BufferHoldsWindow | day-6/src/main.rs:22-31 | once n characters are written, the ring buffer holds exactly the characters of the window ending at the current index |
| Day06Marker.Scan | day-6/src/main.rs:22-36 | the ring-buffer loop returns exactly the reference marker from its first examined index on |
| Day06Marker.FirstMarkerFound | day-6/src/main.rs:31-33 | the first distinct window the loop meets is the reference marker |
| Day06Marker.FirstMarkerNone | day-6/src/main.rs:36 | when no window from the first examined index on is distinct, there is no marker |
| Day06Marker.StartDistinctAsWritten | day-6/src/main.rs:21-37 | the function as written only examines windows ending at index n or later |
| Day06Marker.StartDistinct | day-6/src/main.rs:21-37 | with every full window examined, the answer is the end of the first distinct window, between n and the stream length |
| Day06Marker.FirstWindowSkipped | day-6/src/main.rs:26-28 | on `abcd` the code as written finds no marker although the first four characters are distinct, and on `abcda` it answers 5 instead of 4 |
| Day06Marker.StartPacket | day-6/src/main.rs:13-15 | `start_packet` as written returns the end of the first distinct window of 4 that ends at index 4 or later, so the first full window is never a marker; none exactly when no such window exists |
| Day06Marker.StartPacketIntended | day-6/src/main.rs:13-15 | with every full window examined, the start-of-packet marker is the end of the first distinct window of 4 |
| Day06Marker.StartMessage | day-6/src/main.rs:17-19 | `start_message` as written returns the end of the first distinct window of 14 that ends at index 14 or later; none exactly when no such window exists |
| Day06Marker.StartMessageIntended | day-6/src/main.rs:17-19 | with every full window examined, the start-of-message marker is the end of the first distinct window of 14 |
| Day06Marker.AsWrittenAgrees | day-6/src/main.rs:24-33 | the scan as written and the intended scan give the same answer exactly when the stream is shorter than the window or its first full window repeats a character; otherwise the intended answer is the window length |
| Day06Marker.Repeats | day-6/src/main.rs:30-31 | a window with a repeated character is not a marker |
| Day06Marker.PacketExample1 | day-6/src/main.rs:44 | a stream starting `mjqjpqm` has its packet marker at 7, both as written and corrected |
| Day06Marker.PacketExample2 | day-6/src/main.rs:45 | a stream starting `bvwbj` has its packet marker at 5 |
| Day06Marker.PacketExample3 | day-6/src/main.rs:46 | a stream starting `nppdvj` has its packet marker at 6 |
| Day06Marker.PacketExample4 | day-6/src/main.rs:47 | a stream starting `nznrnfrfnt` has its packet marker at 10 |
| Day06Marker.PacketExample5 | day-6/src/main.rs:48 | a stream starting `zcfzfwzzqfr` has its packet marker at 11 |
| Day06Marker.MessageExample1 | day-6/src/main.rs:53 | the first example stream has its message marker at 19 |
| Day06Marker.MessageExample2 | day-6/src/main.rs:54 | the second example stream has its message marker at 23 |
| Day06Marker.MessageExample3 | day-6/src/main.rs:55 | the third example stream has its message marker at 23 |
| Day06Marker.MessageExample4 | day-6/src/main.rs:56 | the fourth example stream has its message marker at 29 |
| Day06Marker.MessageExample5 | day-6/src/main.rs:57 | the fifth example stream has its message marker at 26 |
| Day07Directories.CalculateSize | day-7/src/main.rs:31-35 | a queue that is empty or does not start with `$ ls` panics; a result always consumes at least one line |
| Day07Directories.ListingLoop | day-7/src/main.rs:36-54 | the loop consumes at least one line and never lowers the running size |
| Day07Directories.ListingErrors | day-7/src/main.rs:32-52 | running out of lines or meeting a second `$ ls` inside a listing panics, as does a queue not starting with `$ ls` |
| Day07Directories.ListingSteps | day-7/src/main.rs:40-46 | a file line adds its size, a `dir` line adds nothing, and `$ cd ..` returns the size with the rest of the queue |
| Day07Directories.ListingDescends | day-7/src/main.rs:47-51 | `$ cd name` adds the size the recursive call computes and continues on the lines it left, failing when it fails |
| Day07Directories.EntriesSizeSplit | day-7/src/main.rs:36-54 | the size of a directory's entries is the size of its files plus the sizes of its subdirectories |
| Day07Directories.ListedLinesAddFiles | day-7/src/main.rs:43-46 | reading a listing adds exactly the sizes of the files it names |
| Day07Directories.VisitsAddSubdirs | day-7/src/main.rs:47-51 | visiting every subdirectory in turn adds each one's total size and ends at the parent's `$ cd ..` |
| Day07Directories.TranscriptSize | day-7/src/main.rs:31-55 | on the transcript of any directory tree (with no entry called `..`) the computation returns the total size of all files below it and exactly the lines after the transcript |
| Day07Directories.LeafExample | day-7/src/main.rs:86-95 | the leaf-directory test: size 584 with no lines left |
| Day07Directories.NestedExample | day-7/src/main.rs:98-119 | the nested-directories test: size 94853 with no lines left |
| Day08Visibility.ExpectedIsSeen | day-8/src/main.rs:18-41 | marking border trees visible outright agrees with the general rule: a cell ends up Visible exactly when, in one of the four directions, every tree between it and the edge is shorter; no cell stays Unknown |
| Day08Visibility.CheckAbove | day-8/src/main.rs:65-73 | true exactly when every tree above in the same column is strictly shorter |
| Day08Visibility.CheckBelow | day-8/src/main.rs:75-82 | true exactly when every tree below in the same column is strictly shorter |
| Day08Visibility.CheckLeft | day-8/src/main.rs:84-91 | true exactly when every tree to the left in the same row is strictly shorter |
| Day08Visibility.CheckRight | day-8/src/main.rs:93-101 | true exactly when every tree to the right in the same row is strictly shorter |
| Day08Visibility.SetCell | day-8/src/main.rs:20-21 | one write changes the addressed cell and no other, and keeps the shape |
| Day08Visibility.MarkVisibility | day-8/src/main.rs:14-42 | the marks have the grid's shape and every cell holds the expected mark: Visible on the border, otherwise Visible or Hidden by the four checks |
| Day08Visibility.MarkRow | day-8/src/main.rs:32-41 | one pass over an interior row gives each of its interior cells its expected mark and leaves every other cell as it was |
| Day08Visibility.CheckCell | day-8/src/main.rs:34-40 | an interior tree is marked Visible exactly when one of the four checks finds every tree towards that edge shorter, otherwise Hidden |
| Day08Visibility.TreesVisible | day-8/src/main.rs:55-58 | the nested count equals the number of Visible cells, row by row |
| Day08Visibility.CountSeen | day-8/src/main.rs:10-61 | the answer counts the marks, and a cell is marked Visible exactly when the tree can be seen from outside the grid |
| Day09Rope.Unit | day-9/src/main.rs:129-137 | each direction moves exactly one unit along one axis, with `Up` decreasing y and `Down` increasing it |
| Day09Rope.Advance | day-9/src/main.rs:66-73 | n steps in a direction displace a position by n times the direction's unit |
| Day09Rope.AdvanceAdds | day-9/src/main.rs:46-51 | steps in one direction add up: a steps then b steps is a+b steps |
| Day09Rope.MoveHeadOnce | day-9/src/main.rs:129-144 | the head step fails the assertions exactly when the new position leaves the world; otherwise only the head changes |
| Day09Rope.MoveTailOnce | day-9/src/main.rs:146-176 | a tail touching the head stays; otherwise it moves one unit towards the head on each axis where they differ; it never moves more than one unit per axis |
| Day09Rope.TailKeepsUp | day-9/src/main.rs:146-176 | a tail touching the head still touches it after one head step and its own move |
| Day09Rope.StepOnce | day-9/src/main.rs:47-48 | one loop step moves the head one unit, the tail follows the new head, and the world's size and start are unchanged |
| Day09Rope.RunStepsKeepsTouching | day-9/src/main.rs:46-51 | the rope stays together through the steps of one movement |
| Day09Rope.RunKeepsTouching | day-9/src/main.rs:43-52 | the rope stays together through every movement |
| Day09Rope.TrackBounds | day-9/src/main.rs:59-88 | the tracked ranges contain the origin and the head's position after every prefix of the movements, and the final x, y are the total displacement |
| Day09Rope.TrackGrows | day-9/src/main.rs:66-87 | one movement never shrinks the ranges and leaves them containing the position it ends at |
| Day09Rope.TrackFollows | day-9/src/main.rs:66-73 | the tracked x, y follow the head: after one more movement they are still its total displacement |
| Day09Rope.FromBounds | day-9/src/main.rs:56-110 | the world is at least 1 by 1, head and tail start at the start position, and the start lies inside the world |
| Day09Rope.PathInside | day-9/src/main.rs:59-110 | every position the head passes through, not only the end of each movement, lies inside the computed world |
| Day09Rope.RunStepsFollows | day-9/src/main.rs:46-51 | when every position of a movement lies inside, its steps all succeed and the head ends n steps along, with the world's size and start unchanged |
| Day09Rope.RunFollows | day-9/src/main.rs:43-52 | from a head at the displacement of the movements done so far, the remaining movements never trip an assertion |
| Day09Rope.SimulationInBounds | day-9/src/main.rs:34-53 | the whole simulation in the world `from_bounds` builds never trips the assertions of `move_head_once`, and the tail ends touching the head |
| Day10Cpu.Cycles | day-10/src/main.rs:104-111 | `noop` takes one cycle and `addx` two, and no instruction takes another count |
| Day10Cpu.NewCpu | day-10/src/main.rs:69-79 | building a CPU panics exactly on an empty program; otherwise x is 1, no cycles are taken, and the countdown holds the first instruction's cycle count |
| Day10Cpu.CurrentInstruction | day-10/src/main.rs:99-101 | there is a current instruction exactly while the program counter is inside the program |
| Day10Cpu.Commit | day-10/src/main.rs:81-89 | committing panics exactly past the end of the program; otherwise only x changes, to the value after executing the current instruction |
| Day10Cpu.CommitEffect | day-10/src/main.rs:84-87 | committing `addx v` adds v to x and committing `noop` leaves x alone |
| Day10Cpu.SignalClock | day-10/src/main.rs:91-97 | the clock fires exactly on cycles congruent to 20 modulo 40 and reports the cycle number |
| Day10Cpu.SignalClockCycles | day-10/src/main.rs:91-97 | on non-negative cycle counts the clock fires exactly at cycles 20, 60, 100, ... |
| Day10Cpu.TickKeeps | day-10/src/main.rs:28-50 | one pass of the loop takes one more cycle, never past the program's total, and keeps the between-cycles invariant: earlier instructions done, x is 1 plus their `addx` operands, the signal sums every cycle so far |
| Day10Cpu.TickWaits | day-10/src/main.rs:29-41 | a pass that does not finish the current instruction keeps the invariant |
| Day10Cpu.TickCommits | day-10/src/main.rs:43-50 | a pass that finishes the current instruction commits it, moves to the next one and keeps the invariant |
| Day10Cpu.RunProgram | day-10/src/main.rs:20-66 | the program panics exactly when it is empty; otherwise the loop takes the total cycles of its instructions, ends with x equal to 1 plus all `addx` operands, and sums x times the cycle number over cycles 20, 60, 100, ..., sampling x before that cycle's commit |
| Day10Cpu.PrefixCycles | day-10/src/main.rs:43-50 | the cycles of the instructions before k, plus those of instruction k, never exceed the whole program's cycles |
| Day10Cpu.PrefixStep | day-10/src/main.rs:43-50 | committing instruction k extends the done prefix: its cycles are added to the total, an `addx` operand to x, and the signal gains the strengths of the cycles the instruction took |
| Day10Cpu.CommitTick | day-10/src/main.rs:29-50 | the pass whose countdown is at 1 executes the current instruction, advances the program counter, loads the next instruction's cycle count, and adds the strength sampled before the commit |
| Day10Cpu.SmallExample | day-10/src/main.rs:28-59 | the puzzle's small program `noop`, `addx 3`, `addx -5` takes five cycles and leaves x at -1 |
| Day11Monkeys.EvalOperand | day-11/src/main.rs:177-185 | `old` evaluates to the current worry level and a literal to itself |
| Day11Monkeys.EvalExpr | day-11/src/main.rs:167-175 | an expression evaluates to the sum or the product of its two operands |
| Day11Monkeys.EvalExamples | day-11/src/main.rs:191-207 | the test suite's evaluations: `old * 19` at 2 is 38, `old + 3` at 2 is 5, `old * old` at 3 is 9 |
| Day11Monkeys.Rem | day-11/src/main.rs:72-74 | Rust's `%` truncates toward zero: the remainder is smaller than the divisor in magnitude and takes the sign of the dividend |
| Day11Monkeys.RemZeroIsDivisibility | day-11/src/main.rs:74 | the test `item % divisor == 0` holds exactly when the divisor's magnitude divides the item, whatever the signs |
| Day11Monkeys.GcdDivides | day-11/src/main.rs:41-45 | the gcd used by `lcm` divides both arguments and is positive unless both are zero |
| Day11Monkeys.LcmMultiple | day-11/src/main.rs:41-45 | both arguments divide their lcm, which is positive when both are |
| Day11Monkeys.DividesMultiple | day-11/src/main.rs:72 | a number dividing m divides every multiple of m |
| Day11Monkeys.ReductionKeepsDivisibility | day-11/src/main.rs:72-74 | reducing a worry level modulo a multiple of d never changes whether d divides it |
| Day11Monkeys.WorryCap | day-11/src/main.rs:41-45 | the `reduce(lcm)` panics exactly when there are no monkeys |
| Day11Monkeys.WorryCapMultiple | day-11/src/main.rs:41-45 | with every divisor non-zero the cap is positive and every divisor divides it |
| Day11Monkeys.WorryCapKeepsTests | day-11/src/main.rs:72-80 | reducing by the worry cap never changes which way any monkey's divisibility test goes |
| Day11Monkeys.Judge | day-11/src/main.rs:61-80 | an inspected item carries its evaluated worry level reduced modulo the cap, and goes to the true target exactly when the reduced level is divisible by the monkey's divisor |
| Day11Monkeys.TotalItemsUpdate | day-11/src/main.rs:83 | replacing one monkey changes the item total by the difference of the two queue lengths |
| Day11Monkeys.ThrowOne | day-11/src/main.rs:59-83 | a throw cannot panic among playable monkeys (non-zero cap and divisors, existing targets) and never changes any monkey's rules |
| Day11Monkeys.ThrowOneConserves | day-11/src/main.rs:59-83 | a throw moves one item, so the item total is unchanged |
| Day11Monkeys.Throws | day-11/src/main.rs:57-84 | repeated throws cannot panic among playable monkeys and keep every monkey's rules |
| Day11Monkeys.Judged | day-11/src/main.rs:57-84 | the throws of a queue are its items judged one by one, front first |
| Day11Monkeys.ThrowOneItems | day-11/src/main.rs:61-83 | one throw removes the thrower's front item and appends the judged worry level to the back of its target's queue, leaving every other queue alone |
| Day11Monkeys.ThrowsSpec | day-11/src/main.rs:57-84 | after the first k throws the thrower holds its remaining items followed by what it threw to itself, and every other monkey its old queue followed by what it was sent, in order |
| Day11Monkeys.ThrowsConserve | day-11/src/main.rs:57-84 | no sequence of throws creates or loses an item |
| Day11Monkeys.Turn | day-11/src/main.rs:53-85 | a turn inspects exactly the items the monkey holds at its start, counts them in its inspection total and no other, keeps every monkey's rules, and cannot panic among playable monkeys |
| Day11Monkeys.TurnSpec | day-11/src/main.rs:53-85 | after a turn the thrower holds only what it threw to itself, every other monkey gains what it was sent in order, and the item total is unchanged |
| Day11Monkeys.Round | day-11/src/main.rs:53-85 | a round keeps the number of monkeys and their rules and cannot panic among playable monkeys |
| Day11Monkeys.Rounds | day-11/src/main.rs:51-96 | any number of rounds keeps the number of monkeys and their rules and cannot panic among playable monkeys |
| Day11Monkeys.RoundConserves | day-11/src/main.rs:53-85 | no round creates or loses an item |
| Day11Monkeys.RoundsConserve | day-11/src/main.rs:51-96 | the item total is the same after any number of rounds |
| Day11Monkeys.MonkeyBusiness | day-11/src/main.rs:99-100 | with fewer than two monkeys indexing entry 1 panics; otherwise the answer is a largest count times a largest count among the other monkeys, which is what sorting in descending order and multiplying the first two entries gives |
| Day11Monkeys.Solve | day-11/src/main.rs:38-102 | no monkeys panics; playable monkeys with at least two of them always give an answer, and it is the product of the two largest inspection counts after 10000 rounds |
| Day12Heightmap.Height | day-12/src/main.rs:232-242 | heights run from 0 to 25, an elevation letter's height being its distance from `a`, so the `assert!` never fires |
| Day12Heightmap.HeightLevels | day-12/src/main.rs:232-242 | the start is as low as `a`, the end as high as `z`, and heights order letters alphabetically |
| Day12Heightmap.ClimbRule | day-12/src/main.rs:246-254 | a step is allowed exactly when it rises by at most one |
| Day12Heightmap.ClimbNotSymmetric | day-12/src/main.rs:244-245 | climbing is not symmetric: `c` can fall to `a` but `a` cannot climb to `c` |
| Day12Heightmap.GetTile | day-12/src/main.rs:257-265 | a tile is returned exactly when the row exists and is long enough, and it is the tile stored there |
| Day12Heightmap.FindTile | day-12/src/main.rs:89-109 | the search panics exactly when no cell holds the tile; otherwise it returns a cell holding it, with no such cell earlier in row-major order |
| Day12Heightmap.FirstTileUnique | day-12/src/main.rs:89-109 | a map has at most one first cell holding a given tile, so the cell `find_start` or `find_end` returns is determined by the map |
| Day12Heightmap.FindStart | day-12/src/main.rs:89-98 | `find_start` panics exactly when there is no `S`, otherwise it returns the first cell holding `S` in row-major order |
| Day12Heightmap.FindEnd | day-12/src/main.rs:100-109 | `find_end` panics exactly when there is no `E`, otherwise it returns the first cell holding `E` in row-major order |
| Day12Heightmap.CoordsRoundTrip | day-12/src/main.rs:171-178 | numbering a cell inside the width and decoding the number gives the cell back |
| Day12Heightmap.IndexRoundTrip | day-12/src/main.rs:171-178 | decoding a number gives a column inside the width, and numbering the result gives the number back |
| Day12Heightmap.CoordsInjective | day-12/src/main.rs:171-173 | distinct cells inside the width get distinct numbers |
| Day12Heightmap.BuildGraph | day-12/src/main.rs:111-168 | building panics exactly on an empty map; otherwise the graph has the map's width and height and one adjacency list per cell, in row-major order |
| Day12Heightmap.AdjacencyLength | day-12/src/main.rs:123-165 | on a rectangular map there is one adjacency list per cell |
| Day12Heightmap.AdjacencyAt | day-12/src/main.rs:123-173 | the adjacency list at a cell's `coords_to_index` number is that cell's list |
| Day12Heightmap.AdjacencyAtLastRow | day-12/src/main.rs:123-173 | the lists of the last row built come after every earlier row, each at its cell's `coords_to_index` number |
| Day12Heightmap.RowAdjacencyAt | day-12/src/main.rs:124-165 | the inner loop over one row pushes, at column x, exactly the list of the cell in column x |
| Day12Heightmap.PushRow | day-12/src/main.rs:124-165 | one pass of the outer loop appends to the lists built so far exactly one row's lists, in column order |
| Day12Heightmap.AdjacencyIndex | day-12/src/main.rs:123-173 | on a rectangular map the adjacency lists are indexed exactly by the cell numbers |
| Day12Heightmap.EdgeToMembers | day-12/src/main.rs:147-153 | an edge to a candidate exists exactly when the candidate is on the map and can be climbed to, and it carries the candidate's number |
| Day12Heightmap.NeighboursMembers | day-12/src/main.rs:125-163 | a number is an edge of a cell exactly when it numbers one of the four candidates that is on the map and can be climbed to |
| Day12Heightmap.CandidatesOrthogonal | day-12/src/main.rs:127-161 | the candidates tried are exactly the four orthogonal neighbours that have non-negative coordinates |
| Day12Heightmap.NeighbourEdgeOut | day-12/src/main.rs:125-163 | every edge of a cell leads to an orthogonal neighbour on the map that the cell can climb to |
| Day12Heightmap.NeighbourEdgeIn | day-12/src/main.rs:125-163 | every orthogonal neighbour on the map gets an edge exactly when the cell can climb to it |
| Day12Heightmap.NeighbourEdges | day-12/src/main.rs:125-163 | the edges of a cell are exactly its climbable orthogonal neighbours on the map |
| Day12Heightmap.IndexInGrid | day-12/src/main.rs:176-178 | a cell number below width times height decodes to a row of the map |
| Day12Heightmap.BuiltGraphValid | day-12/src/main.rs:111-168 | every edge of a graph built from a rectangular map leads to a node of the graph |
| Day12ShortestPath.Cmp | day-12/src/main.rs:267-285 | the cheaper state compares greater, so the max-heap pops the cheapest state first |
| Day12ShortestPath.CmpTotalOrder | day-12/src/main.rs:267-285 | the state order is total and consistent with equality: only equal states compare equal, it is antisymmetric and transitive |
| Day12ShortestPath.TopUnique | day-12/src/main.rs:198 | the heap's greatest state is unique, so `pop` is determined |
| Day12ShortestPath.TopCheapest | day-12/src/main.rs:198 | the popped state is a cheapest state in the heap |
| Day12ShortestPath.TopExists | day-12/src/main.rs:198 | a non-empty heap has a greatest state, and it is a cheapest one |
| Day12ShortestPath.WalkPrefix | day-12/src/main.rs:209-223 | every prefix of a walk is a walk to its last node |
| Day12ShortestPath.WalkExtend | day-12/src/main.rs:209-223 | a walk extended along an edge is a walk to the edge's destination |
| Day12ShortestPath.FirstOutside | day-12/src/main.rs:198-224 | a walk to a node not yet expanded has a first node not yet expanded, with every earlier node expanded |
| Day12ShortestPath.LowerBound | day-12/src/main.rs:198-224 | when every heap cost is at least c, every walk to a node not yet expanded takes at least c steps |
| Day12ShortestPath.ExhaustedReachesDone | day-12/src/main.rs:198-227 | once the heap is empty, every node a walk reaches has been expanded |
| Day12ShortestPath.PopStale | day-12/src/main.rs:204-207 | skipping a state costlier than the recorded distance keeps the loop invariant |
| Day12ShortestPath.PopSettle | day-12/src/main.rs:198-211 | popping the live state of a node at the top of the heap expands a node not expanded before, with its recorded distance final |
| Day12ShortestPath.RelaxStep | day-12/src/main.rs:211-223 | relaxing one edge records a shorter distance only with a walk of that length and keeps the invariant |
| Day12ShortestPath.RelaxCore | day-12/src/main.rs:211-221 | an improving edge belongs to a node not yet expanded; recording its distance with the extended walk and pushing its state keeps every recorded distance witnessed and exactly one live state per unexpanded node |
| Day12ShortestPath.RelaxKeepsRelaxed | day-12/src/main.rs:211-221 | lowering the distance of a node not yet expanded leaves every expanded node relaxed and relaxes one more edge of the node being expanded |
| Day12ShortestPath.Nodes | day-12/src/main.rs:186 | the set holds exactly the node numbers below n |
| Day12ShortestPath.FoundEnd | day-12/src/main.rs:199-202 | when the end is popped its cost is the length of a walk to it and no walk to it is shorter |
| Day12ShortestPath.Expand | day-12/src/main.rs:211-223 | relaxing every edge of the expanded node restores the loop invariant; it only pushes states, keeps the expanded node's distance, and every other distance stays or drops |
| Day12ShortestPath.PopNext | day-12/src/main.rs:198-223 | one turn of the loop either stops with the cost of a shortest walk to the end, or keeps the invariant while expanding a new node or shrinking the heap |
| Day12ShortestPath.ShortestPath | day-12/src/main.rs:181-228 | a start outside the graph panics; otherwise the result is the number of steps of a shortest walk from start to end, `None` exactly when no walk reaches the end, and 0 when start and end coincide |
| Day12ShortestPath.TakeSmaller | day-12/src/main.rs:61-71 | keeping the smaller of the best length so far and the search from the next cell bounds every walk from a lowest square up to that cell and keeps a witness walk |
| Day12ShortestPath.RowDone | day-12/src/main.rs:62-70 | finishing a row extends the bound to the start of the next row |
| Day12ShortestPath.FewestStepsFromLowest | day-12/src/main.rs:55-72 | the minimum over all searches is the length of a shortest walk to the end from any `a` square or the start, `None` exactly when none reaches it |
| Day12ShortestPath.LowestBeatsStart | day-12/src/main.rs:61-72 | the start is a lowest square, so part two's answer is never longer than part one's |
| Day12ShortestPath.Solve | day-12/src/main.rs:45-73 | a map without `S` or without `E` panics; otherwise the two answers are the fewest steps from the first `S` to the first `E` in row-major order and from any lowest square to that `E`, the second never longer than the first |
| Day13Packets.IntPromotion | day-13/src/main.rs:89-96 | an integer compared with a list, on either side, is compared as the one-element list holding it |
| Day13Packets.CompareSelf | day-13/src/main.rs:60-98 | no packet is decided against itself: `compare(a, a)` is `None` |
| Day13Packets.CompareItemsSelf | day-13/src/main.rs:67-87 | walking a list against itself reaches the `(None, None)` arm undecided |
| Day13Packets.CompareSwap | day-13/src/main.rs:60-98 | swapping the two packets negates a decision and keeps an undecided pair undecided |
| Day13Packets.CompareItemsSwap | day-13/src/main.rs:67-87 | swapping the two lists negates the element-wise decision, including the length arms |
| Day13Packets.CompareAntisymmetric | day-13/src/main.rs:60-98 | `compare(a, b) == Some(t)` exactly when `compare(b, a) == Some(!t)` |
| Day13Packets.PrefixFirst | day-13/src/main.rs:71-79 | a proper prefix of a list is in the right order against it |
| Day13Packets.CommonPrefix | day-13/src/main.rs:71-76 | lists are compared lexicographically: a shared prefix does not affect the decision |
| Day13Packets.CompareExample | day-13/src/main.rs:60-87 | the first example pair is in the right order, decided by its third integers |
| Day13Packets.DigitChar | day-13/src/main.rs:183 | each decimal digit value has a digit character that reads back as that value |
| Day13Packets.NatToString | day-13/src/main.rs:183 | a printed non-negative integer is a non-empty run of digits |
| Day13Packets.NatToStringRoundTrip | day-13/src/main.rs:152-183 | reading back the printed digits of a non-negative integer gives the integer |
| Day13Packets.Peek | day-13/src/main.rs:164-169 | the next character is present exactly when input remains, and is its first character |
| Day13Packets.Accept | day-13/src/main.rs:157-162 | accepting `c` succeeds exactly when the input starts with `c` and then drops that character; otherwise it is a syntax error |
| Day13Packets.DigitRun | day-13/src/main.rs:143-150 | the digit loop consumes the longest run of leading digits and stops at the first non-digit |
| Day13Packets.ParseInteger | day-13/src/main.rs:140-155 | reading an integer succeeds exactly when the input starts with a digit (an empty run makes `unwrap` panic) and always consumes input |
| Day13Packets.ParseList | day-13/src/main.rs:113-130 | a list parse that succeeds consumes input |
| Day13Packets.ParseMore | day-13/src/main.rs:123-127 | the comma loop, when it succeeds, consumes input |
| Day13Packets.ParseElement | day-13/src/main.rs:132-138 | an element that starts with neither a digit nor `[` is a syntax error, and a successful element consumes input |
| Day13Packets.Parse | day-13/src/main.rs:100-106 | input that does not start with `[` is a syntax error |
| Day13Packets.IntegerRoundTrip | day-13/src/main.rs:140-183 | a printed integer followed by a non-digit reads back as the same integer, leaving the rest |
| Day13Packets.ElementRoundTrip | day-13/src/main.rs:132-204 | a printed element without negative integers parses back to itself and leaves what follows |
| Day13Packets.ListRoundTrip | day-13/src/main.rs:113-201 | a printed list without negative integers parses back to itself and leaves what follows |
| Day13Packets.TailRoundTrip | day-13/src/main.rs:123-196 | the comma-separated remaining items and the closing bracket parse back to the items appended to those already read |
| Day13Packets.ParsePrint | day-13/src/main.rs:100-204 | parsing the printed text of a list without negative integers gives the list back |
| Day13Packets.ParseFlatExample | day-13/src/main.rs:211-222 | `[1,1,3,1,1]` parses to the flat list of those integers |
| Day13Packets.ParseNestedExample | day-13/src/main.rs:224-231 | `[[1],[2,3,4]]` parses to the two nested lists |
| Day13Packets.ParseEmptyExample | day-13/src/main.rs:233-237 | `[[[]]]` parses to three nested lists around nothing |
| Day13Packets.DividerPackets | day-13/src/main.rs:31-52 | the divider packets parse to `[[2]]` and `[[6]]` and print back as the same text, so the search by printed text finds them |
| Day14Cave.Ordered | day-14/src/main.rs:253-258 | the bounds are the two arguments, smaller first |
| Day14Cave.OrderedMembers | day-14/src/main.rs:253-258 | `i` lies in `ordered(a, b)` exactly when it lies between `a` and `b`, whichever is larger |
| Day14Cave.NewCave | day-14/src/main.rs:65-87 | a rectangular grid with one row per `y` from `min_y` to `max_y + 2` and one column per `x` from `min_x` to `max_x`, air everywhere except a last row of rock, no grain; with no row at all taking the floor panics |
| Day14Cave.CoordsToIndices | day-14/src/main.rs:248-250 | the indices are the coordinates minus the grid's corner; a coordinate before the corner has none |
| Day14Cave.IndicesRoundTrip | day-14/src/main.rs:248-250 | converting grid indices to world coordinates and back gives the indices |
| Day14Cave.MaterialAt | day-14/src/main.rs:90-91 | a world point has a material exactly when its indices fall inside the grid |
| Day14Cave.HasSandRestingAtOrigin | day-14/src/main.rs:89-92 | true exactly when the cell at `(500, 0)` holds sand at rest; an origin outside the grid panics |
| Day14Cave.AddSand | day-14/src/main.rs:219-224 | a grain is placed exactly when none is in flight and the location is air inside the grid, and nothing else changes |
| Day14Cave.FillColumn | day-14/src/main.rs:229-233 | a vertical run fails exactly when one of its cells is outside the grid, and otherwise sets exactly those cells to rock |
| Day14Cave.FillRow | day-14/src/main.rs:234-238 | a horizontal run fails exactly when one of its cells is outside the grid, and otherwise sets exactly those cells to rock |
| Day14Cave.FillLineSegment | day-14/src/main.rs:226-242 | a diagonal segment or one leaving the grid panics; otherwise exactly the cells on the segment become rock and nothing else changes |
| Day14Cave.FillVertical | day-14/src/main.rs:229-233 | a segment whose ends share a column fails exactly when one of its cells is outside the grid, and otherwise turns exactly its cells to rock |
| Day14Cave.FillHorizontal | day-14/src/main.rs:234-238 | a segment whose ends share a row fails exactly when one of its cells is outside the grid, and otherwise turns exactly its cells to rock |
| Day14Cave.SegmentCells | day-14/src/main.rs:227-250 | in grid indices, the segment's cells are one column or one row between the converted endpoints |
| Day14Cave.FillableShape | day-14/src/main.rs:226-242 | whether a segment can be drawn depends only on the grid's shape and corner, not on what earlier segments drew |
| Day14Cave.Flatten | day-14/src/main.rs:212-216 | the segments in drawing order are exactly those of all the paths |
| Day14Cave.CoveredStep | day-14/src/main.rs:212-216 | the points the first `i + 1` segments cover are those of the first `i` plus those of segment `i` |
| Day14Cave.AddSegments | day-14/src/main.rs:211-217 | drawing fails exactly when some segment cannot be drawn, and otherwise turns to rock exactly the cells some segment passes through |
| Day14Cave.DrawnStep | day-14/src/main.rs:212-216 | drawing one more segment extends the drawn cells by that segment's cells |
| Day14Cave.AddRocks | day-14/src/main.rs:211-217 | the rocks of all paths are drawn, failing exactly when some segment cannot be drawn |
| Day14Cave.Expand | day-14/src/main.rs:37-40 | the bounds grow to hold the point and still hold everything they held |
| Day14Cave.Bounds | day-14/src/main.rs:32-42 | the bounds hold the sand origin and both ends of every segment |
| Day14Cave.BoundsFit | day-14/src/main.rs:32-45 | the cave built from those bounds exists and every axis-aligned segment can be drawn into it |
| Day14Cave.WithinFits | day-14/src/main.rs:65-87 | a cave spanning two corners exists and holds every axis-aligned segment whose ends lie between the corners |
| Day14Sand.TryMoveSand | day-14/src/main.rs:140-173 | with a grain in a valid cave the move is decided: straight down if that cell is air, else the left abyss at the left edge, else down-left, else the right abyss at the right edge, else down-right, else rest with all three cells below taken; without a grain it panics |
| Day14Sand.Rest | day-14/src/main.rs:107-110 | the grain's cell becomes sand at rest, no grain is in flight and every other cell is unchanged |
| Day14Sand.SimulateOne | day-14/src/main.rs:102-138 | a move that panics makes the step panic |
| Day14Sand.GrowLeftKeepsWorld | day-14/src/main.rs:111-125 | growing to the left keeps the cave valid, every world point on the same material and the grain at the same world point, and adds a column at `min_x - 1` of air above rock |
| Day14Sand.GrowRightKeepsWorld | day-14/src/main.rs:126-136 | growing to the right keeps the cave valid, every world point on the same material and the grain, and adds a column at `max_x + 1` of air above rock |
| Day14Sand.SimulateKeepsValid | day-14/src/main.rs:102-173 | a step of a valid cave with a grain never panics and leaves the cave valid: the grain never reaches the floor row |
| Day14Sand.CountRowUpdate | day-14/src/main.rs:109 | changing one cell changes a row's sand count by that cell's change |
| Day14Sand.CountSandUpdate | day-14/src/main.rs:109 | changing one row changes the grid's sand count by that row's change |
| Day14Sand.CountRowPrepend | day-14/src/main.rs:113-115 | a cell in front of a row adds its own sand to the count |
| Day14Sand.CountRowAppend | day-14/src/main.rs:128-130 | a cell after a row adds its own sand to the count |
| Day14Sand.CountSandRows | day-14/src/main.rs:113-133 | grids whose rows hold the same sand hold the same sand |
| Day14Sand.SimulateCount | day-14/src/main.rs:102-138 | a step adds one grain of sand at rest when the grain comes to rest and none otherwise |
| Day14Sand.SimulateUntilRest | day-14/src/main.rs:94-100 | stepping until no grain is in flight keeps the cave valid and adds exactly one grain of sand at rest when a grain was in flight |
| Day14Sand.CountGrains | day-14/src/main.rs:47-52 | the loop ends with sand resting at the origin, and the count is the number of grains added to the sand at rest |
| Day14Sand.Solve | day-14/src/main.rs:29-54 | the answer is the number of cells holding sand at rest in the final cave, whose origin holds sand |
| Day14Sand.DrawnValid | day-14/src/main.rs:44-87 | rocks drawn into a new cave leave it valid and without sand |
| Day14Sand.DrawRocks | day-14/src/main.rs:32-45 | building the cave from the bounds and drawing the rocks fails exactly when some segment cannot be drawn into that cave; otherwise the cave starts valid, with no grain in flight and no sand at rest |
| Day14Sand.NoSandCount | day-14/src/main.rs:65-87 | a grid without sand at rest counts none |
| Day15Ranges.ValidApart | day-15/src/main.rs:160-183 | in a sorted, strictly separated list every two stored ranges are apart, not only neighbours |
| Day15Ranges.Insert | day-15/src/main.rs:183 | inserting a range into a list keeps every range and adds exactly that one |
| Day15Ranges.InsertSorted | day-15/src/main.rs:183 | inserting into a list sorted by start keeps it sorted by start |
| Day15Ranges.SortByStart | day-15/src/main.rs:183 | sorting by start is a permutation whose result is sorted by start |
| Day15Ranges.InsertValid | day-15/src/main.rs:183 | inserting a range apart from every range of a valid list keeps it valid |
| Day15Ranges.SortValid | day-15/src/main.rs:183 | sorting non-empty, pairwise apart ranges by start gives a valid list |
| Day15Ranges.SameCover | day-15/src/main.rs:183 | two lists holding the same ranges cover the same integers, so sorting changes no coverage |
| Day15Ranges.SwapRemove | day-15/src/main.rs:176 | `swap_remove` drops exactly the chosen range, keeps everything before it, and is one shorter |
| Day15Ranges.SwapRemoveApart | day-15/src/main.rs:176 | removing a range keeps the others pairwise apart |
| Day15Ranges.RemoveStep | day-15/src/main.rs:174-177 | removing the last marked index that is left keeps the index in bounds and removes that range |
| Day15Ranges.RemoveFromEnd | day-15/src/main.rs:173-177 | removing the marked indices from the end removes exactly the marked ranges, never an index already moved, and keeps the rest apart |
| Day15Ranges.IntersectsTouches | day-15/src/main.rs:131-157 | once containment is ruled out, the three merge tests mark a range exactly when the two ranges overlap or touch, and an unmarked range is strictly apart from the new one |
| Day15Ranges.ValidOrder | day-15/src/main.rs:165-169 | in a valid list a later range starts and ends no earlier than an earlier one |
| Day15Ranges.MegaCovers | day-15/src/main.rs:165-171 | the merged range covers exactly the new range, the marked ranges and the gaps between them |
| Day15Ranges.MegaApart | day-15/src/main.rs:165-171 | every range left unmarked is strictly apart from the merged range |
| Day15Ranges.ValidDistinct | day-15/src/main.rs:160-183 | a valid list holds each range at most once |
| Day15Ranges.KeptRanges | day-15/src/main.rs:173-177 | after the removals a range is kept exactly when it sat at an unmarked index |
| Day15Ranges.AppendApart | day-15/src/main.rs:162-179 | a range apart from every range of a pairwise apart list can be pushed keeping them pairwise apart |
| Day15Ranges.AppendCovers | day-15/src/main.rs:162-179 | pushing a range adds exactly its integers to the coverage |
| Day15Ranges.Add | day-15/src/main.rs:116-184 | an empty range or one inside a stored range changes nothing; from sorted, strictly separated ranges the result is again sorted and strictly separated and covers exactly the old integers and those of the new range |
| Day15Ranges.NoMerge | day-15/src/main.rs:160-183 | with nothing marked, pushing and sorting keeps the list valid and adds exactly the new range's integers |
| Day15Ranges.Merged | day-15/src/main.rs:163-183 | replacing the marked ranges by the merged range and sorting keeps the list valid and adds exactly the new range's integers |
| Day15Ranges.MergedCovers | day-15/src/main.rs:163-179 | the kept ranges plus the merged range cover exactly what the old ranges and the new one cover |
| Day15Ranges.New | day-15/src/main.rs:112-114 | the empty list is valid and covers nothing |
| Day15Ranges.Interval | day-15/src/main.rs:189 | the integers of `lo..hi`, of which there are `hi - lo` when it is not empty |
| Day15Ranges.CoveredSetMembers | day-15/src/main.rs:186-191 | the covered set holds exactly the integers some stored range covers |
| Day15Ranges.CoverageCount | day-15/src/main.rs:186-191 | for a valid list the sum of `end - start` is the number of integers covered |
| Day15Sensors.ManhattanRadius | day-15/src/main.rs:62-65 | the radius is the taxicab distance between sensor and beacon, measured either way round |
| Day15Sensors.RangeAt | day-15/src/main.rs:67-79 | the range holds exactly the `x` of the points on row `y` within the sensor's radius, is `0..0` when the row is out of reach, and is centred on the sensor otherwise |
| Day15Sensors.NewBounds | day-15/src/main.rs:91-100 | the new bounds hold the initial point and nothing else |
| Day15Sensors.Expand | day-15/src/main.rs:102-108 | the expanded bounds are the least bounds holding both the old bounds and the point |
| Day15Sensors.ExpandAllLeast | day-15/src/main.rs:39-42 | expanding over every sensor and beacon gives the least bounds holding the starting bounds and all those points |
| Day15Sensors.SensorBounds | day-15/src/main.rs:38-42 | no sensors makes `sensors[0]` panic; otherwise the bounds are the least ones holding every sensor and beacon |
| Day15Sensors.SeenMembers | day-15/src/main.rs:48-79 | an `x` is covered on the row exactly when some sensor senses that point |
| Day15Sensors.BeaconsOnMembers | day-15/src/main.rs:52-54 | the set of beacons on the row holds exactly the `x` of the beacons whose `y` is the row |
| Day15Sensors.BeaconsSeen | day-15/src/main.rs:52-58 | every beacon on the row lies in the covered part, since its own sensor reaches it |
| Day15Sensors.NoBeaconMembers | day-15/src/main.rs:56-58 | the answer's set holds exactly the row positions some sensor reaches that are no closest beacon |
| Day15Sensors.CountNoBeacon | day-15/src/main.rs:46-58 | the printed coverage is the number of covered positions minus the beacons on the row, which is the number of positions where no beacon can be |
| Day15Sensors.Solve | day-15/src/main.rs:36-59 | with no sensors it panics; otherwise the bounds are the least holding every sensor and beacon, and the answer counts the positions on line 2000000 where no beacon can be |

## Left out

- Reading standard input, `trim`, `str::parse` and all input parsing done by the `inpt` library: every day receives its input as Dafny values. The hand-written day-13 parser, the day-5 column slicing and the day-3 halving are modelled.
- All printing: `println!`, `eprintln!`, `World::print` of day 9, the display loop of day 8 (it reads `viz[y][x]` with the row and column roles swapped, so it would index out of bounds on any grid that is not square; on a square grid it has no effect on the answer), the progress report of day 11, the `animate` feature of day 14 and the bounds that day 15 only prints (they are computed and specified, not printed).
- Fixed-width integers: `i32`, `i64` and `usize` arithmetic is unbounded here, so overflow in `Expr::evaluate`, in range arithmetic and in the `usize::MAX` distance sentinel of day 12 is not modelled; unvisited distances are `None`.
- `as usize` on a negative day-14 index would wrap round; the model reports such an index as outside the grid, which is where the wrapped index would panic.
- `HashSet` is modelled as a Dafny `set` (days 3, 6 and 15).
- The day-13 `packets.sort_by` and the search for the divider packets' positions: the sort is std's, driven by a comparator that never answers `Equal`, so its result depends on library internals. Only `compare`, the parser, the printer and the divider packets' round trip are modelled.
- `num::integer::lcm` is a foreign function; `Day11Monkeys.Lcm` is defined from `Gcd` on the divisors' magnitudes instead.
- The day-12 heap's order among states of equal cost (the larger position pops first) is kept by `Cmp`, but the contracts of `Day12ShortestPath.ShortestPath` only speak about the cost returned, which does not depend on it. The cost of repeating the search from every lowest square is not modelled.
- The day-7 `main`, which only prints the parsed lines, and the test `test_herp`, which asserts nothing.
- Day14Sand.SimulateUntilRest: the loop carries a `fuel` bound and reports `Err` when it runs out, so the contract speaks only about runs that finish; that every grain comes to rest in finitely many steps is not proved.
- Day14Sand.CountGrains: the same `fuel` bound limits the number of grains; it requires a valid cave without a grain in flight, which `Day14Sand.DrawnValid` establishes for the cave `main` builds.
- Day14Sand.SimulateOne: its own contract says only that a panicking move panics; what a step does is stated by `SimulateKeepsValid`, `SimulateCount`, `GrowLeftKeepsWorld` and `GrowRightKeepsWorld`.
- Day12ShortestPath.Solve: requires a rectangular map, as every line read from the puzzle input has the same length; a ragged map is not modelled.
- Day12ShortestPath.ShortestPath: requires an adjacency list whose destinations are all nodes of the graph, which `Day12Heightmap.BuiltGraphValid` proves of every graph `build_graph` returns.
- Day08Visibility.CountSeen: requires a rectangular grid of digits, as the puzzle input is; a ragged grid is not modelled.
- Day08Visibility.MarkVisibility: requires a rectangular grid, for the same reason.
- Day03Rucksack.Halves: lengths and offsets count characters while Rust's `len()` and slicing count bytes, so the model agrees with the source on ASCII lines only; a non-ASCII line may pass the evenness check here where the `assert_eq!` fails, or split at another place.
- Day05Crates.Column: the chunk offsets `4k..4k+3` count characters while `line.get` counts bytes and gives `None` off a character boundary, so the model agrees with the source on ASCII drawings only.
- Day05Crates.ParseCrate: `\w` is taken as the ASCII word characters, while the regex crate's `\w` is Unicode-aware; a crate labelled with a non-ASCII letter panics here and not in the source.
- Day06Marker.StartDistinct: requires a window of at least one character; the source only instantiates it with 4 and 14.
- Day01Calories.MaxGroup: requires at least one group, which `Day01Calories.Group` guarantees for every input.
- Day15Ranges.Add: the insertion sort by start stands in for `sort_by_key`; both are stable and give the same list.

## Findings

| source | as written | input that shows it | evidently intended | confidence | as-written member | corrected member |
|---|---|---|---|---|---|---|
| day-6/src/main.rs:26-28 | the distinctness check is skipped while `i < PREFIX_SIZE`, so the first full window, which ends at index `PREFIX_SIZE - 1`, is never examined | `start_packet("abcd")` is `None`, and `start_packet("abcda")` is `Some(5)` | `Some(4)` in both cases: the first window is already distinct | not executed | Day06Marker.StartDistinctAsWritten | Day06Marker.StartDistinct |
