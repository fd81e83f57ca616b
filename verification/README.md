# Advent of Code 2022, days 1 to 12, in Dafny

This project models the core of a Rust solution set for the first twelve
puzzles of Advent of Code 2022. Each puzzle is its own module, named after the
puzzle. Each module follows one source file.

- `highest_n.dfy` (`HighestN`): the bounded top-N selector of `day1.rs`. It
  wraps a binary min-heap of `Reverse<T>` capped at `N` elements. Draining it
  yields the `N` largest inputs in ascending order. Day 11 also uses it, as
  `n_highest::<2>`.
- `day1.dfy` (`CalorieCounting`): group totals, the maximum, and the sum of
  the top three.
- `day2.dfy` (`RockPaperScissors`): the sign/outcome algebra, the byte
  decoders, and round scoring.
- `day3.dfy` (`Rucksack`): item priorities, the shared item of the two
  compartments, and the badge of each group of three.
- `day4.dfy` (`CampCleanup`): inclusive-range containment and overlap, and
  range parsing.
- `day5.dfy` (`SupplyStacks`): stack building from the drawing, instruction
  parsing, and both move semantics with crate conservation.
- `day6.dfy` (`TuningTrouble`): the `u32` bitset uniqueness test and the
  first-marker search.
- `day7.dfy` (`NoSpaceLeft`): the fold of terminal events over a stack of
  running directory sizes, the upward propagation, and both selections.
- `day8.dfy` (`TreetopTreeHouse`): lines of sight, visibility, the perimeter
  shortcut, and scenic scores.
- `day9.dfy` (`RopeBridge`): king distance, knot following, the tautness
  invariant, and tail tracing.
- `day10.dfy` (`CathodeRayTube`): instruction decoding, the cycle-by-cycle
  `X` register, signal strengths, and the pixel rule.
- `day11.dfy` (`MonkeyInTheMiddle`): throwing, turns and rounds. It proves that
  reducing levels modulo the product of the divisors changes no throw count
  when there is no division by 3.
- `day12.dfy` (`HillClimbing`): heightmap decoding, indexing, 4-neighbour
  generation, and the backward edge predicate of the search.

The modules share two helper files:

- `common.dfy` (`Common`): `Option`, mapping and summing sequences, `Distinct`, and the
  uniqueness of Euclidean division.
- `numbers.dfy` (`Numbers`): Rust's `str::parse` for unsigned and signed
  integer types, with round trips against a decimal renderer, and
  `str::split_once`.

Modelling conventions:

- A panicking path becomes a precondition. This covers `unwrap` on malformed
  input, `unreachable!()`, out-of-range indexing, and `usize` underflow.
  Parsing is the exception: `CampCleanup.ParseRange`, `CampCleanup.ParseLine`
  and `HillClimbing.FromStr` return `None` where the code panics.
- Integers are unbounded.
- The text splitting done by the `#[aoc_generator]` wiring is abstracted away:
  generators take lines or groups of lines that are already split.
- Terminal events (day 7) and monkey rules (day 11) are taken as already
  parsed values.

Behaviour of the code that the model keeps:

- `HighestN.New` accepts `n = 0`. Every element is pushed and then popped
  again (`src/day1.rs:14-19`), so nothing is kept.
- In the puzzle, `S` has height `a` and `E` has height `z`. The code decodes
  them as `-1` and `26` (`src/day12.rs:29-30`). `HillClimbing.StartEnteredOnlyFromA`
  and `HillClimbing.EndLeftOnlyToZ` state what that means for the search edges.
- `std::mem::take` leaves a default monkey in place while a monkey throws
  (`src/day11.rs:146-148`). An item a monkey throws to itself therefore lands
  on the placeholder and is lost. The model keeps this loss:
  - `MonkeyInTheMiddle.TurnTotal` states it.
  - Item conservation (`MonkeyInTheMiddle.RoundsTotal`) is proved only for
    monkeys that never target themselves.

## Model

| member | source | states |
|---|---|---|
| `HighestN.Next` | src/day1.rs:26-28 | Popping yields `None` exactly on an empty queue. Otherwise it yields a smallest element and leaves the rest. |
| `HighestN.OfferKeepsTopN` | src/day1.rs:14-19 | One push-then-pop-if-over-capacity step keeps "the queue holds the `n` largest of the input so far" as the input grows by one. |
| `HighestN.New` | src/day1.rs:9-21 | The selector ends with at most `n` elements. Its multiset is a top-`n` of the input: a sub-multiset of size `min(n, |xs|)` that dominates everything dropped. |
| `HighestN.Drain` | src/day1.rs:24-29 | Exhausting the iterator yields every held element exactly once, in non-decreasing order. |
| `HighestN.DrainNew` | src/day1.rs:36-38 | `n_highest::<n>()` drained gives exactly `min(n, |xs|)` elements. They are sorted and are the `n` largest inputs, duplicates counted. |
| `HighestN.NewKeepsEverything` | src/day1.rs:14-19 | When the input has at most `n` elements, nothing is dropped. |
| `HighestN.NewOneIsMax` | src/day1.rs:13-28 | With capacity one the single element yielded is an input element that is at least every input. |
| `Numbers.ParseUnsigned` | src/day1.rs:52 | `str::parse::<uN>`: a successful parse starts with a digit or `+` and lies within the type's range. |
| `Numbers.ParseSigned` | src/day10.rs:34 | `str::parse::<iN>`: a successful parse lies within the type's range. |
| `Numbers.ParseShowUnsigned` | src/day1.rs:52 | Parsing the decimal rendering of any in-range value gives that value back. |
| `Numbers.ParseRejectsOverflow` | src/day1.rs:52 | The rendering of a value above the type's maximum does not parse. |
| `Numbers.ParseShowSigned` | src/day10.rs:34 | Parsing the rendering of any in-range signed value, with a `-` for negatives, gives it back. |
| `Numbers.SplitOnce` | src/day4.rs:18 | `split_once` fails exactly when the separator is absent. Otherwise the parts rejoin to the input around the first separator. |
| `Numbers.SplitOnceAt` | src/day4.rs:30 | Splitting `l + sep + r` where `l` has no `sep` gives back `(l, r)`. |
| `CalorieCounting.LineValue` | src/day1.rs:52 | A line contributes its `u32` value, or nothing if it does not parse. |
| `CalorieCounting.GroupTotal` | src/day1.rs:52 | A group's total is bounded by `u32::MAX` per line. |
| `CalorieCounting.Generator` | src/day1.rs:49-53 | One total per blank-line-separated group, in order. |
| `CalorieCounting.GroupOfNumbers` | src/day1.rs:52 | A group whose lines are renderings of `u32` values totals to their sum. |
| `CalorieCounting.UnparsableLineIgnored` | src/day1.rs:52 | A line that fails to parse leaves the group total unchanged, wherever it occurs. |
| `CalorieCounting.Part1` | src/day1.rs:57-59 | The answer is an input total and no total exceeds it. |
| `CalorieCounting.Part2` | src/day1.rs:62-64 | The answer is the sum of `min(3, n)` values forming a top-3 of the totals. |
| `CalorieCounting.MaxAmongTopThree` | src/day1.rs:57-64 | The part-one maximum is among the three kept by part two. |
| `CalorieCounting.Part2AtLeastPart1` | src/day1.rs:57-64 | Part two's answer is never below part one's. |
| `CalorieCounting.Part1IsHighestOne` | src/day1.rs:57-64 | The maximum is what a capacity-one selector yields. |
| `RockPaperScissors.Beats` | src/day2.rs:13-25 | The outcome is `Draw` exactly when the signs are equal. |
| `RockPaperScissors.Index` | src/day2.rs:29-30 | The discriminant cast `as usize` is below 3. |
| `RockPaperScissors.FromIndex` | src/day2.rs:56-65 | `From<usize>` is a right inverse of the discriminant on `0..3`. |
| `RockPaperScissors.FromIndexInverts` | src/day2.rs:56-65 | `From<usize>` undoes the discriminant cast for every sign. |
| `RockPaperScissors.NewFromOutcome` | src/day2.rs:26-32 | The chosen sign achieves the requested outcome against the opponent. |
| `RockPaperScissors.NewFromOutcomeUnique` | src/day2.rs:26-32 | It is the only sign that does. |
| `RockPaperScissors.WinIsSuccessor` | src/day2.rs:18-23 | `a` beats `b` exactly when `a`'s discriminant is `b`'s plus one, mod 3. |
| `RockPaperScissors.WinLoseDual` | src/day2.rs:18-23 | `a` beats `b` exactly when `b` loses to `a`. |
| `RockPaperScissors.SignPoints` | src/day2.rs:35-43 | Sign points are 1 to 3, in declaration order. |
| `RockPaperScissors.OutcomePoints` | src/day2.rs:74-82 | Outcome points are 0, 3 or 6: 0 exactly for a loss and 6 exactly for a win. |
| `RockPaperScissors.SignFromByte` | src/day2.rs:44-53 | A letter of either column decodes to the sign at its offset from `A` or `X`. |
| `RockPaperScissors.OutcomeFromByte` | src/day2.rs:84-93 | `X`, `Y`, `Z` decode to outcomes worth 0, 3 and 6 points. |
| `RockPaperScissors.SignLettersInOrder` | src/day2.rs:45-54 | `A`/`X`, `B`/`Y` and `C`/`Z` decode to the signs in declaration order. |
| `RockPaperScissors.OutcomeLettersByPoints` | src/day2.rs:84-93 | `X`, `Y`, `Z` decode to outcomes ordered by their points. |
| `RockPaperScissors.Generator` | src/day2.rs:95-104 | One round per line, from bytes 0 and 2, read as signs. Lines whose first two characters are not ASCII are excluded, because then byte 2 is not a letter and `From<u8>` panics. |
| `RockPaperScissors.Generator2` | src/day2.rs:114-123 | One round per line, from bytes 0 and 2, read as a sign and an outcome. Lines whose first two characters are not ASCII are excluded, as in `Generator`. |
| `RockPaperScissors.RoundScore` | src/day2.rs:110 | A round scores between 1 and 9. |
| `RockPaperScissors.Part1` | src/day2.rs:106-112 | The total is between 1 and 9 per round. |
| `RockPaperScissors.Part2` | src/day2.rs:125-133 | The total is between 1 and 9 per round. |
| `RockPaperScissors.Choose` | src/day2.rs:129-131 | Each chosen play keeps the opponent's sign and is the one reaching the round's outcome. |
| `RockPaperScissors.Part2IsPart1OfChoices` | src/day2.rs:125-133 | Part two scores exactly as part one would on the signs part two chooses. |
| `Rucksack.Priority` | src/day3.rs:9-17 | Priorities are 1 to 52, and at most 26 exactly for lower-case letters. |
| `Rucksack.PriorityInjective` | src/day3.rs:10-16 | Different items have different priorities. |
| `Rucksack.Halves` | src/day3.rs:24 | `split_at(len / 2)` on an ASCII line: the halves rejoin to the line, and the right one is at most one longer. |
| `Rucksack.FirstShared` | src/day3.rs:28-31 | `find` returns the first right-half position whose item is in the left half, or `None` if there is none. |
| `Rucksack.LineShared` | src/day3.rs:25-32 | The scan value of a line is an item in both halves. It is `None` exactly when the halves share nothing. |
| `Rucksack.Part1` | src/day3.rs:21-34 | Defined whenever the lines the `scan` reaches are ASCII and their shared items are letters; lines after the first unshared one are unconstrained. The sum is at most 52 per line. |
| `Rucksack.Part1StopsAtUnshared` | src/day3.rs:25-33 | A line with no shared item ends the `scan`: the total equals the total of the lines before it, whatever follows. |
| `Rucksack.LinePriority` | src/day3.rs:9-17 | A scored line's shared item has a priority from 1 to 52. |
| `Rucksack.Part1ReadsPrefix` | src/day3.rs:25-32 | Whatever part one reads without panicking, it also reads with the later lines cut off. |
| `Rucksack.Part1AllShared` | src/day3.rs:21-34 | When every line has a shared letter, part one is exactly the sum of the lines' priorities, each line's taken in turn (`Sum(Map(LinePriority, lines))`). |
| `Rucksack.Chunks` | src/day3.rs:41 | `chunks(3)` gives `ceil(n/3)` groups of one to three lines; group `k` is lines `3k` up to `3k + 3`, cut at the end, so only the last group can be short. |
| `Rucksack.ChunksPartition` | src/day3.rs:41 | The chunks rejoin to the lines. |
| `Rucksack.Shared` | src/day3.rs:45-46 | The `reduce` by intersection holds exactly the items every line of the group holds. |
| `Rucksack.FirstCommon` | src/day3.rs:47 | The item found is common to the group. `None` means no item of the first line is common. |
| `Rucksack.GroupItem` | src/day3.rs:45-47 | `into_iter().next()` of a singleton-or-empty intersection: `None` exactly when it is empty, otherwise its element. |
| `Rucksack.GroupScore` | src/day3.rs:43-48 | Defined for any non-empty group whose common item, if any, is a single letter; the other characters are unconstrained. A group adds the priority of the item all its lines share, and 0 exactly when they share nothing. |
| `Rucksack.GroupsTotal` | src/day3.rs:43-49 | The sum over groups is at most 52 per group. |
| `Rucksack.GroupsTotalIsSum` | src/day3.rs:43-49 | The total is the sum of the groups' scores, group by group (`Sum(Map(GroupScore, groups))`). |
| `Rucksack.Part2` | src/day3.rs:37-50 | Defined whenever each chunk's common item, if any, is a single letter. The answer is the sum of the scores of the `chunks(3)` groups, each the priority of the group's common item; it is at most 52 per group. |
| `CampCleanup.FullyOverlaps` | src/day4.rs:9-11 | `self` starts no later and ends no earlier than `other`; its meaning as containment is `FullyOverlapsIsContainment`. |
| `CampCleanup.Overlaps` | src/day4.rs:12-14 | One range contains the other's start; its meaning as a shared section is `OverlapsIffShared`. |
| `CampCleanup.FullyOverlapsReflexive` | src/day4.rs:9-11 | Every range fully overlaps itself. |
| `CampCleanup.FullyOverlapsTransitive` | src/day4.rs:9-11 | Full overlap is transitive. |
| `CampCleanup.FullyOverlapsIsContainment` | src/day4.rs:9-11 | For a non-empty `b`, `a.fully_overlaps(b)` exactly when every section of `b` is in `a`. |
| `CampCleanup.OverlapsSymmetric` | src/day4.rs:12-14 | `overlaps` does not depend on argument order. |
| `CampCleanup.OverlapsIffShared` | src/day4.rs:12-14 | For non-empty ranges, `overlaps` holds exactly when some section lies in both. |
| `CampCleanup.FullyOverlapsImpliesOverlaps` | src/day4.rs:9-14 | Full overlap of a non-empty range implies overlap. |
| `CampCleanup.ParseRange` | src/day4.rs:17-23 | A parsed range has `u32` bounds. |
| `CampCleanup.ParseRangeRoundTrip` | src/day4.rs:17-23 | `parse_range("l-r")` is `l..=r` for all `u32` bounds. |
| `CampCleanup.ParseLine` | src/day4.rs:25-34 | `None` when the line has no `,` (the `unwrap` of `split_once`); a parsed pair has `u32` bounds. |
| `CampCleanup.ParseLineRoundTrip` | src/day4.rs:25-34 | A generator line `a-b,c-d` parses to the pair of ranges it spells. |
| `CampCleanup.CountPairs` | src/day4.rs:36-49 | The `filter().count()` never exceeds the number of pairs. |
| `CampCleanup.CountPairsSnoc` | src/day4.rs:36-49 | Appending a pair adds one to the count exactly when that pair counts. |
| `CampCleanup.CountPairsCounts` | src/day4.rs:36-49 | The count is the number of positions whose pair passes the filter. |
| `CampCleanup.Part1` | src/day4.rs:36-42 | Exactly the number of positions whose pair has one range fully containing the other, either way round. |
| `CampCleanup.Part2` | src/day4.rs:44-49 | Exactly the number of positions whose pair overlaps. |
| `CampCleanup.Part1AtMostPart2` | src/day4.rs:36-49 | With non-empty ranges, every pair part one counts is counted by part two. |
| `SupplyStacks.WordEnd` | src/day5.rs:15 | The first word ends at the first ASCII whitespace. |
| `SupplyStacks.Words` | src/day5.rs:15 | `split_ascii_whitespace` yields non-empty whitespace-free words. |
| `SupplyStacks.WordsOfWordThenSpace` | src/day5.rs:15 | A word followed by a space splits off as the first word. |
| `SupplyStacks.WordsOfWord` | src/day5.rs:15 | A single word splits into itself. |
| `SupplyStacks.JoinSpaces` | src/day5.rs:15 | Joining words with single spaces needs at least one character between each pair. |
| `SupplyStacks.WordsOfJoin` | src/day5.rs:15 | Any non-empty list of words joined by single spaces splits back into that list. |
| `SupplyStacks.InstructionLineShape` | src/day5.rs:14-18 | A `move a from s to d` line is its six words joined by single spaces. |
| `SupplyStacks.NumbersIn` | src/day5.rs:15 | `flat_map(parse::<usize>)` keeps at most one number per word. |
| `SupplyStacks.InstructionNumbers` | src/day5.rs:15-18 | Of `move a from s to d`, exactly `a`, `s` and `d` parse, in order. |
| `SupplyStacks.ParseInstruction` | src/day5.rs:12-25 | The amount and the 1-based stack numbers are the first three numbers of the line, in order; all fit in `usize`. |
| `SupplyStacks.ParseInstructionRoundTrip` | src/day5.rs:14-25 | `Instruction::from_str` of a puzzle line gives the amount, with source and destination made 0-based. |
| `SupplyStacks.CrateIn` | src/day5.rs:37-44 | Chunk `i` contributes at most one crate, its character `4i + 1` when that is a letter. On the ASCII lines the generator accepts, that character is byte 1 of the `i`-th 4-byte chunk. |
| `SupplyStacks.EmptyStacks` | src/day5.rs:46 | The fold starts from nine empty stacks. |
| `SupplyStacks.PushLine` | src/day5.rs:36-49 | The crates of one line are pushed onto the stack of their chunk index. |
| `SupplyStacks.BuildStacks` | src/day5.rs:32-49 | Building from the bottom line up keeps nine stacks. |
| `SupplyStacks.BuildStacksAreColumns` | src/day5.rs:32-49 | Stack `i` is column `i` of the drawing, read from the bottom line up. |
| `SupplyStacks.CrateLines` | src/day5.rs:35 | Only drawing lines containing `[` are kept. |
| `SupplyStacks.Generator` | src/day5.rs:29-49 | Only lines holding `[` are constrained, since the others are filtered out first. The stacks are the columns of the crate lines, bottom first, after `rev()`. |
| `SupplyStacks.Moved` | src/day5.rs:67-68 | A move transfers `min(amount, |source|)` crates, none when `amount` is 0; when it transfers any, both stack indices exist. |
| `SupplyStacks.PopPush` | src/day5.rs:68 | Needs the destination only when the source has a crate. Popping from an empty stack does nothing. Otherwise the top crate moves to the destination, and every other stack is unchanged. |
| `SupplyStacks.MoveSingly` | src/day5.rs:67-69 | Needs the source only when `amount > 0` and the destination only when a crate is popped. When nothing moves, or source and destination coincide, the stacks are unchanged; otherwise `min(amount, |source|)` crates leave the source top and land reversed on the destination. Other stacks are unchanged. |
| `SupplyStacks.PopInto` | src/day5.rs:88-90 | Popping into `temp` takes the top `min(amount, |source|)` crates, reversed. |
| `SupplyStacks.MoveBlock` | src/day5.rs:87-91 | Needs the destination only when `temp` is non-empty. When nothing moves, or source and destination coincide, the stacks are unchanged; otherwise the top `min(amount, |source|)` crates move as a block, order kept. Other stacks are unchanged. |
| `SupplyStacks.MoveSinglyConserves` | src/day5.rs:67-69 | A part-one move keeps the total number of crates. |
| `SupplyStacks.MoveBlockConserves` | src/day5.rs:87-91 | A part-two move keeps the total number of crates. |
| `SupplyStacks.SingleCrateMovesAgree` | src/day5.rs:61-92 | Moves of at most one crate give the same stacks under both semantics. |
| `SupplyStacks.Tops` | src/day5.rs:72-75 | The answer has the top crate of each stack. When every stack is non-empty, it has one per stack. |
| `SupplyStacks.TopsAppend` | src/day5.rs:72-75 | The answer for a row of stacks is the answers for its parts, concatenated. |
| `SupplyStacks.TopsSkipsEmpty` | src/day5.rs:74 | Empty stacks contribute nothing. |
| `SupplyStacks.MovesKeepSameHeights` | src/day5.rs:67-91 | On stacks of equal heights, both move kinds are valid together, move the same number of crates and leave equal heights. |
| `SupplyStacks.RunsAgree` | src/day5.rs:61-92 | Part one runs an instruction list without panicking exactly when part two does. |
| `SupplyStacks.InRangeRuns` | src/day5.rs:61-92 | Instructions that name only existing stacks run in both parts. |
| `SupplyStacks.RunSingly` | src/day5.rs:61-70 | Defined whenever each move is valid on the stacks before it. Running part one's moves keeps the stack count and the crate total. |
| `SupplyStacks.RunBlock` | src/day5.rs:81-92 | Defined whenever each move is valid on the stacks before it. Running part two's moves keeps the stack count and the crate total. |
| `SupplyStacks.Part1` | src/day5.rs:59-76 | Defined on every instruction list part one runs. The answer has at most one crate per stack. |
| `SupplyStacks.Part2` | src/day5.rs:79-98 | Defined on every instruction list part two runs. The answer has at most one crate per stack. |
| `SupplyStacks.PartsAgreeOnSingleCrates` | src/day5.rs:59-98 | When no instruction moves more than one crate, part two runs whatever part one runs, and both give the same stacks and answer. |
| `TuningTrouble.SetBit` | src/day6.rs:13 | `bits \| (1 << k)` has bit `j` set exactly when it was set or `j == k`. |
| `TuningTrouble.HasInsert` | src/day6.rs:13 | Inserting `k` into the set adds exactly `k`. |
| `TuningTrouble.HasNothing` | src/day6.rs:7 | The set starts empty. |
| `TuningTrouble.Offset` | src/day6.rs:9 | `byte - b'a'` is a bit position below 32 that maps back to the byte. |
| `TuningTrouble.AllUnique` | src/day6.rs:6-18 | For bytes from `a` on, `all_unique` is true exactly when no byte repeats. |
| `TuningTrouble.SeenStep` | src/day6.rs:8-14 | Loop invariant: bit `k` is set exactly when byte `a + k` has been consumed. An unset bit means the byte is new. |
| `TuningTrouble.FirstMarker` | src/day6.rs:22-27 | The result ends a window of `n` distinct bytes, and no earlier position does. |
| `TuningTrouble.Part1` | src/day6.rs:22-28 | The first end of four distinct bytes. |
| `TuningTrouble.Part2` | src/day6.rs:31-37 | The first end of fourteen distinct bytes. |
| `TuningTrouble.ShorterMarker` | src/day6.rs:24-35 | The last `k` bytes of a marker window are a shorter marker. |
| `TuningTrouble.PacketMarkerFirst` | src/day6.rs:21-37 | Part two's answer is never before part one's. |
| `NoSpaceLeft.ParseCd` | src/day7.rs:46-53 | `..` maps to `CdBack`, and any other argument to `CdInto` of that argument. |
| `NoSpaceLeft.Step` | src/day7.rs:86-101 | The stack sum grows by exactly the size of a listed file. Only `cd ..` records a directory, namely the top entry. `cd` into a directory deepens the stack by one and `cd ..` makes it one shallower. |
| `NoSpaceLeft.StepEffect` | src/day7.rs:86-101 | A file adds its size to the top entry. `ls` changes nothing. `CdInto` pushes 0. `CdBack` pops the top and adds it to the new top. |
| `NoSpaceLeft.CloseAfter` | src/day7.rs:95-100 | `cd ..` after a directory's listing records its size and adds it to the parent's entry. |
| `NoSpaceLeft.Fold` | src/day7.rs:84-103 | The stack sum grows by the total file size. One size is recorded per `cd ..`, and recorded sizes are only appended. Depth is `cd`s in minus `cd ..`s. |
| `NoSpaceLeft.FoldKeepsOuter` | src/day7.rs:86-101 | Events inside a directory leave the entries of the directories above it untouched. |
| `NoSpaceLeft.InnerFold` | src/day7.rs:87-94 | A directory's own listing accumulates in its new entry. |
| `NoSpaceLeft.EnterDirectory` | src/day7.rs:91-94 | After entering and listing a directory, the top entry is the directory's total size. |
| `NoSpaceLeft.LeaveDirectory` | src/day7.rs:95-100 | `cd ..` records the size and adds it to the parent. |
| `NoSpaceLeft.DirectorySize` | src/day7.rs:91-100 | A directory entered and left records exactly the total of the files inside it and its subdirectories. |
| `NoSpaceLeft.FoldAppend` | src/day7.rs:84-103 | Folding a concatenation folds the parts in turn. |
| `NoSpaceLeft.Session` | src/day7.rs:75-103 | After a whole session the stack sum is the total file size, with one record per `cd ..`. |
| `NoSpaceLeft.Propagate` | src/day7.rs:104-107 | The reverse fold makes each open entry the sum of itself and every deeper entry. |
| `NoSpaceLeft.RootSize` | src/day7.rs:104-107 | The value of the reverse fold is the sum of the stack. |
| `NoSpaceLeft.RootIsTotal` | src/day7.rs:104-107 | The root size is the total size of every file. |
| `NoSpaceLeft.Candidates` | src/day7.rs:109-111 | There is one candidate size per directory entered. |
| `NoSpaceLeft.AtMost` | src/day7.rs:112 | The filter keeps, in order, each value at most the limit as often as it occurs, and nothing else. |
| `NoSpaceLeft.SumAtMost` | src/day7.rs:112-113 | The filtered sum is the sum of the kept values: all of them when every value is small enough, 0 when none is, and at most the full sum. |
| `NoSpaceLeft.Part1AsWritten` | src/day7.rs:104-113 | As written, the answer is bounded by every directory's size plus the root's size once more, because the root is offered twice. |
| `NoSpaceLeft.Part1` | src/day7.rs:108-113 | Corrected: the sum of the candidate sizes of at most 100 000, each directory once, bounded by the sum of all sizes. |
| `NoSpaceLeft.Part1CountsRootTwice` | src/day7.rs:104-113 | The written answer is the corrected one plus the root size when the root is at most 100 000, and equal otherwise. |
| `NoSpaceLeft.Part1DoubleCountExample` | src/day7.rs:74-113 | A root holding one 10-byte file: as written 20, corrected 10. |
| `NoSpaceLeft.Minimum` | src/day7.rs:156 | `min()` of a non-empty sequence is an element that no element is below. |
| `NoSpaceLeft.Freeing` | src/day7.rs:155 | Keeps exactly the sizes whose deletion leaves 30 000 000 free on the 70 000 000 disk. |
| `NoSpaceLeft.Part2` | src/day7.rs:151-157 | The answer is a directory size that frees enough space, and no freeing size is smaller. |
| `NoSpaceLeft.RootIsCandidate` | src/day7.rs:147-154 | With a directory open at the end, the root is a candidate, so `min().unwrap()` has a value. |
| `TreetopTreeHouse.TreeFromChar` | src/day8.rs:9-16 | A digit maps to its value 0..9, and the value maps back to the digit. |
| `TreetopTreeHouse.TreeFromCharMonotone` | src/day8.rs:12 | Taller digits are taller trees, and conversely. |
| `TreetopTreeHouse.NewMap` | src/day8.rs:26-34 | Needs a first row; later rows may be longer. The width is that of the first row and the height is the row count. |
| `TreetopTreeHouse.Perimeter` | src/day8.rs:39-41 | For maps at least 2×2, the perimeter plus the interior is every tree. |
| `TreetopTreeHouse.AtSteps` | src/day8.rs:73-82 | After `k` calls, `Line::next` is `k` steps along the direction, each call adding the direction's `(dx, dy)` once more. |
| `TreetopTreeHouse.AtContains` | src/day8.rs:35-38 | The `k`-th position of a line of sight is on the map exactly for `k` up to the reach. |
| `TreetopTreeHouse.AllShorter` | src/day8.rs:104-107 | The `take_while(contains_pos).all(<)` holds exactly when every tree up to the edge is shorter. |
| `TreetopTreeHouse.Visible` | src/day8.rs:100-109 | A tree is visible exactly when, in some direction, every tree up to the edge is shorter. |
| `TreetopTreeHouse.BorderVisible` | src/day8.rs:97-111 | Edge trees are always visible, which is what adding the perimeter assumes. |
| `TreetopTreeHouse.RowCount` | src/day8.rs:98-110 | Visible trees in a row segment number at most its length. |
| `TreetopTreeHouse.GridCount` | src/day8.rs:98-110 | Visible trees in a block number at most its area. |
| `TreetopTreeHouse.RowCountCounts` | src/day8.rs:98-110 | A row segment's count is the number of its columns holding a visible tree. |
| `TreetopTreeHouse.GridCountCounts` | src/day8.rs:98-110 | A block's count is the number of its positions holding a visible tree. |
| `TreetopTreeHouse.Part1` | src/day8.rs:96-112 | Corrected: exactly the number of positions of the map whose tree is visible, at most the number of trees. Rows may be longer than the first. |
| `TreetopTreeHouse.Part1AsWritten` | src/day8.rs:94-112 | The code's own count: on a one-row map it gives `2·width − 2`, which exceeds the `width` trees there from width 3 on. |
| `TreetopTreeHouse.Part1AsWrittenCorrect` | src/day8.rs:96-112 | For maps at least 2×2, the interior count plus the perimeter equals the visible-tree count. |
| `TreetopTreeHouse.Part1SingleRowExample` | src/day8.rs:39-41 | On one row of three trees, the perimeter formula gives 4 where 3 trees are visible. |
| `TreetopTreeHouse.ViewFrom` | src/day8.rs:123-131 | The `fold_while` counts trees until the edge or the first tree at least as tall, that one included. |
| `TreetopTreeHouse.ViewingDistance` | src/day8.rs:122-131 | The distance is at most the reach, and 0 exactly at the edge. Trees before it are shorter, and it stops at a blocking tree. |
| `TreetopTreeHouse.ScenicScore` | src/day8.rs:119-133 | The product is 0 exactly for trees on the edge. |
| `TreetopTreeHouse.ArgMax` | src/day8.rs:135 | The position of a largest element. |
| `TreetopTreeHouse.GridMax` | src/day8.rs:116-136 | A largest grid entry, with a position where it occurs. |
| `TreetopTreeHouse.Scores` | src/day8.rs:116-134 | Every tree's scenic score, at its position. |
| `TreetopTreeHouse.Part2` | src/day8.rs:115-137 | The answer is some tree's scenic score and no tree scores higher. Rows may be longer than the first. |
| `RopeBridge.DirFromStr` | src/day9.rs:31-42 | `U`, `D`, `L` and `R` map to the four directions, one to one. |
| `RopeBridge.ToPos` | src/day9.rs:45-52 | A unit step along one axis: vertical directions have `x == 0`. |
| `RopeBridge.ToPosInjective` | src/day9.rs:45-52 | Different directions give different steps. |
| `RopeBridge.KingDistance` | src/day9.rs:61-66 | `max(|dx|, |dy|)`, zero exactly for equal positions. |
| `RopeBridge.KingDistanceSymmetric` | src/day9.rs:61-66 | King distance is symmetric. |
| `RopeBridge.KingDistanceTriangle` | src/day9.rs:61-66 | King distance obeys the triangle inequality. |
| `RopeBridge.Signum` | src/day9.rs:71 | `signum` is -1, 0 or 1, zero exactly for 0, and times `n` gives `|n|`. |
| `RopeBridge.NormalDiff` | src/day9.rs:67-72 | Each component is the sign of the difference, so it is one king step at most. |
| `RopeBridge.FollowCloses` | src/day9.rs:119-122 | A knot two away that takes its `normal_diff` step ends adjacent to its predecessor. |
| `RopeBridge.ParseMotion` | src/day9.rs:74-88 | The line starts with the parsed direction's letter and a space, and the step count fits a `usize`. |
| `RopeBridge.ParseMotionRoundTrip` | src/day9.rs:76-90 | A line `D n` parses to the direction and step count it spells. |
| `RopeBridge.Default` | src/day9.rs:96-99 | `n` knots, all at the origin. |
| `RopeBridge.Tail` | src/day9.rs:112-114 | The last knot; on a taut rope it is at most `N - 1` king steps from the head. |
| `RopeBridge.TautSpan` | src/day9.rs:112-126 | Along a taut rope, knot `i` is at most `i` king steps from the head. |
| `RopeBridge.Follow` | src/day9.rs:118-126 | The loop keeps the rope length and the knots before `i`. |
| `RopeBridge.FollowFollowsUpTo` | src/day9.rs:118-126 | Each knot from `i` up to a stopping point was too far from its moved predecessor and took one `normal_diff` step. The stopping knot was close enough, and it and every later knot stay where they were. |
| `RopeBridge.Move` | src/day9.rs:115-127 | The head moves by exactly the step, and the length is kept. |
| `RopeBridge.FollowStops` | src/day9.rs:119-125 | Once a knot is adjacent to its predecessor, it and every later knot stay put. |
| `RopeBridge.FollowKeepsTaut` | src/day9.rs:118-126 | Following from a knot at most two away leaves every knot adjacent to its predecessor. |
| `RopeBridge.MoveKeepsTaut` | src/day9.rs:115-127 | A unit head move keeps a taut rope taut. |
| `RopeBridge.Steps` | src/day9.rs:134 | Each motion expands into unit steps. |
| `RopeBridge.StepsLength` | src/day9.rs:134 | There are as many steps as the motions' counts add up to. |
| `RopeBridge.Trace` | src/day9.rs:135-138 | The `scan` records one tail per step, ending at the final tail, and the rope stays taut. |
| `RopeBridge.Visited` | src/day9.rs:131-141 | The number of distinct tail positions is between 1 and the number of steps, and 0 with no steps. |
| `RopeBridge.Part1` | src/day9.rs:130-141 | For two knots, between 1 and the number of steps when there is a step. |
| `RopeBridge.Part2` | src/day9.rs:143-154 | For ten knots, between 1 and the number of steps when there is a step. |
| `RopeBridge.TwoKnotsStayTogether` | src/day9.rs:135-138 | The two-knot rope ends with its tail adjacent to its head. |
| `CathodeRayTube.FromOpcode` | src/day10.rs:40-50 | `noop` takes 1 cycle and `addx` 2, and the argument is kept. |
| `CathodeRayTube.FromStr` | src/day10.rs:29-37 | A line parses to the default `noop` exactly when it has no space; otherwise it is a 2-cycle `addx`. |
| `CathodeRayTube.FromStrRoundTrip` | src/day10.rs:31-36 | `noop` parses to the default instruction, and `addx v` to a 2-cycle `addx` of `v` for every `i64`. |
| `CathodeRayTube.FromStrShape` | src/day10.rs:31-36 | Every line parses, to a `noop` exactly when it has no space and otherwise to a 2-cycle `addx`. |
| `CathodeRayTube.Generator` | src/day10.rs:54-56 | One instruction per line. |
| `CathodeRayTube.Signal` | src/day10.rs:62-69 | The expansion has one entry per cycle. |
| `CathodeRayTube.SignalAt` | src/day10.rs:62-69 | During every cycle of instruction `j`, `X` is the start value plus the increments of the earlier instructions. |
| `CathodeRayTube.FinalX` | src/day10.rs:62-66 | After the program, `X` is the start value plus every argument. |
| `CathodeRayTube.StrengthIsSampled` | src/day10.rs:70-76 | The running sum adds `clock * X` exactly at the six sampled clocks. |
| `CathodeRayTube.Part1` | src/day10.rs:58-77 | Part one is the sum of `clock * X` over the sampled 1-based clocks the program reaches. |
| `CathodeRayTube.Pixel` | src/day10.rs:93-94 | A pixel is lit exactly when the sprite centre is within one of the column. |
| `CathodeRayTube.Pixels` | src/day10.rs:91-95 | Cycle `k`, counted from 0, draws column `k % 40`. |
| `CathodeRayTube.Rows` | src/day10.rs:96 | `chunks(40)`: full rows of 40 except possibly the last, rejoining to the pixels. |
| `CathodeRayTube.RowsAt` | src/day10.rs:96 | Row `i`, column `c` is pixel `40 i + c`. |
| `CathodeRayTube.Screen` | src/day10.rs:79-104 | One pixel per cycle, in rows of 40 of which only the last may be shorter. |
| `CathodeRayTube.ScreenLit` | src/day10.rs:81-96 | Row `i`, column `c` of the screen is lit exactly when `X` during cycle `40 i + c` is within one of `c`. |
| `CathodeRayTube.SmallProgram` | src/day10.rs:62-69 | On `noop`, `addx 3`, `addx -5`, `X` per cycle is 1, 1, 1, 4, 4 and ends at -1. |
| `MonkeyInTheMiddle.Inspect` | src/day11.rs:44-51 | The new level is below the modulus when there is one. |
| `MonkeyInTheMiddle.Target` | src/day11.rs:52-56 | The catcher is `test_branch.0` exactly when the level is divisible by the test divisor, or both branches agree. |
| `MonkeyInTheMiddle.Routed` | src/day11.rs:45-56 | The items sent to `j` come from the thrower's queue, and only its two branches receive any. |
| `MonkeyInTheMiddle.Catch` | src/day11.rs:60-62 | `catch` appends at the back and keeps the queue before it. |
| `MonkeyInTheMiddle.Deliver` | src/day11.rs:50-58 | Each monkey receives exactly its routed items, in FIFO order, appended. The total grows by the items thrown. |
| `MonkeyInTheMiddle.Throw` | src/day11.rs:43-59 | The thrower ends with an empty queue and its counter up by the number of items it held. Others receive their routed items in order. |
| `MonkeyInTheMiddle.Turn` | src/day11.rs:146-148 | The thrower's queue empties and its counter grows by what it held. Every other monkey gets its routed items, and the rules are unchanged. |
| `MonkeyInTheMiddle.TurnTotal` | src/day11.rs:146-148 | A turn loses exactly the items the monkey throws to itself, which the placeholder swallows. |
| `MonkeyInTheMiddle.RoundFrom` | src/day11.rs:145-149 | The remaining turns of a round keep every monkey's rules. |
| `MonkeyInTheMiddle.Round` | src/day11.rs:145-149 | A round keeps every monkey's rules. |
| `MonkeyInTheMiddle.Rounds` | src/day11.rs:144-150 | Any number of rounds keeps every monkey's rules. |
| `MonkeyInTheMiddle.RoundFromTotal` | src/day11.rs:145-149 | Without self-targets, the turns of a round conserve the total number of items. |
| `MonkeyInTheMiddle.RoundsTotal` | src/day11.rs:144-150 | Without self-targets, any number of rounds conserves the total number of items. |
| `MonkeyInTheMiddle.Counts` | src/day11.rs:154 | The throw counters, monkey by monkey. |
| `MonkeyInTheMiddle.MonkeyBusiness` | src/day11.rs:152-156 | The product of a top-2 of the counters, as `n_highest::<2>().product()` drains it. |
| `MonkeyInTheMiddle.Divider` | src/day11.rs:142 | The product of the divisors is positive and a multiple of every divisor. |
| `MonkeyInTheMiddle.Apply` | src/day11.rs:45-49 | The operation never lowers a positive level unless it multiplies by 0. |
| `MonkeyInTheMiddle.ApplyCongruent` | src/day11.rs:45-49 | Each operation maps levels equal modulo `p` to levels equal modulo `p`. |
| `MonkeyInTheMiddle.InspectCongruent` | src/day11.rs:44-56 | Without relief, reducing by a multiple of the divisor keeps the level's residue and the chosen catcher. |
| `MonkeyInTheMiddle.RoutedCongruent` | src/day11.rs:45-56 | Congruent queues route congruent items to every monkey. |
| `MonkeyInTheMiddle.TurnMirrors` | src/day11.rs:146-148 | A reduced turn and a whole-level turn keep states equal up to residues. |
| `MonkeyInTheMiddle.RoundFromMirrors` | src/day11.rs:145-149 | The rest of a round keeps the mirror. |
| `MonkeyInTheMiddle.RoundMirrors` | src/day11.rs:165-169 | A round keeps the mirror and the divisibility. |
| `MonkeyInTheMiddle.RoundsMirror` | src/day11.rs:164-170 | Any number of rounds without relief keeps reduced and whole-level states equal up to residues. |
| `MonkeyInTheMiddle.MirrorsCounts` | src/day11.rs:172-174 | Mirrored states have the same throw counts. |
| `MonkeyInTheMiddle.ReductionSound` | src/day11.rs:160-170 | Reducing modulo the product of the divisors gives the same throw counts as whole levels, for any number of rounds. |
| `MonkeyInTheMiddle.TurnEmpty` | src/day11.rs:45-58 | A monkey with nothing to throw changes nothing. |
| `MonkeyInTheMiddle.RoundFromItemless` | src/day11.rs:145-149 | With no items anywhere, a round changes nothing. |
| `MonkeyInTheMiddle.RoundsSettle` | src/day11.rs:144-150 | Once no monkey holds an item, further rounds change nothing. |
| `MonkeyInTheMiddle.Part1` | src/day11.rs:140-157 | Corrected: the product of the two largest counts after twenty relieved rounds on whole levels. |
| `MonkeyInTheMiddle.Part1AsWritten` | src/day11.rs:140-157 | As written: the same product, with levels also reduced modulo the divider after the division by 3. |
| `MonkeyInTheMiddle.Part2` | src/day11.rs:159-177 | The answer equals the monkey business of ten thousand rounds on whole levels. |
| `MonkeyInTheMiddle.ExampleWhole` | src/day11.rs:144-150 | On the three-monkey example, any two or more whole-level rounds (twenty in part one) end with counts 2, 2, 1. |
| `MonkeyInTheMiddle.ExampleReduced` | src/day11.rs:142-150 | On the same example, the divider is 4, and any one or more rounds reduced as written (twenty in part one) end with counts 1, 1, 1. |
| `MonkeyInTheMiddle.Part1Example` | src/day11.rs:140-157 | The corrected part one answers 4 on the example. |
| `MonkeyInTheMiddle.Part1AsWrittenExample` | src/day11.rs:140-157 | Part one as written answers 1 on the example. |
| `HillClimbing.Decode` | src/day12.rs:28-33 | `S` becomes -1, `E` becomes 26 and `a..z` become 0..25. Nothing else decodes. |
| `HillClimbing.DecodeLetter` | src/day12.rs:31 | Heights 0..25 and letters `a..z` correspond one to one. |
| `HillClimbing.DecodeMarkers` | src/day12.rs:29-30 | Only `S` decodes to -1 and only `E` to 26. |
| `HillClimbing.LineChars` | src/day12.rs:26-27 | `lines().flat_map(chars)` drops the line endings. |
| `HillClimbing.LineCharsOfLine` | src/day12.rs:26-27 | Lines joined by `\n` give their characters in order. |
| `HillClimbing.DecodeAll` | src/day12.rs:28-34 | Every character decodes, in order, or the decoding fails. |
| `HillClimbing.FindNewline` | src/day12.rs:24 | `find("\n")` gives the first newline, if any. |
| `HillClimbing.FromStr` | src/day12.rs:23-37 | `cols` is positive, `rows = len / cols`, and every value is a height from -1 to 26. |
| `HillClimbing.FromStrCols` | src/day12.rs:24 | `cols` is the index of the first newline. |
| `HillClimbing.FromStrDecodes` | src/day12.rs:25-34 | Once a first row is measured, parsing succeeds exactly when every non-line-ending character is a height. |
| `HillClimbing.OffsetInRange` | src/day12.rs:16-18 | `row * cols + col` is inside `values` and recovers the row and column. |
| `HillClimbing.OffsetInjective` | src/day12.rs:16-18 | Distinct positions index distinct cells. |
| `HillClimbing.GridOfSize` | src/day12.rs:35 | With `rows = len / cols`, every in-range position can be indexed. |
| `HillClimbing.Height` | src/day12.rs:16-18 | `index` returns a stored height. |
| `HillClimbing.Step` | src/day12.rs:49-53 | The `isize` step and `try_into` succeed exactly when both coordinates stay non-negative and in range. |
| `HillClimbing.Steps` | src/day12.rs:47-54 | The positions yielded are exactly the successful steps, at most one per direction. |
| `HillClimbing.Adjacents` | src/day12.rs:40-55 | At most four positions. |
| `HillClimbing.AdjacentsExactly` | src/day12.rs:46-54 | A position is yielded exactly when it is in range and one step away along a row or column. |
| `HillClimbing.NeighboursSymmetric` | src/day12.rs:46 | Adjacency is symmetric and irreflexive. |
| `HillClimbing.StepsDistinct` | src/day12.rs:47-53 | Distinct directions give distinct positions. |
| `HillClimbing.AdjacentsDistinct` | src/day12.rs:40-55 | No position is yielded twice. |
| `HillClimbing.CanStep` | src/day12.rs:68-72 | The search edge `input[curr] - input[pos] <= 1`; `SuccessorIsClimb`, `StartEnteredOnlyFromA` and `EndLeftOnlyToZ` state what it allows. |
| `HillClimbing.Filter` | src/day12.rs:68-72 | Keeps exactly the neighbours the edge predicate admits. |
| `HillClimbing.Successors` | src/day12.rs:67-72 | The search successors are exactly the in-range neighbours with `height(curr) - height(pos) <= 1`. |
| `HillClimbing.SuccessorIsClimb` | src/day12.rs:68-72 | A backward edge exists exactly when the forward step climbs at most one. |
| `HillClimbing.StartEnteredOnlyFromA` | src/day12.rs:68-72 | The start, at -1, is reached backward only from heights of at most 0. |
| `HillClimbing.EndLeftOnlyToZ` | src/day12.rs:68-72 | From the goal, at 26, the search steps only to heights 25 and over: only `z` climbs to `E`. |
| `HillClimbing.Part1GoalSingle` | src/day12.rs:64-78 | Part one's search stops at one position only, `START_POS`, which is not `END_POS`, where it starts. |
| `HillClimbing.Part2GoalIsA` | src/day12.rs:81-96 | Part two's search stops exactly at a cell drawn `a`; the `S` cell decodes to -1 and is not a goal. |

## Left out

- Input splitting: the `#[aoc_generator]` wiring, `lines()`, and `split("\n\n")`. Generators take lines or groups that are already split.
- The nom parsers of day 7 (`src/day7.rs:24-71`) and day 11 (`src/day11.rs:70-137`). Events and monkeys are taken as parsed values, because the combinator library is not part of this model.
- Fixed-width overflow is not modelled; all integers are unbounded. This covers:
  - `u32` sums in days 1 to 3
  - `usize` sizes in day 7
  - `i32` positions in day 9
  - the `i64` register in day 10
  - the `u64` worry levels in day 11, including `level * level`
- The breadth-first search and the path length of day 12 (`src/day12.rs:65-77`). The search is a foreign routine. Only its successor function and goal predicates are modelled.
- The console output of day 10's part two (`src/day10.rs:96-101`). The screen is returned as rows instead.
- `CollectInto` (`src/utils.rs`) is plain set construction here.
- `HighestN`'s heap layout, and which of several equal minima it pops. Only the multiset and the order are modelled.
- `HillClimbing.FromStr`: the panics of the code are modelled as `None`. These are a missing newline, a first line of length 0 (division by zero), and a character outside `S`, `E`, `a..z`.
- `HillClimbing.Part1Goal` / `HillClimbing.Part2Goal`: `START_POS` and `END_POS` are hard-coded for one input. They are constants here.
- `MonkeyInTheMiddle.Turn`: requires every monkey to be able to throw. That means a non-zero divisor and in-range catchers for all monkeys. The code panics only when an item is actually routed through a bad rule. `Round`, `Rounds`, `Part1`, `Part1AsWritten` and `Part2` share this precondition.
- `Rucksack.Halves`: requires an ASCII line. `split_at(len / 2)` cuts at a byte offset and panics off a character boundary; the model does not track UTF-8 byte lengths. `LineShared`, `Part1` and the lemmas about them inherit this.
- `SupplyStacks.Generator`: requires the lines holding `[` to be ASCII. The code chunks bytes, and the model does not track UTF-8 byte lengths. `PushLine` and `BuildStacks` share this through `IsDrawingLine`.
- `Rucksack.Part2`: requires each group's intersection to have at most one element. With more, the item `HashSet::into_iter().next()` picks depends on hashing.
- `RopeBridge.Visited` / `RopeBridge.Part1` / `RopeBridge.Part2`: the contracts bound the count of distinct tail positions. The exact count is the body's definition.
- `TreetopTreeHouse.NewMap`: requires every row to be at least as long as the first. With a shorter row the code panics only if some line of sight reaches past its end, which depends on the heights, since part one's `any` and `all` stop early. `Part1`, `Part1AsWritten` and `Part2` share this precondition.
- `TuningTrouble.Part1` / `TuningTrouble.Part2`: assume a marker exists. `unwrap` panics otherwise.

## Findings

| source | as written | input that shows it | evidently intended | confidence | as-written member | corrected member |
|---|---|---|---|---|---|---|
| src/day7.rs:104-113 | `root_size` is pushed onto `all_dirs`, and the propagated stack is also chained. The stack's first entry is the root itself, so the root is counted twice when it is at most 100 000. | A session `cd /` then one 10-byte file: 20 instead of 10 (`NoSpaceLeft.Part1DoubleCountExample`; in general `NoSpaceLeft.Part1CountsRootTwice`) | Each directory counted once | not executed; the puzzle's roots are far above the threshold | `NoSpaceLeft.Part1AsWritten` | `NoSpaceLeft.Part1` |
| src/day8.rs:39-41 | `perimeter` is `2·height + 2·(width − 2)`, which counts a one-row map's edge trees twice | One row of three trees of height 0: 4 instead of 3 (`TreetopTreeHouse.Part1SingleRowExample`) | The number of visible trees, each edge tree counted once (`TreetopTreeHouse.Part1AsWrittenCorrect` shows the formula is exact from 2×2 on) | not executed; the puzzle's maps are square | `TreetopTreeHouse.Part1AsWritten` | `TreetopTreeHouse.Part1` |
| src/day11.rs:44-51 | Part one reduces each level modulo the product of the divisors after the division by 3. Floor division by 3 does not commute with that reduction, so an item can be routed differently. | Monkeys `[6] *3 /2 →1,2`, `[] +1 /2 →0,2`, `[] +0 /1 →2,2`: 1 instead of 4 (`MonkeyInTheMiddle.Part1AsWrittenExample` against `MonkeyInTheMiddle.Part1Example`) | Whole levels in part one | not executed | `MonkeyInTheMiddle.Part1AsWritten` | `MonkeyInTheMiddle.Part1` |
