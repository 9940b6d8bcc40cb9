# Haunted Wasteland (Advent of Code 2023, day 8) in Dafny

This project models the solver in `AoC2023Day8.java` and proves what it computes.
The input is a list of lines. The first line is a string of direction characters. Every line that contains `=` defines a node, as in `AAA = (BBB, CCC)`. The solver parses the node lines into a list of (name, left, right) triples. A successor is found with `findIndexOf`: a linear search for the first node whose name *contains* the successor name. The solver then runs one of two walks:

- **Part one** starts at the node found for `"AAA"`. It cycles through the directions and stops after the first character that lands on a node whose name contains `"ZZZ"`. It counts only the characters `L` and `R`.
- **Part two** starts one token at every node whose name has `A` as its third character. All tokens take the same character on each tick. A shared counter goes up once per tick, and the walk stops after the first tick on which every token's name has `Z` as its third character.

Modules, one file each:

| module | file | contents |
|---|---|---|
| `Results` | results.dfy | `Result`, the crash reasons (`Fault`) and the outcome of a bounded walk (`Outcome`) |
| `Strings` | strings.dfy | the Java `String` operations the solver uses: `contains`, `split` on a one-character separator, and the letter-and-digit filter |
| `Network` | network.dfy | `Node`, `findIndexOf`, one move along a branch, and the closure condition |
| `Parser` | parser.dfy | the direction line and `parseNodes` |
| `Traversal` | traversal.dfy | the direction cursor `k mod |dirs|`, the reference semantics `Run` and `Counter` of a lone traveller, and their periodicity |
| `PartOne` | part_one.dfy | the first branch of `main` |
| `PartTwo` | part_two.dfy | the second branch of `main` |
| `Arith` | arith.dfy | two facts about multiples, used by the cursor's periodicity and by the counter width |
| `StepCounter` | step_counter.dfy | the 32-bit `int` counter and the `long` it should have been |
| `WorkedExamples` | worked.dfy | two small puzzles worked through the model |

The walks are loops that may not end, so each walk takes a `fuel` bound. A walk ends in one of three outcomes:

- `Finished(n)`: the source prints `n`.
- `Crashed(fault)`: the source throws.
- `Unfinished`: the source is still looping after `fuel` iterations.

Each walk is proved equal to a reference definition. That definition is `Run`/`Counter` for a lone traveller: where it stands after `k` characters, and how many of those characters were counted. The tokens of part two are proved to move in lock-step with lone travellers.

Behaviour of the code worth noting:

- A direction character other than `L` or `R` is not an error. In part one it moves nothing and is not counted, but the `"ZZZ"` test still runs after it. In part two it moves no token but still counts as a tick.
- Lines without `=` are skipped, including a node line that lacks `=`. The direction line is always line 0, even when it is empty. With an empty direction string part one always loops forever. Part two loops forever only when every name has a third character; otherwise start selection throws first (line 81).
- Successor lookup uses substring containment, not exact names. `Network.FindIsExactForPaddedNames` proves the two agree on the puzzle's usual names: three characters followed by one space, all distinct.
- Part one stops at a name that *contains* `"ZZZ"`. The start node is checked only after the first character has been applied.

## Model

| member | source | states |
|---|---|---|
| Strings.KeepAlnum | AoC2023Day8.java:186-193 | the cleaned branch name has only letters and digits and is no longer than the raw text; a name made only of letters and digits comes back unchanged |
| Strings.KeepAlnumChar | AoC2023Day8.java:188-190 | a single character is kept exactly when it is a letter or a digit; with `KeepAlnumConcat` this makes the result exactly the letters and digits of the text, in order |
| Strings.KeepAlnumConcat | AoC2023Day8.java:187-192 | cleaning appends character by character, so cleaning a concatenation is concatenating the cleaned parts |
| Strings.ContainsIffOccurs | AoC2023Day8.java:219 | `contains` holds exactly when the query occurs at some offset of the name |
| Strings.PaddedContainsIsEquality | AoC2023Day8.java:219 | a word followed by a pad character contains a pad-free query of the word's length exactly when the query is that word |
| Strings.IndexOf | AoC2023Day8.java:179 | the position of the first separator, or -1 exactly when there is none |
| Strings.JoinPieces | AoC2023Day8.java:179-180 | the separator-free pieces of a line, rejoined with the separator, give back the line |
| Strings.PiecesJoin | AoC2023Day8.java:179-180 | cutting a join of separator-free pieces gives back those pieces |
| Strings.DropTrailingEmpty | AoC2023Day8.java:179-180 | `split` keeps a prefix of the pieces: it drops only empty trailing pieces, and whatever it keeps ends with a non-empty piece |
| Strings.Split | AoC2023Day8.java:179-180 | a text without the separator splits into itself; otherwise the result is the pieces with exactly the trailing empty ones dropped: a prefix of the pieces, ending in a non-empty piece, with only empty pieces after it; every part is separator-free |
| Strings.SplitKeepsFirstTwo | AoC2023Day8.java:180 | with a separator-free first piece and a non-empty separator-free second piece, the split keeps both as its first two parts whatever follows |
| Strings.SplitTrailingSeparator | AoC2023Day8.java:180 | a text ending in its only separator splits into at most one part, the trailing empty piece being dropped |
| Strings.SplitOnce | AoC2023Day8.java:179-180 | a text with one separator and a non-empty tail splits into exactly the text before and after the separator |
| Network.FindIndexOf | AoC2023Day8.java:214-226 | the result is -1 or a valid index; at a valid index the name contains the query and no earlier name does; -1 means no name contains it |
| Network.FindFrom | AoC2023Day8.java:218-225 | the search loop from position i: the first matching index at or after i, or -1 when none from i on matches |
| Network.Move | AoC2023Day8.java:58-67 | under closure, one direction character always leads to a node of the list |
| Network.MoveFollowsBranch | AoC2023Day8.java:107-117 | 'L' lands on the first node containing the left name, 'R' on the first containing the right name; any other character leaves the position unchanged |
| Network.FindIsExactForPaddedNames | AoC2023Day8.java:214-226 | on distinct three-letter names padded with a space, `findIndexOf` returns j exactly when node j is named by the query |
| Parser.ParseLine | AoC2023Day8.java:176-206 | a parsed line's name is the raw text before its first '=' and its branches are letters and digits only; a failure names the offending line |
| Parser.ParseWellFormedLine | AoC2023Day8.java:178-203 | `name=before,after`, with one '=', one ',' and a non-empty tail, yields the raw name and the cleaned `before` and `after` |
| Parser.ParseRejectsMissingComma | AoC2023Day8.java:179-180 | a line whose text after its single '=' has no ',' fails, as `firstSplit[1]` (nothing after the '=') or `secondSplit[1]` throws |
| Parser.ParseLineExtraCommas | AoC2023Day8.java:179-203 | with two or more ',' after the single '=' and a non-empty middle part, the line is accepted: left is the cleaned text before the first ',', right the cleaned text between the first and second ',' |
| Parser.ParseRejectsTrailingComma | AoC2023Day8.java:180-197 | a line whose branch text ends in its only ',' fails, as `secondSplit[1]` throws |
| Parser.ParseLineOf | AoC2023Day8.java:178-206 | the puzzle's line `NAME = (LEFT, RIGHT)` parses to name `NAME ` (trailing space kept), left `LEFT` and right `RIGHT` |
| Parser.NodeLines | AoC2023Day8.java:173-174 | the lines kept are input lines that contain '=', and every input line containing '=' is kept |
| Parser.NodeLinesConcat | AoC2023Day8.java:173-174 | line selection is done line by line and keeps input order |
| Parser.NodeLinesOfNodeLines | AoC2023Day8.java:173-174 | when every line contains '=', every line is a node line |
| Parser.CollectAll | AoC2023Day8.java:173-208 | the node list is produced exactly when every node line parses; it then has one node per node line, node k coming from line k |
| Parser.CollectAllFailsAtFirst | AoC2023Day8.java:173-208 | a failed run reports the failure of the first element that fails, with every earlier one succeeding |
| Parser.ParseNodesFailsAtFirstBadLine | AoC2023Day8.java:173-208 | `parseNodes` fails with the first node line, in input order, that does not parse |
| Parser.SkipsLinesWithoutEquals | AoC2023Day8.java:173-174 | inserting a line without '=' anywhere in the input leaves the parsed node list unchanged |
| Parser.ParseNodes | AoC2023Day8.java:167-212 | the node list is produced exactly when every line containing '=' parses; it then holds one node per such line, node k parsed from the k-th such line |
| Parser.ParseInput | AoC2023Day8.java:22-28 | an empty input fails with no direction line; a non-empty input is accepted exactly when `parseNodes` succeeds, with line 0 as the directions and its nodes; otherwise it fails with `parseNodes`' error |
| Traversal.Run | AoC2023Day8.java:56-74 | the lone traveller's position after n characters is always a node of the list (its step-by-step meaning is `StepOnce`) |
| Traversal.Counter | AoC2023Day8.java:58-67 | at most one count per consumed character |
| Traversal.RunSplit | AoC2023Day8.java:56-74 | consuming a + b characters is consuming a, then b more from where the cursor stopped |
| Traversal.CounterSplit | AoC2023Day8.java:56-74 | the count over a + b characters is the count over the first a plus the count over the next b |
| Traversal.StepOnce | AoC2023Day8.java:58-67 | one more character moves the traveller by that character and adds one to the count exactly when it is 'L' or 'R'; any other character changes neither |
| Traversal.RunShift | AoC2023Day8.java:56-58 | the direction cursor repeats with period `|dirs|` |
| Traversal.CursorPeriodic | AoC2023Day8.java:58 | the character consumed at iteration k + `|dirs|` is the one consumed at iteration k |
| Traversal.FullPassesRestart | AoC2023Day8.java:56-74 | after m full passes over the directions, a traveller continues like one freshly started from the node it has reached |
| Traversal.CounterOfCountedDirections | AoC2023Day8.java:58-67 | over directions made only of 'L' and 'R', the count equals the number of characters consumed |
| PartOne.Walk | AoC2023Day8.java:56-74 | the loop never decreases the counter and adds at most one per character consumed; under closure it cannot throw, as it has no failing lookup (its exact result is given by `SolveIsFirstStop`) |
| PartOne.WalkUnfold | AoC2023Day8.java:56-74 | one loop iteration takes the state after k characters to the state after k + 1, or stops with the count after k + 1 |
| PartOne.WalkUnfinishedIffNoStop | AoC2023Day8.java:56-74 | no verdict within the bound exactly when no character within the bound reaches a name containing "ZZZ" |
| PartOne.WalkFinishesAtFirstStop | AoC2023Day8.java:56-74 | a verdict is the count at the first character that reaches a name containing "ZZZ" |
| PartOne.FirstStopUnique | AoC2023Day8.java:68-72 | the first stop after a given point is unique |
| PartOne.Solve | AoC2023Day8.java:49-74 | an empty direction string loops forever; a missing "AAA" node throws on the first lookup |
| PartOne.SolveIsFirstStop | AoC2023Day8.java:49-74 | the answer is n exactly when some character k within the bound is the first to reach a "ZZZ" name and n is the L/R count up to k; no answer exactly when no character within the bound stops |
| PartOne.SolveIgnoresExtraFuel | AoC2023Day8.java:56-74 | a larger bound gives the same answer |
| PartOne.SolveOverLeftRight | AoC2023Day8.java:58-72 | with only 'L' and 'R', the answer n is at least 1 and is itself the first stopping character, even when the start's name contains "ZZZ" |
| PartOne.SolveUncountedFirstCharacter | AoC2023Day8.java:58-72 | an uncounted first character followed by the "ZZZ" test on the start gives 0 |
| PartTwo.FirstShortName | AoC2023Day8.java:80-81 | the first name too short for `charAt(2)`, or -1 when every name has a third character |
| PartTwo.StartsFrom | AoC2023Day8.java:79-84 | the selection loop from position i yields indices of nodes at i or later (which ones: `StartsFromAreTheANodes`) |
| PartTwo.StartsFromAreTheANodes | AoC2023Day8.java:79-84 | the tokens selected from position i on are exactly the nodes from i on with 'A' third, in increasing index order |
| PartTwo.Starts | AoC2023Day8.java:79-84 | the initial tokens are valid indices, exactly the nodes with 'A' third, strictly increasing |
| PartTwo.Tick | AoC2023Day8.java:107-118 | a tick keeps the number of tokens and keeps every token on a node |
| PartTwo.Ticks | AoC2023Day8.java:105-120 | n ticks keep the number of tokens and keep every token on a node (where: `TicksAreLockStep`) |
| PartTwo.TicksAreLockStep | AoC2023Day8.java:105-120 | after n ticks every token is where a lone traveller from its start is after the same n characters |
| PartTwo.DoneAtPerTraveller | AoC2023Day8.java:122-138 | tick t ends the walk exactly when every start, walked alone for t characters, reaches a name with 'Z' third |
| PartTwo.TicksStep | AoC2023Day8.java:105-120 | n + 1 ticks are n ticks followed by one tick on the next character |
| PartTwo.Walk | AoC2023Day8.java:93-140 | a verdict is reached after at least one more tick and adds at most one to the counter per tick; under closure and with three-character names it cannot throw (its exact result is given by `SolveIsFirstDoneTick`) |
| PartTwo.WalkUnfold | AoC2023Day8.java:93-140 | one tick takes the state after t ticks to the state after t + 1, or stops with counter t + 1 |
| PartTwo.WalkUnfinishedIffNeverDone | AoC2023Day8.java:93-140 | no verdict within the bound exactly when no tick within the bound has every token on a 'Z' name |
| PartTwo.WalkFinishesAtFirstDone | AoC2023Day8.java:93-140 | a verdict is the first tick on which every token stands on a 'Z' name |
| PartTwo.Solve | AoC2023Day8.java:78-140 | the walk throws exactly when some name is shorter than three characters, naming the first such node; an empty direction string loops forever |
| PartTwo.SolveIsFirstDoneTick | AoC2023Day8.java:78-140 | the answer is n exactly when n is within the bound, tick n has every token on a 'Z' name and no earlier tick does; no answer exactly when no tick within the bound does |
| PartTwo.SolveIgnoresExtraFuel | AoC2023Day8.java:93-140 | a larger bound gives the same answer |
| PartTwo.SolveWithoutStarts | AoC2023Day8.java:79-138 | with no 'A' node the all-'Z' test holds vacuously after the first tick: the answer is 1 |
| PartTwo.NoStartsFrom | AoC2023Day8.java:79-84 | with no 'A' node no token is selected |
| StepCounter.IntAfter | AoC2023Day8.java:40 | the printed `int` lies in the 32-bit range, is congruent to the true count modulo 2^32, and equals it below 2^31 |
| StepCounter.LongAfter | AoC2023Day8.java:40 | a `long` counter lies in the 64-bit range, is congruent to the true count modulo 2^64, and equals it below 2^63 |
| StepCounter.AsWrittenNegativeBeyondIntRange | AoC2023Day8.java:120 | every count from 2^31 to 2^32 - 1 is printed as that count minus 2^32, a negative number |
| WorkedExamples.PartOneTwoPasses | AoC2023Day8.java:49-74 | on `AAA -> (BBB, BBB)`, `BBB -> (AAA, ZZZ)` with directions `LLR`, part one needs two passes and answers 6 |
| WorkedExamples.PartTwoTwoTokens | AoC2023Day8.java:78-140 | two tokens that reach their 'Z' nodes after one and after two ticks give part two the answer 2 |

## Left out

- Reading the input file (`loadInputStrings`, AoC2023Day8.java:147-165): the lines are a parameter of `Parser.ParseInput`.
- Printing (AoC2023Day8.java:31-37, 86-102 and 143-144): output only. For counts below 2^31 the walks return the count that line 144 prints.
- The flags `inputFileName`, `testing` and `partTwo` (AoC2023Day8.java:14-16): both branches are modelled, as `PartOne.Solve` and `PartTwo.Solve`.
- Node.java is not part of this model: the solver never uses that class.
- Strings.IsAlnum: accepts only ASCII letters and digits. Java's `Character.isAlphabetic` and `isDigit` also accept other Unicode letters and digits.
- PartTwo.LongNames: a Dafny `char` is a Unicode scalar value, while Java's `charAt(2)` (lines 81 and 125) and `length()` count UTF-16 code units. For a name with a character outside the Basic Multilingual Plane, "the third character" differs between the two; the same holds for the direction string, whose `length()` (lines 58 and 105) counts a supplementary character as two directions. Names and directions are taken as sequences of code units that are whole characters.
- Network.Closed: the walks require every successor name to resolve. A name that no node contains makes `findIndexOf` return -1, and the next `get(-1)` throws mid-walk. That crash is not modelled. The modelled crashes are a missing "AAA" start in part one and a name too short for `charAt(2)` in part two.
- PartOne.Solve and PartTwo.Solve: the answers come from walks bounded by `fuel`. `Unfinished` stands for a loop still running, so a walk that never ends (an empty direction string, or a goal that is never reached) is `Unfinished` for every bound.
- PartOne.Solve and PartTwo.Solve count in unbounded integers. The 32-bit width of `stepsTaken` is modelled separately in `StepCounter` (see Findings): what line 144 prints for `Finished(n)` is `StepCounter.IntAfter(n)`, which equals n for every n below 2^31. No member composes the two.
- Strings.Split: Java's `split` takes a regular expression. Only the single-character separators the source uses (`=` and `,`) are modelled. These have no regular-expression meaning, and for them Java drops trailing empty pieces and returns the whole string when the separator is absent.

## Findings

| source | as written | input that shows it | evidently intended | confidence | as-written member | corrected member |
|---|---|---|---|---|---|---|
| AoC2023Day8.java:40 | `stepsTaken` is an `int`. It is incremented once per tick (line 120) and printed as is (line 144), so any count of 2^31 or more wraps. | Part two with three tokens, each on its own cycle of nodes that reaches a 'Z' name every 1291, 1297 and 1301 ticks (pairwise coprime). The first all-'Z' tick is 1291 · 1297 · 1301 = 2178429527 ≥ 2^31, and the `int` prints -2116537769. | A 64-bit counter, which prints the true count, 2178429527. | medium; not executed | StepCounter.AsWrittenNegativeBeyondIntRange | StepCounter.LongAfter |
