# Advent of Code 2025 benchmark: a Dafny model

This repository collects solutions to Advent of Code 2025, human-written and
AI-written, in Python, JavaScript and Rust. A Bun/TypeScript harness
(`scripts/run-solutions.ts`) runs every solution of every day on the day's
input. It records each run's outcome. For each task it picks a baseline run and
marks every successful run as matching the baseline's output or not.

This project models two things in Dafny and proves properties of them:

- **The harness's pure core**:
  - output normalisation and truncation;
  - language directory names;
  - the outcome record of one execution;
  - the command-line options;
  - the baseline selection and comparison, which updates run records in place.
- **The puzzle algorithms of Days 1 to 6**, in the human Rust solutions and
  in the AI solutions chosen for each day. For every day, one module states
  what the puzzle asks as a reference definition, and each program is proved
  against it. Where two programs of the same day agree only on some inputs,
  the model proves the inputs on which they agree and exhibits the input on
  which they part.

Layout, one module per file:

| module | models |
|---|---|
| `Wrappers` | `Option` and `Result` |
| `Text` | decimal text, `split`, `lines`, `trim`, `split_whitespace` |
| `RunSolutions` | `scripts/run-solutions.ts` |
| `Dial`, `DialClosedForm`, `DialSimulation` | Day 1: reference, human Rust, Gemini Python |
| `RepeatedIds`, `SetSums` | Day 2: human Rust, and sums over hash sets |
| `Joltage`, `JoltageGreedy`, `JoltageStack` | Day 3: reference, human Rust, GPT-5.1 Codex Python |
| `Rolls`, `RollsRounds`, `RollsQueue` | Day 4: reference, human Rust, GPT-5.1 Codex Python |
| `Intervals`, `FreshHuman`, `FreshPython`, `FreshBinarySearch` | Day 5: reference, human Rust, GPT-5.1 Codex Python and Rust |
| `Worksheet`, `WorksheetScan`, `WorksheetBlocks` | Day 6: reference, human Rust, Gemini Python |

What each day's reference states:

- **Day 1.** `Dial.Tally` turns the dial click by click. Both solutions compute the same
  two counters as this reference. The closed form of `count_clicks_on_zero`
  counts exactly the clicks that land on 0.
- **Day 2.** The invalid ids are sets defined by the two repetition rules. The
  scanning loops collect exactly those sets.
- **Day 3.** The greedy choice of `k` digits gives the largest value any `k` kept
  digits can spell. The stack of the Python solution makes the same choice.
- **Day 4.** Peeling off accessible rolls round after round stops at the largest
  stable subset of the grid. The round-based Rust solution and the work-queue
  Python solution both remove exactly the rolls outside it.
- **Day 5.** The merged range list is canonical: sorted, with a gap between any two
  ranges. Two canonical lists with the same coverage are equal. The human
  Rust merge first turns every range low end first, so it is canonical on any
  input. On ranges written low end first, the Python merge gives that same
  list, and so does the AI Rust merge when every range also ends below
  `u64::MAX`. The binary searches find exactly the covered ids.
- **Day 6.** `Worksheet.TotalFrom` reads the problems column block by column block.
  On sheets laid out as the puzzle promises, the Python solution computes both
  of its totals and the Rust part 2 computes its part 2 total. The Rust part 1
  is proved against its own column-by-word reading instead.

## Model

| member | source | states |
|---|---|---|
| RunSolutions.ReplaceCrlf | scripts/run-solutions.ts:94 | one left-to-right pass that rewrites CR LF to LF: never longer, and text with no CR LF pair comes back unchanged |
| RunSolutions.TrimEnd | scripts/run-solutions.ts:94 | `trimEnd` returns a prefix of the text, every removed character is whitespace, and the result does not end in whitespace |
| RunSolutions.NormalizeStdout | scripts/run-solutions.ts:92-95 | the as-written normalisation: never longer, never ends in whitespace, and on text without CR LF it is only the end-trim |
| RunSolutions.NormalizeStdoutLeavesCrlf | scripts/run-solutions.ts:94 | on "\r\r\nx" the single replace pass leaves a CR LF pair, so applying the normalisation again changes the result |
| RunSolutions.DropCrBeforeLf | scripts/run-solutions.ts:92-95 | the intended line-ending rewrite: no CR LF pair is left and the text never grows |
| RunSolutions.DropCrBeforeLfIdentity | scripts/run-solutions.ts:94 | text without CR LF is left as it is |
| RunSolutions.NormalizeLineEndings | scripts/run-solutions.ts:92-95 | the intended normalisation: no CR LF pair left and no trailing whitespace |
| RunSolutions.NormalizeLineEndingsIdempotent | scripts/run-solutions.ts:92-95 | normalising twice gives the same text as normalising once |
| RunSolutions.NormalizeAgreesWithoutDoubleCr | scripts/run-solutions.ts:94 | on text with no two carriage returns in a row, the as-written and the intended normalisation agree |
| RunSolutions.ReadMarkerOfMarker | scripts/run-solutions.ts:99 | the omitted-character count is read back from the truncation marker |
| RunSolutions.TruncateTo | scripts/run-solutions.ts:97-100 | text within the budget is unchanged; longer text keeps its first `max` characters and then a marker that reads back as the number of omitted characters, with the exact length |
| RunSolutions.NormalizeLanguageDir | scripts/run-solutions.ts:232-238 | "python", "rust" and both "js" and "ts" name a language, each if and only if; any other name gives none |
| RunSolutions.LanguageDirRoundTrip | scripts/run-solutions.ts:232-238 | a language's own directory name maps back to that language |
| RunSolutions.FinishRun | scripts/run-solutions.ts:509-522 | success iff exit code 0 and no timeout; the error is absent iff the run succeeded; its text is the timeout message (with `NaN` for a timeout that is not a number), or else stderr, stdout or the exit code; exit code, timeout flag and truncated normalised streams are copied |
| RunSolutions.FailedRunHasError | scripts/run-solutions.ts:520-521 | a failed run always carries a non-empty error summary |
| RunSolutions.PadStart | scripts/run-solutions.ts:573 | `padStart(2, "0")`: the length is the larger of the two, the text ends the result, and only pad characters come before it |
| RunSolutions.ParseArgs | scripts/run-solutions.ts:559-584 | the option loop computes the option-reading function over the whole argument list, starting from the defaults of lines 566-569 |
| RunSolutions.ParsedTaskIsPadded | scripts/run-solutions.ts:573 | a task filter that was set is at least two characters long and is the padded value of some `--task` flag |
| RunSolutions.TimeoutDefault | scripts/run-solutions.ts:566-576 | without a `--timeoutMs` flag the timeout keeps its value, so it stays at 60000 |
| RunSolutions.DanglingFlagIgnored | scripts/run-solutions.ts:571-581 | a last flag with no value after it changes no option |
| RunSolutions.RunRecord.constructor | scripts/run-solutions.ts:40-55 | a new run record copies the outcome and has no baseline fields yet |
| RunSolutions.TaskRuns | scripts/run-solutions.ts:663 | exactly the runs with that task id are kept |
| RunSolutions.TaskRunsAppend | scripts/run-solutions.ts:663-665 | the filter commutes with concatenation, so it keeps the runs in order and with their repetitions, which is what `find` on its result relies on |
| RunSolutions.FirstHumanSuccess | scripts/run-solutions.ts:665 | the index of the first successful human run, or none iff there is none |
| RunSolutions.FirstSuccess | scripts/run-solutions.ts:665 | the index of the first successful run, or none iff there is none |
| RunSolutions.SelectBaseline | scripts/run-solutions.ts:664-666 | no baseline iff no run succeeded; the first successful human run when there is one, else the first successful run |
| RunSolutions.MarkSuccessfulRuns | scripts/run-solutions.ts:668-672 | every successful run gets the baseline's id and whether its normalised stdout equals the baseline's; failed runs are untouched |
| RunSolutions.CompareWithBaseline | scripts/run-solutions.ts:662-673 | with a baseline, every successful run with that task id is marked against it; without one, nothing changes |
| Dial.Click | human-solutions/01/rust/src/main.rs:52-53 | one click stays on the dial's 100 positions |
| Dial.Clicks | ai-solutions/01/gemini-3-pro/python/main.py:26-33 | a turn of `n` clicks ends on the dial and hits 0 at most `n` times |
| Dial.ClicksEnd | human-solutions/01/rust/src/main.rs:52-53 | a turn of `n` clicks ends where one reduction of the total offset does |
| Dial.Tally | human-solutions/01/rust/src/main.rs:37-58 | the reference over the signed steps: the dial stays in range and part 1 counts at most one hit per rotation |
| Dial.TallySnoc | human-solutions/01/rust/src/main.rs:50-57 | one more rotation is carried out from where the others leave the dial |
| Dial.ZeroStepKeepsDial | human-solutions/01/rust/src/main.rs:4-6 | a zero step leaves the dial and the part 2 count alone |
| Dial.ParseRotation | human-solutions/01/rust/src/main.rs:46-47 | a line reads iff the text after its first character parses as an integer; the direction is that first character and the amount is the parsed integer |
| Dial.ParseRotations | human-solutions/01/rust/src/main.rs:41-48 | the input reads iff every non-empty line reads; then rotation `i` is what the `i`-th non-empty line reads as, one per non-empty line |
| Dial.SameKeptSameRotations | human-solutions/01/rust/src/main.rs:42-44 | two inputs with the same non-empty lines read the same |
| Dial.KeptReadable | human-solutions/01/rust/src/main.rs:41-48 | every non-empty line reads iff every kept line reads |
| Dial.EmptyLineIgnored | human-solutions/01/rust/src/main.rs:42-44 | an empty line changes nothing |
| DialClosedForm.Rem | human-solutions/01/rust/src/main.rs:8 | Rust's `%` on `i32`: the remainder has the sign of the dividend and agrees with the Euclidean one modulo 100 |
| DialClosedForm.NormalizeStart | human-solutions/01/rust/src/main.rs:8 | `((start % 100) + 100) % 100` is the Euclidean position on the dial |
| DialClosedForm.FirstZeroClick | human-solutions/01/rust/src/main.rs:12-21 | the first click that shows 0: between 1 and 100 clicks, it lands on 0, and no earlier click does |
| DialClosedForm.CountClicksOnZero | human-solutions/01/rust/src/main.rs:3-29 | zero for a zero step, and never more hits than clicks |
| DialClosedForm.ClicksZerosClosedForm | human-solutions/01/rust/src/main.rs:14-18 | the hits of `n` clicks are 0 before the first hit, then one more every 100 clicks |
| DialClosedForm.HitAt | human-solutions/01/rust/src/main.rs:18-27 | click `n` lands on 0 iff it is the first hit plus a whole number of turns |
| DialClosedForm.CountClicksOnZeroIsClickCount | human-solutions/01/rust/src/main.rs:3-29 | for any start, the closed form equals the number of clicks that land on 0 |
| DialClosedForm.Advance | human-solutions/01/rust/src/main.rs:52-53 | the two-step reduction is the Euclidean position after the step |
| DialClosedForm.StepMatchesTally | human-solutions/01/rust/src/main.rs:50-57 | one pass of the loop body is one step of the reference |
| DialClosedForm.TurnEnd | human-solutions/01/rust/src/main.rs:52-53 | a turn ends where `Advance` puts the dial |
| DialClosedForm.TurnZeros | human-solutions/01/rust/src/main.rs:50 | from a dial position the closed form counts the turn's hits |
| DialClosedForm.Steps | human-solutions/01/rust/src/main.rs:48 | `R` turns right, any other letter turns left, one step per rotation |
| DialClosedForm.CountZeros | human-solutions/01/rust/src/main.rs:37-58 | both counters of the loop equal the click-by-click reference |
| DialSimulation.SignedClicks | ai-solutions/01/gemini-3-pro/python/main.py:26-30 | a rotation clicks as often as its amount, or never when the amount is negative, rightwards iff `R` |
| DialSimulation.Steps | ai-solutions/01/gemini-3-pro/python/main.py:20-23 | one signed step per rotation |
| DialSimulation.Simulate | ai-solutions/01/gemini-3-pro/python/main.py:16-37 | `p1` and `p2` equal the reference, and `p1` is at most the number of rotations |
| DialSimulation.Rotate | ai-solutions/01/gemini-3-pro/python/main.py:26-37 | one rotation carries the reference state one step further |
| DialSimulation.Turn | ai-solutions/01/gemini-3-pro/python/main.py:26-33 | the inner loop ends where the reference turn ends and counts the same hits |
| DialSimulation.SameStepsAsClosedForm | ai-solutions/01/gemini-3-pro/python/main.py:26-30 | with no negative amounts the two programs reduce the input to the same steps |
| DialSimulation.NegativeAmountDiffers | ai-solutions/01/gemini-3-pro/python/main.py:26 | a negative amount is where the two programs part |
| RepeatedIds.Repeat | human-solutions/02/rust/src/main.rs:22 | a block written `m` times has `m` times its length |
| RepeatedIds.IsExactDouble | human-solutions/02/rust/src/main.rs:4-11 | true iff the text is one half written twice; odd lengths never are |
| RepeatedIds.RepeatedBlockFits | human-solutions/02/rust/src/main.rs:16-25 | a repeated block is found by the scan at its own length, which is at most half the text |
| RepeatedIds.FitsIsRepeatedBlock | human-solutions/02/rust/src/main.rs:17-23 | a block length the scan accepts makes the text a repetition of at least two blocks |
| RepeatedIds.IsRepeatedBlock | human-solutions/02/rust/src/main.rs:13-28 | true iff the text is a non-empty block written at least twice |
| RepeatedIds.ExactDoubleIsRepeatedBlock | human-solutions/02/rust/src/main.rs:4-28 | every part 1 invalid id is a part 2 invalid id |
| RepeatedIds.EmptyTextIsOnlyDouble | human-solutions/02/rust/src/main.rs:4-28 | the empty text is a double but no repeated block |
| RepeatedIds.SingleCharacterNeverRepeated | human-solutions/02/rust/src/main.rs:16 | a one-digit id is never a repeated block |
| RepeatedIds.PairOf | human-solutions/02/rust/src/main.rs:39-42 | a pair reads iff it has a `-` and the trimmed texts before the first `-` and after it (up to any second `-`) both parse; the range is those two integers |
| RepeatedIds.ParsePairs | human-solutions/02/rust/src/main.rs:36-44 | the pairs read iff every pair reads; then one range per pair, range `i` being what pair `i` reads as |
| RepeatedIds.ParseRanges | human-solutions/02/rust/src/main.rs:31-44 | the trimmed input split at commas reads iff every part reads; then range `i` is what part `i` reads as |
| RepeatedIds.PairOfPairText | human-solutions/02/rust/src/main.rs:39-42 | a pair written as `lo-hi` reads back as `(lo, hi)` |
| RepeatedIds.PairTextPlain | human-solutions/02/rust/src/main.rs:37-40 | a written pair holds no comma and no whitespace |
| RepeatedIds.SplitRangesText | human-solutions/02/rust/src/main.rs:33-37 | a written range list, trimmed and split at commas, gives back the written pairs |
| RepeatedIds.ParsePairsOf | human-solutions/02/rust/src/main.rs:36-44 | pairs that each read as the given range parse to exactly those ranges |
| RepeatedIds.ParseRangesText | human-solutions/02/rust/src/main.rs:31-44 | a range list with non-negative bounds, written as the puzzle input writes it, reads back as the same list |
| RepeatedIds.InvalidIdsMembers | human-solutions/02/rust/src/main.rs:46-61 | an id is collected iff some range holds it and it breaks the rule |
| RepeatedIds.InvalidIdsInAny | human-solutions/02/rust/src/main.rs:49-60 | membership in the collected set is some range holding the id, plus the rule |
| RepeatedIds.InAnyRangeExists | human-solutions/02/rust/src/main.rs:49-50 | an id is in some range of the list iff one listed range holds it |
| RepeatedIds.RepeatedRangeAddsNothing | human-solutions/02/rust/src/main.rs:46-47 | a range listed twice adds no id twice (hash-set insertion) |
| RepeatedIds.CollectInvalid | human-solutions/02/rust/src/main.rs:46-61 | both sets are exactly the invalid ids of the input under each rule |
| RepeatedIds.InvalidIdsSnoc | human-solutions/02/rust/src/main.rs:49 | one more range adds its invalid ids |
| RepeatedIds.CollectRange | human-solutions/02/rust/src/main.rs:50-60 | the inner loop adds exactly the range's invalid ids to each set |
| RepeatedIds.TestId | human-solutions/02/rust/src/main.rs:51-59 | an id goes into the set of each rule it breaks |
| RepeatedIds.Solve | human-solutions/02/rust/src/main.rs:46-64 | both sums are the sums of the invalid id sets |
| RepeatedIds.SolveInput | human-solutions/02/rust/src/main.rs:30-64 | an answer iff the text parses, and then the sums of the invalid id sets of the ranges parsed |
| SetSums.SetSumRemove | human-solutions/02/rust/src/main.rs:63-64 | a set's sum does not depend on which element is taken first |
| SetSums.SetSumInsert | human-solutions/02/rust/src/main.rs:54-58 | inserting an element already present changes nothing; a new one adds itself |
| SetSums.Sum | human-solutions/02/rust/src/main.rs:63-64 | `iter().sum()` is the sum of the set |
| Joltage.ValueOfDigits | human-solutions/03/rust/src/main.rs:20 | the fold `acc * 10 + d` over the digits is the number the digits spell |
| Joltage.FirstArgMaxSpec | human-solutions/03/rust/src/main.rs:10-14 | `max_by` with ties to the earlier index finds a largest digit, and no earlier digit is as large |
| Joltage.FirstArgMaxUnique | human-solutions/03/rust/src/main.rs:10-14 | a position with those two properties is the one found |
| Joltage.Banks | human-solutions/03/rust/src/main.rs:33-34 | one bank per input line, bank `i` being the digit values of line `i` |
| Joltage.Greedy | human-solutions/03/rust/src/main.rs:8-18 | the greedy choice keeps exactly `k` digits |
| Joltage.GreedyIsSubseq | human-solutions/03/rust/src/main.rs:8-18 | the digits kept appear in the line in order |
| Joltage.GreedyAll | ai-solutions/03/gpt-5.1-codex/python/solution.py:11-12 | keeping every digit keeps the line |
| Joltage.GreedyNonIncreasing | ai-solutions/03/gpt-5.1-codex/python/solution.py:24 | on a line that never goes up, the greedy choice is its first `k` digits |
| Joltage.GreedyDropDip | ai-solutions/03/gpt-5.1-codex/python/solution.py:18-20 | cutting a digit that a larger one follows leaves the greedy choice as it was |
| Joltage.GreedyLexMax | human-solutions/03/rust/src/main.rs:8-18 | no other choice of `k` digits comes later in dictionary order |
| Joltage.GreedyIsLargest | human-solutions/03/rust/src/main.rs:3-21 | the greedy choice spells the largest number any `k` kept digits can |
| Joltage.TotalSnoc | human-solutions/03/rust/src/main.rs:33-36 | one more bank adds its best joltage |
| Joltage.BanksPrefix | human-solutions/03/rust/src/main.rs:33-36 | one more line adds the best joltage of its bank |
| JoltageGreedy.PickKDigits | human-solutions/03/rust/src/main.rs:3-21 | `pick_k_digits` returns the value of the greedy choice |
| JoltageGreedy.PickFrom | human-solutions/03/rust/src/main.rs:5-18 | the loop builds exactly the greedy choice |
| JoltageGreedy.SumLines | human-solutions/03/rust/src/main.rs:30-36 | both totals are the sums of the best 2-digit and 12-digit joltages |
| JoltageGreedy.AddLine | human-solutions/03/rust/src/main.rs:34-35 | a line adds its best joltages to both totals |
| JoltageStack.MaxSubsequenceNumber | ai-solutions/03/gpt-5.1-codex/python/solution.py:5-25 | the stack method returns the same best joltage as the greedy window |
| JoltageStack.StackDigits | ai-solutions/03/gpt-5.1-codex/python/solution.py:14-21 | the final stack holds `k` plus the drops left, falls when drops remain, and has the line's greedy choice |
| JoltageStack.PopSmaller | ai-solutions/03/gpt-5.1-codex/python/solution.py:18-20 | popping smaller digits keeps the greedy choice over stack and rest |
| JoltageStack.PopStep | ai-solutions/03/gpt-5.1-codex/python/solution.py:18-20 | one pop keeps the stack falling and the greedy choice unchanged |
| JoltageStack.PushStep | ai-solutions/03/gpt-5.1-codex/python/solution.py:21 | a push moves one digit from the rest of the line to the stack |
| JoltageStack.Finish | ai-solutions/03/gpt-5.1-codex/python/solution.py:24 | the first `k` digits of the final stack are the greedy choice |
| JoltageStack.FallsNonIncreasing | ai-solutions/03/gpt-5.1-codex/python/solution.py:18 | a stack that falls at each step never goes up |
| JoltageStack.KeptLine | ai-solutions/03/gpt-5.1-codex/python/solution.py:33-35 | a blank line gives no bank; any other gives its stripped digits |
| JoltageStack.Solve | ai-solutions/03/gpt-5.1-codex/python/solution.py:28-37 | both totals are the sums of the best joltages of the kept banks |
| JoltageStack.SolveLine | ai-solutions/03/gpt-5.1-codex/python/solution.py:33-37 | one line adds what its bank adds to each total |
| JoltageStack.KeptIsBanks | ai-solutions/03/gpt-5.1-codex/python/solution.py:32-35 | on lines that are neither blank nor padded, the Python reads the same banks as the Rust |
| JoltageStack.SameAnswers | ai-solutions/03/gpt-5.1-codex/python/solution.py:28-37 | on such lines the two programs print the same totals |
| Rolls.Neighbours | human-solutions/04/rust/src/main.rs:36-47 | a roll has at most eight neighbours |
| Rolls.NeighboursMono | human-solutions/04/rust/src/main.rs:83-92 | fewer rolls around a cell never mean more neighbours |
| Rolls.AmongAdjacent | human-solutions/04/rust/src/main.rs:22-26 | the eight offsets are exactly the adjacent cells |
| Rolls.NearRemove | ai-solutions/04/gpt-5.1-codex/python/main.py:63-66 | removing one roll lowers a cell's count by one iff that roll was one of its neighbours |
| Rolls.Accessible | human-solutions/04/rust/src/main.rs:49-51 | a roll is accessible iff it has fewer than four neighbours |
| Rolls.Peel | human-solutions/04/rust/src/main.rs:72-109 | peeling keeps a subset of the rolls |
| Rolls.LargestStableUnique | human-solutions/04/rust/src/main.rs:72-109 | there is only one largest stable subset |
| Rolls.StableSurvives | human-solutions/04/rust/src/main.rs:94-106 | a stable subset keeps all its rolls through one round |
| Rolls.PeelIsLargestStable | human-solutions/04/rust/src/main.rs:72-109 | peeling stops at the largest subset in which every roll has four neighbours |
| Rolls.PeelDropsAccessible | human-solutions/04/rust/src/main.rs:72-109 | peeling removes at least the rolls accessible at the start |
| Rolls.PeelBounds | human-solutions/04/rust/src/main.rs:11-15 | part 2 is at least part 1 and at most the number of rolls |
| Rolls.InRollsIn | ai-solutions/04/gpt-5.1-codex/python/main.py:29-34 | a cell is a roll iff it lies on its row and holds `@` |
| Rolls.SameRolls | human-solutions/04/rust/src/main.rs:19-20 | on a rectangular grid both readings of the rolls agree |
| Rolls.MarkCell | human-solutions/04/rust/src/main.rs:104-106 | marking one cell `x` removes that roll and nothing else |
| RollsRounds.CountNeighbours | human-solutions/04/rust/src/main.rs:36-47 | the offset loop counts the neighbouring rolls, skipping cells out of bounds |
| RollsRounds.CheckCell | human-solutions/04/rust/src/main.rs:32-51 | a cell counts iff it is an accessible roll |
| RollsRounds.FindAccessibleRolls | human-solutions/04/rust/src/main.rs:18-56 | the number of accessible rolls of the grid |
| RollsRounds.CellSet | human-solutions/04/rust/src/main.rs:104 | the set of the listed positions |
| RollsRounds.FindRemovable | human-solutions/04/rust/src/main.rs:73-98 | the scan lists each accessible roll once, all within the grid |
| RollsRounds.FindRemovableInRow | human-solutions/04/rust/src/main.rs:76-97 | one row extends the list by the row's accessible rolls |
| RollsRounds.CountTotalRemovable | human-solutions/04/rust/src/main.rs:58-112 | the rolls removed are those outside what peeling keeps |
| RollsRounds.Round | human-solutions/04/rust/src/main.rs:72-109 | a round keeps what peeling will keep and the count of removed rolls; it stops exactly when peeling is done, and otherwise the rolls decrease |
| RollsRounds.RemoveRound | human-solutions/04/rust/src/main.rs:100-108 | removing the accessible rolls leaves peeling's result unchanged and lowers the roll count by their number |
| RollsRounds.MarkAll | human-solutions/04/rust/src/main.rs:104-106 | marking the listed cells removes exactly those rolls and keeps the grid's shape |
| RollsQueue.NeighbourIndicesLength | ai-solutions/04/gpt-5.1-codex/python/main.py:38-41 | a node's list has one entry per neighbouring roll |
| RollsQueue.NeighbourIndicesIn | ai-solutions/04/gpt-5.1-codex/python/main.py:38-41 | a node is listed iff its roll is at one of the offsets |
| RollsQueue.NeighbourIndicesDistinct | ai-solutions/04/gpt-5.1-codex/python/main.py:38-41 | no node is listed twice |
| RollsQueue.NodeFacts | ai-solutions/04/gpt-5.1-codex/python/main.py:36-41 | a node's degree is its number of neighbours, its list has no repeats and lists exactly the adjacent rolls |
| RollsQueue.AdjacencyShape | ai-solutions/04/gpt-5.1-codex/python/main.py:25-43 | the lists name only nodes, have at most eight entries, no self loops, and are symmetric |
| RollsQueue.IndexedSnoc | ai-solutions/04/gpt-5.1-codex/python/main.py:32-34 | numbering one more roll keeps the numbering consistent |
| RollsQueue.BuildAdjacency | ai-solutions/04/gpt-5.1-codex/python/main.py:25-43 | the rolls are numbered in row-major order and each gets the list of its neighbours |
| RollsQueue.NumberRolls | ai-solutions/04/gpt-5.1-codex/python/main.py:29-34 | `positions` and `index` number every roll of the grid, each once, in row-major order |
| RollsQueue.ListNeighbours | ai-solutions/04/gpt-5.1-codex/python/main.py:36-41 | one neighbour list per numbered roll |
| RollsQueue.CollectNeighbours | ai-solutions/04/gpt-5.1-codex/python/main.py:38-41 | the offset loop lists the numbered neighbours in offset order |
| RollsQueue.CountAccessible | ai-solutions/04/gpt-5.1-codex/python/main.py:46-47 | never more than the number of nodes |
| RollsQueue.CountInCard | ai-solutions/04/gpt-5.1-codex/python/main.py:47 | over a list without repeats, counting members is the size of the intersection |
| RollsQueue.CountAccessibleCorrect | ai-solutions/04/gpt-5.1-codex/python/main.py:46-47 | part 1 is the number of accessible rolls |
| RollsQueue.IndexedList | ai-solutions/04/gpt-5.1-codex/python/main.py:29-34 | the numbering lists each roll once |
| RollsQueue.LowNodes | ai-solutions/04/gpt-5.1-codex/python/main.py:53 | the queue starts with exactly the nodes of degree below four |
| RollsQueue.TotalRemoved | ai-solutions/04/gpt-5.1-codex/python/main.py:50-70 | the work queue removes exactly the rolls outside what peeling keeps |
| RollsQueue.QueueStart | ai-solutions/04/gpt-5.1-codex/python/main.py:51-55 | the starting degrees and queue satisfy the loop's invariant |
| RollsQueue.NodeDegree | ai-solutions/04/gpt-5.1-codex/python/main.py:51 | a node's degree is the number of rolls around it |
| RollsQueue.RemoveNode | ai-solutions/04/gpt-5.1-codex/python/main.py:57-68 | removing a node keeps the invariant, and the rolls left decrease |
| RollsQueue.QueueDone | ai-solutions/04/gpt-5.1-codex/python/main.py:56 | once the queue is empty, the count is the number of rolls outside the largest stable subset |
| RollsQueue.DropNeighbours | ai-solutions/04/gpt-5.1-codex/python/main.py:63-68 | after the loop every live degree counts the rolls left, and every live node below four is queued |
| RollsQueue.DroppingStart | ai-solutions/04/gpt-5.1-codex/python/main.py:60-63 | before the loop every neighbour of the removed roll is pending |
| RollsQueue.DropOne | ai-solutions/04/gpt-5.1-codex/python/main.py:64-68 | one neighbour is skipped when removed, otherwise its degree drops and it is queued below four |
| RollsQueue.Solve | ai-solutions/04/gpt-5.1-codex/python/main.py:80-84 | part 1 is the number of accessible rolls, and part 2 the rolls outside what peeling keeps |
| Intervals.CoversPermutation | human-solutions/05/rust/src/main.rs:34 | reordering the ranges keeps the ids covered |
| Intervals.WellFormedPermutation | human-solutions/05/rust/src/main.rs:34 | reordering keeps every range low end first |
| Intervals.CanonicalSpread | human-solutions/05/rust/src/main.rs:42-43 | in a merged list every range lies more than one above all earlier ones |
| Intervals.CanonicalUnique | human-solutions/05/rust/src/main.rs:36-49 | two canonical lists covering the same ids are the same list, so the merges agree wherever each is proved canonical with the input's coverage |
| Intervals.HeadsAgree | human-solutions/05/rust/src/main.rs:36-49 | two such lists start with the same range |
| Intervals.ExtendStep | human-solutions/05/rust/src/main.rs:44-46 | growing the last range keeps the list canonical and adds exactly the new range's ids |
| Intervals.PushStep | human-solutions/05/rust/src/main.rs:42-43 | pushing a range that starts more than one past the last end keeps the list canonical |
| Intervals.MergingStart | ai-solutions/05/gpt-5.1-codex/python/main.py:34 | the merge state holds with the first range as the current one |
| Intervals.GrowCurrent | ai-solutions/05/gpt-5.1-codex/python/main.py:37-38 | growing the current range keeps the merge state |
| Intervals.PushCurrent | ai-solutions/05/gpt-5.1-codex/python/main.py:39-41 | closing the current range keeps the merge state |
| Intervals.MergingDone | ai-solutions/05/gpt-5.1-codex/python/main.py:43-44 | the final list is sorted and no longer than the input; on well-formed input it is canonical with the same coverage |
| Intervals.SpanSize | human-solutions/05/rust/src/main.rs:53 | a range holds `end - start + 1` ids |
| Intervals.InIds | human-solutions/05/rust/src/main.rs:51-54 | an id is in the id set iff some range covers it |
| Intervals.SizeCountsIds | human-solutions/05/rust/src/main.rs:51-54 | on a canonical list the sum of the range lengths counts every covered id once |
| Intervals.CountCovered | human-solutions/05/rust/src/main.rs:26-30 | never more than the number of ids |
| Intervals.CountSameCover | human-solutions/05/rust/src/main.rs:26-30 | lists covering the same ids count the same ids |
| Intervals.SortByStart | human-solutions/05/rust/src/main.rs:34 | a permutation of the ranges, sorted by start |
| Intervals.InsertByStart | human-solutions/05/rust/src/main.rs:34 | inserting one range into a list sorted by start keeps it sorted, adds exactly that range, and leaves the head the new range or the old head |
| Intervals.SortLex | ai-solutions/05/gpt-5.1-codex/python/main.py:29 | `sorted` on pairs: a permutation sorted by start, then end |
| Intervals.InsertLex | ai-solutions/05/gpt-5.1-codex/python/main.py:29 | the same for lists sorted by start, then end |
| FreshHuman.Normalize | human-solutions/05/rust/src/main.rs:17 | the pair is put low end first |
| FreshHuman.NormalizeKeepsIds | human-solutions/05/rust/src/main.rs:17 | normalising keeps the ids between the two numbers |
| FreshHuman.NormalizeAll | human-solutions/05/rust/src/main.rs:11-19 | every range is normalised and the list is well formed |
| FreshHuman.MergeRanges | human-solutions/05/rust/src/main.rs:34-49 | the merged list is canonical, covers the same ids and is no longer |
| FreshHuman.MergeSorted | human-solutions/05/rust/src/main.rs:38-49 | the same for the loop over the sorted ranges |
| FreshHuman.Absorb | human-solutions/05/rust/src/main.rs:39-47 | one `last_mut` step keeps the list canonical and covering exactly the ranges read |
| FreshHuman.Solve | human-solutions/05/rust/src/main.rs:26-54 | part 1 counts the ids some range covers; part 2 is the number of distinct covered ids |
| FreshPython.ParseRangeLine | ai-solutions/05/gpt-5.1-codex/python/main.py:20-21 | a written range line reads back as the range |
| FreshPython.ReadInput | ai-solutions/05/gpt-5.1-codex/python/main.py:11-24 | success iff the stripped text has exactly two sections and the lines of both read; on success, the ranges and ids of the two sections |
| FreshPython.MergeRanges | ai-solutions/05/gpt-5.1-codex/python/main.py:27-44 | empty iff the input is; sorted and no longer; on well-formed input canonical with the same coverage |
| FreshPython.MergeSorted | ai-solutions/05/gpt-5.1-codex/python/main.py:33-44 | the same for the loop over the sorted ranges |
| FreshPython.Advance | ai-solutions/05/gpt-5.1-codex/python/main.py:36-41 | one merge step keeps the merge state |
| FreshPython.Starts | ai-solutions/05/gpt-5.1-codex/python/main.py:52 | the starts of the ranges, in order |
| FreshPython.BisectRight | ai-solutions/05/gpt-5.1-codex/python/main.py:55 | every start before the position is at most the value, every one after is above it |
| FreshPython.StartsAreAscending | ai-solutions/05/gpt-5.1-codex/python/main.py:52 | the starts of a sorted list ascend |
| FreshPython.ProbeFinds | ai-solutions/05/gpt-5.1-codex/python/main.py:55-56 | on a canonical list the probe answers whether some range holds the id |
| FreshPython.CoveredAtProbe | ai-solutions/05/gpt-5.1-codex/python/main.py:55-56 | a covered id lies in the range just before the first start above it |
| FreshPython.CountFresh | ai-solutions/05/gpt-5.1-codex/python/main.py:47-58 | zero for no ranges; on a canonical list, the number of covered ids |
| FreshPython.Solve | ai-solutions/05/gpt-5.1-codex/python/main.py:83-89 | an answer iff the input reads; on well-formed ranges the covered-id count and the number of covered ids |
| FreshBinarySearch.BoundsPermutation | ai-solutions/05/gpt-5.1-codex/rust/src/main.rs:53-54 | sorting keeps every bound a `u64` |
| FreshBinarySearch.WrappingIncrement | ai-solutions/05/gpt-5.1-codex/rust/src/main.rs:60 | `current.end + 1` wraps to 0 at `u64::MAX` and is exact below it |
| FreshBinarySearch.MergeRanges | ai-solutions/05/gpt-5.1-codex/rust/src/main.rs:48-70 | empty iff the input is; sorted; on well-formed input ending below `u64::MAX`, canonical with the same coverage |
| FreshBinarySearch.MergeSorted | ai-solutions/05/gpt-5.1-codex/rust/src/main.rs:56-69 | the same for the loop over the sorted ranges |
| FreshBinarySearch.Advance | ai-solutions/05/gpt-5.1-codex/rust/src/main.rs:59-66 | one merge step keeps the merge state in `u64` |
| FreshBinarySearch.IsFresh | ai-solutions/05/gpt-5.1-codex/rust/src/main.rs:72-94 | false on no ranges; a true answer is always right; on a canonical list every covered id is found |
| FreshBinarySearch.CountFresh | ai-solutions/05/gpt-5.1-codex/rust/src/main.rs:96-98 | zero for no ranges; on a canonical list, the number of covered ids |
| FreshBinarySearch.Length | ai-solutions/05/gpt-5.1-codex/rust/src/main.rs:101 | `end - start + 1` modulo 2^64 |
| FreshBinarySearch.TotalFresh | ai-solutions/05/gpt-5.1-codex/rust/src/main.rs:100-102 | the sum of the lengths modulo 2^64 |
| FreshBinarySearch.Solve | ai-solutions/05/gpt-5.1-codex/rust/src/main.rs:119-125 | on well-formed input ending below `u64::MAX`, the covered-id count and the number of covered ids modulo 2^64 |
| Worksheet.OpOf | human-solutions/06/rust/src/main.rs:97-98 | `+` and `*` name the two operators, and nothing else names one |
| Worksheet.FoldEval | human-solutions/06/rust/src/main.rs:24-31 | folding left to right from the first number gives the sum or the product |
| Worksheet.SheetOf | human-solutions/06/rust/src/main.rs:40-42 | the last line is the operator line and the others are digit lines |
| Worksheet.MaxLength | human-solutions/06/rust/src/main.rs:45-48 | no line is longer, and it is 0 for no lines |
| Worksheet.MaxLengthAttained | ai-solutions/06/gemini-3-pro/python/main.py:23 | some line is as long as the maximum |
| Worksheet.Width | human-solutions/06/rust/src/main.rs:45-48 | no line, digit or operator, is wider than the sheet |
| Worksheet.WidthOf | human-solutions/06/rust/src/main.rs:45-48 | the width is the longest line's length |
| Worksheet.ColumnDigits | human-solutions/06/rust/src/main.rs:75-82 | the non-space characters of a column, at most one per line |
| Worksheet.NoColumnDigits | human-solutions/06/rust/src/main.rs:90 | a column has no digits iff it is a space on every line |
| Worksheet.PastWidth | human-solutions/06/rust/src/main.rs:84-88 | every column past the width is blank |
| Worksheet.BlockEnd | ai-solutions/06/gemini-3-pro/python/main.py:49-51 | the first blank column at or after `c`, or the width |
| Worksheet.BlockEndAt | ai-solutions/06/gemini-3-pro/python/main.py:49-51 | a block starting at a column that is not blank ends at the first blank one |
| Worksheet.NumberAt | human-solutions/06/rust/src/main.rs:101-104 | a column with no digits gives no number; one of digits gives one number |
| Worksheet.ColumnNumbers | human-solutions/06/rust/src/main.rs:72-105 | at most one number per column |
| Worksheet.Slice | ai-solutions/06/gemini-3-pro/python/main.py:68 | a slice of a padded line, character by character |
| Worksheet.RowNumbers | ai-solutions/06/gemini-3-pro/python/main.py:66-70 | at most one number per digit line |
| Worksheet.RowNumbersNone | ai-solutions/06/gemini-3-pro/python/main.py:70 | a line whose part is not a number spoils every longer prefix |
| Worksheet.BlockValue | human-solutions/06/rust/src/main.rs:54-70 | a problem without an operator adds 0; with one, it has a value iff its numbers read |
| Worksheet.Plus | human-solutions/06/rust/src/main.rs:67 | a sum has a value iff both addends do |
| Worksheet.TotalFromBlock | ai-solutions/06/gemini-3-pro/python/main.py:49-103 | a block followed by a blank column adds its answer to what follows |
| Worksheet.TotalFromPast | human-solutions/06/rust/src/main.rs:72 | past the last column there is nothing to add |
| Worksheet.TotalFromBlank | human-solutions/06/rust/src/main.rs:90-95 | a blank column adds nothing |
| Worksheet.BlockOperator | human-solutions/06/rust/src/main.rs:97-99 | on a well-formed sheet a block has its operator in its first column and spaces after it |
| Worksheet.ColumnNumbersParse | human-solutions/06/rust/src/main.rs:102 | on digit lines of digits and spaces, every column reads |
| Worksheet.ColumnsParse | human-solutions/06/rust/src/main.rs:72-107 | on digit lines of digits and spaces, part 2 always has an answer |
| WorksheetScan.NumberRow | human-solutions/06/rust/src/main.rs:9-12 | a row has numbers iff every word parses, one number per word |
| WorksheetScan.OpWord | human-solutions/06/rust/src/main.rs:26-29 | an operator word is `+` or `*`, and `+` is addition |
| WorksheetScan.Column | human-solutions/06/rust/src/main.rs:19-22 | the values `row[col]` of the number rows, top to bottom |
| WorksheetScan.ColumnAnswer | human-solutions/06/rust/src/main.rs:19-31 | an answer iff there are rows, every row has the column, and there is one row or a known operator; it is the single value or the sum or product |
| WorksheetScan.AnswersSome | human-solutions/06/rust/src/main.rs:18-34 | the sum has a value iff every column has an answer |
| WorksheetScan.Part1Succeeds | human-solutions/06/rust/src/main.rs:3-37 | part 1 has a value iff every number word parses, there is a number row, every row is wide enough, and every operator is known where there are several rows |
| WorksheetScan.ColumnValues | human-solutions/06/rust/src/main.rs:19-22 | the values are gathered iff every row has the column |
| WorksheetScan.FoldColumn | human-solutions/06/rust/src/main.rs:24-31 | one value is the answer itself; with more, an answer iff the operator is known, and it is the sum or the product |
| WorksheetScan.SolvePart1 | human-solutions/06/rust/src/main.rs:3-37 | `solve_part1` computes the part 1 function of the lines, `None` where it panics |
| WorksheetScan.SumColumns | human-solutions/06/rust/src/main.rs:16-36 | the column loop computes the sum of the column answers |
| WorksheetScan.AddColumn | human-solutions/06/rust/src/main.rs:19-33 | one column succeeds iff it has an answer, and adds that answer |
| WorksheetScan.ColumnChars | human-solutions/06/rust/src/main.rs:73-82 | the row loop gathers the column's non-space characters |
| WorksheetScan.DigitsRead | human-solutions/06/rust/src/main.rs:101-104 | digit lines of digits and spaces always read as numbers |
| WorksheetScan.FlushBlock | human-solutions/06/rust/src/main.rs:54-70 | a flush at a problem's leftmost column adds the problem's answer and leaves no numbers |
| WorksheetScan.ScanStart | human-solutions/06/rust/src/main.rs:50-52 | the loop starts past the width with nothing read |
| WorksheetScan.ScanBlank | human-solutions/06/rust/src/main.rs:90-95 | a blank column flushes the problem to its right |
| WorksheetScan.ScanColumn | human-solutions/06/rust/src/main.rs:97-104 | a non-blank column adds its number and takes its operator |
| WorksheetScan.ScanOne | human-solutions/06/rust/src/main.rs:72-105 | one column succeeds iff its digits read, and keeps the scan state |
| WorksheetScan.SolvePart2 | human-solutions/06/rust/src/main.rs:39-109 | none for no lines; an answer iff every column reads; on a well-formed sheet, the reference total of part 2 |
| WorksheetScan.Solve | human-solutions/06/rust/src/main.rs:111-116 | an answer iff neither part panics; part 1 is its function and part 2 is the reference total on well-formed sheets |
| WorksheetBlocks.Pad | ai-solutions/06/gemini-3-pro/python/main.py:24 | `ljust`: at least the width long, reading as the line padded with spaces |
| WorksheetBlocks.SeparatorIsBlank | ai-solutions/06/gemini-3-pro/python/main.py:29-33 | a padded column is a separator iff the sheet's column is blank |
| WorksheetBlocks.IsSeparator | ai-solutions/06/gemini-3-pro/python/main.py:29-33 | true iff every padded line has a space in the column |
| WorksheetBlocks.FindSeparators | ai-solutions/06/gemini-3-pro/python/main.py:27-36 | -1, every space column in increasing order, then the width |
| WorksheetBlocks.SeparatorFound | ai-solutions/06/gemini-3-pro/python/main.py:34-35 | a space column joins the separators found so far |
| WorksheetBlocks.SeparatorPassed | ai-solutions/06/gemini-3-pro/python/main.py:31-33 | a column with a character is passed over |
| WorksheetBlocks.SeparatorsDone | ai-solutions/06/gemini-3-pro/python/main.py:36 | appending the width completes the separators |
| WorksheetBlocks.SeparatedBlock | ai-solutions/06/gemini-3-pro/python/main.py:49-54 | two neighbouring separators bound a block of the sheet, empty or not |
| WorksheetBlocks.ReadRows | ai-solutions/06/gemini-3-pro/python/main.py:66-70 | part 1's numbers of a block, one per non-blank line part |
| WorksheetBlocks.RowStep | ai-solutions/06/gemini-3-pro/python/main.py:68-70 | one more digit line is skipped when blank, read otherwise |
| WorksheetBlocks.ColumnText | ai-solutions/06/gemini-3-pro/python/main.py:86-90 | the digits of a column, top to bottom |
| WorksheetBlocks.ReadColumns | ai-solutions/06/gemini-3-pro/python/main.py:83-93 | on digit lines of digits and spaces, part 2's numbers of a block, right to left |
| WorksheetBlocks.ColumnStep | ai-solutions/06/gemini-3-pro/python/main.py:85-93 | one more column to the left adds its number when it has digits |
| WorksheetBlocks.FoldNumbers | ai-solutions/06/gemini-3-pro/python/main.py:72-80 | the sum for `+`, the product for `*`, and the first number for any other operator |
| WorksheetBlocks.Block | ai-solutions/06/gemini-3-pro/python/main.py:53-103 | on a well-formed sheet a block succeeds iff its part 1 numbers read, and adds each part's answer |
| WorksheetBlocks.OperatorText | ai-solutions/06/gemini-3-pro/python/main.py:57-63 | on a well-formed sheet the stripped operator text of a block is its operator character |
| WorksheetBlocks.BlockValueIs | ai-solutions/06/gemini-3-pro/python/main.py:72-103 | what the folds compute for a block is the block's answer |
| WorksheetBlocks.Solve | ai-solutions/06/gemini-3-pro/python/main.py:13-106 | an error for no non-empty lines; on a well-formed sheet, an answer iff part 1 reads, and both reference totals |
| WorksheetBlocks.SheetTotals | ai-solutions/06/gemini-3-pro/python/main.py:27-103 | on a well-formed sheet, success iff part 1 has a total, and both totals equal the reference |
| WorksheetBlocks.TotalStep | ai-solutions/06/gemini-3-pro/python/main.py:80 | one block further along a part's total |
| WorksheetBlocks.TotalFails | ai-solutions/06/gemini-3-pro/python/main.py:70 | a block without an answer leaves the part without a total |
| WorksheetBlocks.PadSheet | ai-solutions/06/gemini-3-pro/python/main.py:23-24 | padding every line to the longest gives the padded sheet of the same width |
| WorksheetBlocks.SkipEmpty | ai-solutions/06/gemini-3-pro/python/main.py:53-54 | an empty block between neighbouring separators adds nothing |
| Text.NatToStringValue | scripts/run-solutions.ts:99 | the decimal text of a number reads back as the number |
| Text.NatToString | scripts/run-solutions.ts:99 | non-empty decimal digits, with a leading zero only for 0 |
| Text.ParseNatToString | scripts/run-solutions.ts:99 | the decimal text of a number parses back to the number |
| Text.ParseInt | human-solutions/02/rust/src/main.rs:40-41 | `parse::<i64>` succeeds iff the text is digits, optionally after one `+` or `-`; the value is the digits' value, negated after `-` |
| Text.PyInt | ai-solutions/05/gpt-5.1-codex/python/main.py:21-23 | Python's `int` succeeds iff the text with surrounding whitespace stripped is integer text; on integer text it agrees with `parse`, and on digits it is their value |
| Text.ParseIntToString | human-solutions/02/rust/src/main.rs:51 | `to_string` of an id parses back to the id |
| Text.IntToString | human-solutions/02/rust/src/main.rs:51 | non-empty text that starts with `-` iff the number is negative |
| Text.Split | human-solutions/02/rust/src/main.rs:37-39 | `split` gives at least one part, none holding the separator |
| Text.JoinSplit | human-solutions/02/rust/src/main.rs:37 | the parts of `split` glued back with the separator are the text |
| Text.JoinOnCons | human-solutions/02/rust/src/main.rs:37 | text glued onto the first part comes first in the joined text |
| Text.JoinOnSnoc | human-solutions/06/rust/src/main.rs:40 | one more part at the end follows the separator in the joined text |
| Text.SplitAfter | human-solutions/02/rust/src/main.rs:37 | a separator-free first part splits off on its own |
| Text.SplitJoin | human-solutions/02/rust/src/main.rs:37 | separator-free parts glued with the separator split back into the same parts |
| Text.SplitTwo | human-solutions/02/rust/src/main.rs:39-41 | two separator-free strings joined by the separator split back apart |
| Text.SplitOn | human-solutions/05/rust/src/main.rs:9 | `split("\n\n")` gives at least one part, and the parts glued back with `"\n\n"` are the text |
| Text.Lines | human-solutions/06/rust/src/main.rs:40 | `lines` gives lines without line feeds and none for empty text; the lines glued back with line feeds, plus the final line feed when the text ends with one, are the text |
| Text.LastOfJoin | human-solutions/06/rust/src/main.rs:40 | joined text ends with the last character of a non-empty last part |
| Text.TrimLeft | human-solutions/02/rust/src/main.rs:40 | a suffix, with only whitespace removed and no whitespace left at the start |
| Text.TrimRight | human-solutions/06/rust/src/main.rs:113 | a prefix, with only whitespace removed and no whitespace left at the end |
| Text.TrimTwice | ai-solutions/03/gpt-5.1-codex/python/solution.py:10 | trimming twice trims nothing more |
| Text.Words | human-solutions/06/rust/src/main.rs:6 | `split_whitespace` gives non-empty words holding no whitespace that tile the text: each word is a maximal run of non-whitespace, in order |
| Text.LeadingSpaces | human-solutions/06/rust/src/main.rs:6 | the length of the whitespace a text starts with, followed by the end or a non-whitespace character |
| Text.TilesSpace | human-solutions/06/rust/src/main.rs:6 | leading whitespace does not change the words |
| Text.TilesUnique | human-solutions/06/rust/src/main.rs:6 | two lists of words that tile the same text are equal, so `Words` is the only answer |
| Text.TilesEnd | human-solutions/06/rust/src/main.rs:6 | a text has no words exactly when it is whitespace only |
| Text.TilesFirst | human-solutions/06/rust/src/main.rs:6 | the first word follows the leading whitespace and ends at whitespace or the end of the text |
| Text.TilesRest | human-solutions/06/rust/src/main.rs:6 | the other words tile the text after the first word |
| Text.SameWordAt | human-solutions/06/rust/src/main.rs:6 | two maximal runs of non-whitespace starting at the same place are the same word |
| Text.InsideWord | human-solutions/06/rust/src/main.rs:6 | no character inside a word is whitespace |
| Text.ParseAll | human-solutions/06/rust/src/main.rs:11 | every item parsed iff each one parses, item by item |
| Text.NonEmpty | ai-solutions/06/gemini-3-pro/python/main.py:21 | exactly the non-empty lines, none of them empty; a list with no empty line is kept whole |
| Text.NonEmptyAppend | ai-solutions/06/gemini-3-pro/python/main.py:21 | filtering commutes with concatenation, so the kept lines keep their order |
| Text.NoSpaceTrim | human-solutions/02/rust/src/main.rs:33 | text without whitespace trims to itself |
| Text.JoinNoSpace | human-solutions/02/rust/src/main.rs:37 | parts and separator without whitespace join to text without whitespace |
| Text.DigitsNoSpace | human-solutions/02/rust/src/main.rs:40 | digits are not whitespace |

## Left out

- Reading input files is not modelled: paths, `fs::read_to_string`,
  `open` and `sys.argv`. Each solution's model starts from the text of the
  input, its lines, or the values its parser produces. Printing the answers
  is not modelled either.
  - The Day 2 model starts from the text of the file, which
    `RepeatedIds.SolveInput` trims and parses.
  - The Day 4 (Rust) and Day 5 (Rust) models start from parsed values, after
    the file's `trim`.
  - The Day 4 Python model starts from the lines `read_grid` returns.
- The rest of `scripts/run-solutions.ts` is not modelled:
  - the process executor (spawning, timers, elapsed time);
  - the solution and input discovery over the file system;
  - compilation with `rustc`;
  - code statistics;
  - the output file;
  - `printHelpAndExit`, modelled only as the `HelpRequested` outcome.
  - The elapsed time field of a run and its rounding are left out, because
    they are floating point.
- RunSolutions.FinishRun: the `catch` branch for thrown errors (lines 523-532)
  and the early return after a failed compilation (lines 485-496) are not
  modelled.
- RunSolutions.IsJsWhitespace lists the ECMAScript whitespace and line
  terminator code points by value. There is no Unicode database behind it.
- RunSolutions.ToNumber reads only plain decimal text as a number. JavaScript's
  `Number` also accepts surrounding whitespace, signs, exponents, fractions
  and hexadecimal. Any such text is kept as given rather than converted, and
  RunSolutions.FinishRun then writes the timeout message with `NaN`, where
  JavaScript would write the converted number.
- RunSolutions.ParseArgs stores the default output path with `/` separators.
  `path.join` uses the platform's separator.
- RunSolutions: the baseline pass is modelled for one task. The loop over
  tasks (lines 640-674) is not.
- Integers are unbounded in every puzzle model except FreshBinarySearch,
  which models `u64` explicitly. The `i32`, `i64` and `u64` overflows of the
  Rust solutions are not modelled, and neither are release-build wrap-around
  and debug-build panics. Python integers are unbounded.
- JoltageGreedy.PickKDigits and JoltageGreedy.SumLines require lines of at
  least `k` (12) characters. Shorter lines make `digits.len() - remaining`
  underflow, or make `max_by` meet an empty window, and the Rust program
  panics.
- JoltageGreedy.PickKDigits reads each character's code less `'0'`, as the
  source does. It does not reject characters that are not digits.
- Text.Lines splits on `'\n'` only. A `"\r\n"` ending is not stripped, and
  Rust's `lines` and Python's `splitlines` would strip it.
- Text.IsSpace is ASCII whitespace. Rust's `trim` and `split_whitespace`
  and Python's `strip`, `split` and `int` also treat Unicode whitespace as
  whitespace.
- Text.ParseInt reads ASCII decimal digits with an optional sign, and rejects
  all other text. It has no range limit. Rust's `parse::<i64>` and
  `parse::<i32>` also reject values out of range.
- Text.PyInt does not accept the other forms Python's `int` accepts:
  underscores between digits and non-ASCII digits.
- RunSolutions.TruncateTo counts and cuts characters (code points). The
  source's `text.length` and `text.slice` count UTF-16 code units. The two
  agree only on text without characters outside the Basic Multilingual Plane.
- WorksheetScan.ColumnChars and WorksheetScan.SolvePart2 index rows by
  character. The Rust part 2 indexes bytes (`as_bytes()[col]`, `len()`). The
  two agree on ASCII sheets only.
- RollsRounds.FindAccessibleRolls and RollsRounds.CountTotalRemovable require
  `RollsRounds.WellShaped`: at least one row, and no row shorter than the
  first. The Rust solution panics on exactly the grids this excludes, when it
  indexes `grid[0]` or a cell past the end of a shorter row. That panic is
  not modelled.
- WorksheetBlocks.Solve returns an error for two inputs on which the Python
  behaves differently. On an empty file `main` returns without printing and
  the program exits normally. On a file of blank lines only, `max()` raises.
  The model stands for both with an error value and does not model the exit
  status.
- JoltageStack.KeptLine and JoltageStack.MaxSubsequenceNumber read any
  character of a line as a digit, by its code less `'0'`. Python's `int`
  raises on a line holding a character that is not a digit.
- WorksheetScan.Part1Succeeds and WorksheetScan.SolvePart1 state part 1
  of the human Rust solution by its own column-by-word reading. They are not
  proved equal to the block reading `Worksheet.TotalFrom(Rows, ...)` that the
  Python solution is proved against.
- WorksheetScan.SolvePart2 and WorksheetBlocks.Solve are proved equal to the
  reference total only on well-formed sheets. Well formed means digit lines
  of digits and spaces, and an operator in the first column of each problem.
  On every sheet, WorksheetScan.SolvePart2 states exactly when it fails.
- WorksheetBlocks.Solve states that it fails on a file with no non-empty
  line. On a sheet that is not well formed it states nothing else: it does
  not say that it fails exactly when `int()` meets a slice or a column text
  that is not a number.
- FreshPython.MergeRanges and FreshPython.Solve are proved canonical and
  exact only on ranges written low end first. A range such as `5-3` is kept
  reversed, as the Python does, and the merged list is then not stated.
- FreshBinarySearch.MergeRanges and FreshBinarySearch.Solve are proved
  canonical and exact only on ranges written low end first that end below
  `u64::MAX`. At `u64::MAX`, `end + 1` wraps to 0, as
  FreshBinarySearch.WrappingIncrement states, and the merged list is then not
  stated.
- RollsRounds and RollsQueue keep the grid as a value (`seq<string>`). The
  marking of `warehouse[row][col] = 'x'` and the Python lists `degrees`,
  `removed` and `q` are modelled as values that each step reassigns, not as
  arrays updated in place.
- RollsQueue.TotalRemoved and RollsQueue.BuildAdjacency carry ghost
  parameters and results: the numbering of the rolls and the set of rolls
  peeling keeps. They tie the nodes back to the grid. The source has no
  such values.
- The queue of `total_removed` is a sequence that pops from the front, in
  place of a `deque`.
- Day 1 Python: the model follows the source in also counting `pos == 0`
  after a rotation of zero clicks. It does not model `int(line[1:])`
  raising on bad text beyond a parse failure.

## Findings

| source | as written | input that shows it | evidently intended | confidence | as-written member | corrected member |
|---|---|---|---|---|---|---|
| scripts/run-solutions.ts:94 | `text.replace(/\r\n/g, "\n")` is one non-overlapping pass, so `"\r\r\n"` becomes `"\r\n"` and a CR LF pair survives the normalisation | `"\r\r\nx"`: normalising it gives `"\r\nx"`; normalising again gives `"\nx"`, so the function is not idempotent and two outputs that differ only in such line endings can compare unequal at line 671 | every CR before a LF removed, so no CR LF is left and normalising twice changes nothing | not executed | RunSolutions.NormalizeStdout, RunSolutions.NormalizeStdoutLeavesCrlf | RunSolutions.NormalizeLineEndings, RunSolutions.NormalizeLineEndingsIdempotent |
