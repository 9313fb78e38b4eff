# Advent of Code 2024, days 1 to 6, in Dafny

This project models the puzzle solvers of the first six days of the
repository `eauc/advent2024`, which is written in JavaScript on top of
lodash. It proves properties of each model.

- **Day 1, location lists.** `totalDistance` sorts the two lists, pairs them
  up and adds the distances. `totalSimilarityScore` adds up every left value
  times how often it occurs on the right.
- **Day 2, level reports.** A report is *strictly safe* when its levels all
  rise or all fall by 1 to 3 at each step. It is *safe* when it is strictly
  safe, or becomes so after removing one level. `countSafeReports` counts both
  kinds.
- **Day 3, program memory.** A scanner finds the tokens `mul(X,Y)`, `do()` and
  `don't()`, the way a regular expression would. A fold adds up the products
  of the multiplications that `do()`/`don't()` leave enabled.
- **Day 4, word search.** From every cell whose character starts the word,
  eight rays are cast. A ray that spells the word is one occurrence.
  `findCrossedWords` keeps the diagonal occurrences that share a cell with
  another one at a given index. The occurrences render back to text.
- **Day 5, safety manual.** The file holds page-order rules and updates.
  Auditing an update gives its violations, an `isOk` flag, and a corrected
  order (pages sorted by how many pages of the update must follow them). The
  checksums add up middle pages with lodash `sum`. An empty update is ok but
  has no middle page, and `sum` of entries that are all `undefined` is itself
  `undefined`; the model keeps that case (None).
- **Day 6, guard map.** A guard walks up the map from `^` and turns right in
  front of every `#` until it leaves. The model covers the traced path, the
  drawing of the visited cells, the marking of a cell, the loop check, and the
  search for obstructions that make the guard loop.

Modules:

- `Wrappers`, `Seqs`, `Sorting` and `Counting` model the lodash helpers the
  solvers use: `sum` over numbers, `reverse`, `split`/`join`, `uniq`, `sortBy`/`orderBy`,
  `countBy` and `get`.
- One module per day: `LocationList`, `LevelReports`, `ProgramMemory`,
  `WordSearch` and `SafetyManualUpdates`.
- Day 6 is split in two. `GuardMap` holds the walk, the start, the trace, the
  drawing and the marker. `GuardLoops` holds the loop check and the obstruction
  search.

How the source's form is kept:

- Days 1 to 5, and most of day 6, are chains of pure transformations. They
  become functions and lemmas.
- The day 6 loops are methods with loop invariants, each proved against a
  specification function: `getInitialPosition`, `traceGuardPath` and
  `checkLoop`.
- `visitedMap` reverses its caller's array in place. It is a method over an
  `array`.

Where this model follows the code rather than the puzzle's prose:

- `checkLoop` as written does not terminate on one kind of map; see Findings.
- lodash `sortBy` applied through `_.map` is called with the element, its index
  and the whole list. lodash's `isIterateeCall` recognises that call shape (the
  list at that index is the element) and drops the extra arguments, so `sortBy`
  runs with no iteratee and sorts the numbers by identity.
- `do` and `don't` accept the same argument group as `mul`, so `do(1,2)` is a
  `do()`.
- `mul()` with no arguments produces `NaN` operands, so the model carries a
  `NaN` total.

## Model

Where a source function is modelled by a function whose own contract says little,
its properties sit in the lemma rows that cite the same lines:

- LocationList.TotalSimilarityScore: TotalSimilarityScoreIsSimilarity, TotalSimilarityScorePermutation and SampleTotalSimilarityScore.
- ProgramMemory.Run and ProgramMemory.SumInstructions: RunIsEnabledSum, SumInstructionsIsEnabledSum, SumWithoutDont, RunDisabled, SumDisabled and SampleSum.
- WordSearch.WordsStartingAt: the RayFrom and Ray… rows.
- WordSearch.FindWords: the FindWords… rows.
- WordSearch.FindCrossedWords: the FindCrossedWords… rows.
- WordSearch.OccurrencesToString: CoveredCellsIff and OccurrencesToStringShape.
- SafetyManualUpdates.Trim: TrimmedEnd, TrimmedStart, TrimEnds and TrimDropsSpace.
- SafetyManualUpdates.Lines: LinesTrimmed.
- SafetyManualUpdates.CheckUpdates: CheckUpdatesConcat, CheckUpdatesConcatIncorrect, IncorrectCheckDefined, CheckEmptyUpdate and CheckUpdatesSingle, with Sum described by SumIs and SumConcat.
- GuardMap.InitialPosition: InitialPositionFirst, InitialUnique and GetInitialPosition.
- GuardMap.IsExiting: ExitingLeaves.
- GuardMap.TraceFrom: TraceGuardPath, TraceFuel, TraceShape and TraceNext.
- GuardLoops.LoopFrom (the counted check): CheckLoop, CheckLoopLeaves, LoopExits and LoopNeverExits.
- GuardLoops.CheckFrom and GuardLoops.CheckLoopAsWritten (`checkLoop` as written): BoxedNeverReturns, CheckFromAgrees, CheckLoopAgrees and SampleBoxedAsWritten.
- GuardLoops.FindAllPossibleLoopObstructions: FindAllMembers, FindAllDistinct, FindAllSorted and SampleFindAll.

| member | source | states |
|---|---|---|
| Seqs.SumConcat | js/day01/locationList.js:21-23 | lodash `sum` of a concatenation is the sum of the parts |
| Seqs.SumNonNegative | js/day01/locationList.js:21-23 | a sum of non-negative numbers is non-negative |
| Seqs.ReverseReverse | js/day06/guardMap.js:97-98 | reversing the path twice gives it back |
| Seqs.ReverseMultiset | js/day06/guardMap.js:97-98 | the reversed path holds the same positions, each as often |
| Seqs.Split | js/day05/safetyManualUpdates.js:11-12 | `split` yields at least one piece and no piece holds the separator |
| Seqs.JoinSplit | js/day04/wordSearch.js:154-162 | joining the pieces of a split gives back the text |
| Seqs.SplitJoin | js/day04/wordSearch.js:154-162 | splitting a join of separator-free pieces gives back the pieces |
| Seqs.Dedup | js/day06/guardMap.js:205 | `uniqBy`: every element kept comes from the list, every element of the list is kept, none twice |
| Seqs.DedupSubsequence | js/day06/guardMap.js:205 | de-duplication keeps a subsequence of the list |
| Seqs.FirstIndex | js/day06/guardMap.js:205 | the first occurrence: the index holds the element, and no earlier index does |
| Seqs.DedupFirstOrder | js/day06/guardMap.js:205 | `uniqBy` lists the elements in the order of their first occurrences, which with the membership contract of Dedup fixes the result |
| Seqs.DedupDistinct | js/day06/guardMap.js:205 | a list without repeats is its own de-duplication |
| Seqs.DistinctPermutation | js/day06/guardMap.js:211 | reordering a list without repeats leaves no repeats |
| Sorting.SortBy | js/day06/guardMap.js:211 | the stable sort: same length, sorted by the key, the same multiset, and each key's elements in their original order |
| Sorting.SortedByUnique | js/day05/safetyManualUpdates.js:51 | two lists, each sorted by a key and each holding every key's elements in the same order, are equal |
| Sorting.SortByCanonical | js/day05/safetyManualUpdates.js:51 | sorting depends only on the elements of each key, in order |
| Sorting.KeyFilterSorted | js/day06/guardMap.js:211 | keeping the elements with one key keeps a list sorted by another key sorted |
| Sorting.SortByDistinct | js/day06/guardMap.js:211 | sorting a list without repeats gives a list without repeats |
| Counting.CountBy | js/day02/levelReports.js:52-54 | `countBy`: every key present counts at least one element, and the count of every key is its number of elements |
| Counting.OccurrencesIdentity | js/day01/locationList.js:28 | counting by identity counts multiplicities |
| LocationList.PairDistances | js/day01/locationList.js:22 | `zipWith` of absolute differences: one non-negative distance per pair |
| LocationList.TotalDistance | js/day01/locationList.js:20-24 | the total distance is non-negative |
| LocationList.SortNumbersPermutation | js/day01/locationList.js:22 | sorted numbers depend only on the multiset of the list |
| LocationList.SortNumbersIs | js/day01/locationList.js:22 | any ascending rearrangement of a list is its sorted form |
| LocationList.TotalDistancePermutation | js/day01/locationList.js:20-24 | permuting either list leaves the total distance unchanged |
| LocationList.TotalDistanceSymmetric | js/day01/locationList.js:20-24 | swapping the two lists leaves the total distance unchanged |
| LocationList.TotalDistanceOfPermutation | js/day01/locationList.js:20-24 | two lists holding the same values have distance 0 |
| LocationList.Frequencies | js/day01/locationList.js:28 | `countBy(rightList)` maps exactly the values present to their multiplicities |
| LocationList.TotalSimilarityScoreIsSimilarity | js/day01/locationList.js:26-33 | the computed score equals the reference sum of value times multiplicity on the right |
| LocationList.SimilarityPermutation | js/day01/locationList.js:26-33 | the reference score does not depend on the order of either list |
| LocationList.TotalSimilarityScorePermutation | js/day01/locationList.js:26-33 | the computed score does not depend on the order of either list |
| LocationList.SampleTotalDistance | js/day01/day01.test.js:10-29 | the sample lists, in any order, are at distance 11 |
| LocationList.SampleTotalSimilarityScore | js/day01/day01.test.js:33-49 | the sample lists score 31 |
| LevelReports.Deltas | js/day02/levelReports.js:22-25 | one delta per adjacent pair, equal to the later level minus the earlier |
| LevelReports.DeltasIncreasing | js/day02/levelReports.js:26-29 | deltas all in 1..3 if and only if the report rises gradually |
| LevelReports.DeltasDecreasing | js/day02/levelReports.js:26-29 | deltas all in -3..-1 if and only if the report falls gradually |
| LevelReports.IsSafeStrict | js/day02/levelReports.js:21-30 | strictly safe if and only if gradually rising or gradually falling; reports of at most one level are safe |
| LevelReports.WithoutIndex | js/day02/levelReports.js:38 | `reject` by index removes exactly the element at that index, or nothing outside the list |
| LevelReports.Dampened | js/day02/levelReports.js:32-40 | one report per level, each the report without that level |
| LevelReports.IsSafe | js/day02/levelReports.js:42-49 | safe if and only if strictly safe, or strictly safe once some one level is removed |
| LevelReports.ShortReportSafe | js/day02/levelReports.js:42-49 | reports of at most two levels are always safe |
| LevelReports.ReverseSafeStrict | js/day02/levelReports.js:21-30 | reversing a report keeps strict safety |
| LevelReports.ReverseSafe | js/day02/levelReports.js:42-49 | reversing a report keeps safety with the dampener |
| LevelReports.BigStepUnsafe | js/day02/levelReports.js:28 | a step of more than 3 makes a report strictly unsafe |
| LevelReports.NumberSafe | js/day02/levelReports.js:51-55 | no more safe reports than reports |
| LevelReports.CountSafeReports | js/day02/levelReports.js:51-55 | `safeReports` counts the safe reports; the two keys add up to the number of reports; no other key, and no zero count |
| LevelReports.SampleSafeReports | js/day02/levelReports.test.js:10-49 | the safe sample reports, two of them without the dampener |
| LevelReports.SampleUnsafeIncreasing | js/day02/levelReports.test.js:31-35 | `1 2 7 8 9` is unsafe even with the dampener |
| LevelReports.SampleUnsafeDecreasing | js/day02/levelReports.test.js:36-39 | `9 7 6 2 1` is unsafe even with the dampener |
| LevelReports.SampleCount | js/day02/levelReports.test.js:53-74 | the six sample reports: 4 safe, 2 unsafe |
| ProgramMemory.DigitValue | js/day03/programMemory.js:37-38 | a digit's value is at most 9 and is its distance from `0` |
| ProgramMemory.ValueBound | js/day03/programMemory.js:18 | a number of at most three digits is at most 999 |
| ProgramMemory.DigitsAt | js/day03/programMemory.js:18 | the digit run stays inside the memory |
| ProgramMemory.DigitsAtRun | js/day03/programMemory.js:18 | the run is all digits and is maximal |
| ProgramMemory.OperatorAt | js/day03/programMemory.js:18 | an operand found at `i` fits in the memory |
| ProgramMemory.ArgsAt | js/day03/programMemory.js:18 | an argument group found is followed by `)`, with at most three digits per operand |
| ProgramMemory.MatchAt | js/day03/programMemory.js:18 | a token found spans at least 4 characters inside the memory |
| ProgramMemory.MatchAtSound | js/day03/programMemory.js:18 | whatever the matcher finds is a token of the grammar, standing for the instruction reported |
| ProgramMemory.MatchAtComplete | js/day03/programMemory.js:18 | every token of the grammar at `i` is what the matcher finds there, with its full length |
| ProgramMemory.FirstSome | js/day03/programMemory.js:18-20 | `exec`: the first position with a match, and none before it; or none anywhere |
| ProgramMemory.ParseInstruction | js/day03/programMemory.js:17-49 | the rest of the memory is a suffix at least 4 characters shorter |
| ProgramMemory.ParseInstructionNone | js/day03/programMemory.js:21-23 | the scanner finds nothing if and only if the memory holds no token |
| ProgramMemory.ParseInstructionSound | js/day03/programMemory.js:17-49 | the instruction returned is the leftmost token, and the memory returned is what follows it |
| ProgramMemory.ParseInstructionLeftmost | js/day03/programMemory.js:17-49 | a token with no token before it is the one returned |
| ProgramMemory.ParseAllInstructions | js/day03/programMemory.js:51-61 | at most one instruction per four characters, after the accumulated ones |
| ProgramMemory.ParseAllAccumulator | js/day03/programMemory.js:51-61 | the accumulator is only a prefix of the result |
| ProgramMemory.ParseAllScans | js/day03/programMemory.js:51-61 | the result is the left-to-right scan: each instruction is the meaning of the leftmost token of what the previous token left, and no token is left after the last |
| ProgramMemory.ScanIsParseAll | js/day03/programMemory.js:51-61 | that scan is unique: any list of instructions so scanned is the result |
| ProgramMemory.ParseAllOperands | js/day03/programMemory.js:51-61 | every multiplication scanned has operands between 0 and 999 |
| ProgramMemory.InstructionOperands | js/day03/programMemory.js:34-40 | a scanned `mul` has operands of at most 999 |
| ProgramMemory.RunIsEnabledSum | js/day03/programMemory.js:63-82 | the fold is `NaN` when an enabled `mul()` occurs and otherwise the sum of the enabled products; its flag tells whether the next instruction is enabled |
| ProgramMemory.SumInstructionsIsEnabledSum | js/day03/programMemory.js:63-82 | `sumInstructions` equals the reference sum of enabled products |
| ProgramMemory.SumWithoutDont | js/day03/programMemory.js:63-82 | without `don't()`, every product counts |
| ProgramMemory.RunDisabled | js/day03/programMemory.js:73-74 | after `don't()` nothing is added until `do()`, and the gate stays closed |
| ProgramMemory.SumDisabled | js/day03/programMemory.js:63-82 | instructions after a `don't()` with no `do()` do not change the sum |
| ProgramMemory.SampleSum | js/day03/programMemory.test.js:34-49 | the sample instructions sum to 48 |
| WordSearch.DirectionIndex | js/day04/wordSearch.js:25-99 | each direction has a position in the order the rays are cast |
| WordSearch.RayLength | js/day04/wordSearch.js:23-98 | every ray holds at least its starting cell |
| WordSearch.WordOf | js/day04/wordSearch.js:103 | the text of a ray is no longer than the ray |
| WordSearch.RayFrom | js/day04/wordSearch.js:27-98 | a ray starts on its cell, has the length the source computes, and stays on the lines |
| WordSearch.RayLengthExact | js/day04/wordSearch.js:23-98 | in a rectangular grid, a ray covers exactly the steps that stay in the grid |
| WordSearch.WordOfAllSome | js/day04/wordSearch.js:103 | with every cell present, the text reads the cells one for one |
| WordSearch.RayAllSome | js/day04/wordSearch.js:23-98 | in a rectangular grid every position of a ray has a cell |
| WordSearch.RayStartsWithSpells | js/day04/wordSearch.js:118-122 | a ray starting with the word spells it in the grid |
| WordSearch.SpellsFits | js/day04/wordSearch.js:23-98 | a spelled word fits in its ray |
| WordSearch.SpellsRayStartsWith | js/day04/wordSearch.js:118-122 | a spelled word is a prefix of the ray's text |
| WordSearch.CellsFrom | js/day04/wordSearch.js:110 | the listed cells are the grid's cells |
| WordSearch.CellsFromHas | js/day04/wordSearch.js:110 | every cell of the grid is listed |
| WordSearch.RayMatches | js/day04/wordSearch.js:118-123 | every occurrence kept is of the word searched |
| WordSearch.RayMatchesSource | js/day04/wordSearch.js:118-123 | each occurrence comes from a ray whose text starts with the word, cut to its length |
| WordSearch.RayMatchesHas | js/day04/wordSearch.js:118-123 | each such ray yields an occurrence |
| WordSearch.OccurrencesFromSource | js/day04/wordSearch.js:109-123 | each occurrence comes from a cell holding the first letter and one of its eight rays |
| WordSearch.OccurrencesFromHas | js/day04/wordSearch.js:109-123 | every matching ray of a listed first-letter cell yields an occurrence |
| WordSearch.FindWordsShape | js/day04/wordSearch.js:108-126 | an occurrence is of a non-empty word, as long as the word, starting in the grid on the first letter |
| WordSearch.FindWordsSound | js/day04/wordSearch.js:108-126 | in a rectangular grid every occurrence found is written in the grid |
| WordSearch.FindWordsComplete | js/day04/wordSearch.js:108-126 | in a rectangular grid every place the word is written is found |
| WordSearch.Diagonals | js/day04/wordSearch.js:132-137 | the diagonal occurrences come from the list |
| WordSearch.DiagonalsHas | js/day04/wordSearch.js:132-137 | every diagonal occurrence is kept |
| WordSearch.DiagonalsSubsequence | js/day04/wordSearch.js:132-137 | the diagonal ones keep their order |
| WordSearch.KeepCrossedSource | js/day04/wordSearch.js:138-143 | each kept occurrence crosses another one at index `k` |
| WordSearch.KeepCrossedHas | js/day04/wordSearch.js:138-143 | each occurrence that crosses another one is kept |
| WordSearch.FindCrossedWordsSubsequence | js/day04/wordSearch.js:128-146 | the crossed occurrences are found occurrences, in order |
| WordSearch.FindCrossedWordsSound | js/day04/wordSearch.js:128-146 | a crossed occurrence is diagonal and shares its position-`k` cell with another diagonal occurrence |
| WordSearch.FindCrossedWordsComplete | js/day04/wordSearch.js:128-146 | every diagonal occurrence sharing its position-`k` cell with another one is kept |
| WordSearch.FindCrossedWordsOutside | js/day04/wordSearch.js:141 | with `k` outside the word, both sides read `undefined`, so every diagonal occurrence is kept once there are two |
| WordSearch.CoveredCellsIff | js/day04/wordSearch.js:149-153 | a position is covered if and only if some occurrence holds a cell there |
| WordSearch.OccurrencesToStringShape | js/day04/wordSearch.js:148-163 | the text splits into one line per grid line, showing covered characters and `.` elsewhere |
| SafetyManualUpdates.TrimmedEnd | js/day05/safetyManualUpdates.js:13 | the kept end is preceded by a non-space, and everything after it is whitespace |
| SafetyManualUpdates.TrimmedStart | js/day05/safetyManualUpdates.js:13 | the kept start is a non-space, or the end, and everything before it is whitespace |
| SafetyManualUpdates.TrimEnds | js/day05/safetyManualUpdates.js:13 | lodash `trim` keeps text that neither starts nor ends with whitespace |
| SafetyManualUpdates.TrimDropsSpace | js/day05/safetyManualUpdates.js:13 | lodash `trim` drops only whitespace, before and after the kept slice |
| SafetyManualUpdates.LinesTrimmed | js/day05/safetyManualUpdates.js:11-14 | every line holds no line break, and neither starts nor ends with whitespace |
| SafetyManualUpdates.RuleLines | js/day05/safetyManualUpdates.js:16 | `takeWhile`: a prefix of non-empty lines, stopped by an empty line or the end |
| SafetyManualUpdates.NonEmpty | js/day05/safetyManualUpdates.js:23 | `reject(isEmpty)` keeps exactly the non-empty lines |
| SafetyManualUpdates.RuleLinesSplit | js/day05/safetyManualUpdates.js:15-25 | `takeWhile` and `dropWhile` split the lines in two |
| SafetyManualUpdates.UpdateLinesCover | js/day05/safetyManualUpdates.js:15-25 | every non-empty line is a rule line or an update line |
| SafetyManualUpdates.GroupRules | js/day05/safetyManualUpdates.js:18-19 | every page in the orders has at least one successor |
| SafetyManualUpdates.GroupRulesSuccessors | js/day05/safetyManualUpdates.js:18-19 | each page is mapped to the pages its rules put after it, in rule order |
| SafetyManualUpdates.InListMembers | js/day05/safetyManualUpdates.js:35 | the filtered list holds exactly the common elements |
| SafetyManualUpdates.IntersectionMembers | js/day05/safetyManualUpdates.js:35 | lodash `intersection` holds the common elements, each once |
| SafetyManualUpdates.IntersectionSubsequence | js/day05/safetyManualUpdates.js:35 | the intersection is a subsequence of the first list |
| SafetyManualUpdates.IntersectionFirstOrder | js/day05/safetyManualUpdates.js:35 | `intersection` lists the common elements in the order of their first occurrences in the first list |
| SafetyManualUpdates.ViolationsMembers | js/day05/safetyManualUpdates.js:31-37 | a page's violations are exactly the pages at or before it that the orders put after it, each once |
| SafetyManualUpdates.AllViolations | js/day05/safetyManualUpdates.js:31-38 | `fromPairs` has a key for exactly the pages listed |
| SafetyManualUpdates.Errors | js/day05/safetyManualUpdates.js:30-40 | every error is a page of the update with a non-empty list |
| SafetyManualUpdates.AllViolationsLast | js/day05/safetyManualUpdates.js:38 | `fromPairs` keeps the last pair for a repeated page |
| SafetyManualUpdates.ErrorsAtLast | js/day05/safetyManualUpdates.js:30-40 | a page is an error exactly when its last occurrence has violations, and then holds those |
| SafetyManualUpdates.AllViolationsOther | js/day05/safetyManualUpdates.js:38 | adding a pair leaves the other pages' lists alone |
| SafetyManualUpdates.AllViolationsNonEmpty | js/day05/safetyManualUpdates.js:31-39 | a violation makes the page's entry non-empty |
| SafetyManualUpdates.ViolationsHas | js/day05/safetyManualUpdates.js:33-36 | a page at or before `n` that the orders put after page `n` is one of its violations |
| SafetyManualUpdates.ViolationsEmpty | js/day05/safetyManualUpdates.js:33-36 | with no such page, the violation list is empty |
| SafetyManualUpdates.AllViolationsEmpty | js/day05/safetyManualUpdates.js:31-38 | an update in order has only empty lists |
| SafetyManualUpdates.IsOkCorrect | js/day05/safetyManualUpdates.js:42 | `isOk` if and only if no page the orders put after a page is printed at or before it |
| SafetyManualUpdates.CorrectPageUpdates | js/day05/safetyManualUpdates.js:43-53 | the corrected order is a permutation, by non-increasing successor count, with ties in update order |
| SafetyManualUpdates.CorrectedIs | js/day05/safetyManualUpdates.js:43-53 | any such ordering is the corrected order |
| SafetyManualUpdates.AuditUpdate | js/day05/safetyManualUpdates.js:29-56 | `isOk` exactly when `errors` is empty |
| SafetyManualUpdates.MiddlePage | js/day05/safetyManualUpdates.js:58-60 | a middle page exists exactly for a non-empty update |
| SafetyManualUpdates.MiddlePageBalanced | js/day05/safetyManualUpdates.js:58-60 | the middle page has as many pages after it as before, or one fewer |
| SafetyManualUpdates.SumIs | js/day05/safetyManualUpdates.js:70 | lodash `sum` is `undefined` exactly for a non-empty list whose entries are all `undefined`, and otherwise the total of the defined entries (0 for an empty list) |
| SafetyManualUpdates.SumConcat | js/day05/safetyManualUpdates.js:70 | `sum` of a concatenation: an empty side changes nothing, and otherwise the two sums combine as `baseSum` combines entries, an `undefined` side being skipped |
| SafetyManualUpdates.CheckUpdatesConcat | js/day05/safetyManualUpdates.js:62-71 | the first checksum over two runs of updates: a run without ok updates changes nothing, and otherwise the checksums combine as lodash `sum` does |
| SafetyManualUpdates.IncorrectCheckDefined | js/day05/safetyManualUpdates.js:72-80 | the second checksum is never `undefined`: an update that is not ok has pages, and so has its corrected order |
| SafetyManualUpdates.CheckUpdatesConcatIncorrect | js/day05/safetyManualUpdates.js:72-80 | the second checksum adds up over two runs of updates |
| SafetyManualUpdates.CheckEmptyUpdate | js/day05/safetyManualUpdates.js:58-71 | for the updates `[[]]` the first checksum is `undefined` and the second 0, whatever the rules |
| SafetyManualUpdates.CheckUpdatesSingle | js/day05/safetyManualUpdates.js:62-82 | one update adds its middle page to the first checksum when ok, and its corrected middle page to the second otherwise |
| SafetyManualUpdates.ErrorsExactly | js/day05/safetyManualUpdates.js:30-40 | for an update without repeated pages, `errors` is read off the violation lists |
| SafetyManualUpdates.SampleMiddlePages | js/day05/safetyManualUpdates.test.js:182-192 | the middle pages of the three sample updates are 61, 53 and 29 |
| SafetyManualUpdates.SampleErrorsReordered | js/day05/safetyManualUpdates.test.js:112-132 | `75,97,47,61,53` has the errors `{97: [75]}` |
| SafetyManualUpdates.SampleAuditReordered | js/day05/safetyManualUpdates.test.js:112-132 | `75,97,47,61,53` is not ok |
| SafetyManualUpdates.SampleErrorsUnsorted | js/day05/safetyManualUpdates.test.js:156-178 | `97,13,75,29,47` has the errors `{75: [13], 29: [13], 47: [13, 29]}` |
| GuardMap.TurnRight | js/day06/guardMap.js:65-75 | a turn stays on the cell |
| GuardMap.TurnRightCycle | js/day06/guardMap.js:65-75 | four turns face the guard the way it started, and fewer never do |
| GuardMap.Advance | js/day06/guardMap.js:53-63 | a step keeps the direction and moves exactly one cell |
| GuardMap.ExitingLeaves | js/day06/guardMap.js:41-51 | inside the map, exiting means the next step leaves the map |
| GuardMap.AdvancePlaced | js/day06/guardMap.js:82-86 | a step from a non-exiting state stays on a line |
| GuardMap.Next | js/day06/guardMap.js:82-91 | one iteration of the walk stays on a line |
| GuardMap.InitialPositionFirst | js/day06/guardMap.js:27-39 | the start is the first `^` in row-major order, facing up, or there is none |
| GuardMap.InitialUnique | js/day06/guardMap.js:27-39 | at most one state is the start |
| GuardMap.GetInitialPosition | js/day06/guardMap.js:27-39 | the nested loop returns the start |
| GuardMap.TraceGuardPath | js/day06/guardMap.js:77-94 | the loop returns the start followed by the positions stepped onto until the exit |
| GuardMap.TraceFuel | js/day06/guardMap.js:77-94 | the path does not depend on how many extra iterations are allowed |
| GuardMap.TraceShape | js/day06/guardMap.js:77-94 | the path is made of single steps onto free cells and ends on an edge the guard faces |
| GuardMap.TraceNext | js/day06/guardMap.js:81-92 | one iteration keeps whether the guard eventually exits |
| GuardMap.FirstVisitReverse | js/day06/guardMap.js:97-99 | the first visit along the reversed path is the last visit along the path |
| GuardMap.ReverseInPlace | js/day06/guardMap.js:98 | `reverse` reverses the array in place |
| GuardMap.VisitedMap | js/day06/guardMap.js:96-114 | the caller's path is left reversed; every visited cell shows its last visit's direction, every other cell its character |
| GuardMap.Clamp | js/day06/guardMap.js:119 | `substring` clamps an index to the string |
| GuardMap.SetMapMarker | js/day06/guardMap.js:116-121 | the copy keeps the size and every other line |
| GuardMap.SetMapMarkerCell | js/day06/guardMap.js:116-121 | a one-character marker inside the line replaces exactly that cell |
| GuardMap.SetMapMarkerOutside | js/day06/guardMap.js:116-121 | past the end the marker is appended, before the start it is prepended |
| GuardMap.SampleTraceStraight | js/day06/guardMap.test.js:140-153 | a guard below a free cell walks up and out |
| GuardMap.SampleTraceTurn | js/day06/guardMap.test.js:155-169 | a guard meeting `#` turns right and leaves to the right |
| GuardLoops.StepInBounds | js/day06/guardMap.js:159-170 | on a rectangular map a non-exiting state steps and turns inside the map |
| GuardLoops.CheckLoop | js/day06/guardMap.js:151-195 | the loop reports a loop exactly when the guard never leaves the map |
| GuardLoops.CheckLoopLeaves | js/day06/guardMap.js:151-195 | the counted check answers `true` if and only if no number of iterations takes the guard out |
| GuardLoops.LoopExits | js/day06/guardMap.js:159-163 | an answer `false` comes with a number of iterations after which the guard is out |
| GuardLoops.LoopNeverExits | js/day06/guardMap.js:173-186 | an answer `true` means the walk is on a cycle and never exits |
| GuardLoops.TraceWalks | js/day06/guardMap.js:81-92 | walking `n` iterations spends `n` fuel of the trace |
| GuardLoops.CycleNeverExits | js/day06/guardMap.js:173-186 | a state the walk returns to is never left for good |
| GuardLoops.BoxedNeverReturns | js/day06/guardMap.js:165-170 | on a cell blocked on all four sides, `checkLoop` as written turns for ever |
| GuardLoops.BoxedLoops | js/day06/guardMap.js:165-170 | the counted check reports a loop there |
| GuardLoops.CheckFromAgrees | js/day06/guardMap.js:157-191 | wherever `checkLoop` as written returns, the counted check gives the same answer |
| GuardLoops.CheckLoopAgrees | js/day06/guardMap.js:151-195 | the same, from the start of the map |
| GuardLoops.SampleBoxedAsWritten | js/day06/guardMap.js:197-213 | on `.#.`/`#^#`/`...` the search marks (2,1), and `checkLoop` as written never returns on the marked map |
| GuardLoops.SampleBoxedCorrected | js/day06/guardMap.js:151-195 | the counted check reports the loop on that marked map |
| GuardLoops.PathCells | js/day06/guardMap.js:200-204 | the cells kept are exactly the path's cells other than the start's |
| GuardLoops.MarkedMap | js/day06/guardMap.js:208 | marking a candidate cell keeps the map rectangular and the start where it was |
| GuardLoops.KeepLoops | js/day06/guardMap.js:206-210 | the `filter` keeps exactly the cells whose obstruction makes a loop, in order |
| GuardLoops.FindAllMembers | js/day06/guardMap.js:197-213 | an obstruction is found if and only if it is a path cell, not the start, inside the map, and makes the guard loop |
| GuardLoops.FindAllDistinct | js/day06/guardMap.js:205 | no obstruction is found twice |
| GuardLoops.FindAllSorted | js/day06/guardMap.js:211 | the obstructions are ordered by row, and within a row by column |
| GuardLoops.MakesLoopNeverLeaves | js/day06/guardMap.js:206-210 | an obstruction makes a loop exactly when the guard then never leaves the map |
| GuardLoops.SampleFindAll | js/day06/guardMap.js:197-213 | on `.#.`/`#^#`/`...` the corrected search finds the one obstruction (2,1) |

## Left out

- Reading files, the `index.js` entry points, `inspect` logging, timing through `performance` and `Date`, and the commented-out measurements (js/day06/guardMap.js:123-149, 155, 160, 182) are I/O. They are left out.
- The `parse…File` functions are modelled only from the file's text onward. `parseInt`, and the splitting of a line into numbers, are not modelled. For day 5, the rules arrive as pairs of numbers and the updates as lists of numbers.
- JavaScript numbers are doubles, which round integers beyond 2^53. The model uses unbounded integers. It therefore matches the source exactly only while every level, location, operand, product and sum stays within ±2^53; beyond that the source loses precision and the model does not.
- Day 4 works on the map of lines that `parseWordSearchFile` builds. It is modelled as a list of lines, possibly ragged; a missing cell is `undefined`, here `None`. Soundness and completeness of the search are proved for rectangular grids only.
- The large samples are not restated: the 10×10 word search (js/day04/wordSearch.test.js:138-188), the 10×10 guard maps (js/day06/guardMap.test.js:171-205) and the day 3 parse sample (js/day03/programMemory.test.js:7-32).
- Not restated for day 5:
  - the parse samples (js/day05/safetyManualUpdates.test.js:9-42);
  - the audits of the three ordered updates and of `61,13,29` (js/day05/safetyManualUpdates.test.js:47-111, 134-155);
  - the sample corrected orders;
  - the checksums 143 and 123 (js/day05/safetyManualUpdates.test.js:194-220).
  Only the errors and `isOk` of two sample updates, and the sample middle pages, are proved.
- LocationList.TotalDistance requires its two lists to have the same length. The source always calls it with the columns that `_.unzip` makes from the parsed lines (js/day01/locationList.js:15, 20-24). `unzip` makes every column as long as the number of lines, so the columns are always equally long; the `undefined` it pads a short line with is not modelled.
- Strings: Dafny indexes a `string` by Unicode scalar values, while JavaScript indexes UTF-16 code units. This matters in `_.map(line, …)` (js/day04/wordSearch.js:15), `for…in` over a line (js/day06/guardMap.js:29) and `substring` (js/day06/guardMap.js:119). Columns differ only for characters outside the Basic Multilingual Plane, which the model does not distinguish.
- GuardMap.TraceGuardPath: the source loops for ever when the guard never exits. The method takes a ghost iteration bound `fuel` and requires the exit to be reached within it. It also requires a `^` in the map: without one, `getInitialPosition` returns `undefined` and `guardIsExiting` throws on `undefined.row` (js/day06/guardMap.js:28-44). It requires the declared height to equal the number of lines, which the parser always sets with `_.size(map)` (js/day06/guardMap.js:21); other heights are not modelled.
- GuardLoops.CheckLoop, GuardLoops.CheckLoopAsWritten, GuardLoops.MakesLoop and GuardLoops.FindAllPossibleLoopObstructions require a `^` in the map. Without one, `checkLoop` throws on `undefined.row` when it reaches `guardIsExiting` (js/day06/guardMap.js:44, 159). `findAllPossibleLoopObstructions` throws at js/day06/guardMap.js:202 as soon as the path has an entry. With an empty path and no `^` it returns `[]` (js/day06/guardMap.js:198-212), and the model does not cover that input. The path the source passes always comes from `traceGuardPath`, which itself needs a `^`. All but CheckLoopAsWritten also require a rectangular map: the parser's height, and every line as wide as the first (js/day06/guardMap.js:21-22). FindAllPossibleLoopObstructions moreover requires the path's cells to lie inside the map, and MakesLoop requires its cell to be a candidate: inside the map and not the start. The source makes no such checks; on a ragged map its reads go past the shorter lines.
- GuardLoops.FindAllPossibleLoopObstructions: `orderBy(['row','col'])` is modelled as a stable sort by column followed by a stable sort by row. That gives the same order.

## Findings

| source | as written | input that shows it | evidently intended | confidence | as-written member | corrected member |
|---|---|---|---|---|---|---|
| js/day06/guardMap.js:151-195 | `checkLoop` only records states after a step. A guard whose obstruction boxes it in on its start cell turns right for ever, and `findAllPossibleLoopObstructions` never returns. | The map `.#.`, `#^#`, `...`: the path steps down to (2,1), and marking (2,1) with `#` boxes in the start. | Report a loop once the guard has turned four times in a row: a boxed-in guard never leaves. | not executed | GuardLoops.SampleBoxedAsWritten | GuardLoops.CheckLoop |
