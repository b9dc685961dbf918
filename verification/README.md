# Advent of Code 2024, days 1–4 and 6, in Dafny

This project models five puzzle solutions as pure Dafny functions and proves what
they compute.

- **Day 1, list distance.** The input holds two columns of numbers. Each column is
  sorted. Part 1 sums the distances between paired entries. Part 2 weighs each left
  number by how often it occurs on the right.
- **Day 2, report safety.** A report is safe when its levels change by one to three
  at every step, always in the same direction. Part 2 also accepts a report that
  becomes safe once one level is removed.
- **Day 3, corrupted memory.** A left-to-right scan finds `mul(A,B)` instructions
  with one to three digits per operand. Part 1 sums their products. Part 2 also
  recognises `do()` and `don't()`, which switch the following multiplications on and
  off.
- **Day 4, word search.** Part 1 counts "XMAS" along the eight straight readings
  from every cell. Part 2 counts cells that centre two diagonal "MAS" in an X.
- **Day 6, guard patrol.** A guard walks a rectangular map. In front of an
  obstruction it turns right once, then steps. It stops when it leaves the map. The
  program reports how many positions it visited.

Shared pieces:

| file | contents |
|---|---|
| `wrappers.dfy` | the `Option` and `Result` types |
| `decimal.dfy` | decimal digit strings and their values |
| `text.dfy` | substring search and `str.split` |
| `counting.dfy` | counting the elements that pass a test, as `sum(test(x) for x in xs)` does |
| `numbers.dfy` | the absolute value, as Python's `abs` |

Each puzzle has one module:

| file | module |
|---|---|
| `list_distance.dfy` | `ListDistance` |
| `reports.dfy` | `ReportSafety` |
| `memory_scanner.dfy` | `MemoryScanner` |
| `word_search.dfy` | `WordSearch` |
| `patrol.dfy` | `GuardPatrol`, and the worked example in `GuardPatrolScenarios` |

Python's `while` loop over the patrol is modelled as a function with a fuel bound,
because it need not terminate. Its result is `OutOfFuel` when the bound runs out
first. Every other operation is total.

## Model

| member | source | states |
|---|---|---|
| ListDistance.ParseShow | day_01.py:11-12 | `int` reads back the canonical decimal text of every integer, negative numbers and zero included |
| ListDistance.ParseLineShow | day_01.py:10-12 | a line written as two numbers joined by three spaces parses back to exactly that pair |
| ListDistance.ParseLine | day_01.py:10-12 | a parsed line consists of two number texts joined by the three-space separator |
| ListDistance.ParseColumns | day_01.py:6-12 | a successful parse gives two columns of equal length, and a failure names a line of the input |
| Text.JoinSplit | day_01.py:10 | splitting on a separator loses nothing: joining the pieces with the separator gives back the line |
| ListDistance.ParseColumnsCounts | day_01.py:6-12 | each non-empty line adds exactly one number to each column, and empty lines add none |
| ListDistance.ParseColumnsError | day_01.py:6-12 | parsing fails at the first non-empty line that does not split into two numbers, and every earlier line is empty or parses |
| ListDistance.ParseRender | day_01.py:6-12 | parsing the text rendered from two equal-length columns gives back those columns in order |
| ListDistance.Sort | day_01.py:14-15 | sorting gives an ascending list with the same elements and the same multiplicities |
| ListDistance.SortedUnique | day_01.py:14-15 | two ascending lists with the same elements are equal, so the sorted column is uniquely determined |
| ListDistance.PairDistance | day_01.py:17 | the summed pair distance is zero exactly when the paired entries agree up to the shorter length, which is where `zip` stops |
| ListDistance.PartOneIgnoresOrder | day_01.py:14-19 | the total distance depends only on the multiset of each column |
| ListDistance.PartOneZeroIffSameNumbers | day_01.py:14-19 | for equal-length columns, the distance is zero exactly when both columns hold the same numbers with the same multiplicities |
| ListDistance.Occurrences | day_01.py:21-22 | a missing key counts as zero, and otherwise each number's count is its multiplicity on the right |
| ListDistance.SimilarityRemoveAt | day_01.py:22 | every left entry contributes its value times its count on the right, independently of the others |
| ListDistance.AbsentContributesNothing | day_01.py:22 | a left number absent on the right changes nothing |
| ListDistance.PartTwoIgnoresOrder | day_01.py:21-22 | the similarity score depends only on the multisets of the two columns |
| ListDistance.SimilaritySymmetric | day_01.py:21-22 | weighing left by right gives the same total as weighing right by left |
| ReportSafety.LevelDiffs | day_02.py:14 | there is one difference per adjacent pair, and each is the later level minus the earlier one |
| ReportSafety.IsSafe | day_02.py:13-19 | reports of zero or one level are safe, because every check is vacuous |
| ReportSafety.SafeIffGradual | day_02.py:13-19 | a report is safe exactly when every step rises by 1..3 or every step falls by 1..3 |
| ReportSafety.SafeIsStrictlyMonotonic | day_02.py:13-19 | the levels of a safe report are strictly increasing or strictly decreasing |
| ReportSafety.RemoveLevel | day_02.py:31 | removing index k keeps every other level, in order |
| ReportSafety.SomeRemovalSafe | day_02.py:30-34 | the loop succeeds exactly when some index at or after the start can be removed to leave a safe report |
| ReportSafety.IsTolerable | day_02.py:26-34 | a report counts in part 2 exactly when it is safe or some single removal makes it safe |
| ReportSafety.TolerableIffSomeRemovalSafe | day_02.py:26-34 | for a non-empty report, the separate safety check is redundant: tolerable means some single removal leaves it safe |
| ReportSafety.PartOneAtMostPartTwo | day_02.py:22-36 | part 1 never exceeds part 2, and neither exceeds the number of reports |
| Counting.CountWhere | day_02.py:22-34 | each report adds at most one to a count, so a count never exceeds the number of reports, and it is positive exactly when some report passes |
| MemoryScanner.OperandLength | day_03.py:6 | an operand is one to three digits followed by its closing character |
| MemoryScanner.MulAt | day_03.py:6 | a match spans at least eight characters, and both operands are one to three digits |
| MemoryScanner.MulAtSound | day_03.py:6 | every match is exactly the text "mul(", digits, ",", digits, ")" |
| MemoryScanner.MulAtComplete | day_03.py:6 | wherever such a text starts, the pattern matches it with those operands and ends just after it |
| MemoryScanner.LongOperandNeverMatches | day_03.py:6 | four digits after "mul(" never match, because an operand holds at most three |
| MemoryScanner.ScanWithoutSwitchesOnlyMuls | day_03.py:9 | the part 1 scan yields only multiplications |
| MemoryScanner.ScanSkipsNoMul | day_03.py:9 | a stretch without an "m" contributes no token |
| MemoryScanner.SwitchesKeepMuls | day_03.py:9-20 | adding the `do()`/`don't()` alternatives leaves the multiplications found, and their order, unchanged |
| MemoryScanner.DontOnlyFromText | day_03.py:16-20 | a `don't` token arises only where the text "don't()" occurs |
| MemoryScanner.ScanOperandsAtMost999 | day_03.py:6-10 | every operand found is at most 999 |
| MemoryScanner.PartOne | day_03.py:8-11 | the part 1 sum is at most 999 × 999 per instruction found |
| MemoryScanner.LatchSum | day_03.py:18-27 | the latch sum never exceeds the full sum of products, and equals it when it starts on and meets no `don't` |
| MemoryScanner.LatchSumIsGatedSum | day_03.py:18-27 | the latch loop adds exactly the products of the multiplications whose nearest preceding switch is `do()` or absent |
| MemoryScanner.PartTwoAtMostPartOne | day_03.py:8-29 | part 2 is at most part 1, and equals it when the memory contains no "don't()" |
| Decimal.ValueOfDigits | day_03.py:10 | the digits written for a number denote that number |
| Decimal.ValueBound | day_03.py:10 | n digits denote less than 10 to the n |
| WordSearch.Load | day_04.py:12-21 | the rows are exactly the non-empty lines, and an input without blank lines is kept as it is; a single line gives one row, or none when it is blank |
| WordSearch.LoadAppend | day_04.py:12-21 | loading an input is loading its parts one after the other, so the rows keep the order and the multiplicity of the non-blank lines |
| WordSearch.ValuesFor | day_04.py:31-36 | positions off the grid are dropped, and the result is complete exactly when every position is on the grid, in which case entry i is the letter at position i |
| WordSearch.ValuesForReverse | day_04.py:31-36 | dropping off-grid positions commutes with reading the positions backwards |
| WordSearch.Positions | day_04.py:38-68 | each reading visits len cells, the i-th at the start plus i times the reading's step |
| WordSearch.MatchesIffSpells | day_04.py:84-86 | the clipped comparison succeeds exactly when every letter of the word lies on the grid at its cell along the reading |
| WordSearch.ReadOppositeIsReverse | day_04.py:38-68 | reading a line backwards from its far end gives the forward letters reversed |
| WordSearch.CrossDiagonalsReverse | day_04.py:99-106 | each backward diagonal that the X test compares is the reverse of its forward partner |
| WordSearch.CountWordAt | day_04.py:70-88 | at most eight readings match at a cell, and at least one does exactly when some reading matches |
| WordSearch.CountWordAtIsSpellingDirections | day_04.py:70-88 | the count at a cell is the number of distinct directions in which the word is spelled there |
| WordSearch.XMasCrossIff | day_04.py:90-110 | a cell centres an X exactly when it holds 'A' and the ends of both diagonals are on the grid and hold one 'M' and one 'S' |
| WordSearch.PartOne | day_04.py:115-119 | part 1 is at most eight per cell of the grid |
| WordSearch.PartOneCountsSpellings | day_04.py:115-119 | part 1 is the number of (cell, direction) pairs from which "XMAS" is spelled in full |
| WordSearch.PartTwo | day_04.py:122-126 | part 2 is at most one per cell of the grid |
| WordSearch.PartTwoCountsCrosses | day_04.py:122-126 | part 2 is the number of cells of the grid that centre an X-shaped "MAS" cross |
| GuardPatrol.Point.AddDelta | day_06.py:11-12 | the translated point differs from the original by exactly (dx, dy) |
| GuardPatrol.Direction.FromValue | day_06.py:25-29 | each enumeration value 0..3 names the heading with that value |
| GuardPatrol.Direction.Movement | day_06.py:31-39 | every heading moves by one unit step along one axis |
| GuardPatrol.Direction.RotateRight | day_06.py:42-45 | turning right adds one to the value modulo 4 and turns the movement vector a quarter turn clockwise |
| GuardPatrol.RotateFourTimes | day_06.py:42-45 | four right turns give back the original heading |
| GuardPatrol.TurnAroundReversesMovement | day_06.py:31-45 | two right turns reverse the movement vector |
| GuardPatrol.Step | day_06.py:70-75 | the guard keeps its heading exactly when the cell ahead is free, and otherwise turns right once; in both cases it moves one cell along its new heading |
| GuardPatrol.Patrol | day_06.py:61-76 | a finished run leaves the guard off the map within the allowed passes and only adds to the visited set; after at least one pass the final, off-map position is in the visited set; a run that starts off the map changes nothing |
| GuardPatrol.PatrolExitsAtFirstExit | day_06.py:61-76 | a finished run stops at the first pass that leaves the guard off the map, and its visited set is exactly the given set plus every position moved into on the way |
| GuardPatrol.PatrolReachesFirstExit | day_06.py:69-76 | with enough fuel, the run ends at the first exit, with every cell moved into added to the visited set |
| GuardPatrol.VisitedCountIsCellsEntered | day_06.py:61-78 | the reported count is the number of distinct on-map cells moved into, and the start cell is among them only if the guard came back to it |
| GuardPatrol.DistinctPositionsCountsStart | day_06.py:61-78 | the corrected count is the number of distinct on-map cells the guard occupied, the start cell included |
| GuardPatrol.EnteredAvoidsObstructions | day_06.py:70-75 | while the guard is never boxed in, it never moves onto an obstruction |
| GuardPatrol.UnobstructedNorthCount | day_06.py:58-78 | on an empty map, a guard facing north is reported to visit start.y cells, while it occupies start.y + 1 |
| GuardPatrol.EdgeExitCount | day_06.py:58-78 | a guard that steps straight off the map is reported as visiting 0 positions, though it occupied 1 |
| GuardPatrol.Parse | day_06.py:88-107 | the guard starts at a '^' and no later cell in reading order holds one; the obstructions are exactly the '#' cells; width is the first line's length, height the number of lines; the guard faces north; a map without '^' is rejected |
| GuardPatrolScenarios.CrossScenario | day_06.py:58-109 | on the cross-shaped map the count as written is 2, while the guard occupies 3 distinct cells |
| GuardPatrolScenarios.BoxedGuardStepsOntoObstruction | day_06.py:70-75 | a guard with obstructions ahead and to its right turns once and steps onto an obstruction |

## Left out

- File reading, `print` and `splitlines` are not modelled. Each model starts from the list of lines, or from the parsed data.
- ListDistance.ParseInt: accepts only an optional sign followed by the ASCII digits '0' to '9'. Python's `int` also strips whitespace, allows `_` between digits, and accepts the decimal digits of other scripts, so that `int("٤٢")` is 42. The model rejects all three. Whitespace and `_` cannot occur inside a field split on three spaces in well-formed input; other scripts' digits are outside the puzzle's input alphabet.
- Python's `\d` also matches non-ASCII decimal digits. The day 3 model accepts ASCII digits only.
- Day 2 parsing (`row.split()` and `int`) is not modelled. That model starts from the list of reports.
- Day 3's `strip()` of the input is not modelled, because trailing whitespace cannot form part of an instruction.
- GuardPatrol.Patrol: the loop is bounded by fuel and returns `OutOfFuel` when the bound runs out. Guards caught in a cycle never leave, so the Python loop need not terminate; those runs are not characterised further.
- `Point.__eq__` also compares with tuples and raises `ValueError` for other types. The model uses structural equality on points. The program only ever compares points with points.
- `t.assert_never` in `get_movement` cannot be reached, because the `Direction` datatype has exactly four cases.
- `Counter` and `list.sort` are modelled by what they compute, not by their implementation. The count is a multiset multiplicity. The sort is an insertion sort whose result is proved to be the unique ascending permutation.
- Word search on a ragged or empty grid is not modelled. Python's `width` raises `IndexError` when there are no rows, and so does reading a cell of a row shorter than the first. The word-search operations therefore require `WordPuzzle.Valid`: there is a first row and no row is shorter than it. That is exactly the case where the code does not raise.
- Day 4's totals are summed row by row, while the Python generators take the column as the outer loop. The order does not change a sum of naturals. `WordSearch.PartOneCountsSpellings` and `WordSearch.PartTwoCountsCrosses` state each total as the size of a set, which has no order.
- Python's `assert guard_initial_pos is not None` becomes the `MissingGuard` error of `GuardPatrol.Parse`.

## Findings

| source | as written | input that shows it | evidently intended | confidence | as-written member | corrected member |
|---|---|---|---|---|---|---|
| day_06.py:61-78 | `visited` starts empty and collects only the cells moved into. `len(visited) - 1` then discounts the final off-map cell, so the start cell is missed unless the guard returns to it. | `[".....", "..#..", "..^..", "..#..", "....."]`: the guard occupies (2,2), (3,2) and (4,2), then leaves. The code as written counts 2. | 3, the distinct positions the guard occupied, the start included | not executed | GuardPatrol.VisitedCountIsCellsEntered, with the counterexample GuardPatrolScenarios.CrossScenario | GuardPatrol.DistinctPositionsCountsStart |
