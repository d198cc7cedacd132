# Advent of Code 2024 solutions, days 1, 2, 4, 5 and 6, as a Dafny model

This project models the puzzle-solving logic of five of the repository's
daily solutions and proves what each one computes.

- **Page ordering** (`page_ordering.dfy`, module `PageOrdering`, day 5):
  - Checks an update (a list of page numbers) against `before|after` precedence rules.
  - Repairs an incorrect update in place, by swapping the two pages of each violated rule until no rule is violated.
  - Adds up the middle pages of the correct updates (part 1) and of the repaired incorrect ones (part 2).
- **Guard walk** (`guard_path.dfy`, module `GuardWalk`, day 6): the class `GuardPath` holds a character map.
  - It finds the guard: the first arrow in row-major order.
  - It walks the guard forward, turning right in front of a `#`, until its next step would leave the map.
  - It counts the distinct cells the guard stood on.
- **Word search** (`word_search.dfy`, module `WordSearch`, day 4): counts the (start cell, direction) pairs from which a word is spelt, over the eight directions of a rectangular letter grid.
- **Report safety** (`report_safety.dfy`, module `ReportSafety`, day 2):
  - A report is safe when its levels change by 1 to 3 at every step, always in the same direction.
  - The dampener also accepts a report that becomes safe once one level is dropped.
  - Both counting loops are modelled.
- **List distance and similarity** (`list_distance.dfy`, module `ListDistance`, day 1):
  - The distance pairs the sorted lists element by element and adds up the gaps.
  - The similarity score weighs each value of the first list by how often it occurs in the second.

`wrappers.dfy` holds `Option` and `Result`. `collections.dfy` holds a sequence reversal and a set-size lemma shared by the modules.

The model follows the code's own behaviour:

- **Python exceptions are values.**
  - `list.index` raising `ValueError` becomes `None`.
  - The guard missing from the map becomes `Failure(GuardNotPresent)`.
  - `max` of an empty difference array becomes `None`, and so does `target_word[0]` on an empty word.
  - `.values` on the integer 0 becomes `None`.
- **Loops that can run forever take a step budget.**
  - The repair loop of `correct_update` takes `passes`; it can loop forever on cyclic rules.
  - The guard's `while` loop in `count_route` takes `fuel`; it can loop forever when the guard walks in a circle.
  - When the budget runs out, the result says so (`None`, `Failure(StillWalking)`).
  - The contracts then describe what a finished run computes.

## Model

| member | source | states |
|---|---|---|
| PageOrdering.IndexOf | day05/day05.py:47 | `list.index`: no position exactly when the page is absent (the `ValueError`), otherwise a position holding the page |
| PageOrdering.IndexOfIsFirst | day05/day05.py:47 | the position found is the first occurrence of the page |
| PageOrdering.UpdateIsCorrect | day05/day05.py:42-52 | true exactly when no rule has both pages present with the first index of `rule[0]` after the first index of `rule[1]`; rules with a missing page are ignored, so no rules or an empty update give true |
| PageOrdering.RepairStep | day05/day05.py:67-72 | defines one turn of the inner loop: a violated rule writes `before` where the first `after` stood and `after` where the first `before` stood, and any other rule leaves the update alone; `RepairStepPermutes` and `RepairStepFixesRule` state its properties |
| PageOrdering.RepairPass | day05/day05.py:66-72 | defines one pass of `for rule in rules`: the steps applied in rule order, each to the list the previous one left; `RepairPassPermutes` and `RepairPassInPlace` state its properties |
| PageOrdering.Repair | day05/day05.py:65-73 | defines the `while` loop: the update itself once it is ordered, otherwise another pass, and nothing once `passes` runs out; `RepairSound`, `RepairOfOrderedIsIdentity` and `RepairMonotone` state its properties |
| PageOrdering.Middle | day05/day05.py:91 | defines the middle page `update[floor(len / 2)]` of a non-empty update; `RepairedContribution` and `PartsAfterRepair` use it |
| PageOrdering.RepairStepPermutes | day05/day05.py:66-72 | one swap step keeps the length and the multiset of pages |
| PageOrdering.RepairStepFixesRule | day05/day05.py:66-72 | after the swap step for a rule, that rule is no longer violated |
| PageOrdering.RepairPassPermutes | day05/day05.py:66-72 | a whole `for rule in rules` pass is a permutation of the update |
| PageOrdering.RepairSound | day05/day05.py:65-73 | a finished repair satisfies every rule and is a permutation of the original update of the same length |
| PageOrdering.RepairOfOrderedIsIdentity | day05/day05.py:65-73 | an update that is already correct is returned unchanged, with no pass run |
| PageOrdering.RepairUnroll | day05/day05.py:65-72 | one turn of the `while` loop: an incorrect update gets one pass and the loop continues on the result |
| PageOrdering.RepairMonotone | day05/day05.py:65-72 | a repair that finishes within some budget gives the same result under any larger budget |
| PageOrdering.RepairPassInPlace | day05/day05.py:66-72 | the array after one in-place pass holds the pass applied to its old contents |
| PageOrdering.CorrectUpdate | day05/day05.py:55-73 | the in-place repair finishes exactly when the repair does within the budget, leaves the repaired list in the array, and always leaves a permutation of the old contents |
| PageOrdering.GetTotalSumMiddleCorrectUpdates | day05/day05.py:76-92 | the total is the sum of `update[len/2]` over exactly the correct updates |
| PageOrdering.CorrectStoredUpdate | day05/day05.py:108-112 | repairing one stored update yields the middle page it contributes to part 2 (nothing for a correct update), and the array then holds its repair |
| PageOrdering.CorrectUpdateAt | day05/day05.py:108-112 | one turn of the part-2 loop: the contribution of update `i` and its repaired list |
| PageOrdering.GetTotalSumMiddleCorrectedUpdates | day05/day05.py:95-113 | the total is the sum of the repaired middle pages over exactly the incorrect updates, and every returned list is the finished repair of its update |
| PageOrdering.RepairedAllPermutes | day05/day05.py:108-111 | every list part 2 leaves behind is a permutation of the update it replaced |
| PageOrdering.RepairedContribution | day05/day05.py:88-92 | a finished repair is non-empty and correct, and its middle page is what part 1 counts for the original plus what part 2 counts for it |
| PageOrdering.PartsAfterRepair | day05/day05.py:88-113 | after part 2 every stored update is correct, and part 1 on the repaired lists equals part 1 plus part 2 on the originals |
| GuardWalk.Step | day06/day06.py:24 | defines the `DIRECTION_MAP` entries: up, right, down and left as (row, column) steps of one cell; `NextDirection` states that turning rotates this step clockwise |
| GuardWalk.HeadingIndex | day06/day06.py:24 | each heading's position in the key order of `DIRECTION_MAP` |
| GuardWalk.GuardPath.constructor | day06/day06.py:26-30 | the map, its row count and its column count are stored |
| GuardWalk.GuardPath.IsEnd | day06/day06.py:47-57 | true exactly when the position is off the map |
| GuardWalk.GuardPath.NextDirection | day06/day06.py:59-69 | the next key in `DIRECTION_MAP` order is a right turn: a different heading whose step is the old step rotated clockwise |
| GuardWalk.GuardPath.FourTurnsRestoreHeading | day06/day06.py:66-69 | four right turns face the guard the original way (the `% len` wrap-around) |
| GuardWalk.GuardPath.ScanRow | day06/day06.py:42-44 | the first arrow at or after column `j` of row `i`, with no arrow before it |
| GuardWalk.GuardPath.ScanRows | day06/day06.py:41-45 | the first arrow in row-major order from row `i` on |
| GuardWalk.GuardPath.StartPoint | day06/day06.py:41-45 | the start is an arrow with no arrow before it in row-major order, and there is none exactly when the map has no arrow |
| GuardWalk.GuardPath.FindStartPoint | day06/day06.py:32-45 | the nested scan returns that first arrow |
| GuardWalk.GuardPath.Advance | day06/day06.py:85-95 | one turn of the loop either steps forward keeping the heading or stays and turns right, and it keeps the heading exactly when the cell ahead is not `#`; a guard on a free cell stays on a free cell |
| GuardWalk.GuardPath.Walk | day06/day06.py:84-95 | defines the rest of the `while` loop: the visited cells once the next step leaves the map, nothing when `fuel` runs out first; `WalkRoute`, `WalkStaysOnFloor` and `WalkMonotone` state its properties |
| GuardWalk.GuardPath.Route | day06/day06.py:79-96 | defines count_route's outcome: no guard, still walking, or the number of distinct cells the walk visits from the start arrow; `CountRoute`, `RouteBounds` and `RouteNeedsGuard` state its properties |
| GuardWalk.GuardPath.WalkUnroll | day06/day06.py:84-95 | one turn of the `while` loop, stated on the walk |
| GuardWalk.GuardPath.WalkRoute | day06/day06.py:79-95 | the loop's set of positions is the walk's set of visited cells |
| GuardWalk.GuardPath.CountRoute | day06/day06.py:71-96 | `count_route` returns the route's outcome: no guard, not finished within the budget, or the number of distinct cells visited |
| GuardWalk.GuardPath.WalkStaysOnFloor | day06/day06.py:84-95 | every visited cell is on the map and not an obstacle |
| GuardWalk.GuardPath.WalkMonotone | day06/day06.py:84-95 | a walk that finishes within a budget has the same result under any larger budget |
| GuardWalk.GuardPath.RouteBounds | day06/day06.py:82-96 | a finished route counts at least the start cell and at most every cell of the map |
| GuardWalk.GuardPath.RouteNeedsGuard | day06/day06.py:41-45 | the route fails for lack of a guard exactly when no cell holds an arrow |
| WordSearch.SpellsAt | day04/day04.py:43-99 | the word is spelt from a cell in a direction exactly when letter `k` is on the cell `k` steps away, for every `k` |
| WordSearch.Read | day04/day04.py:45-99 | the letters read along a direction, letter `k` from the cell `k` steps away |
| WordSearch.ReadSpells | day04/day04.py:43-99 | when the last cell is on the grid, the read letters equal the word exactly when the word is spelt; otherwise the word is not spelt |
| WordSearch.BoundsTests | day04/day04.py:44-95 | each of the source's bounds tests holds exactly when the word's last cell in that direction is on the grid |
| WordSearch.ReadDirection | day04/day04.py:45-99 | reading one direction adds 1 exactly when the word is spelt there |
| WordSearch.CountAtCell | day04/day04.py:43-99 | the nested bounds tests from one cell count exactly the directions that spell the word |
| WordSearch.CountDirsIsSize | day04/day04.py:43-99 | the per-direction count is the size of the set of matching directions, at most eight |
| WordSearch.NoMatchesWithoutFirstLetter | day04/day04.py:40-41 | a cell without the first letter is skipped and holds no match |
| WordSearch.FindCountTargetWord | day04/day04.py:21-101 | the count is the number of (cell, direction) pairs that spell the word; an empty word on a grid with cells raises |
| WordSearch.NoFirstLetterNoMatch | day04/day04.py:40-41 | a grid without the first letter holds no match |
| WordSearch.MatchSetBound | day04/day04.py:38-99 | at most eight matches per cell |
| WordSearch.OneLetterCountedEightTimes | day04/day04.py:43-99 | a one-letter word is counted eight times on each cell holding it, once per direction |
| WordSearch.FlipSpells | day04/day04.py:43-99 | a word spelt in one direction is, read from its last cell in the opposite direction, the reversed word |
| WordSearch.FlipMatches | day04/day04.py:43-99 | every match of a word gives a match of the reversed word |
| WordSearch.ReverseWordSameCount | day04/day04.py:21-101 | a word and its reverse are found equally often |
| ReportSafety.Diffs | day02/day02.py:33 | `line[1:] - line[:-1]`: one difference per neighbouring pair, none for fewer than two levels |
| ReportSafety.AbsAll | day02/day02.py:35 | `np.abs` elementwise |
| ReportSafety.SignAll | day02/day02.py:34 | `np.sign` elementwise |
| ReportSafety.Max | day02/day02.py:35 | `max` is an element and bounds every element |
| ReportSafety.Min | day02/day02.py:38 | `min` is an element and is bounded by every element |
| ReportSafety.SafeBySteps | day02/day02.py:33-42 | a report is safe exactly when its differences are all 1..3 or all -3..-1 |
| ReportSafety.MaxAbsTest | day02/day02.py:35-36 | the first test fails exactly when some step is larger than 3 |
| ReportSafety.MinAbsTest | day02/day02.py:38-39 | the second test fails exactly when some step is 0 |
| ReportSafety.SignTest | day02/day02.py:40-41 | with no step of 0, the third test passes exactly when all steps go up or all go down |
| ReportSafety.StepTests | day02/day02.py:35-42 | the three tests together accept exactly the safe differences |
| ReportSafety.IsSafeReport | day02/day02.py:24-42 | raises exactly on fewer than two levels; otherwise true exactly when every step is 1 to 3 in size and all steps have the same sign |
| ReportSafety.EqualNeighboursUnsafe | day02/day02.py:38-39 | two equal neighbouring levels make a report unsafe |
| ReportSafety.SafeReversed | day02/day02.py:33-42 | a safe report read backwards is safe: the steps negate |
| ReportSafety.ReverseKeepsSafety | day02/day02.py:33-42 | a report and its reverse get the same verdict |
| ReportSafety.RemoveAt | day02/day02.py:63 | the report without the level at `k`: one level fewer, the levels before `k` in place and the later ones moved down by one |
| ReportSafety.SafeAfterRemovalFrom | day02/day02.py:62-65 | defines the `for indx` loop from index `from`: the first removal whose report is safe wins, a removal that leaves too few levels raises, and none left gives false; `SafeAfterRemovalFromRaises` and `SafeAfterRemovalFromMeans` state its properties |
| ReportSafety.DampenedSafe | day02/day02.py:57-65 | defines the second loop's verdict on one report: the plain verdict when it is true or raises, otherwise the removal loop from index 0; `DampenedSafeMeans` states its meaning |
| ReportSafety.SafeAfterRemovalFromRaises | day02/day02.py:62-63 | the removal loop raises exactly when it still has a removal to make on a report of one or two levels; on an empty report it makes none and does not raise |
| ReportSafety.SafeAfterRemovalFromMeans | day02/day02.py:62-65 | otherwise the loop succeeds exactly when dropping some level at or after `indx` leaves a safe report |
| ReportSafety.DampenedSafeMeans | day02/day02.py:57-65 | the dampener accepts a report exactly when it is safe or one removal makes it safe, and raises on fewer than two levels and on an unsafe pair |
| ReportSafety.CountAccepted | day02/day02.py:48-51 | defines a counting loop over the reports for a given verdict: one more for each accepted report, and a raise as soon as a verdict raises; `CountAcceptedStep`, `CountAcceptedRaises` and `CountAcceptedBound` state its properties |
| ReportSafety.CountAcceptedStep | day02/day02.py:49-51 | one turn of a counting loop adds 1 exactly for an accepted report |
| ReportSafety.CountAcceptedRaises | day02/day02.py:49-50 | a report on which the test raises makes the count raise |
| ReportSafety.CountSafeReports | day02/day02.py:48-51 | the first total is the number of safe reports |
| ReportSafety.SafeAfterOneRemoval | day02/day02.py:62-65 | the `for indx` loop with its `break` computes the removal verdict |
| ReportSafety.CountDampenedReports | day02/day02.py:57-65 | the second total is the number of reports the dampener accepts |
| ReportSafety.CountAcceptedBound | day02/day02.py:57-65 | each report is counted at most once, so a total never exceeds the number of reports |
| ReportSafety.DampenedCountsMore | day02/day02.py:48-65 | wherever the dampened total exists, the plain total exists and is no larger |
| ListDistance.Insert | day01/day01.py:41 | insertion into a sorted list keeps it sorted and adds exactly the value |
| ListDistance.Sort | day01/day01.py:41 | `sorted`: an ascending permutation of the list |
| ListDistance.SortedUnique | day01/day01.py:41 | two ascending lists with the same values are equal, so `sorted` is determined by the multiset |
| ListDistance.SortOfPermutation | day01/day01.py:41 | reordering a list does not change its sorted form |
| ListDistance.ComputeListDistances | day01/day01.py:29-43 | the loop's total pairs the `i`-th smallest values of both lists, up to the shorter length, and adds `abs(a - b)` |
| ListDistance.ZipDistance | day01/day01.py:40-43 | walking two lists side by side, the total is the sum of `abs(a - b)` over the pairs `zip` forms, stopping at the shorter list |
| ListDistance.ListDistance | day01/day01.py:41-43 | defines the distance: both lists sorted, paired by position up to the shorter length, and the gaps `abs(a - b)` added; `ComputeListDistances`, `DistanceSymmetric`, `DistanceIgnoresOrder` and `DistanceZero` state its properties |
| ListDistance.PairedDistanceZero | day01/day01.py:41-43 | the paired gaps add up to 0 exactly when the paired lists are equal |
| ListDistance.PairedDistanceSymmetric | day01/day01.py:41-43 | swapping the paired lists leaves the sum of gaps unchanged |
| ListDistance.DistanceSymmetric | day01/day01.py:41-43 | the distance does not depend on which list comes first |
| ListDistance.DistanceIgnoresOrder | day01/day01.py:41 | reordering either list leaves the distance unchanged |
| ListDistance.DistanceZero | day01/day01.py:41-43 | two lists of equal length are at distance 0 exactly when they are equal as multisets |
| ListDistance.SortAppendLargest | day01/day01.py:41 | a largest value added to a list is sorted last |
| ListDistance.ExtraLargestIgnored | day01/day01.py:41-43 | `zip` stops at the shorter list: an extra largest value on the longer list does not change the distance |
| ListDistance.SimilarityScore | day01/day01.py:46-60 | raises exactly on an empty first list; otherwise the score is the sum, over every pair of equal values one from each list, of that value |
| ListDistance.WeightedSum | day01/day01.py:59 | defines the frequency-weighted sum: each value of the first list times the number of times it occurs in the second; `WeightedSumIsMatchingPairsSum` states it as a sum over pairs of equal values |
| ListDistance.WeightedSumAppend | day01/day01.py:59 | the weighted sum over two concatenated lists is the sum of the two weighted sums |
| ListDistance.WeightedSumPermutation | day01/day01.py:59 | reordering the first list leaves the weighted sum unchanged |
| ListDistance.WeightedSumCounts | day01/day01.py:58-59 | only how often each value occurs in the second list matters |
| ListDistance.SimilarityIgnoresOrder | day01/day01.py:58-60 | reordering either list leaves the score unchanged |
| ListDistance.AbsentValueAddsNothing | day01/day01.py:59-60 | a value absent from the second list contributes 0, wherever it stands in the first |
| ListDistance.MatchedSumCounts | day01/day01.py:58-59 | `l * count` is `l` added once per occurrence of `l` in the second list |
| ListDistance.WeightedSumIsMatchingPairsSum | day01/day01.py:59 | the weighted sum is the sum over all pairs of equal values, one from each list |
| ListDistance.SimilaritySymmetric | day01/day01.py:46-60 | with both lists non-empty, swapping them leaves the score unchanged |

## Left out

- The `read_input` / `read_input_list` functions and the `print` calls of every `solve_puzzle`: file reading and console output. The two counting loops of day 2's `solve_puzzle` are modelled.
- `day03/day03.py` is not part of this model. Its behaviour is that of Python's regular-expression engine.
- numpy and pandas are modelled by their effect on plain sequences:
  - numpy arrays become `seq<int>` or `seq<seq<char>>`.
  - `np.sign` and `np.abs` become elementwise functions.
  - The pandas row count becomes the multiplicity `multiset(list2)[l]`.
  - The int64 arithmetic of numpy is unbounded here. No overflow is modelled.
- `math.floor(len(update) / 2)` is the integer `|update| / 2`; no floating point is modelled.
- PageOrdering.CorrectUpdate: does not model non-termination. The `while` loop runs at most `passes` passes and reports whether it finished. On cyclic rules the source never returns; the model reports that the budget ran out.
- PageOrdering.GetTotalSumMiddleCorrectedUpdates: takes the updates as values, repairs each incorrect one in a fresh array, and returns the repaired lists as `corrected`. The source instead alters the caller's own lists through aliasing; that aliasing is not modelled, but the returned `corrected` is exactly what those lists would hold.
- PageOrdering.GetTotalSumMiddleCorrectUpdates: requires every update to be non-empty. An empty update is correct, and `update[0]` then raises; that error is not modelled. Part 2 needs no such condition, because an empty update is never repaired.
- GuardWalk.GuardPath.CountRoute: does not model non-termination. The `while` loop runs at most `fuel` turns. A guard that walks in a circle never stops in the source; here it gives `Failure(StillWalking)`.
- GuardWalk.GuardPath.constructor: requires a non-empty rectangular map, which is what a 2-D numpy character array is.
- WordSearch.FindCountTargetWord: requires a non-empty rectangular grid. On an empty list, `search_map[0]` raises; that error is not modelled.

`GuardPath`'s fields are `const`, because the source never reassigns them after `__init__`.
