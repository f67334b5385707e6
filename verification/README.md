# Advent of Code 2024 solutions, modelled in Dafny

This project models the solutions to the Advent of Code 2024 puzzles as
small, pure Dafny programs and proves what each one computes. Every puzzle
day is one module, named after the puzzle rather than the day number. Each
module takes the puzzle input already parsed: a grid of characters, a list of
numbers, a set of rules. Where the answer has a definition independent of the
algorithm, the module states it and proves that the program's algorithm
reaches it. The places where a contract stops short of that are listed under
"## Left out".

The centrepiece is the reindeer maze (`ReindeerMaze`, day 16). This is a
best-first search over (position, heading) states with three parts:

- a move costs 1 and each quarter turn costs 1000;
- candidates are pruned by an admissible estimate (Manhattan distance plus
  turn surcharges) against the best score found so far;
- a dominance record per (point, heading) keeps equal-cost ties.

The model proves two things about the search. The reported best score is no
greater than the cost of any start-to-goal walk that avoids walls. The
reported tiles are exactly the points of the minimum-cost walks.

The other searches and simulations are modelled the same way:

- trail heads (`HoofIt`, day 10);
- the byte-grid BFS (`RamRun`, day 18);
- both race-track cheat searches (`RaceCondition`, day 20, and
  `RaceCheats`, day 20 part 2);
- garden flood fill (`GardenGroups`, day 12);
- the guard walk and loop detection (`GuardWalk`, day 6);
- both box-pushing warehouses (`WarehouseWoes`, day 15, and
  `WideWarehouse`, day 15 part 2);
- the 3-bit computer (`ChronospatialComputer`, day 17);
- both disk compactors over an arena-backed doubly linked list
  (`DiskCompaction`, day 9, and `DiskDefrag`, day 9 part 2);
- the gate circuit (`CrossedWires`, day 24).

The remaining days are arithmetic and string puzzles:

- `ListDistance` (day 1);
- `ReportSafety` (day 2);
- `WordSearch` (day 4);
- `PrintQueue` (day 5);
- `BridgeRepair` (day 7);
- `Antennas` (day 8);
- `StoneBlinks` (day 11);
- `ClawMachines` (day 13);
- `TowelPatterns` (day 19);
- `Keypads` (day 21);
- `LanParty` (day 23);
- `LockFitting` (day 25).

Shared modules hold the common pieces:

- `Wrappers`: `Option`;
- `Geometry`: points, unit directions, Manhattan distance;
- `Grids`: character grids, bounds, lookup, first occurrence;
- `Decimal`: digits and number parsing;
- `Sorting`: insertion sort with a permutation proof;
- `Binary`: bit strings and exclusive or.

Conventions:

- Integers are unbounded.
- A Rust panic becomes `None` or an excluded precondition, whichever the
  source makes reachable.
- A loop whose termination depends on the shape of the input gets a `fuel`
  bound. Running out of fuel is a separate outcome that the contracts never
  confuse with an answer.

## Model

| member | source | states |
|---|---|---|
| Grids.Cells | day-16/src/main.rs:239-243 | the cells `iter_points` visits are exactly the on-map points |
| Grids.CharAt | day-16/src/main.rs:245-255 | the cell is `None` exactly for a point off the map |
| Grids.FindFirst | day-16/src/main.rs:21-25 | the found cell holds `c`, no on-map cell before it in row-major order does, and `None` means no cell holds `c` |
| Grids.FindFirstSameCells | day-16/src/main.rs:21-25 | the first occurrence of a character depends only on which cells hold it |
| Geometry.Manhattan | day-16/src/main.rs:273-275 | the distance is zero exactly between equal points |
| Geometry.ManhattanSymmetric | day-20/src/main.rs:267-269 | the distance is symmetric |
| Geometry.Triangle | day-20/src/main.rs:267-269 | the distance satisfies the triangle inequality |
| Geometry.DirsAreUnits | day-10/src/main.rs:41-42 | the four neighbour offsets tried are exactly the orthogonal unit steps |
| ListDistance.TotalDistance | day-01/src/main.rs:17-21 | `None` exactly when the second list is shorter than the first (the out-of-range `second[i]`) |
| ListDistance.PairwiseZero | day-01/src/main.rs:20-21 | the fold of absolute differences is 0 exactly when the compared prefixes are equal |
| ListDistance.DistancePermutationInvariant | day-01/src/main.rs:17-21 | the total distance depends on each list only through its multiset, because both are sorted first |
| ListDistance.DistanceSwap | day-01/src/main.rs:17-21 | for lists of equal length, exchanging the two lists leaves the total distance unchanged |
| ListDistance.DistanceZeroIffPermutation | day-01/src/main.rs:17-21 | two lists of equal length are at total distance 0 exactly when one is a permutation of the other |
| ListDistance.Frequencies | day-01/src/main.rs:28-33 | the frequency map has a key for exactly the values of the list, each mapped to its number of occurrences |
| ListDistance.SimilarityMatchesSpec | day-01/src/main.rs:35-37 | the score over the frequency map equals Σ v · (occurrences of v in the second list) over the first list, an absent value counting 0 |
| ListDistance.SimilarityOfDisjoint | day-01/src/main.rs:35-37 | the score is 0 when no value of the first list occurs in the second |
| ListDistance.SimilarityPermutationInvariant | day-01/src/main.rs:28-37 | reordering the second list does not change the score |
| ReportSafety.SafeIffGraduallyMonotone | day-02/src/main.rs:26-32 | the source's test (levels differ, every step goes the way of the first step, by at most 3) holds exactly when all steps rise by 1 to 3 or all fall by 1 to 3 |
| ReportSafety.RemoveAt | day-02/src/main.rs:40-43 | the result is one shorter, keeps the levels before `index` in place and shifts the later ones down by one |
| ReportSafety.DropFirstKeepsSafe | day-02/src/main.rs:34-38 | dropping the first level of a safe report leaves it safe |
| ReportSafety.DropLastKeepsSafe | day-02/src/main.rs:34-38 | dropping the last level of a safe, non-empty report leaves it safe |
| ReportSafety.OneRemovalIffSomeDeletion | day-02/src/main.rs:34-38 | a report passes the one-removal test exactly when it is gradually monotone or deleting one of its levels makes it so |
| WordSearch.MatchesFromIff | day-04/src/main.rs:81-94 | the recursive helper holds exactly when, for every remaining letter `k`, the cell `k - i` steps along `dxdy` holds `expected[k]` |
| WordSearch.XmasCount | day-04/src/main.rs:33-53 | the per-point count is at most 8 (one per direction) and is positive only when the point holds 'X' |
| WordSearch.XmasInDirection | day-04/src/main.rs:81-94 | a direction counts exactly when X, M, A, S lie at 0, 1, 2 and 3 steps along it |
| WordSearch.CharsAt | day-04/src/main.rs:119-132 | `None` exactly when some point is off the map; otherwise the cells in the order and number of the points |
| WordSearch.IsSamEitherWay | day-04/src/main.rs:55-62 | a three-letter bar is SAM or MAS exactly when its middle is 'A' and its ends are one 'M' and one 'S', whichever way it is read |
| WordSearch.CrossMasShape | day-04/src/main.rs:64-79 | an X-MAS point holds 'A', its four diagonal neighbours are on the map, and each diagonal pairs an 'M' with an 'S' |
| WordSearch.ShapeIsCrossMas | day-04/src/main.rs:64-79 | conversely, a point holding 'A' whose four diagonal neighbours are on the map, each diagonal pairing an 'M' with an 'S', is an X-MAS point |
| WordSearch.DiagonalReads | day-04/src/main.rs:64-79 | three on-map cells with 'A' in the middle and an 'M' and an 'S' at the ends read SAM or MAS |
| WordSearch.CountMatches | day-04/src/main.rs:33-53 | the count over the first `n` directions is at most `n`, and positive only when the point holds 'X' |
| PrintQueue.Reverse | day-05/src/main.rs:24-39 | the reversed rules map `y` to `x` exactly when the rules hold `x|y`, and no entry is empty |
| PrintQueue.LastIndex | day-05/src/main.rs:77-82 | `order_map` holds exactly the pages of the update, each at its last position |
| PrintQueue.IncorrectIff | day-05/src/main.rs:76-93 | an update is incorrect exactly when some page has a rule naming a page that occurs in the update only before it |
| PrintQueue.IncorrectIffRuleBroken | day-05/src/main.rs:76-93 | for an update without repeated pages: incorrect exactly when some rule `x|y` has `y` printed before `x` |
| PrintQueue.FirstReady | day-05/src/main.rs:64-68 | the chosen page is ready (no page it must follow is still to do); `None` means no page of the to-do list is ready |
| PrintQueue.Without | day-05/src/main.rs:69 | `retain` keeps exactly the other pages and shortens the list when the page was present |
| PrintQueue.Stuck | day-05/src/main.rs:64-71 | when the loop stops early, every unprinted page waits on another unprinted page of the update |
| PrintQueue.PutInOrder | day-05/src/main.rs:60-74 | the output repeats no page, holds only pages of the update, prints every page after each page of the update it must follow, and leaves out only pages waiting on other left-out pages |
| PrintQueue.PrintKeepsInvariant | day-05/src/main.rs:60-74 | printing a ready page keeps the to-do list equal to the unprinted pages, prints no page twice, and keeps every printed page after the pages of the update it must follow |
| GuardWalk.StepMovesOneCell | day-06/src/main.rs:162-170 | a step moves to an orthogonal neighbour and keeps the facing |
| GuardWalk.Rotate | day-06/src/main.rs:172-180 | a rotation stays on the cell and changes the facing |
| GuardWalk.RotateCycle | day-06/src/main.rs:172-180 | two right turns face backwards and four turns are no turn |
| GuardWalk.MakeObstructed | day-06/src/main.rs:82-86 | the new map has the same shape, a '#' at the chosen cell, and every other cell unchanged |
| GuardWalk.Next | day-06/src/main.rs:99-103 | one turn of the patrol steps when the cell ahead is free and turns right in place exactly when it is obstructed |
| GuardWalk.WalkAdd | day-06/src/main.rs:94-104 | walking `a` turns and then `b` turns is walking `a + b` turns |
| GuardWalk.RepeatCycles | day-06/src/main.rs:95-97 | once a state repeats, every later state is one seen before the repeat |
| GuardWalk.RepeatTraps | day-06/src/main.rs:95-97 | a walk that repeats a state before leaving the map never leaves it |
| GuardWalk.ResultsInLoop | day-06/src/main.rs:88-107 | the answer is `true` exactly when the guard starting north on '^' never leaves the map; `None` exactly when there is no '^' |
| GuardWalk.RepeatFound | day-06/src/main.rs:94-98 | meeting a visited state again means the guard is trapped |
| GuardWalk.VisitedPoints | day-06/src/main.rs:109-124 | the visited cells hold the start, lie on the map, and are exactly the cells of the turns before the guard leaves |
| GuardWalk.RouteCellsIff | day-06/src/main.rs:114-121 | a cell is on the route exactly when one of the turns stands on it |
| GuardWalk.VisitedMeansEscape | day-06/src/main.rs:109-124 | when the route is known, the guard escapes the unmodified map |
| GuardWalk.ObstructionKeepsStart | day-06/src/main.rs:74-86 | putting '#' on an empty cell keeps the start position |
| GuardWalk.IsTrapCell | day-06/src/main.rs:29-32 | a cell passes the filter exactly when it is empty and a '#' there traps the guard |
| GuardWalk.CountTrapCells | day-06/src/main.rs:26-34 | the count is the number of route cells where an added '#' traps the guard |
| GuardWalk.WalkRoute | day-06/src/main.rs:112-121 | the loop stops after the guard's last turn on the map, or after `fuel` turns while still on it, having stood only on map cells |
| BridgeRepair.ApplyGrows | day-07/src/main.rs:47 | with positive numbers no operator lowers the running value, which is what the `target < acc` cut-off relies on |
| BridgeRepair.EvalGrows | day-07/src/main.rs:47 | with positive numbers every evaluation ends at or above its start |
| BridgeRepair.SolvableIffReaches | day-07/src/main.rs:41-54 | for positive numbers, `is_solvable` holds exactly when some choice of `+` and `*` evaluated left to right gives the target |
| BridgeRepair.SolvableWithJoinIffReaches | day-07/src/main.rs:56-72 | for positive numbers, the three-operator search holds exactly when some choice of `+`, `*` and concatenation gives the target |
| BridgeRepair.SolvableImpliesSolvableWithJoin | day-07/src/main.rs:53-71 | every equation solvable with two operators is solvable with three |
| BridgeRepair.ZeroDefeatsCutOff | day-07/src/main.rs:47 | with a 0 among the numbers the cut-off rejects a reachable target: `5 * 0 = 0`, yet `is_solvable(0, 5, [0])` is false |
| BridgeRepair.ExactIffReaches | day-07/src/main.rs:41-54 | the search without the cut-off holds exactly when some choice of `+` and `*` gives the target, for every input |
| BridgeRepair.JoinArithmetic | day-07/src/main.rs:68 | concatenating `c` onto `acc` is `acc * 10^digits(c) + c` |
| Antennas.Difference | day-08/src/main.rs:166-172 | the offset never points left and leads from the antenna further left (or the first, in one column) to the other |
| Antennas.MinusUndoesAdd | day-08/src/main.rs:158-164 | `minus` undoes `add` and `add` undoes `minus` |
| Antennas.DifferenceOrder | day-08/src/main.rs:166-172 | swapping the antennas keeps the offset unless they share a column, where it is negated |
| Antennas.StrictAntinodeIff | day-08/src/main.rs:100-112 | a point is a strict antinode exactly when it is `2a - b` or `2b - a`, in either antenna order |
| Antennas.WalkIsRay | day-08/src/main.rs:73-85 | after `k` steps the walk stands at `start + k * d` |
| Antennas.WalkUntilOff | day-08/src/main.rs:73-78 | one relaxed loop finds the point exactly when it lies on the walk before the walk leaves the map |
| Antennas.MatchRelaxed | day-08/src/main.rs:62-88 | the relaxed test holds exactly when the point is met walking outward from either antenna before leaving the map |
| Antennas.AntennaIsRelaxedAntinode | day-08/src/main.rs:73-76 | an on-map antenna is a relaxed antinode of its own pair |
| Antennas.StrictImpliesRelaxed | day-08/src/main.rs:62-112 | an on-map strict antinode of two on-map antennas is also a relaxed antinode |
| Antennas.GroupAntennas | day-08/src/main.rs:20-28 | the grouping holds exactly the cells other than '.' and '#', each under its own character |
| Antennas.AntinodeIff | day-08/src/main.rs:91-98 | over the grouping, a point is an antinode exactly when two distinct antennas of one frequency put it at `2a - b` |
| Antennas.Pairs | day-08/src/main.rs:51-54 | the pairs tried are exactly the pairs of distinct antennas of one frequency |
| Antennas.IsAntinodeRelaxed | day-08/src/main.rs:48-60 | a point passes exactly when some pair of distinct same-frequency antennas meets it on an outward walk |
| DiskCompaction.PushAppends | day-09/src/main.rs:125-148 | `push` appends one segment after the old tail under the fresh id `nodes.len()`, and the list stays well linked |
| DiskCompaction.PopDropsLast | day-09/src/main.rs:150-161 | `pop` drops the last segment from the list but keeps its node, so the arena size and later fresh ids are unchanged |
| DiskCompaction.InsertSplices | day-09/src/main.rs:163-188 | `insert_after_finger` splices one segment in right after the finger under a fresh id, becoming the tail when the finger was the tail |
| DiskCompaction.FingerNextAdvances | day-09/src/main.rs:190-194 | `finger_next` moves the finger one place along the list and changes nothing else |
| DiskCompaction.SetAmountChangesOne | day-09/src/main.rs:212-214 | `set_amount` changes one segment's amount and no link |
| DiskCompaction.SetFileIdChangesOne | day-09/src/main.rs:216-218 | `set_file_id` changes one segment's file and no link |
| DiskCompaction.Stored | day-09/src/main.rs:42-47 | the amount moved is the smaller of the free amount under the finger and the tail file's amount |
| DiskCompaction.FillKeeps | day-09/src/main.rs:37-59 | a move keeps every file's block count and pops the tail exactly when all its blocks moved |
| DiskCompaction.PopFreeKeeps | day-09/src/main.rs:32-35 | popping a free tail keeps every file's block count |
| DiskCompaction.StepKeeps | day-09/src/main.rs:27-30 | stepping past a file under the finger keeps the list and makes progress |
| DiskCompaction.MoveBlocks | day-09/src/main.rs:37-65 | one move with the finger on the leftmost free segment puts the tail file's blocks there, as many as fit, leaves the rest of the free space right after them and the rest of the file at the tail; on the blocks, the move is that many steps of the block-by-block compaction; every file keeps its block count and the remaining work shrinks |
| DiskCompaction.Compact | day-09/src/main.rs:19-66 | compaction ends with the finger on the tail, only files before the tail, every file's block count unchanged, and the blocks are those of the block-by-block compaction of the input, less the free blocks it ends with |
| DiskCompaction.LeftmostFree | day-09/src/main.rs:27-30 | the position found is the first free block, every block before it holding a file, or the end when there is none |
| DiskCompaction.CompactBlocksKeeps | day-09/src/main.rs:37-65 | the block-by-block compaction keeps the disk's length and its blocks as a multiset |
| DiskCompaction.CompactBlocksPacked | day-09/src/main.rs:19-66 | after the block-by-block compaction no file block follows a free block |
| DiskCompaction.CompactAppendFree | day-09/src/main.rs:32-35 | free blocks at the end of the disk stay at the end through the block-by-block compaction |
| DiskCompaction.CompactNoFree | day-09/src/main.rs:23-25 | a disk without free blocks is left as it is |
| DiskCompaction.MoveOneBlock | day-09/src/main.rs:42-58 | with only files before the leftmost free block, one step moves the last file block into it and frees the end |
| DiskCompaction.MoveBlockRun | day-09/src/main.rs:42-58 | `s` steps in a row fill the first `s` blocks of the leftmost free run from the file run at the end |
| DiskCompaction.MovedBlocks | day-09/src/main.rs:37-65 | the block-by-block compaction of a disk is that of the disk after one segment move, followed by the moved number of free blocks |
| DiskCompaction.DropFreeBlocks | day-09/src/main.rs:32-35 | popping a free last segment only removes free blocks from the end of the block-by-block compaction |
| DiskCompaction.SettledBlocks | day-09/src/main.rs:23-25 | when only files come before the last segment, the block-by-block compaction changes nothing |
| DiskCompaction.FillFromTail | day-09/src/main.rs:37-58 | the free segment under the finger takes the tail's file and as many blocks as fit; the tail keeps the rest or is popped, and every file keeps its block count |
| DiskCompaction.MoveEffect | day-09/src/main.rs:37-65 | filling the finger, then inserting any free space left right after it, is exactly one segment move, with its effect on the blocks |
| DiskCompaction.PopFree | day-09/src/main.rs:32-35 | popping a free tail keeps every file's block count and the relation to the block-by-block compaction, counting the popped free blocks |
| DiskCompaction.MoveCounted | day-09/src/main.rs:37-65 | a move keeps the relation to the block-by-block compaction, counting the free blocks it leaves at the end |
| DiskCompaction.ChecksumIgnoresFreeEnd | day-09/src/main.rs:81-86 | free blocks at the end of the disk add nothing to the checksum |
| DiskCompaction.RangeSumClosed | day-09/src/main.rs:83 | the sum `file_id * i` over a run is `file_id` times an arithmetic series |
| DiskCompaction.SegChecksumIsBlockChecksum | day-09/src/main.rs:71-93 | summing run by run equals summing `file_id * position` block by block, free runs only advancing the position |
| DiskCompaction.Checksum | day-09/src/main.rs:68-93 | the checksum is the sum of `file_id * position` over every file block of the list in order |
| DiskCompaction.ReadDisk | day-09/src/main.rs:222-248 | parsing succeeds exactly on a line of digits and builds a well-linked list, finger on the head, whose segments alternate file and free from a file, one per digit, with file ids 0, 1, 2, ... |
| DiskCompaction.Solve | day-09/src/main.rs:17-96 | the answer exists exactly on a non-empty line of digits, and it is the checksum of the block-by-block compaction of the map's blocks |
| DiskDefrag.FirstFit | day-09-part2/src/main.rs:27-47 | the position found is the first one before the file whose free segment has room for it, or the file's own position when none has |
| DiskDefrag.FindFile | day-09-part2/src/main.rs:29 | the position found is the first segment holding the file, or the end when none does |
| DiskDefrag.RelocateAt | day-09-part2/src/main.rs:49-66 | after a move the free segment holds the file's id and size, any leftover free space follows it, the file's old place is free space of the file's size, and every other segment is kept in order |
| DiskDefrag.RelocateKeepsBlocks | day-09-part2/src/main.rs:49-66 | a move keeps the number of blocks of every file |
| DiskDefrag.MoveByIdKeepsBlocks | day-09-part2/src/main.rs:25-67 | trying one file keeps the number of blocks of every file |
| DiskDefrag.MovedDownToKeepsBlocks | day-09-part2/src/main.rs:19-69 | trying every file keeps the number of blocks of every file |
| DiskDefrag.MoveByIdMovesLeft | day-09-part2/src/main.rs:27-47 | a file only ever moves towards the front |
| DiskDefrag.RelocateFindsOthers | day-09-part2/src/main.rs:49-66 | every other file keeps its order among the segments, shifted by one when leftover space was inserted before it |
| DiskDefrag.RelocateSteps | day-09-part2/src/main.rs:51-66 | setting the id and size, inserting the leftover and freeing the old node, done in the source's order, is the move |
| DiskDefrag.RemoveUnlinks | day-09-part2/src/main.rs:189-207 | `remove` drops exactly one position from the list, keeps the other segments in order, and keeps the list well linked |
| DiskDefrag.RemoveEnds | day-09-part2/src/main.rs:200-206 | after `remove` the head and tail are the first and last remaining nodes |
| DiskDefrag.SetFreeChangesOne | day-09-part2/src/main.rs:243-245 | `set_free` frees one segment, keeping its amount and every link |
| DiskDefrag.MoveInto | day-09-part2/src/main.rs:49-66 | the move performed on the arena has exactly the effect of the move on the segments; since `get_previous` returns the file's own node, that node is freed with its amount kept |
| DiskDefrag.RelocatedStayPlaced | day-09-part2/src/main.rs:29 | after a move every other file is still in the node `file_id_2_node` records for it |
| DiskDefrag.MoveWholeFile | day-09-part2/src/main.rs:25-67 | the finger loop for one file moves it into the first free segment before it with room, or leaves the list as it is, and every other file stays in its recorded node |
| DiskDefrag.Defragment | day-09-part2/src/main.rs:19-69 | every file is tried exactly once, from the highest id down, with the effect of the moves on the segments |
| DiskDefrag.PushRecords | day-09-part2/src/main.rs:156-158 | `push` records the new node in `file_id_2_node` for a file and only for a file |
| DiskDefrag.LayoutFindsFile | day-09-part2/src/main.rs:260-272 | in the disk map as read, file `f` is the segment at position `2 f` |
| DiskDefrag.ReadArena | day-09-part2/src/main.rs:249-275 | parsing succeeds exactly on a line of digits, builds the alternating layout, and records every file's node |
| DiskDefrag.SolveWholeFiles | day-09-part2/src/main.rs:17-98 | on a non-empty line of digits the answer is the checksum of the layout after every file was tried once from the highest id down, and every file keeps its block count |
| HoofIt.TrailRises | day-10/src/main.rs:95-100 | along a trail every point is on the map and the height rises by exactly one per step |
| HoofIt.TrailLength | day-10/src/main.rs:76-104 | on a map of digits a trail has at most `10 - start height` points |
| HoofIt.NewClimbs | day-10/src/main.rs:50-59 | the queued neighbours are exactly the unvisited on-map orthogonal neighbours one higher than the current point |
| HoofIt.ClosedHoldsTrail | day-10/src/main.rs:44-60 | a visited set closed under climbs that holds the start holds the end of every trail from it |
| HoofIt.ScoreStep | day-10/src/main.rs:45-60 | one pass keeps the visited set within the reachable cells and either grows it or shortens the queue |
| HoofIt.TrailScore | day-10/src/main.rs:36-66 | the visited cells are exactly those reachable from the start by climbs of one, and the score is the number of height-9 cells among them |
| HoofIt.NewTrails | day-10/src/main.rs:88-103 | the queued paths are exactly the unrecorded one-climb extensions of the current trail |
| HoofIt.RatingStep | day-10/src/main.rs:80-104 | one pass keeps every recorded path a trail from the start and either records a new one or shortens the queue |
| HoofIt.ClosedHoldsAllTrails | day-10/src/main.rs:80-104 | a set of trails closed under extension that holds the one-point trail holds every trail from the start |
| HoofIt.TrailUniverse | day-10/src/main.rs:76-104 | on a map of digits all trails lie in a finite set, so the path search ends |
| HoofIt.TrailRating | day-10/src/main.rs:68-112 | the recorded paths are exactly the trails from the start, and the rating is the number of them ending on a 9 |
| StoneBlinks.SplitHalves | day-11/src/main.rs:46-55 | a stone with an even number `k` of digits splits into `n / 10^(k/2)` and `n % 10^(k/2)` |
| StoneBlinks.BlinkAll | day-11/src/main.rs:41-59 | one blink of a row keeps every stone and at most doubles the row |
| StoneBlinks.CountPositive | day-11/src/main.rs:41-59 | the count for one stone is always at least 1 |
| StoneBlinks.CountShift | day-11/src/main.rs:42-43 | the count depends only on the number of blinks left |
| StoneBlinks.BlinksAppend | day-11/src/main.rs:21-25 | stones blink independently: the row made from a concatenation is the concatenation of the rows |
| StoneBlinks.CountStep | day-11/src/main.rs:44-58 | one stone's count after `n + 1` blinks is the count, after `n`, of the stones it becomes at the first blink |
| StoneBlinks.RowCountIsLength | day-11/src/main.rs:41-59 | the count `do_solve` computes is the length of the row that the blinks make of the stones |
| StoneBlinks.DoSolve | day-11/src/main.rs:30-62 | the memoised result equals the plain recursive count, and the cache stays exact and only grows |
| StoneBlinks.CacheAdd | day-11/src/main.rs:60 | storing an exact count keeps every cache entry exact |
| StoneBlinks.Solve | day-11/src/main.rs:18-28 | the total is the number of stones in the row after `amount` blinks |
| StoneBlinks.BlinkOne | day-11/src/main.rs:42-58 | a stone turns into one or two stones at a blink |
| GardenGroups.WalkSamePlant | day-12/src/main.rs:125-132 | every plot of a walk between same-plant neighbours has the plant of its first plot |
| GardenGroups.WalkReverse | day-12/src/main.rs:125-132 | a walk read backwards is a walk, so connectedness is symmetric |
| GardenGroups.ClosedHoldsWalk | day-12/src/main.rs:119-133 | a set closed under same-plant neighbours that holds the first plot of a walk holds its last |
| GardenGroups.NewNeighbours | day-12/src/main.rs:125-132 | the queued points are exactly the same-plant on-map neighbours not yet in the region |
| GardenGroups.FillStep | day-12/src/main.rs:119-133 | one pass keeps the region within the seed's connected plots and either grows it or shortens the queue |
| GardenGroups.FindRegion | day-12/src/main.rs:110-136 | the region holds the seed and is exactly the set of plots connected to it, all on the map with the seed's plant, so it is closed under same-plant neighbours |
| GardenGroups.PlotFences | day-12/src/main.rs:42-49 | each plot contributes between 0 and 4 fence segments |
| GardenGroups.FencesAdd | day-12/src/main.rs:42-49 | adding a plot adds its own fence segments, disjoint from the others' |
| GardenGroups.Perimeter | day-12/src/main.rs:42-49 | the perimeter is the number of (plot, side) pairs whose neighbour lies outside the region, at most four per plot |
| GardenGroups.Fencing | day-12/src/main.rs:35-52 | the price is area times the number of fence segments |
| GardenGroups.FencingBulk | day-12/src/main.rs:54-73 | as written, the bulk price is 0 for every non-empty region, because `sides` is never incremented |
| GardenGroups.NewRegionDisjoint | day-12/src/main.rs:21-26 | a plot in no region so far seeds a region disjoint from all of them |
| GardenGroups.Visit | day-12/src/main.rs:21-26 | one point of the loop keeps the regions pairwise disjoint and closed, and leaves the point covered |
| GardenGroups.Regions | day-12/src/main.rs:18-26 | the regions are pairwise disjoint, each is the connected region of its seed, and every plot of the map lies in one |
| GardenGroups.SidesAtMostFences | day-12/src/main.rs:54-73 | every segment that starts a side is a fence segment, so a region has no more sides than fence segments |
| GardenGroups.RunHasStart | day-12/src/main.rs:54-73 | following a fence along its side from any segment reaches a segment that starts the side, so every fence lies on a counted side |
| GardenGroups.FencingBulkBySides | day-12/src/main.rs:54-73 | the intended bulk price is the area times the number of side starts, and never exceeds the part-one price |
| GardenGroups.CountSides | day-12/src/main.rs:54-73 | the side count is the number of (plot, direction) pairs where a straight fence side starts, at most four per plot |
| GardenGroups.BulkSinglePlot | day-12/src/main.rs:54-73 | a single plot has four sides, yet the code as written charges it 0 |
| ClawMachines.TruncRemMagnitude | day-13/src/main.rs:100 | Rust's `%` truncates toward zero: the remainder has the magnitude of the remainder of the magnitudes and the sign of the dividend |
| ClawMachines.TruncRemZero | day-13/src/main.rs:100-101 | a zero truncated remainder happens exactly when the divisor divides the dividend, and then the quotient is exact |
| ClawMachines.DivideIfDivisible | day-13/src/main.rs:99-105 | the result is present exactly when the divisor divides the numerator, and it is then the exact quotient |
| ClawMachines.Determinant | day-13/src/main.rs:85-97 | `None` exactly when `a.x * b.y - b.x * a.y` is 0, and otherwise that value |
| ClawMachines.CramerNecessary | day-13/src/main.rs:75-76 | every press count pair reaching the target satisfies Cramer's equations |
| ClawMachines.CramerSufficient | day-13/src/main.rs:75-76 | with a non-zero determinant the solutions of Cramer's equations reach the target |
| ClawMachines.SolveExtended | day-13/src/main.rs:67-83 | a result is the token cost `3a + b` of non-negative press counts reaching the prize moved by 10^13 on both axes |
| ClawMachines.SolveExtendedComplete | day-13/src/main.rs:67-83 | with a non-zero determinant, press counts reaching the moved prize give exactly their token cost; with parallel buttons the result is `None` |
| ClawMachines.TryPair | day-13/src/main.rs:42-61 | trying `(i, j)` and `(j, i)` extends the best cost found to the pairs tried so far |
| ClawMachines.ScanRow | day-13/src/main.rs:40-62 | one outer step leaves the least cost over every pair with both counts at most `i` |
| ClawMachines.ScanColumns | day-13/src/main.rs:41-61 | the inner loop over `j` up to `i` tries `(i, j)` and `(j, i)` and keeps the least cost over every pair tried so far |
| ClawMachines.SolveBrute | day-13/src/main.rs:33-65 | the result is the least `3a + b` over press counts up to 100 each that reach the prize, and `None` exactly when none do |
| WarehouseWoes.Direction | day-15/src/main.rs:100-106 | exactly the four instructions `^ v < >` have an offset, and it is a unit step; any other instruction is where the source panics |
| WarehouseWoes.RunLength | day-15/src/main.rs:108-131 | the run of boxes in front of the robot has one length, and every cell of it holds a box |
| WarehouseWoes.Step | day-15/src/main.rs:96-135 | a step is defined exactly for the four instructions and never changes the walls |
| WarehouseWoes.StepMoves | day-15/src/main.rs:113-124 | a wall right after the run of boxes leaves the warehouse unchanged; otherwise the robot moves exactly one cell along the instruction |
| WarehouseWoes.PushMovesOnlyRun | day-15/src/main.rs:117-122 | a push moves only the run: its first cell is emptied, a box appears right after it, and every other box stays |
| WarehouseWoes.StepKeepsSeparate | day-15/src/main.rs:46-53 | a step keeps robot, walls and boxes pairwise disjoint (what `char_at` asserts) and keeps the number of boxes |
| WarehouseWoes.ScanEnds | day-15/src/main.rs:108-127 | a finished scan holds exactly the run of boxes, and moving each scanned box one step moves the run |
| WarehouseWoes.DoStep | day-15/src/main.rs:96-135 | the scanning loop of `do_step` has exactly the effect of the step, and its unknown-map-character panic cannot happen |
| WarehouseWoes.RunInstructions | day-15/src/main.rs:87-94 | the instructions run in order, and the result is present exactly when every instruction is one of `^ v < >` |
| WarehouseWoes.RunKeepsSeparate | day-15/src/main.rs:87-94 | a whole run keeps the warehouse separated and the number of boxes |
| WarehouseWoes.GpsSumRemove | day-15/src/main.rs:81-85 | the GPS sum does not depend on the order the boxes are taken in |
| WarehouseWoes.SumOfGps | day-15/src/main.rs:81-85 | the result is the sum of `100 * y + x` over the boxes |
| WideWarehouse.Widen | day-15-part2/src/main.rs:217-233 | a box at column `i` becomes a left half at `2i` and a right half at `2i + 1`, and a wall fills both cells |
| WideWarehouse.WidenWellFormed | day-15-part2/src/main.rs:217-233 | widening a separated warehouse gives one whose halves are paired (`p` is a left half exactly when `p + (1,0)` is a right half) and whose cells have one occupant each |
| WideWarehouse.MovedPaired | day-15-part2/src/main.rs:164-172 | moving whole boxes keeps the halves paired |
| WideWarehouse.MovedSeparate | day-15-part2/src/main.rs:164-172 | a push that goes through keeps every cell to one occupant |
| WideWarehouse.RightsOfPairs | day-15-part2/src/main.rs:121-140 | the collected boxes are whole: their right halves are their left halves one cell right |
| WideWarehouse.PushFront | day-15-part2/src/main.rs:115-161 | the scan collects whole real boxes, each reached from the robot or from another collected box (both halves going up or down, only the far half sideways), and reports a wall among the reached cells |
| WideWarehouse.PopLeftHalf | day-15-part2/src/main.rs:121-136 | meeting a left half while pushing left cannot happen, so that panic is unreachable |
| WideWarehouse.PopRightHalf | day-15-part2/src/main.rs:137-154 | meeting a right half while pushing right cannot happen, so that panic is unreachable |
| WideWarehouse.DoStep | day-15-part2/src/main.rs:103-174 | an unknown instruction gives `None`; otherwise the warehouse stays paired and separated, and either a wall is reached and nothing changes, or every reached cell is free or part of the push and the robot and all pushed boxes move one cell |
| WideWarehouse.ClosedExcludesBlocked | day-15-part2/src/main.rs:155-172 | a push cannot both reach a wall and go through, so the two outcomes of a step exclude each other |
| WideWarehouse.RunInstructions | day-15-part2/src/main.rs:94-101 | the run is `None` exactly when some instruction is unknown; otherwise the warehouse stays paired and separated and the result ends a chain of single steps, one per instruction in order, each a blocked push that changes nothing or a closed push that moves the robot and its boxes |
| WideWarehouse.ChainStep | day-15-part2/src/main.rs:94-101 | the chain of steps over the first `i` instructions extends by the next instruction |
| WideWarehouse.ChainKnown | day-15-part2/src/main.rs:94-101 | every instruction along a chain of steps is a known direction |
| WideWarehouse.SumOfGps | day-15-part2/src/main.rs:88-92 | the GPS sum is taken over the left halves only |
| ReindeerMaze.HeadingOf | day-16/src/main.rs:212-219 | the heading chosen for a unit step has exactly that step as its offset |
| ReindeerMaze.OffsetInjective | day-16/src/main.rs:212-219 | distinct headings move by distinct offsets |
| ReindeerMaze.TurnsMeaning | day-16/src/main.rs:151-186 | no turn is needed exactly when the heading is kept, and two exactly when it is reversed |
| ReindeerMaze.TurnsSymmetric | day-16/src/main.rs:151-186 | turning from `a` to `b` takes as many quarter turns as from `b` to `a` |
| ReindeerMaze.TurnsTriangle | day-16/src/main.rs:151-186 | turning through an intermediate heading never needs fewer quarter turns |
| ReindeerMaze.StepCost | day-16/src/main.rs:73 | one move scores 1 plus 1000 per quarter turn, so 1, 1001 or 2001 |
| ReindeerMaze.Estimate | day-16/src/main.rs:77-107 | `approximate_score` lies between score-plus-distance and that plus 2000, and equals the score on the goal |
| ReindeerMaze.SurchargeConsistent | day-16/src/main.rs:77-107 | one move never lowers distance plus turn surcharge by more than the move costs |
| ReindeerMaze.SurchargeAdmissible | day-16/src/main.rs:77-107 | distance plus surcharge never exceeds the cost of any sequence of moves that reaches the goal |
| ReindeerMaze.EstimateIsLowerBound | day-16/src/main.rs:109-111 | the estimate is at most the final score of every completion of the candidate, so the `> ub` cut discards only worse walks |
| ReindeerMaze.CostSplit | day-16/src/main.rs:73 | a walk's score is the score of its prefix plus the cost of its remaining moves from the heading reached there |
| ReindeerMaze.PrefixCheaper | day-16/src/main.rs:73 | every proper prefix of a walk scores strictly less than the walk |
| ReindeerMaze.Splice | day-16/src/main.rs:118-132 | replacing the prefix of a walk by another walk to the same point changes the score only by the prefix scores and the heading there |
| ReindeerMaze.ExploreIfFeasible | day-16/src/main.rs:65-133 | a successor is produced exactly when its estimate is within `ub`, its tile is neither `S` nor `#`, and no recorded score for its point and heading is below its score; it then extends the path by one step and the record becomes the minimum |
| ReindeerMaze.ExploreLowersRecords | day-16/src/main.rs:118-128 | an expansion only lowers or adds the record of its own point and heading and keeps every other record |
| ReindeerMaze.ExploreReadsOneRecord | day-16/src/main.rs:118-125 | whether a successor is accepted depends only on the record of its own point and heading |
| ReindeerMaze.PopIndex | day-16/src/main.rs:190-201 | the heap pops a state whose `distance` is least in the frontier |
| ReindeerMaze.TilesOf | day-16/src/main.rs:56-62 | the counted tiles are exactly the points on the paths of completed states whose score is `ub` |
| ReindeerMaze.MinScore | day-16/src/main.rs:41-44 | the new `ub` is the least of the old one and the completed score |
| ReindeerMaze.ExpandOne | day-16/src/main.rs:47-50 | one expansion keeps every frontier state a valid path with its true score and distance, keeps the records the scores of real walks, and appends at most the accepted successor |
| ReindeerMaze.ExpandAll | day-16/src/main.rs:47-50 | the four expansions append at most four valid states and, for each heading, keep the successor whenever the original records would accept it |
| ReindeerMaze.PopStep | day-16/src/main.rs:39-52 | one iteration pops the least-distance state, completes it on the goal (lowering `ub`) or expands it, and keeps every other frontier state |
| ReindeerMaze.Search | day-16/src/main.rs:18-63 | when the frontier empties, `ub` is at most the score of every walk from `S` to `E`, and the tiles are exactly the points of the least-score walks |
| ReindeerMaze.Solve | day-16/src/main.rs:18-63 | no answer exactly when `S` or `E` is missing; otherwise the best score is the least score of a walk from `S` to `E` and the tiles are exactly those on least-score walks |
| ReindeerMaze.CompletedAvoidWalls | day-16/src/main.rs:113-116 | every completed path starts on `S`, ends on `E` and never stands on a wall |
| ReindeerMaze.OptimalEndsAtGoal | day-16/src/main.rs:41-44 | a least-score walk meets the goal only at its end, so completing a state on the goal loses no least-score walk |
| ReindeerMaze.PrefixRecord | day-16/src/main.rs:119-127 | no record that is the score of a real walk undercuts a least-score walk at one of its own points and headings |
| ReindeerMaze.PrefixAdvances | day-16/src/main.rs:65-133 | the successor of a prefix state of a least-score walk along that walk is accepted, and it is the next prefix state |
| ReindeerMaze.UbAtLeast | day-16/src/main.rs:41-44 | `ub` is never below the score of a least-score walk |
| ReindeerMaze.ProgressStep | day-16/src/main.rs:39-52 | every iteration keeps each least-score walk either completed or represented by one of its prefix states in the frontier |
| ReindeerMaze.OptimalBelow | day-16/src/main.rs:18-63 | below every walk from `S` to `E` lies a least-score one |
| ReindeerMaze.FinishedComplete | day-16/src/main.rs:54-62 | once every least-score walk is completed, `ub` is the least score and the counted tiles are exactly the points of least-score walks |
| ReindeerMaze.WalledPathsStayOnMap | day-16/src/main.rs:113-116 | in a maze with a walled border no valid path leaves the map, so the `None` char of an off-map point never lets one through |
| ReindeerMaze.FinishedLeast | day-16/src/main.rs:54 | once every least-score walk is completed, the best score is at most the score of every walk from `S` to `E` |
| ReindeerMaze.FoundTileIsOnOptimal | day-16/src/main.rs:56-61 | every counted tile lies on some least-score walk |
| ReindeerMaze.OptimalTileIsFound | day-16/src/main.rs:56-61 | every tile of every least-score walk is counted |
| ChronospatialComputer.FromOpcode | day-17/src/main.rs:126-138 | decoding is defined exactly on opcodes 0 to 7 and gives the operation with that opcode |
| ChronospatialComputer.OpcodeRoundTrip | day-17/src/main.rs:126-138 | decoding inverts encoding, so the eight opcodes name the eight operations one to one |
| ChronospatialComputer.Init | day-17/src/main.rs:30-36 | a new machine holds the registers and program as given, no output, and the program counter at 0 |
| ChronospatialComputer.Combo | day-17/src/main.rs:101-110 | the combo operand is defined exactly below 7: literal for 0 to 3, and one of the registers for 4 to 6 |
| ChronospatialComputer.Divide | day-17/src/main.rs:57-58 | `A / 2^combo` is defined exactly when the combo operand is, and never exceeds A |
| ChronospatialComputer.Step | day-17/src/main.rs:50-99 | a step is defined only when the operand lies inside the program and the opcode is below 8; it keeps the program and appends at most one output value, below 8 |
| ChronospatialComputer.StepControl | day-17/src/main.rs:55-97 | every instruction but `jnz` moves to the next pair, `jnz` jumps to its operand exactly when A is non-zero, and only `out` writes output |
| ChronospatialComputer.StepRegisters | day-17/src/main.rs:55-97 | `adv`, `bdv` and `cdv` store `A / 2^combo` into A, B and C; `bxl` and `bxc` xor B with the operand or with C; `bst` keeps `combo % 8`; every other register is kept |
| ChronospatialComputer.BxlTwice | day-17/src/main.rs:61-65 | `bxl` twice with one operand restores B |
| ChronospatialComputer.Run | day-17/src/main.rs:44-48 | a halted run stops with the program counter past the program, keeps the program, and only appends values below 8 to the output |
| ChronospatialComputer.RunMoreFuel | day-17/src/main.rs:44-48 | a run that ends within its step bound ends the same way under any larger bound |
| ChronospatialComputer.RunLoop | day-17/src/main.rs:44-48 | the loop stepping while the program counter is inside the program computes the run |
| ChronospatialComputer.ExampleBst | day-17/src/main.rs:66-69 | with C = 9 the program `2,6` sets B to 1 |
| ChronospatialComputer.ExampleOut | day-17/src/main.rs:81-85 | with A = 10 the program `5,0,5,1,5,4` outputs `0,1,2` |
| Binary.BinaryRoundTrip | day-17/src/main.rs:63-78 | reading back the bits of a number gives the bits again |
| Binary.ToBitsRoundTrip | day-17/src/main.rs:63-78 | spelling a number below `2^n` in `n` bits and reading it back gives the number |
| Binary.XorTwice | day-17/src/main.rs:61-65 | exclusive or with the same number twice is the identity |
| Binary.XorCommutes | day-17/src/main.rs:77-80 | exclusive or is commutative |
| Binary.XorBound | day-17/src/main.rs:61-65 | the exclusive or of two `n`-bit numbers fits in `n` bits |
| RamRun.Area | day-18/src/main.rs:88-97 | the cells the bounds test admits are exactly those with both coordinates between 0 and 70 |
| RamRun.ReachableAntitone | day-18/src/main.rs:30-44 | a point reachable with more bytes fallen is reachable with fewer |
| RamRun.NewPoints | day-18/src/main.rs:73-78 | the enqueued points are exactly the unseen accessible orthogonal neighbours, each once |
| RamRun.NextFresh | day-18/src/main.rs:73-83 | no point is enqueued twice, because it is marked seen when enqueued |
| RamRun.BeyondFront | day-18/src/main.rs:67-83 | a path to a point not yet enqueued is longer than the distance at the front of the queue |
| RamRun.ExpandClosed | day-18/src/main.rs:67-83 | the popped points stay closed under moves to points not yet enqueued |
| RamRun.Expand | day-18/src/main.rs:71-83 | one expansion keeps the queue layered by distance and either marks a new point or shortens the queue |
| RamRun.DrainedUnreachable | day-18/src/main.rs:85 | when the queue runs dry without meeting the exit, the exit is unreachable |
| RamRun.DoSolve | day-18/src/main.rs:53-86 | the result is the length of a shortest path from (0,0) to (70,70) through accessible cells, and `None` exactly when there is no such path |
| RamRun.Fallen | day-18/src/main.rs:20-23 | the corrupted cells are exactly the first `n` bytes |
| RamRun.Solve1 | day-18/src/main.rs:18-28 | after 1024 bytes the answer is the shortest path length, `None` exactly when the exit is cut off |
| RamRun.Solve2 | day-18/src/main.rs:30-51 | the answer is byte `start - 1` for the first prefix length `start` from 1025 on that cuts off the exit |
| RamRun.CutOffStays | day-18/src/main.rs:30-44 | once the exit is cut off, every longer prefix of the bytes cuts it off too |
| RamRun.NextShortest | day-18/src/main.rs:73-83 | a point enqueued from the front of the queue is at shortest distance one more than the front's |
| TowelPatterns.PrependCount | day-19/src/main.rs:74-79 | putting one towel index in front of each arrangement keeps their number |
| TowelPatterns.FromSplit | day-19/src/main.rs:74-79 | the arrangements starting at towel `i` or later are those starting with towel `i` plus those starting later, and the two groups are disjoint |
| TowelPatterns.PrefixStep | day-19/src/main.rs:51-76 | the design starts with `current + towel` exactly when what is left after `current` starts with the towel |
| TowelPatterns.CountIsArrangements | day-19/src/main.rs:63-88 | the count is the number of towel sequences spelling what the design needs after `current`, and zero when `current` is not a prefix of the design |
| TowelPatterns.SumIsArrangements | day-19/src/main.rs:72-79 | the sum over the towels from index `i` on counts the arrangements whose first towel has index `i` or more |
| TowelPatterns.ArrangementsSound | day-19/src/main.rs:63-88 | every counted arrangement spells the rest of the design |
| TowelPatterns.ArrangementsComplete | day-19/src/main.rs:63-88 | every towel sequence spelling the rest of the design is counted |
| TowelPatterns.ArrangementsIff | day-19/src/main.rs:63-88 | the counted arrangements are exactly the towel sequences spelling the rest of the design |
| TowelPatterns.FeasibleIffCount | day-19/src/main.rs:44-88 | the part-one test succeeds exactly when the part-two count is positive |
| TowelPatterns.AnyIffSum | day-19/src/main.rs:51-79 | the `any` over the towels holds exactly when the `sum` over them is positive |
| TowelPatterns.FeasibleIff | day-19/src/main.rs:44-61 | a design is feasible from `current` exactly when it is `current` followed by some sequence of towels |
| TowelPatterns.IsDesignFeasible | day-19/src/main.rs:44-61 | the memoised search answers as the plain recursion does, and only adds prefixes that cannot be completed to the `infeasible` set |
| TowelPatterns.AnyTowel | day-19/src/main.rs:51-54 | the `any` over the towels answers as the plain recursion does and keeps the `infeasible` set sound |
| TowelPatterns.CountDesigns | day-19/src/main.rs:63-88 | the memoised count equals the plain recursion's count, and the cache only gains exact entries |
| TowelPatterns.SumTowels | day-19/src/main.rs:74-79 | the sum over the towels equals the plain recursion's, with the cache kept exact |
| TowelPatterns.Solve1 | day-19/src/main.rs:17-28 | the answer is the number of designs that are a concatenation of towels |
| TowelPatterns.Solve2 | day-19/src/main.rs:30-42 | the answer is the total number of towel sequences spelling each design |
| RaceCondition.Quadrant | day-20/src/main.rs:206-211 | one nested `dx`/`dy` sweep lists exactly the offsets of one quadrant whose two components sum to at most the distance |
| RaceCondition.QuadrantsCover | day-20/src/main.rs:203-232 | the four quadrant sweeps together cover exactly the points within the Manhattan distance |
| RaceCondition.WithinDistance | day-20/src/main.rs:203-245 | the cells a cheat may end on are exactly the other on-map cells within the distance that are not walls |
| RaceCondition.CheatSteps | day-20/src/main.rs:88-99 | one cheat state per endpoint, each ending on it, longer by the endpoint's distance from the current cell, recording the cheat (wall, endpoint) |
| RaceCondition.Sift | day-20/src/main.rs:111-137 | every kept state was a candidate passing the global test; the records gain exactly the keys of the kept states and never grow |
| RaceCondition.IndependentTail | day-20/src/main.rs:111-137 | the candidates after the first have cheats of their own, none shared with the first |
| RaceCondition.SiftIndependent | day-20/src/main.rs:111-137 | for candidates with distinct cheats, a candidate is kept exactly when it passes both tests against the records before the loop, and its length is then recorded |
| RaceCondition.Explore | day-20/src/main.rs:72-140 | `None` exactly for a second cheat into a wall, and then the records are untouched; otherwise no record grows |
| RaceCondition.ExplorePlainStep | day-20/src/main.rs:100-137 | a step onto a cell that is not a wall yields only the one-longer state keeping its cheat, kept exactly when it passes both tests, and then recorded |
| RaceCondition.ExploreCheatJump | day-20/src/main.rs:84-137 | a first step into a wall yields exactly the cheat states of the landable endpoints that pass both tests, each recorded under the wall and its cheat |
| RaceCondition.ExploreKeepsNoWallRecords | day-20/src/main.rs:125-135 | exploring never records an uncheated run on a wall cell |
| RaceCondition.CheatLocalTestIsVacuous | day-20/src/main.rs:125-131 | as written, the uncheated record is looked up at the wall, where none exists, so only the cheat's own record can reject it |
| RaceCondition.SiftAtOwnCellIndependent | day-20/src/main.rs:111-137 | with the records keyed at each candidate's own cell, a candidate with a distinct cheat is kept exactly when it passes both tests there, and is recorded there |
| RaceCondition.ExploreAtOwnCellCheatJump | day-20/src/main.rs:84-137 | with the intended keys, a cheat is kept exactly when it passes the global test and neither its own record nor the uncheated record at its endpoint, less the saving, beats it |
| RaceCondition.EndpointRecordPrunesOnlyAtOwnCell | day-20/src/main.rs:125-131 | a cheat landing where an uncheated run arrived more than the saving sooner passes the test as written but fails the intended one |
| RaceCondition.RecordGoal | day-20/src/main.rs:38-44 | reaching the end lowers the cheat's best finished run to at most the run's length, and leaves every other cheat's record alone |
| RaceCondition.CountSavers | day-20/src/main.rs:62-66 | `None` exactly when no uncheated run finished (the unwrap panics), otherwise the number of recorded cheats at least 100 shorter than the uncheated run |
| RaceCondition.SaversExcludeNoCheat | day-20/src/main.rs:62-66 | the uncheated run is never counted, so the count is below the number of recorded keys |
| RaceCheats.ToDxDy | day-20-part2/src/main.rs:332-340 | every direction is an orthogonal unit step, North being (0, 1) |
| RaceCheats.OthersExactly | day-20-part2/src/main.rs:342-357 | `others` lists each of the three directions other than the given one exactly once |
| RaceCheats.OthersSymmetric | day-20-part2/src/main.rs:342-357 | `e` is among the others of `d` exactly when `d` is among the others of `e` |
| RaceCheats.Kept | day-20-part2/src/main.rs:56-70 | a neighbour's state is kept exactly when its cell is an open on-map cell and one more step beats the length recorded there |
| RaceCheats.Successors | day-20-part2/src/main.rs:56-70 | at most four successors, each one step on, open, and strictly improving its cell's record; the step in a direction is kept exactly when it passes both tests |
| RaceCheats.SuccessorsDistinct | day-20-part2/src/main.rs:56-70 | no two successors share a cell |
| RaceCheats.Record | day-20-part2/src/main.rs:72-75 | the records gain exactly the successors' cells, others keep their lengths, and each successor's cell holds its length |
| RaceCheats.RecordLowers | day-20-part2/src/main.rs:65-75 | recording the successors never raises a cell's length and strictly lowers it where a successor stands |
| RaceCheats.PopIndex | day-20-part2/src/main.rs:311-316 | the popped state has the least distance to the end in the frontier |
| RaceCheats.MinLength | day-20-part2/src/main.rs:49-54 | reaching the end sets `lb` to the lesser of its old value and the length |
| RaceCheats.SuccessorsFar | day-20-part2/src/main.rs:56-70 | no successor is closer to the start than its length |
| RaceCheats.ReachesStep | day-20-part2/src/main.rs:56-75 | a track extends by a unit step onto an open cell, one step longer |
| RaceCheats.ExpandedByPop | day-20-part2/src/main.rs:56-75 | after a state is expanded, every open neighbour's record is at most one more than its length |
| RaceCheats.ExpandedLowered | day-20-part2/src/main.rs:65-75 | records only fall, so a cell once expanded stays expanded |
| RaceCheats.SettledArrival | day-20-part2/src/main.rs:49-55 | popping the end keeps every established length queued, expanded, or matched by the lowered `lb` |
| RaceCheats.SettledExpand | day-20-part2/src/main.rs:56-75 | expanding any other state keeps every established length queued, expanded, or matched by `lb` |
| RaceCheats.SoundPop | day-20-part2/src/main.rs:45-75 | a turn keeps every queued state and every arrival at the end of a track of its length |
| RaceCheats.SearchingPop | day-20-part2/src/main.rs:45-75 | a turn keeps every queued length at least the Manhattan distance and `lb` the least arrival |
| RaceCheats.SettledDrained | day-20-part2/src/main.rs:45-78 | with the heap drained, `lb` is set and at most the length of every track from the start to the end |
| RaceCheats.PopStep | day-20-part2/src/main.rs:45-76 | one turn keeps every queued state no closer to the start than its length, `lb` the least arrival, every queued state and arrival at the end of a track of its length, and every established length queued, expanded, or on the end matched by `lb` |
| RaceCheats.SolveWithoutCheating | day-20-part2/src/main.rs:29-79 | `None` from a wall and `Some(0)` when the start is the end; once the heap drains, `Some(n)` exactly when a track from the start reaches the end, with `n` the length of a shortest such track |
| RaceCheats.WalkSpan | day-20-part2/src/main.rs:249-263 | a walk of unit steps ends no further from its first point than its number of steps |
| RaceCheats.Branches | day-20-part2/src/main.rs:265-269 | the walk is queued again once in each of the three other directions |
| RaceCheats.CheatCandidates | day-20-part2/src/main.rs:239-270 | every candidate is a walk from the origin over on-map cells, at most one step longer than the budget, ending on a detour; every first step from the origin that is an on-map detour is a candidate |
| RaceCheats.PossibleIsDetour | day-20-part2/src/main.rs:252-255 | on a finished search, `res.is_none() || res.unwrap() > distance` holds exactly on a detour, a cell no track reaches in its Manhattan distance |
| RaceCheats.PossibleCheat | day-20-part2/src/main.rs:252-255 | the next point is a possible cheat exactly when it is on the map and a detour from the origin |
| RaceCheats.Visit | day-20-part2/src/main.rs:249-269 | one turn keeps the queue's walks and the candidates within bounds, the unpopped initial entries at the front, and the branching budget shrinking |
| RaceCheats.VisitFirstStep | day-20-part2/src/main.rs:244-263 | popping an initial entry makes its first step a candidate when that step is an on-map detour |
| RaceCheats.FirstStepsAll | day-20-part2/src/main.rs:244-247 | once the four initial entries are popped, the first step in every direction is settled |
| RaceCheats.ExitSound | day-20-part2/src/main.rs:272-278 | the exit of a filtered candidate lies on the map within the budget, next to the wall it was entered from |
| RaceCheats.WallExits | day-20-part2/src/main.rs:272-278 | from a wall origin each open neighbour's one-step walk passes the exit filter |
| RaceCheats.FindAllCheats | day-20-part2/src/main.rs:239-285 | every exit is an on-map detour from the origin that is not a wall, within the budget of the origin, next to a wall; from a wall origin every open neighbour is an exit |
| RaceCheats.RecordOne | day-20-part2/src/main.rs:150-157 | a cheat saving at least the minimum is recorded with its saving, replacing an earlier entry; any other cheat changes nothing |
| RaceCheats.RecordCheats | day-20-part2/src/main.rs:139-158 | `None` exactly when some exit has no known route; otherwise the records are the old ones plus the worthwhile cheats, and every recorded saving is at least the minimum |
| RaceCheats.RecordCheatsSaving | day-20-part2/src/main.rs:150-157 | for distinct cheats each worthwhile one ends up recorded with exactly its saving |
| Keypads.ButtonsRoundTrip | day-21/src/main.rs:43-109 | the button table and its reverse lookup are inverse to each other, and their cells are exactly the keypad's cells |
| Keypads.RunConcat | day-21/src/main.rs:63-95 | replaying two blocks of keys replays the second from where the first ends |
| Keypads.RunRow | day-21/src/main.rs:82-84 | a straight horizontal run over keypad cells reaches the target column and presses nothing |
| Keypads.RunColumn | day-21/src/main.rs:86-88 | a straight vertical run over keypad cells reaches the target row and presses nothing |
| Keypads.RunPress | day-21/src/main.rs:90 | pressing 'A' presses the button under the arm |
| Keypads.DetourShortens | day-21/src/main.rs:72-80 | the detour is at most one key, and it moves the arm towards the target |
| Keypads.DetourRuns | day-21/src/main.rs:72-136 | the detour key moves the arm onto a keypad cell and presses nothing |
| Keypads.DetourRowClear | day-21/src/main.rs:72-84 | after the detour, the row towards the target column avoids the gap |
| Keypads.DetourColumnClear | day-21/src/main.rs:72-88 | after the detour, the target column towards the target row avoids the gap |
| Keypads.DetourForward | day-21/src/main.rs:72-136 | the detour key is '>', '^' or 'v', and no straight move afterwards undoes it |
| Keypads.Press | day-21/src/main.rs:67-91 | the keystrokes for one button number the Manhattan distance plus one, with 'A' only at the end |
| Keypads.PressOrdered | day-21/src/main.rs:72-90 | after at most one detour key, the arm moves horizontally before vertically, never undoing a move |
| Keypads.PressLands | day-21/src/main.rs:67-91 | replaying one button's keystrokes ends on that button and presses exactly it, never leaving the keypad |
| Keypads.TypableAll | day-21/src/main.rs:67-121 | a code can be typed exactly when each of its characters is a button of the keypad |
| Keypads.ConsoleFrom | day-21/src/main.rs:63-95 | the keystrokes exist exactly when every character is a button |
| Keypads.ConsoleFromCons | day-21/src/main.rs:63-95 | the keystrokes of a code are the keystrokes of its first button followed by those of the rest from there |
| Keypads.ConsoleFromPresses | day-21/src/main.rs:63-95 | the keystrokes press 'A' once per character and end with 'A' |
| Keypads.ConsoleFromKeys | day-21/src/main.rs:63-95 | the keystrokes use only buttons of the directional keypad |
| Keypads.Home | day-21/src/main.rs:59-113 | the arm starts on the keypad cell of 'A' |
| Keypads.Console | day-21/src/main.rs:42-153 | the keystrokes exist exactly when the code is typable, and are typable on the directional keypad |
| Keypads.ConsoleShape | day-21/src/main.rs:42-153 | the keystrokes press 'A' once per character, end with 'A' and use only directional buttons, so the next robot can always type them |
| Keypads.ConsoleFromReplays | day-21/src/main.rs:63-95 | replaying the keystrokes from the arm's cell types the code back without leaving the keypad or crossing its gap |
| Keypads.ConsoleReplays | day-21/src/main.rs:42-153 | the arm typing the keystrokes from 'A' types the code |
| Keypads.ConsoleFromLength | day-21/src/main.rs:63-95 | the number of keystrokes is the sum of the Manhattan distances between successive buttons plus one per button |
| Keypads.QuickestPath | day-21/src/main.rs:31-40 | the length of the third keystroke sequence exists exactly when every character is on the numeric keypad |
| Keypads.QuickestPathReplays | day-21/src/main.rs:31-40 | each stage replays to the previous one: the third keystrokes type the second, the second type the first, the first type the code |
| Keypads.Complexity | day-21/src/main.rs:21-25 | the complexity exists exactly when the code is typable and its first three characters parse as a number |
| Keypads.SumOfComplexities | day-21/src/main.rs:18-29 | the sum exists exactly when every code's complexity does |
| LanParty.LexTotal | day-23/src/main.rs:43 | any two names are ordered one way or the other |
| LanParty.LexAntisymmetric | day-23/src/main.rs:43 | two names ordered both ways are equal |
| LanParty.LexTransitive | day-23/src/main.rs:43 | the order of names is transitive |
| LanParty.InsertName | day-23/src/main.rs:43 | inserting a name into an ascending list keeps it ascending and adds exactly that name |
| LanParty.SortNames | day-23/src/main.rs:43 | sorting yields an ascending permutation of the names |
| LanParty.SortedUnique | day-23/src/main.rs:43 | two ascending lists of the same names are equal |
| LanParty.SortPermutation | day-23/src/main.rs:43 | the sorted list depends only on which names are sorted, not their order |
| LanParty.JoinHead | day-23/src/main.rs:44 | splitting a joined name at its first dash gives back the first dash-free name |
| LanParty.JoinInjective | day-23/src/main.rs:44 | joining equally many dash-free names with dashes is injective |
| LanParty.TriangleNameSymmetric | day-23/src/main.rs:42-44 | a triangle's name does not depend on the order of its three computers |
| LanParty.TriangleNameInjective | day-23/src/main.rs:42-44 | for dash-free names, two triangle names are equal exactly when the triangles have the same computers |
| LanParty.Connect | day-23/src/main.rs:63-66 | one pair adds both computers as keys and links them in both directions, changing nothing else |
| LanParty.LinkedAppend | day-23/src/main.rs:60-68 | one more pair links exactly that pair in both directions in addition to the earlier links |
| LanParty.NodesToConnected | day-23/src/main.rs:59-69 | the keys are exactly the computers mentioned, and `v` is a neighbour of `u` exactly when some pair joins them in either order |
| LanParty.ConnectedSymmetric | day-23/src/main.rs:59-69 | the adjacency map is symmetric |
| LanParty.CliquesOf | day-23/src/main.rs:34-48 | the name of every triangle through the key is collected |
| LanParty.CliquesOfIff | day-23/src/main.rs:34-48 | a triangle name is collected for the key exactly when its three computers are pairwise connected |
| LanParty.CliqueWitness | day-23/src/main.rs:34-48 | every collected name is the name of a triangle through the key |
| LanParty.TCliquesComplete | day-23/src/main.rs:20-28 | the name of every triangle with a computer starting with 't', in any position, is collected |
| LanParty.TCliquesSound | day-23/src/main.rs:20-28 | every collected name is the name of a triangle through a computer starting with 't' |
| LanParty.Solve1 | day-23/src/main.rs:17-32 | the answer is the number of distinct collected names, from a symmetric adjacency map |
| CrossedWires.DoEvaluate | day-24/src/main.rs:47-66 | the result is the wire's value in the acyclic circuit, the memo keeps only exact values and gains the wire |
| CrossedWires.MemoAdd | day-24/src/main.rs:64 | storing the exact value of a known wire keeps the memo exact |
| CrossedWires.EvaluateAll | day-24/src/main.rs:21-26 | after the loop over the gate outputs, in any order, the memo holds exactly the known wires, each with its value |
| CrossedWires.Evaluate | day-24/src/main.rs:20-44 | the result is the binary number the z wires spell, least significant first in suffix order |
| Binary.BinaryValue | day-24/src/main.rs:38-43 | the number the bits spell, least significant first, lies below 2 to the number of bits |
| Binary.BinaryAppend | day-24/src/main.rs:38-43 | appending a bit adds it at the next power of two |
| LockFitting.FindInColumn | day-25/src/main.rs:47-50 | the result is the first row at or after `from` whose column holds the character, and `None` exactly when no such row exists |
| LockFitting.LockHeights | day-25/src/main.rs:45-52 | one height per column: the row above the first '.' in that column; `None` exactly when some column has no '.' |
| LockFitting.KeyHeights | day-25/src/main.rs:63-70 | one height per column: the rows from the first '#' down to the last row, less one; `None` exactly when some column has no '#' |
| LockFitting.Locks | day-25/src/main.rs:40-55 | `None` exactly when some schematic is empty or is a lock with a column lacking '.'; otherwise one height list per lock |
| LockFitting.Keys | day-25/src/main.rs:58-73 | `None` exactly when some schematic is empty or is a key with a column lacking '#'; otherwise one height list per key |
| LockFitting.FitFrom | day-25/src/main.rs:21-25 | the scan from column `i` is `None` exactly when it reaches a column the lock lacks before any overlap, and `Some(true)` exactly when no column from `i` on overlaps and the lock is wide enough |
| LockFitting.FitTest | day-25/src/main.rs:20-25 | `Some(true)` exactly when the pair fits, `None` exactly when the key is wider and every column the lock has fits |
| LockFitting.OverlapBeforeMissingColumn | day-25/src/main.rs:21-25 | a lock `[5]` and a key `[1, 0]` do not fit, without a panic, because the first column already overlaps |
| LockFitting.FittingPairsCount | day-25/src/main.rs:18-27 | summing the per-lock counts gives the number of fitting (lock, key) index pairs |
| LockFitting.FitCount | day-25/src/main.rs:18-27 | `None` exactly when some pair's test panics; otherwise the number of fitting (lock, key) index pairs |
| LockFitting.Solve | day-25/src/main.rs:15-30 | the answer is the number of fitting pairs of the parsed locks and keys; `None` only where parsing or a pair's test panics |
| Decimal.Digits | day-11/src/main.rs:40 | the printed form of a number is never empty and has no leading zero except for 0 itself |
| Decimal.ValueOfDigits | day-11/src/main.rs:40-51 | parsing the printed form of a number gives the number back |
| Decimal.ValueAppend | day-07/src/main.rs:68 | the digits of `a` followed by those of `b` denote `a` shifted left by the length of `b`, plus `b` |
| Decimal.DigitsLength | day-11/src/main.rs:40-47 | a number has exactly as many digits as its printed form: it lies below the next power of ten and, unless 0, at or above the previous one |
| Decimal.ConcatArithmetic | day-07/src/main.rs:68 | `format!("{}{}", a, b).parse()` is `a * 10^digits(b) + b` |
| Decimal.SplitDigits | day-11/src/main.rs:46-51 | cutting the printed form after `h` digits and parsing both halves gives the quotient and remainder by the matching power of ten |
| Decimal.ParseNat | day-24/src/main.rs:35 | `parse::<usize>()` succeeds exactly on a non-empty string of decimal digits |
| Decimal.ParseChars | day-24/src/main.rs:35 | parsing the characters of a digit string gives the number the digits denote |
| Decimal.ParseNatRoundTrip | day-11/src/main.rs:40-51 | parsing the printed form of `n` gives back `Some(n)` |
| Sorting.Sort | day-01/src/main.rs:18-19 | sorting yields an ascending permutation of the list |
| Sorting.SortedUnique | day-01/src/main.rs:18-19 | two ascending lists holding the same elements are equal |
| Sorting.SortPermutation | day-01/src/main.rs:18-19 | sorting a permutation of a list gives the same sorted list |

## Left out

- Reading the input files, `main`, `println!` and `display` are not modelled. Every module takes the parsed input as `seq`, `map` or `set` values instead.
- Day 3 (`day-03/src/main.rs`) is not modelled, because its logic lives in the `regex` crate, which is not part of this model. Day 14 (`day-14/src/main.rs`) only reads lines and holds no logic.
- The regular-expression line parsing of day 13 is not modelled: `ClawMachines` takes the machines as numbers.
- The per-day sums that only add up the modelled results are not modelled separately. Examples are the middle-page sums of day 5, the safe-report counts of day 2, and the calibration total of day 7. The member that decides each summand is modelled.
- Hash-map and hash-set iteration order is replaced by Dafny sets and maps. Where the order reaches the result, it is a parameter: the evaluation order of `CrossedWires.EvaluateAll`, the z-wire order of `CrossedWires.Evaluate`, and the pop order of the searches.
- Machine-width overflow is not modelled, because all integers are unbounded: `usize` sums, `i32` and `i64` coordinates, the `n * 2024` of day 11.
- BridgeRepair.IsSolvable: the values are `nat` where the source uses `isize`, so negative inputs and overflow of the products are outside the model.
- ChronospatialComputer.Step: the division `A / 2^combo` is exact on unbounded integers, where the source's `2.pow(combo)` overflows for a combo operand of 64 or more.
- CrossedWires.Evaluate: the `2_usize.pow(index)` weights of day-24/src/main.rs:41 do not wrap for 64 or more z wires.
- CrossedWires.Evaluate: it requires every z suffix to parse and the suffixes to be strictly increasing along the given order. The source panics on a non-numeric suffix, and it orders equal values such as `z1` and `z01` by a stable sort. Both cases are outside the model.
- CrossedWires.DoEvaluate: termination needs an acyclic circuit. It is required as a ghost rank map, where the source would recurse without end. The same rank map requires every operand to be a known wire, where the source panics on the `unwrap` of an unknown one (day-24/src/main.rs:47-66).
- Decimal.ParseNat: a leading `+`, which Rust's `parse` accepts, is not modelled.
- ReindeerMaze.Solve: a map without `S` or `E` panics in the source and answers `None` here.
- ChronospatialComputer.Step: the panics on an unknown opcode, a combo operand of 7, and a program counter at the last cell answer `None` here.
- LockFitting.Locks: an empty schematic, or a lock column without a `.`, panics in the source and answers `None` here. The same holds for LockFitting.Keys, and for LockFitting.FitFrom when a key column has no lock column.
- ReindeerMaze.PopIndex: the frontier pops a state of least estimated distance, the first one on ties. The order of Rust's `BinaryHeap` among equal keys is not modelled. The contracts of `ReindeerMaze.Search` hold for any such choice.
- RaceCheats.PopIndex: the same abstraction applies to the heap of `solve_without_cheating`.
- GuardWalk.VisitedPoints: the walk takes a `fuel` bound on its turns and answers `None` when the guard is still on the map once the fuel is spent. `GuardWalk.WalkRoute` is its loop. Loop detection (`GuardWalk.ResultsInLoop`) needs no fuel.
- ChronospatialComputer.Run: the run takes a `fuel` bound on its steps, and `OutOfFuel` is reported apart from halting.
- ReindeerMaze.Search: the frontier loop takes a `fuel` bound on its pops. Its completeness contracts hold when it reports `Finished`.
- RaceCheats.SolveWithoutCheating: the heap loop takes a `fuel` bound. So does RaceCheats.CheatCandidates, the walk that gathers cheat endpoints.
- RaceCheats.CheatCandidates: completeness is stated for the first steps from the origin only. Deeper walks are branched only while fewer than `max_distance` candidates have been found (day-20-part2/src/main.rs:265), a count of candidates and not a path length. Which deeper cells are reached therefore depends on the queue order, and no cell-by-cell completeness holds for them.
- RaceCheats.FindAllCheats: for the same reason, only the exits next to a wall origin are stated to be found. Exits further away are stated to be sound, not complete.
- RamRun.Solve2: the model answers `None` where no prefix of the byte list cuts off the exit. In that case the Rust loop runs past the last byte and panics.
- TowelPatterns.FeasibleIff: it requires every towel to be non-empty, since the source's recursion does not terminate for an empty towel. The same holds for every member of `TowelPatterns`.
- Grids.Rectangular: grid members require every row to be as long as the first, as the puzzle inputs are.
- RaceCondition.Explore: the heap loop of day-20 `solve` (day-20/src/main.rs:34-60) is not modelled as a loop. Its step (`Explore`), goal bookkeeping (`RecordGoal`) and final count (`CountSavers`) are modelled. `distance_cheat - 1` requires a cheat distance of at least 1.
- RaceCheats.RecordCheats: the heap loop of `solve_with_cheating` is not modelled. The same goes for the `flat_map` that gathers cheat opportunities and the histogram output. The per-point cheat filter (`FindAllCheats`) and the recording rule (`RecordCheats`) are modelled.
- Keypads.SumOfComplexities: the progress output of `solve1` is left out.
- DiskDefrag.Defragment: it relies on the file ids being `0 .. n`, as `read_input` numbers them, so that counting down replaces sorting the keys. The merge-with-previous branch is unreachable, because `get_previous` returns the node itself, and it is modelled as such.
- DiskCompaction.Layout: its own contract states only the length. The alternation and numbering of the segments are stated by `DiskCompaction.ReadDisk`.
- ReindeerMaze.MazeWalk: walks that re-enter the start tile are excluded, as the search itself never steps onto `S`.
- WarehouseWoes.Step: an instruction other than `^ v < >` panics in the source and answers `None` here.

## Findings

| source | as written | input that shows it | evidently intended | confidence | as-written member | corrected member |
|---|---|---|---|---|---|---|
| day-07/src/main.rs:47 | `is_solvable` gives up once the accumulator exceeds the target, though a multiplication by 0 brings it back down | `is_solvable(0, 5, [0])` is false although `5 * 0 = 0` | the accumulator is compared with the target only when no components are left | not executed; low: puzzle inputs hold no zero components | BridgeRepair.ZeroDefeatsCutOff | BridgeRepair.ExactIffReaches |
| day-12/src/main.rs:54-73 | `calculate_fencing_bulk` never increments `sides`, so every region costs 0 | a single plot is priced 0 where its four sides give 4 | area times the number of straight fence sides | not executed; high | GardenGroups.BulkSinglePlot | GardenGroups.FencingBulkBySides |
| day-20/src/main.rs:125-131 | the local pruning keys use `next_pos`, which is the wall cell for a cheat, and no run is ever recorded at a wall | a cheat landing where an uncheated run arrived earlier by more than the saving is not pruned | the records at the cheat's endpoint decide; the final count is the same either way, only pruning is lost | not executed; medium | RaceCondition.EndpointRecordPrunesOnlyAtOwnCell | RaceCondition.ExploreAtOwnCellCheatJump |
